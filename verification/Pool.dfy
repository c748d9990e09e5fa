/** The blink engine in memory: a list threaded through a pool of 2000 slots,
    of which those with location 0 are free, and memory-mapped video output. */
module Pool {
  import opened Bytes
  import opened Blinking
  import BlinkRuns

  /** A struct mp1_blink_struct; links are slot numbers. */
  datatype Slot = Slot(node: Node, next: int)

  const NULL := -1

  const EMPTY_SLOT := Slot(Node(0, NUL, NUL, 0, 0, 0, 0), NULL)

  /** The list's slots, in order, from a link on. */
  ghost predicate Linked(pool: seq<Slot>, link: int, list: seq<nat>) {
    && (forall i :: 0 <= i < |list| ==> list[i] < |pool|)
    && link == (if list == [] then NULL else list[0])
    && forall i {:trigger pool[list[i]]} :: 0 <= i < |list| ==>
         pool[list[i]].next == if i + 1 < |list| then list[i + 1] else NULL
  }

  /** list[i], named so that the distinctness of a list's elements is looked
      into only where two of them are named. */
  function Nth(list: seq<nat>, i: nat): nat
    requires i < |list|
  {
    list[i]
  }

  ghost predicate NoRepeats(list: seq<nat>) {
    forall i: nat, j: nat {:trigger Nth(list, i), Nth(list, j)} :: i < j < |list| ==> Nth(list, i) != Nth(list, j)
  }

  lemma Differ(list: seq<nat>, i: nat, j: nat)
    requires NoRepeats(list) && i < |list| && j < |list| && i != j
    ensures list[i] != list[j]
  {
    assert Nth(list, i) != Nth(list, j);
  }

  /** A slot is in use if its location is not 0; named for the same reason. */
  predicate Used(pool: seq<Slot>, s: nat)
    requires s < |pool|
  {
    pool[s].node.location != 0
  }

  /** The list holds exactly the slots that are in use. */
  ghost predicate HoldsUsed(pool: seq<Slot>, list: seq<nat>) {
    forall s: nat {:trigger Used(pool, s)} :: s < |pool| ==> (s in list <==> Used(pool, s))
  }

  /** The node in the list's slot i. */
  function NodeIn(pool: seq<Slot>, list: seq<nat>, i: nat): Node
    requires i < |list| && list[i] < |pool|
  {
    pool[list[i]].node
  }

  function NodesOf(pool: seq<Slot>, list: seq<nat>): (r: seq<Node>)
    requires forall i :: 0 <= i < |list| ==> list[i] < |pool|
    ensures |r| == |list|
    ensures forall i {:trigger r[i]} :: 0 <= i < |r| ==> r[i] == NodeIn(pool, list, i)
  {
    seq(|list|, i requires 0 <= i < |list| => NodeIn(pool, list, i))
  }

  /** The first free slot from i on, or the pool's size. */
  function FirstFree(pool: seq<Slot>, i: nat): (r: nat)
    requires i <= |pool|
    ensures i <= r <= |pool|
    ensures forall k :: i <= k < r ==> pool[k].node.location != 0
    ensures r < |pool| ==> pool[r].node.location == 0
    decreases |pool| - i
  {
    if i == |pool| || pool[i].node.location == 0 then i else FirstFree(pool, i + 1)
  }

  // -------------------------------------------------------------- pigeonhole

  ghost function Range(n: nat): (r: set<nat>)
    ensures forall k: nat :: k in r <==> k < n
    ensures |r| == n
  {
    if n == 0 then {} else Range(n - 1) + {n - 1}
  }

  ghost function Elements(list: seq<nat>): set<nat> {
    set s | s in list
  }

  lemma {:induction false} ElementsSize(list: seq<nat>)
    requires NoRepeats(list)
    ensures |Elements(list)| == |list|
  {
    if list != [] {
      var n := |list| - 1;
      forall i: nat, j: nat | i < j < n ensures Nth(list[..n], i) != Nth(list[..n], j) {
        Differ(list, i, j);
      }
      ElementsSize(list[..n]);
      assert list == list[..n] + [list[n]];
      forall i | 0 <= i < n ensures list[..n][i] != list[n] {
        Differ(list, i, n);
      }
      assert Elements(list) == Elements(list[..n]) + {list[n]};
    }
  }

  /** The list is as long as the pool exactly when no slot is free. */
  lemma FullIff(pool: seq<Slot>, list: seq<nat>)
    requires (forall i :: 0 <= i < |list| ==> list[i] < |pool|) && NoRepeats(list) && HoldsUsed(pool, list)
    ensures |list| <= |pool|
    ensures |list| == |pool| <==> FirstFree(pool, 0) == |pool|
  {
    ElementsSize(list);
    assert Elements(list) <= Range(|pool|);
    SubsetSize(Elements(list), Range(|pool|));
    var f := FirstFree(pool, 0);
    if f < |pool| {
      assert !Used(pool, f);
      assert f !in list;
      assert f in Range(|pool|) && f !in Elements(list);
    } else {
      forall s | s in Range(|pool|) ensures s in Elements(list) {
        assert Used(pool, s);
      }
      assert Elements(list) == Range(|pool|);
    }
  }

  lemma {:induction false} SubsetSize(a: set<nat>, b: set<nat>)
    requires a <= b
    ensures |a| <= |b|
    ensures a != b ==> |a| < |b|
  {
    if a != b {
      var x :| x in b && x !in a;
      if a == b - {x} {
      } else {
        SubsetSize(a, b - {x});
      }
      assert |b - {x}| == |b| - 1;
    }
  }

  // -------------------------------------------------------- list operations

  /** All that holds of the pool, its list and the video memory's size. */
  ghost predicate PoolOk(pool: seq<Slot>, head: int, list: seq<nat>) {
    && |pool| == CELLS
    && (forall s :: 0 <= s < |pool| ==> NodeOk(pool[s].node))
    && Linked(pool, head, list) && NoRepeats(list) && HoldsUsed(pool, list)
  }

  /** What add does to the pool and the head of the list. */
  function Pushed(pool: seq<Slot>, head: int, n: Node): (seq<Slot>, int)
    requires FirstFree(pool, 0) < |pool|
  {
    var f := FirstFree(pool, 0);
    (pool[f := Slot(Started(n), head)], f)
  }

  ghost function Cons(f: nat, list: seq<nat>): (l: seq<nat>)
    ensures |l| == |list| + 1 && l[0] == f
    ensures forall i :: 1 <= i < |l| ==> l[i] == list[i - 1]
  {
    [f] + list
  }

  lemma ConsElements(f: nat, list: seq<nat>)
    requires NoRepeats(list) && f !in list
    ensures NoRepeats(Cons(f, list))
    ensures forall s :: s in Cons(f, list) <==> s == f || s in list
  {
    var l := Cons(f, list);
    forall s | s in list ensures s in l {
      var i :| 0 <= i < |list| && list[i] == s;
      assert l[i + 1] == s;
    }
    forall i: nat, j: nat | i < j < |l| ensures Nth(l, i) != Nth(l, j) {
      if i > 0 {
        Differ(list, i - 1, j - 1);
      }
    }
  }

  lemma PushedLinked(pool: seq<Slot>, head: int, list: seq<nat>, f: nat, n: Node)
    requires Linked(pool, head, list) && f < |pool| && f !in list
    ensures Linked(pool[f := Slot(n, head)], f, Cons(f, list))
  {
    var p, l := pool[f := Slot(n, head)], Cons(f, list);
    forall i | 0 <= i < |l|
      ensures l[i] < |p| && p[l[i]].next == if i + 1 < |l| then l[i + 1] else NULL
    {
      if i > 0 {
        var s := list[i - 1];
        assert s in list && p[s] == pool[s];
        assert pool[list[i - 1]].next == if i < |list| then list[i] else NULL;
      }
    }
  }

  lemma PushedNodes(pool: seq<Slot>, list: seq<nat>, f: nat, slot: Slot)
    requires (forall i :: 0 <= i < |list| ==> list[i] < |pool|) && f < |pool| && f !in list
    ensures NodesOf(pool[f := slot], Cons(f, list)) == [slot.node] + NodesOf(pool, list)
  {
  }

  /** Adding a node keeps the pool in order exactly if its location is not 0. */
  lemma PushedOkIff(pool: seq<Slot>, head: int, list: seq<nat>, n: Node)
    requires PoolOk(pool, head, list) && FirstFree(pool, 0) < |pool|
    requires n.location < CELLS && n.onLength < WORD && n.offLength < WORD
    ensures var (p, h) := Pushed(pool, head, n);
            && (forall i :: 0 <= i < |list| + 1 ==> Cons(FirstFree(pool, 0), list)[i] < |p|)
            && NodesOf(p, Cons(FirstFree(pool, 0), list)) == [Started(n)] + NodesOf(pool, list)
            && (PoolOk(p, h, Cons(FirstFree(pool, 0), list)) <==> n.location != 0)
  {
    var f := FirstFree(pool, 0);
    assert !Used(pool, f);
    assert f !in list;
    PushedLinked(pool, head, list, f, Started(n));
    PushedNodes(pool, list, f, Slot(Started(n), head));
    ConsElements(f, list);
    PushedHolds(pool, list, f, Slot(Started(n), head));
  }

  lemma PushedHolds(pool: seq<Slot>, list: seq<nat>, f: nat, slot: Slot)
    requires HoldsUsed(pool, list) && NoRepeats(list) && f < |pool| && f !in list
    ensures HoldsUsed(pool[f := slot], Cons(f, list)) <==> slot.node.location != 0
  {
    var p := pool[f := slot];
    ConsElements(f, list);
    assert Used(p, f) <==> slot.node.location != 0;
    assert f in Cons(f, list);
    forall s: nat | s < |pool| && s != f ensures s in Cons(f, list) <==> Used(p, s) {
      assert Used(pool, s) <==> Used(p, s);
    }
  }

  /** A node added at location 0 leaves its slot free; the next addition takes
      the same slot and links it to itself. */
  lemma AddingAtZeroMakesALoop(pool: seq<Slot>, head: int, n: Node, m: Node)
    requires FirstFree(pool, 0) < |pool| && n.location == 0
    ensures var (p, h) := Pushed(pool, head, n);
            && FirstFree(p, 0) < |p|
            && var (q, g) := Pushed(p, h, m);
               q[g].next == g
  {
    SameFirstFree(pool, Pushed(pool, head, n).0, 0);
  }

  lemma {:induction false} SameFirstFree(p: seq<Slot>, q: seq<Slot>, i: nat)
    requires |p| == |q| && i <= |p|
    requires forall k :: 0 <= k < |p| ==> (p[k].node.location == 0 <==> q[k].node.location == 0)
    ensures FirstFree(p, i) == FirstFree(q, i)
    decreases |p| - i
  {
    if i < |p| {
      SameFirstFree(p, q, i + 1);
    }
  }

  /** The pool after slot list[k] is unlinked and cleared. */
  function Unlinked(pool: seq<Slot>, list: seq<nat>, k: nat): (r: seq<Slot>)
    requires k < |list| && forall i :: 0 <= i < |list| ==> list[i] < |pool|
    ensures |r| == |pool|
  {
    var target := list[k];
    var relinked := if k == 0 then pool else pool[list[k - 1] := pool[list[k - 1]].(next := pool[target].next)];
    relinked[target := EMPTY_SLOT]
  }

  ghost function Without(list: seq<nat>, k: nat): (l: seq<nat>)
    requires k < |list|
    ensures |l| == |list| - 1
    ensures forall i :: 0 <= i < |l| ==> l[i] == if i < k then list[i] else list[i + 1]
  {
    list[..k] + list[k + 1..]
  }

  lemma WithoutElements(list: seq<nat>, k: nat)
    requires k < |list| && NoRepeats(list)
    ensures NoRepeats(Without(list, k))
    ensures forall s :: s in Without(list, k) <==> s in list && s != list[k]
  {
    var l := Without(list, k);
    forall s | s in list && s != list[k] ensures s in l {
      var i :| 0 <= i < |list| && list[i] == s;
      assert s == l[if i < k then i else i - 1];
    }
    forall i: nat, j: nat | i < j < |l| ensures Nth(l, i) != Nth(l, j) {
      Differ(list, if i < k then i else i + 1, if j < k then j else j + 1);
    }
    forall i | 0 <= i < |l| ensures l[i] != list[k] {
      Differ(list, if i < k then i else i + 1, k);
    }
  }

  lemma UnlinkedLinked(pool: seq<Slot>, head: int, list: seq<nat>, k: nat)
    requires Linked(pool, head, list) && NoRepeats(list) && k < |list|
    ensures Linked(Unlinked(pool, list, k), if k == 0 then pool[list[k]].next else head, Without(list, k))
  {
    var p, l := Unlinked(pool, list, k), Without(list, k);
    assert pool[list[k]].next == if k + 1 < |list| then list[k + 1] else NULL;
    forall i | 0 <= i < |l|
      ensures p[l[i]].next == if i + 1 < |l| then l[i + 1] else NULL
    {
      var j := if i < k then i else i + 1;
      Differ(list, j, k);
      if k > 0 && j != k - 1 {
        Differ(list, j, k - 1);
      }
      assert pool[list[j]].next == if j + 1 < |list| then list[j + 1] else NULL;
      assert p[l[i]].next == if k > 0 && j == k - 1 then pool[list[k]].next else pool[list[j]].next;
    }
  }

  lemma UnlinkedNodes(pool: seq<Slot>, list: seq<nat>, k: nat)
    requires (forall i :: 0 <= i < |list| ==> list[i] < |pool|) && NoRepeats(list) && k < |list|
    ensures forall i :: 0 <= i < |list| - 1 ==> Without(list, k)[i] < |pool|
    ensures var nodes := NodesOf(pool, list);
            NodesOf(Unlinked(pool, list, k), Without(list, k)) == nodes[..k] + nodes[k + 1..]
  {
    var p, l, nodes := Unlinked(pool, list, k), Without(list, k), NodesOf(pool, list);
    forall i | 0 <= i < |l|
      ensures p[l[i]].node == (nodes[..k] + nodes[k + 1..])[i]
    {
      var j := if i < k then i else i + 1;
      Differ(list, j, k);
    }
  }

  lemma UnlinkedOk(pool: seq<Slot>, head: int, list: seq<nat>, k: nat)
    requires PoolOk(pool, head, list) && k < |list|
    ensures PoolOk(Unlinked(pool, list, k), if k == 0 then pool[list[k]].next else head, Without(list, k))
  {
    UnlinkedLinked(pool, head, list, k);
    WithoutElements(list, k);
    var p := Unlinked(pool, list, k);
    assert forall s :: 0 <= s < |pool| && s != list[k] ==> p[s].node == pool[s].node;
    assert p[list[k]] == EMPTY_SLOT;
    forall s: nat | s < |pool| ensures s in Without(list, k) <==> Used(p, s) {
      assert Used(pool, s) <==> s in list;
    }
  }

  // ---------------------------------------------------------------- program

  class Blink {
    const pool: array<Slot>   // blink_array
    const vmem: array<byte>   // *vmem_base_addr
    var head: int             // mp1_list_head
    ghost var list: seq<nat>  // the slots from the head on

    ghost predicate Valid()
      reads this, pool, vmem
    {
      pool.Length == CELLS && vmem.Length == 2 * CELLS && PoolOk(pool[..], head, list)
    }

    ghost function State(): Engine
      requires Valid()
      reads this, pool, vmem
    {
      Engine(NodesOf(pool[..], list), vmem[..])
    }

    /** The cleared pool and the empty list of the program's start. */
    constructor (screen: array<byte>)
      requires screen.Length == 2 * CELLS
      ensures Valid() && fresh(pool) && vmem == screen && list == []
    {
      pool := new Slot[2000](_ => EMPTY_SLOT);
      vmem := screen;
      head := NULL;
      list := [];
    }

    method Poke(offset: nat, c: byte)
      requires vmem.Length == 2 * CELLS && offset < 2 * CELLS
      modifies vmem
      ensures vmem[..] == old(vmem[..])[offset := c]
    {
      vmem[offset] := c;
    }

    /** mp1_malloc: the first slot with location 0. */
    method Malloc() returns (slot: int)
      ensures var f := FirstFree(pool[..], 0);
              slot == if f < pool.Length then f else NULL
    {
      var i := 0;
      while i < pool.Length
        invariant i <= pool.Length && FirstFree(pool[..], 0) == FirstFree(pool[..], i)
      {
        if pool[i].node.location == 0 {
          return i;
        }
        i := i + 1;
      }
      return NULL;
    }

    /** mp1_find_helper: the slot of the first node at a location. */
    method FindHelper(location: nat) returns (slot: int)
      requires Valid()
      ensures var i := IndexOf(NodesOf(pool[..], list), location);
              slot == if i < |list| then list[i] else NULL
    {
      ghost var nodes := NodesOf(pool[..], list);
      ghost var k := 0;
      slot := head;
      while slot != NULL
        invariant k <= |list| && slot == if k < |list| then list[k] else NULL
        invariant forall i :: 0 <= i < k ==> nodes[i].location != location
        decreases |list| - k
      {
        assert nodes[k] == pool[..][list[k]].node;
        if pool[slot].node.location == location {
          break;
        }
        slot := pool[slot].next;
        k := k + 1;
      }
      IndexIs(nodes, location, k);
    }

    /** mp1_ioctl_add. */
    method Add(n: Node) returns (r: int)
      requires Valid() && n.location < WORD && n.onLength < WORD && n.offLength < WORD
      modifies this, pool, vmem
      ensures n.location != 0 || r == FAILURE ==> Valid() && (State(), r) == Added(old(State()), n)
      ensures n.location == 0 && r == SUCCESS ==>
                && !Valid()
                && FirstFree(old(pool[..]), 0) < CELLS
                && (pool[..], head) == Pushed(old(pool[..]), old(head), n)
      ensures n.location == 0 ==> (r == SUCCESS <==> |old(list)| < CELLS)
    {
      FullIff(pool[..], list);
      if n.location >= 2000 {
        return FAILURE;
      }
      var edx := Malloc();
      if edx == NULL {
        return FAILURE;
      }
      PushedOkIff(pool[..], head, list, n);
      pool[edx] := Slot(Started(n), head);
      list := Cons(edx, list);
      head := edx;
      assert (pool[..], head) == Pushed(old(pool[..]), old(head), n);
      Poke(2 * n.location, n.onChar);
      return SUCCESS;
    }

    /** The search of mp1_ioctl_remove for the link to a listed node: the
        head (NULL here) or the next field of the slot returned. */
    method FindLink(eax: int, ghost k: nat) returns (edx: int)
      requires Valid() && k < |list| && eax == list[k]
      ensures edx == if k == 0 then NULL else list[k - 1]
    {
      edx := NULL;
      var link := head;
      ghost var i := 0;
      while link != eax
        invariant 0 <= i <= k && link == list[i]
        invariant edx == if i == 0 then NULL else list[i - 1]
        decreases k - i
      {
        assert pool[..][list[i]].next == list[i + 1];
        edx := link;
        link := pool[edx].next;
        i := i + 1;
      }
      if i < k {
        Differ(list, i, k);
      }
    }

    /** The removal itself: the link skips the node, and its slot is cleared. */
    method Unlink(edx: int, eax: nat, ghost k: nat)
      requires Valid() && k < |list| && eax == list[k]
      requires edx == if k == 0 then NULL else list[k - 1]
      modifies this, pool
      ensures pool[..] == Unlinked(old(pool[..]), old(list), k)
      ensures head == (if k == 0 then old(pool[list[k]].next) else old(head)) && list == Without(old(list), k)
    {
      var ecx := pool[eax].next;
      if edx == NULL {
        head := ecx;
      } else {
        pool[edx] := pool[edx].(next := ecx);
      }
      pool[eax] := EMPTY_SLOT;
      list := Without(list, k);
    }

    /** A listed node leaves the list. */
    method RemoveSlot(eax: nat, ghost k: nat)
      requires Valid() && k < |list| && eax == list[k]
      modifies this, pool
      ensures Valid()
      ensures var e := old(State()); State() == Engine(e.nodes[..k] + e.nodes[k + 1..], e.screen)
    {
      var edx := FindLink(eax, k);
      UnlinkedOk(pool[..], head, list, k);
      UnlinkedNodes(pool[..], list, k);
      Unlink(edx, eax, k);
    }

    /** mp1_ioctl_remove: the first node at the location, if any, is unlinked. */
    method Remove(arg: nat) returns (r: int)
      requires Valid()
      modifies this, pool
      ensures Valid()
      ensures (State(), r) == Removed(old(State()), arg % WORD)
    {
      var eax := FindHelper(arg % WORD);
      if eax == NULL {
        return FAILURE;
      }
      RemoveSlot(eax, IndexOf(State().nodes, arg % WORD));
      return SUCCESS;
    }

    /** mp1_ioctl_find: the structure of the first node at the location. */
    method Find(location: nat) returns (r: int, found: Slot)
      requires Valid() && location < WORD
      ensures var nodes := NodesOf(pool[..], list);
              var i := IndexOf(nodes, location);
              if i < |nodes| then r == SUCCESS && found.node == nodes[i] else r == FAILURE
    {
      var eax := FindHelper(location);
      if eax == NULL {
        return FAILURE, EMPTY_SLOT;
      }
      return SUCCESS, pool[eax];
    }

    /** A listed node is overwritten, but for its location and its link. */
    method Overwrite(slot: nat, n: Node, ghost k: nat)
      requires Valid() && k < |list| && slot == list[k]
      requires NodeOk(n) && n.location == pool[slot].node.location
      modifies pool
      ensures Valid()
      ensures NodesOf(pool[..], list) == NodesOf(old(pool[..]), list)[k := n]
    {
      ghost var before := pool[..];
      pool[slot] := pool[slot].(node := n);
      OverwrittenOk(before, head, list, k, n);
      assert pool[..] == before[slot := before[slot].(node := n)];
    }

    /** One listed node takes over the lengths, countdown and status of another,
        and is shown with its off character. */
    method CopyRhythm(esi: nat, edi: nat, ghost i: nat, ghost j: nat)
      requires Valid() && i < |list| && esi == list[i] && j < |list| && edi == list[j]
      modifies pool, vmem
      ensures Valid()
      ensures var e := old(State());
              State() == Engine(e.nodes[j := InRhythm(e.nodes[j], e.nodes[i])],
                                e.screen[2 * e.nodes[j].location := e.nodes[j].offChar])
    {
      var n := pool[edi].node;
      var m := pool[esi].node;
      assert State().nodes[i] == m && State().nodes[j] == n;
      Overwrite(edi, n.(onLength := m.onLength, offLength := m.offLength, countdown := m.countdown, status := m.status), j);
      assert State().nodes[j] == InRhythm(n, m);
      var cl := pool[edi].node.offChar;  // testb clears SF and OF, so cmovl never moves
      Poke(2 * pool[edi].node.location, cl);
    }

    /** mp1_ioctl_sync: the two locations are the halves of one argument. */
    method Sync(arg: nat) returns (r: int)
      requires Valid() && arg < U32
      modifies pool, vmem
      ensures Valid()
      ensures (State(), r) == Synced(old(State()), arg / WORD, arg % WORD)
    {
      var first, second := arg / WORD, arg % WORD;
      ghost var nodes := State().nodes;
      var esi := FindHelper(first);
      if esi == NULL {
        return FAILURE;
      }
      var edi := FindHelper(second);
      if edi == NULL {
        return FAILURE;
      }
      CopyRhythm(esi, edi, IndexOf(nodes, first), IndexOf(nodes, second));
      return SUCCESS;
    }

    /** A node's countdown goes on. */
    method CountDown(slot: nat, countdown: nat, ghost k: nat)
      requires Valid() && k < |list| && slot == list[k] && countdown < WORD
      modifies pool
      ensures Valid()
      ensures var e := old(State());
              State() == Engine(e.nodes[k := e.nodes[k].(countdown := countdown)], e.screen)
    {
      Overwrite(slot, pool[slot].node.(countdown := countdown), k);
    }

    /** A node is shown with the other character and starts its other phase. */
    method Toggle(slot: nat, c: byte, length: nat, status: nat, ghost k: nat)
      requires Valid() && k < |list| && slot == list[k] && length < WORD && status <= 1
      modifies pool, vmem
      ensures Valid()
      ensures var e := old(State());
              State() == Engine(e.nodes[k := e.nodes[k].(countdown := length, status := status)],
                                e.screen[2 * e.nodes[k].location := c])
    {
      var n := pool[slot].node;
      Poke(2 * n.location, c);
      Overwrite(slot, n.(countdown := length, status := status), k);
    }

    /** The loop body of mp1_rtc_tasklet: one node's tick, and the next node. */
    method TickSlot(slot: nat, ghost k: nat) returns (next: int)
      requires Valid() && k < |list| && slot == list[k]
      modifies pool, vmem
      ensures Valid()
      ensures State() == TickedAt(old(State()), k)
      ensures next == if k + 1 < |list| then list[k + 1] else NULL
    {
      var n := pool[slot].node;
      assert State().nodes[k] == n;
      var countdown := Decremented(n.countdown);
      if Positive(countdown) {
        CountDown(slot, countdown, k);
      } else if n.status == 1 {
        Toggle(slot, n.offChar, n.offLength, 0, k);
      } else {
        Toggle(slot, n.onChar, n.onLength, 1, k);
      }
      NextLink(pool[..], head, list, k);
      next := pool[slot].next;
    }

    /** mp1_rtc_tasklet: a walk over the list. */
    method RtcTasklet()
      requires Valid()
      modifies pool, vmem
      ensures Valid()
      ensures State() == Ticked(old(State()))
    {
      ghost var was, now := State(), State();
      ghost var k := 0;
      var ebx := head;
      while ebx != NULL
        invariant Valid() && k <= |list| && ebx == if k < |list| then list[k] else NULL
        invariant State() == now
        invariant EngineOk(was) && |was.nodes| == |list|
        invariant now == Walked(was, k)
        decreases |list| - k
      {
        ebx := TickSlot(ebx, k);
        now := TickedAt(now, k);
        k := k + 1;
      }
      WalkedAll(was);
    }
  }

  lemma NextLink(pool: seq<Slot>, head: int, list: seq<nat>, k: nat)
    requires Linked(pool, head, list) && k < |list|
    ensures pool[list[k]].next == if k + 1 < |list| then list[k + 1] else NULL
  {
    assert list[k] < |pool|;
  }

  lemma OverwrittenOk(pool: seq<Slot>, head: int, list: seq<nat>, k: nat, n: Node)
    requires PoolOk(pool, head, list) && k < |list|
    requires NodeOk(n) && n.location == pool[list[k]].node.location
    ensures var p := pool[list[k] := pool[list[k]].(node := n)];
            PoolOk(p, head, list) && NodesOf(p, list) == NodesOf(pool, list)[k := n]
  {
    var p := pool[list[k] := pool[list[k]].(node := n)];
    assert forall s :: 0 <= s < |pool| ==> p[s].next == pool[s].next && p[s].node.location == pool[s].node.location;
    assert forall i :: 0 <= i < |list| ==> pool[list[i]].next == p[list[i]].next;
    assert Linked(p, head, list);
    forall s: nat | s < |pool| ensures s in list <==> Used(p, s) {
      assert Used(pool, s) <==> Used(p, s);
    }
    forall i | 0 <= i < |list| ensures NodesOf(p, list)[i] == NodesOf(pool, list)[k := n][i] {
      if i != k {
        Differ(list, i, k);
      }
    }
  }

  // -------------------------------------------------------------- whole runs

  /** The event fits the calling convention: 16-bit fields, and no addition at location 0. */
  predicate Callable(event: BlinkRuns.Event) {
    match event
    case Adding(n) => 0 < n.location < WORD && n.onLength < WORD && n.offLength < WORD
    case Removing(l) => l < WORD
    case Finding(l) => l < WORD
    case Syncing(f, s) => f < WORD && s < WORD
    case Ticking => true
  }

  lemma Halves(f: nat, s: nat, arg: nat)
    requires f < WORD && s < WORD && arg == f * WORD + s
    ensures arg < U32 && arg / WORD == f && arg % WORD == s
  {
  }

  method RemoveAt(blink: Blink, location: nat)
    requires blink.Valid() && location < WORD
    modifies blink, blink.pool, blink.vmem
    ensures blink.Valid() && blink.State() == Removed(old(blink.State()), location).0
  {
    Halves(0, location, location);
    var r := blink.Remove(location);
  }

  method SyncPair(blink: Blink, first: nat, second: nat)
    requires blink.Valid() && first < WORD && second < WORD
    modifies blink, blink.pool, blink.vmem
    ensures blink.Valid() && blink.State() == Synced(old(blink.State()), first, second).0
  {
    var arg := first * WORD + second;
    Halves(first, second, arg);
    var r := blink.Sync(arg);
  }

  /** mp1_ioctl and the tasklet: every event is a step of the list of nodes. */
  method Handle(blink: Blink, event: BlinkRuns.Event)
    requires blink.Valid() && Callable(event)
    modifies blink, blink.pool, blink.vmem
    ensures blink.Valid()
    ensures blink.State() == BlinkRuns.Step(old(blink.State()), event)
  {
    match event
    case Adding(n) => var r := blink.Add(n);
    case Removing(l) => RemoveAt(blink, l);
    case Finding(l) => var r, found := blink.Find(l);
    case Syncing(f, s) => SyncPair(blink, f, s);
    case Ticking => blink.RtcTasklet();
  }

  /** The engines that events lead through. */
  ghost predicate Trace(trace: seq<Engine>, events: seq<BlinkRuns.Event>, n: nat) {
    && n <= |events| && |trace| == n + 1
    && (forall i :: 0 <= i <= n ==> EngineOk(trace[i]))
    && forall i :: 0 <= i < n ==> BlinkRuns.EventOk(events[i]) && trace[i + 1] == BlinkRuns.Step(trace[i], events[i])
  }

  lemma {:induction false} TraceIsRun(trace: seq<Engine>, events: seq<BlinkRuns.Event>)
    requires Trace(trace, events, |events|)
    ensures forall i :: 0 <= i < |events| ==> BlinkRuns.EventOk(events[i])
    ensures BlinkRuns.Run(trace[0], events) == trace[|events|]
    decreases |events|
  {
    if events != [] {
      assert trace[1] == BlinkRuns.Step(trace[0], events[0]);
      forall i | 0 <= i < |events| - 1
        ensures BlinkRuns.EventOk(events[1..][i]) && trace[1..][i + 1] == BlinkRuns.Step(trace[1..][i], events[1..][i])
      {
        assert trace[i + 2] == BlinkRuns.Step(trace[i + 1], events[i + 1]);
      }
      TraceIsRun(trace[1..], events[1..]);
    }
  }

  lemma TraceGrows(trace: seq<Engine>, events: seq<BlinkRuns.Event>, n: nat, e: Engine)
    requires Trace(trace, events, n) && n < |events| && Callable(events[n])
    requires EngineOk(e) && e == BlinkRuns.Step(trace[n], events[n])
    ensures Trace(trace + [e], events, n + 1)
  {
  }

  /** Over every run of additions, removals, searches, syncs and ticks the
      list stays acyclic and holds exactly the slots in use, and the engine
      does what the list of nodes does. */
  method Play(blink: Blink, events: seq<BlinkRuns.Event>)
    requires blink.Valid() && forall i :: 0 <= i < |events| ==> Callable(events[i])
    modifies blink, blink.pool, blink.vmem
    ensures blink.Valid()
    ensures forall i :: 0 <= i < |events| ==> BlinkRuns.EventOk(events[i])
    ensures blink.State() == BlinkRuns.Run(old(blink.State()), events)
  {
    ghost var trace := PlayTrace(blink, events);
    TraceIsRun(trace, events);
  }

  method PlayTrace(blink: Blink, events: seq<BlinkRuns.Event>) returns (ghost trace: seq<Engine>)
    requires blink.Valid() && forall i :: 0 <= i < |events| ==> Callable(events[i])
    modifies blink, blink.pool, blink.vmem
    ensures blink.Valid()
    ensures Trace(trace, events, |events|) && trace[0] == old(blink.State()) && trace[|events|] == blink.State()
  {
    trace := [blink.State()];
    for i := 0 to |events|
      invariant blink.Valid()
      invariant Trace(trace, events, i) && trace[0] == old(blink.State()) && trace[i] == blink.State()
    {
      Handle(blink, events[i]);
      TraceGrows(trace, events, i, blink.State());
      trace := trace + [blink.State()];
    }
  }

  /** A node is removed, any run without an addition at its location follows,
      and a search for it: the search fails. */
  method RemoveAndSearch(blink: Blink, location: nat, events: seq<BlinkRuns.Event>) returns (r: int)
    requires blink.Valid() && BlinkRuns.Distinct(blink.State().nodes) && location < WORD
    requires forall i :: 0 <= i < |events| ==>
               Callable(events[i]) && (events[i].Adding? ==> events[i].node.location != location)
    modifies blink, blink.pool, blink.vmem
    ensures blink.Valid() && r == FAILURE
  {
    ghost var e := blink.State();
    RemoveAt(blink, location);
    assert forall i :: 0 <= i < |events| ==> BlinkRuns.EventOk(events[i]);
    BlinkRuns.RemovedForGood(e, location, events);
    Play(blink, events);
    var found;
    r, found := blink.Find(location);
  }
}
