/** The blink engine as a value: a list of blinking cells and the video bytes
    they write. */
module Blinking {
  import opened Bytes

  const CELLS := 2000  // 80 * 25
  const WORD := 0x1_0000

  /** A struct mp1_blink_struct without its link. */
  datatype Node = Node(location: nat, onChar: byte, offChar: byte, onLength: nat, offLength: nat,
                       countdown: nat, status: nat)

  datatype Engine = Engine(nodes: seq<Node>, screen: seq<byte>)

  /** Every field fits its 16 bits, and the cell is on the screen. */
  predicate NodeOk(n: Node) {
    n.location < CELLS && n.onLength < WORD && n.offLength < WORD && n.countdown < WORD && n.status <= 1
  }

  ghost predicate EngineOk(e: Engine) {
    |e.screen| == 2 * CELLS && forall i :: 0 <= i < |e.nodes| ==> NodeOk(e.nodes[i])
  }

  // ------------------------------------------------------------- operations

  /** decw: a 16-bit decrement. */
  function Decremented(n: nat): (r: nat)
    requires n < WORD
    ensures r < WORD
  {
    if n == 0 then WORD - 1 else n - 1
  }

  /** jg after cmpw $0: positive as a signed 16-bit number. */
  predicate Positive(n: nat) {
    0 < n < 0x8000
  }

  predicate Toggles(n: Node)
    requires NodeOk(n)
  {
    !Positive(Decremented(n.countdown))
  }

  /** One node after one tick. */
  function TickNode(n: Node): (r: Node)
    requires NodeOk(n)
    ensures NodeOk(r) && r.location == n.location && r.onChar == n.onChar && r.offChar == n.offChar
  {
    if !Toggles(n) then n.(countdown := Decremented(n.countdown))
    else if n.status == 1 then n.(countdown := n.offLength, status := 0)
    else n.(countdown := n.onLength, status := 1)
  }

  /** The character of a node that is on or off. */
  function Shown(n: Node): byte {
    if n.status == 1 then n.onChar else n.offChar
  }

  function TickScreen(nodes: seq<Node>, screen: seq<byte>): (r: seq<byte>)
    requires |screen| == 2 * CELLS && forall i :: 0 <= i < |nodes| ==> NodeOk(nodes[i])
    ensures |r| == |screen|
  {
    if nodes == [] then screen
    else
      var n := nodes[0];
      TickScreen(nodes[1..], if Toggles(n) then screen[2 * n.location := Shown(TickNode(n))] else screen)
  }

  function TickNodes(nodes: seq<Node>): (r: seq<Node>)
    requires forall i :: 0 <= i < |nodes| ==> NodeOk(nodes[i])
    ensures |r| == |nodes| && forall i :: 0 <= i < |r| ==> r[i] == TickNode(nodes[i])
  {
    seq(|nodes|, i requires 0 <= i < |nodes| => TickNode(nodes[i]))
  }

  function Ticked(e: Engine): (r: Engine)
    requires EngineOk(e)
    ensures EngineOk(r)
  {
    Engine(TickNodes(e.nodes), TickScreen(e.nodes, e.screen))
  }

  /** The tick of one node. */
  function TickedAt(e: Engine, k: nat): (r: Engine)
    requires EngineOk(e) && k < |e.nodes|
    ensures EngineOk(r) && |r.nodes| == |e.nodes|
  {
    var n := e.nodes[k];
    Engine(e.nodes[k := TickNode(n)],
           if Toggles(n) then e.screen[2 * n.location := Shown(TickNode(n))] else e.screen)
  }

  /** The tick of the first k nodes, one after the other. */
  function Walked(e: Engine, k: nat): (r: Engine)
    requires EngineOk(e) && k <= |e.nodes|
    ensures EngineOk(r) && |r.nodes| == |e.nodes|
  {
    if k == 0 then e else TickedAt(Walked(e, k - 1), k - 1)
  }

  lemma {:induction false} WalkedSoFar(e: Engine, k: nat)
    requires EngineOk(e) && k <= |e.nodes|
    ensures forall i :: 0 <= i < |e.nodes| ==>
              Walked(e, k).nodes[i] == if i < k then TickNode(e.nodes[i]) else e.nodes[i]
    ensures TickScreen(e.nodes[k..], Walked(e, k).screen) == TickScreen(e.nodes, e.screen)
  {
    if k == 0 {
      assert e.nodes[0..] == e.nodes;
    } else {
      WalkedSoFar(e, k - 1);
      assert e.nodes[k - 1..][1..] == e.nodes[k..];
    }
  }

  /** Walking over the whole list is a tick. */
  lemma WalkedAll(e: Engine)
    requires EngineOk(e)
    ensures Walked(e, |e.nodes|) == Ticked(e)
  {
    WalkedSoFar(e, |e.nodes|);
    assert e.nodes[|e.nodes|..] == [];
    assert Walked(e, |e.nodes|).nodes == Ticked(e).nodes;
  }

  /** The node that add puts in the list. */
  function Started(n: Node): Node {
    n.(status := 1, countdown := n.onLength)
  }

  function Added(e: Engine, n: Node): (r: (Engine, int))
    requires EngineOk(e) && n.onLength < WORD && n.offLength < WORD
    ensures EngineOk(r.0)
  {
    if n.location >= CELLS || |e.nodes| >= CELLS then (e, FAILURE)
    else (Engine([Started(n)] + e.nodes, e.screen[2 * n.location := n.onChar]), SUCCESS)
  }

  /** The index of the first node at a location, or the number of nodes. */
  function IndexOf(nodes: seq<Node>, location: nat): (i: nat)
    ensures i <= |nodes|
    ensures i < |nodes| ==> nodes[i].location == location
    ensures forall k :: 0 <= k < i ==> nodes[k].location != location
  {
    if nodes == [] || nodes[0].location == location then 0 else 1 + IndexOf(nodes[1..], location)
  }

  lemma {:induction false} IndexIs(nodes: seq<Node>, location: nat, i: nat)
    requires i <= |nodes| && (i < |nodes| ==> nodes[i].location == location)
    requires forall k :: 0 <= k < i ==> nodes[k].location != location
    ensures IndexOf(nodes, location) == i
  {
    if i > 0 {
      IndexIs(nodes[1..], location, i - 1);
    }
  }

  function Removed(e: Engine, location: nat): (r: (Engine, int))
    requires EngineOk(e)
    ensures EngineOk(r.0)
  {
    var i := IndexOf(e.nodes, location);
    if i == |e.nodes| then (e, FAILURE)
    else (Engine(e.nodes[..i] + e.nodes[i + 1..], e.screen), SUCCESS)
  }

  /** n with the rhythm of m. */
  function InRhythm(n: Node, m: Node): Node {
    n.(onLength := m.onLength, offLength := m.offLength, countdown := m.countdown, status := m.status)
  }

  /** sync: the node at `second` takes over the rhythm of the node at `first`;
      what is shown there is the off character, because the condition of the
      conditional move that would select the other one is never met. */
  function Synced(e: Engine, first: nat, second: nat): (r: (Engine, int))
    requires EngineOk(e)
    ensures EngineOk(r.0)
  {
    var i, j := IndexOf(e.nodes, first), IndexOf(e.nodes, second);
    if i == |e.nodes| || j == |e.nodes| then (e, FAILURE)
    else
      var n := e.nodes[j];
      (Engine(e.nodes[j := InRhythm(n, e.nodes[i])], e.screen[2 * n.location := n.offChar]), SUCCESS)
  }

  // ----------------------------------------------------------------- timing

  /** For how many ticks a phase of this length lasts: a 16-bit length that is
      zero or beyond 32768 is over at once. */
  function Lasting(length: nat): nat {
    if 1 <= length <= 0x8000 then length else 1
  }

  function TickTimes(n: Node, k: nat): (r: Node)
    requires NodeOk(n)
    ensures NodeOk(r) && r.location == n.location && r.onChar == n.onChar && r.offChar == n.offChar
  {
    if k == 0 then n else TickNode(TickTimes(n, k - 1))
  }

  lemma {:induction false} TimesStep(p: nat, a: nat, b: nat)
    requires a < b
    ensures p * a + p <= p * b
  {
    if a + 1 < b {
      TimesStep(p, a, b - 1);
    }
  }

  lemma ModIs(n: nat, p: nat, q: nat, r: nat)
    requires r < p && n == p * q + r
    ensures n % p == r
  {
    var q', r' := n / p, n % p;
    assert n == p * q' + r' && 0 <= r' < p;
    if q < q' {
      TimesStep(p, q, q');
      assert false;
    } else if q' < q {
      TimesStep(p, q', q);
      assert false;
    }
  }

  lemma ModNext(k: nat, p: nat)
    requires p > 0 && k > 0
    ensures k % p == if (k - 1) % p + 1 == p then 0 else (k - 1) % p + 1
  {
    var q, m := (k - 1) / p, (k - 1) % p;
    if m + 1 == p {
      assert k == p * (q + 1);
      ModIs(k, p, q + 1, 0);
    } else {
      ModIs(k, p, q, m + 1);
    }
  }

  /** The place that k steps reach on a circle of p. */
  function Place(k: nat, p: nat): (m: nat)
    requires p > 0
    ensures m < p
  {
    if k == 0 then 0
    else
      var m := Place(k - 1, p);
      if m + 1 == p then 0 else m + 1
  }

  lemma {:induction false} PlaceIsMod(k: nat, p: nat)
    requires p > 0
    ensures Place(k, p) == k % p
  {
    if k > 0 {
      PlaceIsMod(k - 1, p);
      ModNext(k, p);
    } else {
      ModIs(0, p, 0, 0);
    }
  }

  function Period(n: Node): (p: nat)
    ensures p >= 2
  {
    Lasting(n.onLength) + Lasting(n.offLength)
  }

  /** A started node at place m of its period. */
  function AtPlace(n: Node, m: nat): Node {
    var on := Lasting(n.onLength);
    if m < on then Started(n).(countdown := n.onLength - Min(m, n.onLength))
    else Started(n).(status := 0, countdown := n.offLength - Min(m - on, n.offLength))
  }

  lemma NextPlace(n: Node, m: nat)
    requires NodeOk(n) && m < Period(n)
    ensures NodeOk(AtPlace(n, m))
    ensures TickNode(AtPlace(n, m)) == AtPlace(n, if m + 1 == Period(n) then 0 else m + 1)
  {
  }

  lemma {:induction false} TicksOfStarted(n: Node, k: nat)
    requires NodeOk(n)
    ensures TickTimes(Started(n), k) == AtPlace(n, Place(k, Period(n)))
  {
    if k > 0 {
      TicksOfStarted(n, k - 1);
      NextPlace(n, Place(k - 1, Period(n)));
    }
  }

  /** A node is on after k ticks exactly when k falls in the on part of its period. */
  lemma OnIff(n: Node, k: nat)
    requires NodeOk(Started(n))
    ensures TickTimes(Started(n), k).status == 1
       <==> k % (Lasting(n.onLength) + Lasting(n.offLength)) < Lasting(n.onLength)
  {
    var m := n.(status := 0, countdown := 0);
    assert Started(m) == Started(n);
    TicksOfStarted(m, k);
    PlaceIsMod(k, Period(m));
  }

  /** The on phase lasts as long as the structure says exactly for lengths of 1 to 32768. */
  lemma LastsAsLongAsGivenIff(n: Node)
    requires NodeOk(n)
    ensures (forall k :: 0 <= k < n.onLength ==> TickTimes(Started(n), k).status == 1)
         && TickTimes(Started(n), n.onLength).status == 0
       <==> 1 <= n.onLength <= 0x8000
  {
    var on, off := Lasting(n.onLength), Lasting(n.offLength);
    forall k | 0 <= k <= on
      ensures TickTimes(Started(n), k).status == 1 <==> k < on
    {
      ModIs(k, on + off, 0, k);
      OnIff(n, k);
    }
    if n.onLength > 0x8000 {
      assert TickTimes(Started(n), 1).status != 1;
    }
  }
}
