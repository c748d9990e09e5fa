/** Whole runs of the blink engine: what the screen shows, how a node keeps its
    rhythm among others, and what sync achieves. */
module BlinkRuns {
  import opened Bytes
  import opened Blinking

  datatype Event =
    | Adding(node: Node)
    | Removing(location: nat)
    | Finding(location: nat)
    | Syncing(first: nat, second: nat)
    | Ticking

  predicate EventOk(event: Event) {
    event.Adding? ==> event.node.onLength < WORD && event.node.offLength < WORD
  }

  function Step(e: Engine, event: Event): (r: Engine)
    requires EngineOk(e) && EventOk(event)
    ensures EngineOk(r)
  {
    match event
    case Adding(n) => Added(e, n).0
    case Removing(l) => Removed(e, l).0
    case Finding(l) => e
    case Syncing(f, s) => Synced(e, f, s).0
    case Ticking => Ticked(e)
  }

  function Run(e: Engine, events: seq<Event>): (r: Engine)
    requires EngineOk(e) && forall i :: 0 <= i < |events| ==> EventOk(events[i])
    ensures EngineOk(r)
    decreases |events|
  {
    if events == [] then e else Run(Step(e, events[0]), events[1..])
  }

  // ------------------------------------------------- what the screen shows

  ghost predicate Distinct(nodes: seq<Node>) {
    forall i, j :: 0 <= i < j < |nodes| ==> nodes[i].location != nodes[j].location
  }

  /** The cell of every listed node shows its on character exactly while it is on. */
  ghost predicate Agrees(e: Engine)
    requires EngineOk(e)
  {
    forall i :: 0 <= i < |e.nodes| ==> e.screen[2 * e.nodes[i].location] == Shown(e.nodes[i])
  }

  /** A tick changes the cells of the nodes that toggle, and nothing else. */
  lemma {:induction false} TickScreenElsewhere(nodes: seq<Node>, screen: seq<byte>, p: nat)
    requires |screen| == 2 * CELLS && forall i :: 0 <= i < |nodes| ==> NodeOk(nodes[i])
    requires p < 2 * CELLS && forall i :: 0 <= i < |nodes| ==> p != 2 * nodes[i].location
    ensures TickScreen(nodes, screen)[p] == screen[p]
  {
    if nodes != [] {
      var n := nodes[0];
      TickScreenElsewhere(nodes[1..], if Toggles(n) then screen[2 * n.location := Shown(TickNode(n))] else screen, p);
    }
  }

  lemma {:induction false} TickScreenAtNode(nodes: seq<Node>, screen: seq<byte>, i: nat)
    requires |screen| == 2 * CELLS && forall k :: 0 <= k < |nodes| ==> NodeOk(nodes[k])
    requires Distinct(nodes) && i < |nodes|
    ensures TickScreen(nodes, screen)[2 * nodes[i].location]
         == if Toggles(nodes[i]) then Shown(TickNode(nodes[i])) else screen[2 * nodes[i].location]
  {
    var n := nodes[0];
    var after := if Toggles(n) then screen[2 * n.location := Shown(TickNode(n))] else screen;
    if i == 0 {
      TickScreenElsewhere(nodes[1..], after, 2 * n.location);
    } else {
      assert n.location != nodes[i].location;
      TickScreenAtNode(nodes[1..], after, i - 1);
    }
  }

  lemma TickAgrees(e: Engine)
    requires EngineOk(e) && Distinct(e.nodes) && Agrees(e)
    ensures Distinct(Ticked(e).nodes) && Agrees(Ticked(e))
  {
    forall i | 0 <= i < |e.nodes|
      ensures Ticked(e).screen[2 * Ticked(e).nodes[i].location] == Shown(Ticked(e).nodes[i])
    {
      TickScreenAtNode(e.nodes, e.screen, i);
    }
  }

  /** An addition at a location that is not listed yet; anything but sync. */
  ghost predicate KeepsAgreement(e: Engine, event: Event) {
    && EventOk(event)
    && !event.Syncing?
    && (event.Adding? ==> forall i :: 0 <= i < |e.nodes| ==> e.nodes[i].location != event.node.location)
  }

  lemma StepAgrees(e: Engine, event: Event)
    requires EngineOk(e) && Distinct(e.nodes) && Agrees(e) && KeepsAgreement(e, event)
    ensures Distinct(Step(e, event).nodes) && Agrees(Step(e, event))
  {
    if event.Ticking? {
      TickAgrees(e);
    }
  }

  ghost predicate AllKeepAgreement(e: Engine, events: seq<Event>)
    requires EngineOk(e)
    decreases |events|
  {
    events == [] || (KeepsAgreement(e, events[0]) && AllKeepAgreement(Step(e, events[0]), events[1..]))
  }

  lemma {:induction false} AllOk(e: Engine, events: seq<Event>)
    requires EngineOk(e) && AllKeepAgreement(e, events)
    ensures forall i :: 0 <= i < |events| ==> EventOk(events[i])
    decreases |events|
  {
    if events != [] {
      AllOk(Step(e, events[0]), events[1..]);
      forall i | 0 <= i < |events| ensures EventOk(events[i]) {
        if i > 0 {
          assert events[i] == events[1..][i - 1];
        }
      }
    }
  }

  /** After every run of additions at new locations, removals, searches and
      ticks, every listed cell shows what its node's status says. */
  lemma {:induction false} ScreenAgrees(e: Engine, events: seq<Event>)
    requires EngineOk(e) && Distinct(e.nodes) && Agrees(e) && AllKeepAgreement(e, events)
    ensures forall i :: 0 <= i < |events| ==> EventOk(events[i])
    ensures Distinct(Run(e, events).nodes) && Agrees(Run(e, events))
    decreases |events|
  {
    AllOk(e, events);
    if events != [] {
      StepAgrees(e, events[0]);
      ScreenAgrees(Step(e, events[0]), events[1..]);
    }
  }

  /** After a successful sync the screen still agrees exactly if the copied
      status is off, or the two characters are the same. */
  lemma SyncAgreesIff(e: Engine, first: nat, second: nat)
    requires EngineOk(e) && Distinct(e.nodes) && Agrees(e) && Synced(e, first, second).1 == SUCCESS
    ensures var source, dest := e.nodes[IndexOf(e.nodes, first)], e.nodes[IndexOf(e.nodes, second)];
            Agrees(Synced(e, first, second).0) <==> source.status == 0 || dest.onChar == dest.offChar
  {
    var j := IndexOf(e.nodes, second);
    var r := Synced(e, first, second).0;
    forall i | 0 <= i < |e.nodes| && i != j
      ensures r.screen[2 * r.nodes[i].location] == Shown(r.nodes[i])
    {
      assert e.nodes[i].location != e.nodes[j].location;
    }
    assert Agrees(r) <==> r.screen[2 * r.nodes[j].location] == Shown(r.nodes[j]);
  }

  // -------------------------------------------- one node among many others

  predicate Listed(e: Engine, location: nat) {
    IndexOf(e.nodes, location) < |e.nodes|
  }

  /** The node that a search for the location finds. */
  function NodeAt(e: Engine, location: nat): Node
    requires Listed(e, location)
  {
    e.nodes[IndexOf(e.nodes, location)]
  }

  lemma ListedIff(e: Engine, location: nat)
    ensures Listed(e, location) <==> exists i :: 0 <= i < |e.nodes| && e.nodes[i].location == location
  {
    if i :| 0 <= i < |e.nodes| && e.nodes[i].location == location {
      assert !(i < IndexOf(e.nodes, location));
    }
  }

  /** An addition succeeds exactly if the location is on the screen and a slot
      is left; then one node more is listed, on, at the start of its on phase,
      found by a search for its location, and shown. */
  lemma AddedExactly(e: Engine, n: Node)
    requires EngineOk(e) && n.onLength < 0x1_0000 && n.offLength < 0x1_0000
    ensures var (r, code) := Added(e, n);
            if n.location < 2000 && |e.nodes| < 2000 then
              && code == SUCCESS
              && Listed(r, n.location)
              && var m := NodeAt(r, n.location);
                 && m.location == n.location && m.onChar == n.onChar && m.offChar == n.offChar
                 && m.onLength == n.onLength && m.offLength == n.offLength
                 && m.countdown == n.onLength && m.status == 1
                 && multiset(r.nodes) == multiset(e.nodes) + multiset{m}
                 && r.screen[2 * n.location] == n.onChar
                 && forall q :: 0 <= q < |e.screen| && q != 2 * n.location ==> r.screen[q] == e.screen[q]
            else code == FAILURE && r == e
  {
    if n.location < 2000 && |e.nodes| < 2000 {
      assert IndexOf(Added(e, n).0.nodes, n.location) == 0;
    }
  }

  /** A removal succeeds exactly if the location is listed; then the first
      node there, and no other, leaves the list. */
  lemma RemovedExactly(e: Engine, location: nat) returns (i: nat)
    requires EngineOk(e)
    ensures var (r, code) := Removed(e, location);
            && r.screen == e.screen
            && if exists k :: 0 <= k < |e.nodes| && e.nodes[k].location == location then
                 && code == SUCCESS
                 && Listed(e, location)
                 && var n := NodeAt(e, location);
                    && i <= |r.nodes|
                    && e.nodes == r.nodes[..i] + [n] + r.nodes[i..]
                    && n.location == location
                    && (forall k :: 0 <= k < i ==> r.nodes[k].location != location)
                    && multiset(r.nodes) == multiset(e.nodes) - multiset{n}
               else code == FAILURE && r == e
  {
    ListedIff(e, location);
    i := IndexOf(e.nodes, location);
    if i < |e.nodes| {
      TakenOut(e.nodes, i, Removed(e, location).0.nodes);
    }
  }

  lemma TakenOut(nodes: seq<Node>, i: nat, r: seq<Node>)
    requires i < |nodes| && r == nodes[..i] + nodes[i + 1..]
    ensures nodes == r[..i] + [nodes[i]] + r[i..]
    ensures forall k :: 0 <= k < |r| ==> r[k] == nodes[if k < i then k else k + 1]
    ensures multiset(r) == multiset(nodes) - multiset{nodes[i]}
  {
    assert r[..i] == nodes[..i] && r[i..] == nodes[i + 1..];
    assert nodes == r[..i] + [nodes[i]] + r[i..];
    assert r == r[..i] + r[i..];
  }

  /** If no location is listed twice, the removed one is not listed any more. */
  lemma RemovedIsGone(e: Engine, location: nat)
    requires EngineOk(e) && Distinct(e.nodes)
    ensures !Listed(Removed(e, location).0, location)
    ensures Distinct(Removed(e, location).0.nodes)
  {
    var i := IndexOf(e.nodes, location);
    var r := Removed(e, location).0;
    if i < |e.nodes| {
      OthersDiffer(e.nodes, i);
    }
    ListedIff(r, location);
  }

  lemma OthersDiffer(nodes: seq<Node>, i: nat)
    requires Distinct(nodes) && i < |nodes|
    ensures var r := nodes[..i] + nodes[i + 1..];
            Distinct(r) && forall k :: 0 <= k < |r| ==> r[k].location != nodes[i].location
  {
  }

  lemma RemovedAddsNone(e: Engine, l: nat)
    requires EngineOk(e)
    ensures forall k :: 0 <= k < |Removed(e, l).0.nodes| ==> Removed(e, l).0.nodes[k] in e.nodes
  {
    var i := IndexOf(e.nodes, l);
    if i < |e.nodes| {
      TakenOut(e.nodes, i, Removed(e, l).0.nodes);
    }
  }

  lemma StepKeepsAway(e: Engine, event: Event, location: nat)
    requires EngineOk(e) && EventOk(event) && !Listed(e, location)
    requires event.Adding? ==> event.node.location != location
    ensures !Listed(Step(e, event), location)
  {
    ListedIff(e, location);
    ListedIff(Step(e, event), location);
    match event
    case Removing(l) => RemovedAddsNone(e, l);
    case _ =>
  }

  /** A location that is not listed stays so until something is added there. */
  lemma {:induction false} StaysAway(e: Engine, events: seq<Event>, location: nat)
    requires EngineOk(e) && !Listed(e, location)
    requires forall i :: 0 <= i < |events| ==>
               EventOk(events[i]) && (events[i].Adding? ==> events[i].node.location != location)
    ensures !Listed(Run(e, events), location)
    decreases |events|
  {
    if events != [] {
      StepKeepsAway(e, events[0], location);
      StaysAway(Step(e, events[0]), events[1..], location);
    }
  }

  /** After a removal and no later addition at its location, whatever else
      happens, no search finds a node there. */
  lemma RemovedForGood(e: Engine, location: nat, events: seq<Event>)
    requires EngineOk(e) && Distinct(e.nodes)
    requires forall i :: 0 <= i < |events| ==>
               EventOk(events[i]) && (events[i].Adding? ==> events[i].node.location != location)
    ensures var r := Run(Removed(e, location).0, events);
            forall i :: 0 <= i < |r.nodes| ==> r.nodes[i].location != location
  {
    RemovedIsGone(e, location);
    StaysAway(Removed(e, location).0, events, location);
    ListedIff(Run(Removed(e, location).0, events), location);
  }

  /** A sync succeeds exactly if both locations are listed; then the second
      node has the first one's rhythm and keeps its place and characters, its
      cell shows the off character, and nothing else changes. */
  lemma SyncedExactly(e: Engine, first: nat, second: nat) returns (j: nat)
    requires EngineOk(e)
    ensures var (r, code) := Synced(e, first, second);
            if Listed(e, first) && Listed(e, second) then
              && code == SUCCESS
              && |r.nodes| == |e.nodes| && j < |e.nodes| && e.nodes[j] == NodeAt(e, second)
              && (forall k :: 0 <= k < |e.nodes| && k != j ==> r.nodes[k] == e.nodes[k])
              && SameRhythm(r.nodes[j], NodeAt(e, first))
              && r.nodes[j].location == second
              && r.nodes[j].onChar == e.nodes[j].onChar && r.nodes[j].offChar == e.nodes[j].offChar
              && r.screen[2 * second] == e.nodes[j].offChar
              && forall q :: 0 <= q < |e.screen| && q != 2 * second ==> r.screen[q] == e.screen[q]
            else code == FAILURE && r == e
  {
    j := IndexOf(e.nodes, second);
  }

  /** The event adds, removes or synchronises no node at this location; the
      location may be the one another is synchronised with. */
  predicate LeavesAlone(event: Event, location: nat) {
    match event
    case Adding(n) => n.location != location
    case Removing(l) => l != location
    case Finding(l) => true
    case Syncing(f, s) => s != location
    case Ticking => true
  }

  lemma AddedLeavesAlone(e: Engine, n: Node, location: nat)
    requires EngineOk(e) && n.onLength < WORD && n.offLength < WORD && Listed(e, location) && n.location != location
    ensures var r := Added(e, n).0; Listed(r, location) && NodeAt(r, location) == NodeAt(e, location)
  {
    var i := IndexOf(e.nodes, location);
    var r := Added(e, n).0;
    if r.nodes != e.nodes {
      assert r.nodes[1..] == e.nodes;
    }
  }

  lemma RemovedLeavesAlone(e: Engine, l: nat, location: nat)
    requires EngineOk(e) && Listed(e, location) && l != location
    ensures var r := Removed(e, l).0; Listed(r, location) && NodeAt(r, location) == NodeAt(e, location)
  {
    var i, k := IndexOf(e.nodes, location), IndexOf(e.nodes, l);
    IndexIs(Removed(e, l).0.nodes, location, if k < i then i - 1 else i);
  }

  lemma SyncedLeavesAlone(e: Engine, f: nat, s: nat, location: nat)
    requires EngineOk(e) && Listed(e, location) && s != location
    ensures var r := Synced(e, f, s).0; Listed(r, location) && NodeAt(r, location) == NodeAt(e, location)
  {
    IndexIs(Synced(e, f, s).0.nodes, location, IndexOf(e.nodes, location));
  }

  lemma StepLeavesAlone(e: Engine, event: Event, location: nat)
    requires EngineOk(e) && EventOk(event) && Listed(e, location) && LeavesAlone(event, location)
    ensures Listed(Step(e, event), location)
    ensures NodeAt(Step(e, event), location)
         == if event.Ticking? then TickNode(NodeAt(e, location)) else NodeAt(e, location)
  {
    match event
    case Adding(n) => AddedLeavesAlone(e, n, location);
    case Removing(l) => RemovedLeavesAlone(e, l, location);
    case Finding(l) =>
    case Syncing(f, s) => SyncedLeavesAlone(e, f, s, location);
    case Ticking => IndexIs(Ticked(e).nodes, location, IndexOf(e.nodes, location));
  }

  function Ticks(events: seq<Event>): nat {
    if events == [] then 0 else (if events[0].Ticking? then 1 else 0) + Ticks(events[1..])
  }

  lemma {:induction false} TickTimesFirst(n: Node, k: nat)
    requires NodeOk(n)
    ensures TickTimes(TickNode(n), k) == TickTimes(n, k + 1)
  {
    if k > 0 {
      TickTimesFirst(n, k - 1);
    }
  }

  /** Among whatever other events, a node lives through the ticks and nothing else. */
  lemma {:induction false} OnlyTicksMatter(e: Engine, events: seq<Event>, location: nat)
    requires EngineOk(e) && Listed(e, location)
    requires forall i :: 0 <= i < |events| ==> EventOk(events[i]) && LeavesAlone(events[i], location)
    ensures Listed(Run(e, events), location)
    ensures NodeAt(Run(e, events), location) == TickTimes(NodeAt(e, location), Ticks(events))
    decreases |events|
  {
    if events != [] {
      var next := Step(e, events[0]);
      StepLeavesAlone(e, events[0], location);
      OnlyTicksMatter(next, events[1..], location);
      if events[0].Ticking? {
        TickTimesFirst(NodeAt(e, location), Ticks(events[1..]));
      }
    }
  }

  /** A node added with these lengths is on after n ticks exactly when n falls
      in the on part of its period, whatever happens to other nodes. */
  lemma BlinksOnTime(e: Engine, n: Node, events: seq<Event>)
    requires EngineOk(e) && n.onLength < WORD && n.offLength < WORD && Added(e, n).1 == SUCCESS
    requires forall i :: 0 <= i < |events| ==> EventOk(events[i]) && LeavesAlone(events[i], n.location)
    ensures var r := Run(Added(e, n).0, events);
            && Listed(r, n.location)
            && (NodeAt(r, n.location).status == 1 <==>
                  Ticks(events) % (Lasting(n.onLength) + Lasting(n.offLength)) < Lasting(n.onLength))
  {
    var a := Added(e, n).0;
    assert IndexOf(a.nodes, n.location) == 0;
    assert NodeAt(a, n.location) == Started(n);
    OnIff(n, Ticks(events));
    OnlyTicksMatter(a, events, n.location);
  }

  ghost predicate SameRhythm(a: Node, b: Node) {
    a.onLength == b.onLength && a.offLength == b.offLength && a.countdown == b.countdown && a.status == b.status
  }

  lemma {:induction false} SameRhythmLater(a: Node, b: Node, k: nat)
    requires NodeOk(a) && NodeOk(b) && SameRhythm(a, b)
    ensures SameRhythm(TickTimes(a, k), TickTimes(b, k))
  {
    if k > 0 {
      SameRhythmLater(a, b, k - 1);
    }
  }

  /** Two synchronised nodes go on and off together until one of them is
      removed, replaced or synchronised again. */
  lemma SyncedStayTogether(e: Engine, first: nat, second: nat, events: seq<Event>)
    requires EngineOk(e) && Synced(e, first, second).1 == SUCCESS
    requires forall i :: 0 <= i < |events| ==>
               EventOk(events[i]) && LeavesAlone(events[i], first) && LeavesAlone(events[i], second)
    ensures var r := Run(Synced(e, first, second).0, events);
            && Listed(r, first) && Listed(r, second)
            && SameRhythm(NodeAt(r, first), NodeAt(r, second))
  {
    var s := Synced(e, first, second).0;
    var i, j := IndexOf(e.nodes, first), IndexOf(e.nodes, second);
    IndexIs(s.nodes, first, i);
    IndexIs(s.nodes, second, j);
    OnlyTicksMatter(s, events, first);
    OnlyTicksMatter(s, events, second);
    SameRhythmLater(NodeAt(s, first), NodeAt(s, second), Ticks(events));
  }
}
