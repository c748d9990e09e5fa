/** Three terminals that share one screen: the active one is in video memory,
    the others in their backing pages. */
module Terminals {
  import opened Bytes
  import opened Screens

  const TERMINALS := 3

  /** What a terminal's user would call its screen. */
  datatype View = View(cells: seq<Cell>, x: int, y: int)

  datatype Machine = Machine(front: Screen, backs: seq<View>, active: nat)

  /** The cursor is in one of the 25 rows or in the row before them. */
  ghost predicate ViewOk(v: View) {
    |v.cells| == 2000 && 0 <= v.x < 80 && -1 <= v.y < 25
  }

  ghost predicate MachineOk(m: Machine) {
    && InRange(m.front)
    && |m.backs| == TERMINALS && m.active < TERMINALS
    && forall t :: 0 <= t < TERMINALS ==>
         |m.backs[t].cells| == 2000 && (t != m.active ==> ViewOk(m.backs[t]) && m.backs[t].y >= 0)
  }

  function Visible(s: Screen): View
    requires |s.cells| == ALL_CELLS
  {
    View(s.cells[80..], s.x, s.y)
  }

  /** The screen of terminal t, wherever it is kept. */
  function Logical(m: Machine, t: nat): View
    requires t < |m.backs| && |m.front.cells| == ALL_CELLS
  {
    if t == m.active then Visible(m.front) else m.backs[t]
  }

  /** An integer passed through a uint8_t. */
  function Byte8(n: int): (r: nat)
    ensures r < 256 && (0 <= n < 256 ==> r == n)
  {
    n % 256
  }

  /** display_switch. */
  function SwitchTo(m: Machine, t: nat): Machine
    requires |m.front.cells| == ALL_CELLS && |m.backs| == TERMINALS && m.active < TERMINALS && t < TERMINALS
  {
    var v := Visible(m.front);
    var backs := m.backs[m.active := View(v.cells, Byte8(v.x), Byte8(v.y))];
    Machine(Screen(m.front.cells[..80] + backs[t].cells, Byte8(backs[t].x), Byte8(backs[t].y)), backs, t)
  }

  /** A switch with the cursor on the screen changes no terminal's screen. */
  lemma SwitchKeepsEveryScreen(m: Machine, t: nat)
    requires MachineOk(m) && OnScreen(m.front) && t < TERMINALS
    ensures MachineOk(SwitchTo(m, t)) && SwitchTo(m, t).active == t
    ensures forall u :: 0 <= u < TERMINALS ==> Logical(SwitchTo(m, t), u) == Logical(m, u)
  {
    var n := SwitchTo(m, t);
    assert n.front.cells[80..] == n.backs[t].cells;
  }

  /** Exactly the cursors on the screen survive a switch: the row before the
      first one comes back as row 255. */
  lemma SwitchKeepsCursorIff(m: Machine, t: nat)
    requires InRange(m.front) && |m.backs| == TERMINALS && m.active < TERMINALS && t < TERMINALS
    requires forall u :: 0 <= u < TERMINALS ==> |m.backs[u].cells| == 2000
    ensures Logical(SwitchTo(SwitchTo(m, t), m.active), m.active) == Logical(m, m.active) <==> OnScreen(m.front)
  {
    var n := SwitchTo(SwitchTo(m, t), m.active);
    assert n.front.cells[80..] == m.front.cells[80..];
    assert m.front.y == -1 ==> n.front.y == 255;
  }

  /** Switching away and back restores the video memory and the cursor. */
  lemma SwitchThereAndBack(m: Machine, t: nat)
    requires MachineOk(m) && OnScreen(m.front) && t < TERMINALS
    ensures SwitchTo(SwitchTo(m, t), m.active).front == m.front
  {
    var n := SwitchTo(SwitchTo(m, t), m.active);
    assert n.front.cells == m.front.cells[..80] + m.front.cells[80..] == m.front.cells;
  }

  /** putc on a screen of one's own. */
  function PutPrivate(v: View, c: byte): (r: View)
    requires ViewOk(v)
    ensures ViewOk(r)
  {
    Visible(Put(Screen(seq(80, _ => CLEARED) + v.cells, v.x, v.y), c))
  }

  /** Two screens alike from their first row on. */
  ghost predicate SameVisible(s: Screen, u: Screen) {
    && InRange(s) && InRange(u) && s.x == u.x && s.y == u.y
    && forall i :: 80 <= i < ALL_CELLS ==> s.cells[i] == u.cells[i]
  }

  lemma PutSame(s: Screen, u: Screen, c: byte)
    requires SameVisible(s, u)
    ensures SameVisible(Put(s, c), Put(u, c))
  {
  }

  lemma VisibleSame(s: Screen, u: Screen)
    requires InRange(s) && InRange(u)
    ensures Visible(s) == Visible(u) <==> SameVisible(s, u)
  {
    if Visible(s) == Visible(u) {
      forall i | 80 <= i < ALL_CELLS ensures s.cells[i] == u.cells[i] {
        assert s.cells[80..][i - 80] == u.cells[80..][i - 80];
      }
    }
    if SameVisible(s, u) {
      assert s.cells[80..] == u.cells[80..];
    }
  }

  /** What putc does to the 25 rows and the cursor depends on nothing else. */
  lemma PutDependsOnVisible(s: Screen, c: byte)
    requires InRange(s)
    ensures Visible(Put(s, c)) == PutPrivate(Visible(s), c)
  {
    var u := Screen(seq(80, _ => CLEARED) + s.cells[80..], s.x, s.y);
    assert Visible(u) == Visible(s) by {
      assert u.cells[80..] == s.cells[80..];
    }
    VisibleSame(s, u);
    PutSame(s, u, c);
    VisibleSame(Put(s, c), Put(u, c));
  }

  // ------------------------------------------------------------------- runs

  datatype Event = PutByte(c: byte) | Switch(t: nat)

  function Step(m: Machine, e: Event): (r: Machine)
    requires InRange(m.front) && |m.backs| == TERMINALS && m.active < TERMINALS
    requires e.Switch? ==> e.t < TERMINALS
  {
    match e
    case PutByte(c) => m.(front := Put(m.front, c))
    case Switch(t) => SwitchTo(m, t)
  }

  predicate TerminalExists(e: Event) {
    e.Switch? ==> e.t < TERMINALS
  }

  /** Any putc, or a switch to a terminal with the cursor on the screen. */
  ghost predicate Allowed(m: Machine, e: Event) {
    TerminalExists(e) && (e.Switch? ==> OnScreen(m.front))
  }

  /** What an event does to terminal t if it has a console of its own. */
  function PrivateStep(v: View, e: Event, active: bool): View
    requires ViewOk(v)
  {
    if e.PutByte? && active then PutPrivate(v, e.c) else v
  }

  lemma StepOk(m: Machine, e: Event)
    requires MachineOk(m) && Allowed(m, e)
    ensures MachineOk(Step(m, e))
    ensures forall t :: 0 <= t < TERMINALS ==>
              ViewOk(Logical(m, t)) && Logical(Step(m, e), t) == PrivateStep(Logical(m, t), e, t == m.active)
  {
    match e
    case PutByte(c) => PutDependsOnVisible(m.front, c);
    case Switch(t) => SwitchKeepsEveryScreen(m, t);
  }

  /** A step treats every terminal as if it had its own console exactly when
      it is not a switch with the cursor off the screen. */
  lemma StepPrivateIff(m: Machine, e: Event)
    requires MachineOk(m) && TerminalExists(e)
    ensures (forall t :: 0 <= t < TERMINALS ==>
               ViewOk(Logical(m, t)) && Logical(Step(m, e), t) == PrivateStep(Logical(m, t), e, t == m.active))
       <==> Allowed(m, e)
  {
    if Allowed(m, e) {
      StepOk(m, e);
    } else {
      assert Logical(Step(m, e), m.active).y == 255;
    }
  }

  ghost predicate AllAllowed(m: Machine, events: seq<Event>)
    requires MachineOk(m)
    decreases |events|
  {
    events == [] ||
    (Allowed(m, events[0]) && (StepOk(m, events[0]); AllAllowed(Step(m, events[0]), events[1..])))
  }

  ghost function Run(m: Machine, events: seq<Event>): (r: Machine)
    requires MachineOk(m) && AllAllowed(m, events)
    ensures MachineOk(r)
    decreases |events|
  {
    if events == [] then m
    else
      StepOk(m, events[0]);
      Run(Step(m, events[0]), events[1..])
  }

  /** The bytes put while terminal t is active. */
  function PutTo(t: nat, active: nat, events: seq<Event>): seq<byte>
    decreases |events|
  {
    if events == [] then []
    else match events[0]
      case PutByte(c) => (if t == active then [c] else []) + PutTo(t, active, events[1..])
      case Switch(u) => PutTo(t, u, events[1..])
  }

  ghost function PutAllPrivate(v: View, text: seq<byte>): (r: View)
    requires ViewOk(v)
    ensures ViewOk(r)
    decreases |text|
  {
    if text == [] then v else PutAllPrivate(PutPrivate(v, text[0]), text[1..])
  }

  /** Every terminal's screen evolves as if it had a console of its own that
      is given just the bytes put while it is the active one. */
  lemma {:induction false} AsIfPrivate(m: Machine, events: seq<Event>, t: nat)
    requires MachineOk(m) && AllAllowed(m, events) && t < TERMINALS
    ensures ViewOk(Logical(m, t))
    ensures Logical(Run(m, events), t) == PutAllPrivate(Logical(m, t), PutTo(t, m.active, events))
    decreases |events|
  {
    if events != [] {
      var e, rest := events[0], events[1..];
      var n := Step(m, e);
      StepOk(m, e);
      AsIfPrivate(n, rest, t);
      if e.PutByte? && t == m.active {
        var text := PutTo(t, m.active, events);
        assert text[0] == e.c && text[1..] == PutTo(t, n.active, rest);
      } else {
        assert PutTo(t, m.active, events) == PutTo(t, n.active, rest);
      }
    }
  }

  /** Any other run comes to a switch that moves a terminal's cursor. */
  lemma {:induction false} OtherwiseACursorMoves(m: Machine, events: seq<Event>) returns (k: nat)
    requires MachineOk(m) && !AllAllowed(m, events)
    requires forall i :: 0 <= i < |events| ==> TerminalExists(events[i])
    ensures k < |events| && events[k].Switch? && TerminalExists(events[k]) && AllAllowed(m, events[..k])
    ensures var n := Run(m, events[..k]);
            Logical(Step(n, events[k]), n.active) != Logical(n, n.active)
    decreases |events|
  {
    if Allowed(m, events[0]) {
      StepOk(m, events[0]);
      var next := Step(m, events[0]);
      var j := OtherwiseACursorMoves(next, events[1..]);
      k := j + 1;
      assert events[..k][0] == events[0] && events[..k][1..] == events[1..][..j];
    } else {
      k := 0;
      assert Logical(Step(m, events[0]), m.active).y == 255;
    }
  }
}
