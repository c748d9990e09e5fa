/** The fish program's two frames: two text files are read side by side, and a
    blinking cell is added wherever one of them has ink. */
module Frames {
  import opened Bytes
  import opened Text
  import opened FileSystem
  import opened Directory
  import opened Descriptors
  import opened Blinking
  import opened BlinkRuns
  import opened Pool

  const OFFSET := 40
  const HALF_PERIOD := 15

  // ---------------------------------------------------------- specification

  function LineOf(lines: seq<seq<byte>>, r: nat): seq<byte> {
    if r < |lines| then lines[r] else []
  }

  /** The character in column c of a line, which is followed by spaces. */
  function CharIn(line: seq<byte>, c: nat): byte {
    if c < |line| then line[c] else SPACE
  }

  predicate Inked(a: seq<byte>, b: seq<byte>, c: nat) {
    CharIn(a, c) != SPACE || CharIn(b, c) != SPACE
  }

  /** The node for column c of the lines a and b in row r. */
  function FrameNode(a: seq<byte>, b: seq<byte>, r: nat, c: nat): Node {
    Node(r * 80 + c + OFFSET, CharIn(a, c), CharIn(b, c), HALF_PERIOD, HALF_PERIOD, 0, 0)
  }

  /** The nodes of the first c columns of row r, the last one first. */
  function RowNodes(a: seq<byte>, b: seq<byte>, r: nat, c: nat): seq<Node> {
    if c == 0 then []
    else (if Inked(a, b, c - 1) then [Started(FrameNode(a, b, r, c - 1))] else []) + RowNodes(a, b, r, c - 1)
  }

  function Width(a: seq<byte>, b: seq<byte>): nat {
    if |a| < |b| then |b| else |a|
  }

  /** The nodes of the first r rows of two frames, the last one first. */
  function FrameNodes(f: seq<seq<byte>>, g: seq<seq<byte>>, r: nat): seq<Node> {
    if r == 0 then []
    else
      var a, b := LineOf(f, r - 1), LineOf(g, r - 1);
      RowNodes(a, b, r - 1, Width(a, b)) + FrameNodes(f, g, r - 1)
  }

  /** The frame fits the right half of the screen. */
  predicate Fits(lines: seq<seq<byte>>) {
    |lines| <= 25 && forall r :: 0 <= r < |lines| ==> |lines[r]| <= 40
  }

  ghost predicate Below(nodes: seq<Node>, bound: int) {
    forall i :: 0 <= i < |nodes| ==> nodes[i].location < bound
  }

  /** The list's cells show their nodes, and the rest of the screen is as it was. */
  ghost predicate ShowsOver(e: Engine, base: seq<byte>) {
    && EngineOk(e) && |base| == |e.screen|
    && Distinct(e.nodes) && Agrees(e)
    && forall q :: 0 <= q < |base| && (forall i :: 0 <= i < |e.nodes| ==> q != 2 * e.nodes[i].location)
         ==> e.screen[q] == base[q]
  }

  lemma AddShowsOver(e: Engine, n: Node, base: seq<byte>)
    requires ShowsOver(e, base) && NodeOk(n) && Below(e.nodes, n.location) && |e.nodes| < CELLS
    ensures ShowsOver(Added(e, n).0, base)
  {
    var r := Added(e, n).0;
    assert r.nodes[0].location == n.location;
    assert forall i :: 1 <= i < |r.nodes| ==> r.nodes[i] == e.nodes[i - 1];
    forall q | 0 <= q < |base| && forall i :: 0 <= i < |r.nodes| ==> q != 2 * r.nodes[i].location
      ensures r.screen[q] == base[q]
    {
      assert q != 2 * r.nodes[0].location;
      forall i | 0 <= i < |e.nodes| ensures q != 2 * e.nodes[i].location {
        assert r.nodes[i + 1] == e.nodes[i];
      }
    }
  }

  // ----------------------------------------------------------- reading ahead

  /** What is left of the current line, when c was read last and rest is unread. */
  function LineLeft(c: byte, rest: seq<byte>): seq<byte> {
    if c == NEWLINE then [] else rest[..Find(NEWLINE, rest)]
  }

  /** What follows the current line. */
  function AfterLine(c: byte, rest: seq<byte>): seq<byte> {
    if c == NEWLINE then rest
    else
      var n := Find(NEWLINE, rest);
      if n < |rest| then rest[n + 1..] else []
  }

  /** One of the two readers of add_frames: its descriptor, the character it
      read last, and whether it has met the end of its file. */
  datatype Reader = Reader(fd: nat, c: byte, eof: bool)

  /** No descriptor but these two has changed. */
  ghost predicate Kept(t: Table, u: Table, fd0: nat, fd1: nat) {
    |t| == |u| && forall i :: 0 <= i < |t| && i != fd0 && i != fd1 ==> u[i] == t[i]
  }

  /** A line of a file and what follows it. */
  datatype Line = Line(text: seq<byte>, after: seq<byte>)

  /** After the end of its file a reader stays on a newline. */
  ghost predicate Feeding(img: Image, t: Table, rd: Reader) {
    ValidTable(img, t) && FIRST_FD <= rd.fd < FD_COUNT && if rd.eof then rd.c == NEWLINE else OpenFile(t, rd.fd)
  }

  /** What a reader's file still holds. */
  ghost function Rest(img: Image, t: Table, rd: Reader): seq<byte>
    requires Feeding(img, t, rd)
  {
    if rd.eof then [] else Unread(img, t[rd.fd])
  }

  lemma LineLeftNext(rest: seq<byte>)
    requires rest != []
    ensures var c := rest[0];
            var left := LineLeft(SPACE, rest);
            if c == NEWLINE then left == [] && AfterLine(SPACE, rest) == rest[1..]
            else
              && left != [] && left[0] == c
              && LineLeft(c, rest[1..]) == left[1..]
              && AfterLine(c, rest[1..]) == AfterLine(SPACE, rest)
  {
    var n := Find(NEWLINE, rest);
    if rest[0] != NEWLINE {
      FindIs(NEWLINE, rest[1..], n - 1);
      assert rest[1..][..n - 1] == rest[..n][1..];
    }
  }

  function From(line: seq<byte>, c: nat): seq<byte> {
    if c <= |line| then line[c..] else []
  }

  /** A reader is at column col of the line. */
  ghost predicate AtColumn(img: Image, t: Table, rd: Reader, line: Line, col: nat) {
    && Feeding(img, t, rd)
    && LineLeft(rd.c, Rest(img, t, rd)) == From(line.text, col)
    && AfterLine(rd.c, Rest(img, t, rd)) == line.after
  }

  /** How much a reader can still read, the end of the file included. */
  ghost function Ahead(img: Image, t: Table, rd: Reader): nat
    requires Feeding(img, t, rd)
  {
    |Rest(img, t, rd)| + if rd.eof then 0 else 1
  }

  /** A reader is at column col of the line and has `ahead` before it. */
  ghost predicate At(img: Image, t: Table, rd: Reader, line: Line, col: nat, ahead: nat) {
    AtColumn(img, t, rd, line, col) && ahead == Ahead(img, t, rd)
  }

  /** Where a reader is, as a predicate that is looked into only on purpose. */
  type Track = (Table, Reader, nat, nat) -> bool

  ghost predicate Tracks(at: Track, img: Image, line: Line) {
    forall t, rd, col: nat, ahead: nat {:trigger At(img, t, rd, line, col, ahead)} ::
      at(t, rd, col, ahead) <==> At(img, t, rd, line, col, ahead)
  }

  /** A reader in column col, given the character and whether the line ended. */
  lemma AfterRead(rest: seq<byte>, line: Line, col: nat)
    requires LineLeft(SPACE, rest) == From(line.text, col) && AfterLine(SPACE, rest) == line.after
    ensures rest == [] ==> col >= |line.text| && line.after == []
    ensures rest != [] ==>
              && LineLeft(rest[0], rest[1..]) == From(line.text, col + 1)
              && AfterLine(rest[0], rest[1..]) == line.after
              && if col < |line.text| then rest[0] == line.text[col] && rest[0] != NEWLINE else rest[0] == NEWLINE
  {
    if rest != [] {
      LineLeftNext(rest);
    }
  }

  lemma UnreadNext(img: Image, d: Descriptor)
    requires WellFormedFile(img, d.inode) && d.filePos < FileLength(img, d.inode)
    ensures Unread(img, d)[0] == Content(img, d.inode)[d.filePos]
    ensures Unread(img, d.(filePos := d.filePos + 1)) == Unread(img, d)[1..]
  {
  }

  /** What a read of n bytes, one or none, has delivered. */
  ghost predicate CharRead(unread: seq<byte>, rest: seq<byte>, n: nat, c: byte) {
    if unread == [] then n == 0 && rest == [] else n == 1 && c == unread[0] && rest == unread[1..]
  }

  /** A read of one character: it is the next of the file, or there is none. */
  method ReadChar(p: Process, fd: nat, c0: byte) returns (c: byte, n: nat)
    requires p.Valid() && FIRST_FD <= fd && OpenFile(p.fds[..], fd)
    modifies p, p.fds
    ensures p.Valid() && OpenFile(p.fds[..], fd)
    ensures forall i :: 0 <= i < FD_COUNT && i != fd ==> p.fds[i] == old(p.fds[i])
    ensures CharRead(Unread(p.img, old(p.fds[fd])), Unread(p.img, p.fds[fd]), n, c)
  {
    var cell := new byte[1];
    cell[0] := c0;
    ghost var d := p.fds[fd];
    n := p.Read(fd, cell, 0, 1);
    c := cell[0];
    if n == 1 {
      UnreadNext(p.img, d);
    }
  }

  /** A reader that is not past its line has its file open. */
  lemma StillOpen(img: Image, t: Table, rd: Reader, line: Line, col: nat, at: Track, ahead: nat)
    requires Tracks(at, img, line) && at(t, rd, col, ahead) && rd.c != NEWLINE
    ensures ValidTable(img, t) && FIRST_FD <= rd.fd && OpenFile(t, rd.fd) && !rd.eof
  {
    assert At(img, t, rd, line, col, ahead);
  }

  function ReaderAfter(fd: nat, n: nat, c: byte): Reader {
    if n == 0 then Reader(fd, NEWLINE, true) else Reader(fd, c, false)
  }

  /** Where the reader is after the read. */
  lemma ReadMoves(img: Image, t: Table, rd: Reader, u: Table, n: nat, c: byte,
                  line: Line, col: nat, at: Track, ahead0: nat)
    returns (ahead: nat)
    requires Tracks(at, img, line) && at(t, rd, col, ahead0) && rd.c != NEWLINE
    requires ValidTable(img, t) && OpenFile(t, rd.fd) && ValidTable(img, u) && FIRST_FD <= rd.fd && OpenFile(u, rd.fd)
    requires CharRead(Unread(img, t[rd.fd]), Unread(img, u[rd.fd]), n, c)
    ensures at(u, ReaderAfter(rd.fd, n, c), col + 1, ahead) && ahead < ahead0
    ensures var next := ReaderAfter(rd.fd, n, c);
            if col < |line.text| then next.c == line.text[col] && next.c != NEWLINE else next.c == NEWLINE
  {
    assert At(img, t, rd, line, col, ahead0);
    AfterRead(Unread(img, t[rd.fd]), line, col);
    var next := ReaderAfter(rd.fd, n, c);
    ahead := Ahead(img, u, next);
    assert At(img, u, next, line, col + 1, ahead);
  }

  /** A reader on a newline is past the end of its line, and stays there. */
  lemma StaysPast(img: Image, t: Table, rd: Reader, line: Line, col: nat, at: Track, ahead: nat)
    requires Tracks(at, img, line) && at(t, rd, col, ahead) && rd.c == NEWLINE
    ensures at(t, rd, col + 1, ahead) && col >= |line.text|
  {
    assert At(img, t, rd, line, col, ahead);
    assert At(img, t, rd, line, col + 1, ahead);
  }

  /** One reader's turn in the inner loop of add_frames: the character in
      column col of its line, or a newline from the end of the line on. */
  method NextChar(p: Process, rd0: Reader, ghost line: Line, ghost col: nat, ghost at: Track, ghost ahead0: nat)
    returns (rd: Reader, ghost ahead: nat)
    requires p.Valid() && Tracks(at, p.img, line) && at(p.fds[..], rd0, col, ahead0)
    requires rd0.fd < FD_COUNT
    modifies p, p.fds
    ensures p.Valid() && rd.fd == rd0.fd && at(p.fds[..], rd, col + 1, ahead)
    ensures forall i :: 0 <= i < FD_COUNT && i != rd.fd ==> p.fds[i] == old(p.fds[i])
    ensures if col < |line.text| then rd.c == line.text[col] && rd.c != NEWLINE else rd.c == NEWLINE
    ensures if rd0.c == NEWLINE then ahead == ahead0 else ahead < ahead0
  {
    rd, ahead := rd0, ahead0;
    if rd.c != NEWLINE {
      ghost var t := p.fds[..];
      StillOpen(p.img, t, rd, line, col, at, ahead);
      var c, numBytes := ReadChar(p, rd.fd, rd.c);
      ahead := ReadMoves(p.img, t, rd, p.fds[..], numBytes, c, line, col, at, ahead);
      if numBytes == 0 {
        rd := Reader(rd.fd, NEWLINE, true);
      } else {
        rd := Reader(rd.fd, c, rd.eof);
      }
    } else {
      StaysPast(p.img, p.fds[..], rd, line, col, at, ahead);
    }
  }

  /** The body of add_frames' inner loop: a cell is added if one of the two
      characters is ink; c0 and c1 are the characters of column col. */
  method InkCell(blink: Blink, c0: byte, c1: byte, row: nat, col: nat,
                 ghost a: seq<byte>, ghost b: seq<byte>, ghost base: seq<byte>)
    requires blink.Valid() && ShowsOver(blink.State(), base)
    requires CharIn(a, col) == if c0 == NEWLINE then SPACE else c0
    requires CharIn(b, col) == if c1 == NEWLINE then SPACE else c1
    requires Inked(a, b, col) ==> row < 25 && col < 40
    requires Below(blink.State().nodes, row * 80 + col + OFFSET) && |blink.list| <= 1500
    modifies blink, blink.pool, blink.vmem
    ensures blink.Valid() && ShowsOver(blink.State(), base)
    ensures blink.State().nodes
         == (if Inked(a, b, col) then [Started(FrameNode(a, b, row, col))] else []) + old(blink.State().nodes)
  {
    if (c0 != SPACE && c0 != NEWLINE) || (c1 != SPACE && c1 != NEWLINE) {
      var onChar := if c0 == NEWLINE then SPACE else c0;
      var offChar := if c1 == NEWLINE then SPACE else c1;
      var n := Node(row * 80 + col + OFFSET, onChar, offChar, HALF_PERIOD, HALF_PERIOD, 0, 0);
      AddShowsOver(blink.State(), n, base);
      var r := blink.Add(n);
    } else {
      assert [] + blink.State().nodes == blink.State().nodes;
    }
  }

  lemma {:induction false} RowNodesBelow(a: seq<byte>, b: seq<byte>, r: nat, c: nat, rest: seq<Node>)
    requires Below(rest, r * 80 + OFFSET)
    ensures Below(RowNodes(a, b, r, c) + rest, r * 80 + c + OFFSET)
    ensures |RowNodes(a, b, r, c)| <= c
  {
    if c > 0 {
      RowNodesBelow(a, b, r, c - 1, rest);
      RowNodesNext(a, b, r, c - 1, rest);
    }
  }

  lemma RowNodesNext(a: seq<byte>, b: seq<byte>, r: nat, c: nat, rest: seq<Node>)
    ensures RowNodes(a, b, r, c + 1) + rest
         == (if Inked(a, b, c) then [Started(FrameNode(a, b, r, c))] else []) + (RowNodes(a, b, r, c) + rest)
  {
    var here := if Inked(a, b, c) then [Started(FrameNode(a, b, r, c))] else [];
    assert RowNodes(a, b, r, c + 1) == here + RowNodes(a, b, r, c);
    Associative(here, RowNodes(a, b, r, c), rest);
  }

  /** A reader is not disturbed by what happens to other descriptors. */
  lemma Undisturbed(img: Image, t: Table, u: Table, rd: Reader, line: Line, col: nat, at: Track, ahead: nat)
    requires Tracks(at, img, line) && at(t, rd, col, ahead) && ValidTable(img, u)
    requires rd.fd < |t| && rd.fd < |u| && u[rd.fd] == t[rd.fd]
    ensures at(u, rd, col, ahead)
  {
    assert At(img, t, rd, line, col, ahead);
    assert At(img, u, rd, line, col, ahead);
  }

  /** What is to be added for one row: the two lines in it, the nodes already
      listed, and the screen before any of them. */
  datatype Row = Row(row: nat, a: Line, b: Line, nodes: seq<Node>, base: seq<byte>)

  /** A reader and how much it had before it at the start of its line. */
  datatype Start = Start(c: byte, ahead: nat)

  /** A reader has read col columns of its line; from a line that it is not yet
      past, it has read something. */
  ghost predicate ReadTo(img: Image, t: Table, rd: Reader, line: Line, col: nat, start: Start) {
    && AtColumn(img, t, rd, line, col)
    && Ahead(img, t, rd) <= start.ahead
    && if col == 0 then rd.c == start.c else start.c != NEWLINE ==> Ahead(img, t, rd) < start.ahead
  }

  /** The cells of the first col columns of the row have been added. */
  ghost predicate AddedTo(e: Engine, row: Row, col: nat) {
    ShowsOver(e, row.base) && e.nodes == RowNodes(row.a.text, row.b.text, row.row, col) + row.nodes
  }

  /** The row and the nodes of the rows before it fit the screen. */
  ghost predicate RowFits(row: Row) {
    && |row.a.text| <= 40 && |row.b.text| <= 40 && (row.row >= 25 ==> row.a.text == [] && row.b.text == [])
    && Below(row.nodes, row.row * 80 + OFFSET) && |row.nodes| <= 1000
  }

  ghost function RowWidth(row: Row): nat {
    Width(row.a.text, row.b.text)
  }

  /** In the middle of a row both readers are at column col, and the cells
      before it have been added. */
  ghost predicate MidRow(img: Image, t: Table, e: Engine, rd0: Reader, rd1: Reader, goal: Row, col: nat,
                         start0: Start, start1: Start) {
    && ReadTo(img, t, rd0, goal.a, col, start0) && ReadTo(img, t, rd1, goal.b, col, start1)
    && AddedTo(e, goal, col) && col <= RowWidth(goal)
  }

  /** At the end of a row both readers are past their newlines, and all cells
      have been added. */
  ghost predicate RowDone(img: Image, t: Table, e: Engine, rd0: Reader, rd1: Reader, goal: Row,
                          start0: Start, start1: Start) {
    && rd0.c == NEWLINE && ReadTo(img, t, rd0, goal.a, RowWidth(goal) + 1, start0)
    && rd1.c == NEWLINE && ReadTo(img, t, rd1, goal.b, RowWidth(goal) + 1, start1)
    && AddedTo(e, goal, RowWidth(goal))
  }

  /** The middle and the end of a row, as predicates that are looked into only on purpose. */
  type Middle = (Table, Engine, Reader, Reader, nat) -> bool
  type Finish = (Table, Engine, Reader, Reader) -> bool

  ghost predicate Follows(mid: Middle, done: Finish, img: Image, goal: Row, start0: Start, start1: Start) {
    && (forall t, e, rd0, rd1, col: nat {:trigger MidRow(img, t, e, rd0, rd1, goal, col, start0, start1)} ::
          mid(t, e, rd0, rd1, col) <==> MidRow(img, t, e, rd0, rd1, goal, col, start0, start1))
    && (forall t, e, rd0, rd1 {:trigger RowDone(img, t, e, rd0, rd1, goal, start0, start1)} ::
          done(t, e, rd0, rd1) <==> RowDone(img, t, e, rd0, rd1, goal, start0, start1))
  }

  /** Which cells have been added, as a predicate that is looked into only on purpose. */
  type Cells = (Engine, nat) -> bool

  ghost predicate Adds(added: Cells, goal: Row) {
    forall e, col: nat {:trigger AddedTo(e, goal, col)} :: added(e, col) <==> AddedTo(e, goal, col)
  }

  /** The cell of column col, if there is ink in it. */
  method AddCell(blink: Blink, c0: byte, c1: byte, row: nat, col: nat, ghost goal: Row, ghost added: Cells)
    requires blink.Valid() && Adds(added, goal) && added(blink.State(), col)
    requires RowFits(goal) && row == goal.row && col < RowWidth(goal)
    requires CharIn(goal.a.text, col) == if c0 == NEWLINE then SPACE else c0
    requires CharIn(goal.b.text, col) == if c1 == NEWLINE then SPACE else c1
    modifies blink, blink.pool, blink.vmem
    ensures blink.Valid() && added(blink.State(), col + 1)
  {
    assert AddedTo(blink.State(), goal, col);
    RowNodesBelow(goal.a.text, goal.b.text, row, col, goal.nodes);
    RowNodesNext(goal.a.text, goal.b.text, row, col, goal.nodes);
    InkCell(blink, c0, c1, row, col, goal.a.text, goal.b.text, goal.base);
    assert AddedTo(blink.State(), goal, col + 1);
  }

  /** How far a reader with `ahead` before it is from the start of its line. */
  predicate Since(start: Start, rd: Reader, col: nat, ahead: nat) {
    ahead <= start.ahead && if col == 0 then rd.c == start.c else start.c != NEWLINE ==> ahead < start.ahead
  }

  /** What one row is to come to, with predicates for where its readers are,
      what has been added, and its middle and end. */
  datatype Plan = Plan(goal: Row, start0: Start, start1: Start,
                       at0: Track, at1: Track, added: Cells, mid: Middle, done: Finish)

  ghost predicate PlanOk(plan: Plan, img: Image) {
    && Tracks(plan.at0, img, plan.goal.a) && Tracks(plan.at1, img, plan.goal.b) && Adds(plan.added, plan.goal)
    && Follows(plan.mid, plan.done, img, plan.goal, plan.start0, plan.start1)
  }

  ghost function PlanFor(img: Image, goal: Row, start0: Start, start1: Start): (plan: Plan)
    ensures PlanOk(plan, img) && plan.goal == goal && plan.start0 == start0 && plan.start1 == start1
  {
    Plan(goal, start0, start1,
         (t, rd, col: nat, ahead: nat) => At(img, t, rd, goal.a, col, ahead),
         (t, rd, col: nat, ahead: nat) => At(img, t, rd, goal.b, col, ahead),
         (e, col: nat) => AddedTo(e, goal, col),
         (t, e, rd0, rd1, col: nat) => MidRow(img, t, e, rd0, rd1, goal, col, start0, start1),
         (t, e, rd0, rd1) => RowDone(img, t, e, rd0, rd1, goal, start0, start1))
  }

  lemma MiddleOpens(plan: Plan, img: Image, t: Table, e: Engine, rd0: Reader, rd1: Reader, col: nat)
    returns (ahead0: nat, ahead1: nat)
    requires PlanOk(plan, img) && plan.mid(t, e, rd0, rd1, col)
    ensures plan.at0(t, rd0, col, ahead0) && Since(plan.start0, rd0, col, ahead0) && rd0.fd < FD_COUNT
    ensures plan.at1(t, rd1, col, ahead1) && Since(plan.start1, rd1, col, ahead1) && rd1.fd < FD_COUNT
    ensures plan.added(e, col) && col <= RowWidth(plan.goal)
  {
    var goal := plan.goal;
    assert MidRow(img, t, e, rd0, rd1, goal, col, plan.start0, plan.start1);
    ahead0, ahead1 := Ahead(img, t, rd0), Ahead(img, t, rd1);
    assert At(img, t, rd0, goal.a, col, ahead0) && At(img, t, rd1, goal.b, col, ahead1);
  }

  lemma MiddleAgain(plan: Plan, img: Image, t: Table, e: Engine, rd0: Reader, rd1: Reader, col: nat,
                    ahead0: nat, ahead1: nat)
    requires PlanOk(plan, img) && 0 < col <= RowWidth(plan.goal) && plan.added(e, col)
    requires plan.at0(t, rd0, col, ahead0) && Since(plan.start0, rd0, col, ahead0)
    requires plan.at1(t, rd1, col, ahead1) && Since(plan.start1, rd1, col, ahead1)
    ensures plan.mid(t, e, rd0, rd1, col)
  {
    var goal := plan.goal;
    assert At(img, t, rd0, goal.a, col, ahead0) && At(img, t, rd1, goal.b, col, ahead1);
    assert AddedTo(e, goal, col);
    assert MidRow(img, t, e, rd0, rd1, goal, col, plan.start0, plan.start1);
  }

  lemma MiddleEnds(plan: Plan, img: Image, t: Table, e: Engine, rd0: Reader, rd1: Reader, col: nat,
                   ahead0: nat, ahead1: nat)
    requires PlanOk(plan, img) && col == RowWidth(plan.goal) && plan.added(e, col)
    requires rd0.c == NEWLINE && rd1.c == NEWLINE
    requires plan.at0(t, rd0, col + 1, ahead0) && Since(plan.start0, rd0, col + 1, ahead0)
    requires plan.at1(t, rd1, col + 1, ahead1) && Since(plan.start1, rd1, col + 1, ahead1)
    ensures plan.done(t, e, rd0, rd1)
  {
    var goal := plan.goal;
    assert At(img, t, rd0, goal.a, col + 1, ahead0) && At(img, t, rd1, goal.b, col + 1, ahead1);
    assert AddedTo(e, goal, col);
    assert RowDone(img, t, e, rd0, rd1, goal, plan.start0, plan.start1);
  }

  /** The character read in column col of a line. */
  predicate ReadIn(line: seq<byte>, col: nat, c: byte) {
    if col < |line| then c == line[col] && c != NEWLINE else c == NEWLINE
  }

  /** Two newlines are read exactly at the width of the longer line. */
  lemma WidthReached(a: seq<byte>, b: seq<byte>, col: nat, c0: byte, c1: byte)
    requires ReadIn(a, col, c0) && ReadIn(b, col, c1) && col <= Width(a, b)
    ensures (c0 == NEWLINE && c1 == NEWLINE) <==> col == Width(a, b)
    ensures CharIn(a, col) == if c0 == NEWLINE then SPACE else c0
    ensures CharIn(b, col) == if c1 == NEWLINE then SPACE else c1
  {
  }

  /** Both readers' turns; the blink engine is not touched. */
  method NextChars(p: Process, ghost blink: Blink, rd0in: Reader, rd1in: Reader, ghost plan: Plan, ghost col: nat,
                   ghost ahead0in: nat, ghost ahead1in: nat)
    returns (rd0: Reader, rd1: Reader, ghost ahead0: nat, ghost ahead1: nat)
    requires p.Valid() && blink.Valid() && rd0in.fd != rd1in.fd && rd0in.fd < FD_COUNT && rd1in.fd < FD_COUNT
    requires PlanOk(plan, p.img)
    requires plan.at0(p.fds[..], rd0in, col, ahead0in) && Since(plan.start0, rd0in, col, ahead0in)
    requires plan.at1(p.fds[..], rd1in, col, ahead1in) && Since(plan.start1, rd1in, col, ahead1in)
    modifies p, p.fds
    ensures p.Valid() && blink.Valid() && blink.State() == old(blink.State())
    ensures rd0.fd == rd0in.fd && rd1.fd == rd1in.fd
    ensures plan.at0(p.fds[..], rd0, col + 1, ahead0) && Since(plan.start0, rd0, col + 1, ahead0)
    ensures plan.at1(p.fds[..], rd1, col + 1, ahead1) && Since(plan.start1, rd1, col + 1, ahead1)
    ensures ReadIn(plan.goal.a.text, col, rd0.c) && ReadIn(plan.goal.b.text, col, rd1.c)
    ensures Kept(old(p.fds[..]), p.fds[..], rd0.fd, rd1.fd)
  {
    ghost var t := p.fds[..];
    rd0, ahead0 := NextChar(p, rd0in, plan.goal.a, col, plan.at0, ahead0in);
    ghost var u := p.fds[..];
    Undisturbed(p.img, t, u, rd1in, plan.goal.b, col, plan.at1, ahead1in);
    rd1, ahead1 := NextChar(p, rd1in, plan.goal.b, col, plan.at1, ahead1in);
    Undisturbed(p.img, u, p.fds[..], rd0, plan.goal.a, col + 1, plan.at0, ahead0);
    assert unchanged(blink, blink.pool, blink.vmem);
  }

  /** One turn of add_frames' inner loop; `more` says whether it goes on. */
  method Column(p: Process, blink: Blink, rd0in: Reader, rd1in: Reader, row: nat, col: nat, ghost plan: Plan)
    returns (rd0: Reader, rd1: Reader, more: bool)
    requires p.Valid() && blink.Valid() && rd0in.fd != rd1in.fd
    requires PlanOk(plan, p.img) && row == plan.goal.row && RowFits(plan.goal)
    requires plan.mid(p.fds[..], blink.State(), rd0in, rd1in, col)
    modifies p, p.fds, blink, blink.pool, blink.vmem
    ensures p.Valid() && blink.Valid() && rd0.fd == rd0in.fd && rd1.fd == rd1in.fd
    ensures if more then plan.mid(p.fds[..], blink.State(), rd0, rd1, col + 1) && col < RowWidth(plan.goal)
            else plan.done(p.fds[..], blink.State(), rd0, rd1)
    ensures Kept(old(p.fds[..]), p.fds[..], rd0.fd, rd1.fd)
  {
    ghost var ahead0, ahead1;
    ahead0, ahead1 := MiddleOpens(plan, p.img, p.fds[..], blink.State(), rd0in, rd1in, col);
    rd0, rd1, ahead0, ahead1 := NextChars(p, blink, rd0in, rd1in, plan, col, ahead0, ahead1);
    WidthReached(plan.goal.a.text, plan.goal.b.text, col, rd0.c, rd1.c);
    more := !(rd0.c == NEWLINE && rd1.c == NEWLINE);
    if more {
      AddCell(blink, rd0.c, rd1.c, row, col, plan.goal, plan.added);
      MiddleAgain(plan, p.img, p.fds[..], blink.State(), rd0, rd1, col + 1, ahead0, ahead1);
    } else {
      MiddleEnds(plan, p.img, p.fds[..], blink.State(), rd0, rd1, col, ahead0, ahead1);
    }
  }

  /** The inner loop of add_frames: the two current lines are read to their
      ends and their cells added. */
  method FrameRow(p: Process, blink: Blink, rd0in: Reader, rd1in: Reader, row: nat, ghost plan: Plan)
    returns (rd0: Reader, rd1: Reader)
    requires p.Valid() && blink.Valid() && rd0in.fd != rd1in.fd
    requires PlanOk(plan, p.img) && row == plan.goal.row && RowFits(plan.goal)
    requires plan.mid(p.fds[..], blink.State(), rd0in, rd1in, 0)
    modifies p, p.fds, blink, blink.pool, blink.vmem
    ensures p.Valid() && blink.Valid() && rd0.fd == rd0in.fd && rd1.fd == rd1in.fd
    ensures plan.done(p.fds[..], blink.State(), rd0, rd1)
    ensures Kept(old(p.fds[..]), p.fds[..], rd0.fd, rd1.fd)
  {
    rd0, rd1 := rd0in, rd1in;
    var col: nat := 0;
    while true
      invariant p.Valid() && blink.Valid() && rd0.fd == rd0in.fd && rd1.fd == rd1in.fd
      invariant plan.mid(p.fds[..], blink.State(), rd0, rd1, col)
      invariant Kept(old(p.fds[..]), p.fds[..], rd0.fd, rd1.fd)
      decreases RowWidth(plan.goal) - col
    {
      var more;
      rd0, rd1, more := Column(p, blink, rd0, rd1, row, col, plan);
      if !more {
        return;
      }
      col := col + 1;
    }
  }

  // --------------------------------------------------------------- add_frames

  function LinesFrom(lines: seq<seq<byte>>, r: nat): seq<seq<byte>> {
    if r <= |lines| then lines[r..] else []
  }

  /** At the start of row r the reader has the file's line r before it. */
  lemma RowStart(lines: seq<seq<byte>>, r: nat, c: byte, rest: seq<byte>)
    requires Lines(rest) == LinesFrom(lines, r) && (c == NEWLINE ==> rest == [])
    ensures LineLeft(c, rest) == LineOf(lines, r)
    ensures Lines(AfterLine(c, rest)) == LinesFrom(lines, r + 1)
  {
    if rest != [] {
      assert LinesFrom(lines, r)[0] == lines[r];
      assert LinesFrom(lines, r)[1..] == LinesFrom(lines, r + 1);
      var n := Find(NEWLINE, rest);
      assert Lines(rest)[1..] == if n < |rest| then Lines(rest[n + 1..]) else [];
    }
  }

  lemma FrameNodesNext(f: seq<seq<byte>>, g: seq<seq<byte>>, r: nat)
    requires Fits(f) && Fits(g)
    requires Below(FrameNodes(f, g, r), r * 80 + OFFSET) && |FrameNodes(f, g, r)| <= 40 * Min(r, 25)
    ensures Below(FrameNodes(f, g, r + 1), (r + 1) * 80 + OFFSET) && |FrameNodes(f, g, r + 1)| <= 40 * Min(r + 1, 25)
  {
    var a, b := LineOf(f, r), LineOf(g, r);
    RowNodesBelow(a, b, r, Width(a, b), FrameNodes(f, g, r));
  }

  lemma {:induction false} BlankRows(f: seq<seq<byte>>, g: seq<seq<byte>>, r: nat)
    requires r >= |f| && r >= |g|
    ensures FrameNodes(f, g, r) == FrameNodes(f, g, Max(|f|, |g|))
  {
    if r > Max(|f|, |g|) {
      BlankRows(f, g, r - 1);
      assert RowNodes([], [], r - 1, 0) + FrameNodes(f, g, r - 1) == FrameNodes(f, g, r - 1);
    }
  }

  /** What add_frames does about one file at the end of a row. */
  method EndRow(p: Process, rd0: Reader) returns (rd: Reader)
    requires p.Valid() && Feeding(p.img, p.fds[..], rd0)
    modifies p.fds
    ensures p.Valid() && Feeding(p.img, p.fds[..], rd) && rd == Reader(rd0.fd, if rd0.eof then NEWLINE else 48, rd0.eof)
    ensures forall i :: 0 <= i < FD_COUNT && (i != rd.fd || !rd.eof) ==> p.fds[i] == old(p.fds[i])
    ensures rd.eof ==> !InUse(p.fds[..], rd.fd)
  {
    if rd0.eof {
      rd := rd0.(c := NEWLINE);
      var r := p.Close(rd0.fd);
    } else {
      rd := rd0.(c := 48);
    }
  }

  /** A reader past the end of its line, once it has gone on or closed its file. */
  lemma PastLine(img: Image, t: Table, rd: Reader, line: Line, col: nat, start: Start, u: Table, next: Reader)
    requires ReadTo(img, t, rd, line, col, start) && rd.c == NEWLINE && col > 0
    requires Feeding(img, u, next) && next.eof == rd.eof && Rest(img, u, next) == Rest(img, t, rd)
    ensures BeforeNext(img, u, next, line, start)
  {
  }

  /** A reader between its line and the next one. */
  ghost predicate BeforeNext(img: Image, t: Table, rd: Reader, line: Line, start: Start) {
    && Feeding(img, t, rd) && Rest(img, t, rd) == line.after
    && Ahead(img, t, rd) <= start.ahead && (start.c != NEWLINE ==> Ahead(img, t, rd) < start.ahead)
  }

  /** A reader that has met the end of its file has closed it. */
  ghost predicate ClosedAtEnd(t: Table, rd: Reader) {
    rd.eof ==> !InUse(t, rd.fd)
  }

  /** Both files at the end of a row; the blink engine is not touched. */
  method EndRows(p: Process, ghost blink: Blink, rd0in: Reader, rd1in: Reader,
                 ghost goal: Row, ghost start0: Start, ghost start1: Start)
    returns (rd0: Reader, rd1: Reader)
    requires p.Valid() && blink.Valid() && rd0in.fd != rd1in.fd
    requires RowDone(p.img, p.fds[..], blink.State(), rd0in, rd1in, goal, start0, start1)
    modifies p.fds
    ensures p.Valid() && blink.Valid() && blink.State() == old(blink.State())
    ensures BeforeNext(p.img, p.fds[..], rd0, goal.a, start0) && BeforeNext(p.img, p.fds[..], rd1, goal.b, start1)
    ensures rd0 == Reader(rd0in.fd, if rd0in.eof then NEWLINE else 48, rd0in.eof)
    ensures rd1 == Reader(rd1in.fd, if rd1in.eof then NEWLINE else 48, rd1in.eof)
    ensures ClosedAtEnd(p.fds[..], rd0) && ClosedAtEnd(p.fds[..], rd1)
    ensures Kept(old(p.fds[..]), p.fds[..], rd0.fd, rd1.fd)
  {
    ghost var t := p.fds[..];
    rd0 := EndRow(p, rd0in);
    assert p.fds[rd1in.fd] == t[rd1in.fd];
    rd1 := EndRow(p, rd1in);
    PastLine(p.img, t, rd0in, goal.a, RowWidth(goal) + 1, start0, p.fds[..], rd0);
    PastLine(p.img, t, rd1in, goal.b, RowWidth(goal) + 1, start1, p.fds[..], rd1);
    assert unchanged(blink, blink.pool, blink.vmem);
  }

  /** One turn of add_frames' outer loop. */
  method RowTurn(p: Process, blink: Blink, rd0in: Reader, rd1in: Reader, row: nat,
                 ghost goal: Row, ghost start0: Start, ghost start1: Start)
    returns (rd0: Reader, rd1: Reader)
    requires p.Valid() && blink.Valid() && rd0in.fd != rd1in.fd && row == goal.row && RowFits(goal)
    requires MidRow(p.img, p.fds[..], blink.State(), rd0in, rd1in, goal, 0, start0, start1)
    modifies p, p.fds, blink, blink.pool, blink.vmem
    ensures p.Valid() && blink.Valid() && rd0.fd == rd0in.fd && rd1.fd == rd1in.fd
    ensures BeforeNext(p.img, p.fds[..], rd0, goal.a, start0) && (rd0.eof || rd0.c != NEWLINE)
    ensures BeforeNext(p.img, p.fds[..], rd1, goal.b, start1) && (rd1.eof || rd1.c != NEWLINE)
    ensures AddedTo(blink.State(), goal, RowWidth(goal))
    ensures ClosedAtEnd(p.fds[..], rd0) && ClosedAtEnd(p.fds[..], rd1)
    ensures Kept(old(p.fds[..]), p.fds[..], rd0.fd, rd1.fd)
  {
    ghost var plan := PlanFor(p.img, goal, start0, start1);
    assert plan.mid(p.fds[..], blink.State(), rd0in, rd1in, 0);
    rd0, rd1 := FrameRow(p, blink, rd0in, rd1in, row, plan);
    assert RowDone(p.img, p.fds[..], blink.State(), rd0, rd1, goal, start0, start1);
    rd0, rd1 := EndRows(p, blink, rd0, rd1, goal, start0, start1);
  }

  /** A reader at the start of row r of its file's lines. */
  ghost predicate AtRow(img: Image, t: Table, rd: Reader, lines: seq<seq<byte>>, r: nat) {
    && Feeding(img, t, rd) && (rd.eof || rd.c != NEWLINE) && ClosedAtEnd(t, rd)
    && Lines(Rest(img, t, rd)) == LinesFrom(lines, r)
  }

  /** The cells of the first r rows of the frames have been added. */
  ghost predicate RowsAdded(e: Engine, f: seq<seq<byte>>, g: seq<seq<byte>>, r: nat, base: seq<byte>) {
    && ShowsOver(e, base) && e.nodes == FrameNodes(f, g, r)
    && Below(e.nodes, r * 80 + OFFSET) && |e.nodes| <= 40 * Min(r, 25)
  }

  /** The line that a reader at the start of row r has before it. */
  ghost function LineAt(img: Image, t: Table, rd: Reader, lines: seq<seq<byte>>, r: nat): Line
    requires AtRow(img, t, rd, lines, r)
  {
    Line(LineOf(lines, r), AfterLine(rd.c, Rest(img, t, rd)))
  }

  ghost function StartOf(img: Image, t: Table, rd: Reader): Start
    requires Feeding(img, t, rd)
  {
    Start(rd.c, Ahead(img, t, rd))
  }

  lemma LineBegins(img: Image, t: Table, rd: Reader, lines: seq<seq<byte>>, r: nat)
    requires AtRow(img, t, rd, lines, r)
    ensures ReadTo(img, t, rd, LineAt(img, t, rd, lines, r), 0, StartOf(img, t, rd))
    ensures Lines(LineAt(img, t, rd, lines, r).after) == LinesFrom(lines, r + 1)
  {
    RowStart(lines, r, rd.c, Rest(img, t, rd));
  }

  lemma LineEnds(img: Image, t: Table, rd: Reader, line: Line, start: Start, lines: seq<seq<byte>>, r: nat)
    requires BeforeNext(img, t, rd, line, start) && (rd.eof || rd.c != NEWLINE) && ClosedAtEnd(t, rd)
    requires Lines(line.after) == LinesFrom(lines, r + 1)
    ensures AtRow(img, t, rd, lines, r + 1)
  {
  }

  /** What is to be added in row r of two frames. */
  ghost function RowOf(f: seq<seq<byte>>, g: seq<seq<byte>>, r: nat, a: Line, b: Line, base: seq<byte>): Row {
    Row(r, a, b, FrameNodes(f, g, r), base)
  }

  lemma RowBegins(e: Engine, f: seq<seq<byte>>, g: seq<seq<byte>>, r: nat, a: Line, b: Line, base: seq<byte>)
    requires RowsAdded(e, f, g, r, base) && a.text == LineOf(f, r) && b.text == LineOf(g, r) && Fits(f) && Fits(g)
    ensures AddedTo(e, RowOf(f, g, r, a, b, base), 0) && RowFits(RowOf(f, g, r, a, b, base))
  {
    assert RowNodes(a.text, b.text, r, 0) + e.nodes == e.nodes;
  }

  lemma RowEnds(e: Engine, f: seq<seq<byte>>, g: seq<seq<byte>>, r: nat, a: Line, b: Line, base: seq<byte>)
    requires a.text == LineOf(f, r) && b.text == LineOf(g, r) && Fits(f) && Fits(g)
    requires Below(FrameNodes(f, g, r), r * 80 + OFFSET) && |FrameNodes(f, g, r)| <= 40 * Min(r, 25)
    requires AddedTo(e, RowOf(f, g, r, a, b, base), Width(a.text, b.text))
    ensures RowsAdded(e, f, g, r + 1, base)
  {
    FrameNodesNext(f, g, r);
  }

  /** How much both readers can still read. */
  ghost predicate BothAhead(img: Image, t: Table, rd0: Reader, rd1: Reader, ahead: nat) {
    Feeding(img, t, rd0) && Feeding(img, t, rd1) && ahead == Ahead(img, t, rd0) + Ahead(img, t, rd1)
  }

  /** One turn of add_frames' outer loop, in terms of the files' lines. */
  method AddRow(p: Process, blink: Blink, rd0in: Reader, rd1in: Reader, row: nat,
                ghost f: seq<seq<byte>>, ghost g: seq<seq<byte>>, ghost base: seq<byte>, ghost ahead0: nat)
    returns (rd0: Reader, rd1: Reader, ghost ahead: nat)
    requires p.Valid() && blink.Valid() && rd0in.fd != rd1in.fd && Fits(f) && Fits(g) && (!rd0in.eof || !rd1in.eof)
    requires AtRow(p.img, p.fds[..], rd0in, f, row) && AtRow(p.img, p.fds[..], rd1in, g, row)
    requires BothAhead(p.img, p.fds[..], rd0in, rd1in, ahead0)
    requires RowsAdded(blink.State(), f, g, row, base)
    modifies p, p.fds, blink, blink.pool, blink.vmem
    ensures p.Valid() && blink.Valid() && rd0.fd == rd0in.fd && rd1.fd == rd1in.fd
    ensures AtRow(p.img, p.fds[..], rd0, f, row + 1) && AtRow(p.img, p.fds[..], rd1, g, row + 1)
    ensures RowsAdded(blink.State(), f, g, row + 1, base)
    ensures BothAhead(p.img, p.fds[..], rd0, rd1, ahead) && ahead < ahead0
    ensures Kept(old(p.fds[..]), p.fds[..], rd0.fd, rd1.fd)
  {
    ghost var a, b := LineAt(p.img, p.fds[..], rd0in, f, row), LineAt(p.img, p.fds[..], rd1in, g, row);
    ghost var start0, start1 := StartOf(p.img, p.fds[..], rd0in), StartOf(p.img, p.fds[..], rd1in);
    LineBegins(p.img, p.fds[..], rd0in, f, row);
    LineBegins(p.img, p.fds[..], rd1in, g, row);
    RowBegins(blink.State(), f, g, row, a, b, base);
    rd0, rd1 := RowTurn(p, blink, rd0in, rd1in, row, RowOf(f, g, row, a, b, base), start0, start1);
    LineEnds(p.img, p.fds[..], rd0, a, start0, f, row);
    LineEnds(p.img, p.fds[..], rd1, b, start1, g, row);
    RowEnds(blink.State(), f, g, row, a, b, base);
    ahead := Ahead(p.img, p.fds[..], rd0) + Ahead(p.img, p.fds[..], rd1);
  }

  lemma AtStart(img: Image, t: Table, fd: nat, lines: seq<seq<byte>>)
    requires ValidTable(img, t) && FIRST_FD <= fd && OpenFile(t, fd) && lines == Lines(Unread(img, t[fd]))
    ensures AtRow(img, t, Reader(fd, 48, false), lines, 0)
  {
  }

  lemma NothingAdded(e: Engine, f: seq<seq<byte>>, g: seq<seq<byte>>)
    requires EngineOk(e) && e.nodes == []
    ensures RowsAdded(e, f, g, 0, e.screen)
  {
  }

  lemma AtEnd(img: Image, t: Table, rd: Reader, lines: seq<seq<byte>>, r: nat)
    requires AtRow(img, t, rd, lines, r) && rd.eof
    ensures r >= |lines| && !InUse(t, rd.fd)
  {
  }

  /** The outer loop of add_frames: it ends after all rows of both files. */
  method RowLoop(p: Process, blink: Blink, rd0in: Reader, rd1in: Reader,
                 ghost f: seq<seq<byte>>, ghost g: seq<seq<byte>>, ghost base: seq<byte>, ghost ahead0: nat)
    returns (row: nat)
    requires p.Valid() && blink.Valid() && rd0in.fd != rd1in.fd && Fits(f) && Fits(g)
    requires AtRow(p.img, p.fds[..], rd0in, f, 0) && AtRow(p.img, p.fds[..], rd1in, g, 0)
    requires BothAhead(p.img, p.fds[..], rd0in, rd1in, ahead0)
    requires RowsAdded(blink.State(), f, g, 0, base)
    modifies p, p.fds, blink, blink.pool, blink.vmem
    ensures p.Valid() && blink.Valid()
    ensures RowsAdded(blink.State(), f, g, row, base)
    ensures row >= |f| && row >= |g|
    ensures !InUse(p.fds[..], rd0in.fd) && !InUse(p.fds[..], rd1in.fd)
    ensures Kept(old(p.fds[..]), p.fds[..], rd0in.fd, rd1in.fd)
  {
    var rd0, rd1 := rd0in, rd1in;
    ghost var ahead := ahead0;
    row := 0;
    while !rd0.eof || !rd1.eof
      invariant p.Valid() && blink.Valid() && rd0.fd == rd0in.fd && rd1.fd == rd1in.fd
      invariant Kept(old(p.fds[..]), p.fds[..], rd0.fd, rd1.fd)
      invariant AtRow(p.img, p.fds[..], rd0, f, row) && AtRow(p.img, p.fds[..], rd1, g, row)
      invariant BothAhead(p.img, p.fds[..], rd0, rd1, ahead)
      invariant RowsAdded(blink.State(), f, g, row, base)
      decreases ahead
    {
      rd0, rd1, ahead := AddRow(p, blink, rd0, rd1, row, f, g, base, ahead);
      row := row + 1;
    }
    AtEnd(p.img, p.fds[..], rd0, f, row);
    AtEnd(p.img, p.fds[..], rd1, g, row);
  }

  /** The rows of add_frames, on two descriptors at the start of their files. */
  method AddRows(p: Process, blink: Blink, fd0: nat, fd1: nat, ghost f: seq<seq<byte>>, ghost g: seq<seq<byte>>)
    requires p.Valid() && fd0 != fd1 && FIRST_FD <= fd0 && FIRST_FD <= fd1
    requires OpenFile(p.fds[..], fd0) && f == Lines(Unread(p.img, p.fds[fd0])) && Fits(f)
    requires OpenFile(p.fds[..], fd1) && g == Lines(Unread(p.img, p.fds[fd1])) && Fits(g)
    requires blink.Valid() && blink.list == []
    modifies p, p.fds, blink, blink.pool, blink.vmem
    ensures p.Valid() && blink.Valid()
    ensures blink.State().nodes == FrameNodes(f, g, Max(|f|, |g|))
    ensures ShowsOver(blink.State(), old(blink.vmem[..]))
    ensures !InUse(p.fds[..], fd0) && !InUse(p.fds[..], fd1) && Kept(old(p.fds[..]), p.fds[..], fd0, fd1)
  {
    var rd0, rd1 := Reader(fd0, 48, false), Reader(fd1, 48, false);
    AtStart(p.img, p.fds[..], fd0, f);
    AtStart(p.img, p.fds[..], fd1, g);
    NothingAdded(blink.State(), f, g);
    var row :=
      RowLoop(p, blink, rd0, rd1, f, g, blink.vmem[..], Ahead(p.img, p.fds[..], rd0) + Ahead(p.img, p.fds[..], rd1));
    BlankRows(f, g, row);
  }

  /** The frame file that a name leads to. */
  ghost function FrameOf(img: Image, name: seq<byte>): seq<seq<byte>>
    requires WellFormed(img)
  {
    if NamesFile(img, name) then Lines(ContentOf(img, name)) else []
  }

  /** The name leads to no entry, or to a regular file that fits the screen. */
  ghost predicate IsFrame(img: Image, name: seq<byte>)
    requires WellFormed(img)
  {
    NulFree(name) && NamesNothingElse(img, name) && Fits(FrameOf(img, name))
  }

  /** An opening of add_frames, which halts the program if it fails. */
  method OpenFrame(p: Process, name: seq<byte>) returns (fd: int)
    requires p.Valid() && IsFrame(p.img, name)
    modifies p, p.fds
    ensures p.Valid()
    ensures (p.fds[..], fd) == Opened(p.img, old(p.fds[..]), name)
    ensures fd != FAILURE ==>
              && FIRST_FD <= fd && OpenFile(p.fds[..], fd)
              && Lines(Unread(p.img, p.fds[fd])) == FrameOf(p.img, name)
              && TakenUp(old(p.fds[..]), p.fds[..], fd)
  {
    fd := p.Open(name);
    OpenedFile(p.img, old(p.fds[..]), name);
  }

  /** Two descriptors more are in use, and no other has changed. */
  ghost predicate TwoTakenUp(t: Table, u: Table, fd0: int, fd1: int) {
    && |t| == |u| && fd0 != fd1 && !InUse(t, fd0) && !InUse(t, fd1)
    && forall i :: 0 <= i < |t| && i != fd0 && i != fd1 ==> u[i] == t[i]
  }

  lemma OneAfterTheOther(t: Table, t0: Table, t1: Table, fd0: int, fd1: int)
    requires TakenUp(t, t0, fd0) && TakenUp(t0, t1, fd1)
    ensures TwoTakenUp(t, t1, fd0, fd1) && t1[fd0] == t0[fd0]
  {
  }

  /** Two descriptors that were taken up are given back. */
  lemma GivenBack(t: Table, t1: Table, u: Table, fd0: nat, fd1: nat)
    requires TwoTakenUp(t, t1, fd0, fd1) && Kept(t1, u, fd0, fd1)
    requires !InUse(u, fd0) && !InUse(u, fd1)
    ensures SameInUse(t, u)
  {
  }

  /** The two openings of add_frames. */
  method OpenFrames(p: Process, file0: seq<byte>, file1: seq<byte>) returns (fd0: int, fd1: int)
    requires p.Valid() && IsFrame(p.img, file0) && IsFrame(p.img, file1)
    modifies p, p.fds
    ensures p.Valid()
    ensures var (t, r) := Opened(p.img, old(p.fds[..]), file0);
            fd0 == r && if r == FAILURE then fd1 == FAILURE && p.fds[..] == t
                        else (p.fds[..], fd1) == Opened(p.img, t, file1)
    ensures fd1 != FAILURE ==>
              && FIRST_FD <= fd0 && OpenFile(p.fds[..], fd0)
              && Lines(Unread(p.img, p.fds[fd0])) == FrameOf(p.img, file0)
              && FIRST_FD <= fd1 && OpenFile(p.fds[..], fd1)
              && Lines(Unread(p.img, p.fds[fd1])) == FrameOf(p.img, file1)
              && TwoTakenUp(old(p.fds[..]), p.fds[..], fd0, fd1)
  {
    fd0 := OpenFrame(p, file0);
    if fd0 == FAILURE {
      return fd0, FAILURE;
    }
    ghost var t0 := p.fds[..];
    fd1 := OpenFrame(p, file1);
    if fd1 != FAILURE {
      OneAfterTheOther(old(p.fds[..]), t0, p.fds[..], fd0, fd1);
    }
  }

  /** add_frames on an empty list: one node for every position where a frame
      has ink, and no descriptor left open; it halts the program if a file
      cannot be opened. */
  method AddFrames(p: Process, blink: Blink, file0: seq<byte>, file1: seq<byte>) returns (halted: bool)
    requires p.Valid() && IsFrame(p.img, file0) && IsFrame(p.img, file1)
    requires blink.Valid() && blink.list == []
    modifies p, p.fds, blink, blink.pool, blink.vmem
    ensures p.Valid() && blink.Valid()
    ensures var (t, fd0) := Opened(p.img, old(p.fds[..]), file0);
            halted <==> fd0 == FAILURE || Opened(p.img, t, file1).1 == FAILURE
    ensures !halted ==>
              var f, g := FrameOf(p.img, file0), FrameOf(p.img, file1);
              && blink.State().nodes == FrameNodes(f, g, Max(|f|, |g|))
              && ShowsOver(blink.State(), old(blink.vmem[..]))
    ensures !halted ==> SameInUse(old(p.fds[..]), p.fds[..])
  {
    var fd0, fd1 := OpenFrames(p, file0, file1);
    if fd0 == FAILURE || fd1 == FAILURE {
      return true;
    }
    ghost var t1 := p.fds[..];
    AddRows(p, blink, fd0, fd1, FrameOf(p.img, file0), FrameOf(p.img, file1));
    GivenBack(old(p.fds[..]), t1, p.fds[..], fd0, fd1);
    return false;
  }

  // --------------------------------------------------------- what is on screen

  function TickedTimes(e: Engine, n: nat): (r: Engine)
    requires EngineOk(e)
    ensures EngineOk(r)
  {
    if n == 0 then e else Ticked(TickedTimes(e, n - 1))
  }

  lemma TickShowsOver(e: Engine, base: seq<byte>)
    requires ShowsOver(e, base)
    ensures ShowsOver(Ticked(e), base)
  {
    TickAgrees(e);
    var r := Ticked(e);
    forall q | 0 <= q < |base| && forall i :: 0 <= i < |r.nodes| ==> q != 2 * r.nodes[i].location
      ensures r.screen[q] == base[q]
    {
      forall i | 0 <= i < |e.nodes| ensures q != 2 * e.nodes[i].location {
        assert r.nodes[i].location == e.nodes[i].location;
      }
      TickScreenElsewhere(e.nodes, e.screen, q);
    }
  }

  lemma {:induction false} TicksShowOver(e: Engine, base: seq<byte>, n: nat)
    requires ShowsOver(e, base)
    ensures ShowsOver(TickedTimes(e, n), base)
    ensures |TickedTimes(e, n).nodes| == |e.nodes|
    ensures forall i :: 0 <= i < |e.nodes| ==> TickedTimes(e, n).nodes[i] == TickTimes(e.nodes[i], n)
  {
    if n > 0 {
      TicksShowOver(e, base, n - 1);
      TickShowsOver(TickedTimes(e, n - 1), base);
    }
  }

  lemma {:induction false} RowHasInk(a: seq<byte>, b: seq<byte>, r: nat, w: nat, c: nat) returns (i: nat)
    requires c < w && Inked(a, b, c)
    ensures i < |RowNodes(a, b, r, w)| && RowNodes(a, b, r, w)[i] == Started(FrameNode(a, b, r, c))
  {
    if c == w - 1 {
      i := 0;
    } else {
      i := RowHasInk(a, b, r, w - 1, c);
      i := i + if Inked(a, b, w - 1) then 1 else 0;
    }
  }

  /** Every position with ink has a node. */
  lemma {:induction false} FrameHasInk(f: seq<seq<byte>>, g: seq<seq<byte>>, rows: nat, r: nat, c: nat) returns (i: nat)
    requires r < rows && Inked(LineOf(f, r), LineOf(g, r), c)
    ensures i < |FrameNodes(f, g, rows)|
    ensures FrameNodes(f, g, rows)[i] == Started(FrameNode(LineOf(f, r), LineOf(g, r), r, c))
  {
    var a, b := LineOf(f, rows - 1), LineOf(g, rows - 1);
    if r == rows - 1 {
      i := RowHasInk(a, b, r, Width(a, b), c);
    } else {
      i := FrameHasInk(f, g, rows - 1, r, c);
      i := i + |RowNodes(a, b, rows - 1, Width(a, b))|;
    }
  }

  lemma {:induction false} RowIsInk(a: seq<byte>, b: seq<byte>, r: nat, w: nat, i: nat) returns (c: nat)
    requires i < |RowNodes(a, b, r, w)|
    ensures c < w && Inked(a, b, c) && RowNodes(a, b, r, w)[i] == Started(FrameNode(a, b, r, c))
  {
    if Inked(a, b, w - 1) && i == 0 {
      c := w - 1;
    } else {
      c := RowIsInk(a, b, r, w - 1, i - if Inked(a, b, w - 1) then 1 else 0);
    }
  }

  /** Every node stands at a position with ink. */
  lemma {:induction false} FrameIsInk(f: seq<seq<byte>>, g: seq<seq<byte>>, rows: nat, i: nat) returns (r: nat, c: nat)
    requires i < |FrameNodes(f, g, rows)|
    ensures r < rows && Inked(LineOf(f, r), LineOf(g, r), c)
    ensures FrameNodes(f, g, rows)[i] == Started(FrameNode(LineOf(f, r), LineOf(g, r), r, c))
  {
    var a, b := LineOf(f, rows - 1), LineOf(g, rows - 1);
    var n := |RowNodes(a, b, rows - 1, Width(a, b))|;
    if i < n {
      r := rows - 1;
      c := RowIsInk(a, b, r, Width(a, b), i);
    } else {
      r, c := FrameIsInk(f, g, rows - 1, i - n);
    }
  }

  lemma Alternates(n: nat)
    ensures n % 30 < 15 <==> n / 15 % 2 == 0
  {
  }

  lemma ShownAfter(node: Node, n: nat)
    requires NodeOk(node) && node.onLength == HALF_PERIOD && node.offLength == HALF_PERIOD
    ensures Shown(TickTimes(Started(node), n)) == if n / HALF_PERIOD % 2 == 0 then node.onChar else node.offChar
  {
    OnIff(node, n);
    Alternates(n);
  }

  /** After n ticks a position with ink shows the first frame if n / 15 is even
      and the second if it is odd. */
  lemma FramesAlternate(e: Engine, f: seq<seq<byte>>, g: seq<seq<byte>>, base: seq<byte>, n: nat, r: nat, c: nat)
    requires ShowsOver(e, base) && e.nodes == FrameNodes(f, g, Max(|f|, |g|)) && Fits(f) && Fits(g)
    requires r < 25 && c < 40 && Inked(LineOf(f, r), LineOf(g, r), c)
    ensures TickedTimes(e, n).screen[2 * (r * 80 + c + OFFSET)]
         == if n / HALF_PERIOD % 2 == 0 then CharIn(LineOf(f, r), c) else CharIn(LineOf(g, r), c)
  {
    var node := FrameNode(LineOf(f, r), LineOf(g, r), r, c);
    var i := FrameHasInk(f, g, Max(|f|, |g|), r, c);
    TicksShowOver(e, base, n);
    ShownAfter(node, n);
    var t := TickedTimes(e, n);
    assert t.nodes[i] == TickTimes(Started(node), n);
    assert t.screen[2 * t.nodes[i].location] == Shown(t.nodes[i]);
  }

  /** No position where one of the frames has a character is at byte q of the screen. */
  ghost predicate InkFree(f: seq<seq<byte>>, g: seq<seq<byte>>, q: nat) {
    forall r: nat, c: nat :: CharIn(LineOf(f, r), c) != SPACE || CharIn(LineOf(g, r), c) != SPACE ==>
                               q != 2 * (r * 80 + c + 40)
  }

  lemma NoNodeAt(f: seq<seq<byte>>, g: seq<seq<byte>>, rows: nat, q: nat, i: nat)
    requires InkFree(f, g, q) && i < |FrameNodes(f, g, rows)|
    ensures q != 2 * FrameNodes(f, g, rows)[i].location
  {
    var r, c := FrameIsInk(f, g, rows, i);
    assert Inked(LineOf(f, r), LineOf(g, r), c);
  }

  lemma ScreenElsewhere(e: Engine, base: seq<byte>, n: nat, q: nat)
    requires ShowsOver(e, base) && q < |base|
    requires forall i :: 0 <= i < |e.nodes| ==> q != 2 * e.nodes[i].location
    ensures TickedTimes(e, n).screen[q] == base[q]
  {
    TicksShowOver(e, base, n);
    var t := TickedTimes(e, n);
    forall i | 0 <= i < |t.nodes| ensures q != 2 * t.nodes[i].location {
      assert t.nodes[i].location == e.nodes[i].location;
    }
  }

  /** Everything else on the screen stays what it was before the frames came. */
  lemma RestUntouched(e: Engine, f: seq<seq<byte>>, g: seq<seq<byte>>, base: seq<byte>, n: nat, q: nat)
    requires ShowsOver(e, base) && e.nodes == FrameNodes(f, g, Max(|f|, |g|)) && q < |base| && InkFree(f, g, q)
    ensures TickedTimes(e, n).screen[q] == base[q]
  {
    forall i | 0 <= i < |e.nodes| ensures q != 2 * e.nodes[i].location {
      NoNodeAt(f, g, Max(|f|, |g|), q, i);
    }
    ScreenElsewhere(e, base, n, q);
  }

  /** The wait loop of fish: n ticks of the clock. */
  method Animate(blink: Blink, n: nat)
    requires blink.Valid()
    modifies blink.pool, blink.vmem
    ensures blink.Valid()
    ensures EngineOk(old(blink.State())) && blink.State() == TickedTimes(old(blink.State()), n)
  {
    for i := 0 to n
      invariant blink.Valid()
      invariant EngineOk(old(blink.State())) && blink.State() == TickedTimes(old(blink.State()), i)
    {
      blink.RtcTasklet();
    }
  }

  /** What video memory shows after n ticks where one of two frames has a
      character: that of the first or of the second. */
  ghost predicate AlternatesAt(vmem: seq<byte>, f: seq<seq<byte>>, g: seq<seq<byte>>, n: nat, r: nat, c: nat)
    requires |vmem| == 4000 && r < 25 && c < 40
  {
    CharIn(LineOf(f, r), c) != SPACE || CharIn(LineOf(g, r), c) != SPACE ==>
      vmem[2 * (r * 80 + c + 40)] == if n / 15 % 2 == 0 then CharIn(LineOf(f, r), c) else CharIn(LineOf(g, r), c)
  }

  ghost predicate Alternating(vmem: seq<byte>, f: seq<seq<byte>>, g: seq<seq<byte>>, n: nat) {
    |vmem| == 4000 && forall r: nat, c: nat :: r < 25 && c < 40 ==> AlternatesAt(vmem, f, g, n, r, c)
  }

  lemma AlternatesHere(e: Engine, f: seq<seq<byte>>, g: seq<seq<byte>>, base: seq<byte>, n: nat, r: nat, c: nat)
    requires ShowsOver(e, base) && e.nodes == FrameNodes(f, g, Max(|f|, |g|)) && Fits(f) && Fits(g)
    requires r < 25 && c < 40
    ensures AlternatesAt(TickedTimes(e, n).screen, f, g, n, r, c)
  {
    if Inked(LineOf(f, r), LineOf(g, r), c) {
      FramesAlternate(e, f, g, base, n, r, c);
    }
  }

  lemma AllAlternate(e: Engine, f: seq<seq<byte>>, g: seq<seq<byte>>, base: seq<byte>, n: nat)
    requires ShowsOver(e, base) && e.nodes == FrameNodes(f, g, Max(|f|, |g|)) && Fits(f) && Fits(g)
    ensures Alternating(TickedTimes(e, n).screen, f, g, n)
  {
    var screen := TickedTimes(e, n).screen;
    forall r: nat, c: nat | r < 25 && c < 40 ensures AlternatesAt(screen, f, g, n, r, c) {
      AlternatesHere(e, f, g, base, n, r, c);
    }
  }

  /** Wherever the screen was blank it now holds the frame, its blanks included. */
  ghost predicate HoldsFrame(vmem: seq<byte>, base: seq<byte>, frame: seq<seq<byte>>) {
    && |vmem| == |base| == 4000
    && forall r, c :: 0 <= r < 25 && 0 <= c < 40 && base[2 * (r * 80 + c + 40)] == SPACE ==>
         vmem[2 * (r * 80 + c + 40)] == CharIn(LineOf(frame, r), c)
  }

  /** Where neither frame has a character, the screen is what it was. */
  ghost predicate Untouched(vmem: seq<byte>, base: seq<byte>, f: seq<seq<byte>>, g: seq<seq<byte>>) {
    |vmem| == |base| && forall q :: 0 <= q < |base| && InkFree(f, g, q) ==> vmem[q] == base[q]
  }

  lemma OtherPlace(f: seq<seq<byte>>, g: seq<seq<byte>>, r: nat, c: nat)
    requires Fits(f) && Fits(g) && r < 25 && c < 40
    requires CharIn(LineOf(f, r), c) == SPACE && CharIn(LineOf(g, r), c) == SPACE
    ensures InkFree(f, g, 2 * (r * 80 + c + 40))
  {
    forall r': nat, c': nat | CharIn(LineOf(f, r'), c') != SPACE || CharIn(LineOf(g, r'), c') != SPACE
      ensures r * 80 + c != r' * 80 + c'
    {
      assert c' < 40 && (r != r' || c != c');
    }
  }

  lemma RestIsUntouched(e: Engine, f: seq<seq<byte>>, g: seq<seq<byte>>, base: seq<byte>, n: nat)
    requires ShowsOver(e, base) && e.nodes == FrameNodes(f, g, Max(|f|, |g|))
    ensures Untouched(TickedTimes(e, n).screen, base, f, g)
  {
    forall q | 0 <= q < |base| && InkFree(f, g, q) ensures TickedTimes(e, n).screen[q] == base[q] {
      RestUntouched(e, f, g, base, n, q);
    }
  }

  /** On a blank half of the screen the current frame stands as in its file. */
  lemma BlankHoldsFrame(vmem: seq<byte>, base: seq<byte>, f: seq<seq<byte>>, g: seq<seq<byte>>, n: nat)
    requires Alternating(vmem, f, g, n) && Untouched(vmem, base, f, g) && Fits(f) && Fits(g)
    ensures HoldsFrame(vmem, base, if n / 15 % 2 == 0 then f else g)
  {
    var frame := if n / 15 % 2 == 0 then f else g;
    forall r, c | 0 <= r < 25 && 0 <= c < 40 && base[2 * (r * 80 + c + 40)] == SPACE
      ensures vmem[2 * (r * 80 + c + 40)] == CharIn(LineOf(frame, r), c)
    {
      assert AlternatesAt(vmem, f, g, n, r, c);
      if CharIn(LineOf(f, r), c) == SPACE && CharIn(LineOf(g, r), c) == SPACE {
        OtherPlace(f, g, r, c);
      }
    }
  }

  /** From two files to video memory: the frames are added and, after n ticks,
      the one or the other is on the screen. */
  method ShowFrames(p: Process, blink: Blink, file0: seq<byte>, file1: seq<byte>, n: nat) returns (halted: bool)
    requires p.Valid() && IsFrame(p.img, file0) && IsFrame(p.img, file1)
    requires blink.Valid() && blink.list == []
    modifies p, p.fds, blink, blink.pool, blink.vmem
    ensures p.Valid() && blink.Valid()
    ensures var (t, fd0) := Opened(p.img, old(p.fds[..]), file0);
            halted <==> fd0 == FAILURE || Opened(p.img, t, file1).1 == FAILURE
    ensures !halted ==>
              var f, g := FrameOf(p.img, file0), FrameOf(p.img, file1);
              && Alternating(blink.vmem[..], f, g, n)
              && Untouched(blink.vmem[..], old(blink.vmem[..]), f, g)
              && HoldsFrame(blink.vmem[..], old(blink.vmem[..]), if n / 15 % 2 == 0 then f else g)
    ensures !halted ==> SameInUse(old(p.fds[..]), p.fds[..])
  {
    halted := AddFrames(p, blink, file0, file1);
    if halted {
      return;
    }
    ghost var f, g, base := FrameOf(p.img, file0), FrameOf(p.img, file1), old(blink.vmem[..]);
    AllAlternate(blink.State(), f, g, base, n);
    RestIsUntouched(blink.State(), f, g, base, n);
    Animate(blink, n);
    BlankHoldsFrame(blink.vmem[..], base, f, g, n);
  }
}
