/** The text console as a value, and the unbounded roll of paper it is a window on. */
module Screens {
  import opened Bytes
  import opened Text

  const COLS := 80
  const ROWS := 25
  const ATTRIB: byte := 7

  datatype Cell = Cell(ch: byte, attr: byte)

  /** The 25 rows of video memory with the row below its first address in
      front of them: a backspace at the origin puts the cursor there. */
  datatype Screen = Screen(cells: seq<Cell>, x: int, y: int)

  const ALL_CELLS := 2080  // 26 rows of 80

  const CLEARED := Cell(NUL, ATTRIB)
  const SPACED := Cell(SPACE, ATTRIB)

  /** The cursor is in one of the 25 rows or in the row before them. */
  ghost predicate InRange(s: Screen) {
    |s.cells| == ALL_CELLS && 0 <= s.x < 80 && -1 <= s.y < 25
  }

  ghost predicate OnScreen(s: Screen) {
    InRange(s) && 0 <= s.y
  }

  // ------------------------------------------------------------------- putc

  /** clear_top_row: every cell from a row on. */
  function Blanked(cells: seq<Cell>, row: nat): (r: seq<Cell>)
    ensures |r| == |cells|
    ensures forall i :: 0 <= i < |r| ==> r[i] == if 80 * (row + 1) <= i then CLEARED else cells[i]
  {
    seq(|cells|, i requires 0 <= i < |cells| => if 80 * (row + 1) <= i then CLEARED else cells[i])
  }

  /** scroll: the 25 rows move up by one and the last is cleared. */
  function Scrolled(cells: seq<Cell>): (r: seq<Cell>)
    requires |cells| == ALL_CELLS
    ensures |r| == ALL_CELLS
    ensures forall i :: 0 <= i < ALL_CELLS ==>
              r[i] == if i < 80 then cells[i] else if i < 2000 then cells[i + 80] else CLEARED
  {
    cells[..80] + cells[160..] + seq(80, _ => CLEARED)
  }

  /** The 24 rows moved up, then the last one cleared. */
  lemma ScrolledInTwo(cells: seq<Cell>, moved: seq<Cell>)
    requires |cells| == ALL_CELLS && |moved| == ALL_CELLS
    requires forall k :: 0 <= k < 80 ==> moved[k] == cells[k]
    requires forall k :: 80 <= k < 2000 ==> moved[k] == cells[k + 80]
    ensures Blanked(moved, 24) == Scrolled(cells)
  {
  }

  /** One byte stored at the cursor. */
  function Written(s: Screen, c: byte): seq<Cell>
    requires InRange(s)
  {
    s.cells[80 * (s.y + 1) + s.x := Cell(c, ATTRIB)]
  }

  predicate EndsLine(c: byte) {
    c == NEWLINE || c == RETURN
  }

  function Put(s: Screen, c: byte): (r: Screen)
    requires InRange(s)
    ensures InRange(r)
  {
    if EndsLine(c) then
      if s.y + 1 >= ROWS then Screen(Scrolled(s.cells), 0, 24) else Screen(s.cells, 0, s.y + 1)
    else if c == BACKSPACE then
      var back :=
        if s.y < 0 && s.x == 0 then Screen(s.cells, 0, 0)
        else if s.x == 0 then Screen(Blanked(s.cells, s.y), 79, s.y - 1)
        else Screen(s.cells, s.x - 1, s.y);
      Screen(Written(back, SPACE), back.x, back.y)
    else if c == NUL then
      Screen(Written(s, NUL), s.x, s.y)
    else if s.x + 1 < COLS then
      Screen(Written(s, c), s.x + 1, s.y)
    else if s.y + 1 >= ROWS then
      Screen(Blanked(Scrolled(Written(s, c)), 24), 0, 24)
    else
      Screen(Blanked(Written(s, c), s.y + 1), 0, s.y + 1)
  }

  function PutAll(s: Screen, text: seq<byte>): (r: Screen)
    requires InRange(s)
    ensures InRange(r)
  {
    if text == [] then s else Put(PutAll(s, text[..|text| - 1]), text[|text| - 1])
  }

  function Cleared(s: Screen): Screen
    requires |s.cells| == ALL_CELLS
  {
    Screen(s.cells[..80] + seq(2000, _ => SPACED), 0, 0)
  }

  /** The cursor leaves the screen exactly when a backspace is put at the origin. */
  lemma LeavesTheScreenIff(s: Screen, c: byte)
    requires OnScreen(s)
    ensures !OnScreen(Put(s, c)) <==> c == BACKSPACE && s.x == 0 && s.y == 0
  {
  }

  /** In the row before the screen nothing that is typed shows, until the
      cursor comes back to the first cell: a line end leaves the screen as it
      is, a backspace at the row's start erases that cell, and a character at the
      row's end clears everything. */
  lemma AboveTheScreen(s: Screen, c: byte)
    requires InRange(s) && s.y == -1
    ensures var r := Put(s, c);
            if c == NUL then r.x == s.x && r.y == -1
            else if c == BACKSPACE then if s.x == 0 then r.x == 0 && r.y == 0 else r.x == s.x - 1 && r.y == -1
            else if c == NEWLINE || c == RETURN || s.x == 79 then r.x == 0 && r.y == 0
            else r.x == s.x + 1 && r.y == -1
    ensures forall i :: 80 <= i < ALL_CELLS ==>
              Put(s, c).cells[i] ==
              if c == BACKSPACE && s.x == 0 && i == 80 then Cell(32, 7)
              else if s.x == 79 && c !in {NUL, BACKSPACE, NEWLINE, RETURN} then Cell(0, 7)
              else s.cells[i]
  {
  }

  /** A backspace at the first cell clears the whole screen. */
  lemma BackspaceAtOrigin(s: Screen)
    requires OnScreen(s) && s.x == 0 && s.y == 0
    ensures var r := Put(s, BACKSPACE);
            && r.x == 79 && r.y == -1
            && forall i :: 80 <= i < ALL_CELLS ==> r.cells[i] == Cell(0, 7)
  {
  }

  // -------------------------------------------------------------- attributes

  /** Every cell of the 25 rows has attribute 7, light grey on black. */
  ghost predicate Readable(s: Screen) {
    |s.cells| == ALL_CELLS && forall i :: 80 <= i < ALL_CELLS ==> s.cells[i].attr == 7
  }

  lemma ClearedIsReadable(s: Screen)
    requires |s.cells| == ALL_CELLS
    ensures Readable(Cleared(s))
  {
  }

  /** Every byte put keeps every cell readable. */
  lemma PutKeepsReadable(s: Screen, c: byte)
    requires InRange(s) && Readable(s)
    ensures Readable(Put(s, c))
  {
  }

  lemma {:induction false} RunKeepsReadable(s: Screen, text: seq<byte>)
    requires InRange(s) && Readable(s)
    ensures Readable(PutAll(s, text))
  {
    if text != [] {
      RunKeepsReadable(s, text[..|text| - 1]);
      PutKeepsReadable(PutAll(s, text[..|text| - 1]), text[|text| - 1]);
    }
  }

  // ------------------------------------------------------------------ paper

  /** Typed text: the finished rows, and the row with the cursor. */
  datatype Paper = Paper(rows: seq<seq<byte>>, cur: seq<byte>)

  ghost predicate PaperOk(p: Paper) {
    |p.cur| < 80 && forall r :: 0 <= r < |p.rows| ==> |p.rows[r]| <= 80
  }

  /** Row r of the paper. */
  function Row(p: Paper, r: nat): seq<byte> {
    if r < |p.rows| then p.rows[r] else if r == |p.rows| then p.cur else []
  }

  /** The character in row r, column c of the paper. */
  function PaperChar(p: Paper, r: nat, c: nat): byte {
    if c < |Row(p, r)| then Row(p, r)[c] else SPACE
  }

  /** A row cut or filled up with spaces to 79 characters. */
  function To79(row: seq<byte>): (r: seq<byte>)
    ensures |r| == 79
    ensures forall c :: 0 <= c < 79 ==> r[c] == if c < |row| then row[c] else SPACE
  {
    seq(79, c requires 0 <= c < 79 => if c < |row| then row[c] else SPACE)
  }

  /** One character typed, or the one before the cursor erased. */
  function Typed(p: Paper, c: byte): (r: Paper)
    requires PaperOk(p) && (c == BACKSPACE ==> p.cur != [] || p.rows != [])
    ensures PaperOk(r)
  {
    if EndsLine(c) then Paper(p.rows + [p.cur], [])
    else if c == BACKSPACE then
      if p.cur != [] then Paper(p.rows, p.cur[..|p.cur| - 1])
      else Paper(p.rows[..|p.rows| - 1], To79(p.rows[|p.rows| - 1]))
    else if c == NUL then p
    else if |p.cur| + 1 < 80 then Paper(p.rows, p.cur + [c])
    else Paper(p.rows + [p.cur + [c]], [])
  }

  predicate Blank(c: byte) {
    c == NUL || c == SPACE
  }

  function CharAtCell(s: Screen, r: nat, c: nat): byte
    requires |s.cells| == ALL_CELLS && r < 25 && c < 80
  {
    s.cells[80 * (r + 1) + c].ch
  }

  predicate LooksLike(a: byte, b: byte) {
    a == b || (Blank(a) && Blank(b))
  }

  /** The screen shows the 25 rows of the paper from row `top` on, and the
      cursor is where the paper's is. */
  ghost predicate Shows(s: Screen, p: Paper, top: nat) {
    && OnScreen(s) && PaperOk(p)
    && s.x == |p.cur| && s.y == |p.rows| - top
    && forall r, c :: 0 <= r < 25 && 0 <= c < 80 ==> LooksLike(CharAtCell(s, r, c), PaperChar(p, top + r, c))
  }

  /** The first row shown after c is typed. */
  function NextTop(p: Paper, top: nat, c: byte): nat
    requires PaperOk(p) && (c == BACKSPACE ==> p.cur != [] || p.rows != [])
  {
    if |Typed(p, c).rows| - top > 24 then top + 1 else top
  }

  lemma NewlineCell(s: Screen, p: Paper, top: nat, c: byte, r: nat, k: nat)
    requires Shows(s, p, top) && EndsLine(c) && s.y < 24 && r < 25 && k < 80
    ensures LooksLike(CharAtCell(Put(s, c), r, k), PaperChar(Typed(p, c), NextTop(p, top, c) + r, k))
  {
    assert LooksLike(CharAtCell(s, r, k), PaperChar(p, top + r, k));
  }

  lemma NewlineScrolledCell(s: Screen, p: Paper, top: nat, c: byte, r: nat, k: nat)
    requires Shows(s, p, top) && EndsLine(c) && s.y == 24 && r < 25 && k < 80
    ensures LooksLike(CharAtCell(Put(s, c), r, k), PaperChar(Typed(p, c), NextTop(p, top, c) + r, k))
  {
    if r < 24 {
      assert LooksLike(CharAtCell(s, r + 1, k), PaperChar(p, top + (r + 1), k));
    }
  }

  lemma NewlineShows(s: Screen, p: Paper, top: nat, c: byte)
    requires Shows(s, p, top) && EndsLine(c)
    ensures Shows(Put(s, c), Typed(p, c), NextTop(p, top, c))
  {
    forall r, k | 0 <= r < 25 && 0 <= k < 80
      ensures LooksLike(CharAtCell(Put(s, c), r, k), PaperChar(Typed(p, c), NextTop(p, top, c) + r, k))
    {
      if s.y < 24 {
        NewlineCell(s, p, top, c, r, k);
      } else {
        NewlineScrolledCell(s, p, top, c, r, k);
      }
    }
  }

  lemma EraseInRowShows(s: Screen, p: Paper, top: nat, c: byte)
    requires Shows(s, p, top) && c == BACKSPACE && p.cur != []
    ensures Shows(Put(s, c), Typed(p, c), NextTop(p, top, c))
  {
    var s', p', top' := Put(s, c), Typed(p, c), NextTop(p, top, c);
    forall r, k | 0 <= r < 25 && 0 <= k < 80
      ensures LooksLike(CharAtCell(s', r, k), PaperChar(p', top' + r, k))
    {
      assert LooksLike(CharAtCell(s, r, k), PaperChar(p, top + r, k));
    }
  }

  lemma EraseAcrossRowsShows(s: Screen, p: Paper, top: nat, c: byte)
    requires Shows(s, p, top) && c == BACKSPACE && p.cur == [] && |p.rows| > top
    ensures Shows(Put(s, c), Typed(p, c), NextTop(p, top, c))
  {
    var s', p', top' := Put(s, c), Typed(p, c), NextTop(p, top, c);
    forall r, k | 0 <= r < 25 && 0 <= k < 80
      ensures LooksLike(CharAtCell(s', r, k), PaperChar(p', top' + r, k))
    {
      assert LooksLike(CharAtCell(s, r, k), PaperChar(p, top + r, k));
    }
  }

  lemma PrintInRowShows(s: Screen, p: Paper, top: nat, c: byte)
    requires Shows(s, p, top) && !EndsLine(c) && c != BACKSPACE && (c == NUL || |p.cur| < 79)
    ensures Shows(Put(s, c), Typed(p, c), NextTop(p, top, c))
  {
    var s', p', top' := Put(s, c), Typed(p, c), NextTop(p, top, c);
    forall r, k | 0 <= r < 25 && 0 <= k < 80
      ensures LooksLike(CharAtCell(s', r, k), PaperChar(p', top' + r, k))
    {
      assert LooksLike(CharAtCell(s, r, k), PaperChar(p, top + r, k));
    }
  }

  lemma PrintLastColumnShows(s: Screen, p: Paper, top: nat, c: byte)
    requires Shows(s, p, top) && !EndsLine(c) && c != BACKSPACE && c != NUL && |p.cur| == 79 && s.y < 24
    ensures Shows(Put(s, c), Typed(p, c), NextTop(p, top, c))
  {
    var s', p', top' := Put(s, c), Typed(p, c), NextTop(p, top, c);
    forall r, k | 0 <= r < 25 && 0 <= k < 80
      ensures LooksLike(CharAtCell(s', r, k), PaperChar(p', top' + r, k))
    {
      assert LooksLike(CharAtCell(s, r, k), PaperChar(p, top + r, k));
      if r < 24 {
        assert LooksLike(CharAtCell(s, r + 1, k), PaperChar(p, top + r + 1, k));
      }
    }
  }

  lemma PrintLastCellShows(s: Screen, p: Paper, top: nat, c: byte)
    requires Shows(s, p, top) && !EndsLine(c) && c != BACKSPACE && c != NUL && |p.cur| == 79 && s.y == 24
    ensures Shows(Put(s, c), Typed(p, c), NextTop(p, top, c))
  {
    var s', p', top' := Put(s, c), Typed(p, c), NextTop(p, top, c);
    forall r, k | 0 <= r < 25 && 0 <= k < 80
      ensures LooksLike(CharAtCell(s', r, k), PaperChar(p', top' + r, k))
    {
      assert LooksLike(CharAtCell(s, r, k), PaperChar(p, top + r, k));
      if r < 24 {
        assert LooksLike(CharAtCell(s, r + 1, k), PaperChar(p, top + r + 1, k));
      }
    }
  }

  /** Any character but a backspace on the screen's first cell keeps the
      screen in step with the paper. */
  lemma PutShows(s: Screen, p: Paper, top: nat, c: byte)
    requires Shows(s, p, top)
    requires c == BACKSPACE ==> p.cur != [] || |p.rows| > top
    ensures Shows(Put(s, c), Typed(p, c), NextTop(p, top, c))
  {
    if EndsLine(c) {
      NewlineShows(s, p, top, c);
    } else if c == BACKSPACE {
      if p.cur != [] {
        EraseInRowShows(s, p, top, c);
      } else {
        EraseAcrossRowsShows(s, p, top, c);
      }
    } else if c == NUL || |p.cur| < 79 {
      PrintInRowShows(s, p, top, c);
    } else if s.y < 24 {
      PrintLastColumnShows(s, p, top, c);
    } else {
      PrintLastCellShows(s, p, top, c);
    }
  }

  // ------------------------------------------------------------------- runs

  /** A roll of paper and the first of its rows on the screen. */
  datatype Sheet = Sheet(paper: Paper, top: nat)

  /** Nothing on the screen is before the cursor. */
  predicate AtOrigin(sh: Sheet) {
    sh.paper.cur == [] && |sh.paper.rows| <= sh.top
  }

  function Type(sh: Sheet, c: byte): (r: Sheet)
    requires PaperOk(sh.paper)
    ensures PaperOk(r.paper)
  {
    if c == BACKSPACE && AtOrigin(sh) then sh
    else Sheet(Typed(sh.paper, c), NextTop(sh.paper, sh.top, c))
  }

  function TypeAll(sh: Sheet, text: seq<byte>): (r: Sheet)
    requires PaperOk(sh.paper)
    ensures PaperOk(r.paper)
  {
    if text == [] then sh else Type(TypeAll(sh, text[..|text| - 1]), text[|text| - 1])
  }

  /** No backspace of the text is typed at the screen's first cell. */
  ghost predicate StaysOn(sh: Sheet, text: seq<byte>)
    requires PaperOk(sh.paper)
  {
    forall k :: 0 <= k < |text| && text[k] == BACKSPACE ==> !AtOrigin(TypeAll(sh, text[..k]))
  }

  ghost predicate Displays(s: Screen, sh: Sheet) {
    Shows(s, sh.paper, sh.top)
  }

  lemma AllButLast(text: seq<byte>, k: nat)
    requires k < |text|
    ensures text[..|text| - 1][..k] == text[..k]
  {
  }

  /** A run keeps the screen in step with the paper as long as it stays on the screen. */
  lemma {:induction false} RunDisplays(s: Screen, sh: Sheet, text: seq<byte>)
    requires Displays(s, sh) && StaysOn(sh, text)
    ensures Displays(PutAll(s, text), TypeAll(sh, text))
  {
    if text != [] {
      var n := |text| - 1;
      var front := text[..n];
      forall k | 0 <= k < n && front[k] == BACKSPACE
        ensures !AtOrigin(TypeAll(sh, front[..k]))
      {
        AllButLast(text, k);
        assert text[k] == BACKSPACE;
      }
      RunDisplays(s, sh, front);
      var before := TypeAll(sh, front);
      PutShows(PutAll(s, front), before.paper, before.top, text[n]);
    }
  }

  const EMPTY_PAPER := Paper([], [])

  lemma ClearDisplays(s: Screen)
    requires |s.cells| == ALL_CELLS
    ensures Displays(Cleared(s), Sheet(EMPTY_PAPER, 0))
  {
  }

  // ----------------------------------------------- what the paper looks like

  /** A character that is neither a terminator, a line end nor a backspace. */
  predicate Printable(c: byte) {
    c != NUL && c != BACKSPACE && !EndsLine(c)
  }

  /** A line cut into rows of 80; a full last row is followed by an empty one. */
  function Wrap(line: seq<byte>): (rows: seq<seq<byte>>)
    ensures rows != [] && |rows[|rows| - 1]| < 80
    decreases |line|
  {
    if |line| < 80 then [line] else [line[..80]] + Wrap(line[80..])
  }

  /** Row r of a wrapped line holds its characters from 80 r on, 80 of them or
      what there is; there are as many rows as that takes and one for the cursor. */
  lemma {:induction false} WrapPlaces(line: seq<byte>, r: nat)
    requires 80 * r <= |line|
    ensures 80 * (|Wrap(line)| - 1) <= |line| < 80 * |Wrap(line)|
    ensures Wrap(line)[r] == line[80 * r..Min(80 * r + 80, |line|)]
    decreases |line|
  {
    if |line| >= 80 {
      WrapPlaces(line[80..], if r > 0 then r - 1 else 0);
      if r > 0 {
        SameSlice(line, 80 * r, Min(80 * r + 80, |line|));
      }
    }
  }

  lemma SameSlice(line: seq<byte>, from: nat, to: nat)
    requires 80 <= from <= to <= |line|
    ensures line[80..][from - 80..to - 80] == line[from..to]
  {
  }

  /** The lines of a text, wrapped. */
  function Wrapped(text: seq<byte>): (rows: seq<seq<byte>>)
    ensures rows != [] && |rows[|rows| - 1]| < 80
    decreases |text|
  {
    var n := Find(NEWLINE, text);
    if n == |text| then Wrap(text) else Wrap(text[..n]) + Wrapped(text[n + 1..])
  }

  function Front(rows: seq<seq<byte>>): seq<seq<byte>>
    requires rows != []
  {
    rows[..|rows| - 1]
  }

  function Last(rows: seq<seq<byte>>): seq<byte>
    requires rows != []
  {
    rows[|rows| - 1]
  }

  /** The rows after one more character. */
  function Extended(rows: seq<seq<byte>>, c: byte): seq<seq<byte>>
    requires rows != []
  {
    if c == NEWLINE then rows + [[]]
    else if |Last(rows)| + 1 < 80 then Front(rows) + [Last(rows) + [c]]
    else Front(rows) + [Last(rows) + [c], []]
  }

  lemma ExtendedTail(head: seq<seq<byte>>, tail: seq<seq<byte>>, c: byte)
    requires tail != []
    ensures Extended(head + tail, c) == head + Extended(tail, c)
  {
    assert Front(head + tail) == head + Front(tail) && Last(head + tail) == Last(tail);
  }

  lemma FirstRow(row: seq<byte>, rest: seq<byte>)
    requires |row| == 80
    ensures Wrap(row + rest) == [row] + Wrap(rest)
  {
    assert (row + rest)[..80] == row && (row + rest)[80..] == rest;
  }

  lemma FullRow(line: seq<byte>, c: byte)
    requires |line| == 79 && c != NEWLINE
    ensures Wrap(line + [c]) == Extended(Wrap(line), c)
  {
    assert (line + [c]) + [] == line + [c];
    FirstRow(line + [c], []);
  }

  lemma {:induction false} WrapExtended(line: seq<byte>, c: byte)
    requires c != NEWLINE
    ensures Wrap(line + [c]) == Extended(Wrap(line), c)
    decreases |line|
  {
    if |line| < 79 {
    } else if |line| == 79 {
      FullRow(line, c);
    } else {
      var row, rest := line[..80], line[80..];
      Regroup(row, rest, [c], line);
      FirstRow(row, rest);
      FirstRow(row, rest + [c]);
      WrapExtended(rest, c);
      ExtendedTail([row], Wrap(rest), c);
    }
  }

  lemma Regroup(a: seq<byte>, b: seq<byte>, c: seq<byte>, all: seq<byte>)
    requires all == a + b
    ensures all + c == a + (b + c)
  {
  }

  lemma WrappedOnly(text: seq<byte>)
    requires NEWLINE !in text
    ensures Wrapped(text) == Wrap(text)
  {
    FindIs(NEWLINE, text, |text|);
  }

  lemma WrappedFirst(line: seq<byte>, rest: seq<byte>)
    requires NEWLINE !in line
    ensures Wrapped(line + ([NEWLINE] + rest)) == Wrap(line) + Wrapped(rest)
  {
    var text := line + ([NEWLINE] + rest);
    FindIs(NEWLINE, text, |line|);
    assert text[..|line|] == line && text[|line| + 1..] == rest;
  }

  lemma {:induction false} WrappedExtended(text: seq<byte>, c: byte)
    ensures Wrapped(text + [c]) == Extended(Wrapped(text), c)
    decreases |text|
  {
    if NEWLINE in text {
      var n := Find(NEWLINE, text);
      var line, rest := text[..n], text[n + 1..];
      CutAt(text, n, c);
      WrappedFirst(line, rest);
      WrappedFirst(line, rest + [c]);
      WrappedExtended(rest, c);
      ExtendedTail(Wrap(line), Wrapped(rest), c);
    } else {
      WrappedOnly(text);
      if c == NEWLINE {
        WrappedFirst(text, []);
        assert text + ([NEWLINE] + []) == text + [c];
      } else {
        WrappedOnly(text + [c]);
        WrapExtended(text, c);
      }
    }
  }

  lemma CutAt(text: seq<byte>, n: nat, c: byte)
    requires n < |text| && text[n] == NEWLINE
    ensures text == text[..n] + ([NEWLINE] + text[n + 1..])
    ensures text + [c] == text[..n] + ([NEWLINE] + (text[n + 1..] + [c]))
  {
  }

  function TopFor(rows: nat): nat {
    if rows > 24 then rows - 24 else 0
  }

  /** What is typed on empty paper is the wrapped text, and the screen shows
      its last 25 rows. */
  lemma {:induction false} PaperIsWrapped(text: seq<byte>)
    requires forall k :: 0 <= k < |text| ==> Printable(text[k]) || text[k] == NEWLINE
    ensures var sh := TypeAll(Sheet(EMPTY_PAPER, 0), text);
            && sh.paper.rows + [sh.paper.cur] == Wrapped(text)
            && sh.top == TopFor(|sh.paper.rows|)
  {
    var start := Sheet(EMPTY_PAPER, 0);
    if text == [] {
      assert Wrapped([]) == [[]];
    } else {
      var n := |text| - 1;
      var front := text[..n];
      assert front + [text[n]] == text;
      PaperIsWrapped(front);
      WrappedExtended(front, text[n]);
      TypedExtends(TypeAll(start, front), text[n]);
    }
  }

  /** Typing extends the rows of the paper. */
  lemma TypedExtends(sh: Sheet, c: byte)
    requires PaperOk(sh.paper) && (Printable(c) || c == NEWLINE) && sh.top == TopFor(|sh.paper.rows|)
    ensures var r := Type(sh, c);
            && r.paper.rows + [r.paper.cur] == Extended(sh.paper.rows + [sh.paper.cur], c)
            && r.top == TopFor(|r.paper.rows|)
  {
    var rows := sh.paper.rows + [sh.paper.cur];
    assert Front(rows) == sh.paper.rows && Last(rows) == sh.paper.cur;
  }

  /** The character in row r, column c of these rows. */
  function RowChar(rows: seq<seq<byte>>, r: nat, c: nat): byte {
    if r < |rows| && c < |rows[r]| then rows[r][c] else SPACE
  }

  lemma PaperCharIs(p: Paper, r: nat, c: nat)
    ensures PaperChar(p, r, c) == RowChar(p.rows + [p.cur], r, c)
  {
  }

  /** The 25 rows of the screen are these from row `top` on, a terminator
      looking like a space. */
  ghost predicate ShowsRows(s: Screen, rows: seq<seq<byte>>, top: nat)
    requires |s.cells| == ALL_CELLS
  {
    forall y, x :: 0 <= y < 25 && 0 <= x < 80 ==> LooksLike(CharAtCell(s, y, x), RowChar(rows, top + y, x))
  }

  /** The text as lines of printable characters: a return is a newline, and a
      terminator is nothing. */
  function Plain(text: seq<byte>): seq<byte> {
    if text == [] then []
    else
      var c := text[|text| - 1];
      Plain(text[..|text| - 1]) + if c == NUL then [] else if c == RETURN then [NEWLINE] else [c]
  }

  lemma {:induction false} PlainIsPrintable(text: seq<byte>)
    requires BACKSPACE !in text
    ensures forall k :: 0 <= k < |Plain(text)| ==> Printable(Plain(text)[k]) || Plain(text)[k] == NEWLINE
  {
    if text != [] {
      PlainIsPrintable(text[..|text| - 1]);
    }
  }

  /** The character a byte other than a backspace or terminator is typed as. */
  function PlainChar(c: byte): byte {
    if c == RETURN then NEWLINE else c
  }

  lemma TypedLast(sh: Sheet, text: seq<byte>, c: byte)
    requires PaperOk(sh.paper)
    ensures TypeAll(sh, text + [c]) == Type(TypeAll(sh, text), c)
  {
    assert (text + [c])[..|text|] == text;
  }

  lemma PlainStep(sh: Sheet, c: byte)
    requires PaperOk(sh.paper) && c != BACKSPACE && sh.top == TopFor(|sh.paper.rows|)
    ensures Type(sh, c) == if c == NUL then sh else Type(sh, PlainChar(c))
  {
  }

  /** On empty paper a text is typed as its plain form is. */
  lemma {:induction false} PlainTyped(text: seq<byte>)
    requires BACKSPACE !in text
    ensures TypeAll(Sheet(EMPTY_PAPER, 0), text) == TypeAll(Sheet(EMPTY_PAPER, 0), Plain(text))
  {
    if text != [] {
      var n := |text| - 1;
      assert text[..n] + [text[n]] == text;
      PlainTyped(text[..n]);
      PlainTypedOn(text[..n], text[n]);
    }
  }

  lemma PlainTypedOn(text: seq<byte>, c: byte)
    requires BACKSPACE !in text && c != BACKSPACE
    requires TypeAll(Sheet(EMPTY_PAPER, 0), text) == TypeAll(Sheet(EMPTY_PAPER, 0), Plain(text))
    ensures TypeAll(Sheet(EMPTY_PAPER, 0), text + [c]) == TypeAll(Sheet(EMPTY_PAPER, 0), Plain(text + [c]))
  {
    var start := Sheet(EMPTY_PAPER, 0);
    PlainTop(text);
    PlainStep(TypeAll(start, text), c);
    PlainLast(text, c);
    TypedLast(start, text, c);
    TypedLast(start, Plain(text), PlainChar(c));
  }

  lemma PlainTop(text: seq<byte>)
    requires BACKSPACE !in text
    ensures var sh := TypeAll(Sheet(EMPTY_PAPER, 0), Plain(text));
            sh.top == TopFor(|sh.paper.rows|)
  {
    PlainIsPrintable(text);
    PaperIsWrapped(Plain(text));
  }

  lemma PlainLast(text: seq<byte>, c: byte)
    ensures Plain(text + [c]) == if c == NUL then Plain(text) else Plain(text) + [PlainChar(c)]
  {
    assert (text + [c])[..|text|] == text;
  }

  /** After clear and any bytes but backspaces, the screen shows the last 25
      rows of their text wrapped at 80 columns, blank after the cursor, and the
      cursor is at the end of the text. */
  lemma ScreenIsLastRows(s: Screen, text: seq<byte>)
    requires |s.cells| == ALL_CELLS && BACKSPACE !in text
    ensures var rows := Wrapped(Plain(text));
            var top := if |rows| > 25 then |rows| - 25 else 0;
            var r := PutAll(Cleared(s), text);
            && OnScreen(r) && r.y == |rows| - 1 - top && r.x == |Last(rows)|
            && ShowsRows(r, rows, top)
  {
    ClearDisplays(s);
    PlainPaper(text);
    StaysWithoutBackspace(Sheet(EMPTY_PAPER, 0), text);
    RunDisplays(Cleared(s), Sheet(EMPTY_PAPER, 0), text);
    ShownRows(PutAll(Cleared(s), text), TypeAll(Sheet(EMPTY_PAPER, 0), text));
  }

  lemma PlainPaper(text: seq<byte>)
    requires BACKSPACE !in text
    ensures var sh := TypeAll(Sheet(EMPTY_PAPER, 0), text);
            && sh.paper.rows + [sh.paper.cur] == Wrapped(Plain(text))
            && sh.top == TopFor(|Wrapped(Plain(text))| - 1)
            && |sh.paper.rows| == |Wrapped(Plain(text))| - 1 && sh.paper.cur == Last(Wrapped(Plain(text)))
  {
    PlainIsPrintable(text);
    PlainTyped(text);
    PaperIsWrapped(Plain(text));
    var sh := TypeAll(Sheet(EMPTY_PAPER, 0), Plain(text));
    assert |sh.paper.rows + [sh.paper.cur]| == |sh.paper.rows| + 1;
  }

  lemma StaysWithoutBackspace(sh: Sheet, text: seq<byte>)
    requires PaperOk(sh.paper) && BACKSPACE !in text
    ensures StaysOn(sh, text)
  {
  }

  /** And all its 2000 cells have attribute 7. */
  lemma ScreenIsReadable(s: Screen, text: seq<byte>)
    requires |s.cells| == ALL_CELLS
    ensures Readable(PutAll(Cleared(s), text))
  {
    ClearedIsReadable(s);
    RunKeepsReadable(Cleared(s), text);
  }

  lemma ShownRows(s: Screen, sh: Sheet)
    requires Displays(s, sh)
    ensures s.y == |sh.paper.rows| - sh.top && s.x == |sh.paper.cur|
    ensures ShowsRows(s, sh.paper.rows + [sh.paper.cur], sh.top)
  {
    forall y, x | 0 <= y < 25 && 0 <= x < 80
      ensures LooksLike(CharAtCell(s, y, x), RowChar(sh.paper.rows + [sh.paper.cur], sh.top + y, x))
    {
      PaperCharIs(sh.paper, sh.top + y, x);
      assert LooksLike(CharAtCell(s, y, x), PaperChar(sh.paper, sh.top + y, x));
    }
  }

  // ---------------------------------------------------------------- erasing

  /** Typing a printable character and erasing it leaves the paper as it was. */
  lemma EraseUndoes(p: Paper, c: byte)
    requires PaperOk(p) && Printable(c)
    ensures Typed(p, c).cur != [] || Typed(p, c).rows != []
    ensures Typed(Typed(p, c), BACKSPACE) == p
  {
    var q := Typed(p, c);
    if |p.cur| == 79 {
      assert q.rows[..|p.rows|] == p.rows;
      assert To79(p.cur + [c]) == p.cur;
    }
  }

  function Backspaces(k: nat): (r: seq<byte>)
    ensures |r| == k && forall i :: 0 <= i < k ==> r[i] == BACKSPACE
  {
    seq(k, _ => BACKSPACE)
  }

  ghost predicate AllPrintable(text: seq<byte>) {
    forall k :: 0 <= k < |text| ==> Printable(text[k])
  }

  lemma {:induction false} RowsGrow(sh: Sheet, text: seq<byte>)
    requires PaperOk(sh.paper) && AllPrintable(text)
    ensures var r := TypeAll(sh, text);
            && 80 * |r.paper.rows| + |r.paper.cur| == 80 * |sh.paper.rows| + |sh.paper.cur| + |text|
            && r.top == if |r.paper.rows| - sh.top > 24 then |r.paper.rows| - 24 else sh.top
    requires |sh.paper.rows| - sh.top <= 24
  {
    if text != [] {
      RowsGrow(sh, text[..|text| - 1]);
    }
  }

  /** After k printable characters and k - i backspaces the paper is what it
      was after i characters, as long as its cursor's row is still shown. */
  lemma {:induction false} ErasedTo(s: Screen, sh: Sheet, text: seq<byte>, i: nat)
    requires Displays(s, sh) && AllPrintable(text) && i <= |text|
    requires TypeAll(sh, text).top <= |TypeAll(sh, text[..i]).paper.rows|
    ensures Shows(PutAll(PutAll(s, text), Backspaces(|text| - i)), TypeAll(sh, text[..i]).paper, TypeAll(sh, text).top)
    decreases |text| - i
  {
    if i == |text| {
      RunDisplays(s, sh, text);
      assert text[..i] == text;
    } else {
      var longer := TypeAll(sh, text[..i + 1]);
      var shorter := TypeAll(sh, text[..i]);
      assert text[..i + 1][..i] == text[..i];
      assert longer == Type(shorter, text[i]);
      EraseUndoes(shorter.paper, text[i]);
      ErasedTo(s, sh, text, i + 1);
      var all := Backspaces(|text| - i);
      assert all[..|all| - 1] == Backspaces(|text| - i - 1);
      PutShows(PutAll(PutAll(s, text), Backspaces(|text| - i - 1)), longer.paper, TypeAll(sh, text).top, BACKSPACE);
    }
  }

  lemma CountRows(rows: nat, cur: nat, rows0: nat, n: nat)
    requires 80 * rows + cur == 80 * rows0 + n && cur < 80
    ensures rows == rows0 + n / 80 && cur == n % 80
  {
  }

  /** How many rows a printed text finishes, and what it scrolls away. */
  lemma RowsFinished(sh: Sheet, text: seq<byte>)
    requires PaperOk(sh.paper) && AllPrintable(text) && 0 <= |sh.paper.rows| - sh.top <= 24
    ensures var r := TypeAll(sh, text);
            var n := |sh.paper.cur| + |text|;
            && |r.paper.rows| == |sh.paper.rows| + n / 80 && |r.paper.cur| == n % 80
            && r.top == Max(sh.top, |sh.paper.rows| + n / 80 - 24)
  {
    RowsGrow(sh, text);
    var r := TypeAll(sh, text);
    CountRows(|r.paper.rows|, |r.paper.cur|, |sh.paper.rows|, |sh.paper.cur| + |text|);
  }

  /** Printing k characters and then k backspaces gives back the paper and its
      cursor if the printing has not scrolled the starting row away. */
  lemma PrintThenErase(s: Screen, sh: Sheet, text: seq<byte>)
    requires Displays(s, sh) && AllPrintable(text) && TypeAll(sh, text).top <= |sh.paper.rows|
    ensures Shows(PutAll(PutAll(s, text), Backspaces(|text|)), sh.paper, TypeAll(sh, text).top)
  {
    assert TypeAll(sh, text[..0]) == sh;
    ErasedTo(s, sh, text, 0);
  }

  /** The starting row is still shown after the printing exactly when the
      printing finishes at most 24 rows. */
  lemma StillShownIff(sh: Sheet, text: seq<byte>)
    requires PaperOk(sh.paper) && AllPrintable(text) && 0 <= |sh.paper.rows| - sh.top <= 24
    ensures TypeAll(sh, text).top <= |sh.paper.rows| <==> (|sh.paper.cur| + |text|) / 80 <= 24
  {
    RowsFinished(sh, text);
  }

  lemma RowsStay(sh: Sheet, text: seq<byte>)
    requires PaperOk(sh.paper) && AllPrintable(text) && 0 <= |sh.paper.rows| - sh.top <= 24
    ensures |TypeAll(sh, text).paper.rows| >= |sh.paper.rows|
  {
    RowsFinished(sh, text);
  }

  lemma ErasingStaysOn(s: Screen, sh: Sheet, text: seq<byte>, j: nat)
    requires Displays(s, sh) && AllPrintable(text) && j <= |text|
    requires TypeAll(sh, text).top <= |sh.paper.rows|
    ensures OnScreen(PutAll(PutAll(s, text), Backspaces(j)))
  {
    RowsStay(sh, text[..|text| - j]);
    ErasedTo(s, sh, text, |text| - j);
  }

  /** If the starting row has been scrolled away, a row boundary of the text is
      at the top of the screen. */
  lemma BoundaryAtTop(sh: Sheet, text: seq<byte>) returns (i: nat)
    requires PaperOk(sh.paper) && AllPrintable(text) && 0 <= |sh.paper.rows| - sh.top <= 24
    requires TypeAll(sh, text).top > |sh.paper.rows|
    ensures 0 < i <= |text|
    ensures var p := TypeAll(sh, text[..i]).paper;
            p.cur == [] && |p.rows| == TypeAll(sh, text).top
  {
    var n := |sh.paper.cur| + |text|;
    RowsFinished(sh, text);
    var rows := n / 80 - 24;
    i := 80 * rows - |sh.paper.cur|;
    RowsExactly(rows);
    RowsFinished(sh, text[..i]);
  }

  lemma RowsExactly(rows: nat)
    ensures 80 * rows / 80 == rows && 80 * rows % 80 == 0
  {
  }

  /** If the starting row has been scrolled away, backspaces reach the origin
      and the next one leaves the screen. */
  lemma ErasingLeaves(s: Screen, sh: Sheet, text: seq<byte>) returns (j: nat)
    requires Displays(s, sh) && AllPrintable(text)
    requires TypeAll(sh, text).top > |sh.paper.rows|
    ensures j <= |text| && !OnScreen(PutAll(PutAll(s, text), Backspaces(j)))
  {
    var i := BoundaryAtTop(sh, text);
    ErasedTo(s, sh, text, i);
    var there := PutAll(PutAll(s, text), Backspaces(|text| - i));
    LeavesTheScreenIff(there, BACKSPACE);
    BackspaceMore(PutAll(s, text), |text| - i);
    j := |text| - i + 1;
  }

  lemma BackspaceMore(s: Screen, j: nat)
    requires InRange(s)
    ensures PutAll(s, Backspaces(j + 1)) == Put(PutAll(s, Backspaces(j)), BACKSPACE)
  {
    assert Backspaces(j + 1)[..j] == Backspaces(j);
  }

  /** k backspaces after k printed characters stay on the screen, and so undo
      them, exactly when the starting row has not been scrolled away. */
  lemma ErasingStaysOnIff(s: Screen, sh: Sheet, text: seq<byte>)
    requires Displays(s, sh) && AllPrintable(text)
    ensures (forall j :: 0 <= j <= |text| ==> OnScreen(PutAll(PutAll(s, text), Backspaces(j))))
       <==> (s.x + |text|) / 80 <= 24
  {
    StillShownIff(sh, text);
    if TypeAll(sh, text).top <= |sh.paper.rows| {
      forall j | 0 <= j <= |text|
        ensures OnScreen(PutAll(PutAll(s, text), Backspaces(j)))
      {
        ErasingStaysOn(s, sh, text, j);
      }
    } else {
      var j := ErasingLeaves(s, sh, text);
    }
  }

  // ------------------------------------------------------ arbitrary screens

  /** No cell from the cursor on shows anything. */
  ghost predicate BlankAhead(s: Screen) {
    && OnScreen(s)
    && forall r, c :: 0 <= r < 25 && 0 <= c < 80 && (r > s.y || (r == s.y && c >= s.x)) ==> Blank(CharAtCell(s, r, c))
  }

  /** The paper that such a screen shows. */
  ghost function PaperOf(s: Screen): Paper
    requires OnScreen(s)
  {
    Paper(seq(s.y, r requires 0 <= r < s.y => seq(80, c requires 0 <= c < 80 => CharAtCell(s, r, c))),
          seq(s.x, c requires 0 <= c < s.x => CharAtCell(s, s.y, c)))
  }

  lemma ShowsItsPaper(s: Screen)
    requires BlankAhead(s)
    ensures Displays(s, Sheet(PaperOf(s), 0))
  {
    var p := PaperOf(s);
    forall r, c | 0 <= r < 25 && 0 <= c < 80
      ensures LooksLike(CharAtCell(s, r, c), PaperChar(p, 0 + r, c))
    {
      assert r > s.y || (r == s.y && c >= s.x) ==> Blank(CharAtCell(s, r, c));
    }
  }

  /** How many rows n printed characters scroll away. */
  function ScrolledAway(s: Screen, n: nat): nat
    requires OnScreen(s)
  {
    Max(0, s.y + (s.x + n) / 80 - 24)
  }

  /** On any screen that is blank from the cursor on, k backspaces undo k
      printed characters, but for the rows that these scroll away, unless the row
      they start in is one of those. */
  lemma ErasingRestores(s: Screen, text: seq<byte>)
    requires BlankAhead(s) && AllPrintable(text) && (s.x + |text|) / 80 <= 24
    ensures var r, up := PutAll(PutAll(s, text), Backspaces(|text|)), ScrolledAway(s, |text|);
            && OnScreen(r) && r.x == s.x && r.y == s.y - up
            && forall y, x :: 0 <= y < 25 && 0 <= x < 80 ==>
                 LooksLike(CharAtCell(r, y, x), if y + up < 25 then CharAtCell(s, y + up, x) else SPACE)
  {
    var sh, r, up := Sheet(PaperOf(s), 0), PutAll(PutAll(s, text), Backspaces(|text|)), ScrolledAway(s, |text|);
    ShowsItsPaper(s);
    StillShownIff(sh, text);
    RowsFinished(sh, text);
    PrintThenErase(s, sh, text);
    SamePaper(s, r, sh.paper, up);
  }

  /** Two screens of the same paper, one of them further down. */
  lemma SamePaper(s: Screen, r: Screen, p: Paper, up: nat)
    requires Shows(s, p, 0) && Shows(r, p, up)
    ensures r.x == s.x && r.y == s.y - up
    ensures forall y, x :: 0 <= y < 25 && 0 <= x < 80 ==>
              LooksLike(CharAtCell(r, y, x), if y + up < 25 then CharAtCell(s, y + up, x) else SPACE)
  {
    forall y, x | 0 <= y < 25 && 0 <= x < 80
      ensures LooksLike(CharAtCell(r, y, x), if y + up < 25 then CharAtCell(s, y + up, x) else SPACE)
    {
      assert LooksLike(CharAtCell(r, y, x), PaperChar(p, up + y, x));
      if y + up < 25 {
        assert LooksLike(CharAtCell(s, y + up, x), PaperChar(p, 0 + (y + up), x));
      }
    }
  }

  /** The backspaces stay on any such screen exactly in this case. */
  lemma ErasingIsSafeIff(s: Screen, text: seq<byte>)
    requires BlankAhead(s) && AllPrintable(text)
    ensures (forall j :: 0 <= j <= |text| ==> OnScreen(PutAll(PutAll(s, text), Backspaces(j))))
       <==> (s.x + |text|) / 80 <= 24
  {
    ShowsItsPaper(s);
    ErasingStaysOnIff(s, Sheet(PaperOf(s), 0), text);
  }
}
