/** The console driver and the terminal switch on physical memory. */
module Display {
  import opened Bytes
  import opened Screens
  import opened Terminals
  import Memory

  // Five pages from 0xB7000 on: the one before video memory, video memory at
  // 0xB8000, and the backing pages of the three terminals.
  const PAGE := 4096
  const MEMORY := 20480
  const VIDEO := 4096
  const LAST_PAGE := 16384

  // The screen's 26 rows start one row before video memory.
  const ROW_BEFORE := 3936
  const SCREEN_END := 8096

  const TERMINAL_SIZE := 4096

  /** Where terminal t's backing page starts. */
  function BackPage(t: nat): nat {
    8192 + 4096 * t
  }

  /** Cell i of a stretch of memory that starts at address a. */
  ghost function CellAt(mem: array<byte>, a: nat, i: nat): Cell
    requires a + 2 * i + 1 < mem.Length
    reads mem
  {
    Cell(mem[a + 2 * i], mem[a + 2 * i + 1])
  }

  /** The n cells from address a on. */
  ghost function CellsAt(mem: array<byte>, a: nat, n: nat): (r: seq<Cell>)
    requires a + 2 * n <= mem.Length
    reads mem
    ensures |r| == n && forall i :: 0 <= i < n ==> r[i] == CellAt(mem, a, i)
  {
    seq(n, i requires 0 <= i < n reads mem => CellAt(mem, a, i))
  }

  lemma FirstRowAndPage(now: seq<Cell>, was: seq<Cell>, page: seq<Cell>)
    requires |now| == |was| == ALL_CELLS && |page| == 2000
    requires forall k :: 0 <= k < 80 ==> now[k] == was[k]
    requires forall k :: 80 <= k < ALL_CELLS ==> now[k] == page[k - 80]
    ensures now == was[..80] + page
  {
  }

  /** The address of the character in row y, column x of the screen, counted
      from one page before video memory; the attribute is behind it. */
  function CharAddress(y: nat, x: nat): nat {
    0x1000 + 2 * (80 * y + x)
  }

  class Console {
    const mem: array<byte>
    var screenX: int
    var screenY: int
    const savedX: array<int>  // terminals[i].screen_x
    const savedY: array<int>  // terminals[i].screen_y
    var activeTerminal: nat

    ghost predicate Shape()
      reads this
    {
      mem.Length == MEMORY && savedX.Length == 3 && savedY.Length == 3 && savedX != savedY && activeTerminal < 3
    }

    ghost predicate Valid()
      reads this
    {
      Shape() && 0 <= screenX < 80 && -1 <= screenY < 25
    }

    /** The screen's 26 rows of cells. */
    ghost function Cells(): (r: seq<Cell>)
      requires mem.Length == MEMORY
      reads mem
      ensures |r| == ALL_CELLS
    {
      CellsAt(mem, ROW_BEFORE, 2080)
    }

    ghost function Contents(): Screen
      requires mem.Length == MEMORY
      reads this, mem
    {
      Screen(Cells(), screenX, screenY)
    }

    /** *(video_mem + (i << 1)) and the attribute byte after it. */
    method StoreCell(i: nat, c: byte, attrib: byte)
      requires mem.Length == MEMORY && i < ALL_CELLS
      modifies mem
      ensures Cells() == old(Cells())[i := Cell(c, attrib)]
      ensures forall k :: 0 <= k < mem.Length && (k < ROW_BEFORE || SCREEN_END <= k) ==> mem[k] == old(mem[k])
    {
      mem[ROW_BEFORE + 2 * i] := c;
      mem[ROW_BEFORE + 2 * i + 1] := attrib;
    }

    method ClearTopRow(r: nat)
      requires mem.Length == MEMORY
      modifies mem
      ensures Cells() == Blanked(old(Cells()), r)
      ensures forall k :: 0 <= k < mem.Length && (k < ROW_BEFORE || SCREEN_END <= k) ==> mem[k] == old(mem[k])
    {
      var i := r * 80;
      while i < 2000
        invariant r * 80 <= i
        invariant forall k :: 0 <= k < ALL_CELLS ==>
                    Cells()[k] == if 80 * (r + 1) <= k < 80 + i then CLEARED else old(Cells())[k]
        invariant forall k :: 0 <= k < mem.Length && (k < ROW_BEFORE || SCREEN_END <= k) ==> mem[k] == old(mem[k])
      {
        StoreCell(80 + i, NUL, ATTRIB);
        i := i + 1;
      }
    }

    method Scroll()
      requires mem.Length == MEMORY
      modifies mem, this`screenX, this`screenY
      ensures Contents() == Screen(Scrolled(old(Cells())), 0, 24)
      ensures forall k :: 0 <= k < mem.Length && (k < ROW_BEFORE || SCREEN_END <= k) ==> mem[k] == old(mem[k])
    {
      ghost var before := Cells();
      var i := 0;
      while i < 1920
        invariant 0 <= i <= 1920
        invariant forall k :: 0 <= k < 80 || 80 + i <= k < ALL_CELLS ==> Cells()[k] == before[k]
        invariant forall k :: 80 <= k < 80 + i ==> Cells()[k] == before[k + 80]
        invariant forall k :: 0 <= k < mem.Length && (k < ROW_BEFORE || SCREEN_END <= k) ==> mem[k] == old(mem[k])
      {
        assert Cells()[160 + i] == CellAt(mem, ROW_BEFORE, 160 + i);
        StoreCell(80 + i, mem[VIDEO + 2 * (i + 80)], mem[VIDEO + 2 * (i + 80) + 1]);
        i := i + 1;
      }
      screenX := 0;
      screenY := 24;
      ghost var moved := Cells();
      ClearTopRow(24);
      ScrolledInTwo(before, moved);
    }

    method Clear()
      requires mem.Length == MEMORY
      modifies mem, this`screenX, this`screenY
      ensures Contents() == Cleared(old(Contents()))
      ensures forall k :: 0 <= k < mem.Length && (k < ROW_BEFORE || SCREEN_END <= k) ==> mem[k] == old(mem[k])
    {
      var i := 0;
      while i < 2000
        invariant i <= 2000
        invariant forall k :: 0 <= k < ALL_CELLS ==>
                    Cells()[k] == if 80 <= k < 80 + i then SPACED else old(Cells())[k]
        invariant forall k :: 0 <= k < mem.Length && (k < ROW_BEFORE || SCREEN_END <= k) ==> mem[k] == old(mem[k])
      {
        StoreCell(80 + i, SPACE, ATTRIB);
        i := i + 1;
      }
      screenX := 0;
      screenY := 0;
      assert Cells() == Cleared(old(Contents())).cells;
    }

    /** The cursor goes to the start of the next row. */
    method PutNewline()
      requires Valid()
      modifies mem, this`screenX, this`screenY
      ensures Valid()
      ensures Contents() == Put(old(Contents()), NEWLINE)
      ensures forall k :: 0 <= k < mem.Length && (k < ROW_BEFORE || SCREEN_END <= k) ==> mem[k] == old(mem[k])
    {
      screenY := screenY + 1;
      if screenY >= ROWS {
        Scroll();
      }
      screenX := 0;
    }

    /** The cursor goes back by one cell, which is erased. */
    method PutBackspace()
      requires Valid()
      modifies mem, this`screenX, this`screenY
      ensures Valid()
      ensures Contents() == Put(old(Contents()), BACKSPACE)
      ensures forall k :: 0 <= k < mem.Length && (k < ROW_BEFORE || SCREEN_END <= k) ==> mem[k] == old(mem[k])
    {
      screenX := screenX - 1;
      if screenY < 0 && screenX < 0 {
        screenY := 0;
        screenX := 0;
      } else if screenX < 0 {
        ClearTopRow(screenY);
        screenY := screenY - 1;
        screenX := 79;
      }
      StoreCell(80 * (screenY + 1) + screenX, SPACE, ATTRIB);
    }

    /** The character is stored and the cursor goes on by one cell. */
    method PutPrinted(c: byte)
      requires Valid()
      requires c != NEWLINE && c != RETURN && c != BACKSPACE && c != NUL
      modifies mem, this`screenX, this`screenY
      ensures Valid()
      ensures Contents() == Put(old(Contents()), c)
      ensures forall k :: 0 <= k < mem.Length && (k < ROW_BEFORE || SCREEN_END <= k) ==> mem[k] == old(mem[k])
    {
      StoreCell(80 * (screenY + 1) + screenX, c, ATTRIB);
      screenX := screenX + 1;
      if screenX >= COLS {
        screenX := 0;
        screenY := screenY + 1;
        if screenY >= ROWS {
          Scroll();
        }
        ClearTopRow(screenY);
      }
    }

    /** putc; the port writes that move the hardware cursor are not modelled. */
    method Putc(c: byte)
      requires Valid()
      modifies mem, this`screenX, this`screenY
      ensures Valid()
      ensures Contents() == Put(old(Contents()), c)
      ensures forall k :: 0 <= k < mem.Length && (k < ROW_BEFORE || SCREEN_END <= k) ==> mem[k] == old(mem[k])
    {
      if c == NEWLINE || c == RETURN {
        PutNewline();
      } else if c == BACKSPACE {
        PutBackspace();
      } else if c == NUL {
        StoreCell(80 * (screenY + 1) + screenX, c, ATTRIB);
      } else {
        PutPrinted(c);
      }
    }

    /** puts: every byte of a string is put. */
    method Puts(text: seq<byte>)
      requires Valid()
      modifies mem, this`screenX, this`screenY
      ensures Valid()
      ensures Contents() == PutAll(old(Contents()), text)
      ensures forall k :: 0 <= k < mem.Length && (k < ROW_BEFORE || SCREEN_END <= k) ==> mem[k] == old(mem[k])
    {
      ghost var was := Contents();
      var i := 0;
      while i < |text|
        invariant i <= |text| && Valid()
        invariant Contents() == PutAll(was, text[..i])
        invariant forall k :: 0 <= k < mem.Length && (k < ROW_BEFORE || SCREEN_END <= k) ==> mem[k] == old(mem[k])
      {
        assert text[..i + 1][..i] == text[..i];
        Putc(text[i]);
        i := i + 1;
      }
      assert text[..i] == text;
    }

    /** From typed bytes to video memory: after clear and any bytes but
        backspaces, the character and attribute bytes of the 25 rows. */
    method ClearAndPuts(text: seq<byte>)
      requires Shape() && BACKSPACE !in text
      modifies mem, this`screenX, this`screenY
      ensures Valid()
      ensures var rows := Wrapped(Plain(text));
              var top := if |rows| > 25 then |rows| - 25 else 0;
              && screenY == |rows| - 1 - top && screenX == |Last(rows)|
              && forall y: nat, x: nat :: y < 25 && x < 80 ==>
                   && LooksLike(mem[CharAddress(y, x)], RowChar(rows, top + y, x))
                   && mem[CharAddress(y, x) + 1] == 7
      ensures forall k :: 0 <= k < mem.Length && (k < ROW_BEFORE || SCREEN_END <= k) ==> mem[k] == old(mem[k])
    {
      ghost var was := Contents();
      Clear();
      Puts(text);
      ScreenIsLastRows(was, text);
      ScreenIsReadable(was, text);
      ghost var rows := Wrapped(Plain(text));
      ghost var top := if |rows| > 25 then |rows| - 25 else 0;
      RowsInMemory(rows, top);
    }

    lemma RowsInMemory(rows: seq<seq<byte>>, top: nat)
      requires mem.Length == MEMORY && ShowsRows(Contents(), rows, top) && Readable(Contents())
      ensures forall y: nat, x: nat :: y < 25 && x < 80 ==>
                && LooksLike(mem[CharAddress(y, x)], RowChar(rows, top + y, x))
                && mem[CharAddress(y, x) + 1] == 7
    {
      forall y: nat, x: nat | y < 25 && x < 80
        ensures LooksLike(mem[CharAddress(y, x)], RowChar(rows, top + y, x)) && mem[CharAddress(y, x) + 1] == 7
      {
        InMemory(y, x);
        assert LooksLike(CharAtCell(Contents(), y, x), RowChar(rows, top + y, x));
      }
    }

    /** The two bytes of a cell of the screen. */
    lemma InMemory(y: nat, x: nat)
      requires mem.Length == MEMORY && y < 25 && x < 80
      ensures Contents().cells[80 * (y + 1) + x] == Cell(mem[CharAddress(y, x)], mem[CharAddress(y, x) + 1])
    {
      assert Cells()[80 * (y + 1) + x] == CellAt(mem, ROW_BEFORE, 80 * (y + 1) + x);
    }

    // ------------------------------------------------------------- terminals

    /** What is kept of terminal t while it is not active. */
    ghost function Back(t: nat): View
      requires Shape() && t < 3
      reads this, mem, savedX, savedY
    {
      View(CellsAt(mem, BackPage(t), 2000), savedX[t], savedY[t])
    }

    ghost function State(): Machine
      requires Shape()
      reads this, mem, savedX, savedY
    {
      Machine(Contents(), [Back(0), Back(1), Back(2)], activeTerminal)
    }

    /** A putc is a step of the three-terminal machine. */
    method PutStep(c: byte)
      requires Valid()
      modifies mem, this`screenX, this`screenY
      ensures Valid()
      ensures State() == Step(old(State()), PutByte(c))
    {
      Putc(c);
      assert forall t :: 0 <= t < 3 ==> Back(t).cells == old(Back(t)).cells;
    }

    /** One terminal's screen is copied between video memory and its page. */
    method CopyPage(dest: nat, src: nat)
      requires mem.Length == MEMORY
      requires dest % PAGE == 0 && src % PAGE == 0 && dest != src
      requires VIDEO <= dest <= LAST_PAGE && VIDEO <= src <= LAST_PAGE
      modifies mem
      ensures CellsAt(mem, dest, 2000) == old(CellsAt(mem, src, 2000))
      ensures forall k :: 0 <= k < mem.Length ==>
                mem[k] == if dest <= k < dest + PAGE then old(mem[src + (k - dest)]) else old(mem[k])
    {
      ghost var was := mem[..];
      Memory.Memcpy(mem, dest, src, TERMINAL_SIZE);
      assert forall k :: 0 <= k < mem.Length ==> mem[k] == Memory.Copied(was, dest, src, TERMINAL_SIZE)[k];
      assert forall i :: 0 <= i < 2000 ==> CellAt(mem, dest, i) == old(CellAt(mem, src, i));
    }

    /** The first half of display_switch: the active terminal is saved. */
    method Save()
      requires Shape()
      modifies mem, savedX, savedY
      ensures var v := Visible(Contents());
              State() == old(State()).(backs := old(State()).backs[activeTerminal := View(v.cells, Byte8(v.x), Byte8(v.y))])
      ensures forall k :: 0 <= k < mem.Length ==>
                var page := BackPage(activeTerminal);
                mem[k] == if page <= k < page + PAGE then old(mem[VIDEO + (k - page)]) else old(mem[k])
    {
      savedX[activeTerminal] := Byte8(screenX);
      savedY[activeTerminal] := Byte8(screenY);
      CopyPage(BackPage(activeTerminal), VIDEO);
      assert CellsAt(mem, BackPage(activeTerminal), 2000) == Cells()[80..];
      assert forall u :: 0 <= u < 3 && u != activeTerminal ==> Back(u).cells == old(Back(u)).cells;
      assert Cells() == old(Cells());
    }

    /** The second half of display_switch: terminal t becomes the active one. */
    method Load(t: nat)
      requires Shape() && t < 3
      modifies this, mem
      ensures Shape()
      ensures var was, v := old(State()), old(Back(t));
              State() == Machine(Screen(was.front.cells[..80] + v.cells, Byte8(v.x), Byte8(v.y)), was.backs, t)
      ensures forall k :: 0 <= k < mem.Length ==>
                mem[k] == if VIDEO <= k < VIDEO + PAGE then old(mem[BackPage(t) + (k - VIDEO)]) else old(mem[k])
    {
      activeTerminal := t;
      CopyPage(VIDEO, BackPage(activeTerminal));
      screenX := Byte8(savedX[activeTerminal]);
      screenY := Byte8(savedY[activeTerminal]);
      assert forall u :: 0 <= u < 3 ==> Back(u).cells == old(Back(u)).cells;
      FirstRowAndPage(Cells(), old(Cells()), old(Back(t)).cells);
    }

    /** display_switch, up to the point where it would start a first shell. */
    method DisplaySwitch(t: nat)
      requires Shape() && t < 3
      modifies this, mem, savedX, savedY
      ensures Shape()
      ensures State() == SwitchTo(old(State()), t)
      ensures old(MachineOk(State()) && OnScreen(Contents())) ==> Valid() && MachineOk(State())
      ensures forall k :: 0 <= k < mem.Length ==>
                var page := BackPage(old(activeTerminal));
                mem[k] == if page <= k < page + PAGE then old(mem[VIDEO + (k - page)])
                          else if VIDEO <= k < VIDEO + PAGE && t != old(activeTerminal)
                            then old(mem[BackPage(t) + (k - VIDEO)])
                          else old(mem[k])
    {
      ghost var was := State();
      Save();
      Load(t);
      assert State() == SwitchTo(was, t);
      if MachineOk(was) && OnScreen(was.front) {
        SwitchKeepsEveryScreen(was, t);
      }
    }
  }

  // -------------------------------------------------------------- whole runs

  /** A putc to the active terminal or a terminal switch. */
  method Handle(c: Console, e: Event)
    requires c.Valid() && MachineOk(c.State()) && Allowed(c.State(), e)
    modifies c, c.mem, c.savedX, c.savedY
    ensures c.Valid() && MachineOk(c.State())
    ensures c.State() == Step(old(c.State()), e)
  {
    StepOk(c.State(), e);
    match e
    case PutByte(b) => c.PutStep(b);
    case Switch(t) => c.DisplaySwitch(t);
  }

  lemma RunFront(m: Machine, events: seq<Event>)
    requires MachineOk(m) && AllAllowed(m, events) && events != []
    ensures Allowed(m, events[0]) && MachineOk(Step(m, events[0])) && AllAllowed(Step(m, events[0]), events[1..])
    ensures Run(m, events) == Run(Step(m, events[0]), events[1..])
  {
    StepOk(m, events[0]);
  }

  /** Every run of putc and switches on the physical memory is a run of the
      three-terminal machine. */
  method Play(c: Console, events: seq<Event>)
    requires c.Valid() && MachineOk(c.State()) && AllAllowed(c.State(), events)
    modifies c, c.mem, c.savedX, c.savedY
    ensures c.Valid() && MachineOk(c.State())
    ensures c.State() == Run(old(c.State()), events)
    decreases |events|
  {
    ghost var was := c.State();
    var rest := events;
    while rest != []
      invariant c.Valid() && MachineOk(c.State()) && AllAllowed(c.State(), rest)
      invariant Run(c.State(), rest) == Run(was, events)
      decreases |rest|
    {
      RunFront(c.State(), rest);
      Handle(c, rest[0]);
      rest := rest[1..];
    }
  }
}
