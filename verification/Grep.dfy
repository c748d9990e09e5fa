/** grep: a 1024-byte window slides over the file, and a partial line at its
    end is carried to the front before the next read. */
module Grep {
  import opened Bytes
  import opened Text
  import opened FileSystem
  import opened Directory
  import opened Descriptors

  const WINDOW := 1024

  // ---------------------------------------------------------- specification

  ghost predicate OccursAt(line: seq<byte>, s: seq<byte>, i: nat) {
    i + |s| <= |line| && line[i..i + |s|] == s
  }

  /** The pattern is not empty and occurs in the line. */
  ghost predicate Selects(s: seq<byte>, line: seq<byte>) {
    s != [] && exists i :: 0 <= i < |line| && OccursAt(line, s, i)
  }

  /** Whatever stands before and behind it, a pattern is found. */
  lemma SelectsInside(s: seq<byte>, x: seq<byte>, y: seq<byte>)
    requires s != []
    ensures Selects(s, x + s + y)
  {
    assert (x + s + y)[|x|..|x| + |s|] == s;
    assert OccursAt(x + s + y, s, |x|);
  }

  /** What is found is there, and is not empty. */
  lemma SelectsOnlyInside(s: seq<byte>, line: seq<byte>) returns (x: seq<byte>, y: seq<byte>)
    requires Selects(s, line)
    ensures s != [] && line == x + s + y
  {
    var i :| 0 <= i < |line| && OccursAt(line, s, i);
    x, y := line[..i], line[i + |s|..];
  }

  /** A line is selected exactly if it is the pattern with something before and
      something behind it. */
  lemma SelectsIff(s: seq<byte>, line: seq<byte>)
    ensures Selects(s, line) <==> s != [] && exists x, y :: line == x + s + y
  {
    if Selects(s, line) {
      var x, y := SelectsOnlyInside(s, line);
    }
    if s != [] && exists x, y :: line == x + s + y {
      var x, y :| line == x + s + y;
      SelectsInside(s, x, y);
    }
  }

  /** The lines that contain the pattern, in order. */
  ghost function Selected(s: seq<byte>, lines: seq<seq<byte>>): seq<seq<byte>> {
    if lines == [] then []
    else (if Selects(s, lines[0]) then [lines[0]] else []) + Selected(s, lines[1..])
  }

  function Printed(fname: seq<byte>, line: seq<byte>): seq<byte> {
    fname + Ascii(":") + line + Ascii("\n")
  }

  /** What is printed on account of one line. */
  ghost function Found(fname: seq<byte>, s: seq<byte>, line: seq<byte>): seq<byte> {
    if Selects(s, line) then Printed(fname, line) else []
  }

  /** The report on these lines: every one that contains the pattern, once, in order. */
  ghost function Report(fname: seq<byte>, s: seq<byte>, lines: seq<seq<byte>>): seq<byte> {
    if lines == [] then []
    else Found(fname, s, lines[0]) + Report(fname, s, lines[1..])
  }

  /** What the window makes of a file: its lines, except that a run of 1024
      bytes without a newline is cut off as a line of its own. */
  function Segments(f: seq<byte>): seq<seq<byte>>
    decreases |f|
  {
    if f == [] then []
    else
      var n := Find(NEWLINE, f);
      if n < WINDOW && n < |f| then [f[..n]] + Segments(f[n + 1..])
      else
        var m := Min(WINDOW, |f|);
        [f[..m]] + Segments(f[m..])
  }

  /** The same when the byte behind the window starts out as a newline:
      a full window then ends a line, until that byte is overwritten. */
  function Windows(f: seq<byte>, stale: bool): seq<seq<byte>>
    decreases |f|
  {
    if !stale || |f| < WINDOW then Segments(f)
    else Segments(f[..WINDOW]) + Windows(f[WINDOW..], f[WINDOW - 1] == NEWLINE)
  }

  // ------------------------------------------------- exactly when it is grep

  ghost predicate LinesFit(f: seq<byte>) {
    forall k :: 0 <= k < |Lines(f)| ==> |Lines(f)[k]| <= WINDOW
  }

  /** The first full window that does not end in a newline ends at the end of
      a line all the same. */
  predicate CutsAtLineEnd(f: seq<byte>)
    decreases |f|
  {
    if |f| <= WINDOW then true
    else if f[WINDOW - 1] == NEWLINE then CutsAtLineEnd(f[WINDOW..])
    else f[WINDOW] == NEWLINE
  }

  /** When a search of the windows is a search of the lines. */
  ghost predicate Exact(f: seq<byte>, stale: bool) {
    LinesFit(f) && (stale ==> CutsAtLineEnd(f))
  }

  lemma {:induction false} ShortLinesSegments(s: seq<byte>, f: seq<byte>)
    requires LinesFit(f)
    ensures Selected(s, Segments(f)) == Selected(s, Lines(f))
    decreases |f|
  {
    if f != [] {
      var n := Find(NEWLINE, f);
      assert Lines(f)[0] == f[..n];
      if n < |f| {
        var tail := f[n + 1..];
        assert Lines(f)[1..] == Lines(tail);
        ShortLinesSegments(s, tail);
        if n == WINDOW {
          EmptySegment(s, f[n..]);
          assert f[n..][1..] == tail;
          assert Segments(f)[1..] == Segments(f[n..]);
        } else {
          assert Segments(f)[1..] == Segments(tail);
        }
      } else {
        assert f[..n] == f && f[n..] == [];
      }
    }
  }

  lemma EmptySegment(s: seq<byte>, f: seq<byte>)
    requires f != [] && f[0] == NEWLINE
    ensures Selected(s, Segments(f)) == Selected(s, Segments(f[1..]))
  {
    assert Segments(f) == [[]] + Segments(f[1..]);
  }

  lemma {:induction false} SegmentsAreShort(f: seq<byte>, k: nat)
    requires k < |Segments(f)|
    ensures |Segments(f)[k]| <= WINDOW
    decreases |f|
  {
    var n := Find(NEWLINE, f);
    if k > 0 {
      var m := if n < WINDOW && n < |f| then n + 1 else Min(WINDOW, |f|);
      assert Segments(f)[1..] == Segments(f[m..]);
      SegmentsAreShort(f[m..], k - 1);
    }
  }

  lemma {:induction false} SelectedAreLines(s: seq<byte>, lines: seq<seq<byte>>, line: seq<byte>)
    requires line in Selected(s, lines)
    ensures line in lines
  {
    if line != lines[0] {
      SelectedAreLines(s, lines[1..], line);
    }
  }

  lemma {:induction false} SelectedIsThere(s: seq<byte>, lines: seq<seq<byte>>, k: nat)
    requires k < |lines| && Selects(s, lines[k])
    ensures lines[k] in Selected(s, lines)
  {
    if k > 0 {
      SelectedIsThere(s, lines[1..], k - 1);
    }
  }

  /** Where the selected lines come from: every place from `from` on that the
      pattern selects, once, and in their order. */
  lemma {:induction false} SelectedFrom(s: seq<byte>, lines: seq<seq<byte>>, from: nat) returns (at: seq<nat>)
    requires from <= |lines|
    ensures |at| == |Selected(s, lines[from..])|
    ensures forall i :: 0 <= i < |at| ==>
              from <= at[i] < |lines| && Selected(s, lines[from..])[i] == lines[at[i]]
    ensures forall i, j :: 0 <= i < j < |at| ==> at[i] < at[j]
    ensures forall k :: from <= k < |lines| ==> (k in at <==> Selects(s, lines[k]))
    decreases |lines| - from
  {
    at := [];
    if from < |lines| {
      at := SelectedFrom(s, lines, from + 1);
      SelectedNext(s, lines, from);
      if Selects(s, lines[from]) {
        at := [from] + at;
      }
    }
  }

  lemma SelectedNext(s: seq<byte>, lines: seq<seq<byte>>, from: nat)
    requires from < |lines|
    ensures Selected(s, lines[from..])
         == (if Selects(s, lines[from]) then [lines[from]] else []) + Selected(s, lines[from + 1..])
  {
    assert lines[from..][0] == lines[from] && lines[from..][1..] == lines[from + 1..];
  }

  lemma {:induction false} SelectedAppend(s: seq<byte>, a: seq<seq<byte>>, b: seq<seq<byte>>)
    ensures Selected(s, a + b) == Selected(s, a) + Selected(s, b)
  {
    if a == [] {
      assert a + b == b;
    } else {
      assert (a + b)[0] == a[0] && (a + b)[1..] == a[1..] + b;
      SelectedAppend(s, a[1..], b);
    }
  }

  /** What is selected when a text is cut within a line. */
  lemma SelectedContinued(s: seq<byte>, lines: seq<seq<byte>>, more: seq<seq<byte>>)
    requires lines != [] && more != []
    ensures var n := |lines| - 1;
            && Selected(s, lines) == Selected(s, lines[..n]) + Selected(s, [lines[n]])
            && Selected(s, more) == Selected(s, [more[0]]) + Selected(s, more[1..])
            && Selected(s, Continued(lines, more))
               == Selected(s, lines[..n]) + Selected(s, [lines[n] + more[0]]) + Selected(s, more[1..])
  {
    var n := |lines| - 1;
    assert lines[..n] + [lines[n]] == lines && [more[0]] + more[1..] == more;
    SelectedAppend(s, lines[..n], [lines[n]]);
    SelectedAppend(s, [more[0]], more[1..]);
    SelectedAppend(s, lines[..n], [lines[n] + more[0]]);
    SelectedAppend(s, lines[..n] + [lines[n] + more[0]], more[1..]);
  }

  /** The lines of both parts of a text fit if the text's do. */
  lemma PartsFit(x: seq<byte>, y: seq<byte>)
    requires LinesFit(x + y) && x != [] && |x| <= WINDOW
    ensures LinesFit(x) && LinesFit(y)
  {
    forall k | 0 <= k < |Lines(x)| ensures |Lines(x)[k]| <= WINDOW {
      LinesAreShort(x, k);
    }
    if y != [] {
      if x[|x| - 1] == NEWLINE {
        CutAtLineEnd(x, y);
        forall k | 0 <= k < |Lines(y)| ensures |Lines(y)[k]| <= WINDOW {
          assert Lines(x + y)[|Lines(x)| + k] == Lines(y)[k];
        }
      } else {
        CutInLine(x, y);
        var n := |Lines(x)| - 1;
        assert Lines(x + y)[n] == Lines(x)[n] + Lines(y)[0];
        forall k | 0 <= k < |Lines(y)| ensures |Lines(y)[k]| <= WINDOW {
          assert k > 0 ==> Lines(x + y)[n + k] == Lines(y)[k];
        }
      }
    }
  }

  lemma ContinuedByEmpty(s: seq<byte>, lines: seq<seq<byte>>, more: seq<seq<byte>>)
    requires lines != [] && more != [] && more[0] == []
    ensures Selected(s, Continued(lines, more)) == Selected(s, lines) + Selected(s, more)
  {
    var last := lines[|lines| - 1];
    SelectedContinued(s, lines, more);
    assert last + [] == last && Selected(s, [[]]) == [];
    assert [] + Selected(s, more[1..]) == Selected(s, more[1..]);
  }

  lemma CutBeforeNewline(s: seq<byte>, x: seq<byte>, y: seq<byte>)
    requires x != [] && x[|x| - 1] != NEWLINE && y != [] && y[0] == NEWLINE
    ensures Selected(s, Lines(x + y)) == Selected(s, Lines(x)) + Selected(s, Lines(y))
  {
    CutInLine(x, y);
    assert Lines(y)[0] == [];
    ContinuedByEmpty(s, Lines(x), Lines(y));
  }

  /** The right lines are selected if they fit and no window cuts one. */
  lemma {:induction false} WindowsSelect(s: seq<byte>, f: seq<byte>, stale: bool)
    requires Exact(f, stale)
    ensures Selected(s, Windows(f, stale)) == Selected(s, Lines(f))
    decreases |f|
  {
    if !stale || |f| < WINDOW {
      ShortLinesSegments(s, f);
    } else {
      var x, y := f[..WINDOW], f[WINDOW..];
      assert f == x + y;
      PartsFit(x, y);
      ShortLinesSegments(s, x);
      SelectedAppend(s, Segments(x), Windows(y, x[WINDOW - 1] == NEWLINE));
      WindowsSelect(s, y, x[WINDOW - 1] == NEWLINE);
      if x[WINDOW - 1] == NEWLINE {
        CutAtLineEnd(x, y);
        SelectedAppend(s, Lines(x), Lines(y));
      } else if y == [] {
        assert x + y == x && Selected(s, Lines(y)) == [];
      } else {
        CutBeforeNewline(s, x, y);
      }
    }
  }

  lemma {:induction false} WindowsAreShort(f: seq<byte>, stale: bool, k: nat)
    requires k < |Windows(f, stale)|
    ensures |Windows(f, stale)[k]| <= WINDOW
    decreases |f|
  {
    if !stale || |f| < WINDOW {
      SegmentsAreShort(f, k);
    } else {
      var m := |Segments(f[..WINDOW])|;
      if k < m {
        SegmentsAreShort(f[..WINDOW], k);
      } else {
        WindowsAreShort(f[WINDOW..], f[WINDOW - 1] == NEWLINE, k - m);
      }
    }
  }

  /** The text without its newlines. */
  function Stripped(f: seq<byte>): seq<byte> {
    if f == [] then [] else (if f[0] == NEWLINE then [] else [f[0]]) + Stripped(f[1..])
  }

  /** The pieces one after the other. */
  function Together(pieces: seq<seq<byte>>): seq<byte> {
    if pieces == [] then [] else pieces[0] + Together(pieces[1..])
  }

  lemma {:induction false} StrippedAppend(x: seq<byte>, y: seq<byte>)
    ensures Stripped(x + y) == Stripped(x) + Stripped(y)
  {
    if x == [] {
      assert x + y == y;
    } else {
      assert (x + y)[1..] == x[1..] + y;
      StrippedAppend(x[1..], y);
    }
  }

  lemma {:induction false} StrippedLine(x: seq<byte>)
    requires NEWLINE !in x
    ensures Stripped(x) == x
  {
    if x != [] {
      StrippedLine(x[1..]);
    }
  }

  lemma {:induction false} TogetherAppend(a: seq<seq<byte>>, b: seq<seq<byte>>)
    ensures Together(a + b) == Together(a) + Together(b)
  {
    if a == [] {
      assert a + b == b;
    } else {
      assert (a + b)[0] == a[0] && (a + b)[1..] == a[1..] + b;
      TogetherAppend(a[1..], b);
      Associative(a[0], Together(a[1..]), Together(b));
    }
  }

  lemma StrippedPiece(f: seq<byte>, n: nat, m: nat, rest: seq<seq<byte>>)
    requires n <= m <= |f| && NEWLINE !in f[..n] && (n < m ==> m == n + 1 && f[n] == NEWLINE)
    requires Together(rest) == Stripped(f[m..])
    ensures Together([f[..n]] + rest) == Stripped(f)
  {
    TogetherAppend([f[..n]], rest);
    assert Together([f[..n]]) == f[..n];
    StrippedLine(f[..n]);
    StrippedAppend(f[..n], f[n..]);
    assert f == f[..n] + f[n..];
    if n < m {
      assert f[n..][0] == NEWLINE && f[n..][1..] == f[m..];
    }
  }

  lemma {:induction false} SegmentsLoseNothing(f: seq<byte>)
    ensures Together(Segments(f)) == Stripped(f)
    decreases |f|
  {
    if f != [] {
      var n := Find(NEWLINE, f);
      var l := Min(WINDOW, |f|);
      var k, m := if n < WINDOW && n < |f| then n else l, if n < WINDOW && n < |f| then n + 1 else l;
      SegmentsLoseNothing(f[m..]);
      StrippedPiece(f, k, m, Segments(f[m..]));
    }
  }

  /** Whatever the file and the byte behind the window, what grep searches are
      all the bytes of the file but the newlines, in pieces, in order. */
  lemma {:induction false} WindowsLoseNothing(f: seq<byte>, stale: bool)
    ensures Together(Windows(f, stale)) == Stripped(f)
    decreases |f|
  {
    if !stale || |f| < WINDOW {
      SegmentsLoseNothing(f);
    } else {
      var x, y := f[..WINDOW], f[WINDOW..];
      SegmentsLoseNothing(x);
      WindowsLoseNothing(y, f[WINDOW - 1] == NEWLINE);
      TogetherAppend(Segments(x), Windows(y, f[WINDOW - 1] == NEWLINE));
      StrippedAppend(x, y);
      assert f == x + y;
    }
  }

  /** A pattern of one byte that occurs in a line of the file. */
  ghost predicate OneByteOf(s: seq<byte>, f: seq<byte>) {
    |s| == 1 && s[0] in f && s[0] != NEWLINE
  }

  lemma FirstByteSelects(line: seq<byte>)
    requires line != []
    ensures Selects([line[0]], line)
  {
    assert OccursAt(line, [line[0]], 0);
  }

  lemma OneByteNulFree(s: seq<byte>, f: seq<byte>)
    requires OneByteOf(s, f)
    ensures NulFree(f) ==> NulFree(s)
  {
  }

  /** The first byte of a line of the file is such a pattern. */
  lemma FirstByteOf(f: seq<byte>, k: nat)
    requires k < |Lines(f)| && Lines(f)[k] != []
    ensures OneByteOf([Lines(f)[k][0]], f)
  {
    LineOfText(f, k);
    UnlinesOfLines(f);
  }

  /** A line longer than the window is not found by its first byte. */
  lemma LongLineMissed(f: seq<byte>, stale: bool, k: nat) returns (s: seq<byte>)
    requires k < |Lines(f)| && |Lines(f)[k]| > WINDOW
    ensures OneByteOf(s, f)
    ensures Selected(s, Windows(f, stale)) != Selected(s, Lines(f))
  {
    var line := Lines(f)[k];
    s := [line[0]];
    FirstByteOf(f, k);
    FirstByteSelects(line);
    SelectedIsThere(s, Lines(f), k);
    if line in Selected(s, Windows(f, stale)) {
      SelectedAreLines(s, Windows(f, stale), line);
      var j :| 0 <= j < |Windows(f, stale)| && Windows(f, stale)[j] == line;
      WindowsAreShort(f, stale, j);
      assert false;
    }
  }

  lemma DifferAt(p: seq<seq<byte>>, a: seq<byte>, b: seq<byte>, q: seq<seq<byte>>, r: seq<seq<byte>>)
    requires a != b
    ensures p + [a] + q != p + [b] + r
  {
    assert (p + [a] + q)[|p|] == a && (p + [b] + r)[|p|] == b;
  }

  lemma SelectedOne(s: seq<byte>, line: seq<byte>)
    requires Selects(s, line)
    ensures Selected(s, [line]) == [line]
  {
    assert [line][1..] == [];
  }

  /** A line that the end of a window cuts is not found by its first byte. */
  lemma CutHere(x: seq<byte>, y: seq<byte>) returns (s: seq<byte>)
    requires x != [] && x[|x| - 1] != NEWLINE && y != [] && y[0] != NEWLINE
    ensures OneByteOf(s, x)
    ensures forall seen :: Selected(s, Lines(x)) + seen != Selected(s, Lines(x + y))
  {
    CutInLine(x, y);
    var n := |Lines(x)| - 1;
    var a, b := Lines(x)[n], Lines(y)[0];
    assert b != [];
    s := [a[0]];
    FirstByteOf(x, n);
    SelectedContinued(s, Lines(x), Lines(y));
    assert (a + b)[0] == a[0];
    FirstByteSelects(a);
    FirstByteSelects(a + b);
    SelectedOne(s, a);
    SelectedOne(s, a + b);
    forall seen ensures Selected(s, Lines(x)) + seen != Selected(s, Lines(x + y)) {
      DifferAt(Selected(s, Lines(x)[..n]), a, a + b, seen, Selected(s, Lines(y)[1..]));
    }
  }

  /** What a full window in front of a newline contributes. */
  lemma FirstWindow(s: seq<byte>, x: seq<byte>, y: seq<byte>)
    requires |x| == WINDOW && LinesFit(x)
    ensures Selected(s, Windows(x + y, true)) == Selected(s, Lines(x)) + Selected(s, Windows(y, x[WINDOW - 1] == NEWLINE))
  {
    var f := x + y;
    assert f[..WINDOW] == x && f[WINDOW..] == y && f[WINDOW - 1] == x[WINDOW - 1];
    ShortLinesSegments(s, x);
    SelectedAppend(s, Segments(x), Windows(y, x[WINDOW - 1] == NEWLINE));
  }

  lemma SameFront(p: seq<seq<byte>>, q: seq<seq<byte>>, r: seq<seq<byte>>)
    requires q != r
    ensures p + q != p + r
  {
    assert (p + q)[|p|..] == q && (p + r)[|p|..] == r;
  }

  /** If a window cuts a line, some pattern of one byte misses it. */
  lemma {:induction false} CutLineMissed(f: seq<byte>) returns (s: seq<byte>)
    requires LinesFit(f) && !CutsAtLineEnd(f)
    ensures OneByteOf(s, f)
    ensures Selected(s, Windows(f, true)) != Selected(s, Lines(f))
    decreases |f|
  {
    var x, y := f[..WINDOW], f[WINDOW..];
    assert f == x + y;
    PartsFit(x, y);
    if x[WINDOW - 1] == NEWLINE {
      s := CutLineMissed(y);
      CutAtLineEnd(x, y);
      SelectedAppend(s, Lines(x), Lines(y));
      SameFront(Selected(s, Lines(x)), Selected(s, Windows(y, true)), Selected(s, Lines(y)));
    } else {
      s := CutHere(x, y);
    }
    FirstWindow(s, x, y);
  }

  lemma Missed(f: seq<byte>, stale: bool) returns (s: seq<byte>)
    requires !Exact(f, stale)
    ensures OneByteOf(s, f)
    ensures Selected(s, Windows(f, stale)) != Selected(s, Lines(f))
  {
    if LinesFit(f) {
      s := CutLineMissed(f);
    } else {
      var k :| 0 <= k < |Lines(f)| && |Lines(f)[k]| > WINDOW;
      s := LongLineMissed(f, stale, k);
    }
  }

  /** The right lines are selected for every pattern that the program can be
      given exactly when no line of the file is longer than the window and,
      should the byte behind the window start out as a newline, no window that
      this ends cuts a line.  One-byte patterns are enough to tell. */
  lemma ExactIff(f: seq<byte>, stale: bool)
    requires NulFree(f)
    ensures Exact(f, stale) ==> forall s :: Selected(s, Windows(f, stale)) == Selected(s, Lines(f))
    ensures (forall s :: NulFree(s) ==> Selected(s, Windows(f, stale)) == Selected(s, Lines(f))) <==> Exact(f, stale)
    ensures (forall s :: NulFree(s) && |s| == 1 ==> Selected(s, Windows(f, stale)) == Selected(s, Lines(f)))
       <==> Exact(f, stale)
  {
    if Exact(f, stale) {
      forall s ensures Selected(s, Windows(f, stale)) == Selected(s, Lines(f)) {
        WindowsSelect(s, f, stale);
      }
    } else {
      var s := Missed(f, stale);
      assert NulFree(s);
    }
  }

  /** A report says which lines were selected and nothing else about them. */
  lemma {:induction false} ReportOfSelected(fname: seq<byte>, s: seq<byte>, lines: seq<seq<byte>>)
    ensures Report(fname, s, lines) == Report(fname, s, Selected(s, lines))
  {
    if lines != [] {
      ReportOfSelected(fname, s, lines[1..]);
      if Selects(s, lines[0]) {
        assert Selected(s, lines) == [lines[0]] + Selected(s, lines[1..]);
      } else {
        assert Selected(s, lines) == Selected(s, lines[1..]);
      }
    }
  }

  // ---------------------------------------------------------------- program

  /** ece391_strncmp of the string at `from` with s, over all of s. */
  method Strncmp(data: array<byte>, from: nat, end: nat, s: seq<byte>) returns (r: int)
    requires from < end < data.Length && data[end] == NUL && NulFree(s)
    ensures r == 0 <==> from + |s| <= end && data[from..from + |s|] == s
  {
    if |s| == 0 {
      return 0;
    }
    var n := 0;
    while data[from + n] == s[n]
      invariant n < |s| && from + n <= end
      invariant forall k :: 0 <= k < n ==> data[from + k] == s[k]
      decreases |s| - n
    {
      if n + 1 == |s| {
        return 0;
      }
      n := n + 1;
    }
    assert from + |s| <= end ==> data[from..from + |s|][n] != s[n];
    return data[from + n] as int - s[n] as int;
  }

  /** The first n elements have been overwritten with those from src on. */
  ghost predicate MovedUp(was: seq<byte>, now: seq<byte>, src: nat, n: nat) {
    && |now| == |was| && src + n <= |was|
    && (forall k {:trigger now[k]} :: 0 <= k < n ==> now[k] == was[src + k])
    && forall k {:trigger now[k]} :: n <= k < |was| ==> now[k] == was[k]
  }

  lemma MovedUpNext(was: seq<byte>, now: seq<byte>, src: nat, n: nat)
    requires src > 0 && MovedUp(was, now, src, n) && src + n < |was|
    ensures now[src + n] == was[src + n] && MovedUp(was, now[n := was[src + n]], src, n + 1)
  {
  }

  /** ece391_strcpy within one array, towards the front. */
  method Strcpy(data: array<byte>, src: nat, end: nat)
    requires 0 < src <= end < data.Length && data[end] == NUL
    requires forall k :: src <= k < end ==> data[k] != NUL
    modifies data
    ensures forall k :: 0 <= k <= end - src ==> data[k] == old(data[src + k])
    ensures forall k {:trigger data[k]} :: end - src < k < data.Length ==> data[k] == old(data[k])
  {
    ghost var was := data[..];
    var i := 0;
    data[0] := data[src];
    while data[i] != NUL
      invariant 0 <= i <= end - src
      invariant MovedUp(was, data[..], src, i + 1)
      decreases end - i
    {
      MovedUpNext(was, data[..], src, i + 1);
      i := i + 1;
      data[i] := data[src + i];
    }
  }

  lemma FirstDiffers(line: seq<byte>, s: seq<byte>, i: nat)
    requires i < |line| && s != [] && line[i] != s[0]
    ensures !OccursAt(line, s, i)
  {
    assert i + |s| <= |line| ==> line[i..i + |s|][0] == line[i];
  }

  /** The search of the line in [start, end). */
  method LineMatches(data: array<byte>, start: nat, end: nat, s: seq<byte>) returns (found: bool)
    requires start <= end < data.Length && data[end] == NUL && NulFree(s)
    requires NulFree(data[start..end])
    ensures found == Selects(s, data[start..end])
  {
    ghost var line := data[start..end];
    var check := start;
    while check < end
      invariant start <= check <= end
      invariant forall i :: 0 <= i < check - start ==> s == [] || !OccursAt(line, s, i)
    {
      if CharAt(s, 0) == data[check] {
        assert line[check - start] == data[check];
        var c := Strncmp(data, check, end, s);
        assert check + |s| <= end ==> line[check - start..check - start + |s|] == data[check..check + |s|];
        if c == 0 {
          assert OccursAt(line, s, check - start);
          return true;
        }
      } else if s != [] {
        FirstDiffers(line, s, check - start);
      }
      check := check + 1;
    }
    return false;
  }

  /** The line is terminated, searched, and printed if it contains the pattern. */
  method SearchLine(data: array<byte>, start: nat, end: nat, s: seq<byte>, fname: seq<byte>,
                    out0: seq<byte>, ghost line: seq<byte>)
    returns (out: seq<byte>)
    requires start <= end < data.Length && NulFree(s)
    requires |line| == end - start && NulFree(line)
    requires forall k :: start <= k < end ==> data[k] == line[k - start]
    modifies data
    ensures data[end] == NUL && forall k :: 0 <= k < data.Length && k != end ==> data[k] == old(data[k])
    ensures out == out0 + Found(fname, s, line)
  {
    data[end] := NUL;
    assert data[start..end] == line;
    var found := LineMatches(data, start, end, s);
    out := out0;
    if found {
      out := out + Printed(fname, data[start..end]);
    } else {
      assert out0 + [] == out0;
    }
  }

  /** The end of the line that starts at `start`: its newline, or `last`. */
  method LineEnd(data: array<byte>, start: nat, last: nat) returns (end: nat)
    requires start <= last < data.Length
    ensures start <= end <= last
    ensures forall k :: start <= k < end ==> data[k] != NEWLINE
    ensures end < last ==> data[end] == NEWLINE
  {
    end := start;
    while end < last && data[end] != NEWLINE
      invariant start <= end <= last
      invariant forall k :: start <= k < end ==> data[k] != NEWLINE
    {
      end := end + 1;
    }
  }

  /** A way to compute, from the bytes not yet dealt with, what is still to be
      printed on their account. */
  type Owed = seq<byte> -> seq<byte>

  /** The window starts with a line of n bytes: a newline follows it, or the
      window ends there and is full or the last one. */
  ghost predicate Cut(win: seq<byte>, unread: seq<byte>, n: nat) {
    && n <= |win| <= WINDOW
    && (forall k :: 0 <= k < n ==> win[k] != NEWLINE)
    && if n < |win| then win[n] == NEWLINE else unread == [] || n == WINDOW
  }

  /** The window after a line of n bytes and its newline. */
  ghost function After(win: seq<byte>, n: nat): (r: seq<byte>)
    ensures |r| == if n < |win| then |win| - n - 1 else 0
    ensures forall k :: 0 <= k < |r| ==> r[k] == win[n + 1 + k]
    ensures NulFree(win) ==> NulFree(r)
  {
    if n < |win| then win[n + 1..] else []
  }

  /** What is owed for a window is owed for its first line and for the rest. */
  ghost predicate Splits(owed: Owed, fname: seq<byte>, s: seq<byte>) {
    forall win, unread, n: nat :: Cut(win, unread, n) ==>
      owed(win + unread) == Found(fname, s, win[..n]) + owed(After(win, n) + unread)
  }

  lemma FirstSegment(f: seq<byte>, n: nat, m: nat)
    requires f != [] && n <= m <= |f|
    requires forall k :: 0 <= k < n ==> f[k] != NEWLINE
    requires if m == n then n == Min(WINDOW, |f|) else m == n + 1 && n < WINDOW && f[n] == NEWLINE
    ensures Segments(f) == [f[..n]] + Segments(f[m..])
  {
    if m == n + 1 {
      FindIs(NEWLINE, f, n);
    } else if n < |f| {
      var k := Find(NEWLINE, f);
      assert k == |f| || k >= n;
    }
  }

  lemma ReportCons(fname: seq<byte>, s: seq<byte>, line: seq<byte>, rest: seq<seq<byte>>)
    ensures Report(fname, s, [line] + rest) == Found(fname, s, line) + Report(fname, s, rest)
  {
    assert ([line] + rest)[1..] == rest;
  }

  /** The report on a window and the unread file, by its first line. */
  lemma ReportOfFirst(fname: seq<byte>, s: seq<byte>, win: seq<byte>, unread: seq<byte>, n: nat)
    requires Cut(win, unread, n)
    ensures Report(fname, s, Segments(win + unread))
         == Found(fname, s, win[..n]) + Report(fname, s, Segments(After(win, n) + unread))
  {
    var f, rest := win + unread, After(win, n) + unread;
    if f == [] {
      assert win[..n] == [] && rest == [] && Found(fname, s, []) == [];
    } else {
      var m := if n < |win| then n + 1 else n;
      RestOfWindow(win, unread, n, m);
      FirstSegment(f, n, m);
      ReportCons(fname, s, f[..n], Segments(rest));
    }
  }

  lemma RestOfWindow(win: seq<byte>, unread: seq<byte>, n: nat, m: nat)
    requires n <= |win| && m == if n < |win| then n + 1 else n
    ensures (win + unread)[..n] == win[..n] && (win + unread)[m..] == After(win, n) + unread
  {
  }

  lemma ReportSplits(owed: Owed, fname: seq<byte>, s: seq<byte>)
    requires forall f :: owed(f) == Report(fname, s, Segments(f))
    ensures Splits(owed, fname, s)
  {
    forall win, unread, n: nat | Cut(win, unread, n)
      ensures owed(win + unread) == Found(fname, s, win[..n]) + owed(After(win, n) + unread)
    {
      ReportOfFirst(fname, s, win, unread, n);
    }
  }

  /** What is printed for the first line is no longer owed. */
  lemma PayLine(owed: Owed, fname: seq<byte>, s: seq<byte>, win: seq<byte>, unread: seq<byte>, n: nat, out: seq<byte>)
    requires Splits(owed, fname, s) && Cut(win, unread, n)
    ensures out + owed(win + unread) == (out + Found(fname, s, win[..n])) + owed(After(win, n) + unread)
  {
    Associative(out, Found(fname, s, win[..n]), owed(After(win, n) + unread));
  }

  /** The partial line in [start, last) moves to the front of the window. */
  method Carry(data: array<byte>, start: nat, last: nat)
    requires 0 < start <= last < data.Length
    requires forall k :: start <= k < last ==> data[k] != NUL
    modifies data
    ensures forall k :: 0 <= k < last - start ==> data[k] == old(data[start + k])
    ensures data[data.Length - 1] == if last == data.Length - 1 then NUL else old(data[data.Length - 1])
  {
    data[last] := NUL;
    Strcpy(data, start, last);
  }

  /** The bytes of the window from index `start` on. */
  ghost predicate InWindow(data: array<byte>, start: nat, last: nat, win: seq<byte>)
    requires last <= data.Length
    reads data
  {
    |win| == last - start && NulFree(win) && forall k :: start <= k < last ==> data[k] == win[k - start]
  }

  /** The line in [start, end) is dealt with; the rest of the window is not touched. */
  method TakeLine(data: array<byte>, start: nat, end: nat, last: nat, s: seq<byte>, fname: seq<byte>, out0: seq<byte>,
                  ghost win: seq<byte>, ghost unread: seq<byte>, ghost owed: Owed)
    returns (out: seq<byte>, ghost rest: seq<byte>)
    requires start <= end <= last < data.Length && NulFree(s)
    requires InWindow(data, start, last, win) && Cut(win, unread, end - start)
    requires Splits(owed, fname, s)
    modifies data
    ensures data[end] == NUL && forall k :: 0 <= k < data.Length && k != end ==> data[k] == old(data[k])
    ensures if end < last then InWindow(data, end + 1, last, rest) else rest == []
    ensures out + owed(rest + unread) == out0 + owed(win + unread)
  {
    ghost var n := end - start;
    PayLine(owed, fname, s, win, unread, n, out0);
    out := SearchLine(data, start, end, s, fname, out0, win[..n]);
    rest := After(win, n);
  }

  /** The rest of the window, a partial line, becomes the front of the next one. */
  method CarryOver(data: array<byte>, start: nat, last0: nat, ghost win: seq<byte>) returns (last: nat)
    requires 0 < start <= last0 < data.Length && InWindow(data, start, last0, win)
    modifies data
    ensures last == last0 - start && data[..last] == win
    ensures data[data.Length - 1] == if last0 == data.Length - 1 then NUL else old(data[data.Length - 1])
  {
    assert forall k :: start <= k < last0 ==> data[k] == win[k - start];
    Carry(data, start, last0);
    last := last0 - start;
  }

  /** The next line of the window, and what its end says about the window's last byte. */
  method NextLine(data: array<byte>, start: nat, last: nat, ghost win: seq<byte>) returns (end: nat)
    requires start <= last < data.Length && InWindow(data, start, last, win)
    ensures start <= end <= last
    ensures end < last ==> data[end] == NEWLINE
    ensures forall k :: 0 <= k < end - start ==> win[k] != NEWLINE
    ensures end < last ==> win[end - start] == NEWLINE
    ensures start < last <= end + 1 ==> (end < last <==> data[last - 1] == NEWLINE)
  {
    end := LineEnd(data, start, last);
    assert forall k :: 0 <= k < end - start ==> win[k] == data[start + k];
  }

  /** The line loop on a window: win is the window, `unread` what the file still holds. */
  method ScanLines(data: array<byte>, last0: nat, cnt: nat, s: seq<byte>, fname: seq<byte>,
                   ghost win0: seq<byte>, ghost unread: seq<byte>, out0: seq<byte>, ghost owed: Owed)
    returns (last: nat, out: seq<byte>)
    requires data.Length == WINDOW + 1 && last0 <= WINDOW && NulFree(s)
    requires InWindow(data, 0, last0, win0)
    requires unread != [] ==> last0 == WINDOW && cnt != 0 && data[WINDOW] != NEWLINE
    requires Splits(owed, fname, s)
    modifies data
    ensures last < WINDOW && (cnt == 0 ==> last == 0)
    ensures old(data[WINDOW]) != NEWLINE ==> data[WINDOW] != NEWLINE
    ensures old(data[WINDOW]) == NEWLINE && last0 == WINDOW ==>
              last == 0 && (data[WINDOW] == NEWLINE <==> old(data[WINDOW - 1]) == NEWLINE)
    ensures NulFree(data[..last])
    ensures out + owed(data[..last] + unread) == out0 + owed(win0 + unread)
  {
    last, out := last0, out0;
    var lineStart := 0;
    ghost var win := win0;
    while true
      invariant last == last0 && (lineStart < last || lineStart == 0)
      invariant InWindow(data, lineStart, last, win)
      invariant data[WINDOW] == old(data[WINDOW]) && (last > 0 ==> data[last - 1] == old(data[last - 1]))
      invariant out + owed(win + unread) == out0 + owed(win0 + unread)
      decreases last - lineStart
    {
      var lineEnd := NextLine(data, lineStart, last, win);
      if data[lineEnd] != NEWLINE && cnt != 0 && lineStart != 0 {
        last := CarryOver(data, lineStart, last, win);
        return;
      }
      out, win := TakeLine(data, lineStart, lineEnd, last, s, fname, out, win, unread, owed);
      lineStart := lineEnd + 1;
      if lineStart >= last {
        last := 0;
        assert win == [] == data[..last];
        return;
      }
    }
  }

  /** The window is filled up from the file. */
  method Fill(p: Process, fd: nat, data: array<byte>, last: nat) returns (cnt: nat)
    requires p.Valid() && FIRST_FD <= fd && OpenFile(p.fds[..], fd)
    requires data.Length == WINDOW + 1 && last < WINDOW
    requires NulFree(data[..last]) && NulFree(Unread(p.img, p.fds[fd]))
    modifies p, p.fds, data
    ensures p.Valid() && OpenFile(p.fds[..], fd)
    ensures var d := old(p.fds[fd]);
            && p.fds[..] == old(p.fds[..])[fd := d.(filePos := d.filePos + cnt)]
            && cnt == Min(WINDOW - last, |Unread(p.img, d)|)
    ensures NulFree(data[..last + cnt]) && NulFree(Unread(p.img, p.fds[fd]))
    ensures data[..last + cnt] + Unread(p.img, p.fds[fd]) == old(data[..last] + Unread(p.img, p.fds[fd]))
    ensures data[WINDOW] == old(data[WINDOW])
  {
    ghost var before, unread := data[..last], Unread(p.img, p.fds[fd]);
    cnt := ReadOn(p, fd, data, last, WINDOW - last);
    assert data[..last + cnt] == before + data[last..last + cnt];
    WindowGrows(before, data[last..last + cnt], Unread(p.img, p.fds[fd]), unread);
  }

  lemma WindowGrows(before: seq<byte>, taken: seq<byte>, rest: seq<byte>, unread: seq<byte>)
    requires unread == taken + rest && NulFree(before) && NulFree(unread)
    ensures NulFree(before + taken) && NulFree(rest) && (before + taken) + rest == before + unread
  {
    Associative(before, taken, rest);
    assert taken == unread[..|taken|] && rest == unread[|taken|..];
  }

  /** The same, given also whether the byte behind the window is a newline. */
  type Owing = (seq<byte>, bool) -> seq<byte>

  /** A full window in front of a newline is paid for on its own. */
  ghost predicate PaysFor(owing: Owing, owed: Owed, f: seq<byte>, stale: bool) {
    owing(f, stale) == if !stale || |f| < WINDOW then owed(f)
                       else owed(f[..WINDOW]) + owing(f[WINDOW..], f[WINDOW - 1] == NEWLINE)
  }

  ghost predicate Pays(owing: Owing, owed: Owed) {
    owed([]) == [] && forall f, stale :: PaysFor(owing, owed, f, stale)
  }

  lemma TurnPays(owing: Owing, owed: Owed, window: seq<byte>, unread: seq<byte>, stale: bool,
                 carried: seq<byte>, still: bool, out0: seq<byte>, out: seq<byte>)
    requires Pays(owing, owed)
    requires |window| <= WINDOW && (unread != [] ==> |window| == WINDOW) && |carried| < WINDOW
    requires !stale ==> !still
    requires stale && |window| == WINDOW ==> carried == [] && (still <==> window[WINDOW - 1] == NEWLINE)
    requires var later := if stale && |window| == WINDOW then [] else unread;
             out + owed(carried + later) == out0 + owed(window + later)
    ensures out + owing(carried + unread, still) == out0 + owing(window + unread, stale)
  {
    var f := window + unread;
    assert PaysFor(owing, owed, f, stale);
    if stale && |window| == WINDOW {
      assert f[..WINDOW] == window && f[WINDOW..] == unread && f[WINDOW - 1] == window[WINDOW - 1];
      assert carried + [] == [] && window + [] == window && carried + unread == unread;
      assert out + [] == out;
      Associative(out0, owed(window), owing(unread, still));
    } else {
      assert PaysFor(owing, owed, carried + unread, still);
    }
  }

  /** One window data[..last0], with the byte behind it. */
  method ScanWindow(data: array<byte>, last0: nat, cnt: nat, s: seq<byte>, fname: seq<byte>,
                    ghost unread: seq<byte>, ghost before: seq<byte>, out0: seq<byte>,
                    ghost owed: Owed, ghost owing: Owing)
    returns (last: nat, out: seq<byte>)
    requires data.Length == WINDOW + 1 && last0 <= WINDOW && NulFree(s)
    requires NulFree(data[..last0]) && data[..last0] + unread == before
    requires unread != [] ==> last0 == WINDOW && cnt != 0
    requires Splits(owed, fname, s) && Pays(owing, owed)
    modifies data
    ensures last < WINDOW && (cnt == 0 ==> last == 0)
    ensures NulFree(data[..last])
    ensures out + owing(data[..last] + unread, data[WINDOW] == NEWLINE)
         == out0 + owing(before, old(data[WINDOW] == NEWLINE))
  {
    ghost var window, stale := data[..last0], data[WINDOW] == NEWLINE;
    ghost var later := if stale && last0 == WINDOW then [] else unread;
    last, out := ScanLines(data, last0, cnt, s, fname, window, later, out0, owed);
    TurnPays(owing, owed, window, unread, stale, data[..last], data[WINDOW] == NEWLINE, out0, out);
  }

  /** One turn of the read loop. */
  method Turn(p: Process, fd: nat, s: seq<byte>, fname: seq<byte>, data: array<byte>, last0: nat,
              out0: seq<byte>, ghost owed: Owed, ghost owing: Owing)
    returns (cnt: nat, last: nat, out: seq<byte>)
    requires p.Valid() && FIRST_FD <= fd && OpenFile(p.fds[..], fd)
    requires data.Length == WINDOW + 1 && last0 < WINDOW && NulFree(s)
    requires NulFree(data[..last0]) && NulFree(Unread(p.img, p.fds[fd]))
    requires Splits(owed, fname, s) && Pays(owing, owed)
    modifies p, p.fds, data
    ensures p.Valid() && OpenFile(p.fds[..], fd)
    ensures var d := old(p.fds[fd]);
            p.fds[..] == old(p.fds[..])[fd := d.(filePos := d.filePos + cnt)]
    ensures last < WINDOW
    ensures NulFree(data[..last]) && NulFree(Unread(p.img, p.fds[fd]))
    ensures out + owing(data[..last] + Unread(p.img, p.fds[fd]), data[WINDOW] == NEWLINE)
         == out0 + owing(old(data[..last0] + Unread(p.img, p.fds[fd])), old(data[WINDOW] == NEWLINE))
    ensures cnt == 0 ==> last == 0 && Unread(p.img, p.fds[fd]) == []
  {
    ghost var before := data[..last0] + Unread(p.img, p.fds[fd]);
    cnt := Fill(p, fd, data, last0);
    ghost var unread := Unread(p.img, p.fds[fd]);
    last, out := ScanWindow(data, last0 + cnt, cnt, s, fname, unread, before, out0, owed, owing);
    assert Unread(p.img, p.fds[fd]) == unread;
  }

  /** The read loop: it ends having printed all that was owed for the unread file. */
  method ReadLoop(p: Process, fd: nat, s: seq<byte>, fname: seq<byte>, data: array<byte>,
                  ghost owed: Owed, ghost owing: Owing)
    returns (out: seq<byte>)
    requires p.Valid() && FIRST_FD <= fd && OpenFile(p.fds[..], fd)
    requires data.Length == WINDOW + 1
    requires NulFree(s) && NulFree(Unread(p.img, p.fds[fd])) && Splits(owed, fname, s) && Pays(owing, owed)
    modifies p, p.fds, data
    ensures p.Valid() && OpenFile(p.fds[..], fd) && Unread(p.img, p.fds[fd]) == []
    ensures p.fds[..] == old(p.fds[..])[fd := old(p.fds[fd]).(filePos := p.fds[fd].filePos)]
    ensures out == owing(old(Unread(p.img, p.fds[fd])), old(data[WINDOW] == NEWLINE))
  {
    ghost var d, stale := p.fds[fd], data[WINDOW] == NEWLINE;
    var last: nat := 0;
    out := [];
    assert data[..0] + Unread(p.img, d) == Unread(p.img, d);
    while true
      invariant p.Valid() && OpenFile(p.fds[..], fd)
      invariant p.fds[..] == old(p.fds[..])[fd := d.(filePos := p.fds[fd].filePos)]
      invariant last < WINDOW
      invariant NulFree(data[..last]) && NulFree(Unread(p.img, p.fds[fd]))
      invariant out + owing(data[..last] + Unread(p.img, p.fds[fd]), data[WINDOW] == NEWLINE)
             == owing(Unread(p.img, d), stale)
      decreases |Unread(p.img, p.fds[fd])|
    {
      var cnt;
      cnt, last, out := Turn(p, fd, s, fname, data, last, out, owed, owing);
      if cnt == 0 {
        break;
      }
    }
    assert data[..last] + Unread(p.img, p.fds[fd]) == [];
    NothingOwed(owing, owed, out, data[WINDOW] == NEWLINE);
  }

  lemma NothingOwed(owing: Owing, owed: Owed, out: seq<byte>, stale: bool)
    requires Pays(owing, owed)
    ensures out + owing([], stale) == out
  {
    assert PaysFor(owing, owed, [], stale);
  }

  lemma {:induction false} ReportAppend(fname: seq<byte>, s: seq<byte>, a: seq<seq<byte>>, b: seq<seq<byte>>)
    ensures Report(fname, s, a + b) == Report(fname, s, a) + Report(fname, s, b)
  {
    if a == [] {
      assert a + b == b;
    } else {
      assert a + b == [a[0]] + (a[1..] + b);
      ReportCons(fname, s, a[0], a[1..] + b);
      ReportAppend(fname, s, a[1..], b);
      Associative(Found(fname, s, a[0]), Report(fname, s, a[1..]), Report(fname, s, b));
    }
  }

  lemma WindowsPay(owing: Owing, owed: Owed, fname: seq<byte>, s: seq<byte>)
    requires forall f :: owed(f) == Report(fname, s, Segments(f))
    requires forall f, stale :: owing(f, stale) == Report(fname, s, Windows(f, stale))
    ensures Pays(owing, owed)
  {
    var none: seq<byte> := [];
    assert owed(none) == Report(fname, s, Segments(none)) == [];
    forall f, stale ensures PaysFor(owing, owed, f, stale) {
      if stale && |f| >= WINDOW {
        ReportAppend(fname, s, Segments(f[..WINDOW]), Windows(f[WINDOW..], f[WINDOW - 1] == NEWLINE));
      }
    }
  }

  /** The search of a freshly opened file.  data is the uninitialised buffer;
      its last byte, which no read reaches, matters if it is a newline. */
  method GrepFile(p: Process, fd: nat, s: seq<byte>, fname: seq<byte>, data: array<byte>) returns (out: seq<byte>)
    requires p.Valid() && FIRST_FD <= fd && OpenFile(p.fds[..], fd) && p.fds[fd].filePos == 0
    requires NulFree(s) && NulFree(Content(p.img, p.fds[fd].inode))
    requires data.Length == WINDOW + 1
    modifies p, p.fds, data
    ensures p.Valid()
    ensures var d := old(p.fds[fd]);
            var content := Content(p.img, d.inode);
            && out == Report(fname, s, Windows(content, old(data[WINDOW] == NEWLINE)))
            && p.fds[..] == old(p.fds[..])[fd := d.(filePos := |content|)]
  {
    ghost var owed := f => Report(fname, s, Segments(f));
    ghost var owing := (f, stale) => Report(fname, s, Windows(f, stale));
    ReportSplits(owed, fname, s);
    WindowsPay(owing, owed, fname, s);
    assert Unread(p.img, p.fds[fd]) == Content(p.img, p.fds[fd].inode);
    out := ReadLoop(p, fd, s, fname, data, owed, owing);
  }

  function FileOpenFailed(): seq<byte> {
    Ascii("file open failed\n")
  }

  /** do_one_file, for a regular file without NULs or a name that does not exist. */
  method DoOneFile(p: Process, s: seq<byte>, fname: seq<byte>, data: array<byte>) returns (r: int, out: seq<byte>)
    requires p.Valid() && NulFree(s) && NulFree(fname) && NamesNothingElse(p.img, fname)
    requires NamesFile(p.img, fname) ==> NulFree(ContentOf(p.img, fname))
    requires data.Length == WINDOW + 1
    modifies p, p.fds, data
    ensures p.Valid()
    ensures var (t, fd) := Opened(p.img, old(p.fds[..]), fname);
            if fd == FAILURE then
              r == FAILURE && out == FileOpenFailed() && p.fds[..] == old(p.fds[..])
            else
              && r == SUCCESS
              && NamesFile(p.img, fname)
              && out == Report(fname, s, Windows(ContentOf(p.img, fname), old(data[WINDOW] == NEWLINE)))
              && p.fds[..] == Closed(t, fd).0
    ensures SameInUse(old(p.fds[..]), p.fds[..])
  {
    var fd := p.Open(fname);
    OpenedFile(p.img, old(p.fds[..]), fname);
    if fd == FAILURE {
      return FAILURE, FileOpenFailed();
    }
    ghost var t := p.fds[..];
    out := GrepFile(p, fd, s, fname, data);
    ClosedForgets(t, fd, |ContentOf(p.img, fname)|);
    OpenThenClose(p.img, old(p.fds[..]), fname);
    var c := p.Close(fd);
    return SUCCESS, out;
  }

  /** In these cases grep reports the file's lines that contain the pattern. */
  lemma ReportIsOfLines(fname: seq<byte>, s: seq<byte>, f: seq<byte>, stale: bool)
    requires Exact(f, stale)
    ensures Report(fname, s, Windows(f, stale)) == Report(fname, s, Lines(f))
  {
    WindowsSelect(s, f, stale);
    ReportOfSelected(fname, s, Windows(f, stale));
    ReportOfSelected(fname, s, Lines(f));
  }

  // ------------------------------------------------------ reading a report

  lemma {:induction false} SegmentsNewlineFree(f: seq<byte>)
    ensures NewlineFree(Segments(f))
    decreases |f|
  {
    if f != [] {
      var n := Find(NEWLINE, f);
      if n < WINDOW && n < |f| {
        SegmentsNewlineFree(f[n + 1..]);
        NewlineFreeCons(f[..n], Segments(f[n + 1..]));
      } else {
        var m := Min(WINDOW, |f|);
        SegmentsNewlineFree(f[m..]);
        NewlineFreeCons(f[..m], Segments(f[m..]));
      }
    }
  }

  lemma NewlineFreeCons(line: seq<byte>, rest: seq<seq<byte>>)
    requires NEWLINE !in line && NewlineFree(rest)
    ensures NewlineFree([line] + rest)
  {
  }

  lemma {:induction false} WindowsNewlineFree(f: seq<byte>, stale: bool)
    ensures NewlineFree(Windows(f, stale))
    decreases |f|
  {
    if !stale || |f| < WINDOW {
      SegmentsNewlineFree(f);
    } else {
      SegmentsNewlineFree(f[..WINDOW]);
      WindowsNewlineFree(f[WINDOW..], f[WINDOW - 1] == NEWLINE);
    }
  }

  lemma SelectedNewlineFree(s: seq<byte>, lines: seq<seq<byte>>)
    requires NewlineFree(lines)
    ensures NewlineFree(Selected(s, lines))
  {
    forall k | 0 <= k < |Selected(s, lines)| ensures NEWLINE !in Selected(s, lines)[k] {
      SelectedAreLines(s, lines, Selected(s, lines)[k]);
    }
  }

  /** The lines of a report. */
  function Headed(fname: seq<byte>, lines: seq<seq<byte>>): (r: seq<seq<byte>>)
    ensures |r| == |lines| && forall k :: 0 <= k < |r| ==> r[k] == fname + Ascii(":") + lines[k]
  {
    seq(|lines|, k requires 0 <= k < |lines| => fname + Ascii(":") + lines[k])
  }

  lemma HeadedCons(fname: seq<byte>, line: seq<byte>, rest: seq<seq<byte>>)
    ensures Unlines(Headed(fname, [line] + rest)) == Printed(fname, line) + Unlines(Headed(fname, rest))
  {
    var head := fname + Ascii(":") + line;
    assert Headed(fname, [line] + rest) == [head] + Headed(fname, rest);
    UnlinesCons(head, Headed(fname, rest));
    assert Ascii("\n") == [NEWLINE];
  }

  lemma {:induction false} ReportText(fname: seq<byte>, s: seq<byte>, lines: seq<seq<byte>>)
    ensures Report(fname, s, lines) == Unlines(Headed(fname, Selected(s, lines)))
  {
    if lines != [] {
      var rest := Selected(s, lines[1..]);
      ReportText(fname, s, lines[1..]);
      if Selects(s, lines[0]) {
        HeadedCons(fname, lines[0], rest);
      } else {
        assert Selected(s, lines) == rest;
      }
    }
  }

  lemma HeadedOnce(fname: seq<byte>, a: seq<seq<byte>>, b: seq<seq<byte>>)
    requires Headed(fname, a) == Headed(fname, b)
    ensures a == b
  {
    assert |a| == |Headed(fname, a)| == |b|;
    forall k | 0 <= k < |a| ensures a[k] == b[k] {
      var n := |fname + Ascii(":")|;
      assert a[k] == Headed(fname, a)[k][n..] && b[k] == Headed(fname, b)[k][n..];
    }
  }

  lemma HeadedNewlineFree(fname: seq<byte>, lines: seq<seq<byte>>)
    requires NEWLINE !in fname && NewlineFree(lines)
    ensures NewlineFree(Headed(fname, lines))
  {
    forall k | 0 <= k < |lines| ensures NEWLINE !in Headed(fname, lines)[k] {
      assert NEWLINE !in lines[k];
    }
  }

  lemma ReportRead(fname: seq<byte>, s: seq<byte>, lines: seq<seq<byte>>)
    requires NEWLINE !in fname && NewlineFree(lines)
    ensures Lines(Report(fname, s, lines)) == Headed(fname, Selected(s, lines))
  {
    ReportText(fname, s, lines);
    SelectedNewlineFree(s, lines);
    HeadedNewlineFree(fname, Selected(s, lines));
    LinesOfUnlines(Headed(fname, Selected(s, lines)));
  }

  /** The selected lines can be read off a report. */
  lemma ReportTells(fname: seq<byte>, s: seq<byte>, a: seq<seq<byte>>, b: seq<seq<byte>>)
    requires NEWLINE !in fname && NewlineFree(a) && NewlineFree(b)
    requires Report(fname, s, a) == Report(fname, s, b)
    ensures Selected(s, a) == Selected(s, b)
  {
    ReportRead(fname, s, a);
    ReportRead(fname, s, b);
    HeadedOnce(fname, Selected(s, a), Selected(s, b));
  }

  lemma ReportsDiffer(fname: seq<byte>, s: seq<byte>, a: seq<seq<byte>>, b: seq<seq<byte>>)
    requires NEWLINE !in fname && NewlineFree(a) && NewlineFree(b)
    requires Selected(s, a) != Selected(s, b)
    ensures Report(fname, s, a) != Report(fname, s, b)
  {
    if Report(fname, s, a) == Report(fname, s, b) {
      ReportTells(fname, s, a, b);
    }
  }

  /** grep's output for a pattern is the one that the file's lines call for. */
  ghost predicate RightFor(s: seq<byte>, fname: seq<byte>, f: seq<byte>, stale: bool) {
    Report(fname, s, Windows(f, stale)) == Report(fname, s, Lines(f))
  }

  /** In every other case some pattern of one byte gets a wrong report. */
  lemma WrongReport(fname: seq<byte>, f: seq<byte>, stale: bool) returns (s: seq<byte>)
    requires NEWLINE !in fname && !Exact(f, stale)
    ensures OneByteOf(s, f) && (NulFree(f) ==> NulFree(s))
    ensures !RightFor(s, fname, f, stale)
  {
    s := Missed(f, stale);
    OneByteNulFree(s, f);
    WindowsNewlineFree(f, stale);
    UnlinesOfLines(f);
    ReportsDiffer(fname, s, Windows(f, stale), Lines(f));
  }

  /** What grep prints is right for every pattern that it can be given exactly
      in the same cases. */
  lemma OutputExactIff(fname: seq<byte>, f: seq<byte>, stale: bool)
    requires NulFree(f) && NEWLINE !in fname
    ensures (forall s :: NulFree(s) ==> RightFor(s, fname, f, stale)) <==> Exact(f, stale)
  {
    if Exact(f, stale) {
      forall s ensures RightFor(s, fname, f, stale) {
        ReportIsOfLines(fname, s, f, stale);
      }
    } else {
      var s := WrongReport(fname, f, stale);
      assert NulFree(s);
    }
  }

  /** The output on such a file: a heading and one of its lines, for every line
      that contains the pattern, once, in their order, and nothing else. */
  lemma OutputInOrder(fname: seq<byte>, s: seq<byte>, f: seq<byte>, stale: bool) returns (at: seq<nat>)
    requires Exact(f, stale) && NEWLINE !in fname
    ensures var out := Report(fname, s, Windows(f, stale));
            && out == Unlines(Lines(out)) && |Lines(out)| == |at|
            && forall i :: 0 <= i < |at| ==>
                 at[i] < |Lines(f)| && Lines(out)[i] == fname + Ascii(":") + Lines(f)[at[i]]
    ensures forall i, j :: 0 <= i < j < |at| ==> at[i] < at[j]
    ensures forall k :: 0 <= k < |Lines(f)| ==>
              (k in at <==> s != [] && exists x, y :: Lines(f)[k] == x + s + y)
  {
    ReportIsOfLines(fname, s, f, stale);
    UnlinesOfLines(f);
    ReportRead(fname, s, Lines(f));
    ReportText(fname, s, Lines(f));
    at := SelectedFrom(s, Lines(f), 0);
    assert Lines(f)[0..] == Lines(f);
    forall k | 0 <= k < |Lines(f)|
      ensures k in at <==> s != [] && exists x, y :: Lines(f)[k] == x + s + y
    {
      SelectsIff(s, Lines(f)[k]);
    }
  }

  /** A heading and a line are printed exactly if the line is one of the file's
      and contains the pattern. */
  lemma OutputFindsIff(fname: seq<byte>, s: seq<byte>, f: seq<byte>, stale: bool, line: seq<byte>)
    requires Exact(f, stale) && NEWLINE !in fname
    ensures fname + Ascii(":") + line in Lines(Report(fname, s, Windows(f, stale)))
       <==> line in Lines(f) && s != [] && exists x, y :: line == x + s + y
  {
    var lines := Lines(Report(fname, s, Windows(f, stale)));
    var head := fname + Ascii(":");
    var at := OutputInOrder(fname, s, f, stale);
    if head + line in lines {
      var i :| 0 <= i < |lines| && lines[i] == head + line;
      assert lines[i][|head|..] == line && lines[i] == head + Lines(f)[at[i]];
      assert line == Lines(f)[at[i]] && at[i] in at;
    }
    if line in Lines(f) && s != [] && exists x, y :: line == x + s + y {
      var k :| 0 <= k < |Lines(f)| && Lines(f)[k] == line;
      assert k in at;
      var i :| 0 <= i < |at| && at[i] == k;
      assert lines[i] == head + line;
    }
  }
}
