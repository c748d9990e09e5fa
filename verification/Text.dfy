/** Lines of a text file. */
module Text {
  import opened Bytes

  /** The lines of f without their newlines; a last line may lack its newline. */
  function Lines(f: seq<byte>): seq<seq<byte>> {
    if f == [] then []
    else
      var n := Find(NEWLINE, f);
      [f[..n]] + if n == |f| then [] else Lines(f[n + 1..])
  }

  /** Each line followed by a newline. */
  function Unlines(lines: seq<seq<byte>>): seq<byte> {
    if lines == [] then []
    else lines[0] + [NEWLINE] + Unlines(lines[1..])
  }

  predicate NewlineFree(lines: seq<seq<byte>>) {
    forall k :: 0 <= k < |lines| ==> NEWLINE !in lines[k]
  }

  /** Lines loses nothing but the final newline. */
  lemma {:induction false} UnlinesOfLines(f: seq<byte>)
    ensures NewlineFree(Lines(f))
    ensures Unlines(Lines(f)) == if f == [] || f[|f| - 1] == NEWLINE then f else f + [NEWLINE]
  {
    if f != [] {
      var n := Find(NEWLINE, f);
      if n == |f| {
        UnlinesCons(f, []);
        assert f[..n] == f;
      } else {
        var tail := f[n + 1..];
        assert f == f[..n] + [NEWLINE] + tail;
        assert f + [NEWLINE] == f[..n] + [NEWLINE] + (tail + [NEWLINE]);
        assert tail != [] ==> f[|f| - 1] == tail[|tail| - 1];
        UnlinesCons(f[..n], Lines(tail));
        UnlinesOfLines(tail);
      }
    }
  }

  lemma UnlinesCons(line: seq<byte>, rest: seq<seq<byte>>)
    ensures Unlines([line] + rest) == line + [NEWLINE] + Unlines(rest)
  {
    assert ([line] + rest)[1..] == rest;
  }

  /** Lines inverts Unlines. */
  lemma {:induction false} LinesOfUnlines(lines: seq<seq<byte>>)
    requires NewlineFree(lines)
    ensures Lines(Unlines(lines)) == lines
  {
    if lines != [] {
      var f := Unlines(lines);
      var n := |lines[0]|;
      assert f[..n] == lines[0] && f[n + 1..] == Unlines(lines[1..]);
      FindIs(NEWLINE, f, n);
      LinesOfUnlines(lines[1..]);
    }
  }

  lemma FirstLine(f: seq<byte>, line: seq<byte>, rest: seq<byte>)
    requires f == line + [NEWLINE] + rest && NEWLINE !in line
    ensures Lines(f) == [line] + Lines(rest)
  {
    FindIs(NEWLINE, f, |line|);
    assert f[..|line|] == line && f[|line| + 1..] == rest;
  }

  lemma OnlyLine(f: seq<byte>)
    requires f != [] && NEWLINE !in f
    ensures Lines(f) == [f]
  {
    FindIs(NEWLINE, f, |f|);
    assert f[..|f|] == f;
  }

  /** A text is one line, or its first line, a newline and the rest. */
  lemma Parts(f: seq<byte>) returns (line: seq<byte>, rest: seq<byte>)
    requires NEWLINE in f
    ensures f == line + [NEWLINE] + rest && NEWLINE !in line
  {
    var n := Find(NEWLINE, f);
    line, rest := f[..n], f[n + 1..];
  }

  lemma LineInFront(line: seq<byte>, rest: seq<byte>, y: seq<byte>)
    ensures (line + [NEWLINE] + rest) + y == line + [NEWLINE] + (rest + y)
    ensures y + (line + [NEWLINE] + rest) == (y + line) + [NEWLINE] + rest
  {
  }

  lemma LineBefore(line: seq<byte>, rest: seq<byte>, y: seq<byte>)
    requires NEWLINE !in line && Lines(rest + y) == Lines(rest) + Lines(y)
    ensures Lines((line + [NEWLINE] + rest) + y) == Lines(line + [NEWLINE] + rest) + Lines(y)
  {
    LineInFront(line, rest, y);
    FirstLine(line + [NEWLINE] + rest, line, rest);
    FirstLine(line + [NEWLINE] + (rest + y), line, rest + y);
    Associative([line], Lines(rest), Lines(y));
  }

  /** A text cut after a newline. */
  lemma {:induction false} CutAtLineEnd(x: seq<byte>, y: seq<byte>)
    requires x != [] && x[|x| - 1] == NEWLINE
    ensures Lines(x + y) == Lines(x) + Lines(y)
    decreases |x|
  {
    var line, rest := Parts(x);
    if rest == [] {
      assert rest + y == y && Lines(rest) == [];
    } else {
      assert rest[|rest| - 1] == x[|x| - 1];
      CutAtLineEnd(rest, y);
    }
    LineBefore(line, rest, y);
  }

  /** The lines of a text whose last line goes on with more lines. */
  ghost function Continued(lines: seq<seq<byte>>, more: seq<seq<byte>>): seq<seq<byte>>
    requires lines != [] && more != []
  {
    lines[..|lines| - 1] + [lines[|lines| - 1] + more[0]] + more[1..]
  }

  lemma ContinuedCons(line: seq<byte>, lines: seq<seq<byte>>, more: seq<seq<byte>>)
    requires lines != [] && more != []
    ensures Continued([line] + lines, more) == [line] + Continued(lines, more)
  {
    var n, all := |lines| - 1, [line] + lines;
    assert all[..n + 1] == [line] + lines[..n] && all[n + 1] == lines[n];
  }

  /** A text cut within a line: the last line of the first part goes on as
      the first line of the second. */
  lemma {:induction false} CutInLine(x: seq<byte>, y: seq<byte>)
    requires x != [] && x[|x| - 1] != NEWLINE && y != []
    ensures Lines(x) != [] && Lines(x)[|Lines(x)| - 1] != [] && Lines(y) != []
    ensures Lines(x + y) == Continued(Lines(x), Lines(y))
    decreases |x|
  {
    if NEWLINE in x {
      var line, rest := Parts(x);
      assert rest != [] && rest[|rest| - 1] == x[|x| - 1];
      FirstLine(x, line, rest);
      LineInFront(line, rest, y);
      FirstLine(x + y, line, rest + y);
      CutInLine(rest, y);
      ContinuedCons(line, Lines(rest), Lines(y));
    } else {
      OnlyLine(x);
      CutInFirstLine(x, y);
    }
  }

  lemma CutInFirstLine(x: seq<byte>, y: seq<byte>)
    requires NEWLINE !in x && y != []
    ensures Lines(y) != [] && Lines(x + y) == Continued([x], Lines(y))
  {
    if NEWLINE in y {
      var line, rest := Parts(y);
      FirstLine(y, line, rest);
      LineInFront(line, rest, x);
      FirstLine(x + y, x + line, rest);
      ContinuedFirst(x, line, Lines(rest));
    } else {
      OnlyLine(y);
      OnlyLine(x + y);
      ContinuedFirst(x, y, []);
      assert [x + y] + [] == [x + y] && [y] + [] == [y];
    }
  }

  lemma ContinuedFirst(x: seq<byte>, line: seq<byte>, rest: seq<seq<byte>>)
    ensures Continued([x], [line] + rest) == [x + line] + rest
  {
  }

  /** No line is longer than its text. */
  lemma {:induction false} LinesAreShort(f: seq<byte>, k: nat)
    requires k < |Lines(f)|
    ensures |Lines(f)[k]| <= |f|
  {
    if k > 0 {
      LinesAreShort(f[Find(NEWLINE, f) + 1..], k - 1);
    }
  }

  /** The bytes of a line are bytes of the text. */
  lemma {:induction false} LineOfText(f: seq<byte>, k: nat)
    requires k < |Lines(f)|
    ensures forall i :: 0 <= i < |Lines(f)[k]| ==> Lines(f)[k][i] in f
  {
    if k > 0 {
      LineOfText(f[Find(NEWLINE, f) + 1..], k - 1);
    }
  }
}
