/** Command lines: the emulator's in-place tokeniser and its joiner, and the
    kernel's way from execute to getargs. */
module Arguments {
  import opened Bytes

  // ------------------------------------------------------------------- words

  predicate EndsWord(c: byte) {
    c == NUL || c == SPACE || c == NEWLINE
  }

  /** Where the word at the start of s ends. */
  function WordEnd(s: seq<byte>): (n: nat)
    ensures n <= |s|
    ensures forall k :: 0 <= k < n ==> !EndsWord(s[k])
    ensures n < |s| ==> EndsWord(s[n])
  {
    if s == [] || EndsWord(s[0]) then 0 else 1 + WordEnd(s[1..])
  }

  lemma WordEndIs(s: seq<byte>, n: nat)
    requires n <= |s| && (forall k :: 0 <= k < n ==> !EndsWord(s[k])) && (n < |s| ==> EndsWord(s[n]))
    ensures WordEnd(s) == n
  {
  }

  /** The words of s between spaces. */
  function Words(s: seq<byte>): seq<seq<byte>> {
    if s == [] then []
    else if s[0] == SPACE then Words(s[1..])
    else
      var n := Find(SPACE, s);
      assert n > 0;
      [s[..n]] + Words(s[n..])
  }

  /** The arguments the tokeniser finds in s: words that a space or a newline
      ends; a newline where a word could start ends the scan. */
  function ArgsOf(s: seq<byte>): seq<seq<byte>>
    requires NulFree(s)
    decreases |s|
  {
    if s == [] || s[0] == NEWLINE then []
    else if s[0] == SPACE then ArgsOf(s[1..])
    else
      var n := WordEnd(s);
      [s[..n]] + if n < |s| then ArgsOf(s[n + 1..]) else []
  }

  /** A command without newlines, or with just a final one, is cut into its words. */
  lemma {:induction false} ArgsAreWords(s: seq<byte>)
    requires NulFree(s) && NEWLINE !in s
    ensures ArgsOf(s) == Words(s)
    ensures ArgsOf(s + [NEWLINE]) == Words(s)
    decreases |s|
  {
    if s != [] {
      if s[0] == SPACE {
        assert (s + [NEWLINE])[1..] == s[1..] + [NEWLINE];
        ArgsAreWords(s[1..]);
      } else {
        var n := Find(SPACE, s);
        WordEndIs(s, n);
        WordEndIs(s + [NEWLINE], n);
        assert (s + [NEWLINE])[..n] == s[..n];
        if n < |s| {
          assert (s + [NEWLINE])[n + 1..] == s[n + 1..] + [NEWLINE];
          assert s[n..][1..] == s[n + 1..];
          ArgsAreWords(s[n + 1..]);
        } else {
          assert (s + [NEWLINE])[n + 1..] == [] && s[n..] == [];
        }
      }
    }
  }

  /** The arguments with single spaces between them. */
  function Join(args: seq<seq<byte>>): seq<byte> {
    if args == [] then []
    else if |args| == 1 then args[0]
    else args[0] + [SPACE] + Join(args[1..])
  }

  ghost predicate IsWord(w: seq<byte>) {
    w != [] && forall k :: 0 <= k < |w| ==> !EndsWord(w[k])
  }

  lemma {:induction false} ArgsAreIsWords(s: seq<byte>)
    requires NulFree(s)
    ensures forall k :: 0 <= k < |ArgsOf(s)| ==> IsWord(ArgsOf(s)[k])
    decreases |s|
  {
    if s != [] && s[0] != NEWLINE {
      if s[0] == SPACE {
        ArgsAreIsWords(s[1..]);
      } else {
        var n := WordEnd(s);
        assert IsWord(s[..n]);
        if n < |s| {
          ArgsAreIsWords(s[n + 1..]);
        }
      }
    }
  }

  lemma {:induction false} JoinNulFree(args: seq<seq<byte>>)
    requires forall k :: 0 <= k < |args| ==> NulFree(args[k])
    ensures NulFree(Join(args))
  {
    if |args| > 1 {
      JoinNulFree(args[1..]);
    }
  }

  /** Tokenising joined words gives the words back. */
  lemma {:induction false} ArgsOfJoin(args: seq<seq<byte>>)
    requires forall k :: 0 <= k < |args| ==> IsWord(args[k])
    ensures NulFree(Join(args)) && ArgsOf(Join(args)) == args
  {
    JoinNulFree(args);
    if args != [] {
      var s := Join(args);
      var w := args[0];
      assert IsWord(w);
      assert s[..|w|] == w;
      WordEndIs(s, |w|);
      if |args| > 1 {
        ArgsOfJoin(args[1..]);
        assert s[|w| + 1..] == Join(args[1..]);
      } else {
        assert args == [w];
      }
    }
  }

  /** Joining the arguments of any command and tokenising the result again
      gives the same arguments. */
  lemma Retokenised(s: seq<byte>)
    requires NulFree(s)
    ensures NulFree(Join(ArgsOf(s))) && ArgsOf(Join(ArgsOf(s))) == ArgsOf(s)
  {
    ArgsAreIsWords(s);
    ArgsOfJoin(ArgsOf(s));
  }

  // -------------------------------------------------------------- tokeniser

  /** From `scan` on the buffer still holds the text and its terminator. */
  ghost predicate Intact(buf: array<byte>, scan: nat, text: seq<byte>)
    reads buf
  {
    && NulFree(text) && scan <= |text| < buf.Length
    && (forall k :: scan <= k < |text| ==> buf[k] == text[k])
    && buf[|text|] == NUL
  }

  /** The end of the word at `scan`. */
  method ScanWord(buf: array<byte>, scan: nat, ghost text: seq<byte>) returns (end: nat)
    requires Intact(buf, scan, text)
    ensures end == scan + WordEnd(text[scan..])
  {
    end := scan;
    while buf[end] != NUL && buf[end] != SPACE && buf[end] != NEWLINE
      invariant scan <= end <= |text|
      invariant forall k :: scan <= k < end ==> !EndsWord(text[k])
      decreases |text| - end
    {
      end := end + 1;
    }
    WordEndIs(text[scan..], end - scan);
  }

  method SkipSpaces(buf: array<byte>, scan0: nat, ghost text: seq<byte>) returns (scan: nat)
    requires Intact(buf, scan0, text)
    ensures scan0 <= scan <= |text| && buf[scan] != SPACE
    ensures ArgsOf(text[scan..]) == ArgsOf(text[scan0..])
  {
    scan := scan0;
    while buf[scan] == SPACE
      invariant scan0 <= scan <= |text|
      invariant ArgsOf(text[scan..]) == ArgsOf(text[scan0..])
      decreases |text| - scan
    {
      SpaceSkipped(text, scan);
      scan := scan + 1;
    }
  }

  lemma SpaceSkipped(text: seq<byte>, scan: nat)
    requires NulFree(text) && scan < |text| && text[scan] == SPACE
    ensures NulFree(text[scan..]) && NulFree(text[scan + 1..])
    ensures ArgsOf(text[scan..]) == ArgsOf(text[scan + 1..])
  {
    assert text[scan..][1..] == text[scan + 1..];
  }

  /** Every argument pointer points to its argument, whose terminator is
      before index `scan` or is the text's own. */
  ghost predicate PointTo(buf: array<byte>, args: seq<nat>, tokens: seq<seq<byte>>, scan: nat, length: nat)
    reads buf
  {
    && |args| == |tokens|
    && forall k :: 0 <= k < |args| ==>
         && Holds(buf, args[k], tokens[k])
         && (args[k] + |tokens[k]| < scan || (args[k] + |tokens[k]| == length <= scan))
  }

  /** The word in [scan0, end) is terminated and becomes an argument. */
  method EndWord(buf: array<byte>, scan0: nat, end: nat, args0: seq<nat>,
                 ghost text: seq<byte>, ghost tokens: seq<seq<byte>>)
    returns (scan: nat, args: seq<nat>)
    requires Intact(buf, scan0, text) && scan0 < end <= |text|
    requires PointTo(buf, args0, tokens, scan0, |text|)
    modifies buf
    ensures scan == (if end < |text| then end + 1 else end) && Intact(buf, scan, text)
    ensures PointTo(buf, args, tokens + [text[scan0..end]], scan, |text|)
  {
    args := args0 + [scan0];
    scan := end;
    if buf[scan] != NUL {
      buf[scan] := NUL;
      scan := scan + 1;
    }
    assert Holds(buf, scan0, text[scan0..end]);
    assert forall k :: 0 <= k < |args0| ==> Holds(buf, args0[k], tokens[k]);
  }

  /** The word at `scan` becomes an argument. */
  method TakeWord(buf: array<byte>, scan0: nat, args0: seq<nat>, ghost text: seq<byte>, ghost tokens: seq<seq<byte>>)
    returns (scan: nat, args: seq<nat>, ghost taken: seq<seq<byte>>)
    requires Intact(buf, scan0, text) && scan0 < |text| && !EndsWord(text[scan0])
    requires PointTo(buf, args0, tokens, scan0, |text|)
    modifies buf
    ensures scan0 < scan && Intact(buf, scan, text) && PointTo(buf, args, taken, scan, |text|)
    ensures taken + ArgsOf(text[scan..]) == tokens + ArgsOf(text[scan0..])
  {
    var end := ScanWord(buf, scan0, text);
    scan, args := EndWord(buf, scan0, end, args0, text, tokens);
    taken := tokens + [text[scan0..end]];
    ArgsOfAt(text, scan0, end, scan);
    OneTaken(tokens, text[scan0..end], ArgsOf(text[scan..]), ArgsOf(text[scan0..]));
  }

  /** The argument loop of ece391_execute. */
  method TakeWords(buf: array<byte>, scan0: nat, args0: seq<nat>, ghost text: seq<byte>, ghost tokens: seq<seq<byte>>)
    returns (args: seq<nat>)
    requires Intact(buf, scan0, text) && PointTo(buf, args0, tokens, scan0, |text|)
    modifies buf
    ensures PointTo(buf, args, tokens + ArgsOf(text[scan0..]), |text| + 1, |text|)
  {
    args := args0;
    var scan := scan0;
    ghost var taken := tokens;
    while true
      invariant Intact(buf, scan, text) && PointTo(buf, args, taken, scan, |text|)
      invariant taken + ArgsOf(text[scan..]) == tokens + ArgsOf(text[scan0..])
      decreases |text| - scan
    {
      scan := SkipSpaces(buf, scan, text);
      if buf[scan] == NUL || buf[scan] == NEWLINE {
        NoMoreArgs(text, scan, taken);
        buf[scan] := NUL;
        assert forall k :: 0 <= k < |args| ==> Holds(buf, args[k], taken[k]);
        return;
      }
      scan, args, taken := TakeWord(buf, scan, args, text, taken);
    }
  }

  lemma NoMoreArgs(text: seq<byte>, scan: nat, taken: seq<seq<byte>>)
    requires NulFree(text) && scan <= |text| && (scan < |text| ==> text[scan] == NEWLINE)
    ensures taken + ArgsOf(text[scan..]) == taken
  {
  }

  lemma FirstArg(word: seq<byte>, end: byte, rest: seq<byte>)
    requires NulFree(word + [end] + rest) && IsWord(word) && EndsWord(end)
    ensures NulFree(rest) && ArgsOf(word + [end] + rest) == [word] + ArgsOf(rest)
  {
    var s := word + [end] + rest;
    WordEndIs(s, |word|);
    assert s[..|word|] == word && s[|word| + 1..] == rest;
    assert forall k :: 0 <= k < |rest| ==> rest[k] == s[|word| + 1 + k];
  }

  lemma OnlyArg(word: seq<byte>)
    requires NulFree(word) && IsWord(word)
    ensures ArgsOf(word) == [word]
  {
    WordEndIs(word, |word|);
    assert word[..|word|] == word;
  }

  lemma Slices(text: seq<byte>, scan: nat, end: nat)
    requires scan <= end <= |text|
    ensures text[scan..][..end - scan] == text[scan..end]
    ensures end < |text| ==> text[scan..] == text[scan..end] + [text[end]] + text[end + 1..]
    ensures end == |text| ==> text[scan..] == text[scan..end] && text[end..] == []
  {
  }

  lemma WordAt(text: seq<byte>, scan: nat, end: nat)
    requires scan < |text| && !EndsWord(text[scan]) && end == scan + WordEnd(text[scan..])
    ensures IsWord(text[scan..end]) && (end < |text| ==> EndsWord(text[end]))
    ensures NulFree(text) ==> NulFree(text[scan..]) && NulFree(text[scan..end])
  {
    var s := text[scan..];
    assert s[0] == text[scan];
    forall k | scan <= k < end ensures !EndsWord(text[k]) {
      assert s[k - scan] == text[k];
    }
    if end < |text| {
      assert s[end - scan] == text[end];
    }
    assert forall k :: 0 <= k < end - scan ==> text[scan..end][k] == text[scan + k];
  }

  lemma ArgsOfAt(text: seq<byte>, scan: nat, end: nat, next: nat)
    requires NulFree(text) && scan < |text| && !EndsWord(text[scan]) && end == scan + WordEnd(text[scan..])
    requires next == if end < |text| then end + 1 else end
    ensures ArgsOf(text[scan..]) == [text[scan..end]] + ArgsOf(text[next..])
  {
    WordAt(text, scan, end);
    Slices(text, scan, end);
    if end < |text| {
      FirstArg(text[scan..end], text[end], text[next..]);
    } else {
      OnlyArg(text[scan..end]);
    }
  }

  lemma OneTaken(tokens: seq<seq<byte>>, word: seq<byte>, rest: seq<seq<byte>>, all: seq<seq<byte>>)
    requires all == [word] + rest
    ensures (tokens + [word]) + rest == tokens + all
  {
  }

  /** What ece391_execute passes on: the program's path and the arguments. */
  function CommandLine(command: seq<byte>): seq<seq<byte>>
    requires NulFree(command)
  {
    var n := WordEnd(command);
    [Ascii("./") + command[..n]] + if n < |command| then ArgsOf(command[n + 1..]) else []
  }

  lemma NameAndRest(name: seq<byte>, rest: seq<byte>)
    requires IsWord(name) && NulFree(rest)
    ensures NulFree(name + [SPACE] + rest)
    ensures CommandLine(name + [SPACE] + rest) == [Ascii("./") + name] + ArgsOf(rest)
  {
    var command := name + [SPACE] + rest;
    WordEndIs(command, |name|);
    assert command[..|name|] == name && command[|name| + 1..] == rest;
  }

  lemma NameAlone(name: seq<byte>)
    requires IsWord(name)
    ensures NulFree(name) && CommandLine(name) == [Ascii("./") + name]
  {
    WordEndIs(name, |name|);
    assert name[..|name|] == name;
  }

  /** Spaces in front of a command leave the path empty. */
  lemma SpaceInFront(command: seq<byte>)
    requires NulFree(command)
    ensures NulFree([SPACE] + command) && CommandLine([SPACE] + command) == [Ascii("./")] + ArgsOf(command)
  {
    WordEndIs([SPACE] + command, 0);
    assert ([SPACE] + command)[1..] == command;
    assert Ascii("./") + ([SPACE] + command)[..0] == Ascii("./");
  }

  /** A name and arguments with single spaces between them are passed on as
      they are, the name as a path. */
  lemma CommandLineIs(name: seq<byte>, args: seq<seq<byte>>)
    requires IsWord(name) && forall k :: 0 <= k < |args| ==> IsWord(args[k])
    ensures var command := Join([name] + args);
            NulFree(command) && CommandLine(command) == [Ascii("./") + name] + args
  {
    var words := [name] + args;
    assert words[1..] == args;
    if args == [] {
      NameAlone(name);
    } else {
      ArgsOfJoin(args);
      NameAndRest(name, Join(args));
    }
  }

  /** ece391_strcpy of a word into the buffer, its terminator included. */
  method CopyWord(buf: array<byte>, at: nat, w: seq<byte>)
    requires NulFree(w) && at + |w| < buf.Length
    modifies buf
    ensures Holds(buf, at, w)
    ensures forall k :: 0 <= k < buf.Length && (k < at || at + |w| < k) ==> buf[k] == old(buf[k])
  {
    var i := 0;
    while i < |w|
      invariant i <= |w|
      invariant forall k :: 0 <= k < buf.Length ==> buf[k] == if at <= k < at + i then w[k - at] else old(buf[k])
    {
      buf[at + i] := w[i];
      i := i + 1;
    }
    buf[at + |w|] := NUL;
  }

  function PathText(command: seq<byte>): (t: seq<byte>)
    ensures |t| == |command| + 2 && t[2..] == command
    ensures NulFree(command) ==> NulFree(t)
  {
    Ascii("./") + command
  }

  /** The buffer's first two bytes and the copy of the command behind them. */
  method LoadCommand(command: seq<byte>, buf: array<byte>)
    requires NulFree(command) && |command| <= 1023 && buf.Length == 1026
    modifies buf
    ensures Intact(buf, 0, PathText(command))
  {
    buf[0], buf[1] := Ascii("./")[0], Ascii("./")[1];
    CopyWord(buf, 2, command);
    ghost var text := PathText(command);
    forall k | 0 <= k < |text| ensures buf[k] == text[k] {
      if k >= 2 {
        assert text[k] == command[k - 2];
      }
    }
  }

  /** ece391_execute up to the fork: the command is tokenised in place. */
  method Tokenise(command: seq<byte>, buf: array<byte>) returns (r: int, args: seq<nat>)
    requires NulFree(command) && buf.Length == 1026
    modifies buf
    ensures |command| > 1023 ==> r == FAILURE && buf[..] == old(buf[..])
    ensures |command| <= 1023 ==> r == SUCCESS && PointTo(buf, args, CommandLine(command), |command| + 3, |command| + 2)
  {
    if 1023 < |command| {
      return FAILURE, [];
    }
    LoadCommand(command, buf);
    args := TokeniseLoaded(command, buf);
    return SUCCESS, args;
  }

  method TokeniseLoaded(command: seq<byte>, buf: array<byte>) returns (args: seq<nat>)
    requires NulFree(command) && Intact(buf, 0, PathText(command))
    modifies buf
    ensures PointTo(buf, args, CommandLine(command), |command| + 3, |command| + 2)
  {
    ghost var text := PathText(command);
    var scan := ScanWord(buf, 2, text);
    ghost var path := text[..scan];
    PathIs(command, scan);
    args := [0];
    if buf[scan] != NUL {
      buf[scan] := NUL;
      assert Holds(buf, 0, path);
      args := TakeWords(buf, scan + 1, args, text, [path]);
      assert [path] + ArgsOf(text[scan + 1..]) == CommandLine(command);
    } else {
      assert Holds(buf, 0, path);
    }
  }

  lemma PathIs(command: seq<byte>, scan: nat)
    requires NulFree(command) && scan == 2 + WordEnd(PathText(command)[2..])
    ensures var text := PathText(command);
            CommandLine(command) == [text[..scan]] + if scan < |text| then ArgsOf(text[scan + 1..]) else []
    ensures scan == |PathText(command)| ==> CommandLine(command) == [PathText(command)[..scan]]
  {
    var text := PathText(command);
    assert text[..scan] == Ascii("./") + command[..scan - 2];
    if scan < |text| {
      assert text[scan + 1..] == command[scan - 1..];
    }
  }

  // ----------------------------------------------------------------- joiner

  lemma JoinSplit(args: seq<seq<byte>>, k: nat)
    requires 0 < k < |args|
    ensures Join(args[..k + 1]) == Join(args[..k]) + [SPACE] + args[k]
  {
    JoinSnoc(args[..k], args[k]);
    assert args[..k] + [args[k]] == args[..k + 1];
  }

  lemma {:induction false} JoinSnoc(args: seq<seq<byte>>, w: seq<byte>)
    requires args != []
    ensures Join(args + [w]) == Join(args) + [SPACE] + w
  {
    if |args| == 1 {
      assert (args + [w])[1..] == [w];
    } else {
      JoinSnoc(args[1..], w);
      assert (args + [w])[1..] == args[1..] + [w];
    }
  }

  lemma {:induction false} JoinGrows(args: seq<seq<byte>>, k: nat)
    requires k <= |args|
    ensures |Join(args[..k])| <= |Join(args)|
    ensures 0 < k < |args| ==> |Join(args[..k])| < |Join(args)|
    decreases |args| - k
  {
    if k < |args| {
      JoinGrows(args, k + 1);
      if k > 0 {
        JoinSplit(args, k);
      } else {
        assert Join(args[..0]) == [];
      }
    } else {
      assert args[..k] == args;
    }
  }


  /** What the joiner has written before argument k. */
  ghost function Prefix(args: seq<seq<byte>>, k: nat): seq<byte>
    requires k <= |args|
  {
    if k == 0 then [] else Join(args[..k]) + [SPACE]
  }

  lemma PrefixNext(args: seq<seq<byte>>, k: nat)
    requires k < |args|
    ensures Prefix(args, k) + args[k] == Join(args[..k + 1])
    ensures |Join(args[..k + 1])| <= |Join(args)|
    ensures k + 1 < |args| ==> |Join(args[..k + 1])| < |Join(args)|
    ensures k + 1 == |args| ==> Join(args[..k + 1]) == Join(args)
  {
    if k == 0 {
      assert args[..1] == [args[0]];
    } else {
      JoinSplit(args, k);
    }
    JoinGrows(args, k + 1);
    if k + 1 == |args| {
      assert args[..k + 1] == args;
    }
  }

  /** Some first arguments, joined, are exactly n bytes long: the terminator
      of the last of them belongs at index n. */
  ghost predicate Hits(args: seq<seq<byte>>, n: int) {
    exists k :: 0 < k <= |args| && |Join(args[..k])| == n
  }

  lemma {:induction false} PrefixesGrow(args: seq<seq<byte>>, j: nat, k: nat)
    requires 0 < j < k <= |args|
    ensures |Join(args[..j])| < |Join(args[..k])|
  {
    JoinSplit(args, k - 1);
    if j < k - 1 {
      PrefixesGrow(args, j, k - 1);
    }
  }

  /** Which of the joined prefixes can hit n, given the length of one. */
  lemma HitsOnlyAt(args: seq<seq<byte>>, n: int, k: nat)
    requires 0 < k <= |args|
    requires k > 1 ==> |Join(args[..k - 1])| < n
    ensures |Join(args[..k])| == n ==> Hits(args, n)
    ensures |Join(args[..k])| > n ==> !Hits(args, n)
    ensures |Join(args[..k])| < n && k == |args| ==> !Hits(args, n)
  {
    forall j | 0 < j <= |args| && j != k
      ensures if j < k then |Join(args[..j])| < n || k == 1 else |Join(args[..j])| > |Join(args[..k])|
    {
      if j < k - 1 {
        PrefixesGrow(args, j, k - 1);
      } else if j > k {
        PrefixesGrow(args, k, j);
      }
    }
  }

  /** Argument k and its terminator are added to what has been written. */
  method AppendWord(buf: array<byte>, w: seq<byte>, pos: nat, ghost args: seq<seq<byte>>, ghost k: nat)
    requires k < |args| && w == args[k] && NulFree(w) && pos == |Prefix(args, k)| && pos + |w| < buf.Length
    requires forall i :: 0 <= i < pos ==> buf[i] == Prefix(args, k)[i]
    modifies buf
    ensures pos + |w| == |Join(args[..k + 1])|
    ensures forall i :: 0 <= i < pos + |w| ==> buf[i] == Join(args[..k + 1])[i]
    ensures buf[pos + |w|] == NUL
    ensures forall i :: pos + |w| < i < buf.Length ==> buf[i] == old(buf[i])
  {
    PrefixNext(args, k);
    CopyWord(buf, pos, w);
  }

  /** The buffer begins with the text. */
  ghost predicate Begins(buf: array<byte>, text: seq<byte>)
    reads buf
  {
    |text| <= buf.Length && forall i :: 0 <= i < |text| ==> buf[i] == text[i]
  }

  /** Room for nbytes bytes, and for one more if a terminator is to go there. */
  ghost predicate Room(length: nat, args: seq<seq<byte>>, nbytes: int) {
    nbytes < length || (nbytes == length && !Hits(args, nbytes))
  }

  /** One argument is added, if it fits in the `left` bytes there are. */
  method TakeArg(buf: array<byte>, w: seq<byte>, pos0: nat, left: int, ghost nbytes: int,
                 ghost args: seq<seq<byte>>, ghost k: nat)
    returns (ok: bool, pos: nat)
    requires k < |args| && w == args[k] && NulFree(w) && Room(buf.Length, args, nbytes)
    requires pos0 == |Prefix(args, k)| && Begins(buf, Prefix(args, k)) && left == nbytes - pos0
    requires k > 0 ==> |Join(args[..k])| < nbytes
    modifies buf
    ensures pos == pos0 + |w| == |Join(args[..k + 1])| && (ok <==> pos <= nbytes)
    ensures ok ==> Begins(buf, Join(args[..k + 1]))
    ensures 0 <= nbytes < buf.Length ==> buf[nbytes] == if pos == nbytes then NUL else old(buf[nbytes])
    ensures forall i :: 0 <= i < buf.Length && nbytes < i ==> buf[i] == old(buf[i])
    ensures pos >= nbytes || k + 1 == |args| ==> (Hits(args, nbytes) <==> pos == nbytes)
    ensures k + 1 == |args| ==> Join(args[..k + 1]) == Join(args)
    ensures k + 1 < |args| ==> pos < |Join(args)|
  {
    PrefixNext(args, k);
    HitsOnlyAt(args, nbytes, k + 1);
    ok, pos := |w| <= left, pos0 + |w|;
    if ok {
      AppendWord(buf, w, pos0, args, k);
    }
  }

  /** Arguments that fit need no room past nbytes; a first argument of nbytes does. */
  lemma {:induction false} HitsOrFits(args: seq<seq<byte>>, nbytes: int)
    ensures |Join(args)| < nbytes ==> !Hits(args, nbytes)
    ensures args != [] && |args[0]| == nbytes ==> Hits(args, nbytes)
  {
    forall k | 0 < k <= |args| ensures |Join(args[..k])| <= |Join(args)| {
      JoinGrows(args, k);
    }
    if args != [] {
      assert args[..1] == [args[0]];
      assert |Join(args[..1])| == |args[0]|;
    }
  }

  /** The emulator's ece391_getargs: the arguments after the program's name,
      joined by spaces.  The byte just past the nbytes it was given is
      overwritten exactly when some first arguments, joined, are nbytes long;
      every other call is content with a buffer of nbytes bytes. */
  method JoinArgs(argv: seq<seq<byte>>, buf: array<byte>, nbytes: int) returns (r: int)
    requires |argv| > 0 && forall k :: 0 <= k < |argv| ==> NulFree(argv[k])
    requires Room(buf.Length, argv[1..], nbytes)
    modifies buf
    ensures r == SUCCESS || r == FAILURE
    ensures r == SUCCESS <==> |Join(argv[1..])| < nbytes
    ensures r == SUCCESS ==> Holds(buf, 0, Join(argv[1..]))
    ensures 0 <= nbytes < buf.Length ==> buf[nbytes] == if Hits(argv[1..], nbytes) then NUL else old(buf[nbytes])
    ensures forall i :: 0 <= i < buf.Length && nbytes < i ==> buf[i] == old(buf[i])
  {
    ghost var args := argv[1..];
    var idx: nat, pos: nat, left: int := 1, 0, nbytes;
    JoinNulFree(args);
    while idx < |argv|
      invariant 1 <= idx <= |argv| && (idx < |argv| || args == [])
      invariant left == nbytes - pos && pos == |Prefix(args, idx - 1)|
      invariant idx > 1 ==> |Join(args[..idx - 1])| < nbytes
      invariant Begins(buf, Prefix(args, idx - 1))
      invariant forall i :: 0 <= i < buf.Length && nbytes <= i ==> buf[i] == old(buf[i])
    {
      assert args[idx - 1] == argv[idx];
      var ok;
      ok, pos := TakeArg(buf, argv[idx], pos, left, nbytes, args, idx - 1);
      if !ok {
        return FAILURE;
      }
      left := left - |argv[idx]|;
      idx := idx + 1;
      if idx >= |argv| {
        break;
      }
      if left < 1 {
        return FAILURE;
      }
      buf[pos] := SPACE;
      pos, left := pos + 1, left - 1;
    }
    if left < 1 {
      return FAILURE;
    }
    buf[pos] := NUL;
    return SUCCESS;
  }

  // ----------------------------------------------------------------- kernel

  /** The name in front of a command, of which execute takes 32 bytes at most. */
  function NameOf(command: seq<byte>): (name: seq<byte>)
    ensures |name| <= 32
  {
    command[..Min(WordEnd(command), 32)]
  }

  /** What execute takes for the arguments: all between the space after the
      name and the end of the line. */
  function ArgumentText(command: seq<byte>): seq<byte> {
    var n := |NameOf(command)|;
    if n < |command| && command[n] == SPACE then
      var rest := command[n + 1..];
      rest[..Find(NEWLINE, rest)]
    else []
  }

  /** Of a longer name 32 bytes are taken, and then there are no arguments, as
      there are none if anything but a space is behind the name. */
  lemma NameIs(word: seq<byte>, rest: seq<byte>)
    requires IsWord(word) && (rest == [] || EndsWord(rest[0]))
    ensures NameOf(word + rest) == if |word| <= 32 then word else word[..32]
    ensures |word| > 32 || rest == [] || rest[0] != SPACE ==> ArgumentText(word + rest) == []
  {
    WordEndIs(word + rest, |word|);
    assert |word| > 32 ==> !EndsWord((word + rest)[32]);
  }

  /** The first n bytes are cleared. */
  method ZeroFill(a: array<byte>, n: nat)
    requires n <= a.Length
    modifies a
    ensures forall k :: 0 <= k < a.Length ==> a[k] == if k < n then NUL else old(a[k])
  {
    var i := 0;
    while i < n
      invariant i <= n && forall k :: 0 <= k < a.Length ==> a[k] == if k < i then NUL else old(a[k])
    {
      a[i] := NUL;
      i := i + 1;
    }
  }

  /** The name loop of execute; a name of 32 bytes or more puts its terminator
      at index 32. */
  method TakeName(command: seq<byte>, cmds: array<byte>) returns (i: nat)
    requires NulFree(command) && |NameOf(command)| < cmds.Length
    modifies cmds
    ensures i == |NameOf(command)| && Holds(cmds, 0, NameOf(command))
    ensures forall k :: |NameOf(command)| < k < cmds.Length ==> cmds[k] == old(cmds[k])
  {
    i := 0;
    while i < 32 && CharAt(command, i) != NUL && CharAt(command, i) != SPACE && CharAt(command, i) != NEWLINE
      invariant 0 <= i <= |NameOf(command)|
      invariant forall k :: 0 <= k < i ==> cmds[k] == command[k]
      invariant forall k :: i <= k < cmds.Length ==> cmds[k] == old(cmds[k])
    {
      cmds[i] := command[i];
      i := i + 1;
    }
    cmds[i] := NUL;
  }

  lemma FindFrom(c: byte, s: seq<byte>, from: nat)
    requires from <= |s|
    ensures var n := from + Find(c, s[from..]);
            && (forall k :: from <= k < n ==> s[k] != c)
            && (n < |s| ==> s[n] == c)
  {
    forall k | from <= k < from + Find(c, s[from..]) ensures s[k] != c {
      assert s[from..][k - from] == s[k];
    }
  }

  /** The argument loop of execute, from index `from` of the command on. */
  method TakeArguments(command: seq<byte>, from: nat, argDat: array<byte>)
    requires NulFree(command) && from <= |command| && Find(NEWLINE, command[from..]) < argDat.Length
    modifies argDat
    ensures Holds(argDat, 0, command[from..from + Find(NEWLINE, command[from..])])
    ensures forall k :: Find(NEWLINE, command[from..]) < k < argDat.Length ==> argDat[k] == old(argDat[k])
  {
    ghost var m := Find(NEWLINE, command[from..]);
    FindFrom(NEWLINE, command, from);
    var i := 0;
    while CharAt(command, i + from) != NEWLINE && CharAt(command, i + from) != NUL
      invariant 0 <= i <= m
      invariant forall k :: 0 <= k < i ==> argDat[k] == command[from + k]
      invariant forall k :: i <= k < argDat.Length ==> argDat[k] == old(argDat[k])
      decreases m - i
    {
      argDat[i] := command[i + from];
      i := i + 1;
    }
    argDat[i] := NUL;
  }

  lemma RestIs(command: seq<byte>, len: nat)
    requires len == |NameOf(command)| < |command| && command[len] == SPACE
    ensures ArgumentText(command) == command[len + 1..len + 1 + Find(NEWLINE, command[len + 1..])]
  {
    var rest := command[len + 1..];
    assert rest[..Find(NEWLINE, rest)] == command[len + 1..len + 1 + Find(NEWLINE, rest)];
  }

  /** The argument part of the parse, behind a name of len bytes. */
  method TakeRest(command: seq<byte>, len: nat, argDat: array<byte>)
    requires NulFree(command) && len == |NameOf(command)|
    requires argDat.Length >= 128 && argDat[0] == NUL && |ArgumentText(command)| < argDat.Length
    modifies argDat
    ensures Holds(argDat, 0, ArgumentText(command))
    ensures forall k :: |ArgumentText(command)| < k < argDat.Length ==> argDat[k] == old(argDat[k])
  {
    if CharAt(command, len) == SPACE {
      RestIs(command, len);
      TakeArguments(command, len + 1, argDat);
    }
  }

  /** The parse of execute.  It stays within the kernel's buffers, of 32 and
      128 bytes, exactly if the name has at most 31 bytes and the argument text at
      most 127; otherwise the bytes behind them are taken as well. */
  method ParseCommand(command: seq<byte>, cmds: array<byte>, argDat: array<byte>) returns (r: int)
    requires NulFree(command) && cmds != argDat
    requires cmds.Length >= 32 && |NameOf(command)| < cmds.Length
    requires argDat.Length >= 128 && |ArgumentText(command)| < argDat.Length
    modifies cmds, argDat
    ensures r == if NameOf(command) == [] then FAILURE else SUCCESS
    ensures r == SUCCESS ==> Holds(cmds, 0, NameOf(command)) && Holds(argDat, 0, ArgumentText(command))
    ensures forall k :: Max(31, |NameOf(command)|) < k < cmds.Length ==> cmds[k] == old(cmds[k])
    ensures forall k :: Max(127, |ArgumentText(command)|) < k < argDat.Length ==> argDat[k] == old(argDat[k])
  {
    ZeroFill(argDat, 128);
    ZeroFill(cmds, 32);
    var i := TakeName(command, cmds);
    if i == 0 {
      return FAILURE;
    }
    var len := Strlen(cmds, 0, NameOf(command));
    TakeRest(command, len, argDat);
    return SUCCESS;
  }

  /** strcpy of a string from one array to another. */
  method StrcpyAll(dest: array<byte>, src: array<byte>, ghost text: seq<byte>)
    requires Holds(src, 0, text) && |text| < dest.Length && dest != src
    modifies dest
    ensures Holds(dest, 0, text)
    ensures forall k :: |text| < k < dest.Length ==> dest[k] == old(dest[k])
  {
    var i := 0;
    while src[i] != NUL
      invariant i <= |text|
      invariant forall k :: 0 <= k < dest.Length ==> dest[k] == if k < i then text[k] else old(dest[k])
      decreases |text| - i
    {
      dest[i] := src[i];
      i := i + 1;
    }
    dest[i] := NUL;
  }

  /** getargs: the process's argument text, exactly if it fits with its terminator. */
  method Getargs(pcbArgs: array<byte>, buf: array<byte>, nbytes: int, ghost text: seq<byte>) returns (r: int)
    requires Holds(pcbArgs, 0, text) && pcbArgs != buf && nbytes <= buf.Length
    modifies buf
    ensures r == if nbytes >= |text| + 1 then SUCCESS else FAILURE
    ensures r == SUCCESS ==> Holds(buf, 0, text) && forall k :: |text| < k < buf.Length ==> buf[k] == old(buf[k])
    ensures r == FAILURE ==> buf[..] == old(buf[..])
  {
    if nbytes <= 0 {
      return FAILURE;
    }
    var len := Strlen(pcbArgs, 0, text);
    if nbytes < len + 1 {
      return FAILURE;
    }
    StrcpyAll(buf, pcbArgs, text);
    return SUCCESS;
  }

  /** From the command line given to execute to the buffer given to getargs. */
  method PassArguments(command: seq<byte>, cmds: array<byte>, argDat: array<byte>, pcbArgs: array<byte>,
                       buf: array<byte>, nbytes: int) returns (r: int)
    requires NulFree(command) && NameOf(command) != []
    requires cmds.Length >= 32 && |NameOf(command)| < cmds.Length
    requires argDat.Length >= 128 && |ArgumentText(command)| < argDat.Length
    requires pcbArgs.Length >= 128 && |ArgumentText(command)| < pcbArgs.Length && nbytes <= buf.Length
    requires cmds != argDat && argDat != pcbArgs && pcbArgs != buf && buf != cmds && buf != argDat
    modifies cmds, argDat, pcbArgs, buf
    ensures r == if nbytes >= |ArgumentText(command)| + 1 then SUCCESS else FAILURE
    ensures r == SUCCESS ==> Holds(buf, 0, ArgumentText(command))
    ensures r == FAILURE ==> buf[..] == old(buf[..])
  {
    var parsed := ParseCommand(command, cmds, argDat);
    StrcpyAll(pcbArgs, argDat, ArgumentText(command));
    r := Getargs(pcbArgs, buf, nbytes, ArgumentText(command));
  }

  /** The argument text of "name args" is args verbatim, at the end of the
      command as well as in front of a newline and whatever comes after it. */
  lemma ArgumentsVerbatim(name: seq<byte>, args: seq<byte>, rest: seq<byte>)
    requires IsWord(name) && |name| <= 32 && NulFree(args) && NEWLINE !in args
    ensures NameOf(name + [SPACE] + args) == name && ArgumentText(name + [SPACE] + args) == args
    ensures var command := name + [SPACE] + args + [NEWLINE] + rest;
            NameOf(command) == name && ArgumentText(command) == args
  {
    var c, d := name + [SPACE] + args, name + [SPACE] + args + [NEWLINE] + rest;
    WordEndIs(c, |name|);
    WordEndIs(d, |name|);
    assert c[..|name|] == name && d[..|name|] == name;
    assert c[|name| + 1..] == args && d[|name| + 1..] == args + [NEWLINE] + rest;
    FindIs(NEWLINE, args, |args|);
    FindIs(NEWLINE, args + [NEWLINE] + rest, |args|);
  }
}
