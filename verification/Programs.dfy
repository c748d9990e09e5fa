/** The user programs cat and ls on top of the system calls.  What they write
    to descriptor 1 is returned as `out`. */
module Programs {
  import opened Bytes
  import opened Text
  import opened FileSystem
  import opened Directory
  import opened Descriptors

  function FileNotFound(): seq<byte> {
    Ascii("file not found\n")
  }

  function DirectoryOpenFailed(): seq<byte> {
    Ascii("directory open failed\n")
  }

  /** One read of cat's loop: it delivers the next bytes of the file, and none
      only at its end. */
  method CopyNext(p: Process, fd: nat, buf: array<byte>) returns (cnt: nat)
    requires p.Valid() && FIRST_FD <= fd && OpenFile(p.fds[..], fd) && buf.Length == 1024
    modifies p, p.fds, buf
    ensures p.Valid() && OpenFile(p.fds[..], fd)
    ensures p.fds[..] == old(p.fds[..])[fd := old(p.fds[fd]).(filePos := old(p.fds[fd].filePos) + cnt)]
    ensures cnt <= buf.Length && old(Unread(p.img, p.fds[fd])) == buf[..cnt] + Unread(p.img, p.fds[fd])
    ensures cnt == 0 ==> Unread(p.img, p.fds[fd]) == []
  {
    cnt := ReadOn(p, fd, buf, 0, 1024);
    assert buf[..cnt] == buf[0..0 + cnt];
  }

  /** The loop of cat: it ends having written what is left of the file. */
  method CopyOut(p: Process, fd: nat) returns (out: seq<byte>)
    requires p.Valid() && FIRST_FD <= fd && OpenFile(p.fds[..], fd)
    modifies p, p.fds
    ensures p.Valid()
    ensures var d := old(p.fds[fd]);
            && out == Unread(p.img, d)
            && p.fds[..] == old(p.fds[..])[fd := d.(filePos := FileLength(p.img, d.inode))]
  {
    var buf := new byte[1024];
    ghost var d := p.fds[fd];
    out := [];
    assert out + Unread(p.img, d) == Unread(p.img, d);
    while true
      invariant p.Valid() && OpenFile(p.fds[..], fd)
      invariant p.fds[..] == old(p.fds[..])[fd := d.(filePos := p.fds[fd].filePos)]
      invariant out + Unread(p.img, p.fds[fd]) == Unread(p.img, d)
      decreases |Unread(p.img, p.fds[fd])|
    {
      var cnt := CopyNext(p, fd, buf);
      Associative(out, buf[..cnt], Unread(p.img, p.fds[fd]));
      if cnt == 0 {
        break;
      }
      out := out + buf[..cnt];
    }
    assert p.fds[fd].filePos == FileLength(p.img, d.inode);
  }

  /** cat of a regular file, or of a name that does not exist: it writes the
      file, the whole file and nothing but the file. */
  method Cat(p: Process, name: seq<byte>) returns (status: int, out: seq<byte>)
    requires p.Valid() && NulFree(name) && NamesNothingElse(p.img, name)
    modifies p, p.fds
    ensures p.Valid()
    ensures var (t, fd) := Opened(p.img, old(p.fds[..]), name);
            if fd == FAILURE then status == 2 && out == FileNotFound()
            else
              && status == 0
              && NamesFile(p.img, name) && out == ContentOf(p.img, name)
              && p.fds[..] == t[fd := t[fd].(filePos := |out|)]
  {
    var fd := p.Open(name);
    OpenedFile(p.img, old(p.fds[..]), name);
    if fd == FAILURE {
      return 2, FileNotFound();
    }
    out := CopyOut(p, fd);
    return 0, out;
  }

  /** The names of the entries before k, each followed by a newline. */
  function Listing(img: Image, k: nat): seq<byte>
    requires |img| >= 4096 && k <= MAX_DENTRIES
  {
    if k == 0 then [] else Listing(img, k - 1) + EntryName(img, k - 1) + [NEWLINE]
  }

  function Names(img: Image, k: nat): (names: seq<seq<byte>>)
    requires |img| >= 4096 && k <= MAX_DENTRIES
    ensures |names| == k && forall i :: 0 <= i < k ==> names[i] == EntryName(img, i)
  {
    if k == 0 then [] else Names(img, k - 1) + [EntryName(img, k - 1)]
  }

  lemma {:induction false} UnlinesSnoc(lines: seq<seq<byte>>, line: seq<byte>)
    ensures Unlines(lines + [line]) == Unlines(lines) + line + [NEWLINE]
  {
    if lines != [] {
      assert (lines + [line])[1..] == lines[1..] + [line];
      UnlinesSnoc(lines[1..], line);
    }
  }

  /** The lines of the listing are the names of the entries, in their order. */
  lemma {:induction false} ListingLines(img: Image, k: nat)
    requires |img| >= 4096 && k <= MAX_DENTRIES
    ensures Listing(img, k) == Unlines(Names(img, k))
    ensures NewlineFree(Names(img, k)) ==> Lines(Listing(img, k)) == Names(img, k)
  {
    if k > 0 {
      ListingLines(img, k - 1);
      UnlinesSnoc(Names(img, k - 1), EntryName(img, k - 1));
    }
    if NewlineFree(Names(img, k)) {
      LinesOfUnlines(Names(img, k));
    }
  }

  /** One line of the listing: the next entry's name with a newline behind it,
      n entries having been read; nothing for an empty name. */
  method ListNext(p: Process, fd: nat, buf: array<byte>, ghost n: nat) returns (line: seq<byte>)
    requires p.Valid() && FIRST_FD <= fd && InUse(p.fds[..], fd) && p.fds[fd].fops == DirectoryTable
    requires buf.Length == 33 && n < MAX_DENTRIES && p.numFilesRead as nat == n
    modifies p, p.fds, buf
    ensures p.Valid() && p.fds[..] == old(p.fds[..]) && p.numFilesRead as nat == n + 1
    ensures line == if EntryName(p.img, n) == [] then [] else EntryName(p.img, n) + [NEWLINE]
  {
    var cnt := p.Read(fd, buf, 0, 32);
    if cnt == 0 {
      return [];
    }
    buf[cnt] := NEWLINE;
    return buf[..cnt + 1];
  }

  lemma ListingNext(img: Image, n: nat)
    requires |img| >= 4096 && n < MAX_DENTRIES
    ensures Listing(img, n + 1) == Listing(img, n) + (EntryName(img, n) + [NEWLINE])
  {
    Associative(Listing(img, n), EntryName(img, n), [NEWLINE]);
  }

  /** The first empty name is where the listing ends. */
  lemma ListingEnds(img: Image, n: nat)
    requires |img| >= 4096 && n <= Lookup(img, []) < MAX_DENTRIES
    ensures EntryName(img, n) == [] <==> n == Lookup(img, [])
  {
    assert Named(img, [], n) <==> EntryName(img, n) == [];
  }

  lemma ListingGoesOn(img: Image, n: nat, line: seq<byte>)
    requires |img| >= 4096 && n <= Lookup(img, []) < MAX_DENTRIES
    requires line == if EntryName(img, n) == [] then [] else EntryName(img, n) + [NEWLINE]
    ensures line == [] <==> n == Lookup(img, [])
    ensures line != [] ==> n < Lookup(img, []) && Listing(img, n + 1) == Listing(img, n) + line
  {
    ListingEnds(img, n);
    if line != [] {
      ListingNext(img, n);
    }
  }

  /** One turn of ls's loop; `more` says whether it goes on. */
  method ListTurn(p: Process, fd: nat, buf: array<byte>, out0: seq<byte>, ghost n: nat)
    returns (more: bool, out: seq<byte>)
    requires p.Valid() && FIRST_FD <= fd && InUse(p.fds[..], fd) && p.fds[fd].fops == DirectoryTable
    requires buf.Length == 33 && n <= Lookup(p.img, []) < MAX_DENTRIES
    requires p.numFilesRead as nat == n && out0 == Listing(p.img, n)
    modifies p, p.fds, buf
    ensures p.Valid() && p.fds[..] == old(p.fds[..])
    ensures if more then n < Lookup(p.img, []) && p.numFilesRead as nat == n + 1 && out == Listing(p.img, n + 1)
            else out == Listing(p.img, Lookup(p.img, []))
  {
    var line := ListNext(p, fd, buf, n);
    ListingGoesOn(p.img, n, line);
    more, out := line != [], out0 + line;
    assert !more ==> out == out0;
  }

  /** The loop of ls: it ends at the first entry with an empty name. */
  method ListOut(p: Process, fd: nat) returns (out: seq<byte>)
    requires p.Valid() && FIRST_FD <= fd && InUse(p.fds[..], fd) && p.fds[fd].fops == DirectoryTable
    requires Lookup(p.img, []) < MAX_DENTRIES && p.numFilesRead == 0
    modifies p, p.fds
    ensures p.Valid() && p.fds[..] == old(p.fds[..])
    ensures out == Listing(p.img, Lookup(p.img, []))
  {
    var buf := new byte[33];
    ghost var n, end := 0, Lookup(p.img, []);
    out := [];
    while true
      invariant p.Valid() && n <= end
      invariant p.fds[..] == old(p.fds[..]) && p.numFilesRead as nat == n
      invariant out == Listing(p.img, n)
      decreases end - n
    {
      var more;
      more, out := ListTurn(p, fd, buf, out, n);
      if !more {
        break;
      }
      n := n + 1;
    }
  }

  /** ls, where `dir` is the name of the directory's own entry. */
  method Ls(p: Process, dir: seq<byte>) returns (status: int, out: seq<byte>)
    requires p.Valid() && NulFree(dir)
    requires var k := Lookup(p.img, dir); k < MAX_DENTRIES ==> EntryType(p.img, k) == DIRECTORY_TYPE
    requires Lookup(p.img, []) < MAX_DENTRIES
    modifies p, p.fds
    ensures p.Valid()
    ensures var (t, fd) := Opened(p.img, old(p.fds[..]), dir);
            && p.fds[..] == t
            && if fd == FAILURE then status == 2 && out == DirectoryOpenFailed()
               else status == 0 && out == Listing(p.img, Lookup(p.img, []))
  {
    OpenLowestFree(p.img, p.fds[..], dir);
    var fd := p.Open(dir);
    if fd == FAILURE {
      return 2, DirectoryOpenFailed();
    }
    out := ListOut(p, fd);
    return 0, out;
  }
}
