/** The descriptor table of one process: eight slots, of which 0 and 1 are the
    terminal and 2 to 7 are handed out by open. */
module Descriptors {
  import opened Bytes
  import opened FileSystem
  import opened Directory

  /** The jump table a descriptor points to. */
  datatype Operations = RtcTable | DirectoryTable | FilesTable | StdinTable | StdoutTable

  datatype Descriptor = Descriptor(fops: Operations, inode: nat, filePos: nat, flags: nat)

  type Table = seq<Descriptor>

  const FIRST_FD := 2
  const FD_COUNT := 8
  const NOT_USED := 0
  const USED := 1

  predicate InUse(t: Table, fd: int) {
    0 <= fd < |t| && t[fd].flags != NOT_USED
  }

  predicate OpenFile(t: Table, fd: int) {
    InUse(t, fd) && t[fd].fops == FilesTable
  }

  /** What holds of the table of a running process. */
  ghost predicate ValidTable(img: Image, t: Table) {
    && WellFormed(img)
    && |t| == FD_COUNT
    && t[0].flags == USED && t[0].fops == StdinTable
    && t[1].flags == USED && t[1].fops == StdoutTable
    && forall fd :: FIRST_FD <= fd < FD_COUNT && InUse(t, fd) ==>
         && t[fd].flags == USED
         && !t[fd].fops.StdinTable? && !t[fd].fops.StdoutTable?
         && (t[fd].fops == FilesTable ==>
               WellFormedFile(img, t[fd].inode) && t[fd].filePos <= FileLength(img, t[fd].inode))
  }

  /** The first unused descriptor from fd on, or FD_COUNT. */
  function LowestFree(t: Table, fd: nat): (r: nat)
    requires |t| == FD_COUNT && fd <= FD_COUNT
    ensures fd <= r <= FD_COUNT
    ensures forall k :: fd <= k < r ==> InUse(t, k)
    ensures r < FD_COUNT ==> !InUse(t, r)
    decreases FD_COUNT - fd
  {
    if fd == FD_COUNT || !InUse(t, fd) then fd else LowestFree(t, fd + 1)
  }

  /** The table and the result of open. */
  function Opened(img: Image, t: Table, name: seq<byte>): (r: (Table, int))
    requires |img| >= 4096 && |t| == FD_COUNT
    ensures |r.0| == FD_COUNT && (r.1 == FAILURE || FIRST_FD <= r.1 < FD_COUNT)
  {
    var k := Lookup(img, name);
    var fd := LowestFree(t, FIRST_FD);
    if name == [] || k == MAX_DENTRIES || fd == FD_COUNT then (t, FAILURE)
    else if EntryType(img, k) == RTC_TYPE then
      (t[fd := t[fd].(fops := RtcTable, inode := 0, flags := USED)], fd)
    else if EntryType(img, k) == DIRECTORY_TYPE then
      (t[fd := t[fd].(fops := DirectoryTable, inode := 0, flags := USED)], fd)
    else if EntryType(img, k) == REGULAR_TYPE then
      (t[fd := Descriptor(FilesTable, EntryInode(img, k), 0, USED)], fd)
    else (t, FAILURE)
  }

  /** open hands out the lowest unused descriptor of 2..7, disturbs no other,
      and fails only for the four reasons given. */
  lemma OpenLowestFree(img: Image, t: Table, name: seq<byte>)
    requires ValidTable(img, t)
    ensures var (t', r) := Opened(img, t, name);
            var k := Lookup(img, name);
            && (r == FAILURE <==>
                  || name == [] || k == MAX_DENTRIES
                  || (forall fd :: FIRST_FD <= fd < FD_COUNT ==> InUse(t, fd))
                  || EntryType(img, k) > REGULAR_TYPE)
            && ValidTable(img, t')
            && (r == FAILURE ==> t' == t)
            && (r != FAILURE ==>
                  && FIRST_FD <= r < FD_COUNT && !InUse(t, r) && InUse(t', r)
                  && (forall fd :: FIRST_FD <= fd < r ==> InUse(t, fd))
                  && (forall fd :: 0 <= fd < FD_COUNT && fd != r ==> t'[fd] == t[fd])
                  && (OpenFile(t', r) <==> EntryType(img, k) == REGULAR_TYPE)
                  && (OpenFile(t', r) ==> t'[r].inode == EntryInode(img, k) && t'[r].filePos == 0)
                  && t'[r].fops == (if EntryType(img, k) == 0 then RtcTable
                                    else if EntryType(img, k) == 1 then DirectoryTable else FilesTable))
  {
    var fd := LowestFree(t, FIRST_FD);
    assert fd < FD_COUNT ==> !InUse(t, fd);
    OpenKeepsValid(img, t, name);
  }

  lemma OpenKeepsValid(img: Image, t: Table, name: seq<byte>)
    requires ValidTable(img, t)
    ensures ValidTable(img, Opened(img, t, name).0)
  {
  }

  /** What a descriptor's file still holds. */
  ghost function Unread(img: Image, d: Descriptor): (r: seq<byte>)
    requires WellFormedFile(img, d.inode) && d.filePos <= FileLength(img, d.inode)
    ensures |r| == FileLength(img, d.inode) - d.filePos
  {
    Content(img, d.inode)[d.filePos..]
  }

  /** A file that open has opened is at its start. */
  lemma OpenedFile(img: Image, t: Table, name: seq<byte>)
    requires ValidTable(img, t) && NamesNothingElse(img, name)
    ensures var (t', fd) := Opened(img, t, name);
            fd != FAILURE ==>
              && NamesFile(img, name) && FIRST_FD <= fd && OpenFile(t', fd) && !InUse(t, fd)
              && Unread(img, t'[fd]) == ContentOf(img, name)
              && t'[fd].filePos == 0 && Content(img, t'[fd].inode) == ContentOf(img, name)
              && forall i :: 0 <= i < FD_COUNT && i != fd ==> t'[i] == t[i]
  {
    OpenLowestFree(img, t, name);
    var (t', fd) := Opened(img, t, name);
    if fd != FAILURE {
      assert Unread(img, t'[fd]) == Content(img, t'[fd].inode);
    }
  }

  /** The table and the result of close. */
  function Closed(t: Table, fd: int): (Table, int)
    requires |t| == FD_COUNT
  {
    if FIRST_FD <= fd && InUse(t, fd) then
      (t[fd := t[fd].(flags := NOT_USED, filePos := 0, inode := 0)], SUCCESS)
    else (t, FAILURE)
  }

  /** The same descriptors are in use, and these have not changed. */
  ghost predicate SameInUse(t: Table, u: Table) {
    |t| == |u| && forall i :: 0 <= i < |t| ==> (InUse(u, i) <==> InUse(t, i)) && (InUse(t, i) ==> u[i] == t[i])
  }

  /** One more descriptor is in use, and no other has changed. */
  ghost predicate TakenUp(t: Table, u: Table, fd: int) {
    |t| == |u| && !InUse(t, fd) && InUse(u, fd) && forall i :: 0 <= i < |t| && i != fd ==> u[i] == t[i]
  }

  /** close succeeds exactly for a descriptor of 2 and above that is in use; it is
      free afterwards, and no other descriptor changes. */
  lemma ClosedExactly(t: Table, fd: int)
    requires |t| == FD_COUNT
    ensures var (u, r) := Closed(t, fd);
            && (r == SUCCESS <==> 2 <= fd && InUse(t, fd)) && (r == SUCCESS || r == FAILURE)
            && |u| == 8 && (2 <= fd < 8 ==> u[fd].flags == 0 && !InUse(u, fd))
            && (forall i :: 0 <= i < 8 && i != fd ==> u[i] == t[i])
            && (r == FAILURE ==> u == t)
  {
  }

  lemma {:induction false} SameLowestFree(t: Table, u: Table, fd: nat)
    requires |t| == FD_COUNT && |u| == FD_COUNT && fd <= FD_COUNT
    requires forall i :: 0 <= i < FD_COUNT ==> (InUse(u, i) <==> InUse(t, i))
    ensures LowestFree(u, fd) == LowestFree(t, fd)
    decreases FD_COUNT - fd
  {
    if fd < FD_COUNT && InUse(t, fd) {
      SameLowestFree(t, u, fd + 1);
    }
  }

  /** A descriptor that was opened and closed again is as free as before: the
      same descriptors are in use, and the next open of the name gets it again. */
  lemma OpenThenClose(img: Image, t: Table, name: seq<byte>)
    requires ValidTable(img, t) && Opened(img, t, name).1 != FAILURE
    ensures var (u, fd) := Opened(img, t, name);
            var (v, r) := Closed(u, fd);
            && r == SUCCESS
            && SameInUse(t, v)
            && Opened(img, v, name).1 == fd
  {
    OpenLowestFree(img, t, name);
    var (u, fd) := Opened(img, t, name);
    ClosedExactly(u, fd);
    var v := Closed(u, fd).0;
    assert forall i :: 0 <= i < FD_COUNT && i != fd ==> v[i] == t[i];
    SameLowestFree(t, v, FIRST_FD);
  }

  /** A closed descriptor's position is forgotten. */
  lemma ClosedForgets(t: Table, fd: int, n: nat)
    requires |t| == FD_COUNT && FIRST_FD <= fd && InUse(t, fd)
    ensures Closed(t[fd := t[fd].(filePos := n)], fd) == Closed(t, fd)
  {
    assert Closed(t[fd := t[fd].(filePos := n)], fd).0 == Closed(t, fd).0;
  }

  /** How many bytes a read of a regular file delivers. */
  function CountFor(img: Image, d: Descriptor, nbytes: int): (n: nat)
    requires Complete(img) && d.inode < InodeCount(img) && d.filePos <= FileLength(img, d.inode)
    ensures d.filePos + n <= FileLength(img, d.inode)
    ensures FileLength(img, d.inode) < MAX_LENGTH && 0 <= nbytes < 0x8000_0000 ==>
              n == Min(nbytes, FileLength(img, d.inode) - d.filePos)
    ensures FileLength(img, d.inode) < MAX_LENGTH && -0x8000_0000 <= nbytes < 0 ==>
              n == if d.filePos + nbytes >= 0 then 0 else FileLength(img, d.inode) - d.filePos
  {
    Count(FileLength(img, d.inode), d.filePos, Unsigned(nbytes))
  }

  /** How many bytes of the buffer it overwrites. */
  function StoredFor(img: Image, d: Descriptor, nbytes: int): (n: nat)
    requires Complete(img) && d.inode < InodeCount(img) && d.filePos <= FileLength(img, d.inode)
    ensures CountFor(img, d, nbytes) <= n <= CountFor(img, d, nbytes) + 1
    ensures 0 <= nbytes < 0x8000_0000 ==> n <= nbytes
  {
    Stored(FileLength(img, d.inode), d.filePos, Unsigned(nbytes))
  }

  class Process {
    const img: Image
    const fds: array<Descriptor>
    var numFilesRead: byte  // the directory cursor, one for the whole kernel

    ghost predicate Valid()
      reads this, fds
    {
      fds.Length == FD_COUNT && ValidTable(img, fds[..])
    }

    /** The table that execute gives to a new process. */
    constructor (image: Image)
      requires WellFormed(image)
      ensures Valid() && fresh(fds) && img == image
      ensures forall fd :: FIRST_FD <= fd < FD_COUNT ==> !InUse(fds[..], fd)
    {
      img := image;
      numFilesRead := 0;
      fds := new Descriptor[8](_ => Descriptor(FilesTable, 0, 0, NOT_USED));
      new;
      fds[0] := Descriptor(StdinTable, 0, 0, USED);
      fds[1] := Descriptor(StdoutTable, 0, 0, USED);
    }

    /** The search of open for an unused descriptor. */
    method FirstFree() returns (i: nat)
      requires Valid()
      ensures i == LowestFree(fds[..], FIRST_FD)
    {
      i := 2;
      while i <= 7 && fds[i].flags != NOT_USED
        invariant 2 <= i <= 8
        invariant LowestFree(fds[..], FIRST_FD) == LowestFree(fds[..], i)
      {
        i := i + 1;
      }
    }

    method Open(filename: seq<byte>) returns (r: int)
      requires Valid() && NulFree(filename)
      modifies this, fds
      ensures Valid()
      ensures (fds[..], r) == Opened(img, old(fds[..]), filename)
      ensures numFilesRead == if r != FAILURE && fds[r].fops == DirectoryTable then 0 else old(numFilesRead)
    {
      if filename == [] {
        return FAILURE;
      }
      var found, dentry := ReadDentryByName(img, filename);
      if found == FAILURE {
        return FAILURE;
      }
      var i := FirstFree();
      if i == 8 {
        return FAILURE;
      }
      if dentry.filetype == RTC_TYPE {
        fds[i] := fds[i].(inode := 0, flags := USED, fops := RtcTable);
      } else if dentry.filetype == DIRECTORY_TYPE {
        fds[i] := fds[i].(inode := 0, flags := USED, fops := DirectoryTable);
        numFilesRead := 0;
      } else if dentry.filetype == REGULAR_TYPE {
        fds[i] := Descriptor(FilesTable, dentry.inode, 0, USED);
      } else {
        return FAILURE;
      }
      return i;
    }

    method Close(fd: int) returns (r: int)
      requires Valid()
      modifies fds
      ensures Valid()
      ensures (fds[..], r) == Closed(old(fds[..]), fd)
    {
      if fd < 0 || fd > 7 || fd == 1 || fd == 0 {
        return FAILURE;
      } else if fds[fd].flags != NOT_USED {
        fds[fd] := fds[fd].(flags := NOT_USED, filePos := 0, inode := 0);
        return SUCCESS;
      }
      return FAILURE;
    }

    /** file_read: read_data at the descriptor's position, which then advances.
        The byte count is taken as an unsigned number, whatever its sign. */
    method FileRead(fd: nat, buf: array<byte>, at: nat, nbytes: int) returns (r: int)
      requires Valid() && FIRST_FD <= fd && OpenFile(fds[..], fd)
      requires at + StoredFor(img, fds[fd], nbytes) <= buf.Length
      modifies fds, buf
      ensures Valid()
      ensures var d := old(fds[fd]);
              && r == CountFor(img, d, nbytes)
              && fds[..] == old(fds[..])[fd := d.(filePos := d.filePos + r)]
              && (forall k :: at <= k < at + r ==> buf[k] == Content(img, d.inode)[d.filePos + (k - at)])
              && (forall k :: 0 <= k < buf.Length && (k < at || at + StoredFor(img, d, nbytes) <= k)
                    ==> buf[k] == old(buf[k]))
    {
      var offset, inode := fds[fd].filePos, fds[fd].inode;
      r := ReadContent(img, inode, offset, buf, at, Unsigned(nbytes));
      fds[fd] := fds[fd].(filePos := offset + r);
    }

    /** directory_read: the name of the next entry, whatever the buffer's size. */
    method DirectoryRead(buf: array<byte>, at: nat) returns (r: int)
      requires Valid() && at + NAME_LENGTH < buf.Length && HasEntry(img, numFilesRead as nat)
      modifies this, buf
      ensures Valid()
      ensures numFilesRead as int == (old(numFilesRead) as int + 1) % 256
      ensures var name := EntryName(img, old(numFilesRead) as nat);
              && r == |name|
              && (forall k :: at <= k < at + r ==> buf[k] == name[k - at])
              && (forall k :: at + r <= k <= at + NAME_LENGTH ==> buf[k] == NUL)
              && (forall k :: 0 <= k < buf.Length && (k < at || at + NAME_LENGTH < k) ==> buf[k] == old(buf[k]))
    {
      var found, dentry := ReadDentryByIndex(img, numFilesRead as nat);
      ghost var name := EntryName(img, numFilesRead as nat);
      PaddedCString(name, NAME_LENGTH);
      Strncpy(buf, at, dentry.name, 32);
      buf[at + 32] := NUL;
      numFilesRead := ((numFilesRead as int + 1) % 256) as byte;
      r := Strlen(buf, at, name);
    }

    /** read on a regular file or a directory. */
    method Read(fd: int, buf: array<byte>, at: nat, nbytes: int) returns (r: int)
      requires Valid() && fd != 0 && !(InUse(fds[..], fd) && fds[fd].fops == RtcTable)
      requires FIRST_FD <= fd && OpenFile(fds[..], fd) ==> at + StoredFor(img, fds[fd], nbytes) <= buf.Length
      requires InUse(fds[..], fd) && fds[fd].fops == DirectoryTable ==>
                 at + NAME_LENGTH < buf.Length && HasEntry(img, numFilesRead as nat)
      modifies this, fds, buf
      ensures Valid()
      ensures FIRST_FD <= fd && old(OpenFile(fds[..], fd)) ==>
                var d := old(fds[fd]);
                && r == CountFor(img, d, nbytes)
                && fds[..] == old(fds[..])[fd := d.(filePos := d.filePos + r)]
                && (forall k :: at <= k < at + r ==> buf[k] == Content(img, d.inode)[d.filePos + (k - at)])
                && (forall k :: 0 <= k < buf.Length && (k < at || at + StoredFor(img, d, nbytes) <= k)
                      ==> buf[k] == old(buf[k]))
                && numFilesRead == old(numFilesRead)
      ensures old(InUse(fds[..], fd)) && old(fds[fd]).fops == DirectoryTable ==>
                && fds[..] == old(fds[..])
                && r == |EntryName(img, old(numFilesRead) as nat)|
                && (forall k :: at <= k < at + r ==> buf[k] == EntryName(img, old(numFilesRead) as nat)[k - at])
                && numFilesRead as int == (old(numFilesRead) as int + 1) % 256
      ensures fd == 1 || !old(InUse(fds[..], fd)) ==>
                r == FAILURE && fds[..] == old(fds[..]) && buf[..] == old(buf[..]) && numFilesRead == old(numFilesRead)
    {
      if fd < 0 || fd > 7 || fd == 1 {
        return FAILURE;
      } else if fds[fd].flags == NOT_USED {
        return FAILURE;
      }
      if fds[fd].fops == FilesTable {
        r := FileRead(fd, buf, at, nbytes);
      } else {
        r := DirectoryRead(buf, at);
      }
    }
  }

  lemma TakenFrom(content: seq<byte>, from: nat, taken: seq<byte>)
    requires from + |taken| <= |content|
    requires forall k :: 0 <= k < |taken| ==> taken[k] == content[from + k]
    ensures content[from..] == taken + content[from + |taken|..]
  {
  }

  /** A read of n bytes takes the next bytes off what a file still holds. */
  method ReadOn(p: Process, fd: nat, buf: array<byte>, at: nat, n: nat) returns (cnt: nat)
    requires p.Valid() && FIRST_FD <= fd && OpenFile(p.fds[..], fd)
    requires at + n <= buf.Length && n < 0x8000_0000
    modifies p, p.fds, buf
    ensures p.Valid() && OpenFile(p.fds[..], fd)
    ensures var d := old(p.fds[fd]);
            && p.fds[..] == old(p.fds[..])[fd := d.(filePos := d.filePos + cnt)]
            && cnt == Min(n, |Unread(p.img, d)|)
            && Unread(p.img, d) == buf[at..at + cnt] + Unread(p.img, p.fds[fd])
    ensures forall k :: 0 <= k < buf.Length && (k < at || at + n <= k) ==> buf[k] == old(buf[k])
  {
    ghost var d := p.fds[fd];
    cnt := p.Read(fd, buf, at, n);
    TakenFrom(Content(p.img, d.inode), d.filePos, buf[at..at + cnt]);
  }

  lemma PaddedCString(name: seq<byte>, n: nat)
    requires NulFree(name) && |name| <= n
    ensures CString(Padded(name, n)) == name
  {
    if |name| == n {
      assert Padded(name, n) == name;
    } else {
      assert Padded(name, n) == name + [NUL] + seq(n - |name| - 1, _ => NUL);
      CStringBefore(name, seq(n - |name| - 1, _ => NUL));
      return;
    }
    CStringBefore(name, []);
  }
}
