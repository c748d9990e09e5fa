/** Interleaved use of several descriptors.  A session is a descriptor table
    together with, per descriptor, all that was read from it since it was
    last opened. */
module Streams {
  import opened Bytes
  import opened FileSystem
  import opened Directory
  import opened Descriptors

  datatype Call = OpenCall(name: seq<byte>) | ReadCall(fd: int, n: int) | CloseCall(fd: int)

  datatype Session = Session(table: Table, streams: seq<seq<byte>>)

  /** The bytes that a read of n bytes from a regular file's descriptor delivers. */
  ghost function Delivered(img: Image, d: Descriptor, n: int): (data: seq<byte>)
    requires WellFormedFile(img, d.inode) && d.filePos <= FileLength(img, d.inode)
    ensures |data| == CountFor(img, d, n)
  {
    Content(img, d.inode)[d.filePos..d.filePos + CountFor(img, d, n)]
  }

  ghost function Advanced(img: Image, d: Descriptor, n: int): Descriptor
    requires WellFormedFile(img, d.inode) && d.filePos <= FileLength(img, d.inode)
  {
    d.(filePos := d.filePos + |Delivered(img, d, n)|)
  }

  /** One system call; reads of the terminal, the clock and directories touch no regular file. */
  ghost function Step(img: Image, s: Session, call: Call): Session
    requires ValidTable(img, s.table) && |s.streams| == FD_COUNT
  {
    match call
    case OpenCall(name) =>
      var (t, r) := Opened(img, s.table, name);
      Session(t, if r == FAILURE then s.streams else s.streams[r := []])
    case CloseCall(fd) =>
      Session(Closed(s.table, fd).0, s.streams)
    case ReadCall(fd, n) =>
      if FIRST_FD <= fd && OpenFile(s.table, fd) then
        Session(s.table[fd := Advanced(img, s.table[fd], n)],
                s.streams[fd := s.streams[fd] + Delivered(img, s.table[fd], n)])
      else s
  }

  /** A read of an open regular file delivers what comes next of it. */
  method ReadFile(p: Process, fd: nat, n: int, buf: array<byte>) returns (r: int)
    requires p.Valid() && FIRST_FD <= fd && OpenFile(p.fds[..], fd)
    requires StoredFor(p.img, p.fds[fd], n) <= buf.Length
    modifies p, p.fds, buf
    ensures p.Valid() && p.fds[..] == old(p.fds[..])[fd := Advanced(p.img, old(p.fds[fd]), n)]
    ensures var data := Delivered(p.img, old(p.fds[fd]), n);
            r == |data| && buf[..r] == data
  {
    r := p.Read(fd, buf, 0, n);
  }

  /** The process carries out a call: its table becomes the one of the
      session's step, and a read fills the buffer with what the step delivers;
      a read of a directory delivers a name and is no step of a stream. */
  method Perform(p: Process, call: Call, buf: array<byte>, ghost s: Session) returns (r: int)
    requires p.Valid() && s.table == p.fds[..] && |s.streams| == FD_COUNT
    requires call.OpenCall? ==> NulFree(call.name)
    requires call.ReadCall? ==> call.fd != 0 && !(InUse(s.table, call.fd) && s.table[call.fd].fops == RtcTable)
    requires call.ReadCall? && FIRST_FD <= call.fd && OpenFile(s.table, call.fd) ==>
               StoredFor(p.img, s.table[call.fd], call.n) <= buf.Length
    requires call.ReadCall? && InUse(s.table, call.fd) && s.table[call.fd].fops == DirectoryTable ==>
               NAME_LENGTH < buf.Length && HasEntry(p.img, p.numFilesRead as nat)
    modifies p, p.fds, buf
    ensures p.Valid() && p.fds[..] == Step(p.img, s, call).table
    ensures call.OpenCall? ==> r == Opened(p.img, s.table, call.name).1
    ensures call.CloseCall? ==> r == Closed(s.table, call.fd).1
    ensures call.ReadCall? && FIRST_FD <= call.fd && OpenFile(s.table, call.fd) ==>
              var data := Delivered(p.img, s.table[call.fd], call.n);
              r == |data| && buf[..r] == data
    ensures call.ReadCall? && InUse(s.table, call.fd) && s.table[call.fd].fops == DirectoryTable ==>
              var name := EntryName(p.img, old(p.numFilesRead) as nat);
              r == |name| && buf[..r] == name
    ensures call.ReadCall? && (call.fd == 1 || !InUse(s.table, call.fd)) ==> r == FAILURE
  {
    match call
    case OpenCall(name) => r := p.Open(name);
    case CloseCall(fd) => r := p.Close(fd);
    case ReadCall(fd, n) =>
      if FIRST_FD <= fd && OpenFile(p.fds[..], fd) {
        r := ReadFile(p, fd, n, buf);
      } else {
        r := p.Read(fd, buf, 0, n);
      }
  }

  /** The table is valid and every open regular file has so far delivered
      exactly the part of its content before its position. */
  ghost predicate Faithful(img: Image, s: Session) {
    && ValidTable(img, s.table)
    && |s.streams| == FD_COUNT
    && forall fd :: FIRST_FD <= fd < FD_COUNT && OpenFile(s.table, fd) ==>
         s.streams[fd] == Content(img, s.table[fd].inode)[..s.table[fd].filePos]
  }

  lemma StepFaithful(img: Image, s: Session, call: Call)
    requires Faithful(img, s)
    ensures Faithful(img, Step(img, s, call))
  {
    match call
    case OpenCall(name) => OpenLowestFree(img, s.table, name);
    case CloseCall(fd) =>
    case ReadCall(fd, n) =>
      if FIRST_FD <= fd && OpenFile(s.table, fd) {
        AppendDelivered(img, s.table[fd], n);
      }
  }

  lemma AppendDelivered(img: Image, d: Descriptor, n: int)
    requires WellFormedFile(img, d.inode) && d.filePos <= FileLength(img, d.inode)
    ensures var content := Content(img, d.inode);
            content[..d.filePos] + Delivered(img, d, n) == content[..Advanced(img, d, n).filePos]
  {
  }

  ghost function Run(img: Image, s: Session, calls: seq<Call>): (r: Session)
    requires Faithful(img, s)
    ensures |r.table| == FD_COUNT && |r.streams| == FD_COUNT
    decreases |calls|
  {
    if calls == [] then s
    else
      StepFaithful(img, s, calls[0]);
      Run(img, Step(img, s, calls[0]), calls[1..])
  }

  /** Whatever the interleaving, every descriptor that ends up open on a
      regular file has delivered a prefix of that file, and 0 and 1 are still open. */
  lemma {:induction false} EveryStreamIsAPrefix(img: Image, s: Session, calls: seq<Call>)
    requires Faithful(img, s)
    ensures var r := Run(img, s, calls);
            && Faithful(img, r)
            && InUse(r.table, 0) && InUse(r.table, 1)
            && forall fd :: FIRST_FD <= fd < FD_COUNT && OpenFile(r.table, fd) ==>
                 r.streams[fd] <= Content(img, r.table[fd].inode) && |r.streams[fd]| == r.table[fd].filePos
    decreases |calls|
  {
    if calls != [] {
      StepFaithful(img, s, calls[0]);
      EveryStreamIsAPrefix(img, Step(img, s, calls[0]), calls[1..]);
    }
  }

  /** The calls among these that concern an open descriptor: its reads. */
  function ReadsOf(fd: int, calls: seq<Call>): seq<Call> {
    if calls == [] then []
    else (if calls[0].ReadCall? && calls[0].fd == fd then [calls[0]] else []) + ReadsOf(fd, calls[1..])
  }

  /** A call that neither reads nor closes a descriptor in use leaves it alone. */
  lemma OthersDoNotDisturb(img: Image, s: Session, call: Call, fd: int)
    requires Faithful(img, s) && FIRST_FD <= fd && OpenFile(s.table, fd)
    requires !call.OpenCall? ==> call.fd != fd
    ensures var r := Step(img, s, call);
            r.table[fd] == s.table[fd] && r.streams[fd] == s.streams[fd]
  {
    if call.OpenCall? {
      OpenLowestFree(img, s.table, call.name);
    }
  }

  /** A descriptor's step depends on nothing but that descriptor. */
  lemma SameDescriptorSameStep(img: Image, s: Session, u: Session, fd: int, n: int)
    requires Faithful(img, s) && Faithful(img, u) && FIRST_FD <= fd && OpenFile(s.table, fd) && OpenFile(u.table, fd)
    requires s.table[fd] == u.table[fd] && s.streams[fd] == u.streams[fd]
    ensures var s', u' := Step(img, s, ReadCall(fd, n)), Step(img, u, ReadCall(fd, n));
            OpenFile(s'.table, fd) && s'.table[fd] == u'.table[fd] && s'.streams[fd] == u'.streams[fd]
  {
  }

  /** As long as it is not closed, an open regular file delivers what it would
      deliver if its own reads were the only calls made. */
  lemma {:induction false} StreamsAreIndependent(img: Image, s: Session, u: Session, calls: seq<Call>, fd: int)
    requires Faithful(img, s) && Faithful(img, u) && FIRST_FD <= fd && OpenFile(s.table, fd) && OpenFile(u.table, fd)
    requires s.table[fd] == u.table[fd] && s.streams[fd] == u.streams[fd]
    requires CloseCall(fd) !in calls
    ensures var r, alone := Run(img, s, calls), Run(img, u, ReadsOf(fd, calls));
            && OpenFile(r.table, fd)
            && r.table[fd] == alone.table[fd]
            && r.streams[fd] == alone.streams[fd]
    decreases |calls|
  {
    if calls != [] {
      var call, rest := calls[0], calls[1..];
      StepFaithful(img, s, call);
      if call == ReadCall(fd, if call.ReadCall? then call.n else 0) {
        SameDescriptorSameStep(img, s, u, fd, call.n);
        StepFaithful(img, u, call);
        assert ReadsOf(fd, calls)[1..] == ReadsOf(fd, rest);
        StreamsAreIndependent(img, Step(img, s, call), Step(img, u, call), rest, fd);
      } else {
        OthersDoNotDisturb(img, s, call, fd);
        assert ReadsOf(fd, calls) == ReadsOf(fd, rest);
        StreamsAreIndependent(img, Step(img, s, call), u, rest, fd);
      }
    }
  }

  // ------------------------------------------------------- whole processes

  ghost predicate NoClock(t: Table) {
    forall fd :: 0 <= fd < |t| && InUse(t, fd) ==> t[fd].fops != RtcTable
  }

  /** The call concerns neither the keyboard nor the clock. */
  ghost predicate Performable(img: Image, call: Call)
    requires |img| >= 4096
  {
    match call
    case OpenCall(name) =>
      NulFree(name) && (Lookup(img, name) < MAX_DENTRIES ==> EntryType(img, Lookup(img, name)) != RTC_TYPE)
    case CloseCall(fd) => true
    case ReadCall(fd, n) => fd != 0
  }

  lemma StepKeepsNoClock(img: Image, s: Session, call: Call)
    requires Faithful(img, s) && NoClock(s.table) && Performable(img, call)
    ensures NoClock(Step(img, s, call).table)
  {
    match call
    case OpenCall(name) => OpenLowestFree(img, s.table, name);
    case CloseCall(fd) => ClosedExactly(s.table, fd);
    case ReadCall(fd, n) =>
  }

  /** One call; what a read of a regular file delivers is noted. */
  method PerformStep(p: Process, call: Call, buf: array<byte>, streams0: seq<seq<byte>>)
    returns (streams: seq<seq<byte>>)
    requires p.Valid() && NoClock(p.fds[..]) && Performable(p.img, call) && HasEntry(p.img, 255)
    requires |streams0| == FD_COUNT && buf.Length >= MAX_LENGTH
    modifies p, p.fds, buf
    ensures p.Valid()
    ensures Session(p.fds[..], streams) == Step(p.img, Session(old(p.fds[..]), streams0), call)
  {
    streams := streams0;
    ghost var s := Session(p.fds[..], streams0);
    match call
    case OpenCall(name) =>
      var r := Perform(p, call, buf, s);
      if r != FAILURE {
        streams := streams[r := []];
      }
    case CloseCall(fd) =>
      var r := Perform(p, call, buf, s);
    case ReadCall(fd, n) =>
      var file := FIRST_FD <= fd && OpenFile(p.fds[..], fd);
      var r := Perform(p, call, buf, s);
      if file {
        streams := streams[fd := streams[fd] + buf[..r]];
      }
  }

  lemma RunFront(img: Image, s: Session, calls: seq<Call>)
    requires Faithful(img, s) && calls != []
    ensures Faithful(img, Step(img, s, calls[0]))
    ensures Run(img, s, calls) == Run(img, Step(img, s, calls[0]), calls[1..])
  {
    StepFaithful(img, s, calls[0]);
  }

  /** A process that carries out any calls delivers what the session says. */
  method PerformAll(p: Process, calls: seq<Call>, buf: array<byte>, streams0: seq<seq<byte>>)
    returns (streams: seq<seq<byte>>)
    requires p.Valid() && NoClock(p.fds[..]) && HasEntry(p.img, 255) && buf.Length >= MAX_LENGTH
    requires forall i :: 0 <= i < |calls| ==> Performable(p.img, calls[i])
    requires Faithful(p.img, Session(p.fds[..], streams0))
    modifies p, p.fds, buf
    ensures p.Valid()
    ensures Session(p.fds[..], streams) == old(Run(p.img, Session(p.fds[..], streams0), calls))
  {
    ghost var s0 := Session(p.fds[..], streams0);
    streams := streams0;
    var rest := calls;
    while rest != []
      invariant p.Valid() && NoClock(p.fds[..]) && Faithful(p.img, Session(p.fds[..], streams))
      invariant forall i :: 0 <= i < |rest| ==> Performable(p.img, rest[i])
      invariant Run(p.img, Session(p.fds[..], streams), rest) == Run(p.img, s0, calls)
      decreases |rest|
    {
      RunFront(p.img, Session(p.fds[..], streams), rest);
      StepKeepsNoClock(p.img, Session(p.fds[..], streams), rest[0]);
      streams := PerformStep(p, rest[0], buf, streams);
      rest := rest[1..];
    }
  }
}
