/** The read-only file system: one flat image made of a boot block, inode
    blocks and data blocks, all of 4096 bytes. */
module FileSystem {
  import opened Bytes

  const INODE_ENTRIES := 1023 // block numbers in an inode
  const MAX_LENGTH := 0x3F_F000 // 1023 blocks of 4096 bytes
  const MAX_DENTRIES := 63
  const NAME_LENGTH := 32

  type Image = seq<byte>

  // ---------------------------------------------------------------- layout

  /** The little-endian 32-bit word at address a. */
  function Word(img: Image, a: nat): (w: nat)
    requires a + 4 <= |img|
    ensures w < U32
  {
    img[a] as nat + 0x100 * img[a + 1] as nat + 0x1_0000 * img[a + 2] as nat + 0x100_0000 * img[a + 3] as nat
  }

  /** Its bytes, the least significant one first. */
  lemma LittleEndian(img: Image, a: nat)
    requires a + 4 <= |img|
    ensures var w := Word(img, a);
            && w % 0x100 == img[a] as int
            && w / 0x100 % 0x100 == img[a + 1] as int
            && w / 0x100 / 0x100 % 0x100 == img[a + 2] as int
            && w / 0x100 / 0x100 / 0x100 == img[a + 3] as int
  {
    var b0: nat, b1: nat, b2: nat, b3: nat := img[a] as int, img[a + 1] as int, img[a + 2] as int, img[a + 3] as int;
    LowByte(b0, b1 + 0x100 * b2 + 0x1_0000 * b3);
    LowByte(b1, b2 + 0x100 * b3);
    LowByte(b2, b3);
  }

  function InodeCount(img: Image): nat
    requires |img| >= 4096
  {
    Word(img, 4)
  }

  function DataCount(img: Image): nat
    requires |img| >= 4096
  {
    Word(img, 8)
  }

  /** All the blocks that the boot block announces are there. */
  ghost predicate Complete(img: Image) {
    |img| >= 4096 && |img| >= 4096 * (1 + InodeCount(img) + DataCount(img))
  }

  function FileLength(img: Image, inode: nat): nat
    requires Complete(img) && inode < InodeCount(img)
  {
    Word(img, 4096 * (inode + 1))
  }

  function BlockEntry(img: Image, inode: nat, j: nat): nat
    requires Complete(img) && inode < InodeCount(img) && j < INODE_ENTRIES
  {
    Word(img, 4096 * (inode + 1) + 4 + 4 * j)
  }

  /** The block holding byte i of the file is a data block of the image. */
  predicate GoodBlock(img: Image, inode: nat, i: nat)
    requires Complete(img) && inode < InodeCount(img) && i < MAX_LENGTH
  {
    BlockEntry(img, inode, i / 4096) < DataCount(img)
  }

  function BlockBase(img: Image, b: nat): nat
    requires Complete(img)
  {
    4096 * (InodeCount(img) + 1 + b)
  }

  function Block(img: Image, b: nat): (r: seq<byte>)
    requires Complete(img) && b < DataCount(img)
    ensures |r| == 4096
  {
    img[BlockBase(img, b)..BlockBase(img, b) + 4096]
  }

  /** Byte i of the file, where its block is good. */
  function ByteAt(img: Image, inode: nat, i: nat): byte
    requires Complete(img) && inode < InodeCount(img) && i < MAX_LENGTH
  {
    if GoodBlock(img, inode, i) then img[BlockBase(img, BlockEntry(img, inode, i / 4096)) + i % 4096] else NUL
  }

  // --------------------------------------------------------------- content

  /** A regular file that can be read to its end.  The block of byte
      number `length` must be valid too, because the read loop touches that
      byte before it notices the end. */
  ghost predicate WellFormedFile(img: Image, inode: nat) {
    && Complete(img)
    && inode < InodeCount(img)
    && FileLength(img, inode) < MAX_LENGTH
    && forall j :: 0 <= j <= FileLength(img, inode) / 4096 ==> BlockEntry(img, inode, j) < DataCount(img)
  }

  /** Blocks of 4096 bytes, one after the other. */
  ghost function Joined(blocks: seq<seq<byte>>): (r: seq<byte>)
    requires forall j :: 0 <= j < |blocks| ==> |blocks[j]| == 4096
    ensures |r| == 4096 * |blocks|
  {
    if blocks == [] then [] else Joined(blocks[..|blocks| - 1]) + blocks[|blocks| - 1]
  }

  lemma {:induction false} JoinedAt(blocks: seq<seq<byte>>, j: nat, i: nat)
    requires forall j :: 0 <= j < |blocks| ==> |blocks[j]| == 4096
    requires j < |blocks| && i < 4096
    ensures Joined(blocks)[4096 * j + i] == blocks[j][i]
  {
    if j < |blocks| - 1 {
      JoinedAt(blocks[..|blocks| - 1], j, i);
    }
  }

  /** The first k blocks of the file, one after the other. */
  ghost function Blocks(img: Image, inode: nat, k: nat): (r: seq<byte>)
    requires Complete(img) && inode < InodeCount(img) && k <= INODE_ENTRIES
    requires forall j :: 0 <= j < k ==> BlockEntry(img, inode, j) < DataCount(img)
    ensures |r| == 4096 * k
  {
    Joined(seq(k, j requires 0 <= j < k => Block(img, BlockEntry(img, inode, j))))
  }

  /** What the file contains: its blocks joined, cut at its length. */
  ghost function Content(img: Image, inode: nat): (r: seq<byte>)
    requires WellFormedFile(img, inode)
    ensures |r| == FileLength(img, inode)
  {
    var length := FileLength(img, inode);
    Blocks(img, inode, length / 4096 + 1)[..length]
  }

  lemma BlocksAt(img: Image, inode: nat, k: nat, i: nat)
    requires Complete(img) && inode < InodeCount(img) && k <= INODE_ENTRIES
    requires forall j :: 0 <= j < k ==> BlockEntry(img, inode, j) < DataCount(img)
    requires i < 4096 * k
    ensures GoodBlock(img, inode, i)
    ensures Blocks(img, inode, k)[i] == ByteAt(img, inode, i)
  {
    var j, m := i / 4096, i % 4096;
    InBlock(img, inode, j, i);
    var blocks := seq(k, j requires 0 <= j < k => Block(img, BlockEntry(img, inode, j)));
    assert blocks[j] == Block(img, BlockEntry(img, inode, j)) && i == 4096 * j + m;
    JoinedAt(blocks, j, m);
  }

  lemma InBlock(img: Image, inode: nat, j: nat, i: nat)
    requires Complete(img) && inode < InodeCount(img) && j < INODE_ENTRIES
    requires BlockEntry(img, inode, j) < DataCount(img) && 4096 * j <= i < 4096 * j + 4096
    ensures GoodBlock(img, inode, i)
    ensures Block(img, BlockEntry(img, inode, j))[i - 4096 * j] == ByteAt(img, inode, i)
  {
    assert i / 4096 == j && i % 4096 == i - 4096 * j;
  }

  /** Bytewise indirection yields the file's content. */
  lemma ContentAt(img: Image, inode: nat, i: nat)
    requires WellFormedFile(img, inode) && i < FileLength(img, inode)
    ensures GoodBlock(img, inode, i)
    ensures Content(img, inode)[i] == ByteAt(img, inode, i)
  {
    BlocksAt(img, inode, FileLength(img, inode) / 4096 + 1, i);
  }

  /** Where the bytes of a file are: the length is the first word of its
      inode's block, behind it are the numbers of its blocks, and these are counted
      from the first block after the boot block and the inodes. */
  lemma ContentInImage(img: Image, inode: nat, i: nat)
    requires WellFormedFile(img, inode) && i < |Content(img, inode)|
    ensures |Content(img, inode)| == Word(img, 4096 + 4096 * inode)
    ensures var inodes, block := Word(img, 4), Word(img, 4096 + 4096 * inode + 4 + 4 * (i / 4096));
            var a := 4096 * (1 + inodes + block) + i % 4096;
            a < |img| && Content(img, inode)[i] == img[a]
  {
    ContentAt(img, inode, i);
  }

  // ------------------------------------------------------------- read_data

  /** Where the read loop stops if it meets no bad block: at the wrapped end of
      the request, or after fetching the byte just past the file. */
  ghost function Limit(img: Image, inode: nat, offset: nat, length: nat): (stop: nat)
    requires Complete(img) && inode < InodeCount(img) && offset < U32 && length < U32
    ensures offset <= stop
  {
    if offset + length >= U32 then offset
    else if offset <= FileLength(img, inode) then Min(offset + length, FileLength(img, inode) + 1)
    else offset + length
  }

  /** The request stays among the block numbers that an inode has room for. */
  ghost predicate InInode(img: Image, inode: nat, offset: nat, length: nat) {
    && Complete(img) && inode < InodeCount(img) && offset < U32 && length < U32
    && (Limit(img, inode, offset, length) == offset || Limit(img, inode, offset, length) <= MAX_LENGTH)
  }

  /** Requests within a file, and at its end, do. */
  lemma WithinFile(img: Image, inode: nat, offset: nat, length: nat)
    requires Complete(img) && inode < InodeCount(img) && length < U32
    requires offset <= FileLength(img, inode) < MAX_LENGTH
    ensures InInode(img, inode, offset, length)
  {
  }

  /** The first index in [from, to) without a valid block, or to. */
  ghost function FirstBad(img: Image, inode: nat, from: nat, to: nat): (i: nat)
    requires Complete(img) && inode < InodeCount(img) && from <= to && (from == to || to <= MAX_LENGTH)
    ensures from <= i <= to
    ensures forall k :: from <= k < i ==> k < MAX_LENGTH && GoodBlock(img, inode, k)
    ensures i < to ==> !GoodBlock(img, inode, i)
    decreases (to as int) - from
  {
    if from == to || !GoodBlock(img, inode, from) then from else FirstBad(img, inode, from + 1, to)
  }

  /** The index at which a read stops. */
  ghost function Reached(img: Image, inode: nat, offset: nat, length: nat): (i: nat)
    requires InInode(img, inode, offset, length)
    ensures offset <= i <= Limit(img, inode, offset, length)
    ensures forall k :: offset <= k < i ==> k < MAX_LENGTH && GoodBlock(img, inode, k)
    ensures i < Limit(img, inode, offset, length) ==> !GoodBlock(img, inode, i)
  {
    FirstBad(img, inode, offset, Limit(img, inode, offset, length))
  }

  /** The value read_data returns. */
  ghost function ReadCount(img: Image, inode: nat, offset: nat, length: nat): int
    requires InInode(img, inode, offset, length)
  {
    var stop := Limit(img, inode, offset, length);
    var i := Reached(img, inode, offset, length);
    if i < stop then i - offset - 1
    else if stop > offset && stop == FileLength(img, inode) + 1 then FileLength(img, inode) - offset
    else stop - offset
  }

  /** A buffer whose contents were `before`, once the n bytes of the file from
      `offset` on have been stored at `at`. */
  ghost predicate Fetched(img: Image, inode: nat, offset: nat, n: nat, at: nat, before: seq<byte>, now: seq<byte>)
    requires Complete(img) && inode < InodeCount(img)
    requires n == 0 || offset + n <= MAX_LENGTH
  {
    && |now| == |before| && at + n <= |now|
    && (forall k :: 0 <= k < |now| && (k < at || at + n <= k) ==> now[k] == before[k])
    && forall k :: offset <= k < offset + n ==> now[at + (k - offset)] == ByteAt(img, inode, k)
  }

  lemma FetchedNext(img: Image, inode: nat, offset: nat, n: nat, at: nat, before: seq<byte>, now: seq<byte>)
    requires Complete(img) && inode < InodeCount(img)
    requires offset + n < MAX_LENGTH
    requires Fetched(img, inode, offset, n, at, before, now) && at + n < |now|
    ensures Fetched(img, inode, offset, n + 1, at, before, now[at + n := ByteAt(img, inode, offset + n)])
  {
  }

  /** Byte i by way of the inode's block numbers, if its block is good. */
  method FetchByte(img: Image, inode: nat, i: nat) returns (good: bool, b: byte)
    requires Complete(img) && inode < InodeCount(img) && i < MAX_LENGTH
    ensures good == GoodBlock(img, inode, i) && (good ==> b == ByteAt(img, inode, i))
  {
    var block := BlockEntry(img, inode, i / 4096);
    if block >= DataCount(img) {
      return false, NUL;
    }
    return true, img[BlockBase(img, block) + i % 4096];
  }

  /** read_data: `length` bytes from `offset` of the file into buf, from index
      `at` on; the buffer must hold what the loop stores. */
  method ReadData(img: Image, inode: nat, offset: nat, buf: array<byte>, at: nat, length: nat) returns (r: int)
    requires Complete(img) && at <= buf.Length
    requires inode < InodeCount(img) ==>
               InInode(img, inode, offset, length) && at + (Reached(img, inode, offset, length) - offset) <= buf.Length
    modifies buf
    ensures inode >= InodeCount(img) ==> r == FAILURE && buf[..] == old(buf[..])
    ensures inode < InodeCount(img) ==>
              && r == ReadCount(img, inode, offset, length)
              && Fetched(img, inode, offset, Reached(img, inode, offset, length) - offset, at, old(buf[..]), buf[..])
  {
    if inode >= InodeCount(img) {
      return FAILURE;
    }
    var i := offset;
    ghost var reached := Reached(img, inode, offset, length);
    var end := Unsigned(offset + length);
    while i < end
      invariant offset <= i <= reached && (offset <= FileLength(img, inode) ==> i <= FileLength(img, inode))
      invariant i <= Max(offset, end)
      invariant Fetched(img, inode, offset, i - offset, at, old(buf[..]), buf[..])
      decreases U32 - i
    {
      var good, b := FetchByte(img, inode, i);
      if !good {
        assert i == reached;
        return i - offset - 1;
      }
      assert i < reached;
      FetchedNext(img, inode, offset, i - offset, at, old(buf[..]), buf[..]);
      buf[at + (i - offset)] := b;
      if i == FileLength(img, inode) {
        assert i + 1 == reached;
        return i - offset;
      }
      i := i + 1;
    }
    assert i == reached;
    return i - offset;
  }

  /** The blocks that a read's loop touches are all valid. */
  ghost predicate TouchesGood(img: Image, inode: nat, offset: nat, length: nat)
    requires InInode(img, inode, offset, length)
  {
    forall k :: offset <= k < Limit(img, inode, offset, length) ==> k < MAX_LENGTH && GoodBlock(img, inode, k)
  }

  /** A read from within a file returns min(length, rest of the file) exactly
      when its end does not wrap around and every block that its loop touches is
      valid, or when its end wraps around at the end of the file. */
  lemma ReadCountIff(img: Image, inode: nat, offset: nat, length: nat)
    requires InInode(img, inode, offset, length) && offset <= FileLength(img, inode)
    ensures ReadCount(img, inode, offset, length) == Min(length, FileLength(img, inode) - offset)
       <==> if offset + length < U32 then TouchesGood(img, inode, offset, length) else offset == FileLength(img, inode)
  {
    var stop := Limit(img, inode, offset, length);
    assert Reached(img, inode, offset, length) < stop ==>
        ReadCount(img, inode, offset, length) < Min(length, FileLength(img, inode) - offset);
  }

  /** A read that meets a bad block comes back one byte shorter than what it
      has stored: with -1 if that is nothing. */
  lemma ReadStopsAtBadBlock(img: Image, inode: nat, offset: nat, length: nat, k: nat)
    requires InInode(img, inode, offset, length) && offset <= k < Limit(img, inode, offset, length)
    requires forall i :: offset <= i < k ==> GoodBlock(img, inode, i)
    requires !GoodBlock(img, inode, k)
    ensures Reached(img, inode, offset, length) == k
    ensures ReadCount(img, inode, offset, length) == k - offset - 1
  {
  }

  /** A read from behind the end of a file never notices it: it returns what
      was asked for, if every block it touches is valid. */
  lemma ReadBehindTheEnd(img: Image, inode: nat, offset: nat, length: nat)
    requires InInode(img, inode, offset, length) && offset > FileLength(img, inode) && offset + length < U32
    requires TouchesGood(img, inode, offset, length)
    ensures ReadCount(img, inode, offset, length) == length
  {
  }

  /** A read that reaches the end of a file whose blocks are all valid, but
      not the entry after them, comes back one byte short. */
  lemma ReadShortByOne(img: Image, inode: nat, offset: nat, length: nat)
    requires Complete(img) && inode < InodeCount(img)
    requires offset <= FileLength(img, inode) < MAX_LENGTH
    requires FileLength(img, inode) < offset + length < U32
    requires forall k :: offset <= k < FileLength(img, inode) ==> GoodBlock(img, inode, k)
    requires !GoodBlock(img, inode, FileLength(img, inode))
    ensures InInode(img, inode, offset, length)
    ensures ReadCount(img, inode, offset, length) == FileLength(img, inode) - offset - 1
  {
    ReadStopsAtBadBlock(img, inode, offset, length, FileLength(img, inode));
  }

  /** What a read does on a well-formed file: it also stores the byte after
      the n it returns when it meets the end of the file. */
  lemma ReadWellFormed(img: Image, inode: nat, offset: nat, length: nat)
    requires WellFormedFile(img, inode) && offset <= FileLength(img, inode) && length < U32
    ensures InInode(img, inode, offset, length)
    ensures var n := if offset + length < U32 then Min(length, FileLength(img, inode) - offset) else 0;
            && ReadCount(img, inode, offset, length) == n
            && Reached(img, inode, offset, length) == offset + (if n < length && offset + length < U32 then n + 1 else n)
            && forall k :: offset <= k < offset + n ==> ByteAt(img, inode, k) == Content(img, inode)[k]
  {
    WithinFile(img, inode, offset, length);
    var n := if offset + length < U32 then Min(length, FileLength(img, inode) - offset) else 0;
    forall k | offset <= k < offset + n
      ensures GoodBlock(img, inode, k) && ByteAt(img, inode, k) == Content(img, inode)[k]
    {
      ContentAt(img, inode, k);
    }
    BlocksAt(img, inode, FileLength(img, inode) / 4096 + 1, FileLength(img, inode));
  }

  /** How many bytes a read delivers: none if its end wraps around. */
  function Count(length: nat, offset: nat, request: nat): (n: nat)
    requires offset <= length
    ensures n <= length - offset && n <= request
  {
    if offset + request < U32 then Min(request, length - offset) else 0
  }

  /** How many bytes a read stores. */
  function Stored(length: nat, offset: nat, request: nat): nat
    requires offset <= length
  {
    if offset + request < U32 then Min(request, length - offset + 1) else 0
  }

  /** read_data on a well-formed file: the bytes returned are the file's, and
      nothing is written behind the one after them, nor at the end of the request. */
  method ReadContent(img: Image, inode: nat, offset: nat, buf: array<byte>, at: nat, length: nat) returns (r: int)
    requires WellFormedFile(img, inode) && offset <= FileLength(img, inode) && length < U32
    requires at + Stored(FileLength(img, inode), offset, length) <= buf.Length
    modifies buf
    ensures r == Count(FileLength(img, inode), offset, length)
    ensures forall k :: at <= k < at + r ==> buf[k] == Content(img, inode)[offset + (k - at)]
    ensures forall k :: 0 <= k < buf.Length && (k < at || at + Stored(FileLength(img, inode), offset, length) <= k)
              ==> buf[k] == old(buf[k])
  {
    ReadWellFormed(img, inode, offset, length);
    r := ReadData(img, inode, offset, buf, at, length);
  }
}
