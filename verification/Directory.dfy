/** The directory of the boot block: lookup by name and by index. */
module Directory {
  import opened Bytes
  import opened FileSystem

  const RTC_TYPE := 0
  const DIRECTORY_TYPE := 1
  const REGULAR_TYPE := 2

  /** A dentry as the lookups fill it in: its name is padded with NULs to 32 bytes. */
  datatype Dentry = Dentry(name: seq<byte>, filetype: nat, inode: nat)

  function EntryBase(k: nat): nat {
    64 + 64 * k
  }

  /** Entry k lies within the image: always so for the 63 entries of the boot
      block, and for those that an unchecked index takes from the blocks after it. */
  predicate HasEntry(img: Image, k: nat) {
    EntryBase(k) + 64 <= |img|
  }

  /** The 32 name bytes of entry k; a shorter name ends at its first NUL. */
  function RawName(img: Image, k: nat): (r: seq<byte>)
    requires HasEntry(img, k)
    ensures |r| == NAME_LENGTH
  {
    img[EntryBase(k)..EntryBase(k) + 32]
  }

  function EntryName(img: Image, k: nat): seq<byte>
    requires HasEntry(img, k)
  {
    CString(RawName(img, k))
  }

  function EntryType(img: Image, k: nat): nat
    requires HasEntry(img, k)
  {
    Word(img, EntryBase(k) + 32)
  }

  function EntryInode(img: Image, k: nat): nat
    requires HasEntry(img, k)
  {
    Word(img, EntryBase(k) + 36)
  }

  /** Where the entries are: 64 bytes each, from byte 64 on; the name takes 32
      of them, the type and the inode's number follow. */
  lemma EntryInImage(img: Image, k: nat)
    requires HasEntry(img, k)
    ensures 128 + 64 * k <= |img|
    ensures EntryName(img, k) == CString(img[64 + 64 * k..96 + 64 * k])
    ensures EntryType(img, k) == Word(img, 96 + 64 * k) && EntryInode(img, k) == Word(img, 100 + 64 * k)
  {
  }

  /** s padded with NULs to n bytes. */
  function Padded(s: seq<byte>, n: nat): (r: seq<byte>)
    requires |s| <= n
    ensures |r| == n
  {
    s + seq(n - |s|, _ => NUL)
  }

  function Entry(img: Image, k: nat): Dentry
    requires HasEntry(img, k)
  {
    Dentry(Padded(EntryName(img, k), NAME_LENGTH), EntryType(img, k), EntryInode(img, k))
  }

  /** The image of a usable file system: every regular entry names a well-formed file. */
  ghost predicate WellFormed(img: Image) {
    && Complete(img)
    && forall k :: 0 <= k < MAX_DENTRIES && EntryType(img, k) == REGULAR_TYPE
         ==> WellFormedFile(img, EntryInode(img, k))
  }

  /** Entry k has this name. */
  predicate Named(img: Image, name: seq<byte>, k: nat)
    requires HasEntry(img, k)
  {
    EntryName(img, k) == name
  }

  /** The first entry from k on that has this name, or MAX_DENTRIES. */
  function LookupFrom(img: Image, name: seq<byte>, k: nat): (r: nat)
    requires |img| >= 4096 && k <= MAX_DENTRIES
    ensures k <= r <= MAX_DENTRIES
    ensures r < MAX_DENTRIES ==> Named(img, name, r)
    ensures forall j {:trigger Named(img, name, j)} :: k <= j < r ==> !Named(img, name, j)
    decreases MAX_DENTRIES - k
  {
    if k == MAX_DENTRIES || Named(img, name, k) then k else LookupFrom(img, name, k + 1)
  }

  function Lookup(img: Image, name: seq<byte>): (r: nat)
    requires |img| >= 4096
    ensures r <= MAX_DENTRIES
    ensures r < MAX_DENTRIES ==> Named(img, name, r)
    ensures r < MAX_DENTRIES ==> EntryName(img, r) == name
    ensures forall j {:trigger Named(img, name, j)} :: 0 <= j < r ==> !Named(img, name, j)
  {
    LookupFrom(img, name, 0)
  }

  lemma {:induction false} LookupIs(img: Image, name: seq<byte>, from: nat, k: nat)
    requires |img| >= 4096 && from <= k <= MAX_DENTRIES
    requires forall j {:trigger Named(img, name, j)} :: from <= j < k ==> !Named(img, name, j)
    requires k < MAX_DENTRIES ==> Named(img, name, k)
    ensures LookupFrom(img, name, from) == k
    decreases k - from
  {
    if from < k {
      LookupIs(img, name, from + 1, k);
    }
  }

  /** The name leads to a regular file. */
  predicate NamesFile(img: Image, name: seq<byte>)
    requires |img| >= 4096
  {
    Lookup(img, name) < MAX_DENTRIES && EntryType(img, Lookup(img, name)) == REGULAR_TYPE
  }

  /** The name leads to a regular file or to nothing. */
  predicate NamesNothingElse(img: Image, name: seq<byte>)
    requires |img| >= 4096
  {
    Lookup(img, name) < MAX_DENTRIES ==> NamesFile(img, name)
  }

  /** What the file of this name contains. */
  ghost function ContentOf(img: Image, name: seq<byte>): seq<byte>
    requires WellFormed(img) && NamesFile(img, name)
  {
    Content(img, EntryInode(img, Lookup(img, name)))
  }

  /** Two names are the same up to their first NUL exactly when they are the
      same once padded with NULs to 32 bytes. */
  lemma SamePadded(a: seq<byte>, b: seq<byte>)
    requires NulFree(a) && NulFree(b) && |a| <= NAME_LENGTH && |b| <= NAME_LENGTH
    ensures Padded(a, NAME_LENGTH) == Padded(b, NAME_LENGTH) <==> a == b
  {
    var p, q := Padded(a, NAME_LENGTH), Padded(b, NAME_LENGTH);
    if |a| < |b| {
      assert p[|a|] != q[|a|];
    } else if |b| < |a| {
      assert p[|b|] != q[|b|];
    } else {
      assert a == p[..|a|] && b == q[..|a|];
    }
  }

  /** Lookup by name inverts lookup by index on every entry whose name does
      not occur before it, and only there. */
  lemma LookupInvertsIndex(img: Image, k: nat)
    requires |img| >= 4096 && k < MAX_DENTRIES
    ensures Lookup(img, EntryName(img, k)) == k
       <==> forall j :: 0 <= j < k ==> EntryName(img, j) != EntryName(img, k)
  {
    var name := EntryName(img, k);
    assert Named(img, name, k);
    assert forall j :: 0 <= j < k ==> (EntryName(img, j) == EntryName(img, k) <==> Named(img, name, j));
    if forall j :: 0 <= j < k ==> EntryName(img, j) != EntryName(img, k) {
      LookupIs(img, name, 0, k);
    }
  }

  /** strncmp of n bytes of the image with a C string, of which n bytes count. */
  method Strncmp(img: Image, base: nat, s: seq<byte>, n: nat) returns (r: int)
    requires base + n <= |img| && NulFree(s)
    ensures r == 0 <==> CString(img[base..base + n]) == s[..Min(n, |s|)]
  {
    ghost var raw, front := img[base..base + n], s[..Min(n, |s|)];
    var i := 0;
    while i < n
      invariant i <= n && i <= |front|
      invariant forall k :: 0 <= k < i ==> raw[k] == front[k]
    {
      var a, b := img[base + i], CharAt(s, i);
      if a != b || a == NUL {
        if a == b {
          FindIs(NUL, raw, i);
          assert raw[..i] == front;
        } else {
          NotTheString(raw, front, i);
        }
        return a as int - b as int;
      }
      i := i + 1;
    }
    FindIs(NUL, raw, n);
    assert raw[..n] == front;
    return 0;
  }

  lemma NotTheString(raw: seq<byte>, s: seq<byte>, i: nat)
    requires NulFree(s) && i < |raw| && i <= |s|
    requires forall k :: 0 <= k < i ==> raw[k] == s[k]
    requires raw[i] != CharAt(s, i)
    ensures CString(raw) != s
  {
    if i < |CString(raw)| {
      assert CString(raw)[i] == raw[i];
    }
  }

  /** strncpy of a C string that occupies at most n bytes at src. */
  method Strncpy(dest: array<byte>, at: nat, src: seq<byte>, n: nat)
    requires |src| == n && at + n <= dest.Length
    modifies dest
    ensures forall k :: 0 <= k < dest.Length ==>
              dest[k] == if at <= k < at + n then Padded(CString(src), n)[k - at] else old(dest[k])
  {
    var i := 0;
    while i < n && src[i] != NUL
      invariant i <= n
      invariant forall k :: 0 <= k < i ==> src[k] != NUL
      invariant forall k :: 0 <= k < dest.Length ==>
                  dest[k] == if at <= k < at + i then src[k - at] else old(dest[k])
    {
      dest[at + i] := src[i];
      i := i + 1;
    }
    FindIs(NUL, src, i);
    ghost var len := i;
    while i < n
      invariant len <= i <= n
      invariant forall k :: 0 <= k < dest.Length ==>
                  dest[k] == if at <= k < at + len then src[k - at]
                             else if at + len <= k < at + i then NUL else old(dest[k])
    {
      dest[at + i] := NUL;
      i := i + 1;
    }
  }

  /** read_dentry_by_index. */
  method ReadDentryByIndex(img: Image, index: nat) returns (r: int, d: Dentry)
    requires HasEntry(img, index)
    ensures r == SUCCESS && d == Entry(img, index)
  {
    var name := new byte[32];
    Strncpy(name, 0, img[EntryBase(index)..EntryBase(index) + 32], 32);
    d := Dentry(name[..], Word(img, EntryBase(index) + 32), Word(img, EntryBase(index) + 36));
    return SUCCESS, d;
  }

  /** read_dentry_by_name: the first of the 63 entries with this name. */
  method ReadDentryByName(img: Image, fname: seq<byte>) returns (r: int, d: Dentry)
    requires |img| >= 4096 && NulFree(fname)
    ensures var k := Lookup(img, fname);
            if k < MAX_DENTRIES then r == SUCCESS && d == Entry(img, k) else r == FAILURE
  {
    d := Dentry([], 0, 0);
    if |fname| > 32 {
      assert forall j :: 0 <= j < MAX_DENTRIES ==> !Named(img, fname, j);
      LookupIs(img, fname, 0, MAX_DENTRIES);
      return FAILURE, d;
    }
    var i := 0;
    while i < MAX_DENTRIES
      invariant i <= MAX_DENTRIES
      invariant forall j {:trigger Named(img, fname, j)} :: 0 <= j < i ==> !Named(img, fname, j)
    {
      var c := Strncmp(img, EntryBase(i), fname, 32);
      assert c == 0 <==> Named(img, fname, i);
      if c == 0 {
        LookupIs(img, fname, 0, i);
        r, d := ReadDentryByIndex(img, i);
        return;
      }
      i := i + 1;
    }
    LookupIs(img, fname, 0, MAX_DENTRIES);
    return FAILURE, d;
  }
}
