/** The kernel's memory routines.  Memory is an array of bytes and an address
    is an index into it. */
module Memory {
  import opened Bytes

  /** Byte k of a little-endian double word. */
  function ByteOf(w: nat, k: nat): byte
    requires k < 4
  {
    ((if k == 0 then w else if k == 1 then w / 0x100 else if k == 2 then w / 0x1_0000 else w / 0x100_0000) % 0x100) as byte
  }

  /** c << 24 | c << 16 | c << 8 | c */
  function Replicate(c: byte): nat {
    c as nat * 0x101_0101
  }

  lemma ReplicateDivided(n: nat)
    ensures n * 0x101_0101 / 0x100 == n * 0x1_0101 || n >= 0x100
    ensures n * 0x101_0101 / 0x1_0000 == n * 0x101 || n >= 0x100
    ensures n * 0x101_0101 / 0x100_0000 == n || n >= 0x100
  {
  }

  lemma ReplicateByte(c: byte, k: nat)
    requires k < 4
    ensures ByteOf(Replicate(c), k) == c
  {
    var n := c as nat;
    ReplicateDivided(n);
    if k == 0 {
      LowByte(n, n * 0x1_0101);
    } else if k == 1 {
      LowByte(n, n * 0x101);
    } else if k == 2 {
      LowByte(n, n);
    } else {
      LowByte(n, 0);
    }
  }

  lemma ReplicateBytes(c: byte)
    ensures forall k :: 0 <= k < 4 ==> ByteOf(Replicate(c), k) == c
  {
    forall k | 0 <= k < 4 ensures ByteOf(Replicate(c), k) == c {
      ReplicateByte(c, k);
    }
  }

  /** One double word is stored. */
  method Stosl(mem: array<byte>, edi: nat, eax: nat)
    requires edi + 4 <= mem.Length
    modifies mem
    ensures forall k :: 0 <= k < mem.Length ==>
              mem[k] == if edi <= k < edi + 4 then ByteOf(eax, k - edi) else old(mem[k])
  {
    mem[edi], mem[edi + 1], mem[edi + 2], mem[edi + 3] := ByteOf(eax, 0), ByteOf(eax, 1), ByteOf(eax, 2), ByteOf(eax, 3);
  }

  /** memset: bytes up to a double word boundary, then double words, then bytes. */
  method Memset(mem: array<byte>, s: nat, c: int, n: nat)
    requires s + n <= mem.Length
    modifies mem
    ensures forall k :: 0 <= k < mem.Length ==>
              mem[k] == if s <= k < s + n then (c % 0x100) as byte else old(mem[k])
  {
    var al := (c % 0x100) as byte;
    var eax, edi: nat, ecx: nat := Replicate(al), s, n;
    ReplicateBytes(al);
    while ecx != 0 && edi % 4 != 0
      invariant s <= edi && edi + ecx == s + n
      invariant forall k :: 0 <= k < mem.Length ==> mem[k] == if s <= k < edi then al else old(mem[k])
      decreases ecx
    {
      mem[edi] := al;
      edi, ecx := edi + 1, ecx - 1;
    }
    var edx: nat := ecx % 4;
    ecx := ecx / 4;
    while ecx != 0
      invariant s <= edi && edi + 4 * ecx + edx == s + n
      invariant forall k :: 0 <= k < mem.Length ==> mem[k] == if s <= k < edi then al else old(mem[k])
      decreases ecx
    {
      Stosl(mem, edi, eax);
      edi, ecx := edi + 4, ecx - 1;
    }
    while edx != 0
      invariant s <= edi && edi + edx == s + n
      invariant forall k :: 0 <= k < mem.Length ==> mem[k] == if s <= k < edi then al else old(mem[k])
      decreases edx
    {
      mem[edi] := al;
      edi, edx := edi + 1, edx - 1;
    }
  }

  /** Memory after n bytes have been copied from src to dest, all of them as
      they were before. */
  function Copied(mem: seq<byte>, dest: nat, src: nat, n: nat): (r: seq<byte>)
    requires dest + n <= |mem| && src + n <= |mem|
    ensures |r| == |mem|
    ensures forall k :: 0 <= k < |r| ==> r[k] == if dest <= k < dest + n then mem[src + (k - dest)] else mem[k]
  {
    seq(|mem|, k requires 0 <= k < |mem| => if dest <= k < dest + n then mem[src + (k - dest)] else mem[k])
  }

  /** A destination that a forward copy of n bytes does not spoil. */
  predicate Forward(dest: nat, src: nat, n: nat) {
    dest <= src || src + n <= dest
  }

  /** A copy in two parts. */
  lemma CopiedOn(mem: seq<byte>, dest: nat, src: nat, m: nat, n: nat)
    requires dest + m + n <= |mem| && src + m + n <= |mem| && Forward(dest, src, m + n)
    ensures Copied(Copied(mem, dest, src, m), dest + m, src + m, n) == Copied(mem, dest, src, m + n)
  {
  }

  lemma CopiedNone(mem: seq<byte>, dest: nat, src: nat)
    requires dest <= |mem| && src <= |mem|
    ensures Copied(mem, dest, src, 0) == mem
  {
  }

  /** One byte is copied. */
  method Movsb(mem: array<byte>, edi: nat, esi: nat)
    requires edi < mem.Length && esi < mem.Length
    modifies mem
    ensures mem[..] == Copied(old(mem[..]), edi, esi, 1)
  {
    mem[edi] := mem[esi];
  }

  /** One double word is read, then stored. */
  method Movsl(mem: array<byte>, edi: nat, esi: nat)
    requires edi + 4 <= mem.Length && esi + 4 <= mem.Length
    modifies mem
    ensures mem[..] == Copied(old(mem[..]), edi, esi, 4)
  {
    mem[edi], mem[edi + 1], mem[edi + 2], mem[edi + 3] := mem[esi], mem[esi + 1], mem[esi + 2], mem[esi + 3];
  }

  /** Bytes are copied while there are any and, if asked for, the destination is not aligned. */
  method CopyBytes(mem: array<byte>, dest: nat, src: nat, n: nat, toBoundary: bool) returns (left: nat)
    requires dest + n <= mem.Length && src + n <= mem.Length && Forward(dest, src, n)
    modifies mem
    ensures left <= n && (left != 0 ==> toBoundary && (dest + (n - left)) % 4 == 0)
    ensures mem[..] == Copied(old(mem[..]), dest, src, n - left)
  {
    var edi: nat, esi: nat := dest, src;
    left := n;
    CopiedNone(mem[..], dest, src);
    while left != 0 && (!toBoundary || edi % 4 != 0)
      invariant left <= n && edi == dest + (n - left) && esi == src + (n - left)
      invariant mem[..] == Copied(old(mem[..]), dest, src, n - left)
      decreases left
    {
      CopiedOn(old(mem[..]), dest, src, n - left, 1);
      Movsb(mem, edi, esi);
      edi, esi, left := edi + 1, esi + 1, left - 1;
    }
  }

  /** rep movsl, over `size` bytes. */
  method CopyWords(mem: array<byte>, dest: nat, src: nat, words: nat, ghost size: nat)
    requires size == 4 * words
    requires dest + size <= mem.Length && src + size <= mem.Length && Forward(dest, src, size)
    modifies mem
    ensures mem[..] == Copied(old(mem[..]), dest, src, size)
  {
    var edi: nat, esi: nat, ecx: nat := dest, src, words;
    ghost var done: nat := 0;
    CopiedNone(mem[..], dest, src);
    while ecx != 0
      invariant done + 4 * ecx == size && edi == dest + done && esi == src + done
      invariant mem[..] == Copied(old(mem[..]), dest, src, done)
      decreases ecx
    {
      CopiedOn(old(mem[..]), dest, src, done, 4);
      Movsl(mem, edi, esi);
      edi, esi, ecx := edi + 4, esi + 4, ecx - 1;
      done := done + 4;
    }
  }

  /** Double words, then the bytes after the last of them. */
  method CopyAligned(mem: array<byte>, dest: nat, src: nat, n: nat)
    requires dest + n <= mem.Length && src + n <= mem.Length && Forward(dest, src, n)
    modifies mem
    ensures mem[..] == Copied(old(mem[..]), dest, src, n)
  {
    var words: nat, edx: nat := n / 4, n % 4;
    CopyWords(mem, dest, src, words, 4 * words);
    CopiedOn(old(mem[..]), dest, src, 4 * words, edx);
    var left := CopyBytes(mem, dest + 4 * words, src + 4 * words, edx, false);
  }

  /** memcpy: bytes up to a double word boundary, then double words, then
      bytes.  It is asked only for areas that do not overlap, but it is right
      as well for a destination below the source. */
  method Memcpy(mem: array<byte>, dest: nat, src: nat, n: nat)
    requires dest + n <= mem.Length && src + n <= mem.Length && Forward(dest, src, n)
    modifies mem
    ensures mem[..] == Copied(old(mem[..]), dest, src, n)
  {
    var ecx := CopyBytes(mem, dest, src, n, true);
    CopiedOn(old(mem[..]), dest, src, n - ecx, ecx);
    CopyAligned(mem, dest + (n - ecx), src + (n - ecx), ecx);
  }

  /** memmove: forwards if the source is not below the destination, else
      backwards from the last byte; right for every overlap. */
  method Memmove(mem: array<byte>, dest: nat, src: nat, n: nat)
    requires dest + n <= mem.Length && src + n <= mem.Length
    modifies mem
    ensures mem[..] == Copied(old(mem[..]), dest, src, n)
  {
    var edi: int, esi: int, ecx: nat, step := dest, src, n, 1;
    if esi < edi {
      edi, esi, step := edi + ecx - 1, esi + ecx - 1, -1;
    }
    while ecx != 0
      invariant ecx <= n && edi - dest == esi - src
      invariant if step == 1 then dest <= src && edi == dest + n - ecx
                else step == -1 && src < dest && edi == dest + ecx - 1
      invariant forall k :: 0 <= k < mem.Length ==>
                  mem[k] == if (if step == 1 then dest <= k < edi else edi < k < dest + n)
                            then old(mem[src + (k - dest)]) else old(mem[k])
      decreases ecx
    {
      mem[edi] := mem[esi];
      edi, esi, ecx := edi + step, esi + step, ecx - 1;
    }
  }
}
