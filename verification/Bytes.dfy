/** Bytes and the C strings built from them.

    A C string that is only read is modelled by the bytes before its
    terminator: a sequence without NUL. */
module Bytes {

  newtype byte = x: int | 0 <= x < 256

  const NUL: byte := 0
  const BACKSPACE: byte := 8
  const NEWLINE: byte := 10
  const RETURN: byte := 13
  const SPACE: byte := 32

  const U32: int := 0x1_0000_0000
  const FAILURE: int := -1
  const SUCCESS: int := 0

  function Min(a: int, b: int): int {
    if a < b then a else b
  }

  function Max(a: int, b: int): int {
    if a < b then b else a
  }

  /** The bytes of a string literal. */
  function Ascii(s: string): (r: seq<byte>)
    requires forall k :: 0 <= k < |s| ==> s[k] as int < 128
    ensures |r| == |s| && forall k :: 0 <= k < |r| ==> r[k] as int == s[k] as int
  {
    seq(|s|, k requires 0 <= k < |s| => s[k] as int as byte)
  }

  /** n as an unsigned 32-bit integer. */
  function Unsigned(n: int): (r: nat)
    ensures r < U32
    ensures 0 <= n < U32 ==> r == n
    ensures U32 <= n < 2 * U32 ==> r == n - U32
    ensures -U32 <= n < 0 ==> r == n + U32
  {
    n % U32
  }

  lemma LowByte(n: nat, high: nat)
    requires n < 0x100
    ensures (n + 0x100 * high) % 0x100 == n && (n + 0x100 * high) / 0x100 == high
  {
  }

  lemma Associative<T>(a: seq<T>, b: seq<T>, c: seq<T>)
    ensures a + (b + c) == (a + b) + c
  {
  }

  /** The index of the first c in s, or |s|. */
  function Find(c: byte, s: seq<byte>): (n: nat)
    ensures n <= |s|
    ensures forall k :: 0 <= k < n ==> s[k] != c
    ensures n < |s| ==> s[n] == c
  {
    FindFrom(c, s, 0)
  }

  function FindFrom(c: byte, s: seq<byte>, from: nat): (n: nat)
    requires from <= |s|
    ensures from <= n <= |s|
    ensures forall k :: from <= k < n ==> s[k] != c
    ensures n < |s| ==> s[n] == c
    decreases |s| - from
  {
    if from == |s| || s[from] == c then from else FindFrom(c, s, from + 1)
  }

  lemma FindIs(c: byte, s: seq<byte>, n: nat)
    requires n <= |s| && (forall k :: 0 <= k < n ==> s[k] != c) && (n < |s| ==> s[n] == c)
    ensures Find(c, s) == n
  {
  }

  ghost predicate NulFree(s: seq<byte>) {
    forall k :: 0 <= k < |s| ==> s[k] != NUL
  }

  /** The C string stored in s: the bytes before the first NUL. */
  function CString(s: seq<byte>): (r: seq<byte>)
    ensures NulFree(r)
  {
    s[..Find(NUL, s)]
  }

  /** It is what stands before the first NUL, whatever is behind that. */
  lemma CStringBefore(text: seq<byte>, rest: seq<byte>)
    requires NulFree(text)
    ensures CString(text) == text && CString(text + [NUL] + rest) == text
  {
    FindIs(NUL, text, |text|);
    FindIs(NUL, text + [NUL] + rest, |text|);
  }

  /** Byte i of the C string r, its terminator included. */
  function CharAt(r: seq<byte>, i: nat): byte
    requires i <= |r|
  {
    if i < |r| then r[i] else NUL
  }

  /** The array holds the C string `text`, terminated, from index `at` on. */
  ghost predicate Holds(a: array<byte>, at: nat, text: seq<byte>)
    reads a
  {
    && NulFree(text)
    && at + |text| < a.Length
    && (forall k :: at <= k < at + |text| ==> a[k] == text[k - at])
    && a[at + |text|] == NUL
  }

  /** strlen on a string held in an array. */
  method Strlen(a: array<byte>, at: nat, ghost text: seq<byte>) returns (len: nat)
    requires Holds(a, at, text)
    ensures len == |text|
  {
    len := 0;
    while a[at + len] != NUL
      invariant len <= |text|
      decreases |text| - len
    {
      len := len + 1;
    }
  }
}
