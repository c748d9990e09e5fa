/** Numbers as text: itoa, strrev and the numeric conversions of printf. */
module Numbers {
  import opened Bytes

  // ---------------------------------------------------------- specification

  /** The digit of value i: '0' to '9', then 'A' to 'Z'. */
  function Digit(i: nat): byte
    requires i < 36
  {
    if i < 10 then (48 + i) as byte else (55 + i) as byte
  }

  /** '0' to '9' and 'A' to 'Z', in this order. */
  lemma DigitIs(i: nat)
    requires i < 36
    ensures Digit(i) as int == if i < 10 then '0' as int + i else 'A' as int + (i - 10)
  {
  }

  function DigitValue(c: byte): int {
    if c < 65 then c as int - 48 else c as int - 55
  }

  /** The digits of a positive number, most significant first; none for 0. */
  function Digits(v: nat, radix: nat): seq<byte>
    requires 2 <= radix <= 36
  {
    if v == 0 then [] else Digits(v / radix, radix) + [Digit(v % radix)]
  }

  /** The text of a number. */
  function Numeral(v: nat, radix: nat): (s: seq<byte>)
    requires 2 <= radix <= 36
  {
    if v == 0 then [Digit(0)] else Digits(v, radix)
  }

  /** What a string of digits denotes. */
  function Parse(s: seq<byte>, radix: nat): int {
    if s == [] then 0 else radix * Parse(s[..|s| - 1], radix) + DigitValue(s[|s| - 1])
  }

  function Power(radix: nat, n: nat): nat {
    if n == 0 then 1 else radix * Power(radix, n - 1)
  }

  /** The first digit counts for its value times a power of the radix. */
  lemma {:induction false} ParseFirst(c: byte, s: seq<byte>, radix: nat)
    ensures Parse([c] + s, radix) == DigitValue(c) * Power(radix, |s|) + Parse(s, radix)
  {
    if s == [] {
      assert ([c] + s)[..0] == [] && Parse([], radix) == 0;
    } else {
      var n := |s| - 1;
      ParseFirst(c, s[..n], radix);
      assert ([c] + s)[..n + 1] == [c] + s[..n];
      TimesSum(radix, DigitValue(c), Power(radix, n), Parse(s[..n], radix));
    }
  }

  lemma TimesSum(r: int, d: int, p: int, q: int)
    ensures r * (d * p + q) == d * (r * p) + r * q
  {
  }

  lemma DivMod(v: nat, radix: nat)
    requires radix >= 2
    ensures v == radix * (v / radix) + v % radix && v % radix < radix
    ensures v > 0 ==> v / radix < v
    ensures v / radix == 0 <==> v < radix
  {
  }

  lemma ParseAppend(s: seq<byte>, d: nat, radix: nat)
    requires d < 36
    ensures Parse(s + [Digit(d)], radix) == radix * Parse(s, radix) + d
  {
    assert (s + [Digit(d)])[..|s|] == s;
  }

  lemma {:induction false} DigitsNulFree(v: nat, radix: nat)
    requires 2 <= radix <= 36
    ensures NulFree(Digits(v, radix))
  {
    if v > 0 {
      DivMod(v, radix);
      DigitsNulFree(v / radix, radix);
    }
  }

  lemma {:induction false} DigitsParse(v: nat, radix: nat)
    requires 2 <= radix <= 36
    ensures Parse(Digits(v, radix), radix) == v
    ensures NulFree(Digits(v, radix))
  {
    DigitsNulFree(v, radix);
    if v > 0 {
      DivMod(v, radix);
      var q, d := v / radix, v % radix;
      DigitsParse(q, radix);
      ParseAppend(Digits(q, radix), d, radix);
      assert Digits(v, radix) == Digits(q, radix) + [Digit(d)];
    }
  }

  lemma {:induction false} DigitsLead(v: nat, radix: nat)
    requires 2 <= radix <= 36 && v > 0
    ensures Digits(v, radix) != [] && Digits(v, radix)[0] != Digit(0)
  {
    DivMod(v, radix);
    var q := v / radix;
    if q == 0 {
      assert Digits(q, radix) == [];
      assert Digits(v, radix) == [Digit(v)];
    } else {
      DigitsLead(q, radix);
    }
  }

  lemma {:induction false} TimesMonotonic(a: nat, b: nat, c: nat)
    requires b <= c
    ensures a * b <= a * c
  {
  }

  lemma {:induction false} DigitsCount(v: nat, radix: nat)
    requires 2 <= radix <= 36 && v > 0
    ensures Digits(v, radix) != []
    ensures Power(radix, |Digits(v, radix)| - 1) <= v < Power(radix, |Digits(v, radix)|)
  {
    DivMod(v, radix);
    var q := v / radix;
    var n := |Digits(q, radix)|;
    assert |Digits(v, radix)| == n + 1;
    if q == 0 {
      assert Digits(q, radix) == [];
      assert Power(radix, 1) == radix * Power(radix, 0) == radix;
    } else {
      DigitsCount(q, radix);
      CountStep(v, q, radix, Power(radix, n - 1), Power(radix, n));
    }
  }

  lemma CountStep(v: nat, q: nat, radix: nat, low: nat, high: nat)
    requires radix * q <= v < radix * q + radix && low <= q < high
    ensures radix * low <= v < radix * high
  {
    TimesMonotonic(radix, q + 1, high);
    TimesMonotonic(radix, low, q);
    assert radix * (q + 1) == radix * q + radix;
  }

  lemma NumeralParse(v: nat, radix: nat)
    requires 2 <= radix <= 36
    ensures NulFree(Numeral(v, radix)) && Parse(Numeral(v, radix), radix) == v
  {
    DigitsParse(v, radix);
    if v == 0 {
      assert Parse([Digit(0)][..0], radix) == 0;
    }
  }

  /** Parsing a number's text gives the number back; the text has no leading
      zero (but "0" itself) and as few digits as the number needs. */
  lemma NumeralRoundTrip(v: nat, radix: nat)
    requires 2 <= radix <= 36
    ensures var s := Numeral(v, radix);
            && s != [] && NulFree(s)
            && Parse(s, radix) == v
            && (s[0] == Digit(0) <==> v == 0)
            && v < Power(radix, |s|) && (|s| > 1 ==> Power(radix, |s| - 1) <= v)
  {
    NumeralParse(v, radix);
    if v > 0 {
      DigitsLead(v, radix);
      DigitsCount(v, radix);
    }
  }

  lemma {:induction false} PowerMonotonic(radix: nat, m: nat, n: nat)
    requires radix >= 1 && m <= n
    ensures Power(radix, m) <= Power(radix, n)
  {
    if m < n {
      PowerMonotonic(radix, m, n - 1);
      TimesMonotonic(Power(radix, n - 1), 1, radix);
      assert Power(radix, n) == radix * Power(radix, n - 1);
    }
  }

  /** A number below radix to the n has at most n digits. */
  lemma FewDigits(v: nat, radix: nat, n: nat)
    requires 2 <= radix <= 36 && v < Power(radix, n) && n > 0
    ensures |Numeral(v, radix)| <= n
  {
    NumeralRoundTrip(v, radix);
    var m := |Numeral(v, radix)|;
    if m > n {
      PowerMonotonic(radix, n, m - 1);
    }
  }

  function Zeros(z: nat): (r: seq<byte>)
    ensures |r| == z && forall k :: 0 <= k < z ==> r[k] == Digit(0)
  {
    if z == 0 then [] else Zeros(z - 1) + [Digit(0)]
  }

  lemma {:induction false} LeadingZeros(s: seq<byte>, z: nat, radix: nat)
    ensures Parse(Zeros(z) + s, radix) == Parse(s, radix)
  {
    var t := Zeros(z) + s;
    if s != [] {
      LeadingZeros(s[..|s| - 1], z, radix);
      assert t[..|t| - 1] == Zeros(z) + s[..|s| - 1];
    } else if z > 0 {
      LeadingZeros(s, z - 1, radix);
      assert t[..|t| - 1] == Zeros(z - 1) + s;
    }
  }

  // ---------------------------------------------------------------- program

  /** strrev: the string at `at` is reversed in place. */
  method Strrev(s: array<byte>, at: nat, ghost text: seq<byte>)
    requires Holds(s, at, text)
    modifies s
    ensures forall k :: 0 <= k < s.Length ==>
              s[k] == if at <= k < at + |text| then text[at + |text| - 1 - k] else old(s[k])
  {
    var len := Strlen(s, at, text);
    var beg: int, end: int := 0, len as int - 1;
    while beg < end
      invariant 0 <= beg <= end + 1 && beg + end + 1 == len
      invariant forall k :: 0 <= k < s.Length ==>
                  s[k] == if at <= k < at + beg || at + end < k < at + len then text[at + len - 1 - k] else old(s[k])
      decreases end
    {
      s[at + end], s[at + beg] := s[at + beg], s[at + end];
      beg, end := beg + 1, end - 1;
    }
  }

  /** The reverse of s. */
  function Reversed(s: seq<byte>): (r: seq<byte>)
    ensures |r| == |s|
  {
    seq(|s|, k requires 0 <= k < |s| => s[|s| - 1 - k])
  }

  /** The digit loop of itoa: the digits of value, least significant first. */
  method DigitLoop(value: nat, buf: array<byte>, at: nat, radix: nat) returns (newbuf: nat)
    requires 2 <= radix <= 36 && at + |Digits(value, radix)| <= buf.Length
    modifies buf
    ensures var digits := Digits(value, radix);
            && newbuf == at + |digits|
            && (forall k :: at <= k < newbuf ==> buf[k] == digits[newbuf - 1 - k])
            && (forall k :: 0 <= k < buf.Length && (k < at || newbuf <= k) ==> buf[k] == old(buf[k]))
  {
    ghost var digits := Digits(value, radix);
    var newval: nat := value;
    newbuf := at;
    while newval > 0
      invariant at <= newbuf <= at + |digits| && Digits(newval, radix) == digits[..at + |digits| - newbuf]
      invariant forall k :: at <= k < newbuf ==> buf[k] == digits[at + |digits| - 1 - k]
      invariant forall k :: 0 <= k < buf.Length && (k < at || newbuf <= k) ==> buf[k] == old(buf[k])
      decreases newval
    {
      DivMod(newval, radix);
      ghost var shown := Digits(newval, radix);
      var i := newval % radix;
      newval := newval / radix;
      ghost var m := at + |digits| - newbuf;
      assert shown == Digits(newval, radix) + [Digit(i)];
      assert digits[m - 1] == shown[m - 1] == Digit(i);
      assert Digits(newval, radix) == shown[..m - 1] == digits[..m - 1];
      buf[newbuf] := Digit(i);
      newbuf := newbuf + 1;
    }
  }

  /** The end of itoa: the digits are terminated and turned round. */
  method TurnRound(buf: array<byte>, at: nat, newbuf: nat, ghost digits: seq<byte>)
    requires NulFree(digits) && newbuf == at + |digits| < buf.Length
    requires forall k :: at <= k < newbuf ==> buf[k] == digits[newbuf - 1 - k]
    modifies buf
    ensures Holds(buf, at, digits)
    ensures forall k :: 0 <= k < buf.Length && (k < at || newbuf < k) ==> buf[k] == old(buf[k])
  {
    buf[newbuf] := NUL;
    Strrev(buf, at, Reversed(digits));
  }

  /** itoa: the text of value and a terminator are stored at `at`. */
  method Itoa(value: nat, buf: array<byte>, at: nat, radix: nat)
    requires 2 <= radix <= 36 && at + |Numeral(value, radix)| < buf.Length
    modifies buf
    ensures Holds(buf, at, Numeral(value, radix))
    ensures forall k :: 0 <= k < buf.Length && (k < at || at + |Numeral(value, radix)| < k) ==> buf[k] == old(buf[k])
  {
    if value == 0 {
      buf[at] := Digit(0);
      buf[at + 1] := NUL;
      return;
    }
    ghost var digits := Digits(value, radix);
    DigitsParse(value, radix);
    var newbuf := DigitLoop(value, buf, at, radix);
    TurnRound(buf, at, newbuf, digits);
  }

  /** puts: the bytes it sends to the console, and their number. */
  method Puts(a: array<byte>, at: nat, ghost text: seq<byte>) returns (index: nat, out: seq<byte>)
    requires Holds(a, at, text)
    ensures out == text && index == |text|
  {
    index, out := 0, [];
    while a[at + index] != NUL
      invariant index == |out| <= |text| && out == text[..|out|]
      decreases |text| - index
    {
      out := out + [a[at + index]];
      index := index + 1;
    }
  }

  /** printf's %x and %u. */
  method PrintUnsigned(value: nat, radix: nat) returns (out: seq<byte>)
    requires value < U32 && (radix == 16 || radix == 10)
    ensures out == Numeral(value, radix)
  {
    var convBuf := new byte[36];
    U32Digits(value, radix);
    Itoa(value, convBuf, 0, radix);
    var count;
    count, out := Puts(convBuf, 0, Numeral(value, radix));
  }

  /** A 32-bit number has at most 32 digits, and at most 8 in hexadecimal. */
  lemma U32Digits(value: nat, radix: nat)
    requires 2 <= radix <= 36 && value < U32
    ensures |Numeral(value, radix)| <= 32
    ensures radix == 16 ==> |Numeral(value, radix)| <= 8
    ensures radix == 10 ==> |Numeral(value, radix)| <= 10
  {
    Powers();
    PowerBase(2, radix, 32);
    FewDigits(value, radix, 32);
    if radix == 16 {
      FewDigits(value, 16, 8);
    }
    if radix == 10 {
      FewDigits(value, 10, 10);
    }
  }

  lemma Powers()
    ensures Power(2, 32) == U32 && Power(16, 8) == U32 && Power(10, 10) == 10_000_000_000
  {
    assert Power(16, 4) == 0x1_0000;
    assert Power(10, 5) == 100_000;
    assert Power(2, 8) == 0x100;
    assert Power(2, 16) == 0x1_0000;
    assert Power(2, 24) == 0x100_0000;
  }

  lemma {:induction false} PowerBase(a: nat, b: nat, n: nat)
    requires a <= b
    ensures Power(a, n) <= Power(b, n)
  {
    if n > 0 {
      PowerBase(a, b, n - 1);
      TimesMonotonic(a, Power(a, n - 1), Power(b, n - 1));
      TimesMonotonic(Power(b, n - 1), a, b);
    }
  }

  /** The zeros of %#x: the digits stand at index 8 and zeros go in front of
      them, so that eight characters start at the returned index. */
  method PadTo8(convBuf: array<byte>, ghost text: seq<byte>) returns (startingIndex: nat)
    requires |text| <= 8 && Holds(convBuf, 8, text)
    modifies convBuf
    ensures startingIndex == |text| && Holds(convBuf, startingIndex, Zeros(8 - |text|) + text)
  {
    startingIndex := Strlen(convBuf, 8, text);
    var i := startingIndex;
    while i < 8
      invariant |text| <= i <= 8
      invariant forall k :: |text| <= k < i ==> convBuf[k] == Digit(0)
      invariant Holds(convBuf, 8, text)
    {
      convBuf[i] := Digit(0);
      i := i + 1;
    }
  }

  /** printf's %#x. */
  method PrintHex8(value: nat) returns (out: seq<byte>)
    requires value < U32
    ensures |out| == 8 && Parse(out, 16) == value
    ensures |Numeral(value, 16)| <= 8 && out == Zeros(8 - |Numeral(value, 16)|) + Numeral(value, 16)
  {
    var convBuf := new byte[64];
    U32Digits(value, 16);
    NumeralRoundTrip(value, 16);
    ghost var text := Numeral(value, 16);
    LeadingZeros(text, 8 - |text|, 16);
    Itoa(value, convBuf, 8, 16);
    var startingIndex := PadTo8(convBuf, text);
    var count;
    count, out := Puts(convBuf, startingIndex, Zeros(8 - |text|) + text);
  }

  /** What a string of digits with an optional minus sign denotes. */
  function ParseSigned(s: seq<byte>): int {
    if s != [] && s[0] == 45 then -Parse(s[1..], 10) else Parse(s, 10)
  }

  /** The text of a signed number. */
  function SignedText(value: int): seq<byte> {
    if value < 0 then [45] + Numeral(-value, 10) else Numeral(value, 10)
  }

  /** Its value is that number, for the most negative 32-bit one too. */
  lemma {:induction false} SignedRoundTrip(value: int)
    requires -U32 < value < U32
    ensures NulFree(SignedText(value)) && |SignedText(value)| <= 11
    ensures ParseSigned(SignedText(value)) == value
    ensures SignedText(value) != [] && (SignedText(value)[0] as int == '-' as int <==> value < 0)
  {
    var magnitude: nat := if value < 0 then -value else value;
    U32Digits(magnitude, 10);
    NumeralParse(magnitude, 10);
    if value < 0 {
      ParseMinus(Numeral(magnitude, 10));
    } else {
      DigitsAreDigits(magnitude);
    }
  }

  lemma {:induction false} ParseMinus(s: seq<byte>)
    ensures ParseSigned([45] + s) == -Parse(s, 10)
  {
    assert ([45] + s)[1..] == s;
  }

  /** printf's %d: the minus sign, then the magnitude as an unsigned number,
      which is right for the most negative number too. */
  method PrintSigned(value: int) returns (out: seq<byte>)
    requires -0x8000_0000 <= value < 0x8000_0000
    ensures ParseSigned(out) == value
    ensures out == SignedText(value)
  {
    SignedRoundTrip(value);
    ghost var text := SignedText(value);
    var convBuf := new byte[36];
    if value < 0 {
      convBuf[0] := 45;
      Itoa(-value, convBuf, 1, 10);
    } else {
      Itoa(value, convBuf, 0, 10);
    }
    var count;
    count, out := Puts(convBuf, 0, text);
  }

  lemma {:induction false} DigitsAreDigits(v: nat)
    ensures Numeral(v, 10)[0] != 45
  {
    if v > 0 {
      FirstDigit(v);
    }
  }

  lemma {:induction false} FirstDigit(v: nat)
    requires v > 0
    ensures Digits(v, 10) != [] && 48 <= Digits(v, 10)[0] <= 57
  {
    if v >= 10 {
      FirstDigit(v / 10);
    } else {
      assert Digits(v / 10, 10) == [];
    }
  }
}
