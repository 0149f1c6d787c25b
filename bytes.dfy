/** Byte strings and the small pieces of Python's text handling that the
    package relies on: `str.encode()` (UTF-8), `str(int)`, `int(str)`,
    zero-padded `{n:0Wd}` formatting, `binascii.hexlify`, ASCII
    `lower()`/`upper()`, `str.isspace()` and `str.strip()`. */
module Bytes {
  import opened Wrappers

  /** One element of a Python `bytes` or `bytearray`. */
  type byte = b: int | 0 <= b < 256

  /** Bitwise exclusive or of two bytes, Python's `^` on values below 256. */
  function Xor(a: byte, b: byte): byte
  {
    ((a as bv8) ^ (b as bv8)) as int
  }

  /** `s[::-1]`: the sequence read backwards. */
  function Reversed<T>(s: seq<T>): (r: seq<T>)
    ensures |r| == |s|
    ensures forall k :: 0 <= k < |s| ==> r[k] == s[|s| - 1 - k]
  {
    seq(|s|, k requires 0 <= k < |s| => s[|s| - 1 - k])
  }

  predicate IsPalindrome<T(==)>(s: seq<T>)
  {
    forall k :: 0 <= k < |s| ==> s[k] == s[|s| - 1 - k]
  }

  // ---------------------------------------------------------------- UTF-8

  /** The UTF-8 encoding of one Unicode scalar value. */
  function EncodeChar(c: char): (r: seq<byte>)
    ensures 1 <= |r| <= 4
    ensures c as int < 128 <==> r == [c as int]
  {
    var cp := c as int;
    if cp < 0x80 then [cp]
    else if cp < 0x800 then [0xC0 + cp / 64, 0x80 + cp % 64]
    else if cp < 0x10000 then [0xE0 + cp / 4096, 0x80 + (cp / 64) % 64, 0x80 + cp % 64]
    else [0xF0 + cp / 262144, 0x80 + (cp / 4096) % 64, 0x80 + (cp / 64) % 64, 0x80 + cp % 64]
  }

  /** `s.encode()` with Python's default codec, UTF-8. */
  function Utf8(s: string): (r: seq<byte>)
    ensures |r| >= |s|
  {
    if s == [] then [] else EncodeChar(s[0]) + Utf8(s[1..])
  }

  lemma {:induction false} Utf8Concat(a: string, b: string)
    ensures Utf8(a + b) == Utf8(a) + Utf8(b)
  {
    if a == [] {
      assert a + b == b;
    } else {
      assert (a + b)[1..] == a[1..] + b;
      Utf8Concat(a[1..], b);
    }
  }

  predicate IsAscii(s: string)
  {
    forall k :: 0 <= k < |s| ==> s[k] as int < 128
  }

  /** On ASCII text the encoding is one byte per character, the code point. */
  lemma {:induction false} Utf8Ascii(s: string)
    requires IsAscii(s)
    ensures |Utf8(s)| == |s|
    ensures forall k :: 0 <= k < |s| ==> Utf8(s)[k] == s[k] as int
  {
    if s != [] {
      Utf8Ascii(s[1..]);
    }
  }

  // -------------------------------------------------------------- decimal

  predicate IsDigit(c: char)
  {
    '0' <= c <= '9'
  }

  predicate AllDigits(s: string)
  {
    forall k :: 0 <= k < |s| ==> IsDigit(s[k])
  }

  function DigitChar(d: nat): (c: char)
    requires d < 10
    ensures IsDigit(c) && c as int - 48 == d
  {
    (48 + d) as char
  }

  /** The decimal numeral of `n`, without leading zeros. */
  function NatToDigits(n: nat): (s: string)
    ensures 1 <= |s| && AllDigits(s)
    ensures n < 10 <==> |s| == 1
    decreases n
  {
    if n < 10 then [DigitChar(n)] else NatToDigits(n / 10) + [DigitChar(n % 10)]
  }

  /** The number a string of decimal digits denotes (leading zeros allowed). */
  function DigitsValue(s: string): nat
    requires AllDigits(s)
  {
    if s == [] then 0 else DigitsValue(s[..|s| - 1]) * 10 + (s[|s| - 1] as int - 48)
  }

  lemma {:induction false} DigitsValueOfNat(n: nat)
    ensures DigitsValue(NatToDigits(n)) == n
    decreases n
  {
    if n >= 10 {
      var s := NatToDigits(n);
      assert s[..|s| - 1] == NatToDigits(n / 10);
      DigitsValueOfNat(n / 10);
    }
  }

  lemma {:induction false} DigitsValueLeadingZeros(z: nat, d: string)
    requires AllDigits(d)
    ensures AllDigits(Zeros(z) + d)
    ensures DigitsValue(Zeros(z) + d) == DigitsValue(d)
    decreases |d|, z
  {
    var s := Zeros(z) + d;
    if d == [] {
      assert s == Zeros(z);
      if z > 0 {
        assert s[..|s| - 1] == Zeros(z - 1) + [];
        DigitsValueLeadingZeros(z - 1, []);
      }
    } else {
      assert s[..|s| - 1] == Zeros(z) + d[..|d| - 1];
      DigitsValueLeadingZeros(z, d[..|d| - 1]);
    }
  }

  function Zeros(k: nat): (s: string)
    ensures |s| == k && forall i :: 0 <= i < k ==> s[i] == '0'
  {
    seq(k, _ => '0')
  }

  /** Python `str(n)` for an integer. */
  function IntToDecimal(n: int): (s: string)
    ensures 1 <= |s|
    ensures 0 <= n < 10 ==> s == [DigitChar(n)]
  {
    if n < 0 then "-" + NatToDigits(-n) else NatToDigits(n)
  }

  /** Python `int(s)` on a numeral made of an optional sign and ASCII
      digits; any other text is the `ValueError` case, `None`. */
  function ParseInt(s: string): (r: Option<int>)
    ensures s != [] && AllDigits(s) ==> r == Some(DigitsValue(s))
    ensures s == [] ==> r == None
  {
    var signed := |s| > 0 && (s[0] == '-' || s[0] == '+');
    var digits := if signed then s[1..] else s;
    if |digits| == 0 || !AllDigits(digits) then None
    else if signed && s[0] == '-' then Some(-(DigitsValue(digits) as int))
    else Some(DigitsValue(digits))
  }

  /** Python's `f"{n:0Wd}"`: sign, then zeros up to the width, then digits. */
  function FormatZeroPadded(n: int, width: nat): (s: string)
    ensures |s| == if |IntToDecimal(n)| < width then width else |IntToDecimal(n)|
    ensures n >= 0 ==> AllDigits(s)
  {
    var digits := NatToDigits(if n < 0 then -n else n);
    var fill := if |IntToDecimal(n)| < width then width - |IntToDecimal(n)| else 0;
    DigitsValueLeadingZeros(fill, digits);
    (if n < 0 then "-" else "") + (Zeros(fill) + digits)
  }

  /** The padded numeral reads back as the number. */
  lemma FormatZeroPaddedRoundTrip(n: int, width: nat)
    ensures ParseInt(FormatZeroPadded(n, width)) == Some(n)
  {
    var fill := if |IntToDecimal(n)| < width then width - |IntToDecimal(n)| else 0;
    SignedPaddedParses(n, fill);
  }

  lemma SignedPaddedParses(n: int, fill: nat)
    ensures ParseInt((if n < 0 then "-" else "") + (Zeros(fill) + NatToDigits(if n < 0 then -n else n))) == Some(n)
  {
    var m: nat := if n < 0 then -n else n;
    DigitsValueOfNat(m);
    DigitsValueLeadingZeros(fill, NatToDigits(m));
    ParseSigned(n < 0, Zeros(fill) + NatToDigits(m));
  }

  lemma ParseSigned(negative: bool, d: string)
    requires d != [] && AllDigits(d)
    ensures ParseInt((if negative then "-" else "") + d)
         == Some(if negative then -(DigitsValue(d) as int) else DigitsValue(d))
  {
    if negative {
      assert ("-" + d)[1..] == d;
    } else {
      assert "" + d == d;
    }
  }

  /** `str(n)` is read back by `int(...)`. */
  lemma IntToDecimalRoundTrip(n: int)
    ensures ParseInt(IntToDecimal(n)) == Some(n)
  {
    DigitsValueOfNat(if n < 0 then -n else n);
    ParseSigned(n < 0, NatToDigits(if n < 0 then -n else n));
  }

  /** Distinct integers have distinct decimal numerals. */
  lemma IntToDecimalInjective(a: int, b: int)
    requires IntToDecimal(a) == IntToDecimal(b)
    ensures a == b
  {
    IntToDecimalRoundTrip(a);
    IntToDecimalRoundTrip(b);
  }

  // ------------------------------------------------------------------ hex

  predicate IsLowerHex(c: char)
  {
    '0' <= c <= '9' || 'a' <= c <= 'f'
  }

  predicate IsUpperHex(c: char)
  {
    '0' <= c <= '9' || 'A' <= c <= 'F'
  }

  function HexDigit(d: nat): (c: char)
    requires d < 16
    ensures IsLowerHex(c)
  {
    if d < 10 then (48 + d) as char else (87 + d) as char
  }

  function HexValue(c: char): (d: nat)
    requires IsLowerHex(c)
    ensures d < 16
  {
    if c <= '9' then c as int - 48 else c as int - 87
  }

  /** `hexlify(b).decode()`: two lower-case hex digits per byte. */
  function Hexlify(b: seq<byte>): (s: string)
    ensures |s| == 2 * |b|
    ensures forall k :: 0 <= k < |s| ==> IsLowerHex(s[k])
  {
    if b == [] then [] else [HexDigit(b[0] / 16), HexDigit(b[0] % 16)] + Hexlify(b[1..])
  }

  /** The inverse of `Hexlify`, `binascii.unhexlify` on lower-case text. */
  function Unhexlify(s: string): seq<byte>
    requires |s| % 2 == 0
    requires forall k :: 0 <= k < |s| ==> IsLowerHex(s[k])
  {
    if s == [] then [] else [HexValue(s[0]) * 16 + HexValue(s[1])] + Unhexlify(s[2..])
  }

  lemma {:induction false} HexlifyRoundTrip(b: seq<byte>)
    ensures Unhexlify(Hexlify(b)) == b
  {
    if b != [] {
      var s := Hexlify(b);
      assert s[2..] == Hexlify(b[1..]);
      HexlifyRoundTrip(b[1..]);
    }
  }

  // ---------------------------------------------------------- ASCII case

  function LowerChar(c: char): char
  {
    if 'A' <= c <= 'Z' then (c as int + 32) as char else c
  }

  function UpperChar(c: char): char
  {
    if 'a' <= c <= 'z' then (c as int - 32) as char else c
  }

  /** `s.lower()` on the ASCII letters. */
  function Lower(s: string): (r: string)
    ensures |r| == |s|
    ensures forall k :: 0 <= k < |s| ==> r[k] == LowerChar(s[k])
  {
    seq(|s|, k requires 0 <= k < |s| => LowerChar(s[k]))
  }

  /** `s.upper()` on the ASCII letters. */
  function Upper(s: string): (r: string)
    ensures |r| == |s|
    ensures forall k :: 0 <= k < |s| ==> r[k] == UpperChar(s[k])
  {
    seq(|s|, k requires 0 <= k < |s| => UpperChar(s[k]))
  }

  // ----------------------------------------------------------- whitespace

  /** Python's `str.isspace()` for one character (also what `\s` matches in
      a `re` pattern over `str`). */
  predicate IsSpace(c: char)
  {
    || c == ' ' || '\t' <= c <= '\r' || '\U{1C}' <= c <= '\U{1F}'
    || c == '\U{85}' || c == '\U{A0}' || c == '\U{1680}'
    || '\U{2000}' <= c <= '\U{200A}' || c == '\U{2028}' || c == '\U{2029}'
    || c == '\U{202F}' || c == '\U{205F}' || c == '\U{3000}'
  }

  function StripLeft(s: string): (r: string)
    ensures |r| <= |s| && r == s[|s| - |r|..]
    ensures r == [] || !IsSpace(r[0])
    ensures forall k :: 0 <= k < |s| - |r| ==> IsSpace(s[k])
  {
    if s != [] && IsSpace(s[0]) then StripLeft(s[1..]) else s
  }

  function StripRight(s: string): (r: string)
    ensures |r| <= |s| && r == s[..|r|]
    ensures r == [] || !IsSpace(r[|r| - 1])
    ensures forall k :: |r| <= k < |s| ==> IsSpace(s[k])
  {
    if s != [] && IsSpace(s[|s| - 1]) then StripRight(s[..|s| - 1]) else s
  }

  /** `r` is the slice of `s` that starts at `i`, and everything of `s`
      before and after it is whitespace. */
  predicate SliceAmidSpace(s: string, i: int, r: string)
  {
    0 <= i && i + |r| <= |s| && r == s[i..i + |r|]
    && (forall k :: 0 <= k < i ==> IsSpace(s[k]))
    && (forall k :: i + |r| <= k < |s| ==> IsSpace(s[k]))
  }

  /** `s.strip()`: leading and trailing whitespace removed. The result is
      the slice of `s` that starts after its leading whitespace, with only
      whitespace after it and none at its ends. */
  function Strip(s: string): (r: string)
    ensures |r| <= |s|
    ensures r == [] || (!IsSpace(r[0]) && !IsSpace(r[|r| - 1]))
    ensures SliceAmidSpace(s, |s| - |StripLeft(s)|, r)
    ensures (s == [] || (!IsSpace(s[0]) && !IsSpace(s[|s| - 1]))) ==> r == s
  {
    var left := StripLeft(s);
    var r := StripRight(left);
    StripSlice(s, left, r);
    r
  }

  /** Whatever removes whitespace from the left of `s` and then from the
      right leaves a slice of `s` with only whitespace around it, and keeps
      text that has no whitespace at its ends. */
  lemma StripSlice(s: string, left: string, r: string)
    requires |left| <= |s| && left == s[|s| - |left|..]
    requires left == [] || !IsSpace(left[0])
    requires forall k :: 0 <= k < |s| - |left| ==> IsSpace(s[k])
    requires |r| <= |left| && r == left[..|r|]
    requires r == [] || !IsSpace(r[|r| - 1])
    requires forall k :: |r| <= k < |left| ==> IsSpace(left[k])
    ensures r == [] || (!IsSpace(r[0]) && !IsSpace(r[|r| - 1]))
    ensures SliceAmidSpace(s, |s| - |left|, r)
    ensures (s == [] || (!IsSpace(s[0]) && !IsSpace(s[|s| - 1]))) ==> r == s
  {
    var i := |s| - |left|;
    assert r == s[i..i + |r|] by {
      PrefixOfSuffix(s, left, r);
    }
    assert r == [] || !IsSpace(r[0]) by {
      if r != [] {
        assert r[0] == left[0];
      }
    }
    forall k | i + |r| <= k < |s|
      ensures IsSpace(s[k])
    {
      assert s[k] == left[k - i];
    }
    if s != [] && !IsSpace(s[0]) && !IsSpace(s[|s| - 1]) {
      assert i == 0;
      assert left == s;
      assert r == left;
    }
  }

  /** A prefix `r` of a suffix `left` of `s` is a slice of `s`. */
  lemma PrefixOfSuffix(s: string, left: string, r: string)
    requires |left| <= |s| && left == s[|s| - |left|..]
    requires |r| <= |left| && r == left[..|r|]
    ensures var i := |s| - |left|;
            r == s[i..i + |r|]
  {
  }
}
