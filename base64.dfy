/** Base 64 encoding with the standard alphabet and `=` padding, as in
    section 4 of RFC 4648 (`base64.b64encode`), and a reference decoder
    that undoes it. */
module Base64 {
  import opened Wrappers
  import opened Bytes

  /** The character for a 6-bit value: A-Z, a-z, 0-9, '+', '/'. */
  function EncodeSextet(v: nat): (c: char)
    requires v < 64
    ensures IsAlphabet(c)
  {
    if v < 26 then (65 + v) as char
    else if v < 52 then (97 + v - 26) as char
    else if v < 62 then (48 + v - 52) as char
    else if v == 62 then '+'
    else '/'
  }

  predicate IsAlphabet(c: char)
  {
    'A' <= c <= 'Z' || 'a' <= c <= 'z' || '0' <= c <= '9' || c == '+' || c == '/'
  }

  /** The 6-bit value of an alphabet character. */
  function DecodeSextet(c: char): (v: nat)
    requires IsAlphabet(c)
    ensures v < 64 && EncodeSextet(v) == c
  {
    if 'A' <= c <= 'Z' then c as int - 65
    else if 'a' <= c <= 'z' then c as int - 97 + 26
    else if '0' <= c <= '9' then c as int - 48 + 52
    else if c == '+' then 62
    else 63
  }

  lemma DecodeEncodeSextet(v: nat)
    requires v < 64
    ensures DecodeSextet(EncodeSextet(v)) == v
  {
  }

  /** Encodes `s` in groups of three bytes; a final group of one or two
      bytes is padded with "==" or "=". */
  function Encode(s: seq<byte>): (r: string)
    ensures |r| == 4 * ((|s| + 2) / 3)
    ensures forall k :: 0 <= k < |r| ==> IsAlphabet(r[k]) || r[k] == '='
  {
    if |s| == 0 then []
    else if |s| == 1 then
      [EncodeSextet(s[0] / 4), EncodeSextet((s[0] % 4) * 16), '=', '=']
    else if |s| == 2 then
      [EncodeSextet(s[0] / 4), EncodeSextet((s[0] % 4) * 16 + s[1] / 16),
       EncodeSextet((s[1] % 16) * 4), '=']
    else EncodeGroup(s[0], s[1], s[2]) + Encode(s[3..])
  }

  /** Three bytes as four characters. */
  function EncodeGroup(b0: byte, b1: byte, b2: byte): (g: string)
    ensures |g| == 4 && forall k :: 0 <= k < 4 ==> IsAlphabet(g[k])
  {
    [EncodeSextet(b0 / 4), EncodeSextet((b0 % 4) * 16 + b1 / 16),
     EncodeSextet((b1 % 16) * 4 + b2 / 64), EncodeSextet(b2 % 64)]
  }

  /** Reads one group of four characters back into one to three bytes. */
  function DecodeGroup(g: string): Option<seq<byte>>
    requires |g| == 4
  {
    if !IsAlphabet(g[0]) || !IsAlphabet(g[1]) then None
    else
      var c0, c1 := DecodeSextet(g[0]), DecodeSextet(g[1]);
      var b0 := c0 * 4 + c1 / 16;
      if g[2] == '=' && g[3] == '=' then Some([b0])
      else if !IsAlphabet(g[2]) then None
      else
        var c2 := DecodeSextet(g[2]);
        var b1 := (c1 % 16) * 16 + c2 / 4;
        if g[3] == '=' then Some([b0, b1])
        else if !IsAlphabet(g[3]) then None
        else Some([b0, b1, (c2 % 4) * 64 + DecodeSextet(g[3])])
  }

  /** The reference decoder: padding is accepted only in the last group. */
  function Decode(t: string): Option<seq<byte>>
  {
    if |t| == 0 then Some([])
    else if |t| % 4 != 0 || |t| < 4 then None
    else if |t| == 4 then DecodeGroup(t)
    else
      var g :- DecodeGroup(t[..4]);
      if |g| != 3 then None
      else
        var rest :- Decode(t[4..]);
        Some(g + rest)
  }

  /** Splitting a sextet made of a high part and a low part of 16 or 4. */
  lemma Split16(a: nat, q: nat)
    requires q < 16
    ensures (a * 16 + q) / 16 == a && (a * 16 + q) % 16 == q
  {
  }

  lemma Split4(a: nat, q: nat)
    requires q < 4
    ensures (a * 4 + q) / 4 == a && (a * 4 + q) % 4 == q
  {
  }

  /** Decoding the four characters of a full group gives back its three bytes. */
  lemma DecodeFullGroup(b0: byte, b1: byte, b2: byte)
    ensures DecodeGroup(EncodeGroup(b0, b1, b2)) == Some([b0, b1, b2])
  {
    var c1, c2 := (b0 % 4) * 16 + b1 / 16, (b1 % 16) * 4 + b2 / 64;
    DecodeEncodeSextet(b0 / 4);
    DecodeEncodeSextet(c1);
    DecodeEncodeSextet(c2);
    DecodeEncodeSextet(b2 % 64);
    Split16(b0 % 4, b1 / 16);
    Split4(b1 % 16, b2 / 64);
  }

  lemma DecodeOneByte(b0: byte)
    ensures Decode(Encode([b0])) == Some([b0])
  {
    DecodeEncodeSextet(b0 / 4);
    DecodeEncodeSextet((b0 % 4) * 16);
    Split16(b0 % 4, 0);
  }

  lemma DecodeTwoBytes(b0: byte, b1: byte)
    ensures Decode(Encode([b0, b1])) == Some([b0, b1])
  {
    DecodeEncodeSextet(b0 / 4);
    DecodeEncodeSextet((b0 % 4) * 16 + b1 / 16);
    DecodeEncodeSextet((b1 % 16) * 4);
    Split16(b0 % 4, b1 / 16);
    Split4(b1 % 16, 0);
  }

  /** A full first group followed by more groups decodes group by group. */
  lemma DecodeFirstGroup(first: string, rest: string, g: seq<byte>, r: seq<byte>)
    requires |first| == 4 && DecodeGroup(first) == Some(g) && |g| == 3
    requires |rest| >= 4 && |rest| % 4 == 0 && Decode(rest) == Some(r)
    ensures Decode(first + rest) == Some(g + r)
  {
    var t := first + rest;
    assert t[..4] == first && t[4..] == rest;
  }

  lemma {:induction false} DecodeEncode(s: seq<byte>)
    ensures Decode(Encode(s)) == Some(s)
    decreases |s|, 1
  {
    if |s| == 1 {
      assert s == [s[0]];
      DecodeOneByte(s[0]);
    } else if |s| == 2 {
      assert s == [s[0], s[1]];
      DecodeTwoBytes(s[0], s[1]);
    } else if |s| >= 3 {
      DecodeEncodeGroups(s);
    }
  }

  lemma {:induction false} DecodeEncodeGroups(s: seq<byte>)
    requires |s| >= 3
    ensures Decode(Encode(s)) == Some(s)
    decreases |s|, 0
  {
    var group, rest := EncodeGroup(s[0], s[1], s[2]), s[3..];
    assert s == [s[0], s[1], s[2]] + rest;
    assert Encode(s) == group + Encode(rest);
    DecodeFullGroup(s[0], s[1], s[2]);
    if |rest| == 0 {
      assert Encode(s) == group && s == [s[0], s[1], s[2]];
      DecodeSingleGroup(group);
    } else {
      DecodeEncode(rest);
      DecodeFirstGroup(group, Encode(rest), [s[0], s[1], s[2]], rest);
    }
  }

  /** A text of exactly one group decodes as that group. */
  lemma DecodeSingleGroup(g: string)
    requires |g| == 4
    ensures Decode(g) == DecodeGroup(g)
  {
  }

  /** Encoding is injective, since it has a left inverse. */
  lemma EncodeInjective(a: seq<byte>, b: seq<byte>)
    requires Encode(a) == Encode(b)
    ensures a == b
  {
    DecodeEncode(a);
    DecodeEncode(b);
  }
}
