/** The per-page passphrase of `comix/key.py` (`ComixKey`): page metadata is
    laid out as bytes, mirrored onto itself, XORed with the page index,
    hashed with MD5 twice and Base64-encoded.

    MD5 (RFC 1321) is a parameter: any function from bytes to a 16-byte
    digest. */
module ComixKey {
  import opened Wrappers
  import opened Bytes
  import Base64

  /** A raw MD5 digest. */
  type Md5Digest = d: seq<byte> | |d| == 16 witness seq(16, _ => 0)

  /** The MD5 function, left uninterpreted. */
  type Md5 = seq<byte> -> Md5Digest

  /** `int(publisher_id)` raised `ValueError`. */
  datatype KeyError = PublisherIdNotNumeric

  lemma LowerKeepsHex(s: string)
    requires forall k :: 0 <= k < |s| ==> IsLowerHex(s[k])
    ensures Lower(s) == s
  {
  }

  /** `ComixKey.hash`: the MD5 digest as 32 lower-case hex characters, from
      which the digest can be read back. */
  function Hash(md5: Md5, a: seq<byte>): (h: string)
    ensures |h| == 32
    ensures forall k :: 0 <= k < |h| ==> IsLowerHex(h[k])
    ensures Unhexlify(h) == md5(a)
  {
    LowerKeepsHex(Hexlify(md5(a)));
    HexlifyRoundTrip(md5(a));
    Lower(Hexlify(md5(a)))
  }

  // ------------------------------------------------------------- reverse

  /** What `reverse` leaves behind: the first and the last element
      exchanged, everything in between untouched. */
  function SwapEnds(s: seq<byte>): (r: seq<byte>)
    ensures |r| == |s| && multiset(r) == multiset(s)
    ensures |s| >= 2 ==> r[0] == s[|s| - 1] && r[|s| - 1] == s[0]
    ensures forall k :: 0 < k < |s| - 1 ==> r[k] == s[k]
  {
    if |s| < 2 then s
    else
      assert s == [s[0]] + s[1..|s| - 1] + [s[|s| - 1]];
      [s[|s| - 1]] + s[1..|s| - 1] + [s[0]]
  }

  /** The buffer after the first `i` passes of `reverse`'s loop. Pass `k`
      exchanges positions `k` and `n-1-k`, so a position holds its mirror's
      old value exactly when one of the two is below `i`. */
  ghost function AfterPasses(s: seq<byte>, i: int): (r: seq<byte>)
    ensures |r| == |s|
  {
    seq(|s|, j requires 0 <= j < |s| => if (j < i) != (|s| - 1 - j < i) then s[|s| - 1 - j] else s[j])
  }

  lemma AllPassesSwapEnds(s: seq<byte>)
    requires |s| >= 1
    ensures AfterPasses(s, |s| - 1) == SwapEnds(s)
  {
  }

  /** `ComixKey.reverse`: the loop runs `idx` from `n-1` down to 1 (the
      range's stop is `i` as it was on entry, 0) while `i` climbs from 0,
      swapping `a[idx]` and `a[i]`. The passes past the middle undo the ones
      before it, so only the two ends end up exchanged. Returns the same
      array. */
  method Reverse(a: array<byte>) returns (r: array<byte>)
    modifies a
    ensures r == a
    ensures a[..] == SwapEnds(old(a[..]))
  {
    ghost var s := a[..];
    var n := a.Length;
    var i := 0;
    var idx := n - 1;
    while idx > 0
      invariant idx == n - 1 - i
      invariant 0 <= i && (n == 0 || i <= n - 1)
      invariant a[..] == AfterPasses(s, i)
    {
      var b := a[idx];
      a[idx] := a[i];
      a[i] := b;
      i := i + 1;
      idx := idx - 1;
    }
    if n >= 1 {
      AllPassesSwapEnds(s);
    }
    r := a;
  }

  /** `reverse` leaves a palindrome as it is. */
  lemma SwapEndsFixesPalindrome(s: seq<byte>)
    requires IsPalindrome(s)
    ensures SwapEnds(s) == s
  {
    if |s| >= 2 {
      assert s[0] == s[|s| - 1];
      assert s == [s[0]] + s[1..|s| - 1] + [s[|s| - 1]];
    }
  }

  /** `reverse` agrees with a true reversal exactly when the interior is
      itself a palindrome, which every buffer of at most three bytes is. */
  lemma SwapEndsIsReversalIff(s: seq<byte>)
    ensures SwapEnds(s) == Reversed(s) <==> (|s| < 2 || IsPalindrome(s[1..|s| - 1]))
    ensures |s| <= 3 ==> SwapEnds(s) == Reversed(s)
  {
    if |s| >= 2 {
      if SwapEnds(s) == Reversed(s) {
        ReversalHasPalindromeInterior(s);
      }
      if IsPalindrome(s[1..|s| - 1]) {
        PalindromeInteriorIsReversal(s);
      }
    }
    if |s| == 3 {
      assert IsPalindrome(s[1..2]);
    }
  }

  lemma ReversalHasPalindromeInterior(s: seq<byte>)
    requires |s| >= 2 && SwapEnds(s) == Reversed(s)
    ensures IsPalindrome(s[1..|s| - 1])
  {
    var mid, swapped, reversed := s[1..|s| - 1], SwapEnds(s), Reversed(s);
    forall k | 0 <= k < |mid| ensures mid[k] == mid[|mid| - 1 - k] {
      assert mid[k] == s[k + 1] == swapped[k + 1];
      assert mid[|mid| - 1 - k] == s[|s| - 2 - k] == reversed[k + 1];
    }
  }

  lemma PalindromeInteriorIsReversal(s: seq<byte>)
    requires |s| >= 2 && IsPalindrome(s[1..|s| - 1])
    ensures SwapEnds(s) == Reversed(s)
  {
    var n, mid := |s|, s[1..|s| - 1];
    forall k | 0 < k < n - 1 ensures SwapEnds(s)[k] == Reversed(s)[k] {
      assert mid[k - 1] == mid[|mid| - 1 - (k - 1)];
    }
  }

  /** Four distinct bytes: `reverse` does not reverse them. */
  lemma ReverseIsNotReversal()
    ensures SwapEnds([0, 1, 2, 3]) == [3, 1, 2, 0] != Reversed([0, 1, 2, 3])
  {
    assert Reversed([0, 1, 2, 3])[1] == 2;
  }

  // -------------------------------------------------------------- expand

  /** `ComixKey.expand`: a zeroed buffer of twice the length, the input
      copied into the first half, then the second half filled backwards
      from the first. The result is the input followed by its reversal. */
  method Expand(a: seq<byte>) returns (b: array<byte>)
    ensures fresh(b)
    ensures b[..] == a + Reversed(a)
  {
    var lenMul := |a| * 2;
    var lenBase := |a|;
    b := new byte[lenMul](_ => 0);
    forall k | 0 <= k < lenBase {
      b[k] := a[k];
    }
    var j := |a|;
    while j < lenMul
      invariant |a| <= j <= lenMul
      invariant lenBase == lenMul - j
      invariant b[..|a|] == a
      invariant forall k :: |a| <= k < j ==> b[k] == a[lenMul - 1 - k]
    {
      lenBase := lenBase - 1;
      b[j] := b[lenBase];
      j := j + 1;
    }
    assert b[..] == a + Reversed(a);
  }

  lemma {:induction false} MirroredIsPalindrome(a: seq<byte>)
    ensures IsPalindrome(a + Reversed(a))
  {
    var e := a + Reversed(a);
    forall k | 0 <= k < |e| ensures e[k] == e[|e| - 1 - k] {
      if k < |a| {
        assert e[|e| - 1 - k] == Reversed(a)[|a| - 1 - k];
      } else {
        assert e[k] == Reversed(a)[k - |a|];
      }
    }
  }

  /** Every byte XORed with the same value. */
  function XorAll(s: seq<byte>, b: byte): (r: seq<byte>)
    ensures |r| == |s|
    ensures forall k :: 0 <= k < |s| ==> r[k] == Xor(s[k], b)
  {
    seq(|s|, k requires 0 <= k < |s| => Xor(s[k], b))
  }

  lemma XorAllKeepsPalindrome(s: seq<byte>, b: byte)
    requires IsPalindrome(s)
    ensures IsPalindrome(XorAll(s, b))
  {
  }

  // -------------------------------------------------------- calculate_key

  /** `int(publisher_id) + 1`, one more when the item id is even. */
  function Multiplier(itemId: int, publisher: int): int
  {
    if itemId % 2 == 0 then publisher + 2 else publisher + 1
  }

  /** `data_to_hash`: the seven pieces in order. */
  function DataToHash(digest: seq<byte>, itemId: int, version: string, publisher: int, index: int): seq<byte>
  {
    Utf8(IntToDecimal(index % 10)) + Utf8(Reversed(version)) + Utf8(IntToDecimal(itemId % 10))
    + Utf8(IntToDecimal(index * Multiplier(itemId, publisher))) + digest + Utf8(version)
    + Utf8(IntToDecimal(publisher % 10))
  }

  /** A `% 10` piece is exactly one ASCII digit byte. */
  lemma DigitPiece(n: int)
    ensures Utf8(IntToDecimal(n % 10)) == [48 + n % 10]
  {
  }

  /** The layout of `data_to_hash`: each of the three `% 10` pieces is one
      digit byte, and the raw digest sits between the product and the
      forward version. */
  lemma DataToHashLayout(digest: seq<byte>, itemId: int, version: string, publisher: int, index: int)
    ensures DataToHash(digest, itemId, version, publisher, index)
         == [48 + index % 10] + Utf8(Reversed(version)) + [48 + itemId % 10]
            + Utf8(IntToDecimal(index * (publisher + 1 + if itemId % 2 == 0 then 1 else 0)))
            + digest + Utf8(version) + [48 + publisher % 10]
  {
    DigitPiece(index);
    DigitPiece(itemId);
    DigitPiece(publisher);
  }

  /** The mirrored data XORed with one byte is a palindrome, so `reverse`
      leaves it as it is. */
  lemma XoredMirrorUnmovedByReverse(data: seq<byte>, b: byte)
    ensures SwapEnds(XorAll(data + Reversed(data), b)) == XorAll(data + Reversed(data), b)
  {
    MirroredIsPalindrome(data);
    XorAllKeepsPalindrome(data + Reversed(data), b);
    SwapEndsFixesPalindrome(XorAll(data + Reversed(data), b));
  }

  /** The first 50 characters of the Base64 text of two hex digests
      written one after the other. */
  function KeyOf(first: string, second: string): (key: string)
    requires |first| == 32 && forall k :: 0 <= k < |first| ==> IsLowerHex(first[k])
    requires |second| == 32 && forall k :: 0 <= k < |second| ==> IsLowerHex(second[k])
    ensures |key| == 50
    ensures forall k :: 0 <= k < 50 ==> Base64.IsAlphabet(key[k]) || key[k] == '='
  {
    var h := first + second;
    assert IsAscii(h) by {
      forall k | 0 <= k < |h| ensures h[k] as int < 128 {
        assert IsLowerHex(h[k]);
      }
    }
    Utf8Ascii(h);
    Base64.Encode(Utf8(h))[..50]
  }

  /** The passphrase: the buffer that gets hashed is the mirrored data
      XORed with the page index modulo 256, and its hex digest is written
      twice. */
  function PageKey(md5: Md5, digest: seq<byte>, itemId: int, version: string, publisher: int, index: int): string
  {
    var data := DataToHash(digest, itemId, version, publisher, index);
    var h := Hash(md5, XorAll(data + Reversed(data), index % 256));
    KeyOf(h, h)
  }

  /** Every passphrase is 50 characters of Base64 text. */
  lemma PageKeyShape(md5: Md5, digest: seq<byte>, itemId: int, version: string, publisher: int, index: int)
    ensures var key := PageKey(md5, digest, itemId, version, publisher, index);
            |key| == 50 && forall k :: 0 <= k < 50 ==> Base64.IsAlphabet(key[k]) || key[k] == '='
  {
  }

  /** The loop of `calculate_key` that XORs every byte of the expanded
      buffer with the same value, in place. */
  method XorInPlace(e: array<byte>, b: byte)
    modifies e
    ensures e[..] == XorAll(old(e[..]), b)
  {
    ghost var s := e[..];
    var j := 0;
    while j < e.Length
      invariant 0 <= j <= e.Length
      invariant forall k :: 0 <= k < j ==> e[k] == Xor(s[k], b)
      invariant forall k :: j <= k < e.Length ==> e[k] == s[k]
    {
      e[j] := Xor(e[j], b);
      j := j + 1;
    }
  }

  /** `ComixKey.calculate_key`. A publisher id that `int()` rejects is the
      `ValueError` case; otherwise the result is `PageKey`, which proves
      that the second hash (taken after `reverse`) equals the first. */
  method CalculateKey(md5: Md5, digest: seq<byte>, itemId: int, version: string, publisherId: string, index: int)
    returns (r: Result<string, KeyError>)
    ensures ParseInt(publisherId).None? ==> r == Err(PublisherIdNotNumeric)
    ensures ParseInt(publisherId).Some? ==>
              r == Ok(PageKey(md5, digest, itemId, version, ParseInt(publisherId).value, index))
  {
    var parsed := ParseInt(publisherId);
    if parsed.None? {
      return Err(PublisherIdNotNumeric);
    }
    var publisher := parsed.value;
    var data := DataToHash(digest, itemId, version, publisher, index);
    var e := Expand(data);
    var b := index % 256;
    XorInPlace(e, b);
    ghost var hashed := e[..];
    assert hashed == XorAll(data + Reversed(data), b);
    var a := Hash(md5, e[..]);
    XoredMirrorUnmovedByReverse(data, b);
    e := Reverse(e);
    assert e[..] == hashed;
    var second := Hash(md5, e[..]);
    r := Ok(KeyOf(a, second));
  }
}
