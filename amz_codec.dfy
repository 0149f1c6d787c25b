/** The byte and string logic of `comix/amz.py` (`AmazonAuth`): PKCS #7
    padding, the device id and PID, password masking, the FRC cookie blob,
    the string that gets signed and the headers of a signed request.

    The cryptographic primitives and `json.dumps` are parameters, bundled
    in `Primitives`; only their input and output lengths are fixed. */
module AmzCodec {
  import opened Wrappers
  import opened Bytes
  import Base64

  const AppName: string := "com.iconology.comix"
  const AppVersion: string := "1221328936"
  const DeviceName: string := "walleye/google/Pixel 2"
  const DeviceType: string := "A2A33MVZVPQKHY"
  const Manufacturer: string := "Google"
  const OsVersion: string := "google/walleye/walleye:8.1.0/OPM1.171019.021/4565141:user/release-keys"
  const Pfm: string := "A1F83G8C2ARO7P"
  const SwVersion: string := "1221328936"

  type Block = b: seq<byte> | |b| == 16 witness seq(16, _ => 0)
  type Digest = d: seq<byte> | |d| == 32 witness seq(32, _ => 0)

  /** SHA-256, PBKDF2 with the library defaults (16-byte key), AES-CBC
      encryption and decryption, HMAC-SHA256, gzip, `json.dumps` of a flat
      string dictionary, and RSA key import plus PKCS #1 v1.5 signing. */
  datatype Primitives = Primitives(
    sha256: seq<byte> -> Digest,
    pbkdf2: (string, seq<byte>) -> Block,
    aesEncrypt: (Block, Block, seq<byte>) -> seq<byte>,
    aesDecrypt: (Block, Block, seq<byte>) -> seq<byte>,
    hmacSha256: (Block, seq<byte>) -> Digest,
    gzip: seq<byte> -> seq<byte>,
    jsonDumps: seq<(string, string)> -> string,
    importKey: string -> Option<seq<byte>>,
    rsaSign: (seq<byte>, Digest) -> seq<byte>)

  // ------------------------------------------------------------- PKCS #7

  /** `_pkcs7_pad`: `p = 16 - len % 16` copies of the byte `p`, so a full
      block is added to aligned input (section 6.3 of RFC 5652). */
  function Pkcs7Pad(data: seq<byte>): (r: seq<byte>)
    ensures |r| % 16 == 0 && |data| < |r| <= |data| + 16
    ensures r[..|data|] == data
    ensures forall k :: |data| <= k < |r| ==> r[k] == |r| - |data|
  {
    var p := 16 - |data| % 16;
    data + seq(p, _ => p)
  }

  datatype UnpadError = IndexError

  /** `_pkcs7_unpad`: drops as many bytes as the last byte says, without
      checking them. `data[:-0]` is empty, and an offset longer than the data
      leaves nothing. Empty input raises `IndexError`. */
  function Pkcs7Unpad(data: seq<byte>): (r: Result<seq<byte>, UnpadError>)
    ensures data == [] <==> r.Err?
    ensures r.Ok? ==> |r.value| < |data| && r.value == data[..|r.value|]
    ensures r.Ok? && 0 < data[|data| - 1] <= |data| ==> |r.value| == |data| - data[|data| - 1]
    ensures r.Ok? && (data[|data| - 1] == 0 || data[|data| - 1] > |data|) ==> r.value == []
  {
    if data == [] then Err(IndexError)
    else
      var offset := data[|data| - 1];
      if offset == 0 || offset > |data| then Ok([]) else Ok(data[..|data| - offset])
  }

  lemma Pkcs7RoundTrip(data: seq<byte>)
    ensures Pkcs7Unpad(Pkcs7Pad(data)) == Ok(data)
  {
    var r := Pkcs7Pad(data);
    assert r[|r| - 1] == |r| - |data|;
  }

  /** The missing validation: a last byte of 0 empties any input. */
  lemma Pkcs7UnpadZero(data: seq<byte>)
    ensures Pkcs7Unpad(data + [0]) == Ok([])
  {
  }

  // ------------------------------------------------------ device id, PID

  /** The device id chosen by `AmazonAuth.__init__`. `stored` is the text of
      the device-id file, `None` when there is no such file, and `generated`
      the fresh `token_hex(16)`. A stored id is kept only when it is 16
      characters long once stripped; otherwise the generated one is used and
      written back (`write`). */
  function ChooseDeviceId(stored: Option<string>, generated: string): (r: (string, Option<string>))
    ensures stored.Some? && |Strip(stored.value)| == 16 ==> r == (Strip(stored.value), None)
    ensures !(stored.Some? && |Strip(stored.value)| == 16) ==> r == (generated, Some(generated))
  {
    if stored.Some? then
      var read := Strip(stored.value);
      if |read| != 16 then (generated, Some(generated)) else (read, None)
    else (generated, Some(generated))
  }

  /** `token_hex(16)`: 32 lower-case hex characters. */
  predicate IsTokenHex(s: string)
  {
    |s| == 32 && forall k :: 0 <= k < |s| ==> IsLowerHex(s[k])
  }

  /** A generated id is written to the file, and the next session throws it
      away and generates another, so no generated id is ever reused. */
  lemma {:induction false} GeneratedIdNeverKept(first: string, second: string)
    requires IsTokenHex(first)
    ensures ChooseDeviceId(None, first).1 == Some(first)
    ensures ChooseDeviceId(Some(first), second) == (second, Some(second))
  {
    assert first == [] || (!IsSpace(first[0]) && !IsSpace(first[|first| - 1])) by {
      assert IsLowerHex(first[0]) && IsLowerHex(first[31]);
    }
  }

  /** `_PID`: characters 23 to 30 of the SHA-256 hex digest of the device
      id, upper-cased. */
  function Pid(prims: Primitives, deviceId: string): (r: string)
    ensures |r| == 8
    ensures forall k :: 0 <= k < 8 ==> IsUpperHex(r[k])
    ensures Lower(r) == Hexlify(prims.sha256(Utf8(deviceId)))[23..31]
  {
    var slice := Hexlify(prims.sha256(Utf8(deviceId)))[23..31];
    var r := Upper(slice);
    assert Lower(r) == slice by {
      forall k | 0 <= k < 8 ensures Lower(r)[k] == slice[k] {
        assert IsLowerHex(slice[k]);
      }
    }
    r
  }

  // ------------------------------------------------------------ hash_pass

  /** `hash_pass`: the password for the log, masked. */
  function HashPass(password: Option<string>): (r: string)
    ensures password.None? || password == Some("") ==> r == "[???]"
    ensures password.Some? && |password.value| == 1 ==> r == "**"
    ensures password.Some? && |password.value| >= 2 ==>
              |r| == |password.value| && r[0] == password.value[0]
              && r[|r| - 1] == password.value[|password.value| - 1]
              && forall k :: 0 < k < |r| - 1 ==> r[k] == '*'
  {
    if password.None? || password.value == "" then "[???]"
    else
      var p := password.value;
      var length := |p| - 2;
      if length < 0 then "**" else [p[0]] + seq(length, _ => '*') + [p[|p| - 1]]
  }

  /** A masked password of two or more characters shows at most its two
      ends. */
  lemma HashPassHidesMiddle(p: string, q: string)
    requires |p| == |q| >= 2 && p[0] == q[0] && p[|p| - 1] == q[|q| - 1]
    ensures HashPass(Some(p)) == HashPass(Some(q))
  {
  }

  // ------------------------------------------------------------------ FRC

  /** The cookie dictionary of `_generate_frc`, in its key order. */
  function FrcCookies(ip: string): seq<(string, string)>
  {
    [("ApplicationName", AppName), ("ApplicationVersion", AppVersion),
     ("DeviceLanguage", "en"), ("DeviceName", DeviceName),
     ("DeviceOSVersion", OsVersion), ("IpAddress", ip),
     ("ScreenHeightPixels", "1920"), ("ScreenWidthPixels", "1280"),
     ("TimeZone", "00:00")]
  }

  /** The salts, `b"AES/CBC/PKCS7Padding"` and `b"HmacSHA256"`. */
  const AesSalt: seq<byte> := [65, 69, 83, 47, 67, 66, 67, 47, 80, 75, 67, 83, 55, 80, 97, 100, 100, 105, 110, 103]
  const HmacSalt: seq<byte> := [72, 109, 97, 99, 83, 72, 65, 50, 53, 54]

  function AesKey(prims: Primitives, deviceId: string): Block
  {
    prims.pbkdf2(deviceId, AesSalt)
  }

  function HmacKey(prims: Primitives, deviceId: string): Block
  {
    prims.pbkdf2(deviceId, HmacSalt)
  }

  /** The gzip-compressed JSON of the cookies, before padding. */
  function FrcPlain(prims: Primitives, ip: string): seq<byte>
  {
    prims.gzip(Utf8(prims.jsonDumps(FrcCookies(ip))))
  }

  function FrcCiphertext(prims: Primitives, deviceId: string, ip: string, iv: Block): seq<byte>
  {
    prims.aesEncrypt(AesKey(prims, deviceId), iv, Pkcs7Pad(FrcPlain(prims, ip)))
  }

  /** The FRC layout: a zero byte, the first 8 bytes of the MAC, the IV,
      the ciphertext. */
  function Blob(mac: Digest, iv: Block, ct: seq<byte>): (blob: seq<byte>)
    ensures |blob| == 25 + |ct|
    ensures blob[0] == 0 && blob[1..9] == mac[..8] && blob[9..25] == iv && blob[25..] == ct
  {
    [0] + mac[..8] + iv + ct
  }

  /** The FRC bytes: the MAC is the HMAC of IV and ciphertext under the
      second key derived from the device id. */
  function FrcBlob(prims: Primitives, deviceId: string, ip: string, iv: Block): seq<byte>
  {
    var ct := FrcCiphertext(prims, deviceId, ip, iv);
    Blob(prims.hmacSha256(HmacKey(prims, deviceId), iv + ct), iv, ct)
  }

  /** `_generate_frc`: the blob in Base64. */
  function GenerateFrc(prims: Primitives, deviceId: string, ip: string, iv: Block): (frc: string)
    ensures Base64.Decode(frc) == Some(FrcBlob(prims, deviceId, ip, iv))
  {
    Base64.DecodeEncode(FrcBlob(prims, deviceId, ip, iv));
    Base64.Encode(FrcBlob(prims, deviceId, ip, iv))
  }

  /** With a cipher that keeps lengths, the blob is 25 bytes longer than the
      padded plaintext, whole blocks after the 25-byte header. */
  lemma FrcLength(prims: Primitives, deviceId: string, ip: string, iv: Block)
    requires forall k, v, p :: |prims.aesEncrypt(k, v, p)| == |p|
    ensures |FrcBlob(prims, deviceId, ip, iv)| == 25 + |Pkcs7Pad(FrcPlain(prims, ip))|
    ensures (|FrcBlob(prims, deviceId, ip, iv)| - 25) % 16 == 0
  {
    var padded := Pkcs7Pad(FrcPlain(prims, ip));
    var ct := prims.aesEncrypt(AesKey(prims, deviceId), iv, padded);
    assert |ct| == |padded|;
    assert FrcCiphertext(prims, deviceId, ip, iv) == ct;
  }

  /** Whoever holds the device id can read the cookies back: decode the
      Base64, take the IV and ciphertext at their fixed offsets, decrypt and
      unpad. */
  lemma FrcRecoverable(prims: Primitives, deviceId: string, ip: string, iv: Block)
    requires forall k, v, p :: prims.aesDecrypt(k, v, prims.aesEncrypt(k, v, p)) == p
    ensures var blob := Base64.Decode(GenerateFrc(prims, deviceId, ip, iv));
            blob.Some? && |blob.value| >= 25
            && Pkcs7Unpad(prims.aesDecrypt(AesKey(prims, deviceId), blob.value[9..25], blob.value[25..]))
               == Ok(FrcPlain(prims, ip))
  {
    Pkcs7RoundTrip(FrcPlain(prims, ip));
  }

  // ----------------------------------------------------- signed requests

  /** `s.split(c)`. */
  function SplitOn(s: string, c: char): (r: seq<string>)
    ensures |r| >= 1
  {
    if s == [] then [[]]
    else
      var rest := SplitOn(s[1..], c);
      if s[0] == c then [[]] + rest else [[s[0]] + rest[0]] + rest[1..]
  }

  /** `c.join(parts)`. */
  function Join(parts: seq<string>, c: char): string
    requires |parts| >= 1
  {
    if |parts| == 1 then parts[0] else parts[0] + [c] + Join(parts[1..], c)
  }

  lemma {:induction false} SplitNoSeparator(p: string, c: char)
    requires forall k :: 0 <= k < |p| ==> p[k] != c
    ensures SplitOn(p, c) == [p]
  {
    if p != [] {
      SplitNoSeparator(p[1..], c);
      assert p == [p[0]] + p[1..];
    }
  }

  lemma {:induction false} SplitAtSeparator(p: string, c: char, t: string)
    requires forall k :: 0 <= k < |p| ==> p[k] != c
    ensures SplitOn(p + [c] + t, c) == [p] + SplitOn(t, c)
  {
    if p == [] {
      assert p + [c] + t == [c] + t;
      assert ([c] + t)[1..] == t;
    } else {
      var s := p + [c] + t;
      assert s[0] == p[0] && s[1..] == p[1..] + [c] + t;
      SplitAtSeparator(p[1..], c, t);
      assert p == [p[0]] + p[1..];
    }
  }

  /** Splitting a join on the separator gives back the parts when none of
      them holds the separator. */
  lemma {:induction false} SplitJoin(parts: seq<string>, c: char)
    requires |parts| >= 1
    requires forall i, k :: 0 <= i < |parts| && 0 <= k < |parts[i]| ==> parts[i][k] != c
    ensures SplitOn(Join(parts, c), c) == parts
  {
    if |parts| == 1 {
      SplitNoSeparator(parts[0], c);
    } else {
      SplitJoin(parts[1..], c);
      SplitAtSeparator(parts[0], c, Join(parts[1..], c));
      assert parts == [parts[0]] + parts[1..];
    }
  }

  /** The URL split by `urlparse`: the text and the parts used here. */
  datatype Url = Url(text: string, path: string, params: string, query: string)

  /** The path that is signed: the URL path, then the parameters, '?' and
      the query, when there is a query. */
  function RequestPath(u: Url): (r: string)
    ensures u.query == [] ==> r == u.path
    ensures u.query != [] ==> r == u.path + u.params + "?" + u.query
  {
    if u.query != "" then u.path + u.params + "?" + u.query else u.path
  }

  /** The body that is signed: a falsy body is the empty string. */
  function BodyText(body: Option<string>): string
  {
    if body.Some? then body.value else ""
  }

  /** The string that is signed: method (`verb`), path, date, body and ADP token,
      one per line. */
  function SigningString(verb: string, path: string, date: string, body: string, adpToken: string): string
  {
    verb + "\n" + path + "\n" + date + "\n" + body + "\n" + adpToken
  }

  predicate NoNewline(s: string)
  {
    forall k :: 0 <= k < |s| ==> s[k] != '\n'
  }

  /** The signed string determines its five fields when none of them holds
      a line break. */
  lemma SigningStringFields(verb: string, path: string, date: string, body: string, adpToken: string)
    requires NoNewline(verb) && NoNewline(path) && NoNewline(date) && NoNewline(body) && NoNewline(adpToken)
    ensures SplitOn(SigningString(verb, path, date, body, adpToken), '\n')
         == [verb, path, date, body, adpToken]
  {
    var parts := [verb, path, date, body, adpToken];
    forall i, k | 0 <= i < |parts| && 0 <= k < |parts[i]| ensures parts[i][k] != '\n' {
    }
    assert Join(parts[4..], '\n') == adpToken;
    assert Join(parts[3..], '\n') == body + "\n" + adpToken;
    assert Join(parts[2..], '\n') == date + "\n" + body + "\n" + adpToken;
    assert Join(parts[1..], '\n') == path + "\n" + date + "\n" + body + "\n" + adpToken;
    assert Join(parts, '\n') == SigningString(verb, path, date, body, adpToken);
    SplitJoin(parts, '\n');
  }

  /** The `x-adp-signature` value: the Base64 signature, ':' and the date. */
  function SignatureHeader(signature: seq<byte>, date: string): (h: string)
    ensures var n := |Base64.Encode(signature)|;
            |h| == n + 1 + |date| && h[n] == ':'
            && (forall k :: 0 <= k < n ==> h[k] != ':')
            && Base64.Decode(h[..n]) == Some(signature) && h[n + 1..] == date
  {
    var text := Base64.Encode(signature);
    Base64.DecodeEncode(signature);
    assert (text + ":" + date)[..|text|] == text;
    text + ":" + date
  }

  /** The `x-amzn-requestid`: the caller's id followed by the Unix time and
      "420", or, without one, a UUID with its dashes removed. */
  function RequestId(requestId: Option<string>, unixTime: int, uuid: string): (r: string)
    ensures requestId.Some? && requestId.value != [] ==>
              r == requestId.value + IntToDecimal(unixTime) + "420"
    ensures !(requestId.Some? && requestId.value != []) ==>
              (forall k :: 0 <= k < |r| ==> r[k] != '-') && |r| <= |uuid| && r == RemoveChar(uuid, '-')
  {
    if requestId.Some? && requestId.value != [] then requestId.value + IntToDecimal(unixTime) + "420"
    else RemoveChar(uuid, '-')
  }

  /** `s.replace(c, "")`: every `c` is dropped, every other character
      kept. With `RemoveCharConcat` this says that the kept characters stay
      in their order. */
  function RemoveChar(s: string, c: char): (r: string)
    ensures |r| <= |s|
    ensures forall k :: 0 <= k < |r| ==> r[k] != c
    ensures |s| == 1 ==> r == if s[0] == c then [] else s
    ensures (forall k :: 0 <= k < |s| ==> s[k] != c) ==> r == s
  {
    if s == [] then []
    else (if s[0] == c then [] else [s[0]]) + RemoveChar(s[1..], c)
  }

  /** The replacement works on each part of a text separately. */
  lemma {:induction false} RemoveCharConcat(a: string, b: string, c: char)
    ensures RemoveChar(a + b, c) == RemoveChar(a, c) + RemoveChar(b, c)
  {
    if a == [] {
      assert a + b == b;
    } else {
      assert (a + b)[1..] == a[1..] + b;
      RemoveCharConcat(a[1..], b, c);
    }
  }

  /** `_get_api_headers`. */
  const ApiHeaders: map<string, string> := map[
    "accept" := "*/*",
    "accept-encoding" := "gzip",
    "accept-language" := "en-US",
    "currenttransportmethod" := "WiFi",
    "is_archived_items" := "1",
    "software_rev" := SwVersion,
    "user-agent" := "okhttp/3.12.1",
    "x-adp-app-id" := AppName,
    "x-adp-app-sw" := SwVersion,
    "x-adp-attemptcount" := "1",
    "x-adp-cor" := "US",
    "x-adp-country" := "US",
    "x-adp-lto" := "0",
    "x-adp-pfm" := Pfm,
    "x-adp-reason" := "ArchivedItems",
    "x-adp-sw" := SwVersion,
    "x-adp-transport" := "WiFi",
    "x-amzn-accept-type" := "application/x.amzn.digital.deliverymanifest@1.0"]

  const SignedKeys: set<string> := {"x-adp-token", "x-adp-alg", "x-adp-signature", "x-amzn-requestid"}

  /** The correlation id sent with a book's ASIN. */
  function CorrelationId(asin: string, unixTime: int): string
  {
    asin + "-" + IntToDecimal(unixTime) + "420.kindle.ebook"
  }

  /** The headers a signed request starts from: the caller's, or the API
      defaults when the caller gives none or an empty dictionary. */
  function BaseHeaders(headers: Option<map<string, string>>): (base: map<string, string>)
    ensures headers.Some? && headers.value != map[] ==> base == headers.value
    ensures (headers.None? || headers.value == map[]) ==> base == ApiHeaders
  {
    if headers.None? || headers.value == map[] then ApiHeaders else headers.value
  }

  /** The headers of `signed_request` on top of `base`: the correlation id
      when an ASIN is given; the voucher `accept` for `DRM_VOUCHER`; then
      the four signing headers, which always overwrite. */
  function SignedHeaders(base: map<string, string>, asin: Option<string>, unixTime: int,
                         requestType: Option<string>, adpToken: string, signature: string,
                         requestId: string): (h: map<string, string>)
    ensures var correlated := asin.Some? && asin.value != [];
            var voucher := requestType == Some("DRM_VOUCHER");
            && SignedKeys <= h.Keys
            && h["x-adp-token"] == adpToken && h["x-adp-alg"] == "SHA256WithRSA:1.0"
            && h["x-adp-signature"] == signature && h["x-amzn-requestid"] == requestId
            && (correlated ==> "x-adp-correlationid" in h && h["x-adp-correlationid"] == CorrelationId(asin.value, unixTime))
            && (voucher ==> "accept" in h && h["accept"] == "application/x-com.amazon.drm.Voucher@1.0")
            && (forall k :: k in h <==> (k in base || k in SignedKeys
                                       || (correlated && k == "x-adp-correlationid")
                                       || (voucher && k == "accept")))
            && (forall k :: (k in base && k !in SignedKeys
                             && !(correlated && k == "x-adp-correlationid")
                             && !(voucher && k == "accept")) ==> h[k] == base[k])
  {
    var withAsin := if asin.Some? && asin.value != [] then
      base["x-adp-correlationid" := CorrelationId(asin.value, unixTime)] else base;
    var withAccept := if requestType == Some("DRM_VOUCHER") then
      withAsin["accept" := "application/x-com.amazon.drm.Voucher@1.0"] else withAsin;
    withAccept["x-adp-token" := adpToken]["x-adp-alg" := "SHA256WithRSA:1.0"]
      ["x-adp-signature" := signature]["x-amzn-requestid" := requestId]
  }
}
