/** The records of `comix/models.py`: the Amazon device and account kept
    in the token file, and the comic issue and book built from the catalog
    responses, with the release names the exporters write under. */
module Models {
  import opened Wrappers
  import opened Bytes
  import opened Json

  // -------------------------------------------------------- AmazonDevice

  datatype AmazonDevice = AmazonDevice(name: string, serial: string, deviceType: string)

  /** `AmazonDevice.from_data`: the three fields of the `device_info`
      extension. */
  function DeviceFromData(data: Json): (r: Result<AmazonDevice, PyError>)
    ensures r.Ok? ==> data.JObj? && "device_name" in data.fields
                      && data.fields["device_name"] == JStr(r.value.name)
                      && "device_serial_number" in data.fields
                      && data.fields["device_serial_number"] == JStr(r.value.serial)
                      && "device_type" in data.fields
                      && data.fields["device_type"] == JStr(r.value.deviceType)
  {
    var name :- StrAt(data, "device_name");
    var serial :- StrAt(data, "device_serial_number");
    var deviceType :- StrAt(data, "device_type");
    Ok(AmazonDevice(name, serial, deviceType))
  }

  /** `AmazonDevice.to_dict`. */
  function DeviceToDict(d: AmazonDevice): Json
  {
    JObj(map["name" := JStr(d.name), "serial" := JStr(d.serial), "type" := JStr(d.deviceType)])
  }

  /** `AmazonDevice.from_dict`. */
  function DeviceFromDict(data: Json): (r: Result<AmazonDevice, PyError>)
    ensures r.Ok? ==> data.JObj? && "name" in data.fields && "serial" in data.fields
                      && "type" in data.fields
  {
    var name :- StrAt(data, "name");
    var serial :- StrAt(data, "serial");
    var deviceType :- StrAt(data, "type");
    Ok(AmazonDevice(name, serial, deviceType))
  }

  lemma DeviceRoundTrip(d: AmazonDevice)
    ensures DeviceFromDict(DeviceToDict(d)) == Ok(d)
  {
  }

  // ------------------------------------------------------- AmazonAccount

  /** The thirteen fields of an `AmazonAccount`, as a value. `password` is
      `None` when the session was opened without one. */
  datatype AccountRecord = AccountRecord(
    id: string, name: string, email: string, password: Option<string>,
    region: string, pool: Option<string>, domain: string, device: AmazonDevice,
    accessToken: string, refreshToken: string, privateKey: string,
    adpToken: string, expireAt: int)

  /** `AmazonAccount.to_dict`. */
  function AccountToDict(a: AccountRecord): Json
  {
    JObj(map[
      "id" := JStr(a.id), "name" := JStr(a.name), "email" := JStr(a.email),
      "password" := OptStrJson(a.password), "region" := JStr(a.region),
      "pool" := OptStrJson(a.pool), "domain" := JStr(a.domain),
      "device" := DeviceToDict(a.device), "access_token" := JStr(a.accessToken),
      "refresh_token" := JStr(a.refreshToken), "private_key" := JStr(a.privateKey),
      "adp_token" := JStr(a.adpToken), "expire_at" := JInt(a.expireAt)])
  }

  /** `AmazonAccount.from_dict`: every key is required, read in field order. */
  function FromDict(data: Json): (r: Result<AccountRecord, PyError>)
    ensures r.Ok? ==> data.JObj? && "expire_at" in data.fields
                      && data.fields["expire_at"] == JInt(r.value.expireAt)
  {
    var id :- StrAt(data, "id");
    var name :- StrAt(data, "name");
    var email :- StrAt(data, "email");
    var passwordJ :- Index(data, "password");
    var password :- OptStr(passwordJ, "password");
    var region :- StrAt(data, "region");
    var poolJ :- Index(data, "pool");
    var pool :- OptStr(poolJ, "pool");
    var domain :- StrAt(data, "domain");
    var deviceJ :- Index(data, "device");
    var device :- DeviceFromDict(deviceJ);
    var accessToken :- StrAt(data, "access_token");
    var refreshToken :- StrAt(data, "refresh_token");
    var privateKey :- StrAt(data, "private_key");
    var adpToken :- StrAt(data, "adp_token");
    var expireJ :- Index(data, "expire_at");
    if !expireJ.JInt? then Err(NotAString("expire_at"))
    else
      Ok(AccountRecord(id, name, email, password, region, pool, domain, device,
                       accessToken, refreshToken, privateKey, adpToken, expireJ.i))
  }

  /** What is saved to the token file is read back unchanged. */
  lemma {:induction false} FromDictToDict(a: AccountRecord)
    ensures FromDict(AccountToDict(a)) == Ok(a)
  {
    var d := AccountToDict(a);
    assert StrAt(d, "id") == Ok(a.id) && StrAt(d, "name") == Ok(a.name);
    assert StrAt(d, "email") == Ok(a.email) && StrAt(d, "region") == Ok(a.region);
    assert Index(d, "password") == Ok(OptStrJson(a.password));
    assert Index(d, "pool") == Ok(OptStrJson(a.pool));
    assert StrAt(d, "domain") == Ok(a.domain);
    assert Index(d, "device") == Ok(DeviceToDict(a.device));
    assert StrAt(d, "access_token") == Ok(a.accessToken);
    assert StrAt(d, "refresh_token") == Ok(a.refreshToken);
    assert StrAt(d, "private_key") == Ok(a.privateKey);
    assert StrAt(d, "adp_token") == Ok(a.adpToken);
    assert Index(d, "expire_at") == Ok(JInt(a.expireAt));
    DeviceRoundTrip(a.device);
    OptStrRoundTrip(a.password, "password");
    OptStrRoundTrip(a.pool, "pool");
  }

  /** Two accounts with the same saved form are the same account. */
  lemma ToDictInjective(a: AccountRecord, b: AccountRecord)
    requires AccountToDict(a) == AccountToDict(b)
    ensures a == b
  {
    FromDictToDict(a);
    FromDictToDict(b);
  }

  /** The `ValueError` messages of `from_data`, one per required section, in
      the order they are checked. */
  const SectionMessages: seq<string> := [
    "Invalid response",
    "Missing extensions data, needed for account info",
    "Missing device info",
    "Missing customer info",
    "Missing tokens",
    "Missing bearer token",
    "Missing MAC DMS token"
  ]

  /** A section read with `get(key, {})` that must be truthy. */
  function Section(d: Json, key: string, message: string): Result<Json, PyError>
  {
    var v :- Get(d, key, Empty);
    if Truthy(v) then Ok(v) else Err(ValueError(message))
  }

  /** `AmazonAccount.from_data` on the decoded `/auth/register` response,
      at wall-clock time `now` (whole seconds). The seven sections are
      checked in order; then the fields are read customer first, then
      bearer, then MAC DMS, then `expires_in`, then the device. */
  function FromData(data: Json, email: string, password: Option<string>, domain: string, now: int)
    : (r: Result<AccountRecord, PyError>)
    ensures r.Ok? ==> r.value.email == email && r.value.password == password
                      && r.value.domain == domain
  {
    var response :- Get(data, "response", Empty);
    var success :- Section(response, "success", SectionMessages[0]);
    var extensions :- Section(success, "extensions", SectionMessages[1]);
    var deviceInfo :- Section(extensions, "device_info", SectionMessages[2]);
    var custInfo :- Section(extensions, "customer_info", SectionMessages[3]);
    var tokens :- Section(success, "tokens", SectionMessages[4]);
    var bearer :- Section(tokens, "bearer", SectionMessages[5]);
    var macDms :- Section(tokens, "mac_dms", SectionMessages[6]);
    ReadAccount(deviceInfo, custInfo, bearer, macDms, email, password, domain, now)
  }

  /** The field reads of `from_data` once its sections are found: customer
      first, then bearer, then MAC DMS, then `expires_in`, then the device. */
  function ReadAccount(deviceInfo: Json, custInfo: Json, bearer: Json, macDms: Json,
                       email: string, password: Option<string>, domain: string, now: int)
    : (r: Result<AccountRecord, PyError>)
    ensures r.Ok? ==> r.value.email == email && r.value.password == password
                      && r.value.domain == domain
    ensures r.Ok? ==> Index(bearer, "expires_in").Ok? && IntOf(Index(bearer, "expires_in").value).Ok?
                      && r.value.expireAt == now + IntOf(Index(bearer, "expires_in").value).value
    ensures r.Ok? && Index(bearer, "expires_in").Ok? && Index(bearer, "expires_in").value.JStr? ==>
              ParseInt(Index(bearer, "expires_in").value.s) == Some(r.value.expireAt - now)
  {
    var id :- StrAt(custInfo, "user_id");
    var name :- StrAt(custInfo, "name");
    var region :- StrAt(custInfo, "home_region");
    var poolJ :- Get(custInfo, "account_pool", JNull);
    var pool :- OptStr(poolJ, "account_pool");
    var accessToken :- StrAt(bearer, "access_token");
    var refreshToken :- StrAt(bearer, "refresh_token");
    var privateKey :- StrAt(macDms, "device_private_key");
    var adpToken :- StrAt(macDms, "adp_token");
    var expiresJ :- Index(bearer, "expires_in");
    var expiresIn :- IntOf(expiresJ);
    var device :- DeviceFromData(deviceInfo);
    Ok(AccountRecord(id, name, email, password, region, pool, domain, device,
                     accessToken, refreshToken, privateKey, adpToken, now + expiresIn))
  }

  /** A register response carrying the fields of `a`, with `expires_in`
      set to `expiresIn` and the sections numbered in `emptied` (0 to 6, in
      the order of `SectionMessages`) replaced by `{}`. An account without a
      pool gets no `account_pool` key. */
  function Response(a: AccountRecord, expiresIn: int, emptied: set<nat>): Json
  {
    var device := if 2 in emptied then Empty else
      JObj(map["device_name" := JStr(a.device.name),
               "device_serial_number" := JStr(a.device.serial),
               "device_type" := JStr(a.device.deviceType)]);
    var basic := map["user_id" := JStr(a.id), "name" := JStr(a.name), "home_region" := JStr(a.region)];
    var customer := if 3 in emptied then Empty else
      JObj(if a.pool.Some? then basic["account_pool" := JStr(a.pool.value)] else basic);
    var extensions := if 1 in emptied then Empty else
      JObj(map["device_info" := device, "customer_info" := customer]);
    var bearer := if 5 in emptied then Empty else
      JObj(map["access_token" := JStr(a.accessToken), "refresh_token" := JStr(a.refreshToken),
               "expires_in" := JInt(expiresIn)]);
    var macDms := if 6 in emptied then Empty else
      JObj(map["device_private_key" := JStr(a.privateKey), "adp_token" := JStr(a.adpToken)]);
    var tokens := if 4 in emptied then Empty else
      JObj(map["bearer" := bearer, "mac_dms" := macDms]);
    var success := if 0 in emptied then Empty else
      JObj(map["extensions" := extensions, "tokens" := tokens]);
    JObj(map["response" := JObj(map["success" := success])])
  }

  lemma TruthyWithKey(d: Json, key: string)
    requires d.JObj? && key in d.fields
    ensures Truthy(d)
  {
  }

  /** A complete response yields the account it carries, expiring
      `expiresIn` seconds after `now`. */
  lemma {:induction false} FromDataComplete(a: AccountRecord, expiresIn: int, now: int)
    ensures FromData(Response(a, expiresIn, {}), a.email, a.password, a.domain, now)
         == Ok(a.(expireAt := now + expiresIn))
  {
    var data := Response(a, expiresIn, {});
    var response := data.fields["response"];
    var success := response.fields["success"];
    var extensions, tokens := success.fields["extensions"], success.fields["tokens"];
    var deviceInfo := extensions.fields["device_info"];
    var custInfo := extensions.fields["customer_info"];
    var bearer, macDms := tokens.fields["bearer"], tokens.fields["mac_dms"];
    TruthyWithKey(success, "tokens");
    TruthyWithKey(extensions, "device_info");
    TruthyWithKey(deviceInfo, "device_name");
    TruthyWithKey(custInfo, "user_id");
    TruthyWithKey(tokens, "bearer");
    TruthyWithKey(bearer, "access_token");
    TruthyWithKey(macDms, "adp_token");
    assert Get(data, "response", Empty) == Ok(response);
    assert Section(response, "success", SectionMessages[0]) == Ok(success);
    assert Section(success, "extensions", SectionMessages[1]) == Ok(extensions);
    assert Section(extensions, "device_info", SectionMessages[2]) == Ok(deviceInfo);
    assert Section(extensions, "customer_info", SectionMessages[3]) == Ok(custInfo);
    assert Section(success, "tokens", SectionMessages[4]) == Ok(tokens);
    assert Section(tokens, "bearer", SectionMessages[5]) == Ok(bearer);
    assert Section(tokens, "mac_dms", SectionMessages[6]) == Ok(macDms);
    ReadCompleteAccount(a, expiresIn, now, deviceInfo, custInfo, bearer, macDms);
  }

  /** The fields of a complete response read back as the account. */
  lemma ReadCompleteAccount(a: AccountRecord, expiresIn: int, now: int,
                            deviceInfo: Json, custInfo: Json, bearer: Json, macDms: Json)
    requires var ext := Response(a, expiresIn, {}).fields["response"].fields["success"].fields["extensions"];
             deviceInfo == ext.fields["device_info"] && custInfo == ext.fields["customer_info"]
    requires var tokens := Response(a, expiresIn, {}).fields["response"].fields["success"].fields["tokens"];
             bearer == tokens.fields["bearer"] && macDms == tokens.fields["mac_dms"]
    ensures ReadAccount(deviceInfo, custInfo, bearer, macDms, a.email, a.password, a.domain, now)
         == Ok(a.(expireAt := now + expiresIn))
  {
    assert StrAt(custInfo, "user_id") == Ok(a.id) && StrAt(custInfo, "name") == Ok(a.name);
    assert StrAt(custInfo, "home_region") == Ok(a.region);
    assert Get(custInfo, "account_pool", JNull) == Ok(OptStrJson(a.pool));
    OptStrRoundTrip(a.pool, "account_pool");
    assert StrAt(bearer, "access_token") == Ok(a.accessToken);
    assert StrAt(bearer, "refresh_token") == Ok(a.refreshToken);
    assert StrAt(macDms, "device_private_key") == Ok(a.privateKey);
    assert StrAt(macDms, "adp_token") == Ok(a.adpToken);
    assert Index(bearer, "expires_in") == Ok(JInt(expiresIn));
    assert DeviceFromData(deviceInfo) == Ok(a.device);
  }

  /** `from_data` stops at the first missing or empty section: emptying
      any set of sections raises the message of the lowest-numbered one. */
  lemma {:induction false} FromDataFirstMissing(a: AccountRecord, expiresIn: int, now: int,
                                                 emptied: set<nat>, first: nat)
    requires first in emptied && forall k :: k in emptied ==> first <= k
    requires first < 7
    ensures FromData(Response(a, expiresIn, emptied), a.email, a.password, a.domain, now)
         == Err(ValueError(SectionMessages[first]))
  {
    var data := Response(a, expiresIn, emptied);
    var response := data.fields["response"];
    var success := response.fields["success"];
    var err := Err(ValueError(SectionMessages[first]));
    assert Get(data, "response", Empty) == Ok(response);
    if first == 0 {
      assert Section(response, "success", SectionMessages[0]) == err;
      return;
    }
    TruthyWithKey(success, "tokens");
    assert Section(response, "success", SectionMessages[0]) == Ok(success);
    var extensions, tokens := success.fields["extensions"], success.fields["tokens"];
    if first == 1 {
      assert Section(success, "extensions", SectionMessages[1]) == err;
      return;
    }
    TruthyWithKey(extensions, "device_info");
    assert Section(success, "extensions", SectionMessages[1]) == Ok(extensions);
    var deviceInfo, custInfo := extensions.fields["device_info"], extensions.fields["customer_info"];
    if first == 2 {
      assert Section(extensions, "device_info", SectionMessages[2]) == err;
      return;
    }
    TruthyWithKey(deviceInfo, "device_name");
    assert Section(extensions, "device_info", SectionMessages[2]) == Ok(deviceInfo);
    if first == 3 {
      assert Section(extensions, "customer_info", SectionMessages[3]) == err;
      return;
    }
    TruthyWithKey(custInfo, "user_id");
    assert Section(extensions, "customer_info", SectionMessages[3]) == Ok(custInfo);
    if first == 4 {
      assert Section(success, "tokens", SectionMessages[4]) == err;
      return;
    }
    TruthyWithKey(tokens, "bearer");
    assert Section(success, "tokens", SectionMessages[4]) == Ok(tokens);
    var bearer, macDms := tokens.fields["bearer"], tokens.fields["mac_dms"];
    if first == 5 {
      assert Section(tokens, "bearer", SectionMessages[5]) == err;
      return;
    }
    TruthyWithKey(bearer, "access_token");
    assert Section(tokens, "bearer", SectionMessages[5]) == Ok(bearer);
    assert Section(tokens, "mac_dms", SectionMessages[6]) == err;
  }

  // ---------------------------------------------- AmazonAccount as object

  /** `AmazonAccount`: the session keeps one and updates its token fields in
      place. */
  class AmazonAccount {
    var id: string
    var name: string
    var email: string
    var password: Option<string>
    var region: string
    var pool: Option<string>
    var domain: string
    var device: AmazonDevice
    var accessToken: string
    var refreshToken: string
    var privateKey: string
    var adpToken: string
    var expireAt: int

    /** The fields as a value. */
    function Record(): AccountRecord
      reads this
    {
      AccountRecord(id, name, email, password, region, pool, domain, device,
                    accessToken, refreshToken, privateKey, adpToken, expireAt)
    }

    constructor (r: AccountRecord)
      ensures Record() == r
    {
      id, name, email, password := r.id, r.name, r.email, r.password;
      region, pool, domain, device := r.region, r.pool, r.domain, r.device;
      accessToken, refreshToken := r.accessToken, r.refreshToken;
      privateKey, adpToken, expireAt := r.privateKey, r.adpToken, r.expireAt;
    }

    /** `is_expired`: strictly past `expire_at`. */
    predicate IsExpired(now: int)
      reads this
    {
      expireAt < now
    }

    /** `update_expiry`: `expire_at` becomes `now + expires_in`; nothing else
        changes. */
    method UpdateExpiry(now: int, expiresIn: int)
      modifies this
      ensures Record() == old(Record()).(expireAt := now + expiresIn)
      ensures expiresIn >= 0 ==> !IsExpired(now + expiresIn) && IsExpired(now + expiresIn + 1)
    {
      expireAt := now + expiresIn;
    }

    /** `to_dict`. */
    function ToDict(): (j: Json)
      reads this
      ensures FromDict(j) == Ok(Record())
    {
      FromDictToDict(Record());
      AccountToDict(Record())
    }
  }

  /** A credential is not yet expired at the second it expires, and is
      expired at any later second. */
  lemma ExpiryIsStrict(a: AmazonAccount, now: int)
    ensures a.IsExpired(now) <==> now > a.expireAt
    ensures !a.IsExpired(a.expireAt)
  {
  }

  // ------------------------------------------------- ComicIssue, ComicData

  datatype ComicImage = ComicImage(url: string, digest: seq<byte>)

  datatype ComicIssue = ComicIssue(
    id: string, title: string, seriesId: Option<string>,
    volume: Option<int>, issue: Option<int>)

  /** The issue message of the catalog response, with its string fields. */
  datatype IssueProto = IssueProto(id: string, title: string, seriesId: string, volume: string, issue: string)

  /** `ComicIssue.from_proto`: an empty string is `None`, a volume or issue
      number is read with `int()`. */
  function FromProto(p: IssueProto): (r: Result<ComicIssue, PyError>)
    ensures r.Ok? ==> r.value.id == p.id && r.value.title == p.title
    ensures r.Ok? ==> (r.value.seriesId.None? <==> p.seriesId == [])
    ensures r.Ok? ==> (r.value.volume.None? <==> p.volume == [])
    ensures r.Ok? ==> (r.value.issue.None? <==> p.issue == [])
    ensures r.Ok? ==> (r.value.volume.Some? ==> ParseInt(p.volume) == r.value.volume)
    ensures r.Ok? ==> (r.value.issue.Some? ==> ParseInt(p.issue) == r.value.issue)
    ensures r.Err? <==> ((p.volume != [] && ParseInt(p.volume).None?)
                         || (p.issue != [] && ParseInt(p.issue).None?))
  {
    var volume :- if p.volume == [] then Ok(None) else ParseNumber(p.volume);
    var issue :- if p.issue == [] then Ok(None) else ParseNumber(p.issue);
    Ok(ComicIssue(p.id, p.title, if p.seriesId == [] then None else Some(p.seriesId), volume, issue))
  }

  function ParseNumber(s: string): Result<Option<int>, PyError>
  {
    var n := ParseInt(s);
    if n.Some? then Ok(Some(n.value)) else Err(ValueError("invalid literal for int()"))
  }

  /** The proto message an issue is read from. */
  function ToProto(i: ComicIssue): IssueProto
  {
    IssueProto(i.id, i.title, if i.seriesId.Some? then i.seriesId.value else "",
               if i.volume.Some? then IntToDecimal(i.volume.value) else "",
               if i.issue.Some? then IntToDecimal(i.issue.value) else "")
  }

  /** Reading back the message of an issue gives the issue, unless its
      series id is the empty string, which reads back as `None`. */
  lemma FromProtoToProto(i: ComicIssue)
    requires i.seriesId != Some("")
    ensures FromProto(ToProto(i)) == Ok(i)
  {
    if i.volume.Some? {
      IntToDecimalRoundTrip(i.volume.value);
    }
    if i.issue.Some? {
      IntToDecimalRoundTrip(i.issue.value);
    }
  }

  // ------------------------------------------------------------ sanitising

  /** The characters the release-name pattern deletes. */
  predicate IsForbidden(c: char)
  {
    c in {'.', '?', '\\', '/', '<', '>', '"', '\'', '%', '*', '&', '+', '-', '#', '!'}
  }

  /** `re.sub(regex, "", title)`: a forbidden character is dropped, any
      other is kept. With `RemoveForbiddenConcat` this says that the kept
      characters stay in their order. */
  function RemoveForbidden(s: string): (r: string)
    ensures forall k :: 0 <= k < |r| ==> !IsForbidden(r[k])
    ensures Count(r, ':') == Count(s, ':')
    ensures |s| == 1 ==> r == if IsForbidden(s[0]) then [] else s
    ensures (forall k :: 0 <= k < |s| ==> !IsForbidden(s[k])) ==> r == s
  {
    if s == [] then []
    else if IsForbidden(s[0]) then RemoveForbidden(s[1..])
    else [s[0]] + RemoveForbidden(s[1..])
  }

  /** The substitution works on each part of a text separately. */
  lemma {:induction false} RemoveForbiddenConcat(a: string, b: string)
    ensures RemoveForbidden(a + b) == RemoveForbidden(a) + RemoveForbidden(b)
  {
    if a == [] {
      assert a + b == b;
    } else {
      assert (a + b)[1..] == a[1..] + b;
      RemoveForbiddenConcat(a[1..], b);
    }
  }

  /** Every character that is not forbidden is kept as often as it occurs. */
  lemma {:induction false} RemoveForbiddenKeeps(s: string, c: char)
    requires !IsForbidden(c)
    ensures Count(RemoveForbidden(s), c) == Count(s, c)
  {
    if s != [] {
      RemoveForbiddenKeeps(s[1..], c);
      if !IsForbidden(s[0]) {
        CountConcat([s[0]], RemoveForbidden(s[1..]), c);
      }
    }
  }

  /** `.replace(":", "-")`. */
  function ColonToDash(s: string): (r: string)
    ensures |r| == |s|
    ensures forall k :: 0 <= k < |s| ==> r[k] == if s[k] == ':' then '-' else s[k]
  {
    seq(|s|, k requires 0 <= k < |s| => if s[k] == ':' then '-' else s[k])
  }

  /** `re.sub(r"\s+", " ", s)`: every run of whitespace becomes one space. */
  function CollapseSpace(s: string): string
    decreases |s|
  {
    if s == [] then []
    else if IsSpace(s[0]) then
      var rest := StripLeft(s);
      [' '] + CollapseSpace(rest)
    else [s[0]] + CollapseSpace(s[1..])
  }

  /** After collapsing, the only whitespace left is the plain space, no two
      whitespace characters are adjacent, and the text starts with
      whitespace exactly when the original did. */
  lemma {:induction false} CollapseSpaceShape(s: string)
    ensures var r := CollapseSpace(s);
            |r| <= |s| && (s == [] <==> r == [])
            && (forall k :: 0 <= k < |r| ==> IsSpace(r[k]) ==> r[k] == ' ')
            && (forall k :: 0 <= k < |r| - 1 ==> !(IsSpace(r[k]) && IsSpace(r[k + 1])))
            && (s != [] ==> (IsSpace(r[0]) <==> IsSpace(s[0])))
    decreases |s|
  {
    if s != [] {
      if IsSpace(s[0]) {
        CollapseSpaceShape(StripLeft(s));
      } else {
        CollapseSpaceShape(s[1..]);
      }
    }
  }

  function Count(s: string, c: char): nat
  {
    if s == [] then 0 else (if s[0] == c then 1 else 0) + Count(s[1..], c)
  }

  /** The characters of `s` that are not whitespace, in order. */
  function NonSpace(s: string): string
  {
    if s == [] then [] else (if IsSpace(s[0]) then [] else [s[0]]) + NonSpace(s[1..])
  }

  lemma {:induction false} NonSpaceAllSpace(s: string)
    requires forall k :: 0 <= k < |s| ==> IsSpace(s[k])
    ensures NonSpace(s) == []
  {
    if s != [] {
      NonSpaceAllSpace(s[1..]);
    }
  }

  lemma {:induction false} NonSpaceConcat(a: string, b: string)
    ensures NonSpace(a + b) == NonSpace(a) + NonSpace(b)
  {
    if a != [] {
      assert (a + b)[0] == a[0];
      assert (a + b)[1..] == a[1..] + b;
      NonSpaceConcat(a[1..], b);
    } else {
      assert a + b == b;
    }
  }

  /** Collapsing keeps every other character, in order. */
  lemma {:induction false} CollapseKeepsNonSpace(s: string)
    ensures NonSpace(CollapseSpace(s)) == NonSpace(s)
    decreases |s|
  {
    if s != [] {
      if IsSpace(s[0]) {
        var rest := StripLeft(s);
        var spaces := s[..|s| - |rest|];
        assert s == spaces + rest;
        NonSpaceAllSpace(spaces);
        NonSpaceConcat(spaces, rest);
        CollapseKeepsNonSpace(rest);
        NonSpaceConcat([' '], CollapseSpace(rest));
      } else {
        CollapseKeepsNonSpace(s[1..]);
        NonSpaceConcat([s[0]], CollapseSpace(s[1..]));
        NonSpaceConcat([s[0]], s[1..]);
        assert s == [s[0]] + s[1..];
      }
    }
  }

  lemma {:induction false} CountNonSpace(s: string, c: char)
    requires !IsSpace(c)
    ensures Count(NonSpace(s), c) == Count(s, c)
  {
    if s != [] {
      CountNonSpace(s[1..], c);
      CountConcat(if IsSpace(s[0]) then [] else [s[0]], NonSpace(s[1..]), c);
    }
  }

  lemma {:induction false} CountConcat(a: string, b: string, c: char)
    ensures Count(a + b, c) == Count(a, c) + Count(b, c)
  {
    if a != [] {
      assert (a + b)[0] == a[0];
      assert (a + b)[1..] == a[1..] + b;
      CountConcat(a[1..], b, c);
    } else {
      assert a + b == b;
    }
  }

  lemma {:induction false} CountColonToDash(s: string)
    requires forall k :: 0 <= k < |s| ==> s[k] != '-'
    ensures Count(ColonToDash(s), '-') == Count(s, ':')
  {
    if s != [] {
      assert ColonToDash(s)[1..] == ColonToDash(s[1..]);
      CountColonToDash(s[1..]);
    }
  }

  /** The title clean-up shared by both release names. */
  function Sanitise(title: string): (r: string)
    ensures forall k :: 0 <= k < |r| ==> !IsForbidden(r[k]) || r[k] == '-'
    ensures forall k :: 0 <= k < |r| ==> r[k] != ':'
    ensures forall k :: 0 <= k < |r| ==> IsSpace(r[k]) ==> r[k] == ' '
    ensures forall k :: 0 <= k < |r| - 1 ==> !(r[k] == ' ' && r[k + 1] == ' ')
  {
    var s := ColonToDash(RemoveForbidden(title));
    CollapseCharacters(s);
    CollapseSpaceShape(s);
    CollapseSpace(s)
  }

  /** Collapsing only inserts spaces, so it keeps the character set. */
  lemma {:induction false} CollapseCharacters(s: string)
    ensures forall k :: 0 <= k < |CollapseSpace(s)| ==>
              CollapseSpace(s)[k] == ' ' || CollapseSpace(s)[k] in s
    decreases |s|
  {
    if s != [] {
      if IsSpace(s[0]) {
        CollapseCharacters(StripLeft(s));
      } else {
        CollapseCharacters(s[1..]);
      }
    }
  }

  /** Every '-' in a sanitised title stands for a ':' of the original;
      every '-' of the original is gone; and apart from whitespace the
      sanitised title is the original without the deleted characters, with
      ':' turned to '-'. */
  lemma {:induction false} SanitiseDashes(title: string)
    ensures Count(Sanitise(title), '-') == Count(title, ':')
    ensures NonSpace(Sanitise(title)) == NonSpace(ColonToDash(RemoveForbidden(title)))
  {
    var s := ColonToDash(RemoveForbidden(title));
    CollapseKeepsNonSpace(s);
    CountNonSpace(CollapseSpace(s), '-');
    CountNonSpace(s, '-');
    CountColonToDash(RemoveForbidden(title));
  }

  /** `StripLeft` passes over a text that ends in a non-space character. */
  lemma {:induction false} StripLeftConcat(a: string, t: string)
    requires a != [] && !IsSpace(a[|a| - 1])
    ensures StripLeft(a + t) == StripLeft(a) + t
  {
    if IsSpace(a[0]) {
      assert (a + t)[1..] == a[1..] + t;
      StripLeftConcat(a[1..], t);
    }
  }

  /** A run of whitespace in front of a non-space character is stripped
      entirely. */
  lemma {:induction false} StripLeftSpaces(w: string, b: string)
    requires forall k :: 0 <= k < |w| ==> IsSpace(w[k])
    requires b == [] || !IsSpace(b[0])
    ensures StripLeft(w + b) == b
  {
    if w == [] {
      assert w + b == b;
    } else {
      assert (w + b)[1..] == w[1..] + b;
      StripLeftSpaces(w[1..], b);
    }
  }

  /** Stripping the left of a text that ends in a non-space character
      keeps that character at its end. */
  lemma StripLeftKeepsLast(a: string)
    requires a != [] && !IsSpace(a[|a| - 1])
    ensures StripLeft(a) != [] && StripLeft(a)[|StripLeft(a)| - 1] == a[|a| - 1]
    ensures IsSpace(a[0]) ==> |StripLeft(a)| < |a|
  {
  }

  /** Collapsing works on each side of a boundary that follows a non-space
      character separately. */
  /** One step of `CollapseSpace` on a text that starts with a non-space. */
  lemma CollapseKept(s: string)
    requires s != [] && !IsSpace(s[0])
    ensures CollapseSpace(s) == [s[0]] + CollapseSpace(s[1..])
  {
  }

  /** One step of `CollapseSpace` on a text that starts with whitespace. */
  lemma CollapseSpaceHead(s: string)
    requires s != [] && IsSpace(s[0])
    ensures CollapseSpace(s) == " " + CollapseSpace(StripLeft(s))
  {
  }

  lemma {:induction false} CollapseConcat(a: string, t: string)
    requires a == [] || !IsSpace(a[|a| - 1])
    ensures CollapseSpace(a + t) == CollapseSpace(a) + CollapseSpace(t)
    decreases |a|
  {
    if a == [] {
      assert a + t == t;
    } else if !IsSpace(a[0]) {
      CollapseConcat(a[1..], t);
      CollapseConcatKept(a, t);
    } else {
      StripLeftKeepsLast(a);
      CollapseConcat(StripLeft(a), t);
      CollapseConcatSpace(a, t);
    }
  }

  /** The step of `CollapseConcat` past a leading non-space character. */
  lemma CollapseConcatKept(a: string, t: string)
    requires a != [] && !IsSpace(a[0])
    requires CollapseSpace(a[1..] + t) == CollapseSpace(a[1..]) + CollapseSpace(t)
    ensures CollapseSpace(a + t) == CollapseSpace(a) + CollapseSpace(t)
  {
    assert CollapseSpace(a + t) == [a[0]] + CollapseSpace(a[1..] + t) by {
      var at := a + t;
      assert at[0] == a[0] && at[1..] == a[1..] + t;
      CollapseKept(at);
    }
    assert CollapseSpace(a) == [a[0]] + CollapseSpace(a[1..]) by {
      CollapseKept(a);
    }
    SeqCons([a[0]], CollapseSpace(a[1..]), CollapseSpace(t),
      CollapseSpace(a + t), CollapseSpace(a[1..] + t), CollapseSpace(a));
  }

  /** Regrouping a text built from a head, a middle and a tail. */
  lemma SeqCons(h: string, x: string, y: string, u: string, v: string, w: string)
    requires u == h + v && v == x + y && w == h + x
    ensures u == w + y
  {
  }

  /** The step of `CollapseConcat` past a leading run of whitespace. */
  lemma CollapseConcatSpace(a: string, t: string)
    requires a != [] && IsSpace(a[0]) && !IsSpace(a[|a| - 1])
    requires CollapseSpace(StripLeft(a) + t) == CollapseSpace(StripLeft(a)) + CollapseSpace(t)
    ensures CollapseSpace(a + t) == CollapseSpace(a) + CollapseSpace(t)
  {
    assert CollapseSpace(a + t) == " " + CollapseSpace(StripLeft(a) + t) by {
      assert (a + t)[0] == a[0];
      CollapseSpaceHead(a + t);
      StripLeftConcat(a, t);
    }
    assert CollapseSpace(a) == " " + CollapseSpace(StripLeft(a)) by {
      CollapseSpaceHead(a);
    }
    SeqCons(" ", CollapseSpace(StripLeft(a)), CollapseSpace(t),
      CollapseSpace(a + t), CollapseSpace(StripLeft(a) + t), CollapseSpace(a));
  }

  /** Every run of whitespace between two other characters, or at either
      end, becomes exactly one space. */
  lemma CollapseRun(a: string, w: string, b: string)
    requires a == [] || !IsSpace(a[|a| - 1])
    requires w != [] && forall k :: 0 <= k < |w| ==> IsSpace(w[k])
    requires b == [] || !IsSpace(b[0])
    ensures CollapseSpace(a + w + b) == CollapseSpace(a) + " " + CollapseSpace(b)
  {
    CollapseAfter(a, w, b);
    CollapseLeadingRun(w, b);
    SeqCons(CollapseSpace(a), " ", CollapseSpace(b),
      CollapseSpace(a + w + b), CollapseSpace(w + b), CollapseSpace(a) + " ");
  }

  /** `CollapseConcat` with the part after the boundary given in two pieces. */
  lemma CollapseAfter(a: string, w: string, b: string)
    requires a == [] || !IsSpace(a[|a| - 1])
    ensures CollapseSpace(a + w + b) == CollapseSpace(a) + CollapseSpace(w + b)
  {
    assert a + w + b == a + (w + b);
    CollapseConcat(a, w + b);
  }

  /** A leading run of whitespace becomes one space. */
  lemma CollapseLeadingRun(w: string, b: string)
    requires w != [] && forall k :: 0 <= k < |w| ==> IsSpace(w[k])
    requires b == [] || !IsSpace(b[0])
    ensures CollapseSpace(w + b) == " " + CollapseSpace(b)
  {
    var wb := w + b;
    assert wb[0] == w[0];
    StripLeftSpaces(w, b);
  }

  lemma ColonToDashConcat(a: string, b: string)
    ensures ColonToDash(a + b) == ColonToDash(a) + ColonToDash(b)
  {
  }

  /** The deletions and the `:` replacement work part by part, and leave a
      run of whitespace as it is. */
  lemma CleanParts(a: string, w: string, b: string)
    requires forall k :: 0 <= k < |w| ==> IsSpace(w[k]) && !IsForbidden(w[k])
    ensures ColonToDash(RemoveForbidden(a + w + b))
         == ColonToDash(RemoveForbidden(a)) + w + ColonToDash(RemoveForbidden(b))
  {
    RemoveForbiddenConcat(a + w, b);
    RemoveForbiddenConcat(a, w);
    ColonToDashConcat(RemoveForbidden(a) + w, RemoveForbidden(b));
    ColonToDashConcat(RemoveForbidden(a), w);
    assert ColonToDash(w) == w;
  }

  /** A kept non-space character at either end of a text stays a non-space
      character at that end once the title is cleaned. */
  lemma CleanEnds(a: string)
    requires a != []
    ensures !IsSpace(a[|a| - 1]) && !IsForbidden(a[|a| - 1]) ==>
              var c := ColonToDash(RemoveForbidden(a)); c != [] && !IsSpace(c[|c| - 1])
    ensures !IsSpace(a[0]) && !IsForbidden(a[0]) ==>
              var c := ColonToDash(RemoveForbidden(a)); c != [] && !IsSpace(c[0])
  {
    assert a == a[..|a| - 1] + [a[|a| - 1]];
    RemoveForbiddenConcat(a[..|a| - 1], [a[|a| - 1]]);
    assert a == [a[0]] + a[1..];
    RemoveForbiddenConcat([a[0]], a[1..]);
  }

  /** In a title, every run of whitespace between two kept characters, or
      at either end, becomes exactly one space. */
  lemma SanitiseRun(a: string, w: string, b: string)
    requires a == [] || (!IsSpace(a[|a| - 1]) && !IsForbidden(a[|a| - 1]))
    requires w != [] && forall k :: 0 <= k < |w| ==> IsSpace(w[k]) && !IsForbidden(w[k])
    requires b == [] || (!IsSpace(b[0]) && !IsForbidden(b[0]))
    ensures Sanitise(a + w + b) == Sanitise(a) + " " + Sanitise(b)
  {
    CleanParts(a, w, b);
    if a != [] {
      CleanEnds(a);
    }
    if b != [] {
      CleanEnds(b);
    }
    CollapseRun(ColonToDash(RemoveForbidden(a)), w, ColonToDash(RemoveForbidden(b)));
  }

  // --------------------------------------------------------- release names

  /** The number suffix of an issue: `" - vNN"` for a non-zero volume, else
      `" - NNN"` for a non-zero issue number, else nothing. Zero counts as
      absent. */
  function Suffix(volume: Option<int>, issue: Option<int>): (r: string)
    ensures volume.Some? && volume.value != 0 ==>
              |r| >= 6 && r[..4] == " - v" && r[4..] == FormatZeroPadded(volume.value, 2)
    ensures !(volume.Some? && volume.value != 0) && issue.Some? && issue.value != 0 ==>
              |r| >= 6 && r[..3] == " - " && r[3..] == FormatZeroPadded(issue.value, 3)
    ensures !(volume.Some? && volume.value != 0) && !(issue.Some? && issue.value != 0) ==> r == []
  {
    if volume.Some? && volume.value != 0 then
      var digits := FormatZeroPadded(volume.value, 2);
      assert (" - v" + digits)[4..] == digits;
      " - v" + digits
    else if issue.Some? && issue.value != 0 then
      var digits := FormatZeroPadded(issue.value, 3);
      assert (" - " + digits)[3..] == digits;
      " - " + digits
    else []
  }

  /** The suffix carries the volume, or else the issue number, readable
      back from the text after its prefix. */
  lemma SuffixReadsBack(volume: Option<int>, issue: Option<int>)
    ensures volume.Some? && volume.value != 0 ==> ParseInt(Suffix(volume, issue)[4..]) == Some(volume.value)
    ensures !(volume.Some? && volume.value != 0) && issue.Some? && issue.value != 0 ==>
              ParseInt(Suffix(volume, issue)[3..]) == Some(issue.value)
  {
    if volume.Some? && volume.value != 0 {
      FormatZeroPaddedRoundTrip(volume.value, 2);
    } else if issue.Some? && issue.value != 0 {
      FormatZeroPaddedRoundTrip(issue.value, 3);
    }
  }

  /** `ComicIssue.release_name`. */
  function IssueReleaseName(i: ComicIssue): (r: string)
    ensures |r| >= |Sanitise(i.title)| && r[..|Sanitise(i.title)|] == Sanitise(i.title)
    ensures r[|Sanitise(i.title)|..] == Suffix(i.volume, i.issue)
  {
    var t := Sanitise(i.title);
    assert (t + Suffix(i.volume, i.issue))[..|t|] == t;
    t + Suffix(i.volume, i.issue)
  }

  datatype ComicData = ComicData(
    id: string, title: string, publisherId: string, version: string,
    issue: Option<ComicIssue>, images: seq<ComicImage>)

  /** `ComicData.release_name`: the issue's name when there is an issue,
      otherwise the sanitised title followed by the id in parentheses. */
  function ReleaseName(c: ComicData): (r: string)
    ensures c.issue.Some? ==> r == IssueReleaseName(c.issue.value)
    ensures c.issue.None? ==>
              |r| == |Sanitise(c.title)| + |c.id| + 3
              && r[..|Sanitise(c.title)|] == Sanitise(c.title)
              && r[|Sanitise(c.title)|..] == " (" + c.id + ")"
  {
    if c.issue.Some? then IssueReleaseName(c.issue.value)
    else
      var t := Sanitise(c.title);
      assert (t + " (" + c.id + ")")[..|t|] == t;
      assert (t + " (" + c.id + ")")[|t|..] == " (" + c.id + ")";
      t + " (" + c.id + ")"
  }

  /** `ComicData.int_id`: `int(id)`. */
  function IntId(c: ComicData): (r: Result<int, PyError>)
    ensures r.Ok? <==> ParseInt(c.id).Some?
    ensures r.Ok? ==> ParseInt(c.id) == Some(r.value)
  {
    var n := ParseInt(c.id);
    if n.Some? then Ok(n.value) else Err(ValueError("invalid literal for int()"))
  }

  /** A book whose id is the numeral of `n` has `n` as its integer id. */
  lemma IntIdOfNumeral(c: ComicData, n: int)
    requires c.id == IntToDecimal(n)
    ensures IntId(c) == Ok(n)
  {
    IntToDecimalRoundTrip(n);
  }
}
