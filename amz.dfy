/** The session of `comix/amz.py`: `AmazonAuth` keeps the account, the
    device id and the looked-up IP address, registers the device, signs
    requests and keeps the access token fresh.

    The network is a queue: every request is appended to `sent` and is
    answered by the head of `inbox` (an empty inbox is a network failure).
    The token file and the device-id file are fields. The clock and the
    random draws of one call come in an `Env`. */
module Amz {
  import opened Wrappers
  import opened Bytes
  import opened Json
  import opened Models
  import opened AmzCodec
  import Base64

  /** What the session sends. */
  datatype Request =
    | IpLookup
    | Register(email: string, password: Option<string>, deviceSerial: string, frc: string, domain: string)
    | TokenRefresh(refreshToken: string)
    | Prepared(verb: string, url: string, headers: map<string, string>, body: string)

  /** What the network answers: text, a decoded JSON body, or a status code
      with the fields of the `response` element of an XML body. */
  datatype Reply =
    | Text(text: string)
    | JsonBody(json: Json)
    | Xml(status: int, fields: map<string, string>)

  /** The exceptions the session lets through. */
  datatype AuthError =
    | Py(error: PyError)
    | AuthFailed(message: string)
    | NetworkError
    | InvalidKey

  /** The wall clock (`now`, whole seconds, also the Unix time of a signed
      request), the formatted UTC date, and the random UUID and IV drawn
      during one call. */
  datatype Env = Env(now: int, date: string, uuid: string, iv: Block)

  /** The number of `/auth/register` requests in `s`. */
  function Registers(s: seq<Request>): nat
  {
    if s == [] then 0 else Registers(s[..|s| - 1]) + (if s[|s| - 1].Register? then 1 else 0)
  }

  lemma RegistersAppend(s: seq<Request>, q: Request)
    ensures Registers(s + [q]) == Registers(s) + (if q.Register? then 1 else 0)
  {
    assert (s + [q])[..|s|] == s;
  }

  /** The queue after one request has been answered. */
  function Rest(inbox: seq<Reply>): (r: seq<Reply>)
    ensures inbox != [] ==> r == inbox[1..]
    ensures inbox == [] ==> r == []
  {
    if inbox == [] then [] else inbox[1..]
  }

  /** `ip_address` fails: nothing is cached and the lookup is not answered
      with text. */
  predicate LookupFails(ip: Option<string>, inbox: seq<Reply>)
  {
    ip.None? && (inbox == [] || !inbox[0].Text?)
  }

  /** A reply to `/auth/token` that `refresh_token` accepts: JSON with a
      string `access_token`. */
  predicate RefreshAccepted(reply: Reply)
  {
    reply.JsonBody? && Index(reply.json, "access_token").Ok? && Index(reply.json, "access_token").value.JStr?
  }

  function NewAccessToken(reply: Reply): string
    requires RefreshAccepted(reply)
  {
    Index(reply.json, "access_token").value.s
  }

  /** A reply to the device registration that `register_device` accepts:
      an XML body which, with status 200, holds both new credentials. */
  predicate RegistrationAccepted(reply: Reply)
  {
    reply.Xml? && (reply.status == 200 ==> "device_private_key" in reply.fields && "adp_token" in reply.fields)
  }

  /** The account after an accepted registration reply: with status 200
      the private key and the ADP token are the response's, otherwise the
      account is as it was. */
  function AfterRegistration(a: AccountRecord, reply: Reply): AccountRecord
    requires RegistrationAccepted(reply)
  {
    if reply.status == 200
    then a.(privateKey := reply.fields["device_private_key"], adpToken := reply.fields["adp_token"])
    else a
  }

  const RegistrationHeaders: map<string, string> := map["Content-Type" := "text/xml", "Expect" := ""]

  const RegisterDeviceUrl: Url := Url("https://firs-ta-g7g.amazon.com/FirsProxy/registerAssociatedDevice",
                                      "/FirsProxy/registerAssociatedDevice", "", "")

  /** The XML body of `register_device`: the device, its PID and the
      access token between fixed parts. */
  function DeviceRegistrationBody(deviceId: string, pid: string, accessToken: string): string
  {
    RegistrationXmlHead + deviceId + "</deviceSerialNumber><pid>" + pid + RegistrationXmlMiddle
    + accessToken + RegistrationXmlTail
  }

  const RegistrationXmlHead: string :=
    "<?xml version=\"1.0\" encoding=\"UTF-8\"?><request><parameters><deviceType>" + DeviceType
    + "</deviceType><deviceSerialNumber>"
  const RegistrationXmlMiddle: string :=
    "</pid><deregisterExisting>false</deregisterExisting><softwareVersion>" + SwVersion
    + "</softwareVersion><softwareComponentId>" + AppName + "</softwareComponentId><authToken>"
  const RegistrationXmlTail: string := "</authToken><authTokenType>ACCESS_TOKEN</authTokenType></parameters></request>"

  /** The RSA signature of the SHA-256 of the signed string. */
  function Signature(prims: Primitives, key: seq<byte>, a: AccountRecord, verb: string, url: Url,
                     body: Option<string>, date: string): seq<byte>
  {
    prims.rsaSign(key, prims.sha256(Utf8(SigningString(verb, RequestPath(url), date, BodyText(body), a.adpToken))))
  }

  /** The prepared request of `signed_request` for a loaded account. The
      private key that does not import is the `InvalidKey` case. */
  function SignRequest(prims: Primitives, a: AccountRecord, verb: string, url: Url,
                       headers: Option<map<string, string>>, body: Option<string>, asin: Option<string>,
                       requestId: Option<string>, requestType: Option<string>, env: Env)
    : (r: Result<Request, AuthError>)
    ensures r.Err? <==> prims.importKey(a.privateKey).None?
    ensures r.Ok? ==> r.value.Prepared? && r.value.verb == verb && r.value.url == url.text
                      && r.value.body == BodyText(body)
  {
    var key := prims.importKey(a.privateKey);
    if key.None? then Err(InvalidKey)
    else
      var signature := SignatureHeader(Signature(prims, key.value, a, verb, url, body, env.date), env.date);
      Ok(Prepared(verb, url.text,
                  SignedHeaders(BaseHeaders(headers), asin, env.now, requestType, a.adpToken, signature,
                                RequestId(requestId, env.now, env.uuid)),
                  BodyText(body)))
  }

  /** A signed request carries the ADP token and a signature header whose
      part before the first ':' is the Base64 of the RSA signature of the
      signed string, and whose rest is the date that was signed. */
  lemma SignedRequestVerifiable(prims: Primitives, a: AccountRecord, verb: string, url: Url,
                                headers: Option<map<string, string>>, body: Option<string>,
                                asin: Option<string>, requestId: Option<string>,
                                requestType: Option<string>, env: Env)
    requires prims.importKey(a.privateKey).Some?
    ensures var r := SignRequest(prims, a, verb, url, headers, body, asin, requestId, requestType, env);
            var sig := Signature(prims, prims.importKey(a.privateKey).value, a, verb, url, body, env.date);
            var n := |Base64.Encode(sig)|;
            && r.Ok? && "x-adp-signature" in r.value.headers && "x-adp-token" in r.value.headers
            && r.value.headers["x-adp-token"] == a.adpToken
            && |r.value.headers["x-adp-signature"]| > n
            && r.value.headers["x-adp-signature"][n] == ':'
            && Base64.Decode(r.value.headers["x-adp-signature"][..n]) == Some(sig)
            && r.value.headers["x-adp-signature"][n + 1..] == env.date
  {
  }

  class AmazonAuth {
    const email: string
    const password: Option<string>
    const domain: string
    const prims: Primitives
    const deviceId: string
    const pid: string
    /** The text of the device-id file, `None` when there is none. */
    var deviceIdFile: Option<string>
    var account: AmazonAccount?
    var ipAddress: Option<string>
    /** The decoded contents of the token file, `None` when there is none. */
    var tokenFile: Option<Json>
    var sent: seq<Request>
    var inbox: seq<Reply>

    /** `AmazonAuth.__init__`: keeps the stored device id or takes the
        generated one and writes it, then derives the PID. */
    constructor (email: string, password: Option<string>, domain: string, prims: Primitives,
                 deviceIdFile: Option<string>, generated: string, tokenFile: Option<Json>, inbox: seq<Reply>)
      ensures this.deviceId == ChooseDeviceId(deviceIdFile, generated).0
      ensures this.deviceIdFile == if ChooseDeviceId(deviceIdFile, generated).1.Some?
                                   then ChooseDeviceId(deviceIdFile, generated).1 else deviceIdFile
      ensures pid == Pid(prims, this.deviceId)
      ensures this.email == email && this.password == password && this.domain == domain
      ensures this.prims == prims && this.tokenFile == tokenFile && this.inbox == inbox
      ensures account == null && ipAddress == None && sent == []
    {
      var choice := ChooseDeviceId(deviceIdFile, generated);
      this.email := email;
      this.password := password;
      this.domain := domain;
      this.prims := prims;
      this.deviceId := choice.0;
      this.pid := Pid(prims, choice.0);
      this.deviceIdFile := if choice.1.Some? then choice.1 else deviceIdFile;
      this.account := null;
      this.ipAddress := None;
      this.tokenFile := tokenFile;
      this.sent := [];
      this.inbox := inbox;
    }

    /** Sends one request and takes its reply off the queue. */
    method Send(q: Request) returns (reply: Option<Reply>)
      modifies this
      ensures sent == old(sent) + [q]
      ensures old(inbox) == [] ==> reply.None? && inbox == []
      ensures old(inbox) != [] ==> reply == Some(old(inbox)[0]) && inbox == old(inbox)[1..]
      ensures account == old(account) && ipAddress == old(ipAddress) && tokenFile == old(tokenFile)
      ensures deviceIdFile == old(deviceIdFile)
    {
      sent := sent + [q];
      if inbox == [] {
        reply := None;
      } else {
        reply := Some(inbox[0]);
        inbox := inbox[1..];
      }
    }

    /** `ip_address`: looked up once, then cached. */
    method IpAddress() returns (r: Result<string, AuthError>)
      modifies this
      ensures old(ipAddress).Some? ==> r == Ok(old(ipAddress).value) && sent == old(sent) && inbox == old(inbox)
      ensures old(ipAddress).None? ==> sent == old(sent) + [IpLookup] && inbox == Rest(old(inbox))
      ensures r.Err? <==> LookupFails(old(ipAddress), old(inbox))
      ensures r.Err? ==> r == Err(NetworkError)
      ensures old(ipAddress).None? && r.Ok? ==> r.value == old(inbox)[0].text
      ensures r.Ok? ==> ipAddress == Some(r.value)
      ensures r.Err? ==> ipAddress == old(ipAddress)
      ensures account == old(account) && tokenFile == old(tokenFile) && deviceIdFile == old(deviceIdFile)
    {
      if ipAddress.Some? {
        return Ok(ipAddress.value);
      }
      var reply := Send(IpLookup);
      if reply.None? || !reply.value.Text? {
        return Err(NetworkError);
      }
      ipAddress := Some(reply.value.text);
      return Ok(reply.value.text);
    }

    /** `authenticate`: sends the register request with a fresh FRC, reads
        the account with `from_data` (its errors propagate), keeps it, and
        registers the device. */
    method Authenticate(env: Env) returns (r: Result<(), AuthError>)
      modifies this
      decreases 5
      ensures account == old(account) || fresh(account)
      ensures old(ipAddress).Some? ==> ipAddress == old(ipAddress)
      ensures old(sent) <= sent
      ensures LookupFails(old(ipAddress), old(inbox)) ==>
                r == Err(NetworkError) && Registers(sent) == old(Registers(sent)) && account == old(account)
      ensures !LookupFails(old(ipAddress), old(inbox)) ==>
                var n := if old(ipAddress).Some? then 0 else 1;
                ipAddress.Some? && Registers(sent) == old(Registers(sent)) + 1
                && |sent| > |old(sent)| + n
                && sent[|old(sent)| + n]
                   == Register(email, password, deviceId, GenerateFrc(prims, deviceId, ipAddress.value, env.iv), domain)
      ensures r.Ok? ==>
                var n := if old(ipAddress).Some? then 0 else 1;
                && |old(inbox)| > n + 1 && old(inbox)[n].JsonBody?
                && FromData(old(inbox)[n].json, email, password, domain, env.now).Ok?
                && RegistrationAccepted(old(inbox)[n + 1])
                && account != null && fresh(account)
                && account.Record()
                   == AfterRegistration(FromData(old(inbox)[n].json, email, password, domain, env.now).value,
                                        old(inbox)[n + 1])
                && tokenFile == Some(AccountToDict(account.Record()))
    {
      var json :- PostRegister(env);
      r := AdoptAccount(json, env);
    }

    /** The account half of `authenticate`: `from_data` on the reply (its
        errors propagate), then `register_device` for the new account. */
    method AdoptAccount(json: Json, env: Env) returns (r: Result<(), AuthError>)
      modifies this
      decreases 4
      ensures account == old(account) || fresh(account)
      ensures ipAddress == old(ipAddress) && Registers(sent) == old(Registers(sent)) && old(sent) <= sent
      ensures r.Ok? ==>
                && FromData(json, email, password, domain, env.now).Ok?
                && old(inbox) != [] && RegistrationAccepted(old(inbox)[0])
                && account != null && fresh(account)
                && account.Record()
                   == AfterRegistration(FromData(json, email, password, domain, env.now).value, old(inbox)[0])
                && tokenFile == Some(AccountToDict(account.Record()))
    {
      var parsed := FromData(json, email, password, domain, env.now);
      if parsed.Err? {
        return Err(Py(parsed.error));
      }
      account := new AmazonAccount(parsed.value);
      r := RegisterDevice(env);
    }

    /** The request half of `authenticate`: the register request, with the
        FRC built from the IP address (looked up when not cached), and the
        JSON of its reply. */
    method PostRegister(env: Env) returns (r: Result<Json, AuthError>)
      modifies this
      ensures account == old(account) && tokenFile == old(tokenFile)
      ensures old(ipAddress).Some? ==> ipAddress == old(ipAddress)
      ensures old(sent) <= sent
      ensures LookupFails(old(ipAddress), old(inbox)) ==>
                r == Err(NetworkError) && Registers(sent) == old(Registers(sent))
      ensures !LookupFails(old(ipAddress), old(inbox)) ==>
                var n := if old(ipAddress).Some? then 0 else 1;
                ipAddress.Some? && Registers(sent) == old(Registers(sent)) + 1
                && |sent| == |old(sent)| + n + 1
                && sent[|old(sent)| + n]
                   == Register(email, password, deviceId, GenerateFrc(prims, deviceId, ipAddress.value, env.iv), domain)
                && inbox == Rest(old(inbox)[n..])
                && (r.Ok? <==> |old(inbox)| > n && old(inbox)[n].JsonBody?)
                && (r.Ok? ==> r.value == old(inbox)[n].json && inbox == old(inbox)[n + 1..])
    {
      var ip :- IpAddress();
      ghost var atRegister := sent;
      var frc := GenerateFrc(prims, deviceId, ip, env.iv);
      var reply := Send(Register(email, password, deviceId, frc, domain));
      RegistersAppend(atRegister, Register(email, password, deviceId, frc, domain));
      if reply.None? || !reply.value.JsonBody? {
        return Err(NetworkError);
      }
      return Ok(reply.value.json);
    }

    /** `register_device`: sends the signed registration; on status 200
        the private key and ADP token are replaced from the response (a
        missing one raises `KeyError`); the account is then saved. */
    method RegisterDevice(env: Env) returns (r: Result<(), AuthError>)
      modifies this, account
      decreases 3
      ensures account == old(account) && ipAddress == old(ipAddress)
      ensures Registers(sent) == old(Registers(sent)) && old(sent) <= sent
      ensures old(account) == null ==>
                r == Err(Py(ValueError("No account set"))) && sent == old(sent) && inbox == old(inbox)
      ensures old(account) != null && prims.importKey(old(account.privateKey)).None? ==>
                r == Err(InvalidKey) && sent == old(sent) && inbox == old(inbox)
      ensures old(account) != null && prims.importKey(old(account.privateKey)).Some? ==>
                |sent| == |old(sent)| + 1 && inbox == Rest(old(inbox))
                && RegistrationSent(sent[|old(sent)|], old(account.accessToken))
                && (r.Ok? <==> old(inbox) != [] && RegistrationAccepted(old(inbox)[0]))
      ensures r.Ok? ==> old(account) != null && old(inbox) != [] && RegistrationAccepted(old(inbox)[0])
                        && account.Record() == AfterRegistration(old(account.Record()), old(inbox)[0])
                        && tokenFile == Some(AccountToDict(account.Record()))
      ensures account != null ==>
                account.Record() == old(account.Record()).(privateKey := account.privateKey, adpToken := account.adpToken)
    {
      if account == null {
        return Err(Py(ValueError("No account set")));
      }
      var request :- RegistrationRequest(env);
      var reply := Send(request);
      RegistersAppend(old(sent), request);
      if reply.None? || !reply.value.Xml? {
        return Err(NetworkError);
      }
      r := TakeCredentials(reply.value);
      if r.Ok? {
        tokenFile := Some(AccountToDict(account.Record()));
      }
    }

    /** The part of `register_device` that reads the reply: on status 200
        the private key and then the ADP token are taken from the response,
        and a missing one raises `KeyError` (after the key was replaced,
        when only the token is missing). */
    method TakeCredentials(reply: Reply) returns (r: Result<(), AuthError>)
      requires account != null && reply.Xml?
      modifies account
      ensures r.Ok? <==> RegistrationAccepted(reply)
      ensures r.Ok? ==> account.Record() == AfterRegistration(old(account.Record()), reply)
      ensures r.Err? ==> reply.status == 200
                         && r == Err(Py(KeyError(if "device_private_key" !in reply.fields
                                                 then "device_private_key" else "adp_token")))
      ensures account.Record()
              == old(account.Record()).(privateKey := account.privateKey, adpToken := account.adpToken)
    {
      if reply.status == 200 {
        var fields := reply.fields;
        if "device_private_key" !in fields {
          return Err(Py(KeyError("device_private_key")));
        }
        account.privateKey := fields["device_private_key"];
        if "adp_token" !in fields {
          return Err(Py(KeyError("adp_token")));
        }
        account.adpToken := fields["adp_token"];
      }
      return Ok(());
    }

    /** `q` is the registration request of `register_device` for an
        account with access token `accessToken`: a signed POST of the device
        registration to the FIRS proxy. */
    predicate RegistrationSent(q: Request, accessToken: string)
    {
      q.Prepared? && q.verb == "POST" && q.url == RegisterDeviceUrl.text
      && q.body == DeviceRegistrationBody(deviceId, pid, accessToken)
    }

    /** The signed request of `register_device`. */
    method RegistrationRequest(env: Env) returns (r: Result<Request, AuthError>)
      requires account != null
      modifies this, account
      decreases 2
      ensures account == old(account) && sent == old(sent) && inbox == old(inbox) && ipAddress == old(ipAddress)
      ensures tokenFile == old(tokenFile) && account.Record() == old(account.Record())
      ensures r.Err? <==> prims.importKey(account.privateKey).None?
      ensures r.Err? ==> r == Err(InvalidKey)
      ensures r.Ok? ==> RegistrationSent(r.value, account.accessToken)
    {
      var body := DeviceRegistrationBody(deviceId, pid, account.accessToken);
      r := SignedRequest("POST", RegisterDeviceUrl, Some(RegistrationHeaders), Some(body), None, None, None, env);
    }

    /** `signed_request`: authenticates first when no account is loaded,
        then prepares the request with `SignRequest`. */
    method SignedRequest(verb: string, url: Url, headers: Option<map<string, string>>, body: Option<string>,
                         asin: Option<string>, requestId: Option<string>, requestType: Option<string>, env: Env)
      returns (r: Result<Request, AuthError>)
      modifies this, account
      decreases if account == null then 6 else 0
      ensures account == old(account) || fresh(account)
      ensures old(account) != null ==> account == old(account) && sent == old(sent) && inbox == old(inbox)
                                       && tokenFile == old(tokenFile) && account.Record() == old(account.Record())
                                       && ipAddress == old(ipAddress)
                                       && r == SignRequest(prims, old(account.Record()), verb, url, headers, body,
                                                           asin, requestId, requestType, env)
      ensures Registers(sent) <= old(Registers(sent)) + 1
      ensures r.Ok? ==> account != null
                        && r == SignRequest(prims, account.Record(), verb, url, headers, body, asin,
                                            requestId, requestType, env)
    {
      if account == null {
        var auth := Authenticate(env);
        if auth.Err? {
          return Err(auth.error);
        }
      }
      r := SignRequest(prims, account.Record(), verb, url, headers, body, asin, requestId, requestType, env);
    }

    /** `refresh_token`: authenticates when no account is loaded; refuses
        without a password; otherwise trades the refresh token for a new
        access token valid for an hour and saves the account. */
    method RefreshToken(env: Env) returns (r: Result<(), AuthError>)
      modifies this, account
      decreases 6
      ensures account == old(account) || fresh(account)
      ensures old(account) == null ==>
                Registers(sent) == old(Registers(sent)) + (if LookupFails(old(ipAddress), old(inbox)) then 0 else 1)
      ensures old(account) != null ==>
                account == old(account) && Registers(sent) == old(Registers(sent)) && ipAddress == old(ipAddress)
      ensures old(account) != null && password.None? ==>
                r == Err(AuthFailed("Missing password")) && sent == old(sent) && inbox == old(inbox)
      ensures old(account) != null && password.Some? ==>
                sent == old(sent) + [TokenRefresh(old(account.refreshToken))] && inbox == Rest(old(inbox))
                && (r.Ok? <==> old(inbox) != [] && RefreshAccepted(old(inbox)[0]))
      ensures old(account) != null && r.Ok? ==>
                old(inbox) != [] && RefreshAccepted(old(inbox)[0])
                && account.Record() == old(account.Record()).(accessToken := NewAccessToken(old(inbox)[0]),
                                                              expireAt := env.now + 3600)
                && tokenFile == Some(AccountToDict(account.Record()))
                && !account.IsExpired(env.now)
      ensures old(account) != null && r.Err? ==> account.Record() == old(account.Record())
    {
      if account == null {
        r := Authenticate(env);
        return;
      }
      if password.None? {
        return Err(AuthFailed("Missing password"));
      }
      var reply := Send(TokenRefresh(account.refreshToken));
      RegistersAppend(old(sent), TokenRefresh(account.refreshToken));
      if reply.None? || !reply.value.JsonBody? {
        return Err(NetworkError);
      }
      var token := Index(reply.value.json, "access_token");
      if token.Err? {
        return Err(Py(token.error));
      }
      if !token.value.JStr? {
        return Err(Py(NotAString("access_token")));
      }
      account.accessToken := token.value.s;
      account.UpdateExpiry(env.now, 3600);
      tokenFile := Some(AccountToDict(account.Record()));
      return Ok(());
    }

    /** `login`: loads the saved account (authenticating when it does not
        read back), refreshes it when expired and falls back to one more
        authentication when the refresh fails. Without a token file it
        authenticates once. */
    method Login(env: Env) returns (r: Result<(), AuthError>)
      modifies this, account
      decreases 8
      ensures account == old(account) || fresh(account)
      ensures r.Ok? ==> account != null
      ensures Registers(sent) <= old(Registers(sent)) + 2
      ensures old(tokenFile).None? ==>
                Registers(sent) == old(Registers(sent)) + (if LookupFails(old(ipAddress), old(inbox)) then 0 else 1)
                && (r.Ok? ==> tokenFile == Some(AccountToDict(account.Record())))
      ensures old(tokenFile).Some? && FromDict(old(tokenFile).value).Ok? ==>
                var a := FromDict(old(tokenFile).value).value;
                && Registers(sent) <= old(Registers(sent)) + 1
                && (a.expireAt >= env.now ==> r.Ok? && sent == old(sent) && account.Record() == a)
                && (a.expireAt < env.now && password.Some? ==>
                      |sent| > |old(sent)| && sent[|old(sent)|] == TokenRefresh(a.refreshToken))
                && (a.expireAt < env.now && password.Some? && old(inbox) != [] && RefreshAccepted(old(inbox)[0]) ==>
                      r.Ok? && sent == old(sent) + [TokenRefresh(a.refreshToken)]
                      && account.Record() == a.(accessToken := NewAccessToken(old(inbox)[0]), expireAt := env.now + 3600)
                      && tokenFile == Some(AccountToDict(account.Record())))
                && (a.expireAt < env.now && password.Some? && !(old(inbox) != [] && RefreshAccepted(old(inbox)[0])) ==>
                      Registers(sent)
                      == old(Registers(sent)) + (if LookupFails(old(ipAddress), Rest(old(inbox))) then 0 else 1)
                      && (r.Ok? ==> tokenFile == Some(AccountToDict(account.Record()))))
                && (a.expireAt < env.now && password.None? ==>
                      Registers(sent)
                      == old(Registers(sent)) + (if LookupFails(old(ipAddress), old(inbox)) then 0 else 1)
                      && (r.Ok? ==> tokenFile == Some(AccountToDict(account.Record()))))
      ensures old(tokenFile).Some? && FromDict(old(tokenFile).value).Err? ==>
                Registers(sent) >= old(Registers(sent)) + (if LookupFails(old(ipAddress), old(inbox)) then 0 else 1)
                && (r.Ok? ==> tokenFile == Some(AccountToDict(account.Record())))
    {
      if tokenFile.Some? {
        r := LoadAccount(env);
        if r.Err? {
          return;
        }
        r := RenewIfExpired(env);
        return;
      }
      var auth := Authenticate(env);
      if auth.Err? {
        return Err(auth.error);
      }
      tokenFile := Some(AccountToDict(account.Record()));
      return Ok(());
    }

    /** The first half of `login` with a token file: the saved account, or,
        when it does not read back, a fresh authentication that is saved. */
    method LoadAccount(env: Env) returns (r: Result<(), AuthError>)
      requires tokenFile.Some?
      modifies this
      decreases 6
      ensures account == old(account) || fresh(account)
      ensures r.Ok? ==> account != null
      ensures FromDict(old(tokenFile).value).Ok? ==>
                r.Ok? && fresh(account) && account.Record() == FromDict(old(tokenFile).value).value
                && sent == old(sent) && inbox == old(inbox) && ipAddress == old(ipAddress)
      ensures FromDict(old(tokenFile).value).Err? ==>
                Registers(sent) == old(Registers(sent)) + (if LookupFails(old(ipAddress), old(inbox)) then 0 else 1)
                && (r.Ok? ==> tokenFile == Some(AccountToDict(account.Record())))
    {
      var loaded := FromDict(tokenFile.value);
      if loaded.Ok? {
        account := new AmazonAccount(loaded.value);
        return Ok(());
      }
      var auth := Authenticate(env);
      if auth.Err? {
        return Err(auth.error);
      }
      tokenFile := Some(AccountToDict(account.Record()));
      return Ok(());
    }

    /** The second half of `login` with a token file: an expired account is
        refreshed, and when the refresh fails for any reason the session
        authenticates again and saves the new account. */
    method RenewIfExpired(env: Env) returns (r: Result<(), AuthError>)
      requires account != null
      modifies this, account
      decreases 7
      ensures account == old(account) || fresh(account)
      ensures r.Ok? ==> account != null
      ensures old(Registers(sent)) <= Registers(sent) <= old(Registers(sent)) + 1
      ensures r.Ok? && old(account.expireAt) < env.now ==> tokenFile == Some(AccountToDict(account.Record()))
      ensures old(account.expireAt) >= env.now ==>
                r.Ok? && account == old(account) && sent == old(sent) && inbox == old(inbox)
                && account.Record() == old(account.Record()) && tokenFile == old(tokenFile)
      ensures old(account.expireAt) < env.now && password.Some? ==>
                |sent| > |old(sent)| && sent[|old(sent)|] == TokenRefresh(old(account.refreshToken))
      ensures old(account.expireAt) < env.now && password.Some? && old(inbox) != [] && RefreshAccepted(old(inbox)[0]) ==>
                r.Ok? && sent == old(sent) + [TokenRefresh(old(account.refreshToken))]
                && account.Record() == old(account.Record()).(accessToken := NewAccessToken(old(inbox)[0]),
                                                              expireAt := env.now + 3600)
                && tokenFile == Some(AccountToDict(account.Record()))
      ensures old(account.expireAt) < env.now && password.Some? && !(old(inbox) != [] && RefreshAccepted(old(inbox)[0])) ==>
                Registers(sent) == old(Registers(sent)) + (if LookupFails(old(ipAddress), Rest(old(inbox))) then 0 else 1)
      ensures old(account.expireAt) < env.now && password.None? ==>
                Registers(sent) == old(Registers(sent)) + (if LookupFails(old(ipAddress), old(inbox)) then 0 else 1)
    {
      if !account.IsExpired(env.now) {
        return Ok(());
      }
      var refreshed := RefreshToken(env);
      if refreshed.Ok? {
        return Ok(());
      }
      var auth := Authenticate(env);
      if auth.Err? {
        return Err(auth.error);
      }
      tokenFile := Some(AccountToDict(account.Record()));
      return Ok(());
    }

    /** `token`: logs in when no account is loaded, refreshes an expired
        credential (without a fallback), and returns the access token, which
        is then never expired. */
    method Token(env: Env) returns (r: Result<string, AuthError>)
      modifies this, account
      decreases 10
      ensures account == old(account) || fresh(account)
      ensures r.Ok? ==> account != null && r.value == account.accessToken && !account.IsExpired(env.now)
      ensures Registers(sent) <= old(Registers(sent)) + 2
      ensures old(account) != null ==> account == old(account) && Registers(sent) == old(Registers(sent))
      ensures old(account) != null && old(account.expireAt) >= env.now ==>
                r == Ok(old(account.accessToken)) && sent == old(sent) && account.Record() == old(account.Record())
      ensures old(account) != null && old(account.expireAt) < env.now && password.None? ==>
                r == Err(AuthFailed("Missing password")) && sent == old(sent)
      ensures old(account) != null && old(account.expireAt) < env.now && password.Some? ==>
                sent == old(sent) + [TokenRefresh(old(account.refreshToken))]
                && (r.Ok? <==> old(inbox) != [] && RefreshAccepted(old(inbox)[0]))
                && (r.Ok? ==> r.value == NewAccessToken(old(inbox)[0]))
      ensures old(account) == null && old(tokenFile).None? ==>
                Registers(sent) >= old(Registers(sent)) + (if LookupFails(old(ipAddress), old(inbox)) then 0 else 1)
      ensures old(account) == null && old(tokenFile).Some? && FromDict(old(tokenFile).value).Err? ==>
                Registers(sent) >= old(Registers(sent)) + (if LookupFails(old(ipAddress), old(inbox)) then 0 else 1)
      ensures old(account) == null && old(tokenFile).Some? && FromDict(old(tokenFile).value).Ok?
              && FromDict(old(tokenFile).value).value.expireAt >= env.now ==>
                r == Ok(FromDict(old(tokenFile).value).value.accessToken) && sent == old(sent)
      ensures old(account) == null && old(tokenFile).Some? && FromDict(old(tokenFile).value).Ok?
              && FromDict(old(tokenFile).value).value.expireAt < env.now && password.Some? ==>
                var a := FromDict(old(tokenFile).value).value;
                && |sent| > |old(sent)| && sent[|old(sent)|] == TokenRefresh(a.refreshToken)
                && (old(inbox) != [] && RefreshAccepted(old(inbox)[0]) ==>
                      r == Ok(NewAccessToken(old(inbox)[0])) && sent == old(sent) + [TokenRefresh(a.refreshToken)])
      ensures old(account) == null && old(tokenFile).Some? && FromDict(old(tokenFile).value).Ok?
              && FromDict(old(tokenFile).value).value.expireAt < env.now && password.None? ==>
                Registers(sent) >= old(Registers(sent)) + (if LookupFails(old(ipAddress), old(inbox)) then 0 else 1)
    {
      if account == null {
        var loggedIn := Login(env);
        if loggedIn.Err? {
          return Err(loggedIn.error);
        }
      }
      if account.IsExpired(env.now) {
        var refreshed := RefreshToken(env);
        if refreshed.Err? {
          return Err(refreshed.error);
        }
      }
      return Ok(account.accessToken);
    }
  }
}
