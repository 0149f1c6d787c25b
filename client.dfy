/** The catalog client of `comix/client.py`: it asks the store for a
    book's download record and turns it into a `ComicData`, looks up issue
    summaries, and lists the purchased books.

    The HTTP session is a queue like the one of the Amazon session: every
    form posted is appended to `posts` and is answered by the head of
    `inbox`, a response body. Decoding a body as one of the protobuf
    messages is a parameter; the decoded messages are records. */
module Client {
  import opened Wrappers
  import opened Bytes
  import opened Json
  import opened Models
  import Amz

  // ------------------------------------------------------- decoded messages

  /** The image types the store distinguishes; only full pages are kept. */
  datatype ImageType = Full | Other

  /** An image of a page: its URI, its digest and its type. */
  datatype ProtoImage = ProtoImage(uri: string, digest: seq<byte>, imageType: ImageType)

  /** A page of the book, with the images of its page info. */
  datatype ProtoPage = ProtoPage(images: seq<ProtoImage>)

  /** The fields of `ComicResponse` that are read: the error message, and
      the comic's id, issue title, publisher id, version and pages. */
  datatype ComicResponse = ComicResponse(
    errormsg: string, comicId: string, title: string, publisherId: string,
    version: string, pages: seq<ProtoPage>)

  /** The id of a listed issue, which the listing gives as a number or as
      a string. */
  datatype IssueId = IntValue(n: int) | StrValue(s: string)

  /** The decoders of the three messages; `None` is a `DecodeError`. */
  datatype Protobuf = Protobuf(
    comic: seq<byte> -> Option<ComicResponse>,
    issues: seq<byte> -> Option<seq<IssueProto>>,
    listing: seq<byte> -> Option<seq<IssueId>>)

  /** The three store endpoints (`API_DOWNLOAD_URL`, `API_ISSUE_URL`,
      `API_LIST_URL`). */
  datatype Endpoint = Download | IssueSummaries | Purchases

  /** A form value: a string, or an integer the session writes in decimal. */
  datatype FormValue = FStr(s: string) | FInt(n: int)

  datatype Post = Post(endpoint: Endpoint, form: map<string, FormValue>)

  /** The failures `get_comic` and `get_comics` let through. */
  datatype ClientError =
    | Auth(authError: Amz.AuthError)
    | Py(pyError: PyError)
    | NetworkError
    | DecodeError

  // ----------------------------------------------------------- publisher

  /** The publisher remap: `274` and `281` are read as `6670`. */
  function RemapPublisher(id: string): string
  {
    if id == "274" || id == "281" then "6670" else id
  }

  /** Exactly `274`, `281` and `6670` end up as `6670`, and every other id
      is kept. */
  lemma RemapPublisherIff(id: string)
    ensures RemapPublisher(id) == "6670" <==> id == "274" || id == "281" || id == "6670"
    ensures RemapPublisher(id) != "6670" ==> RemapPublisher(id) == id
  {
  }

  /** Remapping twice is remapping once. */
  lemma RemapPublisherIdempotent(id: string)
    ensures RemapPublisher(RemapPublisher(id)) == RemapPublisher(id)
  {
    assert "6670" != "274" && "6670" != "281";
  }

  // -------------------------------------------------------------- images

  /** The `ComicImage` of a page image. */
  function ImageOf(p: ProtoImage): ComicImage
  {
    ComicImage(p.uri, p.digest)
  }

  /** The full images of one page, in order. */
  function PageImages(images: seq<ProtoImage>): (r: seq<ComicImage>)
    ensures |r| <= |images|
  {
    if images == [] then []
    else
      var n := |images| - 1;
      PageImages(images[..n]) + if images[n].imageType == Full then [ImageOf(images[n])] else []
  }

  /** The full images of the book, page after page. */
  function FullImages(pages: seq<ProtoPage>): seq<ComicImage>
  {
    if pages == [] then []
    else
      var n := |pages| - 1;
      FullImages(pages[..n]) + PageImages(pages[n].images)
  }

  /** An image is kept exactly when some full image of the page carries
      its URI and digest. */
  lemma {:induction false} PageImagesIff(images: seq<ProtoImage>, x: ComicImage)
    ensures x in PageImages(images) <==>
              exists i :: 0 <= i < |images| && images[i].imageType == Full && ImageOf(images[i]) == x
  {
    if images != [] {
      var n := |images| - 1;
      var init := images[..n];
      var last := if images[n].imageType == Full then [ImageOf(images[n])] else [];
      assert PageImages(images) == PageImages(init) + last;
      PageImagesIff(init, x);
      if x in PageImages(images) {
        if x in PageImages(init) {
          var i :| 0 <= i < n && init[i].imageType == Full && ImageOf(init[i]) == x;
          assert images[i] == init[i];
        } else {
          assert x in last;
        }
      } else {
        forall i | 0 <= i < |images| && images[i].imageType == Full
          ensures ImageOf(images[i]) != x
        {
          if i < n {
            assert init[i] == images[i];
          }
        }
      }
    }
  }

  /** An image of the book is kept exactly when some full image of some
      page carries its URI and digest. */
  lemma {:induction false} FullImagesIff(pages: seq<ProtoPage>, x: ComicImage)
    ensures x in FullImages(pages) <==>
              exists p :: 0 <= p < |pages| && x in PageImages(pages[p].images)
  {
    if pages != [] {
      var n := |pages| - 1;
      var init := pages[..n];
      assert FullImages(pages) == FullImages(init) + PageImages(pages[n].images);
      FullImagesIff(init, x);
      if x in FullImages(pages) {
        if x in FullImages(init) {
          var p :| 0 <= p < n && x in PageImages(init[p].images);
          assert pages[p] == init[p];
        } else {
          assert x in PageImages(pages[n].images);
        }
      } else {
        forall p | 0 <= p < |pages| ensures x !in PageImages(pages[p].images) {
          if p < n {
            assert init[p] == pages[p];
          }
        }
      }
    }
  }

  /** Page order is kept: the images of two runs of pages are those of the
      first run followed by those of the second. */
  lemma {:induction false} FullImagesConcat(a: seq<ProtoPage>, b: seq<ProtoPage>)
    ensures FullImages(a + b) == FullImages(a) + FullImages(b)
    decreases |b|
  {
    var c := a + b;
    if b == [] {
      assert c == a;
    } else {
      var n := |b| - 1;
      assert c[..|c| - 1] == a + b[..n];
      assert c[|c| - 1] == b[n];
      calc {
        FullImages(c);
        FullImages(a + b[..n]) + PageImages(b[n].images);
        { FullImagesConcat(a, b[..n]); }
        FullImages(a) + FullImages(b[..n]) + PageImages(b[n].images);
        FullImages(a) + FullImages(b);
      }
    }
  }

  /** The loops of `get_comic` over the pages and their images. */
  method CollectImages(pages: seq<ProtoPage>) returns (list: seq<ComicImage>)
    ensures list == FullImages(pages)
  {
    list := [];
    var i := 0;
    while i < |pages|
      invariant 0 <= i <= |pages|
      invariant list == FullImages(pages[..i])
    {
      var images := pages[i].images;
      ghost var before := list;
      var j := 0;
      while j < |images|
        invariant 0 <= j <= |images|
        invariant list == before + PageImages(images[..j])
      {
        assert images[..j + 1][..j] == images[..j];
        if images[j].imageType == Full {
          list := list + [ImageOf(images[j])];
        }
        j := j + 1;
      }
      assert images[..j] == images;
      assert pages[..i + 1][..i] == pages[..i];
      i := i + 1;
    }
    assert pages[..i] == pages;
  }

  // ------------------------------------------------------ mapping with int()

  /** Converting every element in order; the first failure is raised. */
  function MapResult<A, B>(s: seq<A>, f: A -> Result<B, PyError>): Result<seq<B>, PyError>
  {
    if s == [] then Ok([])
    else
      var init :- MapResult(s[..|s| - 1], f);
      var last :- f(s[|s| - 1]);
      Ok(init + [last])
  }

  /** The conversion succeeds exactly when every element converts, and then
      holds the converted elements in order. */
  lemma {:induction false} MapResultOk<A, B>(s: seq<A>, f: A -> Result<B, PyError>)
    ensures MapResult(s, f).Ok? <==> forall k :: 0 <= k < |s| ==> f(s[k]).Ok?
    ensures MapResult(s, f).Ok? ==>
              |MapResult(s, f).value| == |s|
              && forall k :: 0 <= k < |s| ==> MapResult(s, f).value[k] == f(s[k]).value
  {
    if s != [] {
      var n := |s| - 1;
      MapResultOk(s[..n], f);
      forall k | 0 <= k < n ensures s[..n][k] == s[k] {
      }
    }
  }

  /** A failure is the failure of the first element that fails. */
  lemma {:induction false} MapResultFirstError<A, B>(s: seq<A>, f: A -> Result<B, PyError>, j: nat)
    requires j < |s| && f(s[j]).Err?
    requires forall k :: 0 <= k < j ==> f(s[k]).Ok?
    ensures MapResult(s, f) == Err(f(s[j]).error)
    decreases |s|
  {
    var n := |s| - 1;
    if j < n {
      forall k | 0 <= k < j ensures f(s[..n][k]).Ok? {
        assert s[..n][k] == s[k];
      }
      assert s[..n][j] == s[j];
      MapResultFirstError(s[..n], f, j);
    } else {
      MapResultOk(s[..n], f);
      forall k | 0 <= k < n ensures f(s[k]).Ok? {
      }
    }
  }

  /** `int(issue_id)` unless the id is already an integer. */
  function IdOf(v: IssueId): (r: Result<int, PyError>)
    ensures v.IntValue? ==> r == Ok(v.n)
    ensures v.StrValue? ==> (r.Ok? <==> ParseInt(v.s).Some?) && (r.Ok? ==> Some(r.value) == ParseInt(v.s))
  {
    match v
    case IntValue(n) => Ok(n)
    case StrValue(s) =>
      var n := ParseInt(s);
      if n.Some? then Ok(n.value) else Err(ValueError("invalid literal for int()"))
  }

  /** The id loop of `get_comics`. */
  method ConvertIds(listing: seq<IssueId>) returns (r: Result<seq<int>, PyError>)
    ensures r == MapResult(listing, IdOf)
  {
    var ids: seq<int> := [];
    var i := 0;
    while i < |listing|
      invariant 0 <= i <= |listing|
      invariant MapResult(listing[..i], IdOf) == Ok(ids)
    {
      assert listing[..i + 1][..i] == listing[..i];
      var id := IdOf(listing[i]);
      if id.Err? {
        MapResultOk(listing[..i], IdOf);
        forall k | 0 <= k < i ensures IdOf(listing[k]).Ok? {
          assert listing[..i][k] == listing[k];
        }
        MapResultFirstError(listing, IdOf, i);
        return Err(id.error);
      }
      ids := ids + [id.value];
      i := i + 1;
    }
    assert listing[..i] == listing;
    r := Ok(ids);
  }

  /** The issue loop of `_get_comic_issue_info`: `ComicIssue.from_proto` of
      every summary, in order. */
  method ReadIssues(protos: seq<IssueProto>) returns (r: Result<seq<ComicIssue>, PyError>)
    ensures r == MapResult(protos, FromProto)
  {
    var infos: seq<ComicIssue> := [];
    var i := 0;
    while i < |protos|
      invariant 0 <= i <= |protos|
      invariant MapResult(protos[..i], FromProto) == Ok(infos)
    {
      assert protos[..i + 1][..i] == protos[..i];
      var info := FromProto(protos[i]);
      if info.Err? {
        MapResultOk(protos[..i], FromProto);
        forall k | 0 <= k < i ensures FromProto(protos[k]).Ok? {
          assert protos[..i][k] == protos[k];
        }
        MapResultFirstError(protos, FromProto, i);
        return Err(info.error);
      }
      infos := infos + [info.value];
      i := i + 1;
    }
    assert protos[..i] == protos;
    r := Ok(infos);
  }

  // --------------------------------------------------------------- forms

  /** `f"ids[{idx}]"`. */
  function IdKey(k: nat): string
  {
    "ids[" + IntToDecimal(k) + "]"
  }

  /** Each index has its own key. */
  lemma IdKeyInjective(a: nat, b: nat)
    requires IdKey(a) == IdKey(b)
    ensures a == b
  {
    var x, y := IdKey(a), IdKey(b);
    assert x[4..|x| - 1] == IntToDecimal(a);
    assert y[4..|y| - 1] == IntToDecimal(b);
    IntToDecimalInjective(a, b);
  }

  /** The keys every form starts with. */
  function BaseForm(token: string): map<string, FormValue>
  {
    map["amz_access_token" := FStr(token), "account_type" := FStr("amazon")]
  }

  /** No index key is one of the two fixed keys. */
  lemma IdKeyNotBase(k: nat, token: string)
    ensures IdKey(k) !in BaseForm(token)
  {
    assert IdKey(k)[0] == 'i';
  }

  /** The form of `_get_comic_issue_info`: the fixed keys, and
      `ids[k] = issue_ids[k]` added in order. */
  function IssueFormOf(token: string, ids: seq<int>): map<string, FormValue>
  {
    if ids == [] then BaseForm(token)
    else
      var n := |ids| - 1;
      IssueFormOf(token, ids[..n])[IdKey(n) := FInt(ids[n])]
  }

  /** The form holds the two fixed keys with their values and `ids[k]` with
      the k-th id for every k. */
  lemma {:induction false} IssueFormEntries(token: string, ids: seq<int>)
    ensures var f := IssueFormOf(token, ids);
            "amz_access_token" in f && f["amz_access_token"] == FStr(token)
            && "account_type" in f && f["account_type"] == FStr("amazon")
            && forall k: nat :: k < |ids| ==> IdKey(k) in f && f[IdKey(k)] == FInt(ids[k])
  {
    if ids != [] {
      var n := |ids| - 1;
      var f, g := IssueFormOf(token, ids), IssueFormOf(token, ids[..n]);
      IssueFormEntries(token, ids[..n]);
      IdKeyNotBase(n, token);
      forall k: nat | k < n ensures IdKey(k) in f && f[IdKey(k)] == FInt(ids[k]) {
        if IdKey(k) == IdKey(n) {
          IdKeyInjective(k, n);
        }
        assert ids[..n][k] == ids[k];
      }
    }
  }

  /** The keys of the first `n + 1` indices are those of the first `n` and
      the key of index `n`. */
  lemma IdKeysSnoc(n: nat)
    ensures (set k: nat | k < n + 1 :: IdKey(k)) == (set k: nat | k < n :: IdKey(k)) + {IdKey(n)}
  {
    var before, after := set k: nat | k < n :: IdKey(k), set k: nat | k < n + 1 :: IdKey(k);
    forall x | x in after ensures x in before + {IdKey(n)} {
      var k: nat :| k < n + 1 && x == IdKey(k);
      if k < n {
        assert x in before;
      } else {
        assert k == n && x == IdKey(n);
      }
    }
    forall x | x in before + {IdKey(n)} ensures x in after {
      if x != IdKey(n) {
        var k: nat :| k < n && x == IdKey(k);
      }
    }
  }

  /** The form has no other keys than the two fixed ones and `ids[k]` for
      the indices of the ids. */
  lemma {:induction false} IssueFormKeys(token: string, ids: seq<int>)
    ensures IssueFormOf(token, ids).Keys == BaseForm(token).Keys + set k: nat | k < |ids| :: IdKey(k)
  {
    if ids == [] {
      assert (set k: nat | k < |ids| :: IdKey(k)) == {};
    } else {
      var n := |ids| - 1;
      IssueFormKeys(token, ids[..n]);
      assert IssueFormOf(token, ids).Keys == IssueFormOf(token, ids[..n]).Keys + {IdKey(n)};
      IdKeysSnoc(n);
    }
  }

  /** The form loop of `_get_comic_issue_info`. */
  method IssueForm(token: string, ids: seq<int>) returns (form: map<string, FormValue>)
    ensures form == IssueFormOf(token, ids)
  {
    form := BaseForm(token);
    var idx := 0;
    while idx < |ids|
      invariant 0 <= idx <= |ids|
      invariant form == IssueFormOf(token, ids[..idx])
    {
      assert ids[..idx + 1][..idx] == ids[..idx];
      form := form[IdKey(idx) := FInt(ids[idx])];
      idx := idx + 1;
    }
    assert ids[..idx] == ids;
  }

  /** The form of `get_comic`. */
  function ComicForm(token: string, itemId: int): map<string, FormValue>
  {
    BaseForm(token)["comic_format" := FStr("IPAD_PROVISIONAL_HD")]["item_id" := FInt(itemId)]
  }

  /** The form of `get_comics`. */
  function ListForm(token: string): map<string, FormValue>
  {
    BaseForm(token)["sinceDate" := FStr("0")]
  }

  // --------------------------------------------------------- ComicData

  /** The record is usable: no error message, an id, and some pages. */
  predicate Usable(resp: ComicResponse)
  {
    resp.errormsg == "" && resp.comicId != "" && |resp.pages| > 0
  }

  /** The issue of the lookup: its first element, if any. */
  function FirstIssue(issues: seq<ComicIssue>): (r: Option<ComicIssue>)
    ensures r.None? <==> issues == []
    ensures r.Some? ==> r.value == issues[0]
  {
    if issues == [] then None else Some(issues[0])
  }

  /** The `ComicData` `get_comic` builds from a usable record and the
      looked-up issue. */
  function ComicDataOf(resp: ComicResponse, issue: Option<ComicIssue>): (c: ComicData)
    ensures c.id == resp.comicId && c.title == resp.title && c.version == resp.version
    ensures c.publisherId == RemapPublisher(resp.publisherId) && c.issue == issue
    ensures c.images == FullImages(resp.pages)
  {
    ComicData(resp.comicId, resp.title, RemapPublisher(resp.publisherId), resp.version,
              issue, FullImages(resp.pages))
  }

  /** What becomes of a store record that is kept: the publisher is never
      one of the two remapped ids, and every image is a full image of one
      of its pages. */
  lemma ComicDataClean(resp: ComicResponse, issue: Option<ComicIssue>)
    ensures ComicDataOf(resp, issue).publisherId != "274"
    ensures ComicDataOf(resp, issue).publisherId != "281"
    ensures forall x :: x in ComicDataOf(resp, issue).images ==>
              exists p, i :: 0 <= p < |resp.pages| && 0 <= i < |resp.pages[p].images|
                && resp.pages[p].images[i].imageType == Full && ImageOf(resp.pages[p].images[i]) == x
  {
    RemapPublisherIff(resp.publisherId);
    forall x | x in ComicDataOf(resp, issue).images
      ensures exists p, i :: 0 <= p < |resp.pages| && 0 <= i < |resp.pages[p].images|
                && resp.pages[p].images[i].imageType == Full && ImageOf(resp.pages[p].images[i]) == x
    {
      FullImagesIff(resp.pages, x);
      var p :| 0 <= p < |resp.pages| && x in PageImages(resp.pages[p].images);
      PageImagesIff(resp.pages[p].images, x);
    }
  }

  // ------------------------------------------------------------- replies

  /** What `_get_comic_issue_info` makes of a reply: a body that does not
      decode raises `DecodeError`, a summary `from_proto` rejects raises its
      error, and otherwise every summary becomes a `ComicIssue`. */
  function IssuesOf(proto: Protobuf, body: seq<byte>): (r: Result<seq<ComicIssue>, ClientError>)
    ensures r == Err(DecodeError) <==> proto.issues(body).None?
    ensures r.Ok? <==> proto.issues(body).Some? && MapResult(proto.issues(body).value, FromProto).Ok?
    ensures r.Ok? ==> |r.value| == |proto.issues(body).value|
  {
    match proto.issues(body)
    case None => Err(DecodeError)
    case Some(protos) =>
      MapResultOk(protos, FromProto);
      match MapResult(protos, FromProto)
      case Ok(issues) => Ok(issues)
      case Err(e) => Err(Py(e))
  }

  /** The record `get_comic` goes on with: one that decodes and is usable. */
  function KeptRecord(proto: Protobuf, body: seq<byte>): (r: Option<ComicResponse>)
    ensures r.Some? <==> proto.comic(body).Some? && Usable(proto.comic(body).value)
    ensures r.Some? ==> r.value == proto.comic(body).value
  {
    match proto.comic(body)
    case None => None
    case Some(resp) => if Usable(resp) then Some(resp) else None
  }

  // -------------------------------------------------------------- client

  /** `CmxClient`: the store session, and the Amazon session that supplies
      the access token of every form. */
  class CmxClient {
    const amz: Amz.AmazonAuth
    const proto: Protobuf
    /** The forms posted so far, oldest first. */
    var posts: seq<Post>
    /** The bodies of the replies still to come. */
    var inbox: seq<seq<byte>>
    var closed: bool

    constructor (amz: Amz.AmazonAuth, proto: Protobuf, inbox: seq<seq<byte>>)
      ensures this.amz == amz && this.proto == proto && this.inbox == inbox
      ensures posts == [] && !closed
    {
      this.amz := amz;
      this.proto := proto;
      this.inbox := inbox;
      posts := [];
      closed := false;
    }

    /** `session.post`: the form is sent and the next reply is its body;
        with no reply left the request fails. */
    method Send(endpoint: Endpoint, form: map<string, FormValue>) returns (r: Result<seq<byte>, ClientError>)
      modifies this
      ensures posts == old(posts) + [Post(endpoint, form)] && closed == old(closed)
      ensures old(inbox) == [] ==> r == Err(NetworkError) && inbox == []
      ensures old(inbox) != [] ==> r == Ok(old(inbox)[0]) && inbox == old(inbox)[1..]
    {
      posts := posts + [Post(endpoint, form)];
      if inbox == [] {
        return Err(NetworkError);
      }
      r := Ok(inbox[0]);
      inbox := inbox[1..];
    }

    /** `_get_comic_issue_info`: posts the token and the ids and reads the
        summaries of the reply. While the account's token is still valid
        it is the one posted and the account is left as it was. */
    method IssueInfo(env: Amz.Env, ids: seq<int>) returns (r: Result<seq<ComicIssue>, ClientError>)
      modifies this, amz, amz.account
      ensures amz.account == old(amz.account) || fresh(amz.account)
      ensures closed == old(closed)
      ensures r.Ok? ==>
                (amz.account != null && !amz.account.IsExpired(env.now)
                 && old(inbox) != [] && inbox == old(inbox)[1..] && r == IssuesOf(proto, old(inbox)[0])
                 && posts == old(posts) + [Post(IssueSummaries, IssueFormOf(amz.account.accessToken, ids))])
      ensures old(amz.account) != null && old(amz.account.expireAt) >= env.now ==>
                amz.account == old(amz.account) && amz.account.Record() == old(amz.account.Record())
                && posts == old(posts) + [Post(IssueSummaries, IssueFormOf(old(amz.account.accessToken), ids))]
                && (old(inbox) == [] ==> r == Err(NetworkError))
                && (old(inbox) != [] ==> r == IssuesOf(proto, old(inbox)[0]) && inbox == old(inbox)[1..])
    {
      var token := amz.Token(env);
      if token.Err? {
        return Err(Auth(token.error));
      }
      var form := IssueForm(token.value, ids);
      var body := Send(IssueSummaries, form);
      if body.Err? {
        return Err(body.error);
      }
      var decoded := proto.issues(body.value);
      if decoded.None? {
        return Err(DecodeError);
      }
      var issues := ReadIssues(decoded.value);
      if issues.Err? {
        return Err(Py(issues.error));
      }
      r := Ok(issues.value);
    }

    /** `get_comic`: asks for the download record of `itemId`. A reply
        that does not decode, carries an error message, or has no id or no
        pages gives `None`; otherwise the issue summary of `itemId` is
        looked up and the record becomes a `ComicData`. */
    method GetComic(env: Amz.Env, itemId: int) returns (r: Result<Option<ComicData>, ClientError>)
      modifies this, amz, amz.account
      ensures amz.account == old(amz.account) || fresh(amz.account)
      ensures closed == old(closed)
      ensures r.Ok? ==> amz.account != null && old(inbox) != []
      ensures r.Ok? && KeptRecord(proto, old(inbox)[0]).None? ==>
                r.value == None && inbox == old(inbox)[1..]
                && posts == old(posts) + [Post(Download, ComicForm(amz.account.accessToken, itemId))]
      ensures r.Ok? && KeptRecord(proto, old(inbox)[0]).Some? ==>
                |old(inbox)| >= 2 && IssuesOf(proto, old(inbox)[1]).Ok? && inbox == old(inbox)[2..]
                && r.value == Some(ComicDataOf(KeptRecord(proto, old(inbox)[0]).value,
                                               FirstIssue(IssuesOf(proto, old(inbox)[1]).value)))
                && posts == old(posts) + [Post(Download, ComicForm(amz.account.accessToken, itemId)),
                                          Post(IssueSummaries, IssueFormOf(amz.account.accessToken, [itemId]))]
      ensures r.Err? && r.error.Py? ==>
                |old(inbox)| >= 2 && KeptRecord(proto, old(inbox)[0]).Some?
                && IssuesOf(proto, old(inbox)[1]) == Err(r.error)
    {
      var token := amz.Token(env);
      if token.Err? {
        return Err(Auth(token.error));
      }
      var body := Send(Download, ComicForm(token.value, itemId));
      if body.Err? {
        return Err(body.error);
      }
      var resp := proto.comic(body.value);
      if resp.None? || !Usable(resp.value) {
        return Ok(None);
      }
      var issues := IssueInfo(env, [itemId]);
      if issues.Err? {
        return Err(issues.error);
      }
      var images := CollectImages(resp.value.pages);
      r := Ok(Some(ComicData(resp.value.comicId, resp.value.title, RemapPublisher(resp.value.publisherId),
                             resp.value.version, FirstIssue(issues.value), images)));
    }

    /** `get_comics`: lists the purchased issues, converts their ids to
        integers and looks up their summaries; an empty listing gives no
        issues and no lookup. */
    method GetComics(env: Amz.Env) returns (r: Result<seq<ComicIssue>, ClientError>)
      modifies this, amz, amz.account
      ensures amz.account == old(amz.account) || fresh(amz.account)
      ensures closed == old(closed)
      ensures r.Ok? ==> amz.account != null && old(inbox) != [] && proto.listing(old(inbox)[0]).Some?
      ensures r.Ok? && proto.listing(old(inbox)[0]).value == [] ==>
                r == Ok([]) && inbox == old(inbox)[1..]
                && posts == old(posts) + [Post(Purchases, ListForm(amz.account.accessToken))]
      ensures r.Ok? && proto.listing(old(inbox)[0]).value != [] ==>
                MapResult(proto.listing(old(inbox)[0]).value, IdOf).Ok?
                && |old(inbox)| >= 2 && r == IssuesOf(proto, old(inbox)[1]) && inbox == old(inbox)[2..]
                && posts == old(posts) + [Post(Purchases, ListForm(amz.account.accessToken)),
                                          Post(IssueSummaries, IssueFormOf(amz.account.accessToken,
                                                 MapResult(proto.listing(old(inbox)[0]).value, IdOf).value))]
      ensures r.Err? && r.error == DecodeError ==>
                old(inbox) != []
                && (proto.listing(old(inbox)[0]).None?
                    || (|old(inbox)| >= 2 && proto.issues(old(inbox)[1]).None?))
    {
      var token := amz.Token(env);
      if token.Err? {
        return Err(Auth(token.error));
      }
      var body := Send(Purchases, ListForm(token.value));
      if body.Err? {
        return Err(body.error);
      }
      var listing := proto.listing(body.value);
      if listing.None? {
        return Err(DecodeError);
      }
      if listing.value == [] {
        return Ok([]);
      }
      var ids := ConvertIds(listing.value);
      if ids.Err? {
        return Err(Py(ids.error));
      }
      r := IssueInfo(env, ids.value);
    }

    /** `close`: the session is closed. */
    method Close()
      modifies this
      ensures closed && posts == old(posts) && inbox == old(inbox)
    {
      closed := true;
    }
  }

  /** `CmxClient.__init__`: a client on the Amazon session, which logs in;
      a failed login is raised. */
  method Connect(amz: Amz.AmazonAuth, proto: Protobuf, inbox: seq<seq<byte>>, env: Amz.Env)
    returns (r: Result<CmxClient, ClientError>)
    modifies amz, amz.account
    ensures r.Ok? ==>
              (fresh(r.value) && r.value.amz == amz && r.value.proto == proto
               && r.value.inbox == inbox && r.value.posts == [] && !r.value.closed && amz.account != null)
    ensures r.Err? ==> r.error.Auth?
  {
    var login := amz.Login(env);
    if login.Err? {
      return Err(Auth(login.error));
    }
    var c := new CmxClient(amz, proto, inbox);
    r := Ok(c);
  }
}
