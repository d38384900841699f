/**
  The part of the GitHub REST API (through go-github) that the release commands use, as an
  abstract remote repository.

  The remote holds a set of git refs (`tags/<name>`) and a map from tag name to release. Every
  call is recorded in `calls`, in order. What a call returns is decided as follows: an `Oracle`
  may inject a failure for the n-th call (any `ErrorResponse` or any other error); otherwise the
  server answers from its state:
  - GET release by tag: the release, or status 404 (section 15.5.5 of RFC 9110) when there is none;
  - DELETE release: removes the release with that id, or 404;
  - DELETE ref: removes the ref, or status 422 (section 15.5.21 of RFC 9110) when it does not exist;
  - POST release: creates the release (and its tag ref) with a fresh id, or 422 with the
    validation error `{tag_name, already_exists}` when the tag already has a release;
  - list tags / list releases: the page the oracle supplies for that call.
 */
module GithubApi {
  import opened Wrappers

  /** One entry of an `ErrorResponse`'s `Errors`. */
  datatype FieldError = FieldError(field: string, code: string)

  /** The error of a go-github call: an `*github.ErrorResponse` or any other error. */
  datatype ApiError = ErrResp(status: int, errors: seq<FieldError>) | OtherErr(message: string)

  /** A repository release (the fields of pkg/github/release.go, plus the service-assigned id). */
  datatype Release = Release(
    id: int, tagName: string, targetCommitish: string, name: string, draft: bool,
    prerelease: bool, publishedAt: string, htmlUrl: string, authorLogin: string)

  /** The body of a create-release request; `prerelease` is None when the field is left nil. */
  datatype ReleaseRequest = ReleaseRequest(tagName: string, targetCommitish: string, prerelease: Option<bool>)

  datatype ListOptions = ListOptions(page: nat)

  /** One page of a listing; `nextPage == 0` means there is no further page. */
  datatype Page<T> = Page(items: seq<T>, nextPage: nat)

  /** A request sent to the service. */
  datatype Call =
    | ReleaseByTag(tag: string)
    | ReleaseDeletion(id: int)
    | RefDeletion(ref: string)
    | ReleaseCreation(request: ReleaseRequest)
    | TagList(opt: Option<ListOptions>)
    | ReleaseList(opt: Option<ListOptions>)

  /** Failures injected per call index, and the listing pages served per call index and list
      options sent. */
  datatype Oracle = Oracle(
    fault: nat -> Option<ApiError>,
    tagPages: (nat, Option<ListOptions>) -> Page<string>,
    releasePages: (nat, Option<ListOptions>) -> Page<Release>)

  /** The oracle never injects a failure. */
  ghost predicate NoFaults(o: Oracle) {
    forall k: nat :: o.fault(k) == None
  }

  /** The tag listing does not change over time: the page served depends on the options only. */
  ghost predicate StationaryTags(o: Oracle) {
    forall k: nat, opt: Option<ListOptions> :: o.tagPages(k, opt) == o.tagPages(0, opt)
  }

  /** The release listing does not change over time. */
  ghost predicate StationaryReleases(o: Oracle) {
    forall k: nat, opt: Option<ListOptions> :: o.releasePages(k, opt) == o.releasePages(0, opt)
  }

  /** The page number a listing asks for; 0 stands for the default, the first page. */
  function PageNumber(opt: Option<ListOptions>): nat {
    if opt.None? then 0 else opt.value.page
  }

  /** Status 404 of an `ErrorResponse`. */
  predicate IsNotFound(e: ApiError) {
    e.ErrResp? && e.status == 404
  }

  /** Status 422 of an `ErrorResponse`. */
  predicate IsUnprocessable(e: ApiError) {
    e.ErrResp? && e.status == 422
  }

  /** The ref name under which a tag is deleted. */
  function TagRef(tag: string): string {
    "tags/" + tag
  }

  lemma TagRefInjective(t: string, u: string)
    ensures TagRef(t) == TagRef(u) <==> t == u
  {
    if TagRef(t) == TagRef(u) {
      assert t == TagRef(t)[5..];
    }
  }

  datatype Answer<T> = Answer(server: Server, response: Result<T, ApiError>)

  /** The state of the remote repository, and the calls made to it so far. */
  datatype Server = Server(refs: set<string>, releases: map<string, Release>, nextId: int, calls: seq<Call>) {

    /** Releases are keyed by their tag name and carry distinct ids below `nextId`. */
    ghost predicate Valid() {
      && (forall t :: t in releases ==> releases[t].tagName == t && releases[t].id < nextId)
      && (forall t, u :: t in releases && u in releases && releases[t].id == releases[u].id ==> t == u)
    }

    function Record(c: Call): (s: Server)
      ensures s.calls == calls + [c]
    {
      this.(calls := calls + [c])
    }

    /** `Repositories.GetReleaseByTag`. */
    function GetReleaseByTag(o: Oracle, tag: string): (a: Answer<Release>)
      ensures a.server == Record(ReleaseByTag(tag))
      ensures a.response.Ok? ==> tag in releases && a.response.value == releases[tag]
    {
      var s := Record(ReleaseByTag(tag));
      match o.fault(|calls|)
      case Some(e) => Answer(s, Err(e))
      case None =>
        if tag in releases then Answer(s, Ok(releases[tag])) else Answer(s, Err(ErrResp(404, [])))
    }

    /** `Repositories.DeleteRelease`. */
    function DeleteRelease(o: Oracle, id: int): (a: Answer<()>)
      ensures a.server.calls == calls + [ReleaseDeletion(id)]
      ensures a.server.refs == refs && a.server.nextId == nextId
      ensures a.server.releases.Keys <= releases.Keys
      ensures forall t :: t in a.server.releases ==> a.server.releases[t] == releases[t]
      ensures forall t :: t in releases && releases[t].id != id ==> t in a.server.releases
      ensures a.response.Err? ==> a.server.releases == releases
    {
      var s := Record(ReleaseDeletion(id));
      match o.fault(|calls|)
      case Some(e) => Answer(s, Err(e))
      case None =>
        if exists t :: t in releases && releases[t].id == id then
          Answer(s.(releases := map t | t in releases && releases[t].id != id :: releases[t]), Ok(()))
        else
          Answer(s, Err(ErrResp(404, [])))
    }

    /** `Git.DeleteRef`. */
    function DeleteRef(o: Oracle, ref: string): (a: Answer<()>)
      ensures a.server.calls == calls + [RefDeletion(ref)]
      ensures a.server.releases == releases && a.server.nextId == nextId
      ensures a.server.refs == refs || a.server.refs == refs - {ref}
      ensures a.response.Ok? <==> o.fault(|calls|) == None && ref in refs
    {
      var s := Record(RefDeletion(ref));
      match o.fault(|calls|)
      case Some(e) => Answer(s, Err(e))
      case None =>
        if ref in refs then Answer(s.(refs := refs - {ref}), Ok(())) else Answer(s, Err(ErrResp(422, [])))
    }

    /** `Repositories.CreateRelease`. */
    function CreateRelease(o: Oracle, request: ReleaseRequest): (a: Answer<Release>)
      ensures a.server.calls == calls + [ReleaseCreation(request)]
      ensures a.response.Ok? <==> o.fault(|calls|) == None && request.tagName !in releases
    {
      var s := Record(ReleaseCreation(request));
      match o.fault(|calls|)
      case Some(e) => Answer(s, Err(e))
      case None =>
        if request.tagName in releases then
          Answer(s, Err(ErrResp(422, [FieldError("tag_name", "already_exists")])))
        else
          var r := Release(nextId, request.tagName, request.targetCommitish, "", false,
                           request.prerelease == Some(true), "", "", "");
          Answer(s.(releases := releases[request.tagName := r], refs := refs + {TagRef(request.tagName)},
                    nextId := nextId + 1), Ok(r))
    }

    /** `Repositories.ListTags`: the page the oracle serves for this call. */
    function ListTags(o: Oracle, opt: Option<ListOptions>): (a: Answer<Page<string>>)
      ensures a.server == Record(TagList(opt))
    {
      var s := Record(TagList(opt));
      match o.fault(|calls|)
      case Some(e) => Answer(s, Err(e))
      case None => Answer(s, Ok(o.tagPages(|calls|, opt)))
    }

    /** `Repositories.ListReleases`: the page the oracle serves for this call. */
    function ListReleases(o: Oracle, opt: Option<ListOptions>): (a: Answer<Page<Release>>)
      ensures a.server == Record(ReleaseList(opt))
    {
      var s := Record(ReleaseList(opt));
      match o.fault(|calls|)
      case Some(e) => Answer(s, Err(e))
      case None => Answer(s, Ok(o.releasePages(|calls|, opt)))
    }
  }

  /** `t` is `s` after some more calls: the record of calls only grows. */
  predicate Extends(s: Server, t: Server) {
    |s.calls| <= |t.calls| && t.calls[..|s.calls|] == s.calls
  }

  /** The calls made between `s` and `t`. */
  function Added(s: Server, t: Server): seq<Call>
    requires Extends(s, t)
  {
    t.calls[|s.calls|..]
  }

  lemma ExtendsTransitive(s: Server, t: Server, u: Server)
    requires Extends(s, t) && Extends(t, u)
    ensures Extends(s, u) && Added(s, u) == Added(s, t) + Added(t, u)
  {
    assert u.calls[..|s.calls|] == u.calls[..|t.calls|][..|s.calls|];
    assert u.calls[|s.calls|..] == u.calls[|s.calls|..|t.calls|] + u.calls[|t.calls|..];
    assert u.calls[|s.calls|..|t.calls|] == u.calls[..|t.calls|][|s.calls|..];
  }

  /** `s` and `t` hold the same refs and releases. */
  predicate SameContent(s: Server, t: Server) {
    s.refs == t.refs && s.releases == t.releases && s.nextId == t.nextId
  }

  /** Neither the release of `tag` nor its ref differ between `s` and `t`. */
  predicate Untouched(s: Server, t: Server, tag: string) {
    && (tag in s.releases <==> tag in t.releases)
    && (tag in s.releases ==> s.releases[tag] == t.releases[tag])
    && (TagRef(tag) in s.refs <==> TagRef(tag) in t.refs)
  }

  /** The tags looked up by the calls, in order. */
  function Lookups(calls: seq<Call>): (tags: seq<string>)
    ensures |tags| <= |calls|
  {
    if calls == [] then []
    else (if calls[0].ReleaseByTag? then [calls[0].tag] else []) + Lookups(calls[1..])
  }

  lemma {:induction false} LookupsAppend(a: seq<Call>, b: seq<Call>)
    ensures Lookups(a + b) == Lookups(a) + Lookups(b)
  {
    if a == [] {
      assert a + b == b;
    } else {
      assert (a + b)[0] == a[0];
      assert (a + b)[1..] == a[1..] + b;
      LookupsAppend(a[1..], b);
    }
  }

  /** None of the calls is a tag listing. */
  predicate NoTagListing(calls: seq<Call>) {
    forall c :: c in calls ==> !c.TagList?
  }

  /** Removing releases and refs keeps a repository valid. */
  lemma SubRepositoryValid(s: Server, t: Server)
    requires s.Valid()
    requires t.releases.Keys <= s.releases.Keys && t.nextId == s.nextId
    requires forall u :: u in t.releases ==> t.releases[u] == s.releases[u]
    ensures t.Valid()
  {
  }

  /** Every call keeps the repository valid. */
  lemma CallsPreserveValid(o: Oracle, s: Server, tag: string, id: int, ref: string, request: ReleaseRequest)
    requires s.Valid()
    ensures s.GetReleaseByTag(o, tag).server.Valid()
    ensures s.DeleteRelease(o, id).server.Valid()
    ensures s.DeleteRef(o, ref).server.Valid()
    ensures s.CreateRelease(o, request).server.Valid()
  {
    DeletePreservesValid(o, s, id);
    CreatePreservesValid(o, s, request);
  }

  lemma DeletePreservesValid(o: Oracle, s: Server, id: int)
    requires s.Valid()
    ensures s.DeleteRelease(o, id).server.Valid()
  {
    var d := s.DeleteRelease(o, id).server;
    assert forall t :: t in d.releases ==> t in s.releases && d.releases[t] == s.releases[t];
  }

  lemma CreatePreservesValid(o: Oracle, s: Server, request: ReleaseRequest)
    requires s.Valid()
    ensures s.CreateRelease(o, request).server.Valid()
  {
    if o.fault(|s.calls|) == None && request.tagName !in s.releases {
      var c := s.CreateRelease(o, request).server;
      var r := c.releases[request.tagName];
      assert c.releases == s.releases[request.tagName := r];
      assert r.id == s.nextId && r.tagName == request.tagName && c.nextId == s.nextId + 1;
      assert forall t :: t in c.releases && t != request.tagName ==> t in s.releases && c.releases[t] == s.releases[t];
    }
  }

  /** A created release is a new one: its id differs from every id in use before. */
  lemma CreatedReleaseIsFresh(o: Oracle, s: Server, request: ReleaseRequest)
    requires s.Valid()
    requires s.CreateRelease(o, request).response.Ok?
    ensures var a := s.CreateRelease(o, request);
      && request.tagName in a.server.releases
      && a.server.releases[request.tagName] == a.response.value
      && a.response.value.prerelease == (request.prerelease == Some(true))
      && a.response.value.targetCommitish == request.targetCommitish
      && TagRef(request.tagName) in a.server.refs
      && forall t :: t in s.releases ==> s.releases[t].id != a.response.value.id
  {
  }

  /** Deleting the release found for `tag` removes exactly that release. */
  lemma DeleteFoundRelease(o: Oracle, s: Server, tag: string)
    requires s.Valid() && tag in s.releases
    requires o.fault(|s.calls|) == None
    ensures s.DeleteRelease(o, s.releases[tag].id).response.Ok?
    ensures s.DeleteRelease(o, s.releases[tag].id).server.releases == s.releases - {tag}
  {
  }

  /** The remote repository, updated in place by every call. */
  class Repository {
    var refs: set<string>
    var releases: map<string, Release>
    var nextId: int
    var calls: seq<Call>
    const oracle: Oracle

    function State(): Server
      reads this
    {
      Server(refs, releases, nextId, calls)
    }

    ghost predicate Valid()
      reads this
    {
      State().Valid()
    }

    constructor (initial: Server, o: Oracle)
      requires initial.Valid()
      ensures State() == initial && oracle == o && Valid()
    {
      refs, releases, nextId, calls := initial.refs, initial.releases, initial.nextId, initial.calls;
      oracle := o;
    }

    method Become(s: Server)
      modifies this
      ensures State() == s
    {
      refs, releases, nextId, calls := s.refs, s.releases, s.nextId, s.calls;
    }

    method GetReleaseByTag(tag: string) returns (r: Result<Release, ApiError>)
      requires Valid()
      modifies this
      ensures Valid()
      ensures State() == old(State()).GetReleaseByTag(oracle, tag).server
      ensures r == old(State()).GetReleaseByTag(oracle, tag).response
    {
      CallsPreserveValid(oracle, State(), tag, 0, "", ReleaseRequest("", "", None));
      var a := State().GetReleaseByTag(oracle, tag);
      Become(a.server);
      r := a.response;
    }

    method DeleteRelease(id: int) returns (r: Result<(), ApiError>)
      requires Valid()
      modifies this
      ensures Valid()
      ensures State() == old(State()).DeleteRelease(oracle, id).server
      ensures r == old(State()).DeleteRelease(oracle, id).response
    {
      CallsPreserveValid(oracle, State(), "", id, "", ReleaseRequest("", "", None));
      var a := State().DeleteRelease(oracle, id);
      Become(a.server);
      r := a.response;
    }

    method DeleteRef(ref: string) returns (r: Result<(), ApiError>)
      requires Valid()
      modifies this
      ensures Valid()
      ensures State() == old(State()).DeleteRef(oracle, ref).server
      ensures r == old(State()).DeleteRef(oracle, ref).response
    {
      CallsPreserveValid(oracle, State(), "", 0, ref, ReleaseRequest("", "", None));
      var a := State().DeleteRef(oracle, ref);
      Become(a.server);
      r := a.response;
    }

    method CreateRelease(request: ReleaseRequest) returns (r: Result<Release, ApiError>)
      requires Valid()
      modifies this
      ensures Valid()
      ensures State() == old(State()).CreateRelease(oracle, request).server
      ensures r == old(State()).CreateRelease(oracle, request).response
    {
      CallsPreserveValid(oracle, State(), "", 0, "", request);
      var a := State().CreateRelease(oracle, request);
      Become(a.server);
      r := a.response;
    }

    method ListTags(opt: Option<ListOptions>) returns (r: Result<Page<string>, ApiError>)
      requires Valid()
      modifies this
      ensures Valid()
      ensures State() == old(State()).ListTags(oracle, opt).server
      ensures r == old(State()).ListTags(oracle, opt).response
    {
      var a := State().ListTags(oracle, opt);
      Become(a.server);
      r := a.response;
    }

    method ListReleases(opt: Option<ListOptions>) returns (r: Result<Page<Release>, ApiError>)
      requires Valid()
      modifies this
      ensures Valid()
      ensures State() == old(State()).ListReleases(oracle, opt).server
      ensures r == old(State()).ListReleases(oracle, opt).response
    {
      var a := State().ListReleases(oracle, opt);
      Become(a.server);
      r := a.response;
    }
  }
}
