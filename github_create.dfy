/**
  Creating releases and pre-releases (pkg/github/client_create.go).
 */
module GithubCreate {
  import opened Wrappers
  import opened GithubApi
  import opened GithubDelete

  /** The validation error GitHub reports when the tag already has a release. */
  const TagNameAlreadyExists: FieldError := FieldError("tag_name", "already_exists")

  /** Some entry is the error `{tag_name, already_exists}`. */
  predicate TagNameTaken(errors: seq<FieldError>) {
    exists k :: 0 <= k < |errors| && errors[k] == TagNameAlreadyExists
  }

  /** `isTagNameAlreadyExists`. */
  method IsTagNameAlreadyExists(errors: seq<FieldError>) returns (b: bool)
    ensures b <==> exists k :: 0 <= k < |errors| && errors[k].field == "tag_name" && errors[k].code == "already_exists"
  {
    for i := 0 to |errors|
      invariant forall k :: 0 <= k < i ==> !(errors[k].field == "tag_name" && errors[k].code == "already_exists")
    {
      if errors[i].field == "tag_name" && errors[i].code == "already_exists" {
        return true;
      }
    }
    return false;
  }

  /** The request `CreateRelease` sends: the tag on the branch, `prerelease` left unset. */
  function ReleaseOf(branch: string, tag: string): ReleaseRequest {
    ReleaseRequest(tag, branch, None)
  }

  /** The request `CreatePrerelease` sends: the tag on the branch, marked as a pre-release. */
  function PrereleaseOf(branch: string, tag: string): ReleaseRequest {
    ReleaseRequest(tag, branch, Some(true))
  }

  /** `CreateRelease`: a single create call, whose error is returned as it is. */
  function CreateReleaseSpec(o: Oracle, s: Server, branch: string, tag: string): (r: Outcome)
    ensures r.server.calls == s.calls + [ReleaseCreation(ReleaseOf(branch, tag))]
    ensures r.err.None? <==> o.fault(|s.calls|) == None && tag !in s.releases
    ensures r.err.None? ==>
      tag in r.server.releases && !r.server.releases[tag].prerelease && r.server.releases[tag].targetCommitish == branch
    ensures r.err.Some? ==> SameContent(s, r.server)
    ensures o.fault(|s.calls|).Some? ==> r.err == o.fault(|s.calls|)
    ensures o.fault(|s.calls|).None? && tag in s.releases ==> r.err == Some(ErrResp(422, [TagNameAlreadyExists]))
  {
    var created := s.CreateRelease(o, ReleaseOf(branch, tag));
    Outcome(created.server, if created.response.Err? then Some(created.response.error) else None)
  }

  /** `CreatePrerelease`: create the pre-release; when that fails with an `ErrorResponse`, delete
      the existing release and tag first if `force` is set and the tag name is reported taken, and
      then create the pre-release once more. Any other error is returned at once. */
  function CreatePrereleaseSpec(o: Oracle, s: Server, branch: string, tag: string, force: bool): (r: Outcome)
    ensures Extends(s, r.server)
  {
    var request := PrereleaseOf(branch, tag);
    var first := s.CreateRelease(o, request);
    match first.response
    case Ok(_) => Outcome(first.server, None)
    case Err(e) =>
      if !e.ErrResp? then Outcome(first.server, Some(e))
      else
        var cleared := if force && TagNameTaken(e.errors) then DeleteReleaseAndTagSpec(o, first.server, tag, false)
                       else Outcome(first.server, None);
        if cleared.err.Some? then cleared
        else
          var second := cleared.server.CreateRelease(o, request);
          ExtendsTransitive(s, first.server, cleared.server);
          Outcome(second.server, if second.response.Err? then Some(second.response.error) else None)
  }

  /** The calls `CreatePrerelease` makes: it starts with a create call; it creates at most twice
      (first and last call), each time with the pre-release request; an error other than an
      `ErrorResponse`, or success, ends it after one call; without `force` it deletes nothing;
      a failed deletion ends it without a second create call. */
  lemma CreatePrereleaseCalls(o: Oracle, s: Server, branch: string, tag: string, force: bool)
    ensures var request := PrereleaseOf(branch, tag);
      var first := s.CreateRelease(o, request).response;
      var r := CreatePrereleaseSpec(o, s, branch, tag, force);
      var a := Added(s, r.server);
      && |a| >= 1 && a[0] == ReleaseCreation(request)
      && (forall k :: 0 <= k < |a| && a[k].ReleaseCreation? ==> (k == 0 || k == |a| - 1) && a[k].request == request)
      && (first.Ok? || first.error.OtherErr? ==> a == [ReleaseCreation(request)])
      && (!force ==> forall c :: c in a ==> c.ReleaseCreation?)
      && NoTagListing(a)
      && (r.err.Some? && !a[|a| - 1].ReleaseCreation? ==>
            force && first.Err? && first.error.ErrResp? && TagNameTaken(first.error.errors))
  {
    var request := PrereleaseOf(branch, tag);
    var d := CreatePrereleaseShape(o, s, branch, tag, force);
    var a := Added(s, CreatePrereleaseSpec(o, s, branch, tag, force).server);
    var rc := ReleaseCreation(request);
    if a == [rc] + d + [rc] {
      assert forall k :: 1 <= k < |a| - 1 ==> a[k] == d[k - 1];
    } else if a == [rc] + d {
      assert forall k :: 1 <= k < |a| ==> a[k] == d[k - 1];
    }
    assert forall c :: c in a ==> c == rc || c in d;
  }

  /** The calls of `CreatePrerelease`: the first create call, then the calls `d` of the deletion
      (none without `force` or when the tag name is not reported taken), then the second create
      call unless the deletion failed. */
  lemma CreatePrereleaseShape(o: Oracle, s: Server, branch: string, tag: string, force: bool)
    returns (d: seq<Call>)
    ensures var first := s.CreateRelease(o, PrereleaseOf(branch, tag)).response;
      var taken := force && first.Err? && first.error.ErrResp? && TagNameTaken(first.error.errors);
      var rc := ReleaseCreation(PrereleaseOf(branch, tag));
      var a := Added(s, CreatePrereleaseSpec(o, s, branch, tag, force).server);
      && (forall c :: c in d ==> !c.ReleaseCreation? && !c.TagList?)
      && (!taken ==> d == [])
      && (first.Ok? || first.error.OtherErr? ==> a == [rc])
      && (a == [rc] || a == [rc] + d + [rc] || (a == [rc] + d && taken))
  {
    var request := PrereleaseOf(branch, tag);
    var first := s.CreateRelease(o, request);
    var r := CreatePrereleaseSpec(o, s, branch, tag, force);
    var a := Added(s, r.server);
    d := [];
    if first.response.Err? && first.response.error.ErrResp? {
      var e := first.response.error;
      var taken := force && TagNameTaken(e.errors);
      var cleared := if taken then DeleteReleaseAndTagSpec(o, first.server, tag, false)
                     else Outcome(first.server, None);
      d := Added(first.server, cleared.server);
      if taken {
        DeleteReleaseAndTagOrder(o, first.server, tag, false);
        assert NoTagListing(d);
      }
      assert forall c :: c in d ==> !c.ReleaseCreation?;
      assert Added(s, first.server) == [ReleaseCreation(request)];
      ExtendsTransitive(s, first.server, cleared.server);
      if cleared.err.None? {
        var second := cleared.server.CreateRelease(o, request);
        assert r.server == second.server;
        assert Added(cleared.server, second.server) == [ReleaseCreation(request)];
        ExtendsTransitive(s, cleared.server, second.server);
      }
    }
  }

  /** After any `ErrorResponse` from the first create call, whatever its status and whether or
      not `force` is set, the pre-release is created once more, unless a forced deletion ran and
      failed. When no deletion runs (no `force`, or the tag name is not reported taken), the calls
      are exactly the two creates, and the error is the second create's. */
  lemma CreatePrereleaseRetries(o: Oracle, s: Server, branch: string, tag: string, force: bool)
    ensures var rc := ReleaseCreation(PrereleaseOf(branch, tag));
      var first := s.CreateRelease(o, PrereleaseOf(branch, tag));
      var r := CreatePrereleaseSpec(o, s, branch, tag, force);
      var a := Added(s, r.server);
      var taken := first.response.Err? && first.response.error.ErrResp? && force
                   && TagNameTaken(first.response.error.errors);
      first.response.Err? && first.response.error.ErrResp? ==>
        && (!(taken && DeleteReleaseAndTagSpec(o, first.server, tag, false).err.Some?) ==>
              |a| >= 2 && a[|a| - 1] == rc)
        && (!taken ==>
              && a == [rc, rc]
              && var second := first.server.CreateRelease(o, PrereleaseOf(branch, tag)).response;
                 r.err == (if second.Err? then Some(second.error) else None))
  {
    var request := PrereleaseOf(branch, tag);
    var rc := ReleaseCreation(request);
    var first := s.CreateRelease(o, request);
    var r := CreatePrereleaseSpec(o, s, branch, tag, force);
    if first.response.Err? && first.response.error.ErrResp? {
      var d := CreatePrereleaseShape(o, s, branch, tag, force);
      assert Added(s, first.server) == [rc];
      if !(force && TagNameTaken(first.response.error.errors)) {
        var second := first.server.CreateRelease(o, request);
        assert r.server == second.server;
        assert Added(first.server, second.server) == [rc];
        ExtendsTransitive(s, first.server, second.server);
        assert Added(s, second.server) == [rc] + [rc];
      } else {
        var cleared := DeleteReleaseAndTagSpec(o, first.server, tag, false);
        if cleared.err.None? {
          var second := cleared.server.CreateRelease(o, request);
          assert r.server == second.server;
          assert Added(cleared.server, second.server) == [rc];
          ExtendsTransitive(s, first.server, cleared.server);
          ExtendsTransitive(s, cleared.server, second.server);
          var a := Added(s, r.server);
          assert a == Added(s, cleared.server) + [rc];
        }
      }
    }
  }

  /** The error `CreatePrerelease` returns: none after a first create that succeeds; the first
      error as it is when it is not an `ErrorResponse`; the deletion's error when a forced deletion
      fails; otherwise the second create's error. */
  lemma CreatePrereleaseError(o: Oracle, s: Server, branch: string, tag: string, force: bool)
    ensures var first := s.CreateRelease(o, PrereleaseOf(branch, tag));
      var r := CreatePrereleaseSpec(o, s, branch, tag, force);
      && (first.response.Ok? ==> r.err == None)
      && (first.response.Err? && !first.response.error.ErrResp? ==> r.err == Some(first.response.error))
      && (first.response.Err? && first.response.error.ErrResp? && force && TagNameTaken(first.response.error.errors) ==>
            var cleared := DeleteReleaseAndTagSpec(o, first.server, tag, false);
            && (cleared.err.Some? ==> r.err == cleared.err)
            && (cleared.err.None? ==>
                  var second := cleared.server.CreateRelease(o, PrereleaseOf(branch, tag)).response;
                  r.err == (if second.Err? then Some(second.error) else None)))
  {
  }

  /** Without `force`, an existing release is never replaced: with no injected failure both
      create calls fail with `{tag_name, already_exists}`, that error is returned, and nothing
      changes. */
  lemma UnforcedConflictFails(o: Oracle, s: Server, branch: string, tag: string)
    requires NoFaults(o) && tag in s.releases
    ensures var r := CreatePrereleaseSpec(o, s, branch, tag, false);
      && r.err == Some(ErrResp(422, [TagNameAlreadyExists]))
      && SameContent(s, r.server)
      && Added(s, r.server) == [ReleaseCreation(PrereleaseOf(branch, tag)), ReleaseCreation(PrereleaseOf(branch, tag))]
  {
    assert o.fault(|s.calls|) == None;
    assert o.fault(|s.calls| + 1) == None;
  }

  /** With `force` and an existing release, and no injected failure, the old release and its tag
      are deleted and a new pre-release of the tag on the branch is created, with an id not in use
      before; no other tag changes. */
  lemma ForcedCreateReplacesRelease(o: Oracle, s: Server, branch: string, tag: string)
    requires s.Valid() && NoFaults(o) && tag in s.releases
    ensures var r := CreatePrereleaseSpec(o, s, branch, tag, true);
      && r.err == None && r.server.Valid()
      && tag in r.server.releases
      && r.server.releases[tag].prerelease && r.server.releases[tag].targetCommitish == branch
      && (forall u :: u in s.releases ==> s.releases[u].id != r.server.releases[tag].id)
      && TagRef(tag) in r.server.refs
      && forall u :: u != tag ==> Untouched(s, r.server, u)
  {
    var request := PrereleaseOf(branch, tag);
    var first := s.CreateRelease(o, request);
    assert o.fault(|s.calls|) == None;
    assert first.response == Err(ErrResp(422, [TagNameAlreadyExists]));
    assert [TagNameAlreadyExists][0] == TagNameAlreadyExists;
    var cleared := DeleteReleaseAndTagSpec(o, first.server, tag, false);
    DeleteReleaseAndTagNoFaults(o, first.server, tag);
    DeleteReleaseAndTagFrame(o, first.server, tag, false);
    var second := cleared.server.CreateRelease(o, request);
    assert o.fault(|cleared.server.calls|) == None;
    CallsPreserveValid(o, cleared.server, "", 0, "", request);
    CreatedReleaseIsFresh(o, cleared.server, request);
    var r := CreatePrereleaseSpec(o, s, branch, tag, true);
    assert r.server == second.server;
    forall u | u != tag
      ensures Untouched(s, r.server, u)
    {
      TagRefInjective(u, tag);
      assert Untouched(first.server, cleared.server, u);
    }
  }

  /** `CreateRelease`. */
  method CreateRelease(repo: Repository, branch: string, tag: string) returns (err: Option<ApiError>)
    requires repo.Valid()
    modifies repo
    ensures repo.Valid()
    ensures Outcome(repo.State(), err) == CreateReleaseSpec(repo.oracle, old(repo.State()), branch, tag)
  {
    var release := repo.CreateRelease(ReleaseOf(branch, tag));
    if release.Err? {
      return Some(release.error);
    }
    return None;
  }

  /** `CreatePrerelease`. */
  method CreatePrerelease(repo: Repository, branch: string, tag: string, force: bool) returns (err: Option<ApiError>)
    requires repo.Valid()
    modifies repo
    ensures repo.Valid()
    ensures Outcome(repo.State(), err) == CreatePrereleaseSpec(repo.oracle, old(repo.State()), branch, tag, force)
  {
    var request := PrereleaseOf(branch, tag);
    var release := repo.CreateRelease(request);
    if release.Err? {
      var e := release.error;
      if !e.ErrResp? {
        return Some(e);
      }
      var taken := IsTagNameAlreadyExists(e.errors);
      if force && taken {
        err := DeleteReleaseAndTag(repo, tag, false);
        if err.Some? {
          return err;
        }
      }
      release := repo.CreateRelease(request);
      if release.Err? {
        return Some(release.error);
      }
    }
    return None;
  }
}
