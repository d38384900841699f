/**
  Deleting releases and their tags (pkg/github/client_delete.go).

  Each operation is a pure function of the remote's state (`...Spec`), and a method that performs
  the same calls one by one on a `Repository` and is proved to end in exactly the state and error
  that function gives. The properties are proved about the functions.
 */
module GithubDelete {
  import opened Wrappers
  import opened Regex
  import opened GithubApi

  /** The tags of `tags` that some expression matches, in their order. */
  function Matching(e: Engine, regex: seq<Regexp>, tags: seq<string>): (r: seq<string>)
    ensures forall t :: t in r <==> t in tags && SomeMatch(e, regex, t)
  {
    if tags == [] then []
    else (if SomeMatch(e, regex, tags[0]) then [tags[0]] else []) + Matching(e, regex, tags[1..])
  }

  /** The state after an operation, and the error it returns (None for nil). */
  datatype Outcome = Outcome(server: Server, err: Option<ApiError>)

  /** `deleteRelease`: look up the release of `tag`; a 404 means there is nothing to delete and is
      no error; otherwise delete the release by its id, unless this is a dry run. */
  function DeleteReleaseSpec(o: Oracle, s: Server, tag: string, dryRun: bool): (r: Outcome)
    ensures || r.server.calls == s.calls + [ReleaseByTag(tag)]
            || (!dryRun && tag in s.releases
                && r.server.calls == s.calls + [ReleaseByTag(tag), ReleaseDeletion(s.releases[tag].id)])
    ensures r.server.refs == s.refs && r.server.nextId == s.nextId
    ensures r.server.releases.Keys <= s.releases.Keys
    ensures forall t :: t in r.server.releases ==> r.server.releases[t] == s.releases[t]
    ensures dryRun || r.err.Some? ==> r.server.releases == s.releases
    ensures o.fault(|s.calls|).Some? ==>
      r.err == (if IsNotFound(o.fault(|s.calls|).value) then None else o.fault(|s.calls|))
    ensures o.fault(|s.calls|).None? && tag !in s.releases ==> r.err.None?
  {
    var look := s.GetReleaseByTag(o, tag);
    match look.response
    case Err(e) => Outcome(look.server, if IsNotFound(e) then None else Some(e))
    case Ok(release) =>
      if dryRun then Outcome(look.server, None)
      else
        var del := look.server.DeleteRelease(o, release.id);
        Outcome(del.server, if del.response.Err? then Some(del.response.error) else None)
  }

  /** `deleteTag`: delete the ref `tags/<tag>` unless this is a dry run; a 422 (the ref does not
      exist) is no error, any other failure is. */
  function DeleteTagSpec(o: Oracle, s: Server, tag: string, dryRun: bool): (r: Outcome)
    ensures dryRun ==> r == Outcome(s, None)
    ensures !dryRun ==> r.server.calls == s.calls + [RefDeletion(TagRef(tag))]
    ensures r.server.releases == s.releases && r.server.nextId == s.nextId
    ensures r.server.refs == s.refs || r.server.refs == s.refs - {TagRef(tag)}
    ensures r.err.Some? <==> !dryRun && o.fault(|s.calls|).Some? && !IsUnprocessable(o.fault(|s.calls|).value)
    ensures r.err.Some? ==> r.err == o.fault(|s.calls|)
  {
    if dryRun then Outcome(s, None)
    else
      var del := s.DeleteRef(o, TagRef(tag));
      match del.response
      case Ok(_) => Outcome(del.server, None)
      case Err(e) => Outcome(del.server, if IsUnprocessable(e) then None else Some(e))
  }

  /** `deleteReleaseAndTag`: the release, then the tag. */
  function DeleteReleaseAndTagSpec(o: Oracle, s: Server, tag: string, dryRun: bool): (r: Outcome)
    ensures Extends(s, r.server) && NoTagListing(Added(s, r.server))
    ensures r.server.refs <= s.refs && r.server.releases.Keys <= s.releases.Keys && r.server.nextId == s.nextId
    ensures forall t :: t in r.server.releases ==> r.server.releases[t] == s.releases[t]
  {
    var rel := DeleteReleaseSpec(o, s, tag, dryRun);
    if rel.err.Some? then rel else DeleteTagSpec(o, rel.server, tag, dryRun)
  }

  /** `DeleteReleasesAndTags`: every tag in turn, stopping at the first error. */
  function DeleteAllSpec(o: Oracle, s: Server, tags: seq<string>, dryRun: bool): (r: Outcome)
    ensures Extends(s, r.server) && NoTagListing(Added(s, r.server))
    ensures r.server.refs <= s.refs && r.server.releases.Keys <= s.releases.Keys && r.server.nextId == s.nextId
    ensures forall t :: t in r.server.releases ==> r.server.releases[t] == s.releases[t]
    decreases |tags|
  {
    if tags == [] then Outcome(s, None)
    else
      var one := DeleteReleaseAndTagSpec(o, s, tags[0], dryRun);
      if one.err.Some? then one
      else
        var rest := DeleteAllSpec(o, one.server, tags[1..], dryRun);
        ExtendsTransitive(s, one.server, rest.server);
        rest
  }

  /** `deleteReleasesAndTagsByRegex`: the tags of one page that some expression matches, in turn,
      stopping at the first error. */
  function DeletePageSpec(o: Oracle, s: Server, e: Engine, regex: seq<Regexp>, tags: seq<string>, dryRun: bool): (r: Outcome)
    ensures Extends(s, r.server) && NoTagListing(Added(s, r.server))
    decreases |tags|
  {
    if tags == [] then Outcome(s, None)
    else if !SomeMatch(e, regex, tags[0]) then DeletePageSpec(o, s, e, regex, tags[1..], dryRun)
    else
      var one := DeleteReleaseAndTagSpec(o, s, tags[0], dryRun);
      if one.err.Some? then one
      else
        var rest := DeletePageSpec(o, one.server, e, regex, tags[1..], dryRun);
        ExtendsTransitive(s, one.server, rest.server);
        rest
  }

  /** How a paginated operation ended. `Exhausted` means that the model's bound on the number of
      pages ran out before the service reported the last page. */
  datatype Status = Finished | Failed(error: ApiError) | Exhausted

  datatype Paged = Paged(server: Server, status: Status)

  /** The options a listing call sends. As written, the loop never passes its options (`nil`);
      with `forward` it passes them, as the loop evidently intends. */
  function SentOptions(forward: bool, opt: ListOptions): Option<ListOptions> {
    if forward then Some(opt) else None
  }

  /** `DeleteReleasesAndTagsByRegex`: list a page of tags, delete the matching ones, and go on
      while the service reports a next page; at most `fuel` pages. */
  function ByRegexSpec(o: Oracle, s: Server, e: Engine, regex: seq<Regexp>, dryRun: bool, forward: bool,
                       opt: ListOptions, fuel: nat): (r: Paged)
    ensures Extends(s, r.server)
    decreases fuel
  {
    if fuel == 0 then Paged(s, Exhausted)
    else
      var list := s.ListTags(o, SentOptions(forward, opt));
      match list.response
      case Err(err) => Paged(list.server, Failed(err))
      case Ok(page) =>
        var d := DeletePageSpec(o, list.server, e, regex, page.items, dryRun);
        if d.err.Some? then Paged(d.server, Failed(d.err.value))
        else if page.nextPage == 0 then Paged(d.server, Finished)
        else
          var rest := ByRegexSpec(o, d.server, e, regex, dryRun, forward, ListOptions(page.nextPage), fuel - 1);
          ExtendsTransitive(s, list.server, d.server);
          ExtendsTransitive(s, d.server, rest.server);
          rest
  }

  // ---------------------------------------------------------------------------------------------
  // Properties

  /** The release is looked up first. A dry run makes no other call. The ref deletion, if any, is
      the last call and names `tags/<tag>`, and there is none when the release part failed. */
  lemma DeleteReleaseAndTagOrder(o: Oracle, s: Server, tag: string, dryRun: bool)
    ensures var a := Added(s, DeleteReleaseAndTagSpec(o, s, tag, dryRun).server);
      && |a| >= 1 && a[0] == ReleaseByTag(tag)
      && (dryRun ==> a == [ReleaseByTag(tag)])
      && (forall k :: 0 <= k < |a| && a[k].RefDeletion? ==> k == |a| - 1 && a[k].ref == TagRef(tag))
      && (DeleteReleaseSpec(o, s, tag, dryRun).err.Some? ==> forall k :: 0 <= k < |a| ==> !a[k].RefDeletion?)
  {
    var rel := DeleteReleaseSpec(o, s, tag, dryRun);
    var r := DeleteReleaseAndTagSpec(o, s, tag, dryRun);
    if rel.err.None? && !dryRun {
      assert r.server.calls == rel.server.calls + [RefDeletion(TagRef(tag))];
      assert Added(s, r.server) == Added(s, rel.server) + [RefDeletion(TagRef(tag))];
    }
  }

  /** Deleting one tag looks that tag up once and no other. */
  lemma DeleteReleaseAndTagLookups(o: Oracle, s: Server, tag: string, dryRun: bool)
    ensures Lookups(Added(s, DeleteReleaseAndTagSpec(o, s, tag, dryRun).server)) == [tag]
  {
    var rel := DeleteReleaseSpec(o, s, tag, dryRun);
    var r := DeleteReleaseAndTagSpec(o, s, tag, dryRun).server;
    var a := Added(s, r);
    var b := rel.server.calls[|s.calls|..];
    if rel.err.Some? || dryRun {
      assert a == b;
    } else {
      assert a == b + [RefDeletion(TagRef(tag))];
      LookupsAppend(b, [RefDeletion(TagRef(tag))]);
    }
    if |b| == 2 {
      assert b == [ReleaseByTag(tag)] + [b[1]];
      LookupsAppend([ReleaseByTag(tag)], [b[1]]);
    }
  }

  /** Deleting one tag touches no other tag and keeps the repository valid. */
  lemma DeleteReleaseAndTagFrame(o: Oracle, s: Server, tag: string, dryRun: bool)
    requires s.Valid()
    ensures var r := DeleteReleaseAndTagSpec(o, s, tag, dryRun).server;
      r.Valid() && forall u :: u != tag ==> Untouched(s, r, u)
  {
    var r := DeleteReleaseAndTagSpec(o, s, tag, dryRun).server;
    SubRepositoryValid(s, r);
    forall u | u != tag
      ensures Untouched(s, r, u)
    {
      TagRefInjective(u, tag);
      if u in s.releases && tag in s.releases {
        assert s.releases[u].id != s.releases[tag].id;
      }
    }
  }

  /** `DeleteReleasesAndTags` looks the tags up in their order: all of them when it succeeds,
      and up to the failing one when it fails. */
  lemma {:induction false} DeleteAllLookups(o: Oracle, s: Server, tags: seq<string>, dryRun: bool)
    ensures var r := DeleteAllSpec(o, s, tags, dryRun);
      && (r.err.None? ==> Lookups(Added(s, r.server)) == tags)
      && (r.err.Some? ==> |Lookups(Added(s, r.server))| >= 1 && Lookups(Added(s, r.server)) <= tags)
    decreases |tags|
  {
    if tags != [] {
      var r := DeleteAllSpec(o, s, tags, dryRun);
      var one := DeleteReleaseAndTagSpec(o, s, tags[0], dryRun);
      if one.err.None? {
        var rest := DeleteAllSpec(o, one.server, tags[1..], dryRun);
        DeleteAllLookups(o, one.server, tags[1..], dryRun);
        DeleteAllLookupsStep(o, s, tags, dryRun);
        LookupsCons(tags, Lookups(Added(one.server, rest.server)), Lookups(Added(s, r.server)), rest.err.Some?);
      } else {
        DeleteAllStopsAtError(o, s, tags, dryRun);
      }
    }
  }

  /** When deleting the first tag fails, nothing else is done, and that tag was looked up. */
  lemma DeleteAllStopsAtError(o: Oracle, s: Server, tags: seq<string>, dryRun: bool)
    requires tags != [] && DeleteReleaseAndTagSpec(o, s, tags[0], dryRun).err.Some?
    ensures var r := DeleteAllSpec(o, s, tags, dryRun);
      && r == DeleteReleaseAndTagSpec(o, s, tags[0], dryRun)
      && Lookups(Added(s, r.server)) == tags[..1]
  {
    DeleteReleaseAndTagLookups(o, s, tags[0], dryRun);
    assert [tags[0]] == tags[..1];
  }

  lemma SliceCons<T>(a: seq<T>, n: nat, b: seq<T>)
    requires n < |a|
    ensures a[..n + 1] + b == [a[0]] + (a[1..][..n] + b)
  {
    assert a[..n + 1] == [a[0]] + a[1..][..n];
  }

  /** The lookups of a tag list, from the first tag and the lookups of the others. */
  lemma LookupsCons(tags: seq<string>, later: seq<string>, all: seq<string>, failed: bool)
    requires tags != [] && all == [tags[0]] + later
    requires !failed ==> later == tags[1..]
    requires failed ==> |later| >= 1 && later <= tags[1..]
    ensures !failed ==> all == tags
    ensures failed ==> |all| >= 1 && all <= tags
  {
    assert tags == [tags[0]] + tags[1..];
    if failed {
      PrefixCons(tags[0], later, tags[1..]);
    }
  }

  lemma PrefixCons<T>(x: T, a: seq<T>, b: seq<T>)
    requires a <= b
    ensures [x] + a <= [x] + b
  {
    assert ([x] + b)[..|a| + 1] == [x] + b[..|a|];
  }

  /** When the first tag is deleted without error, the lookups are that tag, then the rest's. */
  lemma DeleteAllLookupsStep(o: Oracle, s: Server, tags: seq<string>, dryRun: bool)
    requires tags != [] && DeleteReleaseAndTagSpec(o, s, tags[0], dryRun).err.None?
    ensures var one := DeleteReleaseAndTagSpec(o, s, tags[0], dryRun).server;
      var rest := DeleteAllSpec(o, one, tags[1..], dryRun);
      && DeleteAllSpec(o, s, tags, dryRun) == rest
      && Lookups(Added(s, rest.server)) == [tags[0]] + Lookups(Added(one, rest.server))
  {
    var one := DeleteReleaseAndTagSpec(o, s, tags[0], dryRun).server;
    var rest := DeleteAllSpec(o, one, tags[1..], dryRun);
    DeleteReleaseAndTagLookups(o, s, tags[0], dryRun);
    ExtendsTransitive(s, one, rest.server);
    LookupsAppend(Added(s, one), Added(one, rest.server));
  }

  /** `DeleteReleasesAndTags` fails fast. When it fails after looking up `j` tags, it did nothing
      for the tags after the `j`-th: the first `j` tags followed by any others give the same state
      and the same error. Every tag it did not look up is left as it was, and the repository stays
      valid. */
  lemma {:induction false} DeleteAllFailFast(o: Oracle, s: Server, tags: seq<string>, dryRun: bool)
    requires s.Valid()
    ensures var r := DeleteAllSpec(o, s, tags, dryRun);
      var j := |Lookups(Added(s, r.server))|;
      r.err.Some? ==> j <= |tags| && forall more :: DeleteAllSpec(o, s, tags[..j] + more, dryRun) == r
    ensures var r := DeleteAllSpec(o, s, tags, dryRun).server;
      r.Valid() && forall u :: u !in Lookups(Added(s, r)) ==> Untouched(s, r, u)
    decreases |tags|
  {
    forall more
      ensures var r := DeleteAllSpec(o, s, tags, dryRun);
        var j := |Lookups(Added(s, r.server))|;
        r.err.Some? ==> j <= |tags| && DeleteAllSpec(o, s, tags[..j] + more, dryRun) == r
    {
      DeleteAllStopsAtFirstError(o, s, tags, dryRun, more);
    }
    DeleteAllStopsAtFirstError(o, s, tags, dryRun, []);
    DeleteAllUntouched(o, s, tags, dryRun);
  }

  /** When `DeleteReleasesAndTags` fails after `j` lookups, the tags after the `j`-th make no
      difference. */
  lemma {:induction false} DeleteAllStopsAtFirstError(o: Oracle, s: Server, tags: seq<string>, dryRun: bool,
                                                      more: seq<string>)
    ensures var r := DeleteAllSpec(o, s, tags, dryRun);
      var j := |Lookups(Added(s, r.server))|;
      r.err.Some? ==> j <= |tags| && DeleteAllSpec(o, s, tags[..j] + more, dryRun) == r
    decreases |tags|
  {
    if tags != [] {
      var one := DeleteReleaseAndTagSpec(o, s, tags[0], dryRun);
      if one.err.Some? {
        StopsAtFirstTag(o, s, tags, dryRun, more);
      } else {
        DeleteAllStopsAtFirstError(o, one.server, tags[1..], dryRun, more);
        StopsAtLaterTag(o, s, tags, dryRun, more);
      }
    }
  }

  /** `DeleteAllSpec` on a list that starts with `t`. */
  lemma DeleteAllCons(o: Oracle, s: Server, t: string, xs: seq<string>, dryRun: bool)
    ensures var one := DeleteReleaseAndTagSpec(o, s, t, dryRun);
      DeleteAllSpec(o, s, [t] + xs, dryRun) == if one.err.Some? then one else DeleteAllSpec(o, one.server, xs, dryRun)
  {
    assert ([t] + xs)[0] == t && ([t] + xs)[1..] == xs;
  }

  lemma StopsAtFirstTag(o: Oracle, s: Server, tags: seq<string>, dryRun: bool, more: seq<string>)
    requires tags != [] && DeleteReleaseAndTagSpec(o, s, tags[0], dryRun).err.Some?
    ensures var r := DeleteAllSpec(o, s, tags, dryRun);
      |Lookups(Added(s, r.server))| == 1 && DeleteAllSpec(o, s, tags[..1] + more, dryRun) == r
  {
    DeleteAllStopsAtError(o, s, tags, dryRun);
    assert tags[..1] == [tags[0]];
    DeleteAllCons(o, s, tags[0], more, dryRun);
  }

  lemma StopsAtLaterTag(o: Oracle, s: Server, tags: seq<string>, dryRun: bool, more: seq<string>)
    requires tags != [] && DeleteReleaseAndTagSpec(o, s, tags[0], dryRun).err.None?
    requires var one := DeleteReleaseAndTagSpec(o, s, tags[0], dryRun).server;
      var rest := DeleteAllSpec(o, one, tags[1..], dryRun);
      var j := |Lookups(Added(one, rest.server))|;
      rest.err.Some? ==> j <= |tags[1..]| && DeleteAllSpec(o, one, tags[1..][..j] + more, dryRun) == rest
    ensures var r := DeleteAllSpec(o, s, tags, dryRun);
      var j := |Lookups(Added(s, r.server))|;
      r.err.Some? ==> j <= |tags| && DeleteAllSpec(o, s, tags[..j] + more, dryRun) == r
  {
    var one := DeleteReleaseAndTagSpec(o, s, tags[0], dryRun).server;
    var rest := DeleteAllSpec(o, one, tags[1..], dryRun);
    DeleteAllLookupsStep(o, s, tags, dryRun);
    if rest.err.Some? {
      var later := |Lookups(Added(one, rest.server))|;
      var xs := tags[1..][..later] + more;
      SliceCons(tags, later, more);
      DeleteAllCons(o, s, tags[0], xs, dryRun);
    }
  }

  /** Every tag `DeleteReleasesAndTags` did not look up is left as it was, and the repository stays
      valid. */
  lemma {:induction false} DeleteAllUntouched(o: Oracle, s: Server, tags: seq<string>, dryRun: bool)
    requires s.Valid()
    ensures var r := DeleteAllSpec(o, s, tags, dryRun).server;
      r.Valid() && forall u :: u !in Lookups(Added(s, r)) ==> Untouched(s, r, u)
    decreases |tags|
  {
    var r := DeleteAllSpec(o, s, tags, dryRun).server;
    SubRepositoryValid(s, r);
    if tags != [] {
      var one := DeleteReleaseAndTagSpec(o, s, tags[0], dryRun);
      DeleteReleaseAndTagFrame(o, s, tags[0], dryRun);
      DeleteReleaseAndTagLookups(o, s, tags[0], dryRun);
      if one.err.None? {
        var rest := DeleteAllSpec(o, one.server, tags[1..], dryRun).server;
        assert r == rest;
        DeleteAllUntouched(o, one.server, tags[1..], dryRun);
        ExtendsTransitive(s, one.server, rest);
        LookupsAppend(Added(s, one.server), Added(one.server, rest));
        assert Lookups(Added(s, r)) == [tags[0]] + Lookups(Added(one.server, rest));
        forall u | u !in Lookups(Added(s, r))
          ensures Untouched(s, r, u)
        {
          assert u != tags[0];
          assert Untouched(s, one.server, u);
          assert u !in Lookups(Added(one.server, rest));
          assert Untouched(one.server, rest, u);
        }
      } else {
        assert r == one.server;
      }
    }
  }

  /** A dry run changes neither refs nor releases, and it only looks releases up. */
  lemma {:induction false} DryRunChangesNothing(o: Oracle, s: Server, tags: seq<string>)
    ensures var r := DeleteAllSpec(o, s, tags, true).server;
      SameContent(s, r) && forall k :: 0 <= k < |Added(s, r)| ==> Added(s, r)[k].ReleaseByTag?
    decreases |tags|
  {
    if tags != [] {
      var one := DeleteReleaseAndTagSpec(o, s, tags[0], true);
      DeleteReleaseAndTagOrder(o, s, tags[0], true);
      if one.err.None? {
        var r := DeleteAllSpec(o, s, tags, true).server;
        DryRunChangesNothing(o, one.server, tags[1..]);
        ExtendsTransitive(s, one.server, r);
      }
    }
  }

  /** With no failure injected, deleting one tag removes its release and its ref, returns no error,
      and a later lookup of the tag answers 404. */
  lemma DeleteReleaseAndTagNoFaults(o: Oracle, s: Server, tag: string)
    requires s.Valid() && NoFaults(o)
    ensures var r := DeleteReleaseAndTagSpec(o, s, tag, false);
      && r.err == None
      && tag !in r.server.releases && TagRef(tag) !in r.server.refs
      && r.server.GetReleaseByTag(o, tag).response == Err(ErrResp(404, []))
  {
    assert o.fault(|s.calls|) == None;
    assert o.fault(|s.calls| + 1) == None;
    var rel := DeleteReleaseSpec(o, s, tag, false);
    assert o.fault(|rel.server.calls|) == None;
    if tag in s.releases {
      DeleteFoundRelease(o, s.GetReleaseByTag(o, tag).server, tag);
    }
  }

  /** Deleting a tag again is harmless: no error, and nothing more changes. */
  lemma DeleteTwiceIsDeleteOnce(o: Oracle, s: Server, tag: string)
    requires s.Valid() && NoFaults(o)
    ensures var once := DeleteReleaseAndTagSpec(o, s, tag, false);
      var twice := DeleteReleaseAndTagSpec(o, once.server, tag, false);
      twice.err == None && SameContent(once.server, twice.server)
  {
    var once := DeleteReleaseAndTagSpec(o, s, tag, false);
    DeleteReleaseAndTagNoFaults(o, s, tag);
    DeleteReleaseAndTagFrame(o, s, tag, false);
    assert o.fault(|once.server.calls|) == None;
    assert o.fault(|once.server.calls| + 1) == None;
  }

  /** With no failure injected, `DeleteReleasesAndTags` succeeds and removes the release and
      the ref of every tag it is given. */
  lemma {:induction false} DeleteAllRemovesEverything(o: Oracle, s: Server, tags: seq<string>)
    requires s.Valid() && NoFaults(o)
    ensures var r := DeleteAllSpec(o, s, tags, false);
      r.err == None && forall t :: t in tags ==> t !in r.server.releases && TagRef(t) !in r.server.refs
    decreases |tags|
  {
    if tags != [] {
      var one := DeleteReleaseAndTagSpec(o, s, tags[0], false);
      DeleteReleaseAndTagNoFaults(o, s, tags[0]);
      DeleteReleaseAndTagFrame(o, s, tags[0], false);
      DeleteAllRemovesEverything(o, one.server, tags[1..]);
      assert forall t :: t in tags ==> t == tags[0] || t in tags[1..];
    }
  }

  /** Deleting by expression on one page is deleting the matching tags of the page, in order. */
  lemma {:induction false} DeletePageDeletesMatching(o: Oracle, s: Server, e: Engine, regex: seq<Regexp>,
                                                     tags: seq<string>, dryRun: bool)
    ensures DeletePageSpec(o, s, e, regex, tags, dryRun) == DeleteAllSpec(o, s, Matching(e, regex, tags), dryRun)
    decreases |tags|
  {
    if tags != [] {
      var m := Matching(e, regex, tags);
      if SomeMatch(e, regex, tags[0]) {
        assert m == [tags[0]] + Matching(e, regex, tags[1..]);
        assert m[1..] == Matching(e, regex, tags[1..]);
        var one := DeleteReleaseAndTagSpec(o, s, tags[0], dryRun);
        DeletePageDeletesMatching(o, one.server, e, regex, tags[1..], dryRun);
      } else {
        assert m == Matching(e, regex, tags[1..]);
        DeletePageDeletesMatching(o, s, e, regex, tags[1..], dryRun);
      }
    }
  }

  /** Only tags that some expression matches are looked up and only they can change. */
  lemma DeletePageTouchesOnlyMatching(o: Oracle, s: Server, e: Engine, regex: seq<Regexp>,
                                      tags: seq<string>, dryRun: bool)
    requires s.Valid()
    ensures var r := DeletePageSpec(o, s, e, regex, tags, dryRun).server;
      && r.Valid() && Extends(s, r) && NoTagListing(Added(s, r))
      && (forall t :: t in Lookups(Added(s, r)) ==> t in tags && SomeMatch(e, regex, t))
      && (forall u :: !(u in tags && SomeMatch(e, regex, u)) ==> Untouched(s, r, u))
  {
    DeletePageDeletesMatching(o, s, e, regex, tags, dryRun);
    var m := Matching(e, regex, tags);
    DeleteAllUntouched(o, s, m, dryRun);
    DeleteAllLookups(o, s, m, dryRun);
    var r := DeleteAllSpec(o, s, m, dryRun);
    forall t | t in Lookups(Added(s, r.server))
      ensures t in m
    {
      if r.err.Some? {
        var l := Lookups(Added(s, r.server));
        var i :| 0 <= i < |l| && l[i] == t;
        assert m[i] == t;
      }
    }
  }

  /** Deleting the tags of a page keeps the repository valid and lists no tags. */
  lemma DeletePageKeepsValid(o: Oracle, s: Server, e: Engine, regex: seq<Regexp>, tags: seq<string>, dryRun: bool)
    requires s.Valid()
    ensures DeletePageSpec(o, s, e, regex, tags, dryRun).server.Valid()
  {
    DeletePageTouchesOnlyMatching(o, s, e, regex, tags, dryRun);
  }

  /** Under no injected failure, deleting the tags of a page returns no error. */
  lemma DeletePageNoFaults(o: Oracle, s: Server, e: Engine, regex: seq<Regexp>, tags: seq<string>, dryRun: bool)
    requires s.Valid() && NoFaults(o)
    ensures DeletePageSpec(o, s, e, regex, tags, dryRun).err == None
  {
    DeletePageDeletesMatching(o, s, e, regex, tags, dryRun);
    var m := Matching(e, regex, tags);
    if dryRun {
      NoFaultsDryRunNoError(o, s, m);
    } else {
      DeleteAllRemovesEverything(o, s, m);
    }
  }

  lemma {:induction false} NoFaultsDryRunNoError(o: Oracle, s: Server, tags: seq<string>)
    requires NoFaults(o)
    ensures DeleteAllSpec(o, s, tags, true).err == None
    decreases |tags|
  {
    if tags != [] {
      assert o.fault(|s.calls|) == None;
      NoFaultsDryRunNoError(o, DeleteReleaseAndTagSpec(o, s, tags[0], true).server, tags[1..]);
    }
  }

  /** As written, every tag listing is sent without options, so it always asks for the first page. */
  lemma {:induction false} AsWrittenListsWithoutOptions(o: Oracle, s: Server, e: Engine, regex: seq<Regexp>,
                                                        dryRun: bool, opt: ListOptions, fuel: nat)
    requires s.Valid()
    ensures var r := ByRegexSpec(o, s, e, regex, dryRun, false, opt, fuel).server;
      && Extends(s, r)
      && forall k :: |s.calls| <= k < |r.calls| && r.calls[k].TagList? ==> r.calls[k].opt == None
    decreases fuel
  {
    if fuel > 0 {
      var n := |s.calls|;
      var list := s.ListTags(o, None);
      if list.response.Ok? {
        var page := list.response.value;
        DeletePageKeepsValid(o, list.server, e, regex, page.items, dryRun);
        DeletePageAddsNoListing(o, list.server, e, regex, page.items, dryRun);
        var dd := DeletePageSpec(o, list.server, e, regex, page.items, dryRun);
        var d := dd.server;
        assert d.calls[n] == TagList(None);
        if dd.err.None? && page.nextPage != 0 {
          AsWrittenListsWithoutOptions(o, d, e, regex, dryRun, ListOptions(page.nextPage), fuel - 1);
          var r := ByRegexSpec(o, s, e, regex, dryRun, false, opt, fuel).server;
          assert r == ByRegexSpec(o, d, e, regex, dryRun, false, ListOptions(page.nextPage), fuel - 1).server;
          assert r.calls[..|d.calls|] == d.calls;
          assert forall k :: n <= k < |d.calls| ==> r.calls[k] == d.calls[k];
        }
      }
    }
  }

  /** The call at index `k` lists tags, succeeds, and the page it gets reports no next page. */
  ghost predicate LastListing(o: Oracle, k: nat, c: Call) {
    c.TagList? && o.fault(k) == None && o.tagPages(k, c.opt).nextPage == 0
  }

  /** A page that reports no next page is the last one listed: no tag listing follows it. And
      when the operation finishes, the last listing reported no next page. */
  lemma ByRegexStopsAtLastPage(o: Oracle, s: Server, e: Engine, regex: seq<Regexp>,
                               dryRun: bool, forward: bool, opt: ListOptions, fuel: nat)
    requires s.Valid()
    ensures var r := ByRegexSpec(o, s, e, regex, dryRun, forward, opt, fuel);
      && Extends(s, r.server)
      && (forall k :: |s.calls| <= k < |r.server.calls| && r.server.calls[k].TagList?
             && o.fault(k) == None && o.tagPages(k, r.server.calls[k].opt).nextPage == 0
             ==> forall j :: k < j < |r.server.calls| ==> !r.server.calls[j].TagList?)
      && (r.status == Finished ==>
            exists k :: |s.calls| <= k < |r.server.calls| && r.server.calls[k].TagList?
              && o.fault(k) == None && o.tagPages(k, r.server.calls[k].opt).nextPage == 0)
  {
    ByRegexNoListingAfterLast(o, s, e, regex, dryRun, forward, opt, fuel);
    ByRegexFinishesAtLast(o, s, e, regex, dryRun, forward, opt, fuel);
  }

  /** The calls that deleting the tags of a page adds list no tags. */
  lemma DeletePageAddsNoListing(o: Oracle, s: Server, e: Engine, regex: seq<Regexp>, tags: seq<string>, dryRun: bool)
    ensures var d := DeletePageSpec(o, s, e, regex, tags, dryRun).server;
      forall j :: |s.calls| <= j < |d.calls| ==> !d.calls[j].TagList?
  {
    var d := DeletePageSpec(o, s, e, regex, tags, dryRun).server;
    forall j | |s.calls| <= j < |d.calls|
      ensures !d.calls[j].TagList?
    {
      assert d.calls[j] == Added(s, d)[j - |s.calls|];
    }
  }

  lemma {:induction false} ByRegexNoListingAfterLast(o: Oracle, s: Server, e: Engine, regex: seq<Regexp>,
                                                     dryRun: bool, forward: bool, opt: ListOptions, fuel: nat)
    requires s.Valid()
    ensures var r := ByRegexSpec(o, s, e, regex, dryRun, forward, opt, fuel).server;
      forall k, j :: |s.calls| <= k < j < |r.calls| && LastListing(o, k, r.calls[k]) ==> !r.calls[j].TagList?
    decreases fuel
  {
    if fuel > 0 {
      var n := |s.calls|;
      var sent := SentOptions(forward, opt);
      var list := s.ListTags(o, sent);
      if list.response.Ok? {
        var page := list.response.value;
        DeletePageKeepsValid(o, list.server, e, regex, page.items, dryRun);
        DeletePageAddsNoListing(o, list.server, e, regex, page.items, dryRun);
        var d := DeletePageSpec(o, list.server, e, regex, page.items, dryRun).server;
        assert d.calls[n] == TagList(sent);
        var r := ByRegexSpec(o, s, e, regex, dryRun, forward, opt, fuel).server;
        if DeletePageSpec(o, list.server, e, regex, page.items, dryRun).err.None? && page.nextPage != 0 {
          ByRegexNoListingAfterLast(o, d, e, regex, dryRun, forward, ListOptions(page.nextPage), fuel - 1);
          assert r == ByRegexSpec(o, d, e, regex, dryRun, forward, ListOptions(page.nextPage), fuel - 1).server;
          assert r.calls[..|d.calls|] == d.calls;
          assert r.calls[n] == TagList(sent) && o.fault(n) == None && o.tagPages(n, sent).nextPage != 0;
          assert forall j :: n < j < |d.calls| ==> r.calls[j] == d.calls[j] && !r.calls[j].TagList?;
          forall k, j | n <= k < j < |r.calls| && LastListing(o, k, r.calls[k])
            ensures !r.calls[j].TagList?
          {
            assert k != n;
            assert k >= |d.calls|;
          }
        }
      }
    }
  }

  lemma {:induction false} ByRegexFinishesAtLast(o: Oracle, s: Server, e: Engine, regex: seq<Regexp>,
                                                 dryRun: bool, forward: bool, opt: ListOptions, fuel: nat)
    ensures var r := ByRegexSpec(o, s, e, regex, dryRun, forward, opt, fuel);
      r.status == Finished ==> exists k :: |s.calls| <= k < |r.server.calls| && LastListing(o, k, r.server.calls[k])
    decreases fuel
  {
    if fuel > 0 {
      var n := |s.calls|;
      var sent := SentOptions(forward, opt);
      var list := s.ListTags(o, sent);
      if list.response.Ok? {
        var page := list.response.value;
        var dd := DeletePageSpec(o, list.server, e, regex, page.items, dryRun);
        var d := dd.server;
        assert d.calls[n] == TagList(sent);
        var r := ByRegexSpec(o, s, e, regex, dryRun, forward, opt, fuel);
        if dd.err.None? && page.nextPage != 0 {
          ByRegexFinishesAtLast(o, d, e, regex, dryRun, forward, ListOptions(page.nextPage), fuel - 1);
          var rest := ByRegexSpec(o, d, e, regex, dryRun, forward, ListOptions(page.nextPage), fuel - 1);
          assert r == rest;
        } else if dd.err.None? {
          assert r.server == d && LastListing(o, n, d.calls[n]);
        }
      }
    }
  }

  /** A dry run by expression changes neither refs nor releases, however many pages it lists. */
  lemma {:induction false} ByRegexDryRunChangesNothing(o: Oracle, s: Server, e: Engine, regex: seq<Regexp>,
                                                       forward: bool, opt: ListOptions, fuel: nat)
    ensures SameContent(s, ByRegexSpec(o, s, e, regex, true, forward, opt, fuel).server)
    decreases fuel
  {
    if fuel > 0 {
      var list := s.ListTags(o, SentOptions(forward, opt));
      if list.response.Ok? {
        var page := list.response.value;
        DeletePageDryRun(o, list.server, e, regex, page.items);
        var d := DeletePageSpec(o, list.server, e, regex, page.items, true);
        if d.err.None? && page.nextPage != 0 {
          ByRegexDryRunChangesNothing(o, d.server, e, regex, forward, ListOptions(page.nextPage), fuel - 1);
        }
      }
    }
  }

  lemma DeletePageDryRun(o: Oracle, s: Server, e: Engine, regex: seq<Regexp>, tags: seq<string>)
    ensures SameContent(s, DeletePageSpec(o, s, e, regex, tags, true).server)
  {
    DeletePageDeletesMatching(o, s, e, regex, tags, true);
    DryRunChangesNothing(o, s, Matching(e, regex, tags));
  }

  /** Deleting by expression leaves every tag that no expression matches as it was, on every page,
      and keeps the repository valid. */
  lemma {:induction false} ByRegexTouchesOnlyMatching(o: Oracle, s: Server, e: Engine, regex: seq<Regexp>,
                                                      dryRun: bool, forward: bool, opt: ListOptions, fuel: nat)
    requires s.Valid()
    ensures var r := ByRegexSpec(o, s, e, regex, dryRun, forward, opt, fuel).server;
      r.Valid() && forall u :: !SomeMatch(e, regex, u) ==> Untouched(s, r, u)
    decreases fuel
  {
    if fuel > 0 {
      var list := s.ListTags(o, SentOptions(forward, opt));
      if list.response.Ok? {
        var page := list.response.value;
        PageLeavesUnmatched(o, s, list.server, e, regex, page.items, dryRun);
        var dd := DeletePageSpec(o, list.server, e, regex, page.items, dryRun);
        if dd.err.None? && page.nextPage != 0 {
          var rest := ByRegexSpec(o, dd.server, e, regex, dryRun, forward, ListOptions(page.nextPage), fuel - 1);
          ByRegexTouchesOnlyMatching(o, dd.server, e, regex, dryRun, forward, ListOptions(page.nextPage), fuel - 1);
          UnmatchedTransitive(e, regex, s, dd.server, rest.server);
        }
      }
    }
  }

  /** Listing a page, then deleting its matching tags, leaves unmatched tags as they were. */
  lemma PageLeavesUnmatched(o: Oracle, s: Server, list: Server, e: Engine, regex: seq<Regexp>,
                            tags: seq<string>, dryRun: bool)
    requires s.Valid() && list.refs == s.refs && list.releases == s.releases && list.nextId == s.nextId
    ensures var d := DeletePageSpec(o, list, e, regex, tags, dryRun).server;
      d.Valid() && forall u :: !SomeMatch(e, regex, u) ==> Untouched(s, d, u)
  {
    assert list.Valid();
    DeletePageTouchesOnlyMatching(o, list, e, regex, tags, dryRun);
  }

  lemma UnmatchedTransitive(e: Engine, regex: seq<Regexp>, a: Server, b: Server, c: Server)
    requires forall u :: !SomeMatch(e, regex, u) ==> Untouched(a, b, u)
    requires forall u :: !SomeMatch(e, regex, u) ==> Untouched(b, c, u)
    ensures forall u :: !SomeMatch(e, regex, u) ==> Untouched(a, c, u)
  {
  }

  /** A tag listing that fails ends the operation: it is the last call, and the operation fails
      with that error. */
  lemma {:induction false} ByRegexStopsAtFailedListing(o: Oracle, s: Server, e: Engine, regex: seq<Regexp>,
                                                       dryRun: bool, forward: bool, opt: ListOptions, fuel: nat)
    ensures var r := ByRegexSpec(o, s, e, regex, dryRun, forward, opt, fuel);
      forall k :: |s.calls| <= k < |r.server.calls| && r.server.calls[k].TagList? && o.fault(k).Some? ==>
        k == |r.server.calls| - 1 && r.status == Failed(o.fault(k).value)
    decreases fuel
  {
    if fuel > 0 {
      var n := |s.calls|;
      var sent := SentOptions(forward, opt);
      var list := s.ListTags(o, sent);
      if list.response.Ok? {
        var page := list.response.value;
        DeletePageAddsNoListing(o, list.server, e, regex, page.items, dryRun);
        var dd := DeletePageSpec(o, list.server, e, regex, page.items, dryRun);
        var d := dd.server;
        assert d.calls[n] == TagList(sent) && o.fault(n) == None;
        var r := ByRegexSpec(o, s, e, regex, dryRun, forward, opt, fuel);
        if dd.err.None? && page.nextPage != 0 {
          ByRegexStopsAtFailedListing(o, d, e, regex, dryRun, forward, ListOptions(page.nextPage), fuel - 1);
          assert r == ByRegexSpec(o, d, e, regex, dryRun, forward, ListOptions(page.nextPage), fuel - 1);
          assert r.server.calls[..|d.calls|] == d.calls;
          assert forall j :: n < j < |d.calls| ==> r.server.calls[j] == d.calls[j] && !r.server.calls[j].TagList?;
          forall k | n <= k < |r.server.calls| && r.server.calls[k].TagList? && o.fault(k).Some?
            ensures k == |r.server.calls| - 1 && r.status == Failed(o.fault(k).value)
          {
            assert k != n;
            assert k >= |d.calls|;
          }
        } else {
          assert r.server == d;
          assert forall k :: n < k < |d.calls| ==> !d.calls[k].TagList?;
        }
      }
    }
  }

  /** A page whose deletion fails ends the operation at once: it fails with that deletion's
      error, in the state the deletion left, and lists no tags again. */
  lemma ByRegexStopsAtFailedPage(o: Oracle, s: Server, e: Engine, regex: seq<Regexp>,
                                 dryRun: bool, forward: bool, opt: ListOptions, fuel: nat)
    requires fuel > 0
    ensures var list := s.ListTags(o, SentOptions(forward, opt));
      var r := ByRegexSpec(o, s, e, regex, dryRun, forward, opt, fuel);
      list.response.Ok? ==>
        var d := DeletePageSpec(o, list.server, e, regex, list.response.value.items, dryRun);
        d.err.Some? ==>
          && r == Paged(d.server, Failed(d.err.value))
          && forall j :: |list.server.calls| <= j < |r.server.calls| ==> !r.server.calls[j].TagList?
  {
    var list := s.ListTags(o, SentOptions(forward, opt));
    if list.response.Ok? {
      DeletePageAddsNoListing(o, list.server, e, regex, list.response.value.items, dryRun);
    }
  }

  /** Once the operation has finished or failed, a larger bound on the number of pages changes
      nothing: no pass runs after a last page, a failed listing or a failed page deletion. */
  lemma {:induction false} ByRegexEndsForGood(o: Oracle, s: Server, e: Engine, regex: seq<Regexp>,
                                              dryRun: bool, forward: bool, opt: ListOptions, fuel: nat, more: nat)
    ensures var r := ByRegexSpec(o, s, e, regex, dryRun, forward, opt, fuel);
      r.status != Exhausted ==> ByRegexSpec(o, s, e, regex, dryRun, forward, opt, fuel + more) == r
    decreases fuel
  {
    if fuel > 0 {
      var list := s.ListTags(o, SentOptions(forward, opt));
      if list.response.Ok? {
        var page := list.response.value;
        var d := DeletePageSpec(o, list.server, e, regex, page.items, dryRun);
        if d.err.None? && page.nextPage != 0 {
          ByRegexEndsForGood(o, d.server, e, regex, dryRun, forward, ListOptions(page.nextPage), fuel - 1, more);
          assert fuel + more - 1 == fuel - 1 + more;
        }
      }
    }
  }

  /** Finding: as written, the loop never finishes once the first page reports a next page and
      the listing does not change (a dry run over more tags than fit a page): every pass lists
      the first page again, whatever the bound. */
  lemma {:induction false} AsWrittenRepeatsFirstPage(o: Oracle, s: Server, e: Engine, regex: seq<Regexp>,
                                                     dryRun: bool, opt: ListOptions, fuel: nat)
    requires s.Valid() && NoFaults(o) && StationaryTags(o)
    requires o.tagPages(0, None).nextPage != 0
    ensures ByRegexSpec(o, s, e, regex, dryRun, false, opt, fuel).status == Exhausted
    decreases fuel
  {
    if fuel > 0 {
      var list := s.ListTags(o, None);
      assert o.fault(|s.calls|) == None;
      assert o.tagPages(|s.calls|, None) == o.tagPages(0, None);
      var page := list.response.value;
      DeletePageNoFaults(o, list.server, e, regex, page.items, dryRun);
      DeletePageKeepsValid(o, list.server, e, regex, page.items, dryRun);
      var d := DeletePageSpec(o, list.server, e, regex, page.items, dryRun);
      AsWrittenRepeatsFirstPage(o, d.server, e, regex, dryRun, ListOptions(page.nextPage), fuel - 1);
    }
  }

  /** Corrected: when the loop forwards the next page number, and the service's next page is
      always later than the page asked for and never beyond page `last`, the operation finishes
      within `last + 1` listings. */
  lemma {:induction false} ForwardedPagesFinish(o: Oracle, s: Server, e: Engine, regex: seq<Regexp>,
                                                dryRun: bool, opt: ListOptions, last: nat, fuel: nat)
    requires s.Valid() && NoFaults(o)
    requires forall k: nat, p: nat :: o.tagPages(k, Some(ListOptions(p))).nextPage == 0
               || p < o.tagPages(k, Some(ListOptions(p))).nextPage <= last
    requires opt.page <= last && fuel > last - opt.page
    ensures ByRegexSpec(o, s, e, regex, dryRun, true, opt, fuel).status == Finished
    decreases fuel
  {
    var list := s.ListTags(o, Some(opt));
    assert o.fault(|s.calls|) == None;
    assert list.response == Ok(o.tagPages(|s.calls|, Some(ListOptions(opt.page))));
    var page := list.response.value;
    DeletePageNoFaults(o, list.server, e, regex, page.items, dryRun);
    DeletePageKeepsValid(o, list.server, e, regex, page.items, dryRun);
    var d := DeletePageSpec(o, list.server, e, regex, page.items, dryRun);
    if page.nextPage != 0 {
      assert opt.page < page.nextPage <= last;
      ForwardedPagesFinish(o, d.server, e, regex, dryRun, ListOptions(page.nextPage), last, fuel - 1);
    }
  }

  // ---------------------------------------------------------------------------------------------
  // The operations, performed call by call on the repository

  /** `deleteRelease`. */
  method DeleteRelease(repo: Repository, tag: string, dryRun: bool) returns (err: Option<ApiError>)
    requires repo.Valid()
    modifies repo
    ensures repo.Valid()
    ensures Outcome(repo.State(), err) == DeleteReleaseSpec(repo.oracle, old(repo.State()), tag, dryRun)
  {
    var release := repo.GetReleaseByTag(tag);
    if release.Err? {
      var e := release.error;
      if !e.ErrResp? {
        return Some(e);
      }
      if e.status == 404 {
        return None;
      }
      return Some(e);
    }
    if !dryRun {
      var deleted := repo.DeleteRelease(release.value.id);
      if deleted.Err? {
        return Some(deleted.error);
      }
    }
    return None;
  }

  /** `deleteTag`. */
  method DeleteTag(repo: Repository, tag: string, dryRun: bool) returns (err: Option<ApiError>)
    requires repo.Valid()
    modifies repo
    ensures repo.Valid()
    ensures Outcome(repo.State(), err) == DeleteTagSpec(repo.oracle, old(repo.State()), tag, dryRun)
  {
    if !dryRun {
      var deleted := repo.DeleteRef(TagRef(tag));
      if deleted.Err? {
        var e := deleted.error;
        if !e.ErrResp? {
          return Some(e);
        }
        if e.status == 422 {
          return None;
        }
        return Some(e);
      }
    }
    return None;
  }

  /** `deleteReleaseAndTag`. */
  method DeleteReleaseAndTag(repo: Repository, tag: string, dryRun: bool) returns (err: Option<ApiError>)
    requires repo.Valid()
    modifies repo
    ensures repo.Valid()
    ensures Outcome(repo.State(), err) == DeleteReleaseAndTagSpec(repo.oracle, old(repo.State()), tag, dryRun)
  {
    err := DeleteRelease(repo, tag, dryRun);
    if err.Some? {
      return;
    }
    err := DeleteTag(repo, tag, dryRun);
  }

  /** `DeleteReleasesAndTags`. */
  method DeleteReleasesAndTags(repo: Repository, tags: seq<string>, dryRun: bool) returns (err: Option<ApiError>)
    requires repo.Valid()
    modifies repo
    ensures repo.Valid()
    ensures Outcome(repo.State(), err) == DeleteAllSpec(repo.oracle, old(repo.State()), tags, dryRun)
  {
    for i := 0 to |tags|
      invariant repo.Valid()
      invariant DeleteAllSpec(repo.oracle, old(repo.State()), tags, dryRun)
             == DeleteAllSpec(repo.oracle, repo.State(), tags[i..], dryRun)
    {
      assert tags[i..][1..] == tags[i + 1..];
      err := DeleteReleaseAndTag(repo, tags[i], dryRun);
      if err.Some? {
        return;
      }
    }
    return None;
  }

  /** `deleteReleasesAndTagsByRegex`. */
  method DeletePageByRegex(repo: Repository, e: Engine, regex: seq<Regexp>, tags: seq<string>, dryRun: bool)
    returns (err: Option<ApiError>)
    requires repo.Valid()
    modifies repo
    ensures repo.Valid()
    ensures Outcome(repo.State(), err) == DeletePageSpec(repo.oracle, old(repo.State()), e, regex, tags, dryRun)
  {
    for i := 0 to |tags|
      invariant repo.Valid()
      invariant DeletePageSpec(repo.oracle, old(repo.State()), e, regex, tags, dryRun)
             == DeletePageSpec(repo.oracle, repo.State(), e, regex, tags[i..], dryRun)
    {
      assert tags[i..][1..] == tags[i + 1..];
      var matches := AnyMatch(e, regex, tags[i]);
      if matches {
        err := DeleteReleaseAndTag(repo, tags[i], dryRun);
        if err.Some? {
          return;
        }
      }
    }
    return None;
  }

  /** `DeleteReleasesAndTagsByRegex`, with at most `fuel` pages. `forward == false` is the code as
      written (the options are never sent); `forward == true` sends them. */
  method DeleteReleasesAndTagsByRegex(repo: Repository, e: Engine, regex: seq<Regexp>, dryRun: bool,
                                      forward: bool, fuel: nat) returns (status: Status)
    requires repo.Valid()
    modifies repo
    ensures repo.Valid()
    ensures Paged(repo.State(), status)
         == ByRegexSpec(repo.oracle, old(repo.State()), e, regex, dryRun, forward, ListOptions(0), fuel)
  {
    var opt := ListOptions(0);
    var budget := fuel;
    while budget > 0
      invariant repo.Valid()
      invariant ByRegexSpec(repo.oracle, old(repo.State()), e, regex, dryRun, forward, ListOptions(0), fuel)
             == ByRegexSpec(repo.oracle, repo.State(), e, regex, dryRun, forward, opt, budget)
      decreases budget
    {
      var tags := repo.ListTags(if forward then Some(opt) else None);
      if tags.Err? {
        return Failed(tags.error);
      }
      var err := DeletePageByRegex(repo, e, regex, tags.value.items, dryRun);
      if err.Some? {
        return Failed(err.value);
      }
      if tags.value.nextPage == 0 {
        return Finished;
      }
      opt := ListOptions(tags.value.nextPage);
      budget := budget - 1;
    }
    return Exhausted;
  }
}
