/**
  Listing releases (pkg/github/client_list.go). What the commands print through the logger is
  returned as the sequence of lines.
 */
module GithubList {
  import opened Wrappers
  import opened Regex
  import opened GithubApi
  import opened GithubDelete

  /** The line logged for a release: its name, publication time and author login, tab-separated. */
  function ReleaseLine(r: Release): string {
    r.name + "\t" + r.publishedAt + "\t" + r.authorLogin
  }

  /** The lines of the releases whose name some expression matches, in their order. */
  function MatchingLines(e: Engine, regex: seq<Regexp>, releases: seq<Release>): (lines: seq<string>)
    ensures |lines| <= |releases|
    ensures forall l :: l in lines ==> exists r :: r in releases && SomeMatch(e, regex, r.name) && l == ReleaseLine(r)
    ensures forall r :: r in releases && SomeMatch(e, regex, r.name) ==> ReleaseLine(r) in lines
  {
    if releases == [] then []
    else
      (if SomeMatch(e, regex, releases[0].name) then [ReleaseLine(releases[0])] else [])
      + MatchingLines(e, regex, releases[1..])
  }

  lemma {:induction false} MatchingLinesAppend(e: Engine, regex: seq<Regexp>, a: seq<Release>, b: seq<Release>)
    ensures MatchingLines(e, regex, a + b) == MatchingLines(e, regex, a) + MatchingLines(e, regex, b)
  {
    if a == [] {
      assert a + b == b;
    } else {
      assert (a + b)[0] == a[0];
      assert (a + b)[1..] == a[1..] + b;
      MatchingLinesAppend(e, regex, a[1..], b);
    }
  }

  /** The lines of one more release: those of the releases before it, and its own if it matches. */
  lemma MatchingLinesSnoc(e: Engine, regex: seq<Regexp>, releases: seq<Release>, i: nat)
    requires i < |releases|
    ensures MatchingLines(e, regex, releases[..i + 1])
            == MatchingLines(e, regex, releases[..i])
               + if SomeMatch(e, regex, releases[i].name) then [ReleaseLine(releases[i])] else []
  {
    assert releases[..i + 1] == releases[..i] + [releases[i]];
    MatchingLinesAppend(e, regex, releases[..i], [releases[i]]);
    assert [releases[i]][1..] == [];
  }

  /** `listReleasesByRegex`. */
  method ListReleasesByRegex(e: Engine, regex: seq<Regexp>, releases: seq<Release>) returns (lines: seq<string>)
    ensures lines == MatchingLines(e, regex, releases)
  {
    lines := [];
    for i := 0 to |releases|
      invariant lines == MatchingLines(e, regex, releases[..i])
    {
      MatchingLinesSnoc(e, regex, releases, i);
      var matches := AnyMatch(e, regex, releases[i].name);
      if matches {
        lines := lines + [ReleaseLine(releases[i])];
      }
    }
    assert releases[..|releases|] == releases;
  }

  /** The end state of a paginated listing, the lines it logged, and how it ended. */
  datatype PagedListing = PagedListing(server: Server, lines: seq<string>, status: Status)

  /** `ListReleaseByRegex`: list a page of releases, log the matching ones, and go on while the
      service reports a next page; at most `fuel` pages. As for the tag deletion, `forward == false`
      is the code as written, which never sends its options. */
  function ByRegexListingSpec(o: Oracle, s: Server, e: Engine, regex: seq<Regexp>, forward: bool,
                              opt: ListOptions, fuel: nat): (r: PagedListing)
    ensures Extends(s, r.server) && SameContent(s, r.server)
    ensures forall c :: c in Added(s, r.server) ==> c.ReleaseList?
    decreases fuel
  {
    if fuel == 0 then PagedListing(s, [], Exhausted)
    else
      var list := s.ListReleases(o, SentOptions(forward, opt));
      match list.response
      case Err(err) => PagedListing(list.server, [], Failed(err))
      case Ok(page) =>
        var lines := MatchingLines(e, regex, page.items);
        if page.nextPage == 0 then PagedListing(list.server, lines, Finished)
        else
          var rest := ByRegexListingSpec(o, list.server, e, regex, forward, ListOptions(page.nextPage), fuel - 1);
          ExtendsTransitive(s, list.server, rest.server);
          PagedListing(rest.server, lines + rest.lines, rest.status)
  }

  /** `n` copies of `lines`, one after the other. */
  function Repeat(lines: seq<string>, n: nat): seq<string> {
    if n == 0 then [] else lines + Repeat(lines, n - 1)
  }

  /** Finding: as written, once the first page reports a next page and the listing does not
      change, the loop never finishes: it lists the first page again on every pass, and logs its
      matching releases once per pass. */
  lemma {:induction false} AsWrittenListsFirstPageForever(o: Oracle, s: Server, e: Engine, regex: seq<Regexp>,
                                                          opt: ListOptions, fuel: nat)
    requires NoFaults(o) && StationaryReleases(o)
    requires o.releasePages(0, None).nextPage != 0
    ensures var r := ByRegexListingSpec(o, s, e, regex, false, opt, fuel);
      r.status == Exhausted && r.lines == Repeat(MatchingLines(e, regex, o.releasePages(0, None).items), fuel)
    decreases fuel
  {
    if fuel > 0 {
      assert o.fault(|s.calls|) == None;
      assert o.releasePages(|s.calls|, None) == o.releasePages(0, None);
      var list := s.ListReleases(o, None);
      AsWrittenListsFirstPageForever(o, list.server, e, regex, ListOptions(o.releasePages(0, None).nextPage), fuel - 1);
    }
  }

  /** Corrected: forwarding the next page number, when the service's next page is always later
      than the page asked for and never beyond page `last`, the listing finishes. */
  lemma {:induction false} ForwardedListingFinishes(o: Oracle, s: Server, e: Engine, regex: seq<Regexp>,
                                                    opt: ListOptions, last: nat, fuel: nat)
    requires NoFaults(o)
    requires forall k: nat, p: nat :: o.releasePages(k, Some(ListOptions(p))).nextPage == 0
               || p < o.releasePages(k, Some(ListOptions(p))).nextPage <= last
    requires opt.page <= last && fuel > last - opt.page
    ensures ByRegexListingSpec(o, s, e, regex, true, opt, fuel).status == Finished
    decreases fuel
  {
    assert o.fault(|s.calls|) == None;
    var list := s.ListReleases(o, Some(opt));
    assert list.response == Ok(o.releasePages(|s.calls|, Some(ListOptions(opt.page))));
    var page := list.response.value;
    if page.nextPage != 0 {
      ForwardedListingFinishes(o, list.server, e, regex, ListOptions(page.nextPage), last, fuel - 1);
    }
  }

  /** The call at index `k` lists releases, succeeds, and its page reports a next page. */
  ghost predicate MoreReleases(o: Oracle, k: nat, c: Call) {
    c.ReleaseList? && o.fault(k) == None && o.releasePages(k, c.opt).nextPage != 0
  }

  /** The call at index `k` lists releases, succeeds, and its page reports no next page. */
  ghost predicate LastReleases(o: Oracle, k: nat, c: Call) {
    c.ReleaseList? && o.fault(k) == None && o.releasePages(k, c.opt).nextPage == 0
  }

  /** How `ListReleaseByRegex` ends: it lists at most `fuel` pages; every listing but the last
      succeeded and reported a next page; it finishes exactly when the last listing reported no
      next page, and fails exactly when the last listing failed, with that listing's error. */
  lemma ByRegexListingEnds(o: Oracle, s: Server, e: Engine, regex: seq<Regexp>, forward: bool,
                           opt: ListOptions, fuel: nat)
    ensures var r := ByRegexListingSpec(o, s, e, regex, forward, opt, fuel);
      var n := |s.calls|;
      var calls := r.server.calls;
      var m := |calls|;
      && m <= n + fuel
      && (forall k :: n <= k < m - 1 ==> MoreReleases(o, k, calls[k]))
      && (r.status == Finished <==> n < m && LastReleases(o, m - 1, calls[m - 1]))
      && (r.status.Failed? <==> n < m && o.fault(m - 1).Some?)
      && (r.status.Failed? ==> o.fault(m - 1) == Some(r.status.error))
  {
    ByRegexListingMoreBeforeLast(o, s, e, regex, forward, opt, fuel);
    ByRegexListingStatus(o, s, e, regex, forward, opt, fuel);
  }

  /** One pass of `ListReleaseByRegex` whose page reports a next page: the rest of the listing
      goes on from the state after that pass's call. */
  lemma ByRegexListingStep(o: Oracle, s: Server, e: Engine, regex: seq<Regexp>, forward: bool,
                           opt: ListOptions, fuel: nat)
    requires fuel > 0
    requires var list := s.ListReleases(o, SentOptions(forward, opt));
      list.response.Ok? && list.response.value.nextPage != 0
    ensures var list := s.ListReleases(o, SentOptions(forward, opt));
      var r := ByRegexListingSpec(o, s, e, regex, forward, opt, fuel);
      var rest := ByRegexListingSpec(o, list.server, e, regex, forward, ListOptions(list.response.value.nextPage), fuel - 1);
      && r.server == rest.server && r.status == rest.status
      && |rest.server.calls| > |s.calls|
      && rest.server.calls[|s.calls|] == ReleaseList(SentOptions(forward, opt))
      && MoreReleases(o, |s.calls|, rest.server.calls[|s.calls|])
  {
    var list := s.ListReleases(o, SentOptions(forward, opt));
    var rest := ByRegexListingSpec(o, list.server, e, regex, forward, ListOptions(list.response.value.nextPage), fuel - 1);
    assert rest.server.calls[..|list.server.calls|] == list.server.calls;
    assert rest.server.calls[|s.calls|] == list.server.calls[|s.calls|];
  }

  lemma {:induction false} ByRegexListingMoreBeforeLast(o: Oracle, s: Server, e: Engine, regex: seq<Regexp>,
                                                        forward: bool, opt: ListOptions, fuel: nat)
    ensures var r := ByRegexListingSpec(o, s, e, regex, forward, opt, fuel);
      && |r.server.calls| <= |s.calls| + fuel
      && forall k :: |s.calls| <= k < |r.server.calls| - 1 ==> MoreReleases(o, k, r.server.calls[k])
    decreases fuel
  {
    if fuel > 0 {
      var list := s.ListReleases(o, SentOptions(forward, opt));
      if list.response.Ok? && list.response.value.nextPage != 0 {
        ByRegexListingStep(o, s, e, regex, forward, opt, fuel);
        ByRegexListingMoreBeforeLast(o, list.server, e, regex, forward, ListOptions(list.response.value.nextPage), fuel - 1);
      }
    }
  }

  lemma ByRegexListingStatus(o: Oracle, s: Server, e: Engine, regex: seq<Regexp>,
                             forward: bool, opt: ListOptions, fuel: nat)
    ensures var r := ByRegexListingSpec(o, s, e, regex, forward, opt, fuel);
      var calls := r.server.calls;
      var m := |calls|;
      && (r.status == Finished <==> |s.calls| < m && LastReleases(o, m - 1, calls[m - 1]))
      && (r.status.Failed? <==> |s.calls| < m && o.fault(m - 1).Some?)
      && (r.status.Failed? ==> o.fault(m - 1) == Some(r.status.error))
  {
    ByRegexListingFinished(o, s, e, regex, forward, opt, fuel);
    ByRegexListingFailed(o, s, e, regex, forward, opt, fuel);
  }

  lemma {:induction false} ByRegexListingFinished(o: Oracle, s: Server, e: Engine, regex: seq<Regexp>,
                                                  forward: bool, opt: ListOptions, fuel: nat)
    ensures var r := ByRegexListingSpec(o, s, e, regex, forward, opt, fuel);
      var calls := r.server.calls;
      var m := |calls|;
      r.status == Finished <==> |s.calls| < m && LastReleases(o, m - 1, calls[m - 1])
    decreases fuel
  {
    if fuel > 0 {
      var n := |s.calls|;
      var list := s.ListReleases(o, SentOptions(forward, opt));
      assert |list.server.calls| == n + 1 && list.server.calls[n] == ReleaseList(SentOptions(forward, opt));
      if list.response.Ok? && list.response.value.nextPage != 0 {
        ByRegexListingStep(o, s, e, regex, forward, opt, fuel);
        var next := ListOptions(list.response.value.nextPage);
        ByRegexListingFinished(o, list.server, e, regex, forward, next, fuel - 1);
        var rest := ByRegexListingSpec(o, list.server, e, regex, forward, next, fuel - 1);
        assert !LastReleases(o, n, rest.server.calls[n]);
      } else {
        ByRegexListingLast(o, s, e, regex, forward, opt, fuel);
      }
    }
  }

  lemma {:induction false} ByRegexListingFailed(o: Oracle, s: Server, e: Engine, regex: seq<Regexp>,
                                                forward: bool, opt: ListOptions, fuel: nat)
    ensures var r := ByRegexListingSpec(o, s, e, regex, forward, opt, fuel);
      var m := |r.server.calls|;
      && (r.status.Failed? <==> |s.calls| < m && o.fault(m - 1).Some?)
      && (r.status.Failed? ==> o.fault(m - 1) == Some(r.status.error))
    decreases fuel
  {
    if fuel > 0 {
      var n := |s.calls|;
      var list := s.ListReleases(o, SentOptions(forward, opt));
      assert |list.server.calls| == n + 1;
      if list.response.Ok? && list.response.value.nextPage != 0 {
        ByRegexListingStep(o, s, e, regex, forward, opt, fuel);
        ByRegexListingFailed(o, list.server, e, regex, forward, ListOptions(list.response.value.nextPage), fuel - 1);
      } else {
        ByRegexListingLast(o, s, e, regex, forward, opt, fuel);
      }
    }
  }

  /** The lines logged for the listings `calls`, the first made at call index `start`: the
      matching releases of the page each listing got, in order; a failed listing got none. */
  ghost function ListedLines(o: Oracle, e: Engine, regex: seq<Regexp>, calls: seq<Call>, start: nat): seq<string>
    decreases |calls|
  {
    if calls == [] then []
    else
      (if calls[0].ReleaseList? && o.fault(start) == None
       then MatchingLines(e, regex, o.releasePages(start, calls[0].opt).items) else [])
      + ListedLines(o, e, regex, calls[1..], start + 1)
  }

  /** `ListReleaseByRegex` logs the matching releases of every page it listed, page after page. */
  lemma {:induction false} ByRegexListingLogsListedPages(o: Oracle, s: Server, e: Engine, regex: seq<Regexp>,
                                                         forward: bool, opt: ListOptions, fuel: nat)
    ensures var r := ByRegexListingSpec(o, s, e, regex, forward, opt, fuel);
      r.lines == ListedLines(o, e, regex, Added(s, r.server), |s.calls|)
    decreases fuel
  {
    if fuel > 0 {
      var n := |s.calls|;
      var sent := SentOptions(forward, opt);
      var list := s.ListReleases(o, sent);
      var r := ByRegexListingSpec(o, s, e, regex, forward, opt, fuel);
      assert Added(s, list.server) == [ReleaseList(sent)];
      if list.response.Ok? && list.response.value.nextPage != 0 {
        var next := ListOptions(list.response.value.nextPage);
        var rest := ByRegexListingSpec(o, list.server, e, regex, forward, next, fuel - 1);
        ByRegexListingLogsListedPages(o, list.server, e, regex, forward, next, fuel - 1);
        ExtendsTransitive(s, list.server, rest.server);
        assert r.server == rest.server;
        var added := Added(s, r.server);
        assert added[0] == ReleaseList(sent) && added[1..] == Added(list.server, rest.server);
      } else {
        assert r.server == list.server;
      }
    }
  }

  /** The end state of a listing by tag, the lines it logged, and the error it returns. */
  datatype Listing = Listing(server: Server, lines: seq<string>, err: Option<ApiError>)

  /** `ListRelease`: look each tag up in turn and log its release; a 404 ends the listing
      without an error, any other failure ends it with that error. */
  function ListReleaseSpec(o: Oracle, s: Server, tags: seq<string>): (r: Listing)
    ensures Extends(s, r.server) && SameContent(s, r.server)
    ensures r.err.Some? ==> !IsNotFound(r.err.value)
    ensures |r.lines| <= |tags|
    decreases |tags|
  {
    if tags == [] then Listing(s, [], None)
    else
      var look := s.GetReleaseByTag(o, tags[0]);
      match look.response
      case Err(e) => Listing(look.server, [], if IsNotFound(e) then None else Some(e))
      case Ok(release) =>
        var rest := ListReleaseSpec(o, look.server, tags[1..]);
        ExtendsTransitive(s, look.server, rest.server);
        Listing(rest.server, [ReleaseLine(release)] + rest.lines, rest.err)
  }

  /** The first `i` lookups, made one after the other from `s`, find a release: nothing is
      injected into them and each tag has a release. */
  ghost predicate FoundUpTo(o: Oracle, s: Server, tags: seq<string>, i: nat) {
    i <= |tags| && forall k :: 0 <= k < i ==> NoFaultAfter(o, s, k) && tags[k] in s.releases
  }

  /** The call made after `k` others from `s` gets no injected error. */
  ghost predicate NoFaultAfter(o: Oracle, s: Server, k: nat) {
    o.fault(|s.calls| + k) == None
  }

  /** The lookup of `tags[i]`, made after `i` others from `s`, finds no release. */
  ghost predicate MissesAt(o: Oracle, s: Server, tags: seq<string>, i: nat)
    requires i < |tags|
  {
    o.fault(|s.calls| + i).Some? || tags[i] !in s.releases
  }

  /** The error `ListRelease` returns when the lookup at call index `k` finds nothing: the
      injected error unless it is a 404, and none for a tag without a release. */
  function MissError(o: Oracle, k: nat): Option<ApiError> {
    if o.fault(k).Some? && !IsNotFound(o.fault(k).value) then o.fault(k) else None
  }

  /** `ListRelease` logs the releases of the tags in order up to the first lookup that finds no
      release; that tag is the last one looked up. The error is that lookup's, when it failed with
      something other than a 404, and none otherwise. */
  lemma ListReleaseStopsAtFirstMiss(o: Oracle, s: Server, tags: seq<string>, i: nat)
    requires FoundUpTo(o, s, tags, i)
    requires i < |tags| ==> MissesAt(o, s, tags, i)
    ensures var r := ListReleaseSpec(o, s, tags);
      && r.err == (if i < |tags| then MissError(o, |s.calls| + i) else None)
      && |r.lines| == i
      && (forall k :: 0 <= k < i ==> r.lines[k] == ReleaseLine(s.releases[tags[k]]))
      && Lookups(Added(s, r.server)) == if i < |tags| then tags[..i + 1] else tags
  {
    ListReleaseLinesUpToMiss(o, s, tags, i);
    ListReleaseLooksUpToMiss(o, s, tags, i);
  }

  /** With no injected failure, `ListRelease` logs the releases of the tags in order up to the
      first tag that has none; that tag is the last one looked up, and no error is returned. */
  lemma ListReleaseStopsAtMissing(o: Oracle, s: Server, tags: seq<string>, i: nat)
    requires NoFaults(o)
    requires i <= |tags|
    requires forall k :: 0 <= k < i ==> tags[k] in s.releases
    requires i < |tags| ==> tags[i] !in s.releases
    ensures var r := ListReleaseSpec(o, s, tags);
      && r.err == None
      && |r.lines| == i
      && (forall k :: 0 <= k < i ==> r.lines[k] == ReleaseLine(s.releases[tags[k]]))
      && Lookups(Added(s, r.server)) == if i < |tags| then tags[..i + 1] else tags
  {
    assert forall k :: 0 <= k < i ==> NoFaultAfter(o, s, k);
    ListReleaseStopsAtFirstMiss(o, s, tags, i);
  }

  /** One step of `ListRelease` on a tag that has a release, with nothing injected. */
  lemma ListReleaseFound(o: Oracle, s: Server, tags: seq<string>)
    requires o.fault(|s.calls|) == None && tags != [] && tags[0] in s.releases
    ensures var look := s.Record(ReleaseByTag(tags[0]));
      var rest := ListReleaseSpec(o, look, tags[1..]);
      && Extends(s, look) && Extends(look, rest.server)
      && ListReleaseSpec(o, s, tags) == Listing(rest.server, [ReleaseLine(s.releases[tags[0]])] + rest.lines, rest.err)
      && Added(s, rest.server) == [ReleaseByTag(tags[0])] + Added(look, rest.server)
  {
    var look := s.Record(ReleaseByTag(tags[0]));
    var rest := ListReleaseSpec(o, look, tags[1..]);
    ExtendsTransitive(s, look, rest.server);
    assert Added(s, look) == [ReleaseByTag(tags[0])];
  }

  /** One step of `ListRelease` on a lookup that finds no release. */
  lemma ListReleaseMiss(o: Oracle, s: Server, tags: seq<string>)
    requires tags != [] && MissesAt(o, s, tags, 0)
    ensures ListReleaseSpec(o, s, tags) == Listing(s.Record(ReleaseByTag(tags[0])), [], MissError(o, |s.calls|))
    ensures Added(s, s.Record(ReleaseByTag(tags[0]))) == [ReleaseByTag(tags[0])]
  {
    assert |s.calls| + 0 == |s.calls|;
  }

  /** What holds of the first `i` lookups from `s` holds of the `i - 1` after the first. */
  lemma FoundUpToTail(o: Oracle, s: Server, tags: seq<string>, i: nat)
    requires FoundUpTo(o, s, tags, i) && i >= 1
    requires i < |tags| ==> MissesAt(o, s, tags, i)
    ensures var look := s.Record(ReleaseByTag(tags[0]));
      && FoundUpTo(o, look, tags[1..], i - 1)
      && (i - 1 < |tags[1..]| ==> MissesAt(o, look, tags[1..], i - 1))
      && (i < |tags| ==> MissError(o, |look.calls| + (i - 1)) == MissError(o, |s.calls| + i))
  {
    var look := s.Record(ReleaseByTag(tags[0]));
    assert |look.calls| == |s.calls| + 1 && look.releases == s.releases;
    forall k | 0 <= k < i - 1
      ensures NoFaultAfter(o, look, k) && tags[1..][k] in look.releases
    {
      assert NoFaultAfter(o, s, k + 1) && tags[k + 1] in s.releases;
      assert |look.calls| + k == |s.calls| + (k + 1);
      assert tags[1..][k] == tags[k + 1];
    }
    if i < |tags| {
      assert |look.calls| + (i - 1) == |s.calls| + i;
      assert tags[1..][i - 1] == tags[i];
    }
  }

  lemma {:induction false} ListReleaseLinesUpToMiss(o: Oracle, s: Server, tags: seq<string>, i: nat)
    requires FoundUpTo(o, s, tags, i)
    requires i < |tags| ==> MissesAt(o, s, tags, i)
    ensures var r := ListReleaseSpec(o, s, tags);
      && r.err == (if i < |tags| then MissError(o, |s.calls| + i) else None)
      && |r.lines| == i
      && (forall k :: 0 <= k < i ==> r.lines[k] == ReleaseLine(s.releases[tags[k]]))
    decreases |tags|
  {
    if tags != [] {
      if i == 0 {
        ListReleaseMiss(o, s, tags);
        assert |s.calls| + 0 == |s.calls|;
      } else {
        assert NoFaultAfter(o, s, 0) && tags[0] in s.releases;
        ListReleaseFound(o, s, tags);
        FoundUpToTail(o, s, tags, i);
        var look := s.Record(ReleaseByTag(tags[0]));
        var rest := ListReleaseSpec(o, look, tags[1..]);
        ListReleaseLinesUpToMiss(o, look, tags[1..], i - 1);
        var r := ListReleaseSpec(o, s, tags);
        forall k | 0 <= k < i
          ensures r.lines[k] == ReleaseLine(s.releases[tags[k]])
        {
          if k > 0 {
            assert r.lines[k] == rest.lines[k - 1];
            assert tags[1..][k - 1] == tags[k];
          }
        }
      }
    }
  }

  lemma {:induction false} ListReleaseLooksUpToMiss(o: Oracle, s: Server, tags: seq<string>, i: nat)
    requires FoundUpTo(o, s, tags, i)
    requires i < |tags| ==> MissesAt(o, s, tags, i)
    ensures var r := ListReleaseSpec(o, s, tags);
      Lookups(Added(s, r.server)) == if i < |tags| then tags[..i + 1] else tags
    decreases |tags|
  {
    if tags != [] {
      if i == 0 {
        ListReleaseMiss(o, s, tags);
        assert Lookups([ReleaseByTag(tags[0])]) == [tags[0]];
        assert tags[..1] == [tags[0]];
      } else {
        var look := s.Record(ReleaseByTag(tags[0]));
        var more := tags[1..];
        assert NoFaultAfter(o, s, 0) && tags[0] in s.releases;
        ListReleaseLookupsFound(o, s, tags);
        FoundUpToTail(o, s, tags, i);
        ListReleaseLooksUpToMiss(o, look, more, i - 1);
        LookupsUpToCons(tags, i, Lookups(Added(look, ListReleaseSpec(o, look, more).server)),
                        Lookups(Added(s, ListReleaseSpec(o, s, tags).server)));
      }
    }
  }

  /** Lookups up to the `i`-th tag, from the first tag and the lookups up to the `i - 1`-th of the others. */
  lemma LookupsUpToCons(tags: seq<string>, i: nat, later: seq<string>, all: seq<string>)
    requires 1 <= i <= |tags| && all == [tags[0]] + later
    requires later == if i - 1 < |tags[1..]| then tags[1..][..i] else tags[1..]
    ensures all == if i < |tags| then tags[..i + 1] else tags
  {
    if i < |tags| {
      assert tags[..i + 1] == [tags[0]] + tags[1..][..i];
    } else {
      assert tags == [tags[0]] + tags[1..];
    }
  }

  /** The lookups of `ListRelease` on a tag that has a release: that tag, then the rest's. */
  lemma ListReleaseLookupsFound(o: Oracle, s: Server, tags: seq<string>)
    requires o.fault(|s.calls|) == None && tags != [] && tags[0] in s.releases
    ensures var look := s.Record(ReleaseByTag(tags[0]));
      && Lookups(Added(s, ListReleaseSpec(o, s, tags).server))
         == [tags[0]] + Lookups(Added(look, ListReleaseSpec(o, look, tags[1..]).server))
  {
    var look := s.Record(ReleaseByTag(tags[0]));
    var rest := ListReleaseSpec(o, look, tags[1..]);
    ListReleaseFound(o, s, tags);
    LookupsAppend([ReleaseByTag(tags[0])], Added(look, rest.server));
    assert Lookups([ReleaseByTag(tags[0])]) == [tags[0]];
  }

  /** One pass of `ListReleaseByRegex` whose page reports a next page: its lines, then the rest's. */
  lemma ByRegexListingNext(o: Oracle, s: Server, e: Engine, regex: seq<Regexp>, forward: bool,
                           opt: ListOptions, fuel: nat)
    requires fuel > 0
    requires var list := s.ListReleases(o, SentOptions(forward, opt));
      list.response.Ok? && list.response.value.nextPage != 0
    ensures var list := s.ListReleases(o, SentOptions(forward, opt));
      var page := list.response.value;
      var rest := ByRegexListingSpec(o, list.server, e, regex, forward, ListOptions(page.nextPage), fuel - 1);
      ByRegexListingSpec(o, s, e, regex, forward, opt, fuel)
        == PagedListing(rest.server, MatchingLines(e, regex, page.items) + rest.lines, rest.status)
  {
  }

  /** One pass of `ListReleaseByRegex` that ends the listing: a failed listing, or a page that
      reports no next page. */
  lemma ByRegexListingLast(o: Oracle, s: Server, e: Engine, regex: seq<Regexp>, forward: bool,
                           opt: ListOptions, fuel: nat)
    requires fuel > 0
    ensures var list := s.ListReleases(o, SentOptions(forward, opt));
      && (list.response.Err? ==>
            ByRegexListingSpec(o, s, e, regex, forward, opt, fuel) == PagedListing(list.server, [], Failed(list.response.error)))
      && (list.response.Ok? && list.response.value.nextPage == 0 ==>
            ByRegexListingSpec(o, s, e, regex, forward, opt, fuel)
              == PagedListing(list.server, MatchingLines(e, regex, list.response.value.items), Finished))
  {
  }

  /** The listing `total`, which has gathered `lines` so far and goes on from `s` with `fuel`
      passes, after one more pass. */
  lemma ByRegexListingPass(o: Oracle, s: Server, e: Engine, regex: seq<Regexp>, forward: bool,
                           opt: ListOptions, fuel: nat, lines: seq<string>, total: PagedListing)
    requires fuel > 0
    requires total == var rest := ByRegexListingSpec(o, s, e, regex, forward, opt, fuel);
      PagedListing(rest.server, lines + rest.lines, rest.status)
    ensures var list := s.ListReleases(o, SentOptions(forward, opt));
      && (list.response.Err? ==> total == PagedListing(list.server, lines, Failed(list.response.error)))
      && (list.response.Ok? && list.response.value.nextPage == 0 ==>
            total == PagedListing(list.server, lines + MatchingLines(e, regex, list.response.value.items), Finished))
      && (list.response.Ok? && list.response.value.nextPage != 0 ==>
            total == var rest := ByRegexListingSpec(o, list.server, e, regex, forward,
                                                    ListOptions(list.response.value.nextPage), fuel - 1);
            PagedListing(rest.server, (lines + MatchingLines(e, regex, list.response.value.items)) + rest.lines, rest.status))
  {
    var list := s.ListReleases(o, SentOptions(forward, opt));
    ByRegexListingLast(o, s, e, regex, forward, opt, fuel);
    assert list.response.Err? ==> lines + [] == lines;
    if list.response.Ok? && list.response.value.nextPage != 0 {
      ByRegexListingNext(o, s, e, regex, forward, opt, fuel);
      var found := MatchingLines(e, regex, list.response.value.items);
      var rest := ByRegexListingSpec(o, list.server, e, regex, forward, ListOptions(list.response.value.nextPage), fuel - 1);
      assert lines + (found + rest.lines) == (lines + found) + rest.lines;
    }
  }

  /** `ListReleaseByRegex`, with at most `fuel` pages (`forward` as in `ByRegexListingSpec`). */
  method ListReleaseByRegex(repo: Repository, e: Engine, regex: seq<Regexp>, forward: bool, fuel: nat)
    returns (lines: seq<string>, status: Status)
    requires repo.Valid()
    modifies repo
    ensures repo.Valid()
    ensures PagedListing(repo.State(), lines, status)
         == ByRegexListingSpec(repo.oracle, old(repo.State()), e, regex, forward, ListOptions(0), fuel)
  {
    var opt := ListOptions(0);
    var budget := fuel;
    lines := [];
    ghost var total := ByRegexListingSpec(repo.oracle, repo.State(), e, regex, forward, opt, fuel);
    assert lines + total.lines == total.lines;
    while budget > 0
      invariant repo.Valid()
      invariant total == var rest := ByRegexListingSpec(repo.oracle, repo.State(), e, regex, forward, opt, budget);
                PagedListing(rest.server, lines + rest.lines, rest.status)
      decreases budget
    {
      ByRegexListingPass(repo.oracle, repo.State(), e, regex, forward, opt, budget, lines, total);
      var releases := repo.ListReleases(SentOptions(forward, opt));
      if releases.Err? {
        return lines, Failed(releases.error);
      }
      var found := ListReleasesByRegex(e, regex, releases.value.items);
      if releases.value.nextPage == 0 {
        lines := lines + found;
        return lines, Finished;
      }
      lines := lines + found;
      opt := ListOptions(releases.value.nextPage);
      budget := budget - 1;
    }
    return lines, Exhausted;
  }

  /** `ListRelease`. */
  method ListRelease(repo: Repository, tags: seq<string>) returns (lines: seq<string>, err: Option<ApiError>)
    requires repo.Valid()
    modifies repo
    ensures repo.Valid()
    ensures Listing(repo.State(), lines, err) == ListReleaseSpec(repo.oracle, old(repo.State()), tags)
  {
    lines := [];
    for i := 0 to |tags|
      invariant repo.Valid()
      invariant ListReleaseSpec(repo.oracle, old(repo.State()), tags)
             == var rest := ListReleaseSpec(repo.oracle, repo.State(), tags[i..]);
                Listing(rest.server, lines + rest.lines, rest.err)
    {
      assert tags[i..][1..] == tags[i + 1..];
      var release := repo.GetReleaseByTag(tags[i]);
      if release.Err? {
        var e := release.error;
        if !e.ErrResp? {
          return lines, Some(e);
        }
        if e.status == 404 {
          return lines, None;
        }
        return lines, Some(e);
      }
      lines := lines + [ReleaseLine(release.value)];
    }
    return lines, None;
  }
}
