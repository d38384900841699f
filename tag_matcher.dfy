/**
  Deciding which tags a command applies to (pkg/github/tag_matcher.go): by regular expressions,
  or by blang/semver ranges, any of which may match.
 */
module TagMatcher {
  import opened Wrappers
  import opened Strings
  import opened Regex
  import opened SemVer

  /** Why a matcher could not be built: the expression or range that the library rejected. */
  datatype MatcherError = InvalidRegexp(expr: string) | InvalidRange(range: string)

  /** The error text; `detail` is the library's own message, which the model does not know. */
  function Message(err: MatcherError, detail: string): string {
    match err
    case InvalidRegexp(_) => "requires a valid regexp expression: " + detail
    case InvalidRange(_) => "requires a valid semver2 ranges: " + detail
  }

  /** A matcher holding compiled expressions. */
  datatype RegexMatcher = RegexMatcher(regexps: seq<Regexp>) {

    /** `RegexMatcher.Matches`: the same ordered search as `anyMatch`. */
    method Matches(e: Engine, s: string) returns (b: bool)
      ensures b <==> exists k :: 0 <= k < |regexps| && MatchString(e, regexps[k], s)
    {
      b := AnyMatch(e, regexps, s);
    }
  }

  /** `NewRegexMatcher`: compiles the expressions in order and fails on the first that does not
      compile. */
  method NewRegexMatcher(e: Engine, exprs: seq<string>) returns (r: Result<RegexMatcher, MatcherError>)
    ensures r.Ok? <==> forall k :: 0 <= k < |exprs| ==> e.compiles(exprs[k])
    ensures r.Ok? ==> |r.value.regexps| == |exprs| && forall k :: 0 <= k < |exprs| ==> r.value.regexps[k] == Regexp(exprs[k])
    ensures r.Err? ==>
      exists i :: 0 <= i < |exprs| && r.error == InvalidRegexp(exprs[i]) && !e.compiles(exprs[i])
        && forall j :: 0 <= j < i ==> e.compiles(exprs[j])
  {
    var regexps: seq<Regexp> := [];
    for i := 0 to |exprs|
      invariant |regexps| == i
      invariant forall k :: 0 <= k < i ==> e.compiles(exprs[k]) && regexps[k] == Regexp(exprs[k])
    {
      if !e.compiles(exprs[i]) {
        return Err(InvalidRegexp(exprs[i]));
      }
      regexps := regexps + [Regexp(exprs[i])];
    }
    return Ok(RegexMatcher(regexps));
  }

  /** Some range of `ranges` parses and includes `v`. */
  ghost predicate InSomeRange(lib: Library, ranges: seq<string>, v: Version) {
    exists k :: 0 <= k < |ranges| && lib.parseRange(ranges[k]).Some? && lib.parseRange(ranges[k]).value(v)
  }

  /** A matcher holding the OR of the ranges; `r` is None (Go's nil) when there were no ranges. */
  datatype SemVerMatcher = SemVerMatcher(r: Option<Range>) {

    /** This matcher stands for the OR of `ranges`. */
    ghost predicate Represents(lib: Library, ranges: seq<string>) {
      && (r.None? <==> ranges == [])
      && (r.Some? ==> forall v :: r.value(v) <==> InSomeRange(lib, ranges, v))
    }

    /** `SemVerMatcher.Matches`: one leading `v` is stripped and the rest parsed; a tag that does
        not parse never matches. Go calls the nil range of a matcher built from no ranges, which
        panics, hence the precondition. */
    function Matches(lib: Library, s: string): (b: bool)
      requires r.Some? || lib.parse(TrimPrefix(s, "v")).None?
      ensures b ==> lib.parse(TrimPrefix(s, "v")).Some?
    {
      match lib.parse(TrimPrefix(s, "v"))
      case None => false
      case Some(v) => r.value(v)
    }
  }

  /** `NewSemVerMatcher`: parses the ranges in order, fails on the first that does not parse, and
      combines the others with `OR`. */
  method NewSemVerMatcher(lib: Library, ranges: seq<string>) returns (res: Result<SemVerMatcher, MatcherError>)
    ensures res.Ok? <==> forall k :: 0 <= k < |ranges| ==> lib.parseRange(ranges[k]).Some?
    ensures res.Ok? ==> res.value.Represents(lib, ranges)
    ensures res.Err? ==>
      exists i :: 0 <= i < |ranges| && res.error == InvalidRange(ranges[i])
        && lib.parseRange(ranges[i]).None? && forall j :: 0 <= j < i ==> lib.parseRange(ranges[j]).Some?
  {
    var m := SemVerMatcher(None);
    for i := 0 to |ranges|
      invariant forall k :: 0 <= k < i ==> lib.parseRange(ranges[k]).Some?
      invariant m.Represents(lib, ranges[..i])
    {
      var rr := lib.parseRange(ranges[i]);
      if rr.None? {
        return Err(InvalidRange(ranges[i]));
      }
      ghost var before := m;
      if m.r.None? {
        m := SemVerMatcher(Some(rr.value));
      } else {
        m := SemVerMatcher(Some(Or(m.r.value, rr.value)));
      }
      forall v
        ensures m.r.value(v) <==> InSomeRange(lib, ranges[..i + 1], v)
      {
        if InSomeRange(lib, ranges[..i + 1], v) {
          var k :| 0 <= k < i + 1 && lib.parseRange(ranges[..i + 1][k]).Some? && lib.parseRange(ranges[..i + 1][k]).value(v);
          if k < i {
            assert ranges[..i][k] == ranges[..i + 1][k];
          }
        }
        if before.r.Some? && before.r.value(v) {
          var k :| 0 <= k < i && lib.parseRange(ranges[..i][k]).Some? && lib.parseRange(ranges[..i][k]).value(v);
          assert ranges[..i + 1][k] == ranges[..i][k];
        }
        assert ranges[..i + 1][i] == ranges[i];
      }
    }
    assert ranges[..|ranges|] == ranges;
    return Ok(m);
  }

  /** A matcher built from `ranges` matches a tag exactly when the tag, with one leading `v`
      stripped, parses to a version that one of the ranges includes. */
  lemma MatchesSomeRange(lib: Library, m: SemVerMatcher, ranges: seq<string>, s: string)
    requires m.Represents(lib, ranges) && ranges != []
    ensures m.Matches(lib, s) <==>
      lib.parse(TrimPrefix(s, "v")).Some? && InSomeRange(lib, ranges, lib.parse(TrimPrefix(s, "v")).value)
  {
  }

  /** With a well-behaved library, the leading `v` of a tag is optional: `vX.Y.Z` and `X.Y.Z`
      match alike, and they match when the range includes the version. */
  lemma LeadingVIsOptional(lib: Library, m: SemVerMatcher, v: Version)
    requires Lawful(lib, Blang) && Valid(v, Blang) && m.r.Some?
    ensures m.Matches(lib, "v" + ToString(v)) == m.Matches(lib, ToString(v)) == m.r.value(v)
  {
    ToStringStartsWithDigit(v);
    assert !HasPrefix(ToString(v), "v");
    assert HasPrefix("v" + ToString(v), "v");
    assert TrimPrefix("v" + ToString(v), "v") == ToString(v);
  }
}
