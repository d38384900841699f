/**
  The tag matchers of pkg/github/client_delete_matcher.go, an earlier revision of the matchers in
  tag_matcher.go: expressions are compiled with `MustCompile` and versions parsed with
  coreos/go-semver's `Must`, both of which panic on bad input, and a version matcher compares
  versions for equality instead of testing ranges.
 */
module DeleteMatcher {
  import opened Wrappers
  import opened Strings
  import opened Regex
  import opened SemVer
  import TagMatcher

  /** `NewRegexMatcher`: `MustCompile` panics, so every expression must compile. The matcher is
      the same as `TagMatcher.RegexMatcher`, whose `Matches` is the same loop. */
  method NewRegexMatcher(e: Engine, expressions: seq<string>) returns (m: TagMatcher.RegexMatcher)
    requires forall k :: 0 <= k < |expressions| ==> e.compiles(expressions[k])
    ensures |m.regexps| == |expressions|
    ensures forall k :: 0 <= k < |expressions| ==> m.regexps[k] == Regexp(expressions[k])
  {
    var regexps: seq<Regexp> := [];
    for i := 0 to |expressions|
      invariant |regexps| == i && forall k :: 0 <= k < i ==> regexps[k] == Regexp(expressions[k])
    {
      regexps := regexps + [Regexp(expressions[i])];
    }
    return TagMatcher.RegexMatcher(regexps);
  }

  /** A matcher holding parsed versions. */
  datatype SemVerMatcher = SemVerMatcher(versions: seq<Version>) {

    /** `SemVerMatcher.Matches`: the tag, with one leading `v` stripped, equals one of the versions
        under precedence (build metadata does not count). The tag is parsed inside the loop with
        `Must`, so it must parse unless there are no versions, in which case it is never parsed. */
    method Matches(lib: Library, tag: string) returns (b: bool)
      requires versions == [] || lib.parse(TrimPrefix(tag, "v")).Some?
      ensures b <==>
        exists k :: 0 <= k < |versions| && SamePrecedence(versions[k], lib.parse(TrimPrefix(tag, "v")).value)
      ensures versions == [] ==> !b
    {
      for i := 0 to |versions|
        invariant forall k :: 0 <= k < i ==> !SamePrecedence(versions[k], lib.parse(TrimPrefix(tag, "v")).value)
      {
        var other := lib.parse(TrimPrefix(tag, "v")).value;
        if SamePrecedence(versions[i], other) {
          return true;
        }
      }
      return false;
    }
  }

  /** `NewSemVerMatcher`: `Must` panics, so every version must parse. */
  method NewSemVerMatcher(lib: Library, versions: seq<string>) returns (m: SemVerMatcher)
    requires forall k :: 0 <= k < |versions| ==> lib.parse(versions[k]).Some?
    ensures |m.versions| == |versions|
    ensures forall k :: 0 <= k < |versions| ==> lib.parse(versions[k]) == Some(m.versions[k])
  {
    var parsed: seq<Version> := [];
    for i := 0 to |versions|
      invariant |parsed| == i && forall k :: 0 <= k < i ==> lib.parse(versions[k]) == Some(parsed[k])
    {
      parsed := parsed + [lib.parse(versions[i]).value];
    }
    return SemVerMatcher(parsed);
  }
}
