/**
  Regular expressions as the core uses them.

  User-supplied expressions go to Go's `regexp` package (RE2 syntax), which this model leaves
  uninterpreted: an `Engine` says which expressions compile and which compiled expressions match
  which strings.

  The repository also applies a few FIXED patterns of the shape `literal(class+)` with
  `FindStringSubmatch`; those are modelled exactly by `FindLiteralThenRun`: the leftmost start at
  which the literal matches and at least one class character follows, and the greedy run of class
  characters there. An unescaped `.` in the literal matches any character but a newline, as in RE2.
 */
module Regex {
  import opened Wrappers

  /** An uninterpreted regular-expression engine. */
  datatype Engine = Engine(compiles: string -> bool, matches: (string, string) -> bool)

  /** A compiled expression, a `*regexp.Regexp`. */
  datatype Regexp = Regexp(expr: string)

  /** `(*regexp.Regexp).MatchString`. */
  predicate MatchString(e: Engine, r: Regexp, s: string) {
    e.matches(r.expr, s)
  }

  /** Some expression of `regex` matches `s`. */
  predicate SomeMatch(e: Engine, regex: seq<Regexp>, s: string) {
    exists k :: 0 <= k < |regex| && MatchString(e, regex[k], s)
  }

  /** `anyMatch` (pkg/github/client_delete.go): tries the expressions in order and stops at the
      first that matches. */
  method AnyMatch(e: Engine, regex: seq<Regexp>, s: string) returns (b: bool)
    ensures b <==> exists k :: 0 <= k < |regex| && MatchString(e, regex[k], s)
  {
    for i := 0 to |regex|
      invariant forall k :: 0 <= k < i ==> !MatchString(e, regex[k], s)
    {
      if MatchString(e, regex[i], s) {
        return true;
      }
    }
    return false;
  }

  /** The character classes the fixed patterns use: `.` and `\w`. */
  datatype CharClass = AnyButNewline | Word

  predicate InClass(cls: CharClass, c: char) {
    match cls
    case AnyButNewline => c != '\n'
    case Word => ('0' <= c <= '9') || ('a' <= c <= 'z') || ('A' <= c <= 'Z') || c == '_'
  }

  /** The literal part of a fixed pattern matches `s` at index `i`. */
  predicate LiteralAt(s: string, lit: string, i: nat) {
    i + |lit| <= |s| &&
    forall k :: 0 <= k < |lit| ==>
      if lit[k] == '.' then s[i + k] != '\n' else s[i + k] == lit[k]
  }

  /** The whole pattern `lit(cls+)` matches `s` starting at index `i`. */
  predicate PatternAt(s: string, lit: string, cls: CharClass, i: nat) {
    LiteralAt(s, lit, i) && i + |lit| < |s| && InClass(cls, s[i + |lit|])
  }

  /** The longest run of class characters of `s` starting at index `k`. */
  function Run(s: string, cls: CharClass, k: nat): (r: string)
    requires k <= |s|
    ensures k + |r| <= |s| && s[k..k + |r|] == r
    ensures forall j :: 0 <= j < |r| ==> InClass(cls, r[j])
    ensures k + |r| == |s| || !InClass(cls, s[k + |r|])
    decreases |s| - k
  {
    if k < |s| && InClass(cls, s[k]) then [s[k]] + Run(s, cls, k + 1) else []
  }

  /** The leftmost index at or after `from` at which the pattern matches. */
  function FirstPatternAt(s: string, lit: string, cls: CharClass, from: nat): (r: Option<nat>)
    ensures r.Some? ==> from <= r.value && PatternAt(s, lit, cls, r.value)
    ensures r.Some? ==> forall j: nat :: from <= j < r.value ==> !PatternAt(s, lit, cls, j)
    ensures r.None? ==> forall j: nat :: from <= j ==> !PatternAt(s, lit, cls, j)
    decreases |s| - from
  {
    if |s| < from + |lit| + 1 then None
    else if PatternAt(s, lit, cls, from) then Some(from)
    else FirstPatternAt(s, lit, cls, from + 1)
  }

  /** `FindStringSubmatch(s)[1]` for the pattern `lit(cls+)`, or None when there is no match. */
  function FindLiteralThenRun(s: string, lit: string, cls: CharClass): (r: Option<string>)
    ensures r.Some? <==> exists i: nat :: PatternAt(s, lit, cls, i)
    ensures r.Some? ==> |r.value| >= 1 && forall j :: 0 <= j < |r.value| ==> InClass(cls, r.value[j])
  {
    match FirstPatternAt(s, lit, cls, 0)
    case None => None
    case Some(i) => Some(Run(s, cls, i + |lit|))
  }

  /** When the pattern occurs at `i` and nowhere before, the capture is the run of class
      characters that follows the literal there. */
  lemma FindAtFirstOccurrence(s: string, lit: string, cls: CharClass, i: nat)
    requires PatternAt(s, lit, cls, i)
    requires forall j: nat :: j < i ==> !PatternAt(s, lit, cls, j)
    ensures FindLiteralThenRun(s, lit, cls) == Some(Run(s, cls, i + |lit|))
  {
    FirstPatternAtIs(s, lit, cls, 0, i);
  }

  /** The search from `from` stops at `i` when the pattern occurs there and nowhere in between. */
  lemma {:induction false} FirstPatternAtIs(s: string, lit: string, cls: CharClass, from: nat, i: nat)
    requires from <= i && PatternAt(s, lit, cls, i)
    requires forall j: nat :: from <= j < i ==> !PatternAt(s, lit, cls, j)
    ensures FirstPatternAt(s, lit, cls, from) == Some(i)
    decreases i - from
  {
    assert i + |lit| < |s|;
    if from < i {
      assert !PatternAt(s, lit, cls, from);
      FirstPatternAtIs(s, lit, cls, from + 1, i);
    }
  }

  /** A run of characters other than a newline, followed by a newline or by the end of the
      string, is exactly the run `.+` takes there. */
  lemma RunToEndOfLine(s: string, k: nat, w: string)
    requires k + |w| <= |s| && s[k..k + |w|] == w
    requires forall j :: 0 <= j < |w| ==> w[j] != '\n'
    requires k + |w| == |s| || s[k + |w|] == '\n'
    ensures Run(s, AnyButNewline, k) == w
  {
    var r := Run(s, AnyButNewline, k);
    assert |r| == |w|;
  }
}
