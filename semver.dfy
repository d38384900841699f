/**
  Semantic Versioning 2.0.0 values as the two libraries the repository uses
  (blang/semver and coreos/go-semver) represent them.

  The version record and its printed form are concrete: `MAJOR.MINOR.PATCH`, then `-` and the
  dot-separated pre-release identifiers if there are any (item 9 of Semantic Versioning 2.0.0),
  then `+` and the dot-separated build identifiers if there are any (item 10).
  Parsing a version, parsing one pre-release identifier and parsing a range expression are
  uninterpreted: a `Library` value supplies them. A range is what blang/semver makes of it, a
  predicate on versions.
 */
module SemVer {
  import opened Wrappers
  import opened Strings

  /** A pre-release identifier: numeric, or alphanumeric (letters, digits and hyphens). */
  datatype Identifier = Num(n: nat) | Alnum(s: string)

  datatype Version = Version(major: int, minor: int, patch: int, pre: seq<Identifier>, build: seq<string>)

  /** blang/semver's `Range`: a predicate on versions. */
  type Range = Version -> bool

  const MaxUint64: int := 0xFFFF_FFFF_FFFF_FFFF
  const MaxInt64: int := 0x7FFF_FFFF_FFFF_FFFF

  /** The bounds of a library's numbers: the version components, and the numeric pre-release
      identifiers (None when the library keeps the pre-release as text and bounds nothing). */
  datatype Limits = Limits(component: int, numeric: Option<int>)

  /** blang/semver: uint64 components and uint64 numeric pre-release identifiers. */
  const Blang: Limits := Limits(MaxUint64, Some(MaxUint64))

  /** coreos/go-semver: int64 components; the pre-release is a string. */
  const Coreos: Limits := Limits(MaxInt64, None)

  /** The uninterpreted parts of a semver library. */
  datatype Library = Library(
    parse: string -> Option<Version>,
    parsePrerelease: string -> Option<Identifier>,
    parseRange: string -> Option<Range>)

  predicate IsDigit(c: char) { '0' <= c <= '9' }

  predicate IsAlnumHyphen(c: char) {
    IsDigit(c) || ('a' <= c <= 'z') || ('A' <= c <= 'Z') || c == '-'
  }

  function DigitChar(d: nat): char
    requires d < 10
  {
    ['0', '1', '2', '3', '4', '5', '6', '7', '8', '9'][d]
  }

  /** Decimal digits of `n`, without leading zeros. */
  function NatToString(n: nat): (r: string)
    ensures |r| >= 1 && forall k :: 0 <= k < |r| ==> IsDigit(r[k])
    ensures |r| > 1 ==> r[0] != '0'
  {
    if n < 10 then [DigitChar(n)] else NatToString(n / 10) + [DigitChar(n % 10)]
  }

  /** `%d` of Go's fmt. */
  function IntToString(i: int): string {
    if i < 0 then "-" + NatToString(-i) else NatToString(i)
  }

  function IdentifierString(id: Identifier): string {
    match id
    case Num(n) => NatToString(n)
    case Alnum(s) => s
  }

  function JoinIdentifiers(ids: seq<Identifier>): string {
    if |ids| == 0 then ""
    else if |ids| == 1 then IdentifierString(ids[0])
    else IdentifierString(ids[0]) + "." + JoinIdentifiers(ids[1..])
  }

  /** `Version.String()`. */
  function ToString(v: Version): string {
    IntToString(v.major) + "." + IntToString(v.minor) + "." + IntToString(v.patch)
    + (if v.pre == [] then "" else "-" + JoinIdentifiers(v.pre))
    + (if v.build == [] then "" else "+" + Join(v.build, "."))
  }

  /** A tag printed from `pr`, a string that starts with a digit, with a `v` in front exactly
      when `tag` has one: it has a leading `v` exactly when `tag` does, and stripping that `v`
      gives `pr` back. */
  lemma KeepsLeadingV(tag: string, pr: string)
    requires |pr| >= 1 && IsDigit(pr[0])
    ensures var r := if HasPrefix(tag, "v") then "v" + pr else pr;
      (HasPrefix(r, "v") <==> HasPrefix(tag, "v")) && TrimPrefix(r, "v") == pr
  {
    assert !HasPrefix(pr, "v") by {
      assert pr[..1] == [pr[0]];
    }
    TrimPrefixConcat("v", pr);
    assert ("v" + pr)[..1] == "v";
  }

  /** The round trip a well-behaved library promises. */
  lemma ParsesPrinted(lib: Library, lim: Limits, v: Version)
    requires Lawful(lib, lim) && Valid(v, lim)
    ensures lib.parse(ToString(v)) == Some(v)
  {
  }

  /** A printed version with a non-negative major starts with a digit, so in particular not with `v`. */
  lemma ToStringStartsWithDigit(v: Version)
    requires v.major >= 0
    ensures |ToString(v)| >= 1 && IsDigit(ToString(v)[0])
  {
    var m := NatToString(v.major);
    assert ToString(v)[0] == m[0];
  }

  /** Item 9: a pre-release identifier is non-empty, uses [0-9A-Za-z-] only, and a numeric one
      has no leading zeros (built into `Num`) and stays within the library's bound. */
  predicate ValidIdentifier(id: Identifier, lim: Limits) {
    match id
    case Num(n) => lim.numeric.None? || n <= lim.numeric.value
    case Alnum(s) =>
      s != [] && (forall k :: 0 <= k < |s| ==> IsAlnumHyphen(s[k]))
      && (exists k :: 0 <= k < |s| && !IsDigit(s[k]))
  }

  /** Item 10: a build identifier is non-empty and uses [0-9A-Za-z-] only. */
  predicate ValidBuild(b: string) {
    b != [] && forall k :: 0 <= k < |b| ==> IsAlnumHyphen(b[k])
  }

  /** Item 2 with the library's component bound, plus items 9 and 10. */
  predicate Valid(v: Version, lim: Limits) {
    0 <= v.major <= lim.component && 0 <= v.minor <= lim.component && 0 <= v.patch <= lim.component
    && (forall k :: 0 <= k < |v.pre| ==> ValidIdentifier(v.pre[k], lim))
    && (forall k :: 0 <= k < |v.build| ==> ValidBuild(v.build[k]))
  }

  /** What the model assumes of a well-behaved library with bounds `lim`: it only produces valid
      versions and identifiers, and it parses the printed form of a valid version back to that
      version. A printed version beyond the bounds may be rejected. */
  ghost predicate Lawful(lib: Library, lim: Limits) {
    && (forall s, v :: lib.parse(s) == Some(v) ==> Valid(v, lim))
    && (forall v :: Valid(v, lim) ==> lib.parse(ToString(v)) == Some(v))
    && (forall s, id :: lib.parsePrerelease(s) == Some(id) ==> ValidIdentifier(id, lim))
  }

  /** `Range.OR`. */
  function Or(a: Range, b: Range): Range {
    v => a(v) || b(v)
  }

  /** Equality under precedence (item 11): build metadata does not take part. This is coreos/go-semver's
      `Equal`, which compares with `Compare`. */
  predicate SamePrecedence(a: Version, b: Version) {
    a.major == b.major && a.minor == b.minor && a.patch == b.patch && a.pre == b.pre
  }

  /** Two's-complement wrap-around of a signed 64-bit integer. */
  function WrapInt64(x: int): (r: int)
    ensures -MaxInt64 - 1 <= r <= MaxInt64
    ensures -MaxInt64 - 1 <= x <= MaxInt64 ==> r == x
  {
    (x + MaxInt64 + 1) % (2 * (MaxInt64 + 1)) - (MaxInt64 + 1)
  }

  /** coreos/go-semver's `BumpPatch` on its int64 fields: patch + 1, pre-release and metadata cleared. */
  function BumpPatch(v: Version): (r: Version)
    ensures r.major == v.major && r.minor == v.minor && r.pre == [] && r.build == []
    ensures -MaxInt64 - 1 <= v.patch < MaxInt64 ==> r.patch == v.patch + 1
    ensures v.patch == MaxInt64 ==> r.patch == -MaxInt64 - 1
  {
    Version(v.major, v.minor, WrapInt64(v.patch + 1), [], [])
  }
}
