/**
  The repository helpers of pkg/github/client.go: the next release version after the latest
  release, and the owner, repository and branch read from a local git checkout.

  The file reads (`.git/config`, `.git/HEAD`) become an `Option<string>` argument, None when the
  file cannot be read; the latest-release lookup becomes its answer, passed in as a `Result`.
 */
module GithubClient {
  import opened Wrappers
  import opened Strings
  import opened Regex
  import opened SemVer
  import opened GithubApi

  /** Why no next version could be found: the lookup failed, or the latest tag, with one leading
      `v` stripped, is not a version coreos/go-semver accepts. */
  datatype VersionError = LookupFailed(err: ApiError) | NotSemVer(version: string)

  /** `FindNextReleaseVersion`: without a token, owner or repository there is nothing to look up
      and the answer is ""; otherwise the latest release's tag, patch-bumped, keeping its `v`. */
  function FindNextReleaseVersion(lib: Library, token: string, owner: string, repo: string,
                                  latest: Result<string, ApiError>): (r: Result<string, VersionError>)
    ensures token == "" || owner == "" || repo == "" ==> r == Ok("")
    ensures token != "" && owner != "" && repo != "" && latest.Err? ==> r == Err(LookupFailed(latest.error))
    ensures token != "" && owner != "" && repo != "" && latest.Ok? ==>
      (r.Err? <==> lib.parse(TrimPrefix(latest.value, "v")).None?)
  {
    if token == "" || owner == "" || repo == "" then Ok("")
    else
      match latest
      case Err(e) => Err(LookupFailed(e))
      case Ok(tag) =>
        var version := TrimPrefix(tag, "v");
        match lib.parse(version)
        case None => Err(NotSemVer(version))
        case Some(sv) =>
          var next := ToString(BumpPatch(sv));
          Ok(if HasPrefix(tag, "v") then "v" + next else next)
  }

  /** With a well-behaved library bounded as coreos/go-semver is (int64 components), the next
      version has a leading `v` exactly when the latest tag has one, and stripping that `v` gives
      a version that parses to the latest version with its patch bumped (item 6 of Semantic
      Versioning 2.0.0), as long as the patch is below the int64 limit. */
  lemma NextVersionIsPatchBump(lib: Library, token: string, owner: string, repo: string, tag: string)
    requires Lawful(lib, Coreos)
    requires token != "" && owner != "" && repo != ""
    requires lib.parse(TrimPrefix(tag, "v")).Some?
    requires lib.parse(TrimPrefix(tag, "v")).value.patch < MaxInt64
    ensures var r := FindNextReleaseVersion(lib, token, owner, repo, Ok(tag));
      && r.Ok?
      && (HasPrefix(r.value, "v") <==> HasPrefix(tag, "v"))
      && lib.parse(TrimPrefix(r.value, "v")) == Some(BumpPatch(lib.parse(TrimPrefix(tag, "v")).value))
  {
    var sv := lib.parse(TrimPrefix(tag, "v")).value;
    assert Valid(sv, Coreos);
    var bumped := BumpPatch(sv);
    assert Valid(bumped, Coreos);
    ToStringStartsWithDigit(bumped);
    KeepsLeadingV(tag, ToString(bumped));
    ParsesPrinted(lib, Coreos, bumped);
  }

  /** The latest release `v1.2.3` is followed by `v1.2.4`, and `1.2.3` by `1.2.4`. */
  lemma NextVersionExample(lib: Library)
    requires lib.parse("1.2.3") == Some(Version(1, 2, 3, [], []))
    ensures FindNextReleaseVersion(lib, "token", "softleader", "s2i", Ok("v1.2.3")) == Ok("v1.2.4")
    ensures FindNextReleaseVersion(lib, "token", "softleader", "s2i", Ok("1.2.3")) == Ok("1.2.4")
  {
    assert "v1.2.3"[..1] == "v" && "v1.2.3"[1..] == "1.2.3";
    assert TrimPrefix("v1.2.3", "v") == "1.2.3";
    assert "1.2.3"[..1] == "1";
    assert TrimPrefix("1.2.3", "v") == "1.2.3";
    assert NatToString(1) == "1" && NatToString(2) == "2" && NatToString(4) == "4";
    assert ToString(BumpPatch(Version(1, 2, 3, [], []))) == "1.2.4";
    assert HasPrefix("v1.2.3", "v") && !HasPrefix("1.2.3", "v");
    assert "v" + "1.2.4" == "v1.2.4";
  }

  /** The remote URL with the GitHub ssh or https prefix and the `.git` suffix removed. */
  function TrimmedRemote(url: string): string {
    TrimSuffix(TrimPrefix(TrimPrefix(url, "git@github.com:"), "https://github.com/"), ".git")
  }

  /** `Remote` does not panic: when the config has a `url = ` line, its trimmed URL contains a
      `/`, so that `Split` gives at least two pieces. */
  predicate RemoteDefined(config: Option<string>) {
    match config
    case None => true
    case Some(text) =>
      match FindLiteralThenRun(text, "url = ", AnyButNewline)
      case None => true
      case Some(url) => |Split(TrimmedRemote(url), "/")| >= 2
  }

  /** `Remote`: the first two `/`-separated segments of the first remote URL of the git config,
      or two empty strings when the config cannot be read or has no `url = ` line. */
  function Remote(config: Option<string>): (r: (string, string))
    requires RemoteDefined(config)
    ensures config.None? ==> r == ("", "")
    ensures config.Some? && FindLiteralThenRun(config.value, "url = ", AnyButNewline).None? ==> r == ("", "")
  {
    match config
    case None => ("", "")
    case Some(text) =>
      match FindLiteralThenRun(text, "url = ", AnyButNewline)
      case None => ("", "")
      case Some(url) =>
        var spited := Split(TrimmedRemote(url), "/");
        (spited[0], spited[1])
  }

  /** A piece that lacks `/` as a substring lacks the character `/`. */
  lemma NoSlash(p: string)
    requires !Contains(p, "/")
    ensures '/' !in p
  {
    IndexFindsFirst(p, "/");
    OccursAtChar(p, '/');
  }

  /** The first two pieces of a split on `/` that has at least two are `/`-free, and the string
      is those two joined by `/`, or that and `/` followed by more. */
  lemma {:induction false} FirstTwoSegments(t: string)
    requires |Split(t, "/")| >= 2
    ensures var parts := Split(t, "/");
      && '/' !in parts[0] && '/' !in parts[1]
      && (t == parts[0] + "/" + parts[1] || HasPrefix(t, parts[0] + "/" + parts[1] + "/"))
  {
    var parts := Split(t, "/");
    SplitPiecesLackSeparator(t, "/");
    NoSlash(parts[0]);
    NoSlash(parts[1]);
    JoinSplit(t, "/");
    JoinFirstTwo(parts, "/");
  }

  /** Owner and repository are `/`-free and are the first two segments of the trimmed URL: it is
      `owner/repo`, or `owner/repo/` followed by more. */
  lemma RemoteIsFirstTwoSegments(config: string)
    requires RemoteDefined(Some(config))
    requires FindLiteralThenRun(config, "url = ", AnyButNewline).Some?
    ensures var t := TrimmedRemote(FindLiteralThenRun(config, "url = ", AnyButNewline).value);
      var r := Remote(Some(config));
      && '/' !in r.0 && '/' !in r.1
      && (t == r.0 + "/" + r.1 || HasPrefix(t, r.0 + "/" + r.1 + "/"))
  {
    FirstTwoSegments(TrimmedRemote(FindLiteralThenRun(config, "url = ", AnyButNewline).value));
  }

  /** A git config whose first `url = ` is the one starting right after `before`, on a line of its
      own holding `url`. */
  predicate UrlLine(config: string, before: string, url: string, after: string) {
    && config == before + "url = " + url + "\n" + after
    && Index(before + "url = ", "url = ") == Some(|before|)
    && url != [] && '\n' !in url
  }

  /** The `url = ` pattern finds the URL of such a line. */
  lemma FindsUrlLine(config: string, before: string, url: string, after: string)
    requires UrlLine(config, before, url, after)
    ensures FindLiteralThenRun(config, "url = ", AnyButNewline) == Some(url)
  {
    var lit := "url = ";
    var k := |before| + |lit|;
    IndexFindsFirst(before + lit, lit);
    assert config[|before|..k] == lit;
    assert config[k..k + |url|] == url;
    assert config[k + |url|] == '\n';
    assert LiteralAt(config, lit, |before|);
    assert PatternAt(config, lit, AnyButNewline, |before|);
    forall j: nat | j < |before|
      ensures !PatternAt(config, lit, AnyButNewline, j)
    {
      if LiteralAt(config, lit, j) {
        assert config[j..j + |lit|] == (before + lit)[j..j + |lit|];
        assert forall m :: 0 <= m < |lit| ==> config[j + m] == lit[m];
        assert config[j..j + |lit|] == lit;
        assert OccursAt(before + lit, lit, j);
      }
    }
    FindAtFirstOccurrence(config, lit, AnyButNewline, |before|);
    RunToEndOfLine(config, k, url);
  }

  /** `owner/repo` splits at its one `/`. */
  lemma SplitOwnerRepo(owner: string, repo: string)
    requires '/' !in owner && '/' !in repo
    ensures Split(owner + "/" + repo, "/") == [owner, repo]
  {
    assert Join([owner, repo], "/") == owner + "/" + repo by {
      JoinCons(owner, [repo], "/");
    }
    SplitJoin([owner, repo], '/');
  }

  /** For a config with a `url = ` line, `Remote` gives the first two segments of its trimmed URL. */
  lemma RemoteOfUrlLine(config: string, before: string, url: string, after: string, owner: string, repo: string)
    requires UrlLine(config, before, url, after)
    requires Split(TrimmedRemote(url), "/") == [owner, repo]
    ensures RemoteDefined(Some(config)) && Remote(Some(config)) == (owner, repo)
  {
    FindsUrlLine(config, before, url, after);
  }

  /** Trimming an ssh URL `git@github.com:<owner>/<repo>.git` leaves `<owner>/<repo>`. */
  lemma TrimmedSshUrl(owner: string, repo: string)
    requires '/' !in owner && '/' !in repo
    ensures TrimmedRemote("git@github.com:" + owner + "/" + repo + ".git") == owner + "/" + repo
  {
    var ssh := "git@github.com:";
    var https := "https://github.com/";
    var x := owner + "/" + repo + ".git";
    assert (ssh + x)[..|ssh|] == ssh && (ssh + x)[|ssh|..] == x;
    assert ssh + owner + "/" + repo + ".git" == ssh + x;
    assert TrimPrefix(ssh + x, ssh) == x;
    // `x` differs from `https` at index `k`: `owner` has no `/` where `https` has one, or
    // `owner` ends where `https` has none
    var k := if |owner| > 6 then 6 else if |owner| == 6 then 7 else |owner|;
    assert k < |x| && x[k] != https[k];
    assert !HasPrefix(x, https);
    assert TrimPrefix(x, https) == x;
    assert x[..|x| - 4] == owner + "/" + repo && x[|x| - 4..] == ".git";
  }

  /** Trimming an https URL `https://github.com/<owner>/<repo>.git` leaves `<owner>/<repo>`. */
  lemma TrimmedHttpsUrl(owner: string, repo: string)
    ensures TrimmedRemote("https://github.com/" + owner + "/" + repo + ".git") == owner + "/" + repo
  {
    var ssh := "git@github.com:";
    var https := "https://github.com/";
    var x := owner + "/" + repo + ".git";
    assert https + owner + "/" + repo + ".git" == https + x;
    assert (https + x)[0] == 'h' && ssh[0] == 'g';
    assert TrimPrefix(https + x, ssh) == https + x;
    TrimPrefixConcat(https, x);
    TrimSuffixConcat(owner + "/" + repo, ".git");
  }

  /** A configuration cloned over ssh, `url = git@github.com:<owner>/<repo>.git`, gives the owner
      and the repository. */
  lemma SshCloneRemote(config: string, before: string, owner: string, repo: string, after: string)
    requires '/' !in owner && '/' !in repo
    requires UrlLine(config, before, "git@github.com:" + owner + "/" + repo + ".git", after)
    ensures RemoteDefined(Some(config)) && Remote(Some(config)) == (owner, repo)
  {
    TrimmedSshUrl(owner, repo);
    SplitOwnerRepo(owner, repo);
    RemoteOfUrlLine(config, before, "git@github.com:" + owner + "/" + repo + ".git", after, owner, repo);
  }

  /** A configuration cloned over https, `url = https://github.com/<owner>/<repo>.git`, gives the
      owner and the repository. */
  lemma HttpsCloneRemote(config: string, before: string, owner: string, repo: string, after: string)
    requires '/' !in owner && '/' !in repo
    requires UrlLine(config, before, "https://github.com/" + owner + "/" + repo + ".git", after)
    ensures RemoteDefined(Some(config)) && Remote(Some(config)) == (owner, repo)
  {
    TrimmedHttpsUrl(owner, repo);
    SplitOwnerRepo(owner, repo);
    RemoteOfUrlLine(config, before, "https://github.com/" + owner + "/" + repo + ".git", after, owner, repo);
  }

  /** The test owner and repository contain no `/`. */
  lemma JasmineSlashFree()
    ensures '/' !in "softleader" && '/' !in "softleader-jasmine"
  {
  }

  /** The ssh clone URL of the test configuration, taken apart. */
  lemma JasmineSshUrl()
    ensures "git@github.com:softleader/softleader-jasmine.git" == "git@github.com:" + "softleader" + "/" + "softleader-jasmine" + ".git"
  {
  }

  /** The https clone URL of the test configuration, taken apart. */
  lemma JasmineHttpsUrl()
    ensures "https://github.com/softleader/softleader-jasmine.git" == "https://github.com/" + "softleader" + "/" + "softleader-jasmine" + ".git"
  {
  }

  /** The remote URL of the ssh clone configuration gives the owner `softleader` and the
      repository `softleader-jasmine`. */
  lemma SoftleaderJasmineSsh(config: string, before: string, after: string)
    requires UrlLine(config, before, "git@github.com:softleader/softleader-jasmine.git", after)
    ensures RemoteDefined(Some(config)) && Remote(Some(config)) == ("softleader", "softleader-jasmine")
  {
    JasmineSlashFree();
    JasmineSshUrl();
    SshCloneRemote(config, before, "softleader", "softleader-jasmine", after);
  }

  /** The remote URL of the https clone configuration gives the same owner and repository. */
  lemma SoftleaderJasmineHttps(config: string, before: string, after: string)
    requires UrlLine(config, before, "https://github.com/softleader/softleader-jasmine.git", after)
    ensures RemoteDefined(Some(config)) && Remote(Some(config)) == ("softleader", "softleader-jasmine")
  {
    JasmineSlashFree();
    JasmineHttpsUrl();
    HttpsCloneRemote(config, before, "softleader", "softleader-jasmine", after);
  }

  /** What `Head` removes from the first line of `.git/HEAD`. */
  const HeadsRef: string := "ref: refs/heads/"

  /** `Head`: the first line of `.git/HEAD` with every `ref: refs/heads/` removed, or "" when the
      file cannot be read. */
  function Head(content: Option<string>): (branch: string)
    ensures content.None? ==> branch == ""
  {
    match content
    case None => ""
    case Some(head) =>
      var lines := Split(head, "\n");
      ReplaceAll(lines[0], HeadsRef, "")
  }

  /** The branch is a single line. */
  lemma HeadIsOneLine(content: Option<string>)
    ensures '\n' !in Head(content)
  {
    if content.Some? {
      var lines := Split(content.value, "\n");
      SplitPiecesLackSeparator(content.value, "\n");
      OccursAtChar(lines[0], '\n');
      IndexFindsFirst(lines[0], "\n");
      ReplaceAllChars(lines[0], HeadsRef, "");
    }
  }

  /** A checkout on a branch, whose HEAD reads `ref: refs/heads/<branch>` on its first line,
      gives that branch. */
  lemma HeadOfBranch(branch: string, rest: string)
    requires '\n' !in branch && !Contains(branch, HeadsRef)
    ensures Head(Some(HeadsRef + branch + "\n" + rest)) == branch
    ensures Head(Some(HeadsRef + branch)) == branch
  {
    var line := HeadsRef + branch;
    assert '\n' !in HeadsRef;
    assert '\n' !in line;
    FirstPiece(line, '\n', rest);
    assert HasPrefix(line, HeadsRef);
    assert Index(line, HeadsRef) == Some(0);
    assert line[|HeadsRef|..] == branch;
    ReplaceAllAt(line, HeadsRef, "", 0, branch);
    ReplaceAllWithoutPattern(branch, HeadsRef, "");
  }

  /** A detached checkout, whose HEAD holds a commit on its first line, gives that line. */
  lemma HeadOfDetached(commit: string, rest: string)
    requires '\n' !in commit && !Contains(commit, HeadsRef)
    ensures Head(Some(commit + "\n" + rest)) == commit
  {
    FirstPiece(commit, '\n', rest);
    ReplaceAllWithoutPattern(commit, HeadsRef, "");
  }
}
