/**
  The pre-release pipeline of the `s2i prerelease` command (cmd/s2i/prerelease.go): run the
  tests, give the image tag its pre-release, ship the image (with jib, with docker, or with jib
  and docker as the fallback), draft the GitHub pre-release, update the deployer's service and
  post to Slack. Every outside step (a Maven, jib or docker process, a GitHub, deployer or Slack
  call) is abstract: it is recorded in a trace, and whether it fails is given by `Failures`, by
  step and by the position at which it runs.
 */
module S2iPrerelease {
  import opened Wrappers
  import opened SemVer
  import opened DockerImage
  import opened JibAuth

  /** The steps of the pipeline. `TagPreRelease` marks the point at which the tag is given its
      pre-release; it is not an outside step and cannot fail. */
  datatype Step =
    | MvnTest | TagPreRelease
    | JibBuild | JibDockerBuild | MvnPackage | DockerBuild | DockerPush | DockerRmi
    | DraftPrerelease | UpdateService | SlackPost

  /** The error, if any, of an outside step run as the `n`-th step of the trace. */
  type Failures = (Step, nat) -> Option<string>

  /** A trace of steps and the error the pipeline returned. */
  datatype Exec = Exec(trace: seq<Step>, err: Option<string>)

  /** The options of the command that the pipeline reads. */
  datatype Config = Config(skipTests: bool, skipDraft: bool, serviceID: string, shipStrategy: int,
                           skipSlack: bool, stage: string)

  /** Run one outside step after the trace `t`. */
  function Do(f: Failures, t: seq<Step>, s: Step): Exec {
    Exec(t + [s], f(s, |t|))
  }

  /** The steps the jib path and the docker path can run. */
  const JibSteps: set<Step> := {JibBuild, JibDockerBuild, DockerPush, DockerRmi}
  const DockerSteps: set<Step> := {MvnPackage, DockerBuild, DockerPush, DockerRmi}

  /** `x` extends `t` with steps of `steps` only. */
  predicate AddsOnly(t: seq<Step>, x: seq<Step>, steps: set<Step>) {
    t <= x && forall k :: |t| <= k < |x| ==> x[k] in steps
  }

  /** A failure ends the pipeline: the error returned is that of the last step of the trace,
      which is one run after `t`. */
  predicate FailsLast(f: Failures, t: seq<Step>, x: Exec) {
    x.err.Some? ==> |x.trace| > |t| && x.err == f(x.trace[|x.trace| - 1], |x.trace| - 1)
  }

  /** Every image removal after `t` directly follows a push that succeeded, also after `t`. */
  predicate RmiAfterPush(f: Failures, t: seq<Step>, x: seq<Step>) {
    forall k :: |t| <= k < |x| && x[k] == DockerRmi ==>
      k > |t| && x[k - 1] == DockerPush && f(DockerPush, k - 1).None?
  }

  /** `dockerPublish`: push, and remove the local image only when the push succeeded. */
  function PublishSpec(f: Failures, t: seq<Step>): (x: Exec)
    ensures AddsOnly(t, x.trace, {DockerPush, DockerRmi}) && FailsLast(f, t, x)
    ensures RmiAfterPush(f, t, x.trace)
  {
    var push := Do(f, t, DockerPush);
    if push.err.Some? then push else Do(f, push.trace, DockerRmi)
  }

  /** `jibRelease`: with valid credentials jib builds and pushes by itself; otherwise jib builds
      into the local docker daemon and the image is published from there. */
  function JibSpec(f: Failures, t: seq<Step>, auth: Auth): (x: Exec)
    ensures AddsOnly(t, x.trace, JibSteps) && FailsLast(f, t, x)
    ensures RmiAfterPush(f, t, x.trace)
  {
    if auth.IsValid() then Do(f, t, JibBuild)
    else
      var build := Do(f, t, JibDockerBuild);
      if build.err.Some? then build
      else
        var x := PublishSpec(f, build.trace);
        assert x.trace[|t|] == JibDockerBuild;
        x
  }

  /** `dockerRelease`: package with Maven unless the Dockerfile is a multi-stage build, build the
      image, and publish it. */
  function DockerSpec(f: Failures, t: seq<Step>, multiStage: bool): (x: Exec)
    ensures AddsOnly(t, x.trace, DockerSteps) && FailsLast(f, t, x)
    ensures RmiAfterPush(f, t, x.trace)
  {
    var pkg := if multiStage then Exec(t, None) else Do(f, t, MvnPackage);
    if pkg.err.Some? then pkg
    else
      var build := Do(f, pkg.trace, DockerBuild);
      if build.err.Some? then build
      else
        var x := PublishSpec(f, build.trace);
        assert x.trace[|pkg.trace|] == DockerBuild;
        x
  }

  /** Two traces of steps that each keep the removal rule, one after the other, keep it. */
  lemma RmiAfterPushCompose(f: Failures, t: seq<Step>, y: seq<Step>, x: seq<Step>)
    requires t <= y <= x
    requires RmiAfterPush(f, t, y) && RmiAfterPush(f, y, x)
    ensures RmiAfterPush(f, t, x)
  {
    forall k | |t| <= k < |x| && x[k] == DockerRmi
      ensures k > |t| && x[k - 1] == DockerPush && f(DockerPush, k - 1).None?
    {
      if k < |y| {
        assert y[k] == x[k] && y[k - 1] == x[k - 1];
      }
    }
  }

  /** `ship`: strategy 1 is jib, strategy 2 is docker, and any other tries jib and falls back to
      docker when jib fails. */
  function ShipSpec(f: Failures, t: seq<Step>, strategy: int, auth: Auth, multiStage: bool): (x: Exec)
    ensures AddsOnly(t, x.trace, JibSteps + DockerSteps) && FailsLast(f, t, x)
    ensures RmiAfterPush(f, t, x.trace)
  {
    if strategy == 1 then JibSpec(f, t, auth)
    else if strategy == 2 then DockerSpec(f, t, multiStage)
    else
      var jib := JibSpec(f, t, auth);
      if jib.err.None? then jib
      else
        var x := DockerSpec(f, jib.trace, multiStage);
        RmiAfterPushCompose(f, t, jib.trace, x.trace);
        x
  }

  /** Strategy 1 runs only jib steps, strategy 2 only docker steps. */
  lemma ShipByStrategy(f: Failures, t: seq<Step>, auth: Auth, multiStage: bool)
    ensures ShipSpec(f, t, 1, auth, multiStage) == JibSpec(f, t, auth)
    ensures AddsOnly(t, ShipSpec(f, t, 1, auth, multiStage).trace, JibSteps)
    ensures ShipSpec(f, t, 2, auth, multiStage) == DockerSpec(f, t, multiStage)
    ensures AddsOnly(t, ShipSpec(f, t, 2, auth, multiStage).trace, DockerSteps)
  {
  }

  /** Any other strategy: when jib succeeds, nothing but jib runs; when it fails, docker runs
      after it and its outcome is the outcome of shipping: the jib error is discarded. Docker
      steps outside the shared publishing steps run only after jib failed. */
  lemma AutoShipFallsBack(f: Failures, t: seq<Step>, strategy: int, auth: Auth, multiStage: bool)
    requires strategy != 1 && strategy != 2
    ensures var jib := JibSpec(f, t, auth);
      var x := ShipSpec(f, t, strategy, auth, multiStage);
      && (jib.err.None? ==> x == jib)
      && (jib.err.Some? ==> jib.trace <= x.trace && x.err == DockerSpec(f, jib.trace, multiStage).err)
      && (Ran(t, x.trace, MvnPackage) || Ran(t, x.trace, DockerBuild) ==> jib.err.Some?)
  {
    var jib := JibSpec(f, t, auth);
    var x := ShipSpec(f, t, strategy, auth, multiStage);
    if jib.err.None? {
      assert forall k :: |t| <= k < |x.trace| ==> x.trace[k] in JibSteps;
    }
  }

  /** `jibRelease` with valid credentials runs only the jib build; without them it runs the
      local jib build, the push and the removal, in that order, as far as they succeed. */
  lemma JibReleaseSteps(f: Failures, t: seq<Step>, auth: Auth)
    ensures var x := JibSpec(f, t, auth);
      && (auth.IsValid() ==> x.trace == t + [JibBuild])
      && (!auth.IsValid() ==> x.trace[|t|..] <= [JibDockerBuild, DockerPush, DockerRmi] && |x.trace| > |t|)
  {
    var x := JibSpec(f, t, auth);
    if !auth.IsValid() {
      var build := Do(f, t, JibDockerBuild);
      if build.err.None? {
        var push := Do(f, build.trace, DockerPush);
        if push.err.Some? {
          assert x.trace[|t|..] == [JibDockerBuild, DockerPush];
        } else {
          assert x.trace[|t|..] == [JibDockerBuild, DockerPush, DockerRmi];
        }
      } else {
        assert x.trace[|t|..] == [JibDockerBuild];
      }
    }
  }

  /** `dockerRelease` runs Maven's package exactly when the Dockerfile is not a multi-stage
      build, and then as its first step. */
  lemma DockerPackagesUnlessMultiStage(f: Failures, t: seq<Step>, multiStage: bool)
    ensures var x := DockerSpec(f, t, multiStage);
      && (Ran(t, x.trace, MvnPackage) <==> !multiStage)
      && (!multiStage ==> x.trace[|t|] == MvnPackage)
  {
    var x := DockerSpec(f, t, multiStage);
    if !multiStage {
      assert x.trace[|t|] == MvnPackage;
    } else {
      var build := Do(f, t, DockerBuild);
      assert x.trace[|t|] == DockerBuild;
      forall k | |t| <= k < |x.trace|
        ensures x.trace[k] != MvnPackage
      {
        if k > |t| {
          assert PublishSpec(f, build.trace).trace == x.trace || x == build;
          assert x.trace[k] in {DockerPush, DockerRmi};
        }
      }
    }
  }

  /** Step `s` ran after `t` in the trace `x`. */
  predicate Ran(t: seq<Step>, x: seq<Step>, s: Step) {
    exists k :: |t| <= k < |x| && x[k] == s
  }

  /** A step ran after `t` exactly when it ran before `y` or after it. */
  lemma RanSplit(t: seq<Step>, y: seq<Step>, x: seq<Step>, s: Step)
    requires t <= y <= x
    ensures Ran(t, x, s) <==> Ran(t, y, s) || Ran(y, x, s)
  {
    if Ran(t, x, s) {
      var k :| |t| <= k < |x| && x[k] == s;
      if k < |y| {
        assert y[k] == s;
      }
    }
    if Ran(t, y, s) {
      var k :| |t| <= k < |y| && y[k] == s;
      assert x[k] == s;
    }
  }

  /** The steps before drafting, and the steps from drafting on. */
  const ShipPhase: set<Step> := {MvnTest, TagPreRelease} + JibSteps + DockerSteps
  const AnnouncePhase: set<Step> := {DraftPrerelease, UpdateService, SlackPost}

  /** The tests (unless skipped), the pre-release marker, and shipping. */
  function ShippedSpec(f: Failures, t: seq<Step>, c: Config, auth: Auth, multiStage: bool): (x: Exec)
    ensures AddsOnly(t, x.trace, ShipPhase) && FailsLast(f, t, x) && RmiAfterPush(f, t, x.trace)
  {
    var tested := if c.skipTests then Exec(t, None) else Do(f, t, MvnTest);
    if tested.err.Some? then tested
    else
      var marked := tested.trace + [TagPreRelease];
      var x := ShipSpec(f, marked, c.shipStrategy, auth, multiStage);
      RmiAfterPushCompose(f, t, marked, x.trace);
      assert x.trace[|tested.trace|] == TagPreRelease;
      x
  }

  /** The steps before drafting: the tests first unless skipped, and the pre-release marker
      exactly when they passed or were skipped, directly after them and before shipping. */
  lemma ShippedSteps(f: Failures, t: seq<Step>, c: Config, auth: Auth, multiStage: bool)
    ensures var x := ShippedSpec(f, t, c, auth, multiStage);
      var passed := c.skipTests || f(MvnTest, |t|).None?;
      var mark := if c.skipTests then |t| else |t| + 1;
      && (!c.skipTests ==> |x.trace| > |t| && x.trace[|t|] == MvnTest)
      && (passed ==> |x.trace| > mark && x.trace[mark] == TagPreRelease)
      && (passed ==> AddsOnly(x.trace[..mark + 1], x.trace, JibSteps + DockerSteps))
      && (!passed ==> x == Exec(t + [MvnTest], f(MvnTest, |t|)))
  {
    var x := ShippedSpec(f, t, c, auth, multiStage);
    var tested := if c.skipTests then Exec(t, None) else Do(f, t, MvnTest);
    if tested.err.None? {
      var marked := tested.trace + [TagPreRelease];
      assert x.trace[..|marked|] == marked;
    }
  }

  /** After shipping: draft the pre-release unless skipped, then update the service when one is
      named, then post to Slack unless skipped; the outcome of the Slack post is only logged. */
  function AnnounceSpec(f: Failures, t: seq<Step>, c: Config): (x: Exec)
    ensures AddsOnly(t, x.trace, AnnouncePhase) && FailsLast(f, t, x)
  {
    var drafted := if c.skipDraft then Exec(t, None) else Do(f, t, DraftPrerelease);
    if drafted.err.Some? then drafted
    else
      var updated := if c.serviceID == "" then drafted else Do(f, drafted.trace, UpdateService);
      if updated.err.Some? then updated
      else Exec(if c.skipSlack then updated.trace else updated.trace + [SlackPost], None)
  }

  /** The draft runs first unless skipped; the update runs exactly when the draft succeeded or
      was skipped and a service is named; Slack is posted to exactly when it is not skipped and
      nothing failed, and then last. */
  lemma AnnounceSteps(f: Failures, t: seq<Step>, c: Config)
    ensures var x := AnnounceSpec(f, t, c);
      && (Ran(t, x.trace, DraftPrerelease) <==> !c.skipDraft)
      && (!c.skipDraft ==> x.trace[|t|] == DraftPrerelease)
      && (Ran(t, x.trace, UpdateService) <==>
            (c.skipDraft || f(DraftPrerelease, |t|).None?) && c.serviceID != "")
      && (Ran(t, x.trace, SlackPost) <==> !c.skipSlack && x.err.None?)
      && (Ran(t, x.trace, SlackPost) ==> x.trace[|x.trace| - 1] == SlackPost)
  {
    AnnounceDrafts(f, t, c);
    AnnounceUpdates(f, t, c);
    AnnouncePosts(f, t, c);
  }

  lemma AnnounceDrafts(f: Failures, t: seq<Step>, c: Config)
    ensures var x := AnnounceSpec(f, t, c);
      && (Ran(t, x.trace, DraftPrerelease) <==> !c.skipDraft)
      && (!c.skipDraft ==> x.trace[|t|] == DraftPrerelease)
  {
    var w := AnnounceTrace(f, t, c);
    RanAppended(t, w, DraftPrerelease);
  }

  lemma AnnounceUpdates(f: Failures, t: seq<Step>, c: Config)
    ensures var x := AnnounceSpec(f, t, c);
      Ran(t, x.trace, UpdateService) <==> (c.skipDraft || f(DraftPrerelease, |t|).None?) && c.serviceID != ""
  {
    var w := AnnounceTrace(f, t, c);
    RanAppended(t, w, UpdateService);
  }

  lemma AnnouncePosts(f: Failures, t: seq<Step>, c: Config)
    ensures var x := AnnounceSpec(f, t, c);
      && (Ran(t, x.trace, SlackPost) <==> !c.skipSlack && x.err.None?)
      && (Ran(t, x.trace, SlackPost) ==> x.trace[|x.trace| - 1] == SlackPost)
  {
    var x := AnnounceSpec(f, t, c);
    var w := AnnounceTrace(f, t, c);
    RanAppended(t, w, SlackPost);
    if Ran(t, x.trace, SlackPost) {
      assert w[|w| - 1] == SlackPost;
    }
  }

  /** The steps `AnnounceSpec` adds, written out: the draft unless skipped, the update when the
      draft passed and a service is named, and the Slack post when nothing failed and it is not
      skipped. */
  lemma AnnounceTrace(f: Failures, t: seq<Step>, c: Config) returns (w: seq<Step>)
    ensures var x := AnnounceSpec(f, t, c);
      var d := if c.skipDraft then [] else [DraftPrerelease];
      var drafted := c.skipDraft || f(DraftPrerelease, |t|).None?;
      var u := if drafted && c.serviceID != "" then [UpdateService] else [];
      var updated := drafted && (c.serviceID == "" || f(UpdateService, |t| + |d|).None?);
      var sl := if updated && !c.skipSlack then [SlackPost] else [];
      && x.trace == t + w && w == d + u + sl
      && (x.err.None? <==> updated)
  {
    var x := AnnounceSpec(f, t, c);
    w := x.trace[|t|..];
    assert x.trace == t + w;
  }

  /** A step ran after `t` in `t + w` exactly when it is one of `w`. */
  lemma RanAppended(t: seq<Step>, w: seq<Step>, s: Step)
    ensures Ran(t, t + w, s) <==> s in w
  {
    if s in w {
      var k :| 0 <= k < |w| && w[k] == s;
      assert (t + w)[|t| + k] == s;
    }
  }

  /** `run`: the steps before drafting, then, when they succeeded, the announcing steps. */
  function RunSpec(f: Failures, t: seq<Step>, c: Config, auth: Auth, multiStage: bool): (x: Exec)
    ensures t <= x.trace
  {
    var shipped := ShippedSpec(f, t, c, auth, multiStage);
    if shipped.err.Some? then shipped else AnnounceSpec(f, shipped.trace, c)
  }

  /** No step of one phase ran in a trace that adds only steps of the other. */
  lemma NotRan(t: seq<Step>, x: seq<Step>, steps: set<Step>, s: Step)
    requires AddsOnly(t, x, steps) && s !in steps
    ensures !Ran(t, x, s)
  {
  }

  /** A failure ends the run: the error is that of the last step, and then Slack was not posted
      to; Slack is posted to exactly when the run succeeds and the post is not skipped. */
  lemma RunAbortsAtFailure(f: Failures, t: seq<Step>, c: Config, auth: Auth, multiStage: bool)
    ensures var x := RunSpec(f, t, c, auth, multiStage);
      && FailsLast(f, t, x)
      && (Ran(t, x.trace, SlackPost) <==> !c.skipSlack && x.err.None?)
  {
    var x := RunSpec(f, t, c, auth, multiStage);
    var shipped := ShippedSpec(f, t, c, auth, multiStage);
    NotRan(t, shipped.trace, ShipPhase, SlackPost);
    if shipped.err.None? {
      AnnounceSteps(f, shipped.trace, c);
      RanSplit(t, shipped.trace, x.trace, SlackPost);
    }
  }

  /** Every image removal in a run directly follows a push that succeeded. */
  lemma RunRemovesOnlyPushedImages(f: Failures, t: seq<Step>, c: Config, auth: Auth, multiStage: bool)
    ensures RmiAfterPush(f, t, RunSpec(f, t, c, auth, multiStage).trace)
  {
    var x := RunSpec(f, t, c, auth, multiStage);
    var shipped := ShippedSpec(f, t, c, auth, multiStage);
    if shipped.err.None? {
      assert RmiAfterPush(f, shipped.trace, x.trace);
      RmiAfterPushCompose(f, t, shipped.trace, x.trace);
    }
  }

  /** The pre-release is drafted exactly when the steps before it succeeded and the draft is not
      skipped, and then directly after shipping. */
  lemma RunDraftsAfterShipping(f: Failures, t: seq<Step>, c: Config, auth: Auth, multiStage: bool)
    ensures var x := RunSpec(f, t, c, auth, multiStage);
      var shipped := ShippedSpec(f, t, c, auth, multiStage);
      && (Ran(t, x.trace, DraftPrerelease) <==> shipped.err.None? && !c.skipDraft)
      && (shipped.err.None? && !c.skipDraft ==> x.trace[|shipped.trace|] == DraftPrerelease)
  {
    var x := RunSpec(f, t, c, auth, multiStage);
    var shipped := ShippedSpec(f, t, c, auth, multiStage);
    NotRan(t, shipped.trace, ShipPhase, DraftPrerelease);
    if shipped.err.None? {
      AnnounceSteps(f, shipped.trace, c);
      RanSplit(t, shipped.trace, x.trace, DraftPrerelease);
    }
  }

  /** The service is updated exactly when shipping succeeded, the draft succeeded or was skipped,
      and a service is named. */
  lemma RunUpdatesAfterDraft(f: Failures, t: seq<Step>, c: Config, auth: Auth, multiStage: bool)
    ensures var x := RunSpec(f, t, c, auth, multiStage);
      var shipped := ShippedSpec(f, t, c, auth, multiStage);
      && (Ran(t, x.trace, UpdateService) <==>
            && shipped.err.None?
            && (c.skipDraft || f(DraftPrerelease, |shipped.trace|).None?)
            && c.serviceID != "")
  {
    var x := RunSpec(f, t, c, auth, multiStage);
    var shipped := ShippedSpec(f, t, c, auth, multiStage);
    NotRan(t, shipped.trace, ShipPhase, UpdateService);
    if shipped.err.None? {
      AnnounceSteps(f, shipped.trace, c);
      RanSplit(t, shipped.trace, x.trace, UpdateService);
    }
  }

  /** Two failure oracles that agree on every step but the Slack post. */
  ghost predicate AgreeBesidesSlack(f1: Failures, f2: Failures) {
    forall s, n: nat :: s != SlackPost ==> f1(s, n) == f2(s, n)
  }

  /** Whether the Slack post fails makes no difference to the run. */
  lemma SlackFailureIgnored(f1: Failures, f2: Failures, t: seq<Step>, c: Config, auth: Auth, multiStage: bool)
    requires AgreeBesidesSlack(f1, f2)
    ensures RunSpec(f1, t, c, auth, multiStage) == RunSpec(f2, t, c, auth, multiStage)
  {
    var tested := if c.skipTests then Exec(t, None) else Do(f1, t, MvnTest);
    ShipIgnoresSlack(f1, f2, tested.trace + [TagPreRelease], c.shipStrategy, auth, multiStage);
    var shipped := ShippedSpec(f1, t, c, auth, multiStage);
    assert shipped == ShippedSpec(f2, t, c, auth, multiStage);
    assert f1(DraftPrerelease, |shipped.trace|) == f2(DraftPrerelease, |shipped.trace|);
    assert f1(UpdateService, |shipped.trace|) == f2(UpdateService, |shipped.trace|);
    assert f1(UpdateService, |shipped.trace| + 1) == f2(UpdateService, |shipped.trace| + 1);
  }

  lemma ShipIgnoresSlack(f1: Failures, f2: Failures, t: seq<Step>, strategy: int, auth: Auth, multiStage: bool)
    requires AgreeBesidesSlack(f1, f2)
    ensures ShipSpec(f1, t, strategy, auth, multiStage) == ShipSpec(f2, t, strategy, auth, multiStage)
  {
    JibIgnoresSlack(f1, f2, t, auth);
    DockerIgnoresSlack(f1, f2, t, multiStage);
    DockerIgnoresSlack(f1, f2, JibSpec(f1, t, auth).trace, multiStage);
  }

  lemma JibIgnoresSlack(f1: Failures, f2: Failures, t: seq<Step>, auth: Auth)
    requires AgreeBesidesSlack(f1, f2)
    ensures JibSpec(f1, t, auth) == JibSpec(f2, t, auth)
  {
    assert f1(JibBuild, |t|) == f2(JibBuild, |t|);
    assert f1(JibDockerBuild, |t|) == f2(JibDockerBuild, |t|);
    PublishIgnoresSlack(f1, f2, t + [JibDockerBuild]);
  }

  lemma DockerIgnoresSlack(f1: Failures, f2: Failures, t: seq<Step>, multiStage: bool)
    requires AgreeBesidesSlack(f1, f2)
    ensures DockerSpec(f1, t, multiStage) == DockerSpec(f2, t, multiStage)
  {
    assert f1(MvnPackage, |t|) == f2(MvnPackage, |t|);
    var pkg := if multiStage then t else t + [MvnPackage];
    assert f1(DockerBuild, |pkg|) == f2(DockerBuild, |pkg|);
    PublishIgnoresSlack(f1, f2, pkg + [DockerBuild]);
  }

  lemma PublishIgnoresSlack(f1: Failures, f2: Failures, t: seq<Step>)
    requires AgreeBesidesSlack(f1, f2)
    ensures PublishSpec(f1, t) == PublishSpec(f2, t)
  {
    assert f1(DockerPush, |t|) == f2(DockerPush, |t|);
    assert f1(DockerRmi, |t| + 1) == f2(DockerRmi, |t| + 1);
  }

  /** `prereleaseCmd`: the command's options, the image it ships, the jib credentials, whether
      the Dockerfile is a multi-stage build (from inspecting the working directory), and the
      trace of the steps it ran. */
  class PrereleaseCmd {
    const config: Config
    const lib: Library
    const fails: Failures
    const auth: Auth
    const multiStage: bool
    const image: SoftleaderHubImage
    var trace: seq<Step>

    constructor(config: Config, lib: Library, fails: Failures, auth: Auth, multiStage: bool,
                image: SoftleaderHubImage)
      ensures this.config == config && this.lib == lib && this.fails == fails
      ensures this.auth == auth && this.multiStage == multiStage && this.image == image
      ensures trace == []
    {
      this.config := config;
      this.lib := lib;
      this.fails := fails;
      this.auth := auth;
      this.multiStage := multiStage;
      this.image := image;
      trace := [];
    }

    /** Runs an outside step. */
    method Perform(s: Step) returns (err: Option<string>)
      modifies this
      ensures trace == old(trace) + [s] && err == fails(s, |old(trace)|)
    {
      err := fails(s, |trace|);
      trace := trace + [s];
    }

    /** `dockerPublish`. */
    method DockerPublish() returns (err: Option<string>)
      modifies this
      ensures Exec(trace, err) == PublishSpec(fails, old(trace))
    {
      err := Perform(DockerPush);
      if err.Some? {
        return;
      }
      err := Perform(DockerRmi);
    }

    /** `jibRelease`. */
    method JibRelease() returns (err: Option<string>)
      modifies this
      ensures Exec(trace, err) == JibSpec(fails, old(trace), auth)
    {
      if auth.IsValid() {
        err := Perform(JibBuild);
        return;
      }
      err := Perform(JibDockerBuild);
      if err.Some? {
        return;
      }
      err := DockerPublish();
    }

    /** `dockerRelease`. */
    method DockerRelease() returns (err: Option<string>)
      modifies this
      ensures Exec(trace, err) == DockerSpec(fails, old(trace), multiStage)
    {
      if !multiStage {
        err := Perform(MvnPackage);
        if err.Some? {
          return;
        }
      }
      err := Perform(DockerBuild);
      if err.Some? {
        return;
      }
      err := DockerPublish();
    }

    /** `ship`. */
    method Ship() returns (err: Option<string>)
      modifies this
      ensures Exec(trace, err) == ShipSpec(fails, old(trace), config.shipStrategy, auth, multiStage)
    {
      if config.shipStrategy == 1 {
        err := JibRelease();
        return;
      }
      if config.shipStrategy == 2 {
        err := DockerRelease();
        return;
      }
      err := JibRelease();
      if err.None? {
        return;
      }
      err := DockerRelease();
    }

    /** `run`. The tag is given its pre-release once the tests passed or were skipped; the image
        name never changes. */
    method Run() returns (err: Option<string>)
      modifies this, image
      ensures Exec(trace, err) == RunSpec(fails, old(trace), config, auth, multiStage)
      ensures image.Name == old(image.Name)
      ensures image.Tag == if !config.skipTests && fails(MvnTest, |old(trace)|).Some? then old(image.Tag)
                           else PreReleaseTag(lib, old(image.Tag), config.stage)
    {
      if !config.skipTests {
        err := Perform(MvnTest);
        if err.Some? {
          return;
        }
      }
      image.SetPreRelease(lib, config.stage);
      trace := trace + [TagPreRelease];
      err := Ship();
      if err.Some? {
        return;
      }
      if !config.skipDraft {
        err := Perform(DraftPrerelease);
        if err.Some? {
          return;
        }
      }
      if config.serviceID != "" {
        err := Perform(UpdateService);
        if err.Some? {
          return;
        }
      }
      if !config.skipSlack {
        var slackErr := Perform(SlackPost);
      }
      err := None;
    }
  }
}
