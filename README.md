# s2i: a Dafny model of the release core

`s2i` is Softleader's command-line tool for building, tagging and releasing its services. This project models its core and proves properties of that model:

- **GitHub tags and releases.** It deletes releases and their tags, by name or by expression, with a dry-run mode. It creates releases and pre-releases, and `--force` replaces an existing pre-release. It lists releases, by tag or by expression.
- **Tag matchers.** Regular expressions, Semantic Versioning 2.0.0 ranges, and the older exact-version matcher.
- **Helpers.**
  - The next release version after the latest release.
  - The owner, repository and branch of a local git checkout.
  - The Softleader registry image reference, its validity check, and setting its pre-release.
  - The jib registry credentials, and how they are found in a `Jenkinsfile`.
  - The Jenkins job filter.
  - The answer validators of the interactive questions, and the service searcher.
- **The `s2i prerelease` pipeline.** It runs the tests, sets the image's pre-release, and ships the image with jib, with docker, or with jib falling back to docker. It then drafts the GitHub pre-release, updates the deployer's service, and posts to Slack.

How the model is built:

- **The remote repository** (`GithubApi`) is a `Repository` class: a set of refs, a map from tag name to release, the next release id, and the record of calls made so far.
- **Call outcomes.** An `Oracle` may inject a failure into any call, by its position. Otherwise a lookup, a deletion or a creation is answered from the server's state:
  - 404 for a missing release (section 15.5.5 of RFC 9110);
  - 422 for a missing ref (section 15.5.21 of RFC 9110);
  - 422 with `{tag_name, already_exists}` for a duplicate release.
- **Listings.** The pages a tag or release listing returns are also given by the `Oracle`, by the call's position and the options it sends. They are not derived from the server's refs and releases (see "## Left out").
- **Client operations** (`GithubDelete`, `GithubCreate`, `GithubList`) are each two things:
  - a pure `...Spec` function of the server's state, about which the properties are proved;
  - a method that makes the same calls one at a time on a `Repository`. Its `ensures` says that it ends in exactly the state and error the function gives.
- **The pipeline** (`S2iPrerelease`) is a `PrereleaseCmd` class. Each outside step (Maven, jib, docker, GitHub, the deployer, Slack) is recorded in a trace. Whether a step fails is given by a `Failures` function of the step and its position. The properties are proved about the trace.
- **Uninterpreted libraries.**
  - Regular expressions (Go's RE2) are an `Engine`.
  - The two semver libraries (blang/semver and coreos/go-semver) are a `Library`: parsing a version, parsing a pre-release identifier, and parsing a range.
  - Version records and their printed form are concrete.
  - `Lawful(lib, lim)` says what a well-behaved library does within its number bounds `lim`: it produces only valid versions, and it parses the printed form of a valid version back to that version. The bounds are those of the library the source calls. `Blang` has uint64 components and numeric pre-release identifiers; it is used by pkg/docker/image.go and pkg/github/tag_matcher.go. `Coreos` has int64 components and keeps the pre-release as text; it is used by pkg/github/client.go. Lemmas that need this say so with `requires Lawful(lib, Blang)` or `requires Lawful(lib, Coreos)`.
- **The fixed patterns** `url = (.+)` and `-Djib.to.auth.username=(\w+)` / `-Djib.to.auth.password=(\w+)` are modelled exactly by `Regex.FindLiteralThenRun`.

## Model

Some source functions carry no contract of their own; the lemmas about them state their properties:
- `JenkinsJob.Job.Match` is stated by `MatchIsSomeField` and `MatchIgnoresFieldOrder`.
- `Prompt.IsYes` is stated by `IsYesOnValidAnswers`.
- `Prompt.AskYesNoBool` is stated by `YesNoBoolDefault`.
- `Prompt.Searcher` is stated by `SearcherIgnoresSpaces`, `SearcherIgnoresCase` and `SearcherBlankMatchesAll`.

| member | source | states |
|---|---|---|
| Regex.AnyMatch | pkg/github/client_delete.go:50-57 | true iff some expression of the list matches the string; false for an empty list |
| GithubApi.Server.GetReleaseByTag | pkg/github/client_delete.go:101 | records the lookup; a successful answer is the release stored under that tag |
| GithubApi.Server.DeleteRelease | pkg/github/client_delete.go:114 | records the call; refs are unchanged; releases only shrink, and releases with other ids stay; a failure changes nothing |
| GithubApi.Server.DeleteRef | pkg/github/client_delete.go:85 | records the call; releases are unchanged; at most that ref goes; it succeeds iff nothing is injected and the ref exists |
| GithubApi.Server.CreateRelease | pkg/github/client_create.go:21 | records the call; it succeeds iff nothing is injected and the tag has no release yet |
| GithubApi.Server.ListTags | pkg/github/client_delete.go:21 | records a tag listing with the options sent |
| GithubApi.Server.ListReleases | pkg/github/client_list.go:20 | records a release listing with the options sent |
| GithubApi.CallsPreserveValid | pkg/github/client_delete.go:101-114 | every call keeps releases keyed by their tag, with distinct ids below the next id |
| GithubApi.CreatedReleaseIsFresh | pkg/github/client_create.go:36-43 | a created release is stored under its tag, with the requested branch and pre-release flag, with a new id, and its tag ref exists |
| GithubApi.DeleteFoundRelease | pkg/github/client_delete.go:112-117 | deleting the id of the release found for a tag removes exactly that release |
| GithubDelete.Matching | pkg/github/client_delete.go:38-39 | the tags of a page that some expression matches: exactly those, and no others |
| GithubDelete.DeleteReleaseSpec | pkg/github/client_delete.go:99-120 | looks the release up; deletes it only when it is found and this is not a dry run; a 404 is no error; any other lookup error is returned unchanged; refs are never touched |
| GithubDelete.DeleteTagSpec | pkg/github/client_delete.go:82-98 | a dry run makes no call; otherwise deletes `tags/<tag>`; the error is returned iff the call failed with something other than a 422 |
| GithubDelete.DeleteReleaseAndTagSpec | pkg/github/client_delete.go:75-80 | only looks up and deletes, never lists; refs and releases only shrink |
| GithubDelete.DeleteAllSpec | pkg/github/client_delete.go:60-72 | the same, for a list of tags |
| GithubDelete.DeletePageSpec | pkg/github/client_delete.go:37-48 | only extends the call record, never with a tag listing |
| GithubDelete.ByRegexSpec | pkg/github/client_delete.go:12-35 | only extends the call record; its properties are proved in the `ByRegex` lemmas |
| GithubDelete.DeleteReleaseAndTagOrder | pkg/github/client_delete.go:75-80 | the release lookup comes first; a dry run makes only that call; the ref deletion, if any, is the last call and names `tags/<tag>`; there is none when the release step failed |
| GithubDelete.DeleteReleaseAndTagLookups | pkg/github/client_delete.go:75-80 | deleting one tag looks up that tag exactly once and no other |
| GithubDelete.DeleteReleaseAndTagFrame | pkg/github/client_delete.go:75-120 | deleting one tag leaves every other tag's release and ref untouched, and the repository valid |
| GithubDelete.DeleteAllLookups | pkg/github/client_delete.go:66-70 | tags are looked up in list order: all of them on success, a non-empty prefix of the list on failure |
| GithubDelete.DeleteAllFailFast | pkg/github/client_delete.go:66-70 | fail-fast: when it fails after looking up `j` tags, the first `j` tags followed by any other tags give the same state and error, so nothing after the failing tag is done; every tag not looked up is left as it was; the repository stays valid |
| GithubDelete.DryRunChangesNothing | pkg/github/client_delete.go:82-120 | a dry run leaves refs and releases unchanged and makes only release lookups |
| GithubDelete.DeleteReleaseAndTagNoFaults | pkg/github/client_delete.go:75-120 | with nothing injected, the release and the ref are gone, there is no error, and a later lookup answers 404 |
| GithubDelete.DeleteTwiceIsDeleteOnce | pkg/github/client_delete.go:75-120 | deleting a tag again gives no error and changes nothing more |
| GithubDelete.DeleteAllRemovesEverything | pkg/github/client_delete.go:60-72 | with nothing injected, every listed tag loses its release and its ref, with no error |
| GithubDelete.DeletePageDeletesMatching | pkg/github/client_delete.go:37-48 | deleting a page by expression equals deleting its matching tags in order |
| GithubDelete.DeletePageTouchesOnlyMatching | pkg/github/client_delete.go:38-43 | only matching tags are looked up, and only they can change |
| GithubDelete.DeletePageNoFaults | pkg/github/client_delete.go:37-48 | with nothing injected, deleting a page returns no error |
| GithubDelete.NoFaultsDryRunNoError | pkg/github/client_delete.go:60-72 | with nothing injected, a dry run returns no error |
| GithubDelete.AsWrittenListsWithoutOptions | pkg/github/client_delete.go:19-21 | as written, every tag listing is sent with no options |
| GithubDelete.ByRegexStopsAtLastPage | pkg/github/client_delete.go:28-30 | no listing follows a page without a next page; a finished run ended on such a page |
| GithubDelete.AsWrittenRepeatsFirstPage | pkg/github/client_delete.go:20-32 | as written, with a stationary listing whose first page has a next page, the loop never finishes |
| GithubDelete.ForwardedPagesFinish | pkg/github/client_delete.go:19-32 | sending the options, with next pages that increase and are bounded, the loop finishes |
| GithubDelete.ByRegexDryRunChangesNothing | pkg/github/client_delete.go:20-32 | a dry run by expression changes neither refs nor releases, however many pages it lists |
| GithubDelete.ByRegexTouchesOnlyMatching | pkg/github/client_delete.go:20-46 | on every page, a tag that no expression matches is left as it was, and the repository stays valid |
| GithubDelete.ByRegexStopsAtFailedListing | pkg/github/client_delete.go:21-24 | a tag listing that fails is the last call, and the operation fails with that listing's error |
| GithubDelete.ByRegexStopsAtFailedPage | pkg/github/client_delete.go:25-27 | a page whose deletion fails ends the operation with that deletion's error, in the state it left, and no tag listing follows |
| GithubDelete.ByRegexEndsForGood | pkg/github/client_delete.go:20-32 | once the operation has finished or failed, a larger page bound gives the same result, so no pass runs after a last page or a failure |
| GithubDelete.DeleteRelease | pkg/github/client_delete.go:99-120 | ends in the state and error of `DeleteReleaseSpec` |
| GithubDelete.DeleteTag | pkg/github/client_delete.go:82-98 | ends in the state and error of `DeleteTagSpec` |
| GithubDelete.DeleteReleaseAndTag | pkg/github/client_delete.go:75-80 | ends in the state and error of `DeleteReleaseAndTagSpec` |
| GithubDelete.DeleteReleasesAndTags | pkg/github/client_delete.go:60-72 | ends in the state and error of `DeleteAllSpec` |
| GithubDelete.DeletePageByRegex | pkg/github/client_delete.go:37-48 | ends in the state and error of `DeletePageSpec` |
| GithubDelete.DeleteReleasesAndTagsByRegex | pkg/github/client_delete.go:12-35 | ends in the state and status of `ByRegexSpec` |
| GithubCreate.IsTagNameAlreadyExists | pkg/github/client_create.go:65-72 | true iff some entry has field `tag_name` and code `already_exists` |
| GithubCreate.CreateReleaseSpec | pkg/github/client_create.go:10-27 | exactly one create call, for the tag on the branch; success iff nothing is injected and the tag is free, and then the release is not a pre-release; an injected error is returned as it is; a taken tag gives the 422 `{tag_name, already_exists}`; a failure changes nothing |
| GithubCreate.CreatePrereleaseSpec | pkg/github/client_create.go:30-63 | only extends the call record |
| GithubCreate.CreatePrereleaseCalls | pkg/github/client_create.go:36-58 | starts with a create call that marks a pre-release; at most two creates, first and last; success or an error that is not an ErrorResponse ends it after one call; without force nothing is deleted; a failed deletion ends it before the second create |
| GithubCreate.CreatePrereleaseRetries | pkg/github/client_create.go:44-58 | after any ErrorResponse, whatever its status and with or without force, the last call is a second create unless a forced deletion failed; with no deletion the calls are exactly the two creates and the error is the second create's |
| GithubCreate.CreatePrereleaseError | pkg/github/client_create.go:44-58 | no error after a first create that succeeds; an error that is not an ErrorResponse is returned as it is; a failed forced deletion returns its error; otherwise the second create's error is returned |
| GithubCreate.UnforcedConflictFails | pkg/github/client_create.go:55-58 | without force, on a taken tag, both creates fail, the 422 is returned, and nothing changes |
| GithubCreate.ForcedCreateReplacesRelease | pkg/github/client_create.go:49-58 | with force, on a taken tag, the old release goes and a new pre-release with a fresh id takes its place; no other tag changes |
| GithubCreate.CreateRelease | pkg/github/client_create.go:10-27 | ends in the state and error of `CreateReleaseSpec` |
| GithubCreate.CreatePrerelease | pkg/github/client_create.go:30-63 | ends in the state and error of `CreatePrereleaseSpec` |
| GithubList.MatchingLines | pkg/github/client_list.go:36-43 | one line per release whose name some expression matches, and only such lines |
| GithubList.MatchingLinesAppend | pkg/github/client_list.go:37-41 | the lines of two lists joined are the lines of each, in order |
| GithubList.ListReleasesByRegex | pkg/github/client_list.go:36-43 | logs exactly `MatchingLines` |
| GithubList.ByRegexListingSpec | pkg/github/client_list.go:11-34 | makes only release listings and changes no refs or releases; its other properties are proved in the `ByRegexListing` lemmas |
| GithubList.AsWrittenListsFirstPageForever | pkg/github/client_list.go:19-31 | as written, with a stationary listing whose first page has a next page, the loop never finishes and logs the first page once per pass |
| GithubList.ForwardedListingFinishes | pkg/github/client_list.go:18-31 | sending the options, with next pages that increase and are bounded, the listing finishes |
| GithubList.ByRegexListingEnds | pkg/github/client_list.go:19-31 | at most one listing per page of the bound; every listing but the last succeeded and reported a next page; it finishes iff the last listing reported no next page; it fails iff the last listing failed, and then with that listing's error |
| GithubList.ByRegexListingLogsListedPages | pkg/github/client_list.go:19-41 | the lines logged are the matching lines of each page listed, page after page |
| GithubList.ListReleaseSpec | pkg/github/client_list.go:46-68 | changes nothing; never returns a 404; logs at most one line per tag |
| GithubList.ListReleaseStopsAtMissing | pkg/github/client_list.go:53-66 | with nothing injected, logs the tags' releases in order up to the first tag with no release; that tag is the last looked up; no error |
| GithubList.ListReleaseStopsAtFirstMiss | pkg/github/client_list.go:53-66 | logs the tags' releases in order up to the first lookup that finds no release; that tag is the last looked up; the error is that lookup's when it failed with something other than a 404, and none otherwise |
| GithubList.ListReleaseByRegex | pkg/github/client_list.go:11-34 | ends in the state, lines and status of `ByRegexListingSpec` |
| GithubList.ListRelease | pkg/github/client_list.go:46-68 | ends in the state, lines and error of `ListReleaseSpec` |
| TagMatcher.RegexMatcher.Matches | pkg/github/tag_matcher.go:41-48 | true iff some compiled expression matches |
| TagMatcher.NewRegexMatcher | pkg/github/tag_matcher.go:23-33 | succeeds iff every expression compiles, keeping them in order; otherwise fails naming the first that does not |
| TagMatcher.SemVerMatcher.Matches | pkg/github/tag_matcher.go:73-79 | a tag that does not parse after stripping one `v` never matches |
| TagMatcher.NewSemVerMatcher | pkg/github/tag_matcher.go:51-65 | succeeds iff every range parses, and then stands for their OR; otherwise fails naming the first range that does not parse |
| TagMatcher.MatchesSomeRange | pkg/github/tag_matcher.go:51-79 | a matcher built from ranges matches a tag iff the tag, less one `v`, parses into one of the ranges |
| TagMatcher.LeadingVIsOptional | pkg/github/tag_matcher.go:74 | `vX.Y.Z` and `X.Y.Z` match alike, and they match iff the range includes the version |
| DeleteMatcher.NewRegexMatcher | pkg/github/client_delete_matcher.go:16-22 | every expression compiled, in order |
| DeleteMatcher.SemVerMatcher.Matches | pkg/github/client_delete_matcher.go:54-62 | true iff the tag, less one `v`, equals some version under precedence; false with no versions |
| DeleteMatcher.NewSemVerMatcher | pkg/github/client_delete_matcher.go:40-46 | every version parsed, in order |
| GithubClient.FindNextReleaseVersion | pkg/github/client.go:30-58 | "" when the token, owner or repository is empty; a lookup error is returned; otherwise it fails iff the tag, less one `v`, is not a version |
| SemVer.BumpPatch | pkg/github/client.go:51 | the patch plus one, wrapping at the int64 limit; pre-release and metadata cleared |
| GithubClient.NextVersionIsPatchBump | pkg/github/client.go:44-56 | with a library bounded as coreos/go-semver is (int64) and a patch below the int64 limit, the next version has a `v` iff the latest tag has one, and it parses to the latest version with its patch bumped |
| GithubClient.NextVersionExample | pkg/github/client.go:44-56 | `v1.2.3` gives `v1.2.4`, and `1.2.3` gives `1.2.4` |
| Regex.FindLiteralThenRun | pkg/github/client.go:69-74 | found iff the pattern `literal(class+)` occurs; the capture is non-empty and made of class characters |
| Regex.FindAtFirstOccurrence | pkg/github/client.go:69-74 | at the leftmost occurrence, the capture is the greedy run after the literal |
| GithubClient.Remote | pkg/github/client.go:61-83 | ("", "") when the config cannot be read or has no `url = ` line |
| GithubClient.RemoteIsFirstTwoSegments | pkg/github/client.go:74-82 | owner and repository are free of `/` and are the first two segments of the trimmed URL |
| GithubClient.SshCloneRemote | pkg/github/client.go:74-82 | a line `url = git@github.com:<owner>/<repo>.git` gives the owner and the repository |
| GithubClient.HttpsCloneRemote | pkg/github/client.go:74-82 | a line `url = https://github.com/<owner>/<repo>.git` gives the owner and the repository |
| GithubClient.SoftleaderJasmineSsh | pkg/github/client_test.go:50-68 | the test's ssh remote URL gives (`softleader`, `softleader-jasmine`) |
| GithubClient.SoftleaderJasmineHttps | pkg/github/client_test.go:80-101 | the test's https remote URL gives (`softleader`, `softleader-jasmine`) |
| GithubClient.Head | pkg/github/client.go:86-99 | "" when HEAD cannot be read |
| GithubClient.HeadIsOneLine | pkg/github/client.go:94-98 | the branch never contains a newline |
| GithubClient.HeadOfBranch | pkg/github/client.go:94-98 | `ref: refs/heads/<branch>` on the first line gives the branch |
| GithubClient.HeadOfDetached | pkg/github/client.go:94-98 | a commit on the first line gives that line |
| DockerImage.Reference | pkg/docker/image.go:39-41 | the reference starts with `hub.softleader.com.tw/` |
| DockerImage.ReferenceReadsBack | pkg/docker/image.go:39-41 | a name and a tag without `:` are read back from the reference |
| DockerImage.Check | pkg/docker/image.go:44-57 | valid iff neither name nor tag is blank and the tag, less one `v`, parses; a blank name is reported first, then a blank tag |
| DockerImage.SoftleaderHubImage.String | pkg/docker/image.go:39-41 | the reference starts with `hub.softleader.com.tw/`, and a name and a tag without `:` are read back from it |
| DockerImage.SoftleaderHubImage.CheckValid | pkg/docker/image.go:44-57 | valid iff neither name nor tag is blank and the tag, less one `v`, parses; a blank name is reported first, then a blank tag |
| DockerImage.PreReleaseTag | pkg/docker/image.go:19-36 | the tag is unchanged when it is not a version or the stage is not a pre-release identifier |
| DockerImage.PreReleaseTagVersion | pkg/docker/image.go:25-35 | otherwise the `v` is kept iff it was there, and the tag parses to the same version with exactly that one pre-release |
| DockerImage.PreReleaseTagIdempotent | pkg/docker/image.go:19-36 | setting the same pre-release twice is setting it once |
| DockerImage.PreReleaseKeepsValid | pkg/docker/image.go:19-57 | a valid image stays valid after setting a pre-release |
| DockerImage.SoftleaderHubImage.SetPreRelease | pkg/docker/image.go:19-36 | the name is unchanged, and the tag becomes `PreReleaseTag` of the old tag |
| JibAuth.Auth.IsValid | pkg/jib/build.go:40-42 | valid iff neither the user name nor the password is blank |
| JibAuth.GetAuth | pkg/jib/build.go:59-82 | empty when the `Jenkinsfile` cannot be read or names no user; the password is searched only after a user is found; both are words; valid iff both are found |
| JenkinsJob.AnyField | pkg/jenkins/client_job.go:37-43 | true iff the expression matches some field |
| JenkinsJob.MatchIsSomeField | pkg/jenkins/client_job.go:28-44 | the empty filter matches every job; a filter that does not compile matches none; otherwise it matches iff it matches the name, URL or color |
| JenkinsJob.MatchIgnoresFieldOrder | pkg/jenkins/client_job.go:36-43 | visiting the fields in any order gives the same answer |
| Prompt.ValidateRequired | pkg/prompt/prompt.go:45-50 | accepts exactly the text that is not blank |
| Prompt.ValidateYesNo | pkg/prompt/prompt.go:90-96 | accepts exactly y, yes, n and no, in any letter case |
| Prompt.Run | pkg/prompt/prompt.go:52 | an answer passes the validator; a valid first entry is the answer |
| Prompt.RunAnswersFirstAccepted | pkg/prompt/prompt.go:52 | the answer is an entry, and every entry before it was rejected text |
| Prompt.AskWith | pkg/prompt/prompt.go:41-54 | an answer passes the validator; on an error "" is written |
| Prompt.Ask | pkg/prompt/prompt.go:31-38 | with no validator, the first line typed is the answer; an interrupt or no entry is an error, and "" is written |
| Prompt.AskRequired | pkg/prompt/prompt.go:41-54 | an answer is never blank |
| Prompt.AskArrayRequired | pkg/prompt/prompt.go:57-74 | on an error the reference keeps its value; otherwise it is a non-blank answer split on the separator |
| Prompt.ArrayDefaultRoundTrip | pkg/prompt/prompt.go:60-72 | accepting the shown default, the defaults joined by the separator, gives back the defaults |
| Prompt.IsYesOnValidAnswers | pkg/prompt/prompt.go:92-99 | on an accepted answer, yes iff it starts with `y` or `Y` |
| Prompt.AskYesNo | pkg/prompt/prompt.go:85-101 | on an answer, the value is true iff the first accepted entry, one of y, yes, n and no in any case, starts with `y` or `Y`; false on an error |
| Prompt.YesNoBoolDefault | pkg/prompt/prompt.go:77-82 | accepting the shown default, `y` for true and `n` for false, answers the default |
| Prompt.Without | pkg/prompt/prompt.go:129-130 | the character is gone, and a string made only of it becomes empty |
| Prompt.ReplaceAllRemoves | pkg/prompt/prompt.go:129-130 | replacing a character by nothing everywhere removes it |
| Prompt.Squash | pkg/prompt/prompt.go:129-130 | the squashed text has no spaces |
| Prompt.SquashIdempotent | pkg/prompt/prompt.go:129-130 | squashing twice is squashing once |
| Prompt.SquashDropsSpace | pkg/prompt/prompt.go:129-130 | a space makes no difference to the squashed text |
| Prompt.SearcherIgnoresSpaces | pkg/prompt/prompt.go:127-132 | a space in the input does not change which services match |
| Prompt.SearcherIgnoresCase | pkg/prompt/prompt.go:127-132 | the letter case of the input does not change which services match |
| Prompt.SearcherBlankMatchesAll | pkg/prompt/prompt.go:127-132 | input of nothing but spaces matches every service |
| Prompt.AskServiceID | pkg/prompt/prompt.go:104-114 | with a default, the id is asked as free text with that default; when the lookup fails or finds nothing, it is asked as free text with no default |
| Prompt.ServiceIDDefaultSkipsLookup | pkg/prompt/prompt.go:107-109 | with a default, the deployer's answer makes no difference |
| Prompt.ServiceIDPick | pkg/prompt/prompt.go:116-139 | the first entry gives the empty id; entry i+1 gives the id of service i; a cancelled pick keeps the reference and returns the error |
| S2iPrerelease.PublishSpec | cmd/s2i/prerelease.go:227-232 | adds only a push and a removal; a failure is that of the last step; a removal directly follows a push that succeeded |
| S2iPrerelease.JibSpec | cmd/s2i/prerelease.go:203-213 | adds only jib steps; a failure is that of the last step; the removal rule holds |
| S2iPrerelease.DockerSpec | cmd/s2i/prerelease.go:215-225 | adds only docker steps; a failure is that of the last step; the removal rule holds |
| S2iPrerelease.ShipSpec | cmd/s2i/prerelease.go:187-201 | adds only jib or docker steps; a failure is that of the last step; the removal rule holds |
| S2iPrerelease.ShipByStrategy | cmd/s2i/prerelease.go:188-194 | strategy 1 runs only the jib path, and strategy 2 only the docker path |
| S2iPrerelease.AutoShipFallsBack | cmd/s2i/prerelease.go:197-200 | any other strategy: jib's success ends shipping; after a jib failure, docker runs and its result is returned, so jib's error is discarded; Maven packaging and the docker build run only after a jib failure |
| S2iPrerelease.JibReleaseSteps | cmd/s2i/prerelease.go:204-212 | with valid credentials, only the jib build; otherwise the local jib build, the push and the removal, in that order, as far as they succeed |
| S2iPrerelease.DockerPackagesUnlessMultiStage | cmd/s2i/prerelease.go:216-220 | Maven packaging runs iff the Dockerfile is not a multi-stage build, and then as the first step |
| S2iPrerelease.RmiAfterPushCompose | cmd/s2i/prerelease.go:227-232 | two traces that each keep the removal rule keep it when joined |
| S2iPrerelease.ShippedSpec | cmd/s2i/prerelease.go:156-165 | adds only test, marker and shipping steps; a failure is that of the last step; the removal rule holds |
| S2iPrerelease.ShippedSteps | cmd/s2i/prerelease.go:156-165 | the tests run first unless skipped; the pre-release is set iff they passed or were skipped, directly after them and before shipping; only shipping steps follow; a test failure ends the run |
| S2iPrerelease.AnnounceSpec | cmd/s2i/prerelease.go:167-184 | adds only draft, update and Slack steps; a failure is that of the last step |
| S2iPrerelease.AnnounceSteps | cmd/s2i/prerelease.go:167-184 | the draft runs first unless skipped; the update runs iff the draft succeeded or was skipped and a service is named; Slack is posted to iff not skipped and nothing failed, and then last |
| S2iPrerelease.RunSpec | cmd/s2i/prerelease.go:155-185 | only extends the trace |
| S2iPrerelease.RunAbortsAtFailure | cmd/s2i/prerelease.go:155-185 | a failed run returns the error of its last step, so nothing runs after a failure; Slack is posted to iff it is not skipped and the run succeeds |
| S2iPrerelease.RunRemovesOnlyPushedImages | cmd/s2i/prerelease.go:227-232 | throughout a run, every image removal directly follows a push that succeeded |
| S2iPrerelease.RunDraftsAfterShipping | cmd/s2i/prerelease.go:167-172 | the pre-release is drafted iff the steps before it succeeded and the draft is not skipped, and then directly after shipping |
| S2iPrerelease.RunUpdatesAfterDraft | cmd/s2i/prerelease.go:173-177 | the service is updated iff shipping succeeded, the draft succeeded or was skipped, and a service is named |
| S2iPrerelease.SlackFailureIgnored | cmd/s2i/prerelease.go:178-184 | whether the Slack post fails makes no difference to the run |
| S2iPrerelease.ShipIgnoresSlack | cmd/s2i/prerelease.go:187-201 | shipping does not depend on the Slack outcome |
| S2iPrerelease.PrereleaseCmd.DockerPublish | cmd/s2i/prerelease.go:227-232 | ends in the trace and error of `PublishSpec` |
| S2iPrerelease.PrereleaseCmd.JibRelease | cmd/s2i/prerelease.go:203-213 | ends in the trace and error of `JibSpec` |
| S2iPrerelease.PrereleaseCmd.DockerRelease | cmd/s2i/prerelease.go:215-225 | ends in the trace and error of `DockerSpec` |
| S2iPrerelease.PrereleaseCmd.Ship | cmd/s2i/prerelease.go:187-201 | ends in the trace and error of `ShipSpec` |
| S2iPrerelease.PrereleaseCmd.Run | cmd/s2i/prerelease.go:155-185 | ends in the trace and error of `RunSpec`; the image name is unchanged; the tag gets its pre-release unless the tests failed |

## Left out

- I/O is not modelled.
  - File reads (`.git/config`, `.git/HEAD`, `Jenkinsfile`) become `Option<string>` arguments.
  - Logging is not modelled, except the lines the listing commands log, which are returned.
  - The multi-stage Dockerfile check becomes a flag of `PrereleaseCmd`.
- Transport: the go-github HTTP client and the oauth2 token source (`newTokenClient`) are not modelled. A failure to build the client cannot happen in the source either.
- Subprocesses are not modelled: Maven, jib and docker (pkg/mvn, pkg/jib `Build`/`DockerBuild`, pkg/docker/docker.go). They are abstract steps of the pipeline, whose failures come from `Failures`.
- Network clients are not modelled: the deployer client (pkg/deployer), the Slack webhook (pkg/slack) and the Jenkins REST client. In `AskServiceID`, the deployer's answer is a `lookup` parameter.
- The regular-expression engine and the semver libraries are uninterpreted; range syntax is not modelled. The library error texts are parameters of `Message`.
- promptui is not modelled. The user's typing is a `Terminal`, a function from the prompt shown to the entries typed. A list pick is a `Selection`. Terminal rendering and the `Confirm` flows are not modelled.
- Strings.ToLower: folds ASCII letters only, because Go's full Unicode case mapping is not modelled.
- GithubDelete.ByRegexSpec: takes at most `fuel` pages, because the source loop is unbounded. When the bound runs out, the result is `Exhausted`, and `AsWrittenRepeatsFirstPage` shows that the code as written can need more than any bound.
- GithubList.ByRegexListingSpec: takes at most `fuel` pages, for the same reason.
- GithubClient.FindNextReleaseVersion: the latest-release lookup is an argument. The model shows that its answer is ignored when the token, owner or repository is empty, but it cannot show that no call is made.
- GithubClient.Remote: requires that the trimmed URL of a `url = ` line contains a `/`. Without one, the source indexes past the end of the split and panics.
- TagMatcher.SemVerMatcher.Matches: requires a range, or a tag that does not parse. A matcher built from no ranges holds a nil range, and calling it panics.
- DeleteMatcher.SemVerMatcher.Matches and DeleteMatcher.NewSemVerMatcher: require versions that parse, and DeleteMatcher.NewRegexMatcher requires expressions that compile, because `Must` and `MustCompile` panic.
- GithubApi.Server.ListTags and GithubApi.Server.ListReleases: the pages come from the `Oracle`, by call position and options, with no link to the server's refs and releases. A deletion does not shrink a later page, so what the delete-by-expression lemmas say about pages holds for whatever pages the service returns.
- SemVer.BumpPatch: wraps at the int64 limit as coreos/go-semver's fields do. `NextVersionIsPatchBump` therefore needs a patch below that limit.
- The client tests call `findRemoteOriginURL`, which is not part of this model.
  - The ssh and https scenarios are stated about `Remote`, on the URL line the test configurations hold.
  - The test that clones with a token is not stated: the `Remote` in pkg/github/client.go does not strip a token from the URL.
- Some callers in cmd/s2i do not match the signatures in pkg/github. For example, `CreatePrerelease` returns only an error, but cmd/s2i/prerelease.go:169 expects two results. The GitHub operations are modelled as the `pkg` code is written. In the pipeline, the draft is one abstract step (a release is not passed on to Slack), and so are the jib builds.
- The two tag-matcher files declare the same names in one package. They are two revisions, modelled as two modules, `TagMatcher` and `DeleteMatcher`.
- CLI wiring is not modelled: cobra commands and flags, the interactive `*_prompt.go` flows, the `cmd/depl` copy, version and offline checks. The pipeline's configuration is a `Config` value.

## Findings

| source | as written | input that shows it | evidently intended | confidence | as-written member | corrected member |
|---|---|---|---|---|---|---|
| pkg/github/client_delete.go:20-32 | the loop sets `opt.Page` but calls `ListTags` with `nil` options, so every pass asks for the first page again | a dry run over a repository with more tags than fit one page (or one whose first page stays full of tags no expression matches): the first page does not change and reports `NextPage != 0` on every pass, so the loop never ends | pass `opt` to `ListTags`, so that each pass lists the next page | not executed | GithubDelete.AsWrittenRepeatsFirstPage | GithubDelete.ForwardedPagesFinish |
| pkg/github/client_list.go:19-31 | the loop sets `opt.Page` but calls `ListReleases` with `nil` options, so every pass asks for the first page again and logs its releases again | a repository with more releases than fit one page: the listing never ends and repeats the first page's lines | pass `opt` to `ListReleases` | not executed | GithubList.AsWrittenListsFirstPageForever | GithubList.ForwardedListingFinishes |
