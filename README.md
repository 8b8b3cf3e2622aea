# Update checker, updater and version service: a Dafny model

This project models the self-update machinery of the `core` command-line
tool and the backend's version endpoint, and proves properties of the model
in Dafny.

- **Checker** (`internal/engine/update/checker.go`). It asks the release API
  for the latest release and strips one `v` from the tag. It then compares the
  tag with the running version by Semantic Versioning precedence and picks the
  platform binary and the checksum manifest from the release's assets.
  - HTTP and JSON decoding are function parameters.
  - `runtime.GOOS` and `runtime.GOARCH` become the `os` and `arch` arguments.
  - The semver library's parser is a `Parser` parameter. Precedence is defined
    in `SemVer` following section 11 of Semantic Versioning 2.0.0.
- **Updater** (`internal/engine/update/updater.go`). An `Updater` object
  downloads the binary to a temporary file, emitting progress events as it
  goes. Next it verifies the file against a `sha256sum`-style manifest, which
  can fail softly. Last it replaces the target binary.
  - The file system is a `FileSystem` object: a map of files, the next
    temporary name and a set of operations that fail.
  - The two servers are a `Network` value, which records what each URL
    answers.
  - SHA-256 is a function parameter.
  - The progress callback is modelled by the sequence `events` of every value
    passed to it.
  - The loops (`io.Copy` over the progress reader, the `parseChecksum` line
    scan) are `while` loops proved against specification functions.
- **In-memory version provider**
  (`internal/backend/service/version/memory_provider.go`). A class with the
  `latest` and `entries` fields, built by a loop over the list.
- **Version handler** (`internal/backend/api/version.go`). A pure routing
  function from verb, path and service answers to a status code, a JSON
  envelope and the service call made.

Go's `strings.TrimSpace`, `TrimRight`, `Fields`, `Split`, `HasPrefix`,
`HasSuffix` and `Contains`, and `filepath.Base` for slash-separated paths, are
defined in `GoStrings`.
Only the behaviour the core relies on is modelled.

Two behaviours of the code worth noting:

- `compareVersions` returns `(true, true)` whenever the current version does
  not parse, even when the latest one does not parse either.
- `verifyChecksum` fails hard when the manifest lists the file but the file
  cannot be opened or hashed, not only on a digest mismatch.

## Model

| member | source | states |
|---|---|---|
| Checker.NewChecker | internal/engine/update/checker.go:24-35 | a blank or white-space base URL becomes the default, any other configuration is kept unchanged, and the result's base URL is never blank |
| Checker.ReleaseURL | internal/engine/update/checker.go:81-83 | the URL is the base without trailing slashes, then `/repos/{owner}/{repo}/releases/latest` |
| Checker.ReleaseURLIgnoresTrailingSlashes | internal/engine/update/checker.go:81 | appending any number of slashes to the base URL leaves the request URL unchanged |
| Checker.AuthHeaders | internal/engine/update/checker.go:90-94 | the Authorization and Accept headers are sent exactly when the trimmed token is non-empty, and the bearer credential is the trimmed token |
| Checker.LatestReleaseRequest | internal/engine/update/checker.go:85-94 | the request is a GET of the release URL and carries an Authorization header iff the trimmed token is non-empty |
| Checker.GetLatestRelease | internal/engine/update/checker.go:96-112 | a transport failure is a network error; a non-200 status is an error with the status and body; a 200 reply whose body does not decode is a parse error; success happens iff the status is 200 and the body decodes, and then the result is the decoded release |
| Checker.ParseVersion | internal/engine/update/checker.go:116-122 | a tag starting with `v` loses exactly that character; any other tag is unchanged |
| Checker.ParseVersionStripsOne | internal/engine/update/checker.go:118-120 | only one leading `v` is removed (`"v" + s` gives `s`) |
| Checker.CompareVersions | internal/engine/update/checker.go:126-147 | an update is available iff the current version does not parse, or the latest parses with strictly higher precedence; the pair is compatible iff the current version does not parse or the latest parses |
| Checker.CompareSameVersion | internal/engine/update/checker.go:140 | a parseable version compared with itself offers no update and is compatible |
| Checker.CompareConsistentWithOrder | internal/engine/update/checker.go:140 | between parseable versions, at most one direction offers an update, and exactly one does unless the two have equal precedence |
| Checker.CompareTransitive | internal/engine/update/checker.go:140 | offering an update is transitive over parseable versions |
| Checker.CompareVersionsTable | internal/engine/update/checker_test.go:130-136 | the test table's verdicts, given a parser that reads those strings as semantic versions and rejects `dev` |
| Checker.PlatformMatchIsStem | internal/engine/update/checker.go:160-174 | an asset name matches one of the four patterns iff it contains `core-{os}-{arch}` |
| Checker.Patterns | internal/engine/update/checker.go:160-165 | the four name fragments tried for the platform binary: `core-{os}-{arch}` bare and with `.exe`, `.tar.gz` and `.zip` (their meaning is stated by PlatformMatchIsStem) |
| Checker.SelectedURL | internal/engine/update/checker.go:167-182 | reference definition: the URL of the last selected asset, or `""`; characterised by SelectedURLIsLastMatch |
| Checker.LastSelected | internal/engine/update/checker.go:167-180 | the chosen index selects its asset and no later asset is selected; there is no index iff no asset is selected |
| Checker.SelectedURLIsLastMatch | internal/engine/update/checker.go:167-182 | the chosen URL is `""`, or the URL of a selected asset after which no asset is selected; it is `""` when nothing is selected |
| Checker.OneAssetMaySetBoth | internal/engine/update/checker.go:167-180 | one asset named for the platform and containing `checksums`, listed last, supplies both URLs |
| Checker.FindAssetURLs | internal/engine/update/checker.go:150-183 | the loop returns the last asset matching the platform and the last asset containing `checksums` |
| Checker.Check | internal/engine/update/checker.go:38-64 | a fetch error is returned as is; otherwise every UpdateInfo field is the configured version, the stripped tag, the comparison verdict, the selected URLs or the release notes |
| Checker.CheckScenarioCompare | internal/engine/update/checker_test.go:57-65 | release `v1.2.0` against a running 1.0.0 reports latest `1.2.0` with an update available |
| SemVer.StrLessIrreflexive | internal/engine/update/checker.go:140 | lexical string order is irreflexive |
| SemVer.StrLessTransitive | internal/engine/update/checker.go:140 | lexical string order is transitive |
| SemVer.StrLessTotal | internal/engine/update/checker.go:140 | lexical string order is total on distinct strings |
| SemVer.IdentLessIrreflexive | internal/engine/update/checker.go:140 | pre-release identifier order is irreflexive |
| SemVer.IdentLessTransitive | internal/engine/update/checker.go:140 | pre-release identifier order is transitive |
| SemVer.IdentLessTotal | internal/engine/update/checker.go:140 | pre-release identifier order is total on distinct identifiers |
| SemVer.IdentsLessIrreflexive | internal/engine/update/checker.go:140 | identifier-list order is irreflexive |
| SemVer.IdentsLessTransitive | internal/engine/update/checker.go:140 | identifier-list order is transitive |
| SemVer.IdentsLessTotal | internal/engine/update/checker.go:140 | identifier-list order is total on distinct lists |
| SemVer.LessIrreflexive | internal/engine/update/checker.go:140 | no version has lower precedence than itself |
| SemVer.LessTransitive | internal/engine/update/checker.go:140 | precedence is transitive |
| SemVer.LessAsymmetric | internal/engine/update/checker.go:140 | of two versions, at most one precedes the other |
| SemVer.LessTrichotomy | internal/engine/update/checker.go:140 | two versions have equal precedence or exactly one precedes the other |
| SemVer.PrecedenceExamples | internal/engine/update/checker.go:140 | every link of the example chain of section 11 of Semantic Versioning 2.0.0 (alpha < alpha.1 < alpha.beta < beta < beta.2 < beta.11 < rc.1 < release), and 1.9.9 < 2.0.0 |
| Updater.Updater.constructor | internal/engine/update/updater.go:24-32 | a new updater keeps the configuration, has the no-op callback and has emitted nothing |
| Updater.Updater.SetProgressCallback | internal/engine/update/updater.go:35-37 | the callback is replaced |
| Updater.Updater.Apply | internal/engine/update/updater.go:40-93 | the result is the Apply outcome of the configuration, files, faults and servers; the events are the Apply trace; on error the files are unchanged; on success the target holds the downloaded bytes, is executable, and the temporary file is gone |
| Updater.Updater.VerifyAndReplace | internal/engine/update/updater.go:58-92 | verification (when a checksum URL is set), the verifying and replacing events, and selfupdate, all on the staged file; the deferred removal leaves the temporary file gone on both paths (removal is assumed to succeed, see Left out) |
| Updater.Updater.Download | internal/engine/update/updater.go:96-161 | the result is the download outcome on the server's reply; the events are the initial downloading event and one per chunk read; on error no file is left behind (removal is assumed to succeed, see Left out); on success the temporary file holds the whole body and is executable |
| Updater.Updater.CopyWithProgress | internal/engine/update/updater.go:130-152 | the copy loop appends the body's chunks, stopping at the first non-empty chunk when writes fail, emits the progress events of the chunks read, and touches only the output file; after a failed write the output file is as it was before the copy |
| Updater.ProgressReader.Read | internal/engine/update/updater.go:271-278 | Read returns the chunk's length, adds it to the running count, and reports the new count only when it read something |
| Updater.Updater.VerifyChecksum | internal/engine/update/updater.go:164-217 | the result is the checksum outcome on the manifest reply, the faults and the file on disk |
| Updater.ChecksumSoftFail | internal/engine/update/updater.go:165-196 | with no checksum URL, an unreachable manifest, a status other than 200, an unreadable body or no matching line, verification passes |
| Updater.ChecksumAcceptsListedDigest | internal/engine/update/updater.go:191-216 | a manifest line giving the file's true digest passes verification |
| Updater.ChecksumRejectsOtherDigest | internal/engine/update/updater.go:210-214 | against that line, a file with a different digest gets a checksum mismatch |
| Updater.ParseChecksum | internal/engine/update/updater.go:220-240 | the line scan returns the manifest lookup of the split content: the digest of the first entry line for the file, or `""` |
| Updater.LineEntry | internal/engine/update/updater.go:222-237 | a line yields a non-empty digest, if it yields one |
| Updater.FirstSomeIsFirst | internal/engine/update/updater.go:221-239 | the first present entry is found; the scan finds nothing iff no line is an entry |
| Updater.ManifestLookupFirstEntry | internal/engine/update/updater.go:221-239 | the lookup is `""` iff no line is an entry for the file; otherwise it is the digest of the first line that is one |
| Updater.ManifestRoundTrip | internal/engine/update/updater.go:220-240 | the manifest line `digest, spaces or tabs, file name, newline` is read back as that digest |
| Updater.InstallTraceShape | internal/engine/update/updater.go:60-91 | after a staged download, only verification or replacement can fail; success emits `verifying` when a checksum URL is set, then `replacing` and `complete`; a failed verification emits only `failed`; a failed replacement emits `failed` after `replacing` |
| Updater.ApplyTraceSteps | internal/engine/update/updater.go:49-57 | past the configuration checks, a failed download ends Apply with `failed` and the download error; a complete download continues with installation on the staged files |
| Updater.ApplyTraceShape | internal/engine/update/updater.go:40-93 | a configuration error emits nothing; a successful run is downloading events, then `verifying` only when a checksum URL is set, then `replacing` and `complete`; a failed download or verification is downloading events then one `failed` event; a failed replacement is downloading events, `verifying` when a checksum URL is set, `replacing`, then one `failed` event; every `failed` event carries the cause |
| Updater.ReplaceOnlyAfterVerification | internal/engine/update/updater.go:40-86 | an Apply that reaches the replacement step, whether it succeeds or the replacement fails, had a complete download and, when a checksum URL is set, a passing verification |
| Updater.DownloadTraceDownloading | internal/engine/update/updater.go:96-146 | every event download emits is in the downloading stage |
| Updater.ProgressEvents | internal/engine/update/updater.go:137-146 | reference definition: one downloading event per non-empty chunk read, carrying the running byte count; characterised by ProgressEventsBounded, ProgressEventsIncreasing and ProgressPercentBounds |
| Updater.ProgressEventsBounded | internal/engine/update/updater.go:137-146 | each progress event reports a byte count in (0, body length], the last reports the whole body, and there are none iff the body is empty |
| Updater.ProgressEventsIncreasing | internal/engine/update/updater.go:271-278 | the byte counts of successive progress events strictly increase |
| Updater.ProgressPercentBounds | internal/engine/update/updater.go:139 | with a known size that the body does not exceed, every percent is in [0, 100], and the last is 100 when the body fills the size |
| Updater.DownloadCompletesAt100 | internal/engine/update/updater.go:130-160 | a successful download of a known-size body ends with a 100 percent event |
| Updater.PercentAsWritten | internal/engine/update/updater.go:139 | the percent formula as written: Go's truncating quotient of `done * 100` by the announced size, with no guard |
| Updater.Percent | internal/engine/update/updater.go:139 | the guarded percent: 0 for an unknown size; otherwise the source's formula, which lies in [0, 100] while the count is within the size and is 100 at the size |
| Updater.UnknownLengthPercentAsWritten | internal/engine/update/updater.go:139 | the unguarded formula with Content-Length -1 reports -500 percent for 5 bytes |
| Updater.InstalledChangesOnlyTarget | internal/engine/update/updater.go:243-261 | installing into an existing target changes only that file |
| Updater.DownloadSucceeds | internal/engine/update/updater.go:101-160 | with no faults, a fresh temporary name and an uninterrupted 200 reply, download succeeds |
| Updater.InstallSucceeds | internal/engine/update/updater.go:60-92 | with no faults, a fetched manifest listing the staged file's digest for the target, and an existing target, installation succeeds |
| Updater.EndToEndApply | internal/engine/update/updater.go:40-93 | with no faults and a manifest listing the body's digest, Apply succeeds and installs the body as an executable target |
| Updater.FileSystem.CreateTemp | internal/engine/update/updater.go:102-107 | a fresh empty file at the next temporary name, or failure leaving the files unchanged |
| Updater.FileSystem.Create | internal/engine/update/updater.go:123-127 | the file is truncated and keeps its mode |
| Updater.FileSystem.Append | internal/engine/update/updater.go:149 | a write appends to an existing file, or fails and changes nothing |
| Updater.FileSystem.Chmod | internal/engine/update/updater.go:155-158 | the file becomes executable, or the call fails and changes nothing |
| Updater.Updater.Emit | internal/engine/update/updater.go:52-90 | each `u.progress(...)` call appends its value to the recorded events and changes nothing else |
| Updater.DownloadOutcome | internal/engine/update/updater.go:101-160 | reference definition of how download ends: temp-file, request, status, output-file, write and chmod errors in the source's order, or success |
| Updater.DownloadTrace | internal/engine/update/updater.go:97-146 | reference definition of download's events: the initial downloading event, then the progress events once streaming starts |
| Updater.ChecksumOutcome | internal/engine/update/updater.go:164-217 | reference definition of verifyChecksum: soft passes without a URL, on an unreachable manifest, a non-200 status, an unreadable body or no entry; otherwise open, hash and mismatch errors |
| Updater.ReplaceOutcome | internal/engine/update/updater.go:243-261 | reference definition of replace: an open error for a missing source, a library error for a missing target or an injected fault, or success |
| Updater.ApplyOutcome | internal/engine/update/updater.go:40-93 | reference definition of Apply's result: the two configuration checks, then download, then installation |
| Updater.InstallOutcome | internal/engine/update/updater.go:60-86 | reference definition of the steps after download: verification when a checksum URL is set, then replacement |
| Updater.ApplyTrace | internal/engine/update/updater.go:40-93 | reference definition of Apply's events: nothing for a configuration error, the download trace, then `failed` or the installation trace |
| Updater.InstallTrace | internal/engine/update/updater.go:60-91 | reference definition of the events after download, by how installation ends |
| Updater.FileSystem.Remove | internal/engine/update/updater.go:112 | the file is gone |
| Updater.FileSystem.ReadForHash | internal/engine/update/updater.go:199-208 | the file's content, or an open or hash error |
| Updater.FileSystem.SelfUpdate | internal/engine/update/updater.go:243-261 | on success the target holds the source's content and is executable; on failure nothing changes |
| VersionProvider.InMemoryProvider.constructor | internal/backend/service/version/memory_provider.go:19-30 | the table is the list inserted front to back (a later duplicate wins), and latest is the last listed version |
| VersionProvider.InMemoryProvider.Latest | internal/backend/service/version/memory_provider.go:33-49 | no error iff latest is non-empty and stored, and then the entry stored under it; otherwise errNoVersions |
| VersionProvider.InMemoryProvider.Get | internal/backend/service/version/memory_provider.go:52-64 | never an error; found iff the version is stored, and then its entry |
| VersionProvider.EntriesOf | internal/backend/service/version/memory_provider.go:24-27 | reference definition: the table the list builds, inserting front to back; characterised by EntriesOfKeys and EntriesOfLastWins |
| VersionProvider.LatestOf | internal/backend/service/version/memory_provider.go:24-27 | reference definition: the last listed version, `""` for the empty list; characterised by LatestIsLastListed |
| VersionProvider.EntriesOfKeys | internal/backend/service/version/memory_provider.go:24-27 | the table holds exactly the listed versions |
| VersionProvider.EntriesOfLastWins | internal/backend/service/version/memory_provider.go:24-27 | each version maps to its last occurrence in the list |
| VersionProvider.LatestIsLastListed | internal/backend/service/version/memory_provider.go:24-27 | latest is the last entry's version, and its stored entry is that last entry |
| VersionProvider.LatestOfBuiltTable | internal/backend/service/version/memory_provider.go:19-49 | Latest on a built provider succeeds iff the list is non-empty and its last version is non-empty, and then returns the last entry |
| VersionProvider.GetOfBuiltTable | internal/backend/service/version/memory_provider.go:19-64 | Get on a built provider never fails and finds exactly the listed versions, returning their last occurrence |
| VersionProvider.SingleEntryProvider | internal/backend/service/version/service_test.go:8-43 | the one-entry provider is found by Latest and by Get, and `9.9.9` is missing without an error |
| VersionApi.ServeHTTP | internal/backend/api/version.go:15-54 | reference definition of the handler: the code, the envelope and the service call for a verb, a path and the service's answers; characterised by the lemmas below |
| VersionApi.ResponsesWellFormed | internal/backend/api/version.go:15-54 | every response is 200 with status `ok` and data, or 404, 405 or 500 with status `error` and a message |
| VersionApi.OnlyGetConsults | internal/backend/api/version.go:16-19 | any verb other than GET gets 405, and only GET consults the service |
| VersionApi.LatestPathUsesLatest | internal/backend/api/version.go:22-30 | the latest path calls Latest only: 200 with its entry, or 500 `failed to load latest version` |
| VersionApi.VersionPathUsesGet | internal/backend/api/version.go:37-53 | a non-empty version under the prefix calls Get with that version: 500 on error, 404 `version not found` on a miss, or 200 with the entry |
| VersionApi.OtherPathsNotFound | internal/backend/api/version.go:32-41 | a path outside the prefix, or the bare prefix, is 404 `not found` without a call |
| VersionApi.ProviderRoutes | internal/backend/api/version.go:43-53 | served by an in-memory provider, a version route is never 500: 200 for a listed version, 404 otherwise |
| VersionApi.HandlerScenarios | internal/backend/api/version_test.go:12-90 | the handler tests: latest and listed versions give 200 with their entries, and an unlisted version gives 404 |

## Left out

- HTTP transport, timeouts, request construction errors and JSON decoding. These are parameters (`fetch`, `decode`) or server replies (`Network`).
- Go error message texts and `%w` wrapping. Errors are datatypes that keep the cause and the step that failed.
- The `fmt.Printf` warnings on the checksum soft-fail paths. They are output only.
- SHA-256 and the `%x` hex formatting. Together they are the parameter `sha256: seq<byte> -> string`.
- The internals of the `selfupdate` library. The model replaces the target in one step that either succeeds completely or changes nothing.
- The semver library's string syntax. It is the `Parser` parameter; only precedence is defined here.
- The read mutex and the ignored `ctx` of the provider. The model is single-threaded.
- The identity of the progress callback. `events` records every value passed to the callback, whichever callback is installed.
- The 64-bit width of byte counters. Counts are unbounded integers, since a 2^63-byte download is out of reach.
- `defer` closing of files and response bodies. Closing has no effect in a map-of-files model.
- `Checker.CompareVersions`: the major-version compatibility rule mentioned in the comment at checker.go:142-144 is not implemented in the source, so `compatible` is just "the latest version parses".
- `Updater.Percent`: the model guards the unknown-length case (see Findings). A Content-Length of 0 with a non-empty body would divide by zero in the source; the model gives that case 0 as well.
- `Updater.FileSystem.Remove`: removal always succeeds. The source ignores the errors of `os.Remove` (updater.go:58, 112, 118, 126, 150, 157). So the claims that a failed download leaves no file behind, and that Apply leaves no temporary file, hold only under this assumption.
- `GoStrings.Base`: splits paths on `/` only. On Windows, Go's `filepath.Base` also splits on `\` and drops volume names, so the manifest lookup key for a Windows target path can differ from the model's.
- `Updater.Updater.Download`: `io.Copy` is modelled as reading whole chunks and writing each non-empty chunk in one write. Short writes and read errors coming from the body are not modelled, except for an interrupted body, which reads as a copy error.

## Findings

| source | as written | input that shows it | evidently intended | confidence | as-written member | corrected member |
|---|---|---|---|---|---|---|
| internal/engine/update/updater.go:139 | `percent := int((downloaded * 100) / totalSize)` with no check of `totalSize` | a response without Content-Length (`resp.ContentLength == -1`) after 5 bytes reports percent -500 | report 0 percent while the size is unknown, and a percent in [0, 100] otherwise | not executed | Updater.UnknownLengthPercentAsWritten | Updater.Percent |
