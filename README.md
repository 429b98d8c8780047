# kev-to-dependencytrack, modelled in Dafny

kev-to-dependencytrack keeps a Dependency-Track policy in line with CISA's
catalog of Known Exploited Vulnerabilities (KEV). This project models the
program's core and proves properties of it.

- **The KEV cache** (`kev/db.go`) is a cache directory holding two files:
  `kev.json` with the catalog and `kev_downloaded_at` with the download time
  in RFC 3339. `needsUpdate` decides whether the cache is stale, `download`
  fetches the catalog and writes both files, and `read` returns the catalog
  bytes. The model keeps the same steps over a file system object
  (`Files.FileSystem`, a map from path to bytes plus the directories and the
  paths that cannot be read or written), an injected clock (`KevDb.Clock`)
  and the HTTP reply given as a value (`KevDb.Response`). Each method is
  proved equal to a function of the disk before the call. The cache's
  promises are lemmas about those functions: the staleness rule and its
  strict 24-hour boundary, the error cases, the write order, and freshness
  right after a download.
- **RFC 3339** (`Rfc3339`). Go's `time.Format(time.RFC3339)` is written
  out, down to the proleptic Gregorian calendar. `time.Parse(time.RFC3339, …)`
  is written out as Go runs it: the fast path for this layout first and, when
  that refuses the text, the general layout parser. The general parser also
  accepts a one-digit hour, a comma before the fraction and zone offsets of
  24 hours or 60 minutes. The round trip `Parse(Format(t)) == t` truncated to
  the second is proved, so the freshness argument needs no assumption about
  the time format.
- **KEV initialisation** (`kev/kev.go`). `Kev.Kev.Init` runs the cache's
  steps in order: `needsUpdate`, then `download` if the cache is stale, then
  `read` and decode. It records each step it calls in a ghost trace and sets
  the catalog field only on full success. `Kev.InitSteps` states the same
  sequence against any answers the cache might give, the way the Go test's
  mock does. The sequencing properties are proved about it.
- **The catalog** (`kev/catalog.go`). `VulnerabilitiyIDs` is a loop proved
  equal to `KevCatalog.CveIDs`. It keeps order, length and duplicates.
- **Configuration** (`config/config.go`): `New` and the ordered checks of
  `Validate`.
- **The Dependency-Track adapter** (`dependencytrack/dependencytrack.go`).
  `IsNotFound`, `NeedsUpdatePolicy`, the first-match searches
  `GetPolicyForName` and `GetProjectForNameVersion`, `GetProjectsForName`,
  and `CreatePolicy` with its create-then-update workaround for
  DependencyTrack/dependency-track#2365. They run against `Dtrack.Server`, a
  stand-in server with the signatures of the `DependencyTrackClient`
  interface. It holds policies and projects, fails the endpoints it is told
  to fail, logs every request that changes something, and, like the real
  server, ignores the operator and violation state of a create request.

Three details of the code that the model keeps:

- `needsUpdate` reports an error, with `false`, when the timestamp file
  exists but cannot be read.
- `download` fails on a nil body only. A 200 reply with an empty body is
  written to the cache.
- The two files are not written together. When only the timestamp write
  fails, the new catalog stays on disk beside the old timestamp
  (`KevDb.CatalogWrittenFirst`). Any failed download leaves the timestamp
  file as it was (`KevDb.StampWrittenLast`).

## Model

| member | source | states |
|---|---|---|
| KevDb.Join | kev/db.go:78-84 | the path ends with the file name and starts with the cache directory (just the name for an empty directory) |
| KevDb.FilePaths | kev/db.go:78-84 | `kev.json` and `kev_downloaded_at` lie directly inside the cache directory, after a `/`; an empty cache directory gives the bare file names |
| KevDb.PathsDistinct | kev/db.go:16-17 | `kev.json` and `kev_downloaded_at` in one directory are two different paths, and neither is the directory |
| KevDb.StampBytes | kev/db.go:113-114 | the bytes written to the timestamp file read back as the RFC 3339 text of the clock time |
| KevDb.ToBytes | kev/db.go:114 | `[]byte(date)` of ASCII text has one byte per character, each with the character's code |
| KevDb.FromBytes | kev/db.go:135 | `string(b)` keeps the length and maps each byte to the character with the same code |
| Files.StatOf | kev/db.go:122-128 | `os.Stat` succeeds exactly when a file or directory exists at the path |
| Files.ReadFileOf | kev/db.go:130-133 | `os.ReadFile` succeeds exactly on a readable regular file, and returns its bytes |
| Files.WriteFileOf | kev/db.go:109-116 | `os.WriteFile` fails on a directory or an unwritable path; otherwise exactly that path now holds the data |
| Files.MkdirAllOf | kev/db.go:105-107 | on the flat disk, `os.MkdirAll` succeeds on an existing directory or on a non-empty path that is no file and may be written, and then adds only that directory |
| Files.ReadAfterWrite | kev/db.go:109-116 | a file just written reads back as the data written |
| Files.WriteLeavesOthers | kev/db.go:109-116 | writing one path changes what no other path reads or stats |
| Files.WriteKeepsDiskValid | kev/db.go:109-116 | a successful `os.WriteFile` keeps every path either a file or a directory, never both |
| Files.MkdirAllKeepsDiskValid | kev/db.go:105-107 | a successful `os.MkdirAll` keeps every path either a file or a directory, never both |
| Files.ReadOfValidFile | kev/db.go:132-137 | on a disk where no path is both, a readable file reads as its content |
| Files.FileSystem.Stat | kev/db.go:122-128 | equals `StatOf` on the current disk |
| Files.FileSystem.ReadFile | kev/db.go:130-133 | equals `ReadFileOf` on the current disk |
| Files.FileSystem.WriteFile | kev/db.go:109-116 | the disk becomes `WriteFileOf`'s result on success; on failure it is unchanged and the error is returned |
| Files.FileSystem.MkdirAll | kev/db.go:105-107 | the disk becomes `MkdirAllOf`'s result on success; on failure it is unchanged and the error is returned |
| KevDb.NeedsUpdateOf | kev/db.go:121-146 | an error always comes with `false` |
| KevDb.StaleWithoutCatalog | kev/db.go:122-124 | without `kev.json` the cache is stale with no error, whatever the timestamp file holds |
| KevDb.StaleWithoutStamp | kev/db.go:126-128 | with `kev.json` but without the timestamp file, the cache is stale with no error |
| KevDb.StaleWithBadStamp | kev/db.go:135-139 | a timestamp that `time.Parse` refuses, on the fast path and on the general parser, makes the cache stale with no error |
| KevDb.FreshWithShortHourStamp | kev/db.go:130-145 | a timestamp with a one-digit hour, which only the general parser reads, still dates the catalog: within 24h of it the cache is fresh |
| KevDb.StaleAfterADay | kev/db.go:141-145 | with a well-formed timestamp `t`, the cache is stale exactly when `now - t` exceeds 24 hours, with no error |
| KevDb.ThresholdBoundary | kev/db.go:141-145 | elapsed 0 and exactly 24h are fresh; 24h plus 1ns is stale |
| KevDb.NeedsUpdateErrors | kev/db.go:121-146 | an error happens exactly when both files stat but the timestamp cannot be read, and it is `(false, err)` with the read error |
| KevDb.DownloadOf | kev/db.go:86-119 | only a readable 200 reply can succeed; a download never changes permissions or removes a file or directory, creates at most the cache directory, and changes no file but the two cache files |
| KevDb.DownloadFetchErrors | kev/db.go:87-103 | a failed request, a non-200 status, a nil body or an unreadable body each give their own error and leave the disk untouched |
| KevDb.DownloadSucceeds | kev/db.go:86-119 | success exactly when the reply is a readable 200 and the directory and both files can be written; then the disk gains exactly the directory, the body in `kev.json` and the stamp in `kev_downloaded_at` |
| KevDb.StampWrittenLast | kev/db.go:109-116 | a download that fails leaves the timestamp file as it was |
| KevDb.CatalogWrittenFirst | kev/db.go:109-116 | when only the timestamp write fails, the error is returned with `kev.json` already holding the new body and the timestamp file unchanged |
| KevDb.DownloadStores | kev/db.go:105-116 | after a successful download, `kev.json` holds the body and the timestamp file holds the clock time in RFC 3339 |
| KevDb.FreshAfterDownload | kev/db.go:113-116 | after a successful download at `now`, the cache goes stale only once more than 24h have passed since `now` truncated to the second |
| KevDb.FreshWhenStamped | kev/db.go:135-145 | a cache stamped with the RFC 3339 text of `now` goes stale exactly 24h after `now` truncated to the second |
| KevDb.FreshRightAfterDownload | kev/db.go:109-145 | `needsUpdate` right after a successful download answers `(false, nil)` |
| KevDb.DownloadTestCase | kev/db_test.go:14-74 | a 200 reply downloaded at 2019-10-01T00:00:00 UTC into an existing directory succeeds, storing the body and the text `2019-10-01T00:00:00Z` |
| KevDb.NeedsUpdateTestCases | kev/db_test.go:86-128 | stamp `2019-10-01T00:00:00Z`: fresh at that instant, stale at 2019-10-02T00:00:00.000000001 |
| KevDb.InvalidStampTestCase | kev/db_test.go:111-119 | the stamp `invalid2019-10-01T00:00:00Z` makes the cache stale |
| KevDb.ReadOf | kev/db.go:148-150 | `read` succeeds exactly when `kev.json` can be read, and returns its bytes or the file error |
| KevDb.Clock.Now | kev/db.go:113 | the clock's current time |
| KevDb.Db.NeedsUpdate | kev/db.go:121-146 | equals `NeedsUpdateOf` on the disk and the clock; it changes nothing |
| KevDb.Db.Download | kev/db.go:86-119 | the new disk and the error equal `DownloadOf` on the old disk |
| KevDb.Db.Read | kev/db.go:148-150 | equals `ReadOf` on the disk; it changes nothing |
| Rfc3339.Sub | kev/db.go:141 | the duration added to `u` gives `t`, and it is positive exactly when `t` is the later instant, whatever the two zones |
| Rfc3339.TruncateToSecond | kev/db.go:113 | drops just the sub-second part and keeps the zone |
| Rfc3339.CivilOf | kev/db.go:113 | the calendar date and time are valid and stand for exactly the given second |
| Rfc3339.CivilOfSecondsOf | kev/db.go:113 | a valid calendar date and time is recovered from its second count |
| Rfc3339.DigitsRoundTrip | kev/db.go:113-114 | a zero-padded number prints and parses back |
| Rfc3339.ZoneRoundTrip | kev/db.go:113-114 | `Z` or `±hh:mm` parses back to its offset |
| Rfc3339.Format | kev/db.go:113-114 | the formatted time is ASCII text, so `[]byte(date)` is one byte per character |
| Rfc3339.ParseFormat | kev/db.go:113-139 | parsing what `Format` writes gives the same instant truncated to the second |
| Rfc3339.Parse | kev/db.go:135 | a parsed time comes from at least 19 characters and has a whole-minute offset of at most 25 hours either way |
| Rfc3339.ParseFields | kev/db.go:135 | the fast path's reading or else the general parser's: a valid reading with a four-digit year and an offset the general parser can read |
| Rfc3339.FastFields | kev/db.go:135 | the fast path reads at least 20 characters into a valid four-digit-year reading and an offset under a day |
| Rfc3339.GetNum | kev/db.go:135 | one or two leading digits as their number, two when there are two, exactly two when fixed, none without a leading digit |
| Rfc3339.LayoutDate | kev/db.go:135 | exactly ten characters of date, with a four-digit year and a month from 1 to 12 |
| Rfc3339.LayoutClock | kev/db.go:135 | at least eight characters of time, with an hour below 24 and a minute and second below 60 |
| Rfc3339.LayoutFraction | kev/db.go:135 | a fraction is read only after `.` or `,`; otherwise the text is left as it is |
| Rfc3339.LayoutZone | kev/db.go:135 | `Z` is UTC; any other zone read is a whole-minute offset of at most 25 hours either way |
| Rfc3339.LayoutFields | kev/db.go:135 | a reading the general parser accepts is valid, has a four-digit year and an offset it can read, and took at least 19 characters |
| Rfc3339.ParseRejectsNonDigit | kev/db.go:135-139 | text that does not start with a digit is no RFC 3339 time |
| Rfc3339.FastRefusesShortHour | kev/db.go:135 | the fast path refuses text with `:` in the second hour position |
| Rfc3339.LayoutDateText | kev/db.go:135 | the general parser reads a written date back as its year, month and day |
| Rfc3339.LayoutShortClock | kev/db.go:135 | the general parser reads a time with a one-digit hour back as its fields |
| Rfc3339.LayoutShortHour | kev/db.go:135 | the general parser reads a UTC timestamp with a one-digit hour as that reading |
| Rfc3339.ParseShortHour | kev/db.go:135 | a UTC timestamp with a one-digit hour is refused by the fast path yet parses to its instant |
| Rfc3339.CommaFraction | kev/db.go:135 | the general parser reads a fraction after a comma; the fast path does not |
| Rfc3339.LayoutZoneReach | kev/db.go:135 | the general parser reads a signed zone exactly when its hours are at most 24 and its minutes at most 60 |
| Rfc3339.LateZoneReadsBack | kev/db.go:113-135 | an offset from 24 h up to 25 h, written as `±24:mm`, is refused by the fast path and read back exactly by the general parser |
| Rfc3339.FastZoneReach | kev/db.go:135 | the fast path reads a signed zone exactly when its hours are at most 23 and its minutes at most 59 |
| Rfc3339.FormatExample | kev/db_test.go:65-71 | 2019-10-01T00:00:00 UTC formats as `2019-10-01T00:00:00Z` |
| Rfc3339.ParseExample | kev/db_test.go:86-94 | `2019-10-01T00:00:00Z` parses to 2019-10-01T00:00:00 UTC |
| Kev.InitSteps | kev/kev.go:19-46 | on error the catalog field keeps its old value; on success it holds a catalog |
| Kev.InitStopsOnNeedsUpdateError | kev/kev.go:21-24 | a `needsUpdate` error is returned, with neither `download` nor `read` called |
| Kev.InitDownloadsIffStale | kev/kev.go:25-32 | `download` is called exactly when `needsUpdate` answered true without error |
| Kev.InitStopsOnDownloadError | kev/kev.go:27-29 | a `download` error is returned before `read` is called |
| Kev.InitCalls | kev/kev.go:19-46 | the cache steps called, in order, for every combination of answers |
| Kev.InitReadsOnce | kev/kev.go:34 | after a successful freshness step, `read` is called exactly once, as the last step |
| Kev.InitSucceeds | kev/kev.go:34-45 | `Init` succeeds exactly when every step does, and the catalog field then holds the decoded catalog |
| Kev.SecondInitWithinADay | kev/kev.go:21-34 | an `Init` within 24h of one that downloaded only checks and reads |
| Kev.Kev.Catalog | kev/kev.go:48-50 | returns the catalog field |
| Kev.Kev.Init | kev/kev.go:19-46 | the disk, the catalog field, the error and the steps called are those of `InitSteps` on the cache's answers |
| Kev.Kev.Refresh | kev/kev.go:21-32 | `needsUpdate`, then `download` only if stale; the error and steps follow the cache's answers |
| KevCatalog.CveIDs | kev/catalog.go:12-18 | same length as the vulnerabilities, with element i the CVE ID of vulnerability i |
| KevCatalog.CveIDsAppend | kev/catalog.go:14-16 | the IDs of a concatenation are the concatenated IDs |
| KevCatalog.CveIDsKeepDuplicates | kev/catalog.go:14-16 | each ID occurs as often as vulnerabilities carry it; nothing is deduplicated |
| KevCatalog.VulnerabilityIDs | kev/catalog.go:12-18 | the loop returns exactly `CveIDs` of the catalog's vulnerabilities |
| Config.New | config/config.go:21-31 | each argument lands unchanged in its field |
| Config.Message | config/config.go:17-18 | each error's text names that error and no other |
| Config.Validate | config/config.go:33-43 | succeeds exactly when the API key and policy name are both non-empty; the API key is checked first |
| Config.ValidateReadsTwoFields | config/config.go:33-43 | fields other than the API key and policy name never change the outcome |
| Config.ValidateTestCases | config/config_test.go:20-46 | the valid, missing-API-key and missing-policy-name cases |
| DependencyTrack.IsNotFound | dependencytrack/dependencytrack.go:47-61 | true exactly for the two not-found sentinels and an API error with status 404 |
| DependencyTrack.IsNotFoundTestCases | dependencytrack/dependencytrack_test.go:19-57 | the sentinels and 404 are not-found; 500 and other errors are not |
| DependencyTrack.NeedsUpdatePolicyReadsTwoFields | dependencytrack/dependencytrack.go:100-108 | policies that agree on operator and violation state get the same answer, whatever their other fields |
| DependencyTrack.NeedsUpdatePolicyIrreflexive | dependencytrack/dependencytrack.go:100-108 | a policy never needs updating to itself, and swapping the two policies does not change the answer |
| DependencyTrack.NeedsUpdateOnlyComparesTwoFields | dependencytrack/dependencytrack.go:100-108 | once the operator and violation state are copied over, no other field calls for an update |
| DependencyTrack.NeedsUpdatePolicyTestCases | dependencytrack/dependencytrack_test.go:78-101 | same policy: no update; different operator, different violation state, or both: update |
| DependencyTrack.NeedsUpdatePolicyOnAnyDifference | dependencytrack/dependencytrack.go:100-108 | a different operator, a different violation state, or both, each call for an update |
| DependencyTrack.PolicyNamed | dependencytrack/dependencytrack.go:71-76 | the first policy with the name, or policy-not-found exactly when none has it |
| DependencyTrack.ProjectVersioned | dependencytrack/dependencytrack.go:142-147 | the first project with the version, or project-not-found exactly when none has it |
| DependencyTrack.DependencyTrack.GetPolicyForName | dependencytrack/dependencytrack.go:63-77 | a failed listing is returned unchanged; otherwise the search's result equals `PolicyNamed` |
| DependencyTrack.DependencyTrack.GetProjectsForName | dependencytrack/dependencytrack.go:126-135 | a failed lookup is returned unchanged; an empty list becomes project-not-found; otherwise the list is returned |
| DependencyTrack.DependencyTrack.GetProjectForNameVersion | dependencytrack/dependencytrack.go:137-148 | a failed lookup is returned unchanged; otherwise the search's result equals `ProjectVersioned` |
| DependencyTrack.DependencyTrack.CreatePolicy | dependencytrack/dependencytrack.go:79-94 | a failed create is returned with no update sent; otherwise exactly one update follows, carrying the created policy with the requested operator and violation state, and on success that is the stored policy; the server's next UUID advances exactly when the create succeeds, and every stored UUID stays below it, so the adapter can be called again |
| Dtrack.ProjectsNamed | dependencytrack/dependencytrack.go:21 | the server lists only projects with the name, active ones when asked, root ones when asked |
| Dtrack.PolicyIndex | dependencytrack/dependencytrack.go:15 | the index of a policy with the UUID, or none exactly when no policy has it |
| Dtrack.Server.AllPolicies | dependencytrack/dependencytrack.go:64-66 | the listing fails exactly when the endpoint is set to fail, and is otherwise every policy |
| Dtrack.Server.ProjectsFor | dependencytrack/dependencytrack.go:127 | fails exactly when the endpoint is set to fail, and is otherwise the projects with the name |
| Dtrack.Server.Created | dependencytrack/dependencytrack.go:80 | the created policy has the next UUID and the server's own operator and violation state |
| Dtrack.Server.GetAllPolicies | dependencytrack/dependencytrack.go:64-66 | equals `AllPolicies`; it changes nothing |
| Dtrack.Server.GetProjectsForName | dependencytrack/dependencytrack.go:21 | equals `ProjectsFor`; it changes nothing |
| Dtrack.Server.CreatePolicy | dependencytrack/dependencytrack.go:14 | logs the request; fails if set to; otherwise appends the created policy under a new UUID; keeps every stored UUID below the next one |
| Dtrack.Server.UpdatePolicy | dependencytrack/dependencytrack.go:15 | logs the request; fails if set to; 404 without a policy of that UUID; otherwise replaces it; keeps every stored UUID below the next one |
| Dtrack.Server.AddTag | dependencytrack/dependencytrack.go:17 | logs the request and adds the tag to the policy, or fails |
| Dtrack.Server.DeleteTag | dependencytrack/dependencytrack.go:18 | logs the request and removes the tag from the policy, or fails |
| Dtrack.Server.AddProject | dependencytrack/dependencytrack.go:19 | logs the request and adds the project to the policy, or fails |
| Dtrack.Server.DeleteProject | dependencytrack/dependencytrack.go:20 | logs the request and removes the project from the policy, or fails |
| Dtrack.Server.CreatePolicyCondition | dependencytrack/dependencytrack.go:23 | logs the request and appends the condition, under a new UUID, to the policy, or fails |
| Dtrack.Server.DeletePolicyCondition | dependencytrack/dependencytrack.go:24 | logs the request and removes the condition from the policy holding it, or fails |

## Left out

- `cmd/root.go` and `main.go`: the cobra/viper command line and the process exit are not modelled.
- `ApplyPolicy`, the policy reconciliation that `cmd/root.go` calls, is not part of this model: its source is not among the files modelled.
- `dependencytrack.New` and client construction (base URL, API key, timeout) are not modelled. The `client-go` calls behind the pass-through methods (`UpdatePolicy`, `AddTag`, `DeleteTag`, `AddProject`, `DeleteProject`, `CreatePolicyCondition`, `DeletePolicyCondition`) exist only as methods of the stand-in server, with no adapter wrapper.
- `FetchAll` pagination: `Dtrack.Server.AllPolicies` answers every policy at once.
- Contexts, timeouts and concurrency are left out.
- UUIDs are natural numbers issued in order by the stand-in server.
- `DependencyTrack.DependencyTrack.CreatePolicy`: requires that no stored policy already has the UUID the server issues next (`Dtrack.Server.UuidsIssued`), as any real server guarantees.
- `DependencyTrack.IsNotFound`: it classifies error values only. Go's `nil` error has no counterpart, and a wrapped error counts as `Other`.
- HTTP: `http.Get` and `io.ReadAll` are replaced by the `KevDb.Response` value that `download` receives, and the catalog URL is only carried into error values.
- `encoding/json`: the decoding of the catalog is the `unmarshal` parameter of `Kev.Kev.Init`.
- The `Vulnerability` record has only its CVE ID, the one field the modelled code reads. Its other fields are defined outside these files.
- `newDB` defaults (`os.TempDir()`, the real clock), the commented-out option helpers and `kev.New` are left out. `KevDb.Db` takes the URL, the directory, the clock and the file system as arguments.
- `filepath.Join` is modelled as joining with `/`, with no `filepath.Clean`.
- Files.MkdirAllOf: the disk is flat. Go's `os.MkdirAll` also creates missing parent directories and fails with `ENOTDIR` when an ancestor is a file; the model creates only the named directory and checks no ancestor.
- The file system has no permission bits beyond the unreadable and unwritable path sets. `WriteFile` does not check that the parent directory exists, and a failed write changes nothing (no partial truncation).
- Logging (`log.Println`) is left out.
- `Rfc3339.Sub`: Go saturates `Time.Sub` to the int64 range. The model subtracts exactly, which has the same sign and differs only for instants centuries apart.
- `Rfc3339.ParseFormat`: stated only for instants whose local year has four digits and whose zone offset is a whole number of minutes under a day (`Rfc3339.Formattable`). An offset from 24 h up to 25 h is written as `±24:mm`, which the general parser reads back (`Rfc3339.LateZoneReadsBack` proves this for the zone element), but the round trip is not proved for such instants. A local year outside 0..9999 or an offset of 25 h or more does not parse at all; an offset with leftover seconds parses to a different instant, because `Format` drops those seconds.
- Monotonic clock readings and time zones other than a fixed offset are left out.
