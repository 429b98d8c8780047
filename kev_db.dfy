/** The on-disk cache of the KEV catalog (`kev/db.go`): where the catalog and
    its download time live, when the cache is stale, and how a download fills
    it. */
module KevDb {
  import opened Wrappers
  import opened Files
  import opened Rfc3339

  const DefaultCatalogUrl: string := "https://www.cisa.gov/sites/default/files/feeds/known_exploited_vulnerabilities.json"
  const DbFileName: string := "kev.json"
  const DownloadAtFileName: string := "kev_downloaded_at"

  /** `24 * time.Hour`, in nanoseconds. */
  const Day: int := 24 * 60 * 60 * 1_000_000_000

  /** `filepath.Join(dir, name)` for a plain file name. */
  function Join(dir: Path, name: Path): (p: Path)
    ensures |p| >= |name| && p[|p| - |name|..] == name
    ensures dir != "" ==> |p| > |dir| && p[..|dir|] == dir
    ensures dir != "" ==> p[|dir|] == '/'
    ensures dir == "" ==> p == name
  {
    if dir == "" then name else dir + "/" + name
  }

  /** `dbFilePath`: `kev.json` inside the cache directory. */
  function DbFilePath(cacheDir: Path): Path {
    Join(cacheDir, DbFileName)
  }

  /** `downloadAtFilePath`: `kev_downloaded_at` inside the cache directory. */
  function DownloadAtFilePath(cacheDir: Path): Path {
    Join(cacheDir, DownloadAtFileName)
  }

  /** Both files lie directly inside the cache directory (after a `/`),
      under their fixed names; an empty directory names the working one. */
  lemma FilePaths(cacheDir: Path)
    ensures var p := DbFilePath(cacheDir);
      |p| >= |DbFileName| && p[|p| - |DbFileName|..] == DbFileName &&
      (cacheDir != "" ==> |p| == |cacheDir| + 1 + |DbFileName| && p[..|cacheDir|] == cacheDir && p[|cacheDir|] == '/') &&
      (cacheDir == "" ==> p == DbFileName)
    ensures var p := DownloadAtFilePath(cacheDir);
      |p| >= |DownloadAtFileName| && p[|p| - |DownloadAtFileName|..] == DownloadAtFileName &&
      (cacheDir != "" ==> |p| == |cacheDir| + 1 + |DownloadAtFileName| && p[..|cacheDir|] == cacheDir && p[|cacheDir|] == '/') &&
      (cacheDir == "" ==> p == DownloadAtFileName)
  {
  }

  /** The catalog and its timestamp are two different files, and neither is
      the cache directory itself. */
  lemma PathsDistinct(cacheDir: Path)
    ensures DbFilePath(cacheDir) != DownloadAtFilePath(cacheDir)
    ensures DbFilePath(cacheDir) != cacheDir && DownloadAtFilePath(cacheDir) != cacheDir
  {
    var a, b := DbFilePath(cacheDir), DownloadAtFilePath(cacheDir);
    assert |a| == |cacheDir| + 9 || cacheDir == "";
    assert |b| == |cacheDir| + 18 || cacheDir == "";
  }

  /** `[]byte(s)` for text that is its own byte encoding. */
  function ToBytes(s: string): (b: Bytes)
    requires Ascii(s)
    ensures |b| == |s| && forall i :: 0 <= i < |s| ==> b[i] as int == s[i] as int
  {
    seq(|s|, i requires 0 <= i < |s| => s[i] as int as byte)
  }

  /** `string(b)`: every byte becomes one character of the same code, which is
      all `time.Parse` looks at. */
  function FromBytes(b: Bytes): (s: string)
    ensures |s| == |b| && forall i :: 0 <= i < |b| ==> s[i] as int == b[i] as int
  {
    seq(|b|, i requires 0 <= i < |b| => b[i] as int as char)
  }

  lemma FromToBytes(s: string)
    requires Ascii(s)
    ensures FromBytes(ToBytes(s)) == s
  {
    var r := FromBytes(ToBytes(s));
    assert |r| == |s|;
    forall i | 0 <= i < |s| ensures r[i] == s[i] {
      assert r[i] as int == s[i] as int;
    }
  }

  /** What the timestamp file holds after a download at `now`. */
  function StampBytes(now: Time): (b: Bytes)
    ensures FromBytes(b) == Format(now)
  {
    FromToBytes(Format(now));
    ToBytes(Format(now))
  }

  /** The body of an HTTP reply: `nil`, one whose reading fails, or its bytes. */
  datatype Body = NoBody | Unreadable | Content(data: Bytes)

  /** What `http.Get(url)` gave back. */
  datatype Response = RequestFailed | Reply(statusCode: int, status: string, body: Body)

  datatype DbError =
    | FetchFailed
    | StatusNotOk(url: string, status: string)
    | BodyIsNil(url: string)
    | BodyReadFailed
    | FsFailed(cause: FsError)

  /** The bytes stored at `p`, if any. */
  function FileAt(d: Disk, p: Path): Option<Bytes> {
    if p in d.files then Some(d.files[p]) else None
  }

  /* ---------------------------------------------------------------------- */
  /* needsUpdate (kev/db.go:121-146)                                        */

  /** `needsUpdate` on the disk `d` at clock time `now`: whether to download,
      and the error it reports. */
  function NeedsUpdateOf(d: Disk, cacheDir: Path, now: Time): (r: (bool, Option<DbError>))
    ensures r.1.Some? ==> !r.0
  {
    if StatOf(d, DbFilePath(cacheDir)).Some? then (true, None)
    else if StatOf(d, DownloadAtFilePath(cacheDir)).Some? then (true, None)
    else match ReadFileOf(d, DownloadAtFilePath(cacheDir))
      case Failure(e) => (false, Some(FsFailed(e)))
      case Success(stamp) =>
        match Parse(FromBytes(stamp))
        case None => (true, None)
        case Some(t) => (Sub(now, t) > Day, None)
  }

  /** Without the catalog file the cache is stale, whatever the timestamp says. */
  lemma StaleWithoutCatalog(d: Disk, cacheDir: Path, now: Time)
    requires DbFilePath(cacheDir) !in d.files && DbFilePath(cacheDir) !in d.dirs
    ensures NeedsUpdateOf(d, cacheDir, now) == (true, None)
  {
  }

  /** With the catalog but without the timestamp file the cache is stale. */
  lemma StaleWithoutStamp(d: Disk, cacheDir: Path, now: Time)
    requires DbFilePath(cacheDir) in d.files
    requires DownloadAtFilePath(cacheDir) !in d.files && DownloadAtFilePath(cacheDir) !in d.dirs
    ensures NeedsUpdateOf(d, cacheDir, now) == (true, None)
  {
  }

  /** A timestamp that is not RFC 3339 text makes the cache stale. */
  lemma StaleWithBadStamp(d: Disk, cacheDir: Path, now: Time)
    requires DbFilePath(cacheDir) in d.files
    requires ReadFileOf(d, DownloadAtFilePath(cacheDir)).Success?
    requires Parse(FromBytes(d.files[DownloadAtFilePath(cacheDir)])) == None
    ensures NeedsUpdateOf(d, cacheDir, now) == (true, None)
  {
  }

  /** A timestamp whose hour has a single digit, which only Go's general
      parser accepts, still dates the catalog: within a day of it the cache
      is fresh. */
  lemma FreshWithShortHourStamp(d: Disk, cacheDir: Path, now: Time, c: Civil)
    requires ValidCivil(c) && 0 <= c.year <= 9999 && c.hour < 10
    requires DbFilePath(cacheDir) in d.files
    requires ReadFileOf(d, DownloadAtFilePath(cacheDir)).Success?
    requires FromBytes(d.files[DownloadAtFilePath(cacheDir)]) == DateText(c) + "T" + ShortClockText(c) + "Z"
    requires now.unixNanos - SecondsOf(c) * 1_000_000_000 <= Day
    ensures NeedsUpdateOf(d, cacheDir, now) == (false, None)
  {
    ParseShortHour(c);
    StaleAfterADay(d, cacheDir, now, Time(SecondsOf(c) * 1_000_000_000, 0));
  }

  /** With both files in place and a readable, well-formed timestamp `t`, the
      cache is stale exactly when more than 24 hours have passed since `t`. */
  lemma StaleAfterADay(d: Disk, cacheDir: Path, now: Time, t: Time)
    requires DbFilePath(cacheDir) in d.files
    requires ReadFileOf(d, DownloadAtFilePath(cacheDir)).Success?
    requires Parse(FromBytes(d.files[DownloadAtFilePath(cacheDir)])) == Some(t)
    ensures NeedsUpdateOf(d, cacheDir, now) == (now.unixNanos - t.unixNanos > Day, None)
  {
  }

  /** The threshold is strict: no time, or exactly a day, is still fresh; a
      day and a nanosecond is stale. */
  lemma ThresholdBoundary(d: Disk, cacheDir: Path, t: Time)
    requires DbFilePath(cacheDir) in d.files
    requires ReadFileOf(d, DownloadAtFilePath(cacheDir)).Success?
    requires Parse(FromBytes(d.files[DownloadAtFilePath(cacheDir)])) == Some(t)
    ensures NeedsUpdateOf(d, cacheDir, t) == (false, None)
    ensures NeedsUpdateOf(d, cacheDir, t.(unixNanos := t.unixNanos + Day)) == (false, None)
    ensures NeedsUpdateOf(d, cacheDir, t.(unixNanos := t.unixNanos + Day + 1)) == (true, None)
  {
    StaleAfterADay(d, cacheDir, t, t);
    StaleAfterADay(d, cacheDir, t.(unixNanos := t.unixNanos + Day), t);
    StaleAfterADay(d, cacheDir, t.(unixNanos := t.unixNanos + Day + 1), t);
  }

  /** `needsUpdate` fails exactly when both files exist and the timestamp
      cannot be read, and then it answers `false`. */
  lemma NeedsUpdateErrors(d: Disk, cacheDir: Path, now: Time)
    ensures NeedsUpdateOf(d, cacheDir, now).1.Some? <==>
      StatOf(d, DbFilePath(cacheDir)).None? && StatOf(d, DownloadAtFilePath(cacheDir)).None? &&
      ReadFileOf(d, DownloadAtFilePath(cacheDir)).Failure?
    ensures NeedsUpdateOf(d, cacheDir, now).1.Some? ==>
      NeedsUpdateOf(d, cacheDir, now) == (false, Some(FsFailed(ReadFileOf(d, DownloadAtFilePath(cacheDir)).error)))
  {
  }

  /* ---------------------------------------------------------------------- */
  /* download (kev/db.go:86-119)                                            */

  /** `download` from a server that answered `resp`, on the disk `d` at clock
      time `now`: the disk afterwards and the error it reports. */
  function DownloadOf(d: Disk, url: string, cacheDir: Path, now: Time, resp: Response): (r: (Disk, Option<DbError>))
    ensures r.1.None? ==> resp.Reply? && resp.statusCode == 200 && resp.body.Content?
    ensures r.0.unreadable == d.unreadable && r.0.unwritable == d.unwritable
    ensures d.dirs <= r.0.dirs <= d.dirs + {cacheDir} && d.files.Keys <= r.0.files.Keys
    ensures forall p :: p != DbFilePath(cacheDir) && p != DownloadAtFilePath(cacheDir) ==> FileAt(r.0, p) == FileAt(d, p)
  {
    match resp
    case RequestFailed => (d, Some(FetchFailed))
    case Reply(code, status, body) =>
      if code != 200 then (d, Some(StatusNotOk(url, status)))
      else match body
        case NoBody => (d, Some(BodyIsNil(url)))
        case Unreadable => (d, Some(BodyReadFailed))
        case Content(data) =>
          match MkdirAllOf(d, cacheDir)
          case Failure(e) => (d, Some(FsFailed(e)))
          case Success(d1) =>
            match WriteFileOf(d1, DbFilePath(cacheDir), data)
            case Failure(e) => (d1, Some(FsFailed(e)))
            case Success(d2) =>
              match WriteFileOf(d2, DownloadAtFilePath(cacheDir), StampBytes(now))
              case Failure(e) => (d2, Some(FsFailed(e)))
              case Success(d3) => (d3, None)
  }

  /** A failed request, a status other than 200, a nil body or a body that
      cannot be read: an error, and the disk is untouched. */
  lemma DownloadFetchErrors(d: Disk, url: string, cacheDir: Path, now: Time, resp: Response)
    requires !(resp.Reply? && resp.statusCode == 200 && resp.body.Content?)
    ensures DownloadOf(d, url, cacheDir, now, resp).0 == d
    ensures DownloadOf(d, url, cacheDir, now, resp).1 ==
      match resp
      case RequestFailed => Some(FetchFailed)
      case Reply(code, status, body) =>
        if code != 200 then Some(StatusNotOk(url, status))
        else if body.NoBody? then Some(BodyIsNil(url))
        else Some(BodyReadFailed)
  {
  }

  /** A download succeeds exactly when the server sent a readable 200 reply
      and the directory and both files could be written; then the catalog
      file holds the body, the timestamp file holds `now` in RFC 3339, the
      cache directory exists and nothing else changed. */
  lemma DownloadSucceeds(d: Disk, url: string, cacheDir: Path, now: Time, resp: Response)
    ensures DownloadOf(d, url, cacheDir, now, resp).1.None? <==>
      resp.Reply? && resp.statusCode == 200 && resp.body.Content? &&
      MkdirAllOf(d, cacheDir).Success? &&
      DbFilePath(cacheDir) !in d.dirs && DbFilePath(cacheDir) !in d.unwritable &&
      DownloadAtFilePath(cacheDir) !in d.dirs && DownloadAtFilePath(cacheDir) !in d.unwritable
    ensures DownloadOf(d, url, cacheDir, now, resp).1.None? ==>
      DownloadOf(d, url, cacheDir, now, resp).0 ==
        d.(files := d.files[DbFilePath(cacheDir) := resp.body.data][DownloadAtFilePath(cacheDir) := StampBytes(now)],
           dirs := d.dirs + {cacheDir})
  {
    if resp.Reply? && resp.statusCode == 200 && resp.body.Content? && MkdirAllOf(d, cacheDir).Success? {
      var d1 := MkdirAllOf(d, cacheDir).value;
      PathsDistinct(cacheDir);
      assert DbFilePath(cacheDir) !in d1.dirs <==> DbFilePath(cacheDir) !in d.dirs;
      assert DownloadAtFilePath(cacheDir) !in d1.dirs <==> DownloadAtFilePath(cacheDir) !in d.dirs;
    }
  }

  /** The content file is written before the timestamp file: a download that
      fails leaves the timestamp file exactly as it was, so a timestamp is
      only ever written together with the catalog it dates. */
  lemma StampWrittenLast(d: Disk, url: string, cacheDir: Path, now: Time, resp: Response)
    ensures DownloadOf(d, url, cacheDir, now, resp).1.Some? ==>
      FileAt(DownloadOf(d, url, cacheDir, now, resp).0, DownloadAtFilePath(cacheDir)) == FileAt(d, DownloadAtFilePath(cacheDir))
  {
    var stamp := DownloadAtFilePath(cacheDir);
    if resp.Reply? && resp.statusCode == 200 && resp.body.Content? && MkdirAllOf(d, cacheDir).Success? {
      var d1 := MkdirAllOf(d, cacheDir).value;
      assert FileAt(d1, stamp) == FileAt(d, stamp);
      var w := WriteFileOf(d1, DbFilePath(cacheDir), resp.body.data);
      if w.Success? {
        PathsDistinct(cacheDir);
        assert FileAt(w.value, stamp) == FileAt(d, stamp);
      }
    }
  }

  /** The catalog file is written first: a download whose timestamp write
      fails has already replaced the catalog, so the cache then holds the new
      catalog beside the old timestamp. */
  lemma CatalogWrittenFirst(d: Disk, url: string, cacheDir: Path, now: Time, resp: Response)
    requires resp.Reply? && resp.statusCode == 200 && resp.body.Content?
    requires MkdirAllOf(d, cacheDir).Success?
    requires DbFilePath(cacheDir) !in d.dirs && DbFilePath(cacheDir) !in d.unwritable
    requires DownloadAtFilePath(cacheDir) in d.dirs || DownloadAtFilePath(cacheDir) in d.unwritable
    ensures DownloadOf(d, url, cacheDir, now, resp).1.Some?
    ensures FileAt(DownloadOf(d, url, cacheDir, now, resp).0, DbFilePath(cacheDir)) == Some(resp.body.data)
    ensures FileAt(DownloadOf(d, url, cacheDir, now, resp).0, DownloadAtFilePath(cacheDir)) == FileAt(d, DownloadAtFilePath(cacheDir))
  {
    PathsDistinct(cacheDir);
    var d1 := MkdirAllOf(d, cacheDir).value;
    assert DbFilePath(cacheDir) !in d1.dirs && DownloadAtFilePath(cacheDir) in d1.dirs + d1.unwritable;
  }

  /** A download that succeeds leaves the body in the catalog file and `now`
      in RFC 3339 in the timestamp file. */
  lemma DownloadStores(d: Disk, url: string, cacheDir: Path, now: Time, resp: Response)
    requires DownloadOf(d, url, cacheDir, now, resp).1.None?
    ensures resp.Reply? && resp.body.Content?
    ensures FileAt(DownloadOf(d, url, cacheDir, now, resp).0, DbFilePath(cacheDir)) == Some(resp.body.data)
    ensures FileAt(DownloadOf(d, url, cacheDir, now, resp).0, DownloadAtFilePath(cacheDir)) == Some(StampBytes(now))
    ensures FromBytes(StampBytes(now)) == Format(now)
  {
    DownloadSucceeds(d, url, cacheDir, now, resp);
    PathsDistinct(cacheDir);
  }

  /** After a download at `now`, the cache counts as downloaded at `now`
      truncated to the second: it goes stale only once more than a day has
      passed since then. */
  lemma FreshAfterDownload(d: Disk, url: string, cacheDir: Path, now: Time, resp: Response, later: Time)
    requires DownloadOf(d, url, cacheDir, now, resp).1.None?
    requires Formattable(now) && DownloadAtFilePath(cacheDir) !in d.unreadable
    ensures NeedsUpdateOf(DownloadOf(d, url, cacheDir, now, resp).0, cacheDir, later) ==
      (later.unixNanos - TruncateToSecond(now).unixNanos > Day, None)
  {
    var d3 := DownloadOf(d, url, cacheDir, now, resp).0;
    DownloadSucceeds(d, url, cacheDir, now, resp);
    PathsDistinct(cacheDir);
    var stamp := DownloadAtFilePath(cacheDir);
    assert DbFilePath(cacheDir) in d3.files;
    assert stamp in d3.files && d3.files[stamp] == StampBytes(now);
    assert stamp !in d3.dirs && stamp !in d3.unreadable;
    FreshWhenStamped(d3, cacheDir, now, later);
  }

  /** A cache whose timestamp file holds the stamp of `now` goes stale once
      more than a day has passed since `now` truncated to the second. */
  lemma FreshWhenStamped(d: Disk, cacheDir: Path, now: Time, later: Time)
    requires DbFilePath(cacheDir) in d.files
    requires DownloadAtFilePath(cacheDir) in d.files && d.files[DownloadAtFilePath(cacheDir)] == StampBytes(now)
    requires DownloadAtFilePath(cacheDir) !in d.dirs && DownloadAtFilePath(cacheDir) !in d.unreadable
    requires Formattable(now)
    ensures NeedsUpdateOf(d, cacheDir, later) == (later.unixNanos - TruncateToSecond(now).unixNanos > Day, None)
  {
    ParseFormat(now);
    StaleAfterADay(d, cacheDir, later, TruncateToSecond(now));
  }

  /** In particular, the cache is fresh right after a download. */
  lemma FreshRightAfterDownload(d: Disk, url: string, cacheDir: Path, now: Time, resp: Response)
    requires DownloadOf(d, url, cacheDir, now, resp).1.None?
    requires Formattable(now) && DownloadAtFilePath(cacheDir) !in d.unreadable
    ensures NeedsUpdateOf(DownloadOf(d, url, cacheDir, now, resp).0, cacheDir, now) == (false, None)
  {
    FreshAfterDownload(d, url, cacheDir, now, resp, now);
  }

  /* ---------------------------------------------------------------------- */
  /* The cases of kev/db_test.go                                            */

  /** A download at 2019-10-01T00:00:00 UTC into a fresh temporary directory
      stores the body and the text "2019-10-01T00:00:00Z". */
  lemma DownloadTestCase(d: Disk, url: string, tmpDir: Path, now: Time, status: string, body: Bytes)
    requires tmpDir != "" && tmpDir in d.dirs
    requires d.unwritable == {} && d.unreadable == {}
    requires forall p :: p in d.dirs ==> p == tmpDir
    requires now.unixNanos == 1_569_888_000_000_000_000 && now.zoneOffset == 0
    ensures DownloadOf(d, url, tmpDir, now, Reply(200, status, Content(body))).1 == None
    ensures FileAt(DownloadOf(d, url, tmpDir, now, Reply(200, status, Content(body))).0, DbFilePath(tmpDir)) == Some(body)
    ensures FileAt(DownloadOf(d, url, tmpDir, now, Reply(200, status, Content(body))).0, DownloadAtFilePath(tmpDir)).Some?
    ensures FromBytes(FileAt(DownloadOf(d, url, tmpDir, now, Reply(200, status, Content(body))).0, DownloadAtFilePath(tmpDir)).value)
      == "2019-10-01T00:00:00Z"
  {
    var resp := Reply(200, status, Content(body));
    assert DownloadOf(d, url, tmpDir, now, resp).1 == None by {
      PathsDistinct(tmpDir);
      DownloadSucceeds(d, url, tmpDir, now, resp);
    }
    DownloadStores(d, url, tmpDir, now, resp);
    FormatExample(now);
  }

  /** The fixture of the freshness cases: the catalog file is present and the
      timestamp file reads "2019-10-01T00:00:00Z". */
  predicate TestCache(d: Disk, cacheDir: Path) {
    DbFilePath(cacheDir) in d.files && ReadFileOf(d, DownloadAtFilePath(cacheDir)).Success?
  }

  /** "24h have not passed" and "after 24h+": at the downloaded instant the
      cache is fresh, a day and a nanosecond later it is stale. */
  lemma NeedsUpdateTestCases(d: Disk, cacheDir: Path, t0: Time, later: Time)
    requires TestCache(d, cacheDir)
    requires FromBytes(d.files[DownloadAtFilePath(cacheDir)]) == "2019-10-01T00:00:00Z"
    requires t0.unixNanos == 1_569_888_000_000_000_000 && t0.zoneOffset == 0
    requires later.unixNanos == 1_569_974_400_000_000_001 && later.zoneOffset == 0
    ensures NeedsUpdateOf(d, cacheDir, t0) == (false, None)
    ensures NeedsUpdateOf(d, cacheDir, later) == (true, None)
  {
    ParseExample(t0);
    StaleAfterADay(d, cacheDir, t0, t0);
    StaleAfterADay(d, cacheDir, later, t0);
  }

  /** "downloadedAtFile content is invalid": text with a prefix is no
      timestamp, so the cache is stale. */
  lemma InvalidStampTestCase(d: Disk, cacheDir: Path, now: Time)
    requires TestCache(d, cacheDir)
    requires FromBytes(d.files[DownloadAtFilePath(cacheDir)]) == "invalid2019-10-01T00:00:00Z"
    ensures NeedsUpdateOf(d, cacheDir, now) == (true, None)
  {
    ParseRejectsNonDigit(FromBytes(d.files[DownloadAtFilePath(cacheDir)]));
  }

  /* ---------------------------------------------------------------------- */
  /* read (kev/db.go:148-150)                                               */

  function ReadOf(d: Disk, cacheDir: Path): (r: Result<Bytes, DbError>)
    ensures r.Success? <==> ReadFileOf(d, DbFilePath(cacheDir)).Success?
    ensures r.Success? ==> r.value == d.files[DbFilePath(cacheDir)]
    ensures r.Failure? ==> r.error == FsFailed(ReadFileOf(d, DbFilePath(cacheDir)).error)
  {
    match ReadFileOf(d, DbFilePath(cacheDir))
    case Success(b) => Success(b)
    case Failure(e) => Failure(FsFailed(e))
  }

  /* ---------------------------------------------------------------------- */
  /* The objects                                                            */

  /** A clock the cache reads; `k8s.io/utils/clock`'s fake clock in the tests. */
  class Clock {
    var now: Time

    constructor (t: Time)
      ensures now == t
    {
      now := t;
    }

    method Now() returns (t: Time)
      ensures t == now
    {
      t := now;
    }
  }

  /** `db`: the catalog's URL, the cache directory and the clock, here with
      the file system it works on. */
  class Db {
    const url: string
    const cacheDir: Path
    const clock: Clock
    const fs: FileSystem

    constructor (url: string, cacheDir: Path, clock: Clock, fs: FileSystem)
      ensures this.url == url && this.cacheDir == cacheDir && this.clock == clock && this.fs == fs
    {
      this.url := url;
      this.cacheDir := cacheDir;
      this.clock := clock;
      this.fs := fs;
    }

    /** `needsUpdate`: reads the disk and the clock, changes nothing. */
    method NeedsUpdate() returns (update: bool, err: Option<DbError>)
      ensures (update, err) == NeedsUpdateOf(fs.disk, cacheDir, clock.now)
    {
      var missing := fs.Stat(DbFilePath(cacheDir));
      if missing.Some? {
        return true, None;
      }
      missing := fs.Stat(DownloadAtFilePath(cacheDir));
      if missing.Some? {
        return true, None;
      }
      var downloadedAt := fs.ReadFile(DownloadAtFilePath(cacheDir));
      if downloadedAt.Failure? {
        return false, Some(FsFailed(downloadedAt.error));
      }
      var t := Parse(FromBytes(downloadedAt.value));
      if t.None? {
        return true, None;
      }
      var now := clock.Now();
      if Sub(now, t.value) > Day {
        return true, None;
      }
      return false, None;
    }

    /** `download` from a server that answers `resp`. */
    method Download(resp: Response) returns (err: Option<DbError>)
      modifies fs
      ensures (fs.disk, err) == DownloadOf(old(fs.disk), url, cacheDir, clock.now, resp)
    {
      if resp.RequestFailed? {
        return Some(FetchFailed);
      }
      if resp.statusCode != 200 {
        return Some(StatusNotOk(url, resp.status));
      }
      if resp.body.NoBody? {
        return Some(BodyIsNil(url));
      }
      if resp.body.Unreadable? {
        return Some(BodyReadFailed);
      }
      var body := resp.body.data;
      var e := fs.MkdirAll(cacheDir);
      if e.Some? {
        return Some(FsFailed(e.value));
      }
      e := fs.WriteFile(DbFilePath(cacheDir), body);
      if e.Some? {
        return Some(FsFailed(e.value));
      }
      var now := clock.Now();
      e := fs.WriteFile(DownloadAtFilePath(cacheDir), StampBytes(now));
      if e.Some? {
        return Some(FsFailed(e.value));
      }
      return None;
    }

    /** `read`: the catalog file's bytes. */
    method Read() returns (r: Result<Bytes, DbError>)
      ensures r == ReadOf(fs.disk, cacheDir)
    {
      var b := fs.ReadFile(DbFilePath(cacheDir));
      match b
      case Success(data) => r := Success(data);
      case Failure(e) => r := Failure(FsFailed(e));
    }
  }
}
