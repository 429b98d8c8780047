/** `KEV` (`kev/kev.go`): brings the cache up to date if it is stale, reads
    it and decodes the catalog, which it then hands out. */
module Kev {
  import opened Wrappers
  import opened Files
  import opened Rfc3339
  import opened KevDb
  import opened KevCatalog

  /** The steps of the cache that `Init` calls, in the order it calls them. */
  datatype Call = NeedsUpdateCall | DownloadCall | ReadCall

  datatype InitError = DbFailed(cause: DbError) | UnmarshalFailed

  /** What the cache's steps answer when called (the test's mock of the
      `dbFetcher` interface, kev/db.go:20-26): `needsUpdate`'s two results,
      `download`'s error and `read`'s result. */
  datatype Answers = Answers(
    needsUpdate: bool,
    needsUpdateErr: Option<DbError>,
    downloadErr: Option<DbError>,
    read: Result<Bytes, DbError>)

  /** What `Init` leaves behind: the catalog field, the error it returns and
      the cache steps it called. */
  datatype InitOutcome = InitOutcome(catalog: Option<Catalog>, err: Option<InitError>, calls: seq<Call>)

  /** `Init` against a cache that answers `a`, with `unmarshal` the JSON
      decoding of the catalog and `catalog` the field's value before the call. */
  function InitSteps(a: Answers, unmarshal: Bytes -> Option<Catalog>, catalog: Option<Catalog>): (o: InitOutcome)
    ensures o.err.Some? ==> o.catalog == catalog
    ensures o.err.None? ==> o.catalog.Some?
  {
    if a.needsUpdateErr.Some? then InitOutcome(catalog, Some(DbFailed(a.needsUpdateErr.value)), [NeedsUpdateCall])
    else if a.needsUpdate && a.downloadErr.Some? then
      InitOutcome(catalog, Some(DbFailed(a.downloadErr.value)), [NeedsUpdateCall, DownloadCall])
    else
      var calls := (if a.needsUpdate then [NeedsUpdateCall, DownloadCall] else [NeedsUpdateCall]) + [ReadCall];
      match a.read
      case Failure(re) => InitOutcome(catalog, Some(DbFailed(re)), calls)
      case Success(buf) =>
        match unmarshal(buf)
        case None => InitOutcome(catalog, Some(UnmarshalFailed), calls)
        case Some(c) => InitOutcome(Some(c), None, calls)
  }

  /** A failing freshness check is returned as it is; nothing else is called. */
  lemma InitStopsOnNeedsUpdateError(a: Answers, unmarshal: Bytes -> Option<Catalog>, catalog: Option<Catalog>)
    requires a.needsUpdateErr.Some?
    ensures InitSteps(a, unmarshal, catalog) == InitOutcome(catalog, Some(DbFailed(a.needsUpdateErr.value)), [NeedsUpdateCall])
  {
  }

  /** `download` is called exactly when the freshness check answered `true`
      without error. */
  lemma InitDownloadsIffStale(a: Answers, unmarshal: Bytes -> Option<Catalog>, catalog: Option<Catalog>)
    ensures DownloadCall in InitSteps(a, unmarshal, catalog).calls <==> a.needsUpdate && a.needsUpdateErr.None?
  {
  }

  /** A failed download is returned as it is, and `read` is not called. */
  lemma InitStopsOnDownloadError(a: Answers, unmarshal: Bytes -> Option<Catalog>, catalog: Option<Catalog>)
    requires a.needsUpdate && a.needsUpdateErr.None? && a.downloadErr.Some?
    ensures InitSteps(a, unmarshal, catalog) ==
      InitOutcome(catalog, Some(DbFailed(a.downloadErr.value)), [NeedsUpdateCall, DownloadCall])
  {
  }

  /** Once the cache is known fresh, or has been downloaded, `read` is called
      exactly once, as the last step. */
  lemma InitReadsOnce(a: Answers, unmarshal: Bytes -> Option<Catalog>, catalog: Option<Catalog>)
    requires a.needsUpdateErr.None? && (a.needsUpdate ==> a.downloadErr.None?)
    ensures var calls := InitSteps(a, unmarshal, catalog).calls;
      |calls| > 0 && calls[|calls| - 1] == ReadCall && multiset(calls)[ReadCall] == 1
  {
    InitCalls(a, unmarshal, catalog);
    if a.needsUpdate {
      assert multiset([NeedsUpdateCall, DownloadCall, ReadCall])[ReadCall] == 1;
    } else {
      assert multiset([NeedsUpdateCall, ReadCall])[ReadCall] == 1;
    }
  }

  /** The steps `Init` calls, by what the earlier ones answered. */
  lemma InitCalls(a: Answers, unmarshal: Bytes -> Option<Catalog>, catalog: Option<Catalog>)
    ensures InitSteps(a, unmarshal, catalog).calls ==
      if a.needsUpdateErr.Some? then [NeedsUpdateCall]
      else if !a.needsUpdate then [NeedsUpdateCall, ReadCall]
      else if a.downloadErr.Some? then [NeedsUpdateCall, DownloadCall]
      else [NeedsUpdateCall, DownloadCall, ReadCall]
  {
  }

  /** `Init` succeeds exactly when every step does; the field then holds what
      the catalog file decodes to. Otherwise the field is left as it was. */
  lemma InitSucceeds(a: Answers, unmarshal: Bytes -> Option<Catalog>, catalog: Option<Catalog>)
    ensures InitSteps(a, unmarshal, catalog).err.None? <==>
      a.needsUpdateErr.None? && (a.needsUpdate ==> a.downloadErr.None?) &&
      a.read.Success? && unmarshal(a.read.value).Some?
    ensures InitSteps(a, unmarshal, catalog).err.None? ==>
      InitSteps(a, unmarshal, catalog).catalog == unmarshal(a.read.value)
  {
  }

  /** What the freshness step returns when the cache answers `a`. */
  function RefreshErr(a: Answers): Option<DbError> {
    if a.needsUpdateErr.Some? then a.needsUpdateErr else if a.needsUpdate then a.downloadErr else None
  }

  /** The steps `Init` calls before `read`. */
  function RefreshCalls(a: Answers): seq<Call> {
    if a.needsUpdateErr.None? && a.needsUpdate then [NeedsUpdateCall, DownloadCall] else [NeedsUpdateCall]
  }

  /** `Init` split at the end of its freshness step. */
  lemma InitAfterRefresh(a: Answers, unmarshal: Bytes -> Option<Catalog>, catalog: Option<Catalog>)
    ensures RefreshErr(a).Some? ==>
      InitSteps(a, unmarshal, catalog) == InitOutcome(catalog, Some(DbFailed(RefreshErr(a).value)), RefreshCalls(a))
    ensures RefreshErr(a).None? ==> InitSteps(a, unmarshal, catalog).calls == RefreshCalls(a) + [ReadCall]
    ensures RefreshErr(a).None? && a.read.Failure? ==>
      InitSteps(a, unmarshal, catalog).catalog == catalog && InitSteps(a, unmarshal, catalog).err == Some(DbFailed(a.read.error))
    ensures RefreshErr(a).None? && a.read.Success? ==>
      InitSteps(a, unmarshal, catalog).catalog == (if unmarshal(a.read.value).Some? then unmarshal(a.read.value) else catalog) &&
      InitSteps(a, unmarshal, catalog).err == (if unmarshal(a.read.value).Some? then None else Some(UnmarshalFailed))
  {
  }

  /** The disk after `Init`'s freshness step: downloaded into if the cache was
      found stale, as it was otherwise. */
  function AfterFreshness(d: Disk, url: string, cacheDir: Path, now: Time, resp: Response): Disk {
    if NeedsUpdateOf(d, cacheDir, now) == (true, None) then DownloadOf(d, url, cacheDir, now, resp).0 else d
  }

  /** What the cache of `kev/db.go` answers on the disk `d` at clock time
      `now`, with `resp` the server's answer should it download, and `read`
      the disk that `read` finds. */
  function AnswersOn(d: Disk, url: string, cacheDir: Path, now: Time, resp: Response, read: Disk): Answers {
    Answers(
      NeedsUpdateOf(d, cacheDir, now).0,
      NeedsUpdateOf(d, cacheDir, now).1,
      DownloadOf(d, url, cacheDir, now, resp).1,
      ReadOf(read, cacheDir))
  }

  /** The same, where `read` finds the disk that the freshness step left. */
  function AnswersOf(d: Disk, url: string, cacheDir: Path, now: Time, resp: Response): Answers {
    AnswersOn(d, url, cacheDir, now, resp, AfterFreshness(d, url, cacheDir, now, resp))
  }

  /** A second `Init` within a day of one that downloaded does not download
      again: it only checks and reads. */
  lemma SecondInitWithinADay(d: Disk, url: string, cacheDir: Path, now: Time, resp: Response,
                             later: Time, resp2: Response,
                             unmarshal: Bytes -> Option<Catalog>, catalog: Option<Catalog>)
    requires NeedsUpdateOf(d, cacheDir, now) == (true, None)
    requires DownloadOf(d, url, cacheDir, now, resp).1.None?
    requires Formattable(now) && DownloadAtFilePath(cacheDir) !in d.unreadable
    requires later.unixNanos - TruncateToSecond(now).unixNanos <= Day
    ensures InitSteps(AnswersOf(AfterFreshness(d, url, cacheDir, now, resp), url, cacheDir, later, resp2), unmarshal, catalog).calls
      == [NeedsUpdateCall, ReadCall]
  {
    var d3 := AfterFreshness(d, url, cacheDir, now, resp);
    assert d3 == DownloadOf(d, url, cacheDir, now, resp).0;
    FreshAfterDownload(d, url, cacheDir, now, resp, later);
    var a := AnswersOf(d3, url, cacheDir, later, resp2);
    assert !a.needsUpdate && a.needsUpdateErr.None?;
    InitCalls(a, unmarshal, catalog);
  }

  /** `KEV`: the cache it works through and the catalog it decoded last. */
  class Kev {
    const db: Db
    var catalog: Option<Catalog>
    /** The steps of `db` called so far. */
    ghost var calls: seq<Call>

    constructor (db: Db)
      ensures this.db == db && catalog == None && calls == []
    {
      this.db := db;
      catalog := None;
      calls := [];
    }

    /** `Catalog()`: `None` until an `Init` has succeeded. */
    function Catalog(): (c: Option<KevCatalog.Catalog>)
      reads this
      ensures c == catalog
    {
      catalog
    }

    /** `Init`, with `resp` the server's answer should it download and
        `unmarshal` the JSON decoding of the catalog. */
    method Init(resp: Response, unmarshal: Bytes -> Option<KevCatalog.Catalog>) returns (err: Option<InitError>)
      modifies this, db.fs
      ensures db.fs.disk == AfterFreshness(old(db.fs.disk), db.url, db.cacheDir, db.clock.now, resp)
      ensures var o := InitSteps(AnswersOn(old(db.fs.disk), db.url, db.cacheDir, db.clock.now, resp, db.fs.disk), unmarshal, old(catalog));
        catalog == o.catalog && err == o.err && calls == old(calls) + o.calls
    {
      var e := Refresh(resp);
      InitAfterRefresh(AnswersOn(old(db.fs.disk), db.url, db.cacheDir, db.clock.now, resp, db.fs.disk), unmarshal, old(catalog));
      if e.Some? {
        return Some(DbFailed(e.value));
      }
      var buf := db.Read();
      calls := calls + [ReadCall];
      if buf.Failure? {
        return Some(DbFailed(buf.error));
      }
      var c := unmarshal(buf.value);
      if c.None? {
        return Some(UnmarshalFailed);
      }
      catalog := c;
      return None;
    }

    /** The first half of `Init` (kev/kev.go:21-32): check the cache and
        download it if it is stale. */
    method Refresh(resp: Response) returns (err: Option<DbError>)
      modifies this`calls, db.fs
      ensures db.fs.disk == AfterFreshness(old(db.fs.disk), db.url, db.cacheDir, db.clock.now, resp)
      ensures var a := AnswersOn(old(db.fs.disk), db.url, db.cacheDir, db.clock.now, resp, db.fs.disk);
        err == RefreshErr(a) && calls == old(calls) + RefreshCalls(a)
    {
      var update, e := db.NeedsUpdate();
      calls := calls + [NeedsUpdateCall];
      if e.Some? {
        return e;
      }
      if update {
        err := db.Download(resp);
        calls := calls + [DownloadCall];
      } else {
        err := None;
      }
    }
  }
}
