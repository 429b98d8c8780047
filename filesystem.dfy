/** The part of Go's `os` package that the KEV cache uses (`Stat`, `ReadFile`,
    `WriteFile`, `MkdirAll`), over a flat picture of the disk: files by path,
    the directories that exist, and the paths whose permission bits forbid
    reading or writing. */
module Files {
  import opened Wrappers

  newtype byte = b: int | 0 <= b < 256
  type Bytes = seq<byte>
  type Path = string

  /** The `*PathError` causes the cache can meet. */
  datatype FsError =
    | NotExist(path: Path)
    | PermissionDenied(path: Path)
    | IsADirectory(path: Path)
    | NotADirectory(path: Path)

  datatype Disk = Disk(
    files: map<Path, Bytes>,
    dirs: set<Path>,
    unreadable: set<Path>,
    unwritable: set<Path>)

  /** `os.Stat(p)`: succeeds exactly when something exists at `p`. */
  function StatOf(d: Disk, p: Path): (r: Option<FsError>)
    ensures r.None? <==> p in d.files || p in d.dirs
    ensures r.Some? ==> r.value == NotExist(p)
  {
    if p in d.files || p in d.dirs then None else Some(NotExist(p))
  }

  /** `os.ReadFile(p)`. */
  function ReadFileOf(d: Disk, p: Path): (r: Result<Bytes, FsError>)
    ensures r.Success? <==> p !in d.dirs && p in d.files && p !in d.unreadable
    ensures r.Success? ==> r.value == d.files[p]
  {
    if p in d.dirs then Failure(IsADirectory(p))
    else if p !in d.files then Failure(NotExist(p))
    else if p in d.unreadable then Failure(PermissionDenied(p))
    else Success(d.files[p])
  }

  /** `os.WriteFile(p, data, 0644)`: creates or truncates `p` and writes `data`;
      on failure nothing changes. */
  function WriteFileOf(d: Disk, p: Path, data: Bytes): (r: Result<Disk, FsError>)
    ensures r.Success? <==> p !in d.dirs && p !in d.unwritable
    ensures r.Success? ==> r.value == d.(files := d.files[p := data])
  {
    if p in d.dirs then Failure(IsADirectory(p))
    else if p in d.unwritable then Failure(PermissionDenied(p))
    else Success(d.(files := d.files[p := data]))
  }

  /** `os.MkdirAll(p, 0755)`: nothing to do when `p` is already a directory. */
  function MkdirAllOf(d: Disk, p: Path): (r: Result<Disk, FsError>)
    ensures r.Success? <==> p in d.dirs || (p != "" && p !in d.files && p !in d.unwritable)
    ensures r.Success? ==> r.value == d.(dirs := d.dirs + {p})
  {
    if p in d.dirs then Success(d)
    else if p == "" then Failure(NotExist(p))
    else if p in d.files then Failure(NotADirectory(p))
    else if p in d.unwritable then Failure(PermissionDenied(p))
    else Success(d.(dirs := d.dirs + {p}))
  }

  /** What a real disk guarantees: no path is both a file and a directory. */
  predicate ValidDisk(d: Disk) {
    d.files.Keys !! d.dirs
  }

  /** A write never turns a directory into a file. */
  lemma WriteKeepsDiskValid(d: Disk, p: Path, data: Bytes)
    requires ValidDisk(d) && WriteFileOf(d, p, data).Success?
    ensures ValidDisk(WriteFileOf(d, p, data).value)
  {
  }

  /** `MkdirAll` never turns a file into a directory. */
  lemma MkdirAllKeepsDiskValid(d: Disk, p: Path)
    requires ValidDisk(d) && MkdirAllOf(d, p).Success?
    ensures ValidDisk(MkdirAllOf(d, p).value)
  {
  }

  /** On a valid disk, a readable path that is a file reads as its content. */
  lemma ReadOfValidFile(d: Disk, p: Path)
    requires ValidDisk(d) && p in d.files && p !in d.unreadable
    ensures ReadFileOf(d, p) == Success(d.files[p])
  {
  }

  /** A file just written reads back as what was written, if it may be read. */
  lemma ReadAfterWrite(d: Disk, p: Path, data: Bytes)
    requires WriteFileOf(d, p, data).Success? && p !in d.unreadable
    ensures ReadFileOf(WriteFileOf(d, p, data).value, p) == Success(data)
  {
  }

  /** Writing one path changes what no other path reads, stats or holds. */
  lemma WriteLeavesOthers(d: Disk, p: Path, data: Bytes, q: Path)
    requires WriteFileOf(d, p, data).Success? && q != p
    ensures ReadFileOf(WriteFileOf(d, p, data).value, q) == ReadFileOf(d, q)
    ensures StatOf(WriteFileOf(d, p, data).value, q) == StatOf(d, q)
  {
  }

  /** The process's view of the disk, which the operations change in place. */
  class FileSystem {
    var disk: Disk

    constructor (d: Disk)
      ensures disk == d
    {
      disk := d;
    }

    method Stat(p: Path) returns (err: Option<FsError>)
      ensures err == StatOf(disk, p)
    {
      if p in disk.files || p in disk.dirs {
        err := None;
      } else {
        err := Some(NotExist(p));
      }
    }

    method ReadFile(p: Path) returns (r: Result<Bytes, FsError>)
      ensures r == ReadFileOf(disk, p)
    {
      r := ReadFileOf(disk, p);
    }

    method WriteFile(p: Path, data: Bytes) returns (err: Option<FsError>)
      modifies this
      ensures match WriteFileOf(old(disk), p, data)
              case Success(d) => disk == d && err == None
              case Failure(e) => disk == old(disk) && err == Some(e)
    {
      match WriteFileOf(disk, p, data)
      case Success(d) =>
        disk := d;
        err := None;
      case Failure(e) =>
        err := Some(e);
    }

    method MkdirAll(p: Path) returns (err: Option<FsError>)
      modifies this
      ensures match MkdirAllOf(old(disk), p)
              case Success(d) => disk == d && err == None
              case Failure(e) => disk == old(disk) && err == Some(e)
    {
      match MkdirAllOf(disk, p)
      case Success(d) =>
        disk := d;
        err := None;
      case Failure(e) =>
        err := Some(e);
    }
  }
}
