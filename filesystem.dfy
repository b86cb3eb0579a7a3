/**
  * The part of the filesystem the server consults, as a snapshot: a map from
  * resolved absolute paths to nodes. Each node also records what the calls
  * made on it report (`access(R_OK)`, `readdir`, opening a read stream), so
  * outcomes that differ between calls, such as a `stat` that succeeds and an
  * open that then fails, can be stated. There is no notion of time between
  * calls.
  */
module FileSystem {
  import opened Common
  import opened Paths

  datatype ErrorCode = ENOENT | OtherError(name: string)

  /**
    * What a read stream reports: either an 'error' event instead of 'open',
    * or the 'open' event followed, when a later read fails, by an 'error' event.
    */
  datatype OpenResult = Opened(readError: Option<ErrorCode>) | OpenFailed(code: ErrorCode)

  datatype Node =
    | File(readable: bool, open: OpenResult)
    | Directory(readable: bool, listing: Option<seq<string>>)

  type Snapshot = map<string, Node>

  /** `stat(p)`: the node at the resolved path, `None` when the call fails. */
  function Stat(fs: Snapshot, cwd: string, p: string): Option<Node>
  {
    var key := Resolve(cwd, p);
    if key in fs then Some(fs[key]) else None
  }

  predicate IsDirectory(fs: Snapshot, cwd: string, p: string)
  {
    Stat(fs, cwd, p).Some? && Stat(fs, cwd, p).value.Directory?
  }

  /** `access(p, R_OK)` succeeds. */
  predicate Accessible(fs: Snapshot, cwd: string, p: string)
  {
    Stat(fs, cwd, p).Some? && Stat(fs, cwd, p).value.readable
  }

  /** `readdir(p)`: the entry names in the order the call returns them, `None` when it fails. */
  function ReadDir(fs: Snapshot, cwd: string, p: string): Option<seq<string>>
  {
    match Stat(fs, cwd, p)
    case Some(Directory(_, listing)) => listing
    case _ => None
  }

  /**
    * A read stream on `p`. A readable directory opens, and its first read
    * then fails with EISDIR.
    */
  function Open(fs: Snapshot, cwd: string, p: string): (r: OpenResult)
    ensures IsDirectory(fs, cwd, p) && Stat(fs, cwd, p).value.readable ==> r == Opened(Some(OtherError("EISDIR")))
    ensures Stat(fs, cwd, p).None? ==> r == OpenFailed(ENOENT)
  {
    match Stat(fs, cwd, p)
    case None => OpenFailed(ENOENT)
    case Some(File(_, open)) => open
    case Some(Directory(readable, _)) => if readable then Opened(Some(OtherError("EISDIR"))) else OpenFailed(OtherError("EACCES"))
  }
}
