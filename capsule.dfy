/**
  * One capsule: a base directory and whether it was chosen through a CNAME
  * alias. `Read` maps a request path to what the server sends: a file stream
  * with its status line, a directory index, a synthesized listing, a null
  * listing, or Not Found.
  */
module Capsules {
  import opened Common
  import opened Text
  import opened Paths
  import opened FileSystem
  import opened MimeTypes

  /** The fields the constructor sets once: `basePath`, `fromCName` and `basePathAbsolute`. */
  datatype Capsule = Capsule(basePath: string, fromCName: bool, basePathAbsolute: string)

  function NewCapsule(cwd: string, capsulePath: string, fromCName: bool): Capsule
  {
    Capsule(capsulePath, fromCName, Resolve(cwd, capsulePath))
  }

  // --- path derivation

  /** `p.split('/').slice(1).join('/')`: everything after the first '/', or "" when there is none. */
  function DropFirstSegment(p: string): (r: string)
    ensures '/' !in p ==> r == ""
    ensures '/' in p ==> p == Split(p)[0] + "/" + r && '/' !in Split(p)[0]
  {
    SplitHead(p);
    SplitPieces(p);
    JoinWith(Split(p)[1..], "/")
  }

  /** The path relative to the base: all of it for an alias capsule, without its first segment otherwise. */
  function RelativePath(c: Capsule, requestedPath: string): string
  {
    if c.fromCName then requestedPath else DropFirstSegment(requestedPath)
  }

  /** `resolvePath`: `resolve(join(basePath, relative))`. */
  function ResolvePath(c: Capsule, cwd: string, requestedPath: string): (r: string)
    ensures IsAbsolute(r)
    ensures c.fromCName ==> r == Resolve(cwd, Join(c.basePath, requestedPath))
    ensures !c.fromCName && '/' !in requestedPath ==> r == Resolve(cwd, Join(c.basePath, ""))
  {
    Resolve(cwd, Join(c.basePath, RelativePath(c, requestedPath)))
  }

  /** The traversal guard of `read`: a plain string-prefix test. */
  predicate PassesGuard(c: Capsule, path: string)
    ensures PassesGuard(c, path) ==> |c.basePathAbsolute| <= |path| && path[..|c.basePathAbsolute|] == c.basePathAbsolute
  {
    StartsWith(path, c.basePathAbsolute)
  }

  /** The resolved path's segments start with the base's segments: the path is the base or lies below it. */
  predicate Descends(cwd: string, path: string, base: string)
  {
    var s, b := Segments(cwd, path), Segments(cwd, base);
    |b| <= |s| && s[..|b|] == b
  }

  /**
    * The guard `read` evidently means: the prefix test, and the path is the
    * base or lies below it segment by segment, so a sibling whose name
    * extends the base's last segment is refused.
    */
  predicate PassesGuardInside(c: Capsule, cwd: string, path: string)
    ensures PassesGuardInside(c, cwd, path) ==> PassesGuard(c, path)
  {
    PassesGuard(c, path) && Descends(cwd, path, c.basePathAbsolute)
  }

  // --- file responses: the two stream callbacks of `handleFile`

  /** The response stream: lines written so far, the file piped into it, and whether it has ended. */
  datatype StreamState = StreamState(written: seq<string>, pipedFrom: Option<string>, ended: bool)

  const FreshStream := StreamState([], None, false)

  /** The line the 'error' callback writes for an error code. */
  function ErrorLine(filePath: string, code: ErrorCode): string
  {
    if code == ENOENT then "51 Not Found " + filePath + "\r\n" else "50 Sorry\r\n"
  }

  /** The 'open' callback: unless the response has ended, write the success header and start piping. */
  function OnOpen(st: StreamState, filePath: string, mimeType: string): (r: StreamState)
    ensures r.ended == st.ended
    ensures |st.written| <= |r.written| <= |st.written| + 1 && r.written[..|st.written|] == st.written
    ensures |r.written| > |st.written| ==> r.pipedFrom == Some(filePath)
  {
    if st.ended then st
    else StreamState(st.written + ["20 " + mimeType + "\r\n"], Some(filePath), false)
  }

  /** The 'error' callback: unless the response has ended, write the failure line and end it. */
  function OnError(st: StreamState, filePath: string, code: ErrorCode): (r: StreamState)
    ensures r.ended && r.pipedFrom == st.pipedFrom
    ensures |st.written| <= |r.written| <= |st.written| + 1 && r.written[..|st.written|] == st.written
  {
    if st.ended then st
    else StreamState(st.written + [ErrorLine(filePath, code)], st.pipedFrom, true)
  }

  /** Nothing is written once the response has ended. */
  lemma NothingAfterEnd(st: StreamState, filePath: string, mimeType: string, code: ErrorCode)
    requires st.ended
    ensures OnOpen(st, filePath, mimeType) == st && OnError(st, filePath, code) == st
  {
  }

  /**
    * `handleFile`: the events of the read stream applied to a fresh response.
    * A stream that opens gets `20 <mime>` and the file piped after it; when a
    * later read fails, the failure line follows and the response ends. A
    * stream that fails to open gets `51 Not Found <path>` for ENOENT and
    * `50 Sorry` otherwise, and the response ends.
    */
  function HandleFile(cwd: string, fs: Snapshot, table: map<string, string>, filePath: string): (r: StreamState)
    ensures 1 <= |r.written| <= 2
    ensures |r.written| == 1 <==> !(Open(fs, cwd, filePath).Opened? && Open(fs, cwd, filePath).readError.Some?)
    ensures r.pipedFrom.Some? <==> Open(fs, cwd, filePath).Opened?
    ensures r.ended <==> !(Open(fs, cwd, filePath) == Opened(None))
    ensures Open(fs, cwd, filePath).Opened? ==>
      r.written[0] == "20 " + LookupIn(table, filePath) + "\r\n" && r.pipedFrom == Some(filePath)
    ensures Open(fs, cwd, filePath).Opened? && Open(fs, cwd, filePath).readError.Some? ==>
      r.written == ["20 " + LookupIn(table, filePath) + "\r\n", ErrorLine(filePath, Open(fs, cwd, filePath).readError.value)]
    ensures Open(fs, cwd, filePath) == OpenFailed(ENOENT) ==>
      r.written == ["51 Not Found " + filePath + "\r\n"]
    ensures Open(fs, cwd, filePath).OpenFailed? && Open(fs, cwd, filePath).code != ENOENT ==>
      r.written == ["50 Sorry\r\n"]
  {
    var mimeType := LookupIn(table, filePath);
    match Open(fs, cwd, filePath)
    case Opened(None) => OnOpen(FreshStream, filePath, mimeType)
    case Opened(Some(code)) => OnError(OnOpen(FreshStream, filePath, mimeType), filePath, code)
    case OpenFailed(code) => OnError(FreshStream, filePath, code)
  }

  // --- directory listings

  const ListingHeader := "20 text/gemini \r"

  /** The entries that do not start with '.', in the order given. */
  function Visible(items: seq<string>): (v: seq<string>)
    ensures forall k :: 0 <= k < |v| ==> !StartsWith(v[k], ".")
    ensures forall x :: x in v <==> x in items && !StartsWith(x, ".")
  {
    if items == [] then []
    else (if StartsWith(items[0], ".") then [] else [items[0]]) + Visible(items[1..])
  }

  /** Hiding dot entries keeps the order of the rest: filtering distributes over concatenation. */
  lemma {:induction false} VisibleAppend(xs: seq<string>, ys: seq<string>)
    ensures Visible(xs + ys) == Visible(xs) + Visible(ys)
  {
    if xs == [] {
      assert xs + ys == ys;
    } else {
      assert (xs + ys)[0] == xs[0];
      assert (xs + ys)[1..] == xs[1..] + ys;
      VisibleAppend(xs[1..], ys);
      var head := if StartsWith(xs[0], ".") then [] else [xs[0]];
      assert head + (Visible(xs[1..]) + Visible(ys)) == (head + Visible(xs[1..])) + Visible(ys);
    }
  }

  /** One `=> name` line per visible entry, in the same order. */
  function LinkLines(items: seq<string>): (lines: seq<string>)
    ensures |lines| == |Visible(items)|
    ensures forall k :: 0 <= k < |lines| ==> lines[k] == "=> " + Visible(items)[k]
  {
    if items == [] then []
    else (if StartsWith(items[0], ".") then [] else ["=> " + items[0]]) + LinkLines(items[1..])
  }

  /** The page `makeDirectoryListing` builds: the header line and the link lines, joined by '\n'. */
  function ListingPage(items: seq<string>): string
  {
    JoinWith([ListingHeader] + LinkLines(items), "\n")
  }

  /**
    * A listing is the header followed, when some entry is visible, by '\n' and
    * the link lines; with no visible entry the page is the header alone and
    * carries no '\n' at all.
    */
  lemma ListingShape(items: seq<string>)
    ensures Visible(items) == [] ==> ListingPage(items) == ListingHeader
    ensures Visible(items) != [] ==>
      ListingPage(items) == ListingHeader + "\n" + JoinWith(LinkLines(items), "\n")
  {
    if Visible(items) != [] {
      JoinWithAppend([ListingHeader], LinkLines(items), "\n");
    }
  }

  /** `makeDirectoryListing`: the page, or `None` (null) when reading the directory fails. */
  function MakeDirectoryListing(cwd: string, fs: Snapshot, dirPath: string): (r: Option<string>)
    ensures r.Some? <==> ReadDir(fs, cwd, dirPath).Some?
    ensures r.Some? ==> r.value == ListingPage(ReadDir(fs, cwd, dirPath).value)
  {
    match ReadDir(fs, cwd, dirPath)
    case Some(items) => Some(ListingPage(items))
    case None => None
  }

  // --- read

  /** What `read` resolves to (or, for `NotFound`, rejects with). */
  datatype ReadResult =
    | FileStream(stream: StreamState)
    | ListingStream(page: string)
    | NullListing
    | NotFound

  function IndexPath(dirPath: string): string
  {
    Join(dirPath, "index.gmi")
  }

  /** `handleDirectory`: a readable `index.gmi` is served as a file, otherwise the directory is listed. */
  function HandleDirectory(cwd: string, fs: Snapshot, table: map<string, string>, dirPath: string): (r: ReadResult)
    ensures r != NotFound
    ensures r.FileStream? <==> Accessible(fs, cwd, IndexPath(dirPath))
    ensures r.FileStream? ==> r.stream == HandleFile(cwd, fs, table, IndexPath(dirPath))
    ensures r.ListingStream? ==>
      ReadDir(fs, cwd, dirPath).Some? && r.page == ListingPage(ReadDir(fs, cwd, dirPath).value)
    ensures r == NullListing <==> !Accessible(fs, cwd, IndexPath(dirPath)) && ReadDir(fs, cwd, dirPath).None?
  {
    var indexFilePath := IndexPath(dirPath);
    if Accessible(fs, cwd, indexFilePath) then FileStream(HandleFile(cwd, fs, table, indexFilePath))
    else
      match MakeDirectoryListing(cwd, fs, dirPath)
      case Some(page) => ListingStream(page)
      case None => NullListing
  }

  /**
    * `read`: Not Found exactly when the resolved path fails the guard (the
    * filesystem is then not consulted) or cannot be stat'ed; a directory is
    * handled by `HandleDirectory`, anything else by `HandleFile`. The guard is
    * the corrected `PassesGuardInside`, not the bare prefix test.
    */
  function Read(c: Capsule, cwd: string, fs: Snapshot, table: map<string, string>, requestedPath: string): (r: ReadResult)
    ensures r == NotFound <==>
      !PassesGuardInside(c, cwd, ResolvePath(c, cwd, requestedPath)) || Stat(fs, cwd, ResolvePath(c, cwd, requestedPath)).None?
    ensures r != NotFound && IsDirectory(fs, cwd, ResolvePath(c, cwd, requestedPath)) ==>
      r == HandleDirectory(cwd, fs, table, ResolvePath(c, cwd, requestedPath))
    ensures r != NotFound && !IsDirectory(fs, cwd, ResolvePath(c, cwd, requestedPath)) ==>
      r == FileStream(HandleFile(cwd, fs, table, ResolvePath(c, cwd, requestedPath)))
  {
    var path := ResolvePath(c, cwd, requestedPath);
    if !PassesGuardInside(c, cwd, path) then NotFound
    else
      match Stat(fs, cwd, path)
      case None => NotFound
      case Some(Directory(_, _)) => HandleDirectory(cwd, fs, table, path)
      case Some(File(_, _)) => FileStream(HandleFile(cwd, fs, table, path))
  }
}

module CapsuleProperties {
  import opened Common
  import opened Text
  import opened Paths
  import opened FileSystem
  import opened Capsules
  import opened MimeTypes

  /** Without a capsule alias, the request path's first segment is dropped before joining. */
  lemma PathModeDropsFirstSegment(c: Capsule, cwd: string, head: string, rest: string)
    requires !c.fromCName && '/' !in head
    ensures ResolvePath(c, cwd, head + "/" + rest) == Resolve(cwd, Join(c.basePath, rest))
    ensures ResolvePath(c, cwd, head) == Resolve(cwd, Join(c.basePath, ""))
  {
    SplitAppend(head, rest);
    SplitNoSlash(head);
    assert ([head] + Split(rest))[1..] == Split(rest);
    JoinSplit(rest);
  }

  /**
    * When the request path has no ".." segment, the resolved path is a
    * descendant of the capsule base, and so passes the prefix guard.
    */
  lemma NoUpSegmentStaysInside(c: Capsule, cwd: string, requestedPath: string)
    requires c.basePath != "" && c.basePathAbsolute == Resolve(cwd, c.basePath)
    requires NoUpSegments(Split(requestedPath))
    ensures Descends(cwd, Join(c.basePath, RelativePath(c, requestedPath)), c.basePath)
    ensures PassesGuardInside(c, cwd, ResolvePath(c, cwd, requestedPath))
  {
    var rel := RelativePath(c, requestedPath);
    if !c.fromCName {
      var parts := Split(requestedPath);
      if |parts| > 1 {
        SplitPieces(requestedPath);
        SplitJoin(parts[1..]);
        assert Split(rel) == parts[1..];
        assert NoUpSegments(Split(rel)) by {
          forall k | 0 <= k < |Split(rel)| ensures Split(rel)[k] != ".." { assert Split(rel)[k] == parts[k + 1]; }
        }
      } else {
        assert rel == "";
      }
    }
    assert NoUpSegments(Split(rel));
    var sb := Segments(cwd, c.basePath);
    SegmentsJoin(cwd, c.basePath, rel);
    if rel != "" {
      SegmentsAppend(cwd, c.basePath, rel);
      FoldKeepsPrefix(sb, Split(rel), false);
    }
    JoinPrefix(sb, Segments(cwd, Join(c.basePath, rel)));
    SegmentsResolved(cwd, cwd, Join(c.basePath, rel));
    SegmentsResolved(cwd, cwd, c.basePath);
  }

  /** For a resolved base and a resolved path, the corrected guard is exactly segment-wise descent. */
  lemma GuardInsideIsDescent(c: Capsule, cwd: string, p: string)
    requires c.basePathAbsolute == Resolve(cwd, c.basePath)
    ensures PassesGuardInside(c, cwd, Resolve(cwd, p)) <==> Descends(cwd, Resolve(cwd, p), c.basePathAbsolute)
  {
    SegmentsResolved(cwd, cwd, p);
    SegmentsResolved(cwd, cwd, c.basePath);
    if Descends(cwd, Resolve(cwd, p), c.basePathAbsolute) {
      JoinPrefix(Segments(cwd, c.basePath), Segments(cwd, p));
    }
  }

  /**
    * The guard is a string-prefix test, not a descendant test: a sibling whose
    * name extends the base's last segment (`/data/ab` for base `/data/a`) passes it.
    */
  lemma SiblingPassesGuard(parent: seq<string>, name: string, extra: string)
    requires extra != ""
    ensures StartsWith("/" + JoinWith(parent + [name + extra], "/"), "/" + JoinWith(parent + [name], "/"))
    ensures parent + [name + extra] != parent + [name]
  {
    if parent != [] {
      JoinWithAppend(parent, [name + extra], "/");
      JoinWithAppend(parent, [name], "/");
      assert "/" + JoinWith(parent + [name + extra], "/") == ("/" + JoinWith(parent + [name], "/")) + extra;
    } else {
      assert [] + [name + extra] == [name + extra];
      assert [] + [name] == [name];
      assert "/" + (name + extra) == ("/" + name) + extra;
    }
    assert (parent + [name + extra])[|parent|] == name + extra;
  }

  /**
    * A directory whose `index.gmi` is itself a readable directory: the index
    * passes `access(R_OK)` and its stream opens, so `20 <mime>` is written, and
    * the first read fails with EISDIR, so `50 Sorry` follows and the response ends.
    */
  lemma IndexDirectoryGetsTwoStatusLines(cwd: string, fs: Snapshot, table: map<string, string>, dirPath: string)
    requires IsDirectory(fs, cwd, IndexPath(dirPath)) && Stat(fs, cwd, IndexPath(dirPath)).value.readable
    ensures HandleDirectory(cwd, fs, table, dirPath) ==
      FileStream(StreamState(["20 " + LookupIn(table, IndexPath(dirPath)) + "\r\n", "50 Sorry\r\n"], Some(IndexPath(dirPath)), true))
  {
  }

  /** A resolved path resolves to itself. */
  lemma ResolvedIsFixed(cwd: string, p: string)
    ensures Resolve(cwd, Resolve(cwd, p)) == Resolve(cwd, p)
  {
    SegmentsResolved(cwd, cwd, p);
  }

  /** `dir/index.gmi` resolves below `dir`, segment by segment and so as a string. */
  lemma IndexBelow(cwd: string, dirPath: string)
    requires dirPath != ""
    ensures Descends(cwd, IndexPath(dirPath), dirPath)
    ensures StartsWith(Resolve(cwd, IndexPath(dirPath)), Resolve(cwd, dirPath))
  {
    SegmentsJoin(cwd, dirPath, "index.gmi");
    SegmentsAppend(cwd, dirPath, "index.gmi");
    SplitNoSlash("index.gmi");
    FoldKeepsPrefix(Segments(cwd, dirPath), ["index.gmi"], false);
    JoinPrefix(Segments(cwd, dirPath), Segments(cwd, IndexPath(dirPath)));
  }

  /** Lying below is transitive. */
  lemma DescendsTransitive(cwd: string, p: string, q: string, r: string)
    requires Descends(cwd, p, q) && Descends(cwd, q, r)
    ensures Descends(cwd, p, r)
  {
    var sp, sq, sr := Segments(cwd, p), Segments(cwd, q), Segments(cwd, r);
    assert sp[..|sr|] == sp[..|sq|][..|sr|];
  }

  /**
    * Whatever `read` serves lies under the guard: the file it streams is
    * `basePathAbsolute` or lies below it segment by segment (and so starts with
    * it as a string), and the directory it lists passed the corrected guard.
    */
  lemma ServedPathsPassGuard(c: Capsule, cwd: string, fs: Snapshot, table: map<string, string>, requestedPath: string)
    ensures (Read(c, cwd, fs, table, requestedPath).FileStream? &&
               Read(c, cwd, fs, table, requestedPath).stream.pipedFrom.Some?) ==>
      StartsWith(Resolve(cwd, Read(c, cwd, fs, table, requestedPath).stream.pipedFrom.value), c.basePathAbsolute)
      && Descends(cwd, Read(c, cwd, fs, table, requestedPath).stream.pipedFrom.value, c.basePathAbsolute)
    ensures Read(c, cwd, fs, table, requestedPath).ListingStream? ==>
      PassesGuardInside(c, cwd, ResolvePath(c, cwd, requestedPath))
  {
    var path := ResolvePath(c, cwd, requestedPath);
    var r := Read(c, cwd, fs, table, requestedPath);
    if r.FileStream? && r.stream.pipedFrom.Some? {
      ResolvedIsFixed(cwd, Join(c.basePath, RelativePath(c, requestedPath)));
      if IsDirectory(fs, cwd, path) {
        assert r.stream.pipedFrom.value == IndexPath(path);
        IndexBelow(cwd, path);
        StartsWithTransitive(Resolve(cwd, IndexPath(path)), path, c.basePathAbsolute);
        DescendsTransitive(cwd, IndexPath(path), path, c.basePathAbsolute);
      }
    }
  }

  /** The link lines for `a.gmi`, `.hidden` and `b.txt`: the dot entry is left out. */
  lemma LinkLinesHideDotEntries()
    ensures LinkLines(["a.gmi", ".hidden", "b.txt"]) == ["=> a.gmi", "=> b.txt"]
  {
    var items := ["a.gmi", ".hidden", "b.txt"];
    assert "a.gmi"[..1] == "a" && ".hidden"[..1] == "." && "b.txt"[..1] == "b";
    assert items[1..] == [".hidden", "b.txt"] && items[1..][1..] == ["b.txt"] && items[1..][1..][1..] == [];
    assert "=> " + "b.txt" == "=> b.txt" && "=> " + "a.gmi" == "=> a.gmi";
    assert LinkLines(items[1..][1..]) == ["=> b.txt"] + [];
    assert LinkLines(items[1..]) == [] + LinkLines(items[1..][1..]);
  }

  /** The listing page of that directory: the header and two link lines. */
  lemma ListingHidesDotEntries()
    ensures ListingPage(["a.gmi", ".hidden", "b.txt"]) == "20 text/gemini \r\n=> a.gmi\n=> b.txt"
  {
    var items := ["a.gmi", ".hidden", "b.txt"];
    LinkLinesHideDotEntries();
    ListingShape(items);
    var links: seq<string> := ["=> a.gmi", "=> b.txt"];
    assert links[1..] == ["=> b.txt"];
    assert JoinWith(links, "\n") == "=> a.gmi" + "\n" + "=> b.txt";
    ListingLiteral();
  }

  lemma ListingLiteral()
    ensures ListingHeader + "\n" + ("=> a.gmi" + "\n" + "=> b.txt") == "20 text/gemini \r\n=> a.gmi\n=> b.txt"
  {
  }
}
