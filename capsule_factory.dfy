/**
  * Locating the capsule for a request: by hostname alias when the resolver
  * knows the hostname, otherwise by the first '/'-piece of the URL's
  * pathname; the capsule exists only when its directory does.
  */
module Factory {
  import opened Common
  import opened Text
  import opened Paths
  import opened FileSystem
  import opened CNames
  import opened Requests
  import opened Capsules
  import CapsuleProperties

  /** The `{ fromCName, capsuleDir }` record of `findCapsuleDir`. */
  datatype CapsuleDirChoice = CapsuleDirChoice(fromCName: bool, capsuleDir: string)

  /** Why `findCapsule` rejects: no such capsule directory (the "Not Found" error), or the alias scan's own listing failed. */
  datatype LocateError = NoCapsule | ScanFailed

  /** The resolver's answer for a hostname: the cached directory for exactly that key, or null. */
  function CachedDir(cache: map<string, string>, hostname: string): (r: Option<string>)
    ensures r.Some? <==> hostname in cache
    ensures r.Some? ==> r.value == cache[hostname]
  {
    if hostname in cache then Some(cache[hostname]) else None
  }

  /**
    * The mode decision of `findCapsuleDir`: a truthy (non-empty) alias wins;
    * otherwise the capsule directory is the text of the pathname before its
    * first '/' (all of it when there is none).
    */
  function SelectCapsuleDir(alias: Option<string>, pathname: string): (c: CapsuleDirChoice)
    ensures c.fromCName <==> alias.Some? && alias.value != ""
    ensures c.fromCName ==> c.capsuleDir == alias.value
    ensures !c.fromCName ==>
      StartsWith(pathname, c.capsuleDir) && '/' !in c.capsuleDir
      && (|c.capsuleDir| == |pathname| || pathname[|c.capsuleDir|] == '/')
  {
    if alias.Some? && alias.value != "" then CapsuleDirChoice(true, alias.value)
    else
      SplitHead(pathname);
      SplitPieces(pathname);
      CapsuleDirChoice(false, Split(pathname)[0])
  }

  /** Without an alias, a pathname starting with '/' selects directory "". */
  lemma LeadingSlashSelectsDataDir(alias: Option<string>, pathname: string)
    requires !(alias.Some? && alias.value != "")
    requires pathname != [] && pathname[0] == '/'
    ensures SelectCapsuleDir(alias, pathname) == CapsuleDirChoice(false, "")
  {
  }

  /**
    * The directory check of `findCapsule`: a capsule based at
    * `join(dataDir, capsuleDir)` exactly when that path is a directory; a
    * failed stat and a non-directory are both Not Found.
    */
  function LocateCapsule(cwd: string, fs: Snapshot, dataDir: string, choice: CapsuleDirChoice): (r: Result<Capsule, LocateError>)
    ensures r.Ok? <==> IsDirectory(fs, cwd, Join(dataDir, choice.capsuleDir))
    ensures r.Ok? ==>
      r.value.basePath == Join(dataDir, choice.capsuleDir) && r.value.fromCName == choice.fromCName
      && r.value.basePathAbsolute == Resolve(cwd, r.value.basePath)
    ensures r.Err? ==> r.error == NoCapsule
  {
    var capsulePath := Join(dataDir, choice.capsuleDir);
    match Stat(fs, cwd, capsulePath)
    case Some(Directory(_, _)) => Ok(NewCapsule(cwd, capsulePath, choice.fromCName))
    case _ => Err(NoCapsule)
  }

  /**
    * The capsule directory as `findCapsule` evidently means it: a single name
    * below the data directory. A path-mode `..` (or any name with a '/') is
    * Not Found; otherwise this is `LocateCapsule`. Every capsule it gives lies
    * inside the data directory.
    */
  function LocateCapsuleInside(cwd: string, fs: Snapshot, dataDir: string, choice: CapsuleDirChoice): (r: Result<Capsule, LocateError>)
    ensures r.Ok? <==> choice.capsuleDir != ".." && '/' !in choice.capsuleDir && IsDirectory(fs, cwd, Join(dataDir, choice.capsuleDir))
    ensures r.Ok? ==> r == LocateCapsule(cwd, fs, dataDir, choice)
    ensures r.Ok? ==>
      Descends(cwd, r.value.basePath, dataDir)
      && StartsWith(r.value.basePathAbsolute, Resolve(cwd, dataDir))
    ensures r.Err? ==> r.error == NoCapsule
  {
    if choice.capsuleDir == ".." || '/' in choice.capsuleDir then Err(NoCapsule)
    else
      NameStaysInside(cwd, dataDir, choice.capsuleDir);
      LocateCapsule(cwd, fs, dataDir, choice)
  }

  /** Joining one name other than ".." to a directory gives a path inside it. */
  lemma NameStaysInside(cwd: string, dataDir: string, d: string)
    requires '/' !in d && d != ".."
    ensures Descends(cwd, Join(dataDir, d), dataDir)
    ensures StartsWith(Resolve(cwd, Join(dataDir, d)), Resolve(cwd, dataDir))
  {
    SegmentsJoin(cwd, dataDir, d);
    if d != "" {
      SplitNoSlash(d);
      assert NoUpSegments(Split(d));
      if dataDir == "" {
        SplitAppend(cwd, d);
        FoldAppend([], Split(cwd), [d], false);
        SegmentsOfCurrent(cwd);
        FoldKeepsPrefix(Segments(cwd, dataDir), [d], false);
      } else {
        SegmentsAppend(cwd, dataDir, d);
        FoldKeepsPrefix(Segments(cwd, dataDir), [d], false);
      }
    }
    JoinPrefix(Segments(cwd, dataDir), Segments(cwd, Join(dataDir, d)));
  }

  /**
    * As written, a path-mode pathname whose first piece is ".." escapes the
    * data directory. The request `gemini:../etc/passwd` has hostname "" (never
    * a cache key) and pathname `../etc/passwd`; with data directory `/data`
    * the capsule is `/`, and `/etc/passwd` passes its guard.
    */
  lemma DotDotCapsuleEscapesDataDir(dirs: seq<DirEntry>, cwd: string, fs: Snapshot)
    requires IsDirectory(fs, cwd, "/")
    ensures SelectCapsuleDir(CachedDir(CacheFrom(dirs), ""), "../etc/passwd") == CapsuleDirChoice(false, "..")
    ensures LocateCapsule(cwd, fs, "/data", CapsuleDirChoice(false, "..")) == Ok(Capsule("/", false, "/"))
    ensures !StartsWith("/", Resolve(cwd, "/data"))
    ensures ResolvePath(Capsule("/", false, "/"), cwd, "../etc/passwd") == "/etc/passwd"
    ensures PassesGuard(Capsule("/", false, "/"), "/etc/passwd")
    ensures LocateCapsuleInside(cwd, fs, "/data", CapsuleDirChoice(false, "..")) == Err(NoCapsule)
  {
    DotDotFirstPiece();
    DataParentIsRoot();
    RootResolves(cwd);
    DataResolves(cwd);
    EtcPasswd(cwd);
  }

  lemma DotDotFirstPiece()
    ensures Split("../etc/passwd")[0] == ".."
  {
    assert "../etc/passwd" == ".." + "/" + "etc/passwd";
    SplitAppend("..", "etc/passwd");
    SplitNoSlash("..");
  }

  lemma SplitThree(a: string, b: string, c: string)
    requires '/' !in a && '/' !in b && '/' !in c
    ensures Split(a + "/" + b + "/" + c) == [a, b, c]
  {
    assert a + "/" + b + "/" + c == a + "/" + (b + "/" + c);
    SplitAppend(a, b + "/" + c);
    SplitAppend(b, c);
    SplitNoSlash(a);
    SplitNoSlash(b);
    SplitNoSlash(c);
  }

  lemma DataParentIsRoot()
    ensures Join("/data", "..") == "/"
  {
    assert JoinArgs("/data", "..") == "" + "/" + "data" + "/" + "..";
    SplitThree("", "data", "..");
    var segs: seq<string> := ["", "data", ".."];
    assert segs[1..] == ["data", ".."] && segs[1..][1..] == [".."] && segs[1..][1..][1..] == [];
    assert Fold([], segs, false) == [];
  }

  lemma RootResolves(cwd: string)
    ensures Resolve(cwd, "/") == "/"
  {
    assert "/" == "" + "/" + "";
    SplitAppend("", "");
    SplitNoSlash("");
    FoldTwoEmpty();
  }

  lemma DataResolves(cwd: string)
    ensures Resolve(cwd, "/data") == "/data"
  {
    assert "/data" == "" + "/" + "data";
    SplitAppend("", "data");
    SplitNoSlash("");
    SplitNoSlash("data");
    var segs: seq<string> := ["", "data"];
    assert segs[1..] == ["data"] && segs[1..][1..] == [];
    assert Fold([], segs, false) == ["data"];
  }

  /** A two-name path below the root is already normal, and joining it to "/" gives it back. */
  lemma TwoNamesBelowRoot(cwd: string, a: string, b: string)
    requires '/' !in a && '/' !in b
    requires a != "" && a != "." && a != ".." && b != "" && b != "." && b != ".."
    ensures Join("/", a + "/" + b) == "/" + a + "/" + b
    ensures Resolve(cwd, "/" + a + "/" + b) == "/" + a + "/" + b
  {
    var names := [a, b];
    assert NoDotSegments(names) && NoUpSegments(names);
    FoldPlain([], names, false);
    assert [] + names == names;
    TwoNamesJoined(a, b);
    SplitBelowRoot(a, b);
    JoinBelowRoot(a, b);
    ResolveBelowRoot(cwd, a, b);
  }

  lemma JoinBelowRoot(a: string, b: string)
    requires Split("/" + "/" + a + "/" + b) == ["", ""] + [a, b]
    requires Fold([], [a, b], false) == [a, b] && JoinWith([a, b], "/") == a + "/" + b
    ensures Join("/", a + "/" + b) == "/" + a + "/" + b
  {
    var p := JoinArgs("/", a + "/" + b);
    assert p == "/" + "/" + a + "/" + b;
    assert p != "" && p[0] == '/';
    FoldTwoEmpty();
    FoldAppend([], ["", ""], [a, b], false);
    assert Normalize(p) == "/" + JoinWith(Fold([], Split(p), false), "/");
  }

  lemma ResolveBelowRoot(cwd: string, a: string, b: string)
    requires Split("/" + a + "/" + b) == [""] + [a, b]
    requires Fold([], [a, b], false) == [a, b] && JoinWith([a, b], "/") == a + "/" + b
    ensures Resolve(cwd, "/" + a + "/" + b) == "/" + a + "/" + b
  {
    var p := "/" + a + "/" + b;
    assert p[0] == '/';
    assert Absolutize(cwd, p) == p;
    var t := Fold([], [""], false);
    assert t == [];
    FoldAppend([], [""], [a, b], false);
    assert Segments(cwd, p) == Fold(t, [a, b], false);
  }

  lemma TwoNamesJoined(a: string, b: string)
    ensures JoinWith([a, b], "/") == a + "/" + b
  {
    assert [a, b][1..] == [b];
  }

  lemma SplitBelowRoot(a: string, b: string)
    requires '/' !in a && '/' !in b
    ensures Split("/" + a + "/" + b) == [""] + [a, b]
    ensures Split("/" + "/" + a + "/" + b) == ["", ""] + [a, b]
  {
    SplitThree("", a, b);
    assert "/" + a + "/" + b == "" + "/" + a + "/" + b;
    assert "/" + "/" + a + "/" + b == "" + "/" + ("/" + a + "/" + b);
    SplitAppend("", "/" + a + "/" + b);
    SplitNoSlash("");
  }

  /** In path mode the first piece is dropped, so `h/a/b` under the root capsule resolves to `/a/b`. */
  lemma RootCapsuleServes(cwd: string, h: string, a: string, b: string)
    requires '/' !in h && '/' !in a && '/' !in b
    requires a != "" && a != "." && a != ".." && b != "" && b != "." && b != ".."
    ensures ResolvePath(Capsule("/", false, "/"), cwd, h + "/" + (a + "/" + b)) == "/" + a + "/" + b
  {
    CapsuleProperties.PathModeDropsFirstSegment(Capsule("/", false, "/"), cwd, h, a + "/" + b);
    TwoNamesBelowRoot(cwd, a, b);
  }

  lemma EtcPasswd(cwd: string)
    ensures ResolvePath(Capsule("/", false, "/"), cwd, "../etc/passwd") == "/etc/passwd"
  {
    EtcPasswdLiterals();
    RootCapsuleServes(cwd, "..", "etc", "passwd");
  }

  lemma EtcPasswdLiterals()
    ensures ".." + "/" + ("etc" + "/" + "passwd") == "../etc/passwd"
    ensures "/" + "etc" + "/" + "passwd" == "/etc/passwd"
  {
  }

  /**
    * As written, the bare prefix guard lets a request out through capsule ".".
    * With data directory `/a/b`, the request `gemini:./../<b+e>/f` (hostname "",
    * opaque pathname) selects directory ".", which the corrected locator
    * accepts because `join(dataDir, ".")` is the data directory. The path then
    * resolves to the sibling `/a/<b+e>/f`, which starts with `/a/b` and passes
    * `PassesGuard`, but does not lie below it; the corrected guard, and so
    * `Read`, refuses it.
    */
  lemma DotCapsuleReachesSibling(dirs: seq<DirEntry>, cwd: string, fs: Snapshot, table: map<string, string>,
                                 a: string, b: string, e: string, f: string)
    requires PlainName(a) && PlainName(b) && PlainName(b + e) && PlainName(f) && e != ""
    requires IsDirectory(fs, cwd, Join("/" + a + "/" + b, "."))
    ensures SelectCapsuleDir(CachedDir(CacheFrom(dirs), ""), "./../" + (b + e) + "/" + f) == CapsuleDirChoice(false, ".")
    ensures LocateCapsuleInside(cwd, fs, "/" + a + "/" + b, CapsuleDirChoice(false, ".")).Ok?
    ensures var c := LocateCapsuleInside(cwd, fs, "/" + a + "/" + b, CapsuleDirChoice(false, ".")).value;
      var path := ResolvePath(c, cwd, "./../" + (b + e) + "/" + f);
      c.basePathAbsolute == "/" + a + "/" + b
      && path == "/" + a + "/" + (b + e) + "/" + f
      && PassesGuard(c, path)
      && !PassesGuardInside(c, cwd, path)
      && Read(c, cwd, fs, table, "./../" + (b + e) + "/" + f) == NotFound
  {
    var x := b + e;
    var rest := "../" + x + "/" + f;
    var pathname := "./../" + x + "/" + f;
    DotPathname(x, f);
    DotFirstPiece(rest);
    assert SelectCapsuleDir(CachedDir(CacheFrom(dirs), ""), pathname) == CapsuleDirChoice(false, ".");
    var d := "/" + a + "/" + b;
    var choice := CapsuleDirChoice(false, ".");
    var c := LocateCapsuleInside(cwd, fs, d, choice).value;
    assert c == Capsule(Join(d, "."), false, Resolve(cwd, Join(d, ".")));
    DotJoinedBase(cwd, a, b);
    CapsuleProperties.PathModeDropsFirstSegment(c, cwd, ".", rest);
    assert ResolvePath(c, cwd, pathname) == Resolve(cwd, Join(c.basePath, rest));
    UpRestSplit(x, f);
    UpThenSibling(cwd, c.basePath, rest, a, b, x, f);
    SiblingText(a, b, e, f);
    assert x != b;
    SiblingNotBelow(cwd, a, b, x, f);
  }

  lemma DotPathname(x: string, f: string)
    ensures "./../" + x + "/" + f == "." + "/" + ("../" + x + "/" + f)
  {
  }

  /** `/a/x/f` is not `/a/b` or below it when `x` is not `b`. */
  lemma SiblingNotBelow(cwd: string, a: string, b: string, x: string, f: string)
    requires PlainName(a) && PlainName(b) && PlainName(x) && PlainName(f) && x != b
    ensures !Descends(cwd, "/" + a + "/" + x + "/" + f, "/" + a + "/" + b)
  {
    TwoNamesSegments(cwd, a, b);
    ThreeNamesSegments(cwd, a, x, f);
    SegmentsDiffer(cwd, "/" + a + "/" + x + "/" + f, "/" + a + "/" + b, a, b, x, f);
  }

  lemma SegmentsDiffer(cwd: string, p: string, q: string, a: string, b: string, x: string, f: string)
    requires Segments(cwd, p) == [a, x, f] && Segments(cwd, q) == [a, b] && x != b
    ensures !Descends(cwd, p, q)
  {
    assert [a, x, f][..2][1] == x;
  }

  lemma TwoNamesSegments(cwd: string, a: string, b: string)
    requires PlainName(a) && PlainName(b)
    ensures Segments(cwd, "/" + a + "/" + b) == [a, b]
  {
    TwoNamesJoined(a, b);
    SegmentsOfText(cwd, [a, b], "/" + a + "/" + b);
  }

  lemma ThreeNamesSegments(cwd: string, a: string, x: string, f: string)
    requires PlainName(a) && PlainName(x) && PlainName(f)
    ensures Segments(cwd, "/" + a + "/" + x + "/" + f) == [a, x, f]
  {
    ThreeNamesJoined(a, x, f);
    SegmentsOfText(cwd, [a, x, f], "/" + a + "/" + x + "/" + f);
  }

  lemma SegmentsOfText(cwd: string, s: seq<string>, p: string)
    requires forall k :: 0 <= k < |s| ==> PlainName(s[k])
    requires p == "/" + JoinWith(s, "/")
    ensures Segments(cwd, p) == s
  {
    SegmentsOfPlain(cwd, s);
  }

  /** A name that resolving keeps as one segment: no '/', not empty, not "." or "..". */
  predicate PlainName(n: string)
  {
    '/' !in n && n != "" && n != "." && n != ".."
  }

  lemma DotFirstPiece(rest: string)
    ensures Split("." + "/" + rest)[0] == "."
  {
    SplitAppend(".", rest);
    SplitNoSlash(".");
  }

  /** `join("/a/b", ".")` has the segments `[a, b]` and resolves to `/a/b`. */
  lemma DotJoinedBase(cwd: string, a: string, b: string)
    requires PlainName(a) && PlainName(b)
    ensures Segments(cwd, Join("/" + a + "/" + b, ".")) == [a, b]
    ensures Resolve(cwd, Join("/" + a + "/" + b, ".")) == "/" + a + "/" + b
  {
    var d := "/" + a + "/" + b;
    TwoNamesJoined(a, b);
    assert Plain([a, b]);
    SegmentsOfPlain(cwd, [a, b]);
    assert "/" + JoinWith([a, b], "/") == d;
    SegmentsJoin(cwd, d, ".");
    SegmentsAppend(cwd, d, ".");
    SplitNoSlash(".");
    assert Fold([a, b], ["."], false) == Fold([a, b], [], false);
  }

  /** Below a base with segments `[a, b]`, a path `../x/f` resolves to `/a/x/f`. */
  lemma UpThenSibling(cwd: string, base: string, rest: string, a: string, b: string, x: string, f: string)
    requires base != "" && Segments(cwd, base) == [a, b]
    requires PlainName(a) && PlainName(b) && PlainName(x) && PlainName(f)
    requires rest != "" && Split(rest) == ["..", x, f]
    ensures Resolve(cwd, Join(base, rest)) == "/" + a + "/" + x + "/" + f
  {
    var p := Join(base, rest);
    UpThenSiblingSegments(cwd, base, rest, a, b, x, f);
    ThreeNamesText(a, x, f);
    ResolveFromSegments(cwd, p, [a, x, f], "/" + a + "/" + x + "/" + f);
  }

  lemma ThreeNamesText(a: string, x: string, f: string)
    ensures "/" + JoinWith([a, x, f], "/") == "/" + a + "/" + x + "/" + f
  {
    ThreeNamesJoined(a, x, f);
  }

  lemma UpRestSplit(x: string, f: string)
    requires PlainName(x) && PlainName(f)
    ensures Split("../" + x + "/" + f) == ["..", x, f]
  {
    assert "../" + x + "/" + f == ".." + "/" + x + "/" + f;
    SplitThree("..", x, f);
  }

  lemma UpThenSiblingSegments(cwd: string, base: string, rest: string, a: string, b: string, x: string, f: string)
    requires base != "" && rest != "" && Segments(cwd, base) == [a, b] && Split(rest) == ["..", x, f]
    requires PlainName(b) && PlainName(x) && PlainName(f)
    ensures Segments(cwd, Join(base, rest)) == [a, x, f]
  {
    SegmentsJoin(cwd, base, rest);
    assert JoinArgs(base, rest) == base + "/" + rest;
    SegmentsAppend(cwd, base, rest);
    UpThenSiblingFold(a, b, x, f);
  }

  lemma ResolveFromSegments(cwd: string, p: string, s: seq<string>, t: string)
    requires Segments(cwd, p) == s && t == "/" + JoinWith(s, "/")
    ensures Resolve(cwd, p) == t
  {
  }

  lemma UpThenSiblingFold(a: string, b: string, x: string, f: string)
    requires PlainName(b) && PlainName(x) && PlainName(f)
    ensures Fold([a, b], ["..", x, f], false) == [a, x, f]
  {
    var segs := ["..", x, f];
    assert segs[0] == ".." && segs[1..] == [x, f];
    assert [a, b][..1] == [a];
    assert Step([a, b], "..", false) == [a];
    assert [x, f][0] == x && [x, f][1..] == [f];
    assert Step([a], x, false) == [a, x];
    assert [f][0] == f && [f][1..] == [];
    assert Step([a, x], f, false) == [a, x, f];
    assert Fold([a, x], [f], false) == Fold([a, x, f], [], false);
    assert Fold([a], [x, f], false) == Fold([a, x], [f], false);
    assert Fold([a, b], segs, false) == Fold([a], [x, f], false);
  }

  lemma ThreeNamesJoined(a: string, x: string, f: string)
    ensures JoinWith([a, x, f], "/") == a + "/" + x + "/" + f
  {
    assert [a, x, f][1..] == [x, f];
    TwoNamesJoined(x, f);
  }

  /** `/a/<b+e>/f` starts with `/a/b` but its segments do not extend `[a, b]`. */
  lemma SiblingText(a: string, b: string, e: string, f: string)
    ensures StartsWith("/" + a + "/" + (b + e) + "/" + f, "/" + a + "/" + b)
  {
    var t := "/" + a + "/" + b;
    assert "/" + a + "/" + (b + e) + "/" + f == t + (e + "/" + f);
  }

  /**
    * A path-mode capsule for a pathname starting with '/' is the data directory
    * itself, and the request's first segment becomes a directory below it.
    */
  lemma PathModeServesFromDataDir(cwd: string, fs: Snapshot, dataDir: string, alias: Option<string>, rest: string)
    requires !(alias.Some? && alias.value != "")
    requires LocateCapsule(cwd, fs, dataDir, SelectCapsuleDir(alias, "/" + rest)).Ok?
    ensures var c := LocateCapsule(cwd, fs, dataDir, SelectCapsuleDir(alias, "/" + rest)).value;
      c.basePathAbsolute == Resolve(cwd, dataDir)
      && ResolvePath(c, cwd, "/" + rest) == Resolve(cwd, Join(c.basePath, rest))
  {
    LeadingSlashSelectsDataDir(alias, "/" + rest);
    var c := LocateCapsule(cwd, fs, dataDir, SelectCapsuleDir(alias, "/" + rest)).value;
    SegmentsJoin(cwd, dataDir, "");
    assert "" + "/" + rest == "/" + rest;
    CapsuleProperties.PathModeDropsFirstSegment(c, cwd, "", rest);
  }

  /**
    * Alias routing after a scan of the directories `dirs`: a hostname that the
    * scan cached is served from the last of them, in scan order, whose CNAME
    * names it.
    */
  lemma AliasChoiceIsLastOwner(dirs: seq<DirEntry>, hostname: string, pathname: string)
    requires hostname in CacheFrom(dirs)
    ensures SelectCapsuleDir(CachedDir(CacheFrom(dirs), hostname), pathname).fromCName ==>
      LastOwner(dirs, hostname) == Some(SelectCapsuleDir(CachedDir(CacheFrom(dirs), hostname), pathname).capsuleDir)
  {
    CacheIsLastOwner(dirs, hostname);
  }

  class CapsuleFactory {
    const hostname: string
    const dataDir: string
    const cnameResolver: CNameResolver

    constructor(hostname: string, dataDir: string)
      ensures this.hostname == hostname && this.dataDir == dataDir
      ensures fresh(cnameResolver) && cnameResolver.dataDir == dataDir
      ensures cnameResolver.nextUpdateAt == 0 && cnameResolver.cache == map[]
    {
      this.hostname := hostname;
      this.dataDir := dataDir;
      cnameResolver := new CNameResolver(dataDir);
    }

    /**
      * `findCapsuleDir`: ask the resolver (refreshing it if due), then choose
      * the mode; a failed listing of the data directory rejects.
      */
    method FindCapsuleDir(url: Url, now: int, scan: Scan) returns (r: Result<CapsuleDirChoice, LocateError>)
      modifies cnameResolver
      ensures cnameResolver.RefreshedAt(now, scan)
      ensures r.Err? <==> now >= old(cnameResolver.nextUpdateAt) && scan.None?
      ensures r.Err? ==> r.error == ScanFailed
      ensures r.Ok? ==> r.value == SelectCapsuleDir(CachedDir(cnameResolver.cache, url.hostname), url.pathname)
    {
      var fromCName := cnameResolver.FindCapsuleDir(url.hostname, now, scan);
      if fromCName.Err? {
        return Err(ScanFailed);
      }
      if fromCName.value.Some? && fromCName.value.value != "" {
        return Ok(CapsuleDirChoice(true, fromCName.value.value));
      }
      return Ok(CapsuleDirChoice(false, Split(url.pathname)[0]));
    }

    /** `findCapsule`: the chosen directory under `dataDir`, if it is a directory. */
    method FindCapsule(url: Url, now: int, scan: Scan, cwd: string, fs: Snapshot) returns (r: Result<Capsule, LocateError>)
      modifies cnameResolver
      ensures cnameResolver.RefreshedAt(now, scan)
      ensures r == Err(ScanFailed) <==> now >= old(cnameResolver.nextUpdateAt) && scan.None?
      ensures r != Err(ScanFailed) ==>
        r == LocateCapsuleInside(cwd, fs, dataDir, SelectCapsuleDir(CachedDir(cnameResolver.cache, url.hostname), url.pathname))
    {
      var choice := FindCapsuleDir(url, now, scan);
      if choice.Err? {
        return Err(choice.error);
      }
      r := LocateCapsuleInside(cwd, fs, dataDir, choice.value);
    }
  }
}
