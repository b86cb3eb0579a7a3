/**
  * The extension-to-MIME-type table: seeded with `gmi -> text/gemini`, then
  * filled from the MIME database (a sequence of types, each with its
  * extensions, in the database's iteration order), and the `lookup` that
  * takes a file path's extension, lower-cases it and reads the table.
  */
module MimeTypes {
  import opened Common
  import opened Text

  const GemtextType := "text/gemini"
  const DefaultType := "application/octet-stream"

  /** One entry of the MIME database; an entry without extensions has the empty sequence. */
  datatype DbEntry = DbEntry(mimeType: string, extensions: seq<string>)

  function Seed(): map<string, string>
  {
    map["gmi" := GemtextType]
  }

  /** The inner loop: every extension of one type now maps to that type. */
  function AddExtensions(table: map<string, string>, mimeType: string, exts: seq<string>): map<string, string>
  {
    if exts == [] then table
    else AddExtensions(table, mimeType, exts[..|exts| - 1])[exts[|exts| - 1] := mimeType]
  }

  /** The table the constructor builds from the database. */
  function Table(db: seq<DbEntry>): (table: map<string, string>)
    ensures "gmi" in table
  {
    if db == [] then Seed()
    else
      var last := db[|db| - 1];
      AddExtensionsAt(Table(db[..|db| - 1]), last.mimeType, last.extensions, "gmi");
      AddExtensions(Table(db[..|db| - 1]), last.mimeType, last.extensions)
  }

  /** Reference definition: the type of the last database entry that lists `ext`. */
  function LastTypeFor(db: seq<DbEntry>, ext: string): Option<string>
  {
    if db == [] then None
    else if ext in db[|db| - 1].extensions then Some(db[|db| - 1].mimeType)
    else LastTypeFor(db[..|db| - 1], ext)
  }

  lemma {:induction false} AddExtensionsAt(table: map<string, string>, mimeType: string, exts: seq<string>, ext: string)
    ensures ext in AddExtensions(table, mimeType, exts) <==> ext in exts || ext in table
    ensures ext in exts ==> AddExtensions(table, mimeType, exts)[ext] == mimeType
    ensures ext !in exts && ext in table ==> AddExtensions(table, mimeType, exts)[ext] == table[ext]
  {
    if exts != [] {
      var init := exts[..|exts| - 1];
      AddExtensionsAt(table, mimeType, init, ext);
      assert exts == init + [exts[|exts| - 1]];
    }
  }

  /**
    * The built table maps an extension to the type of the last database entry
    * listing it; `gmi` maps to `text/gemini` unless some entry lists it; no
    * other extension is in the table.
    */
  lemma {:induction false} TableLookup(db: seq<DbEntry>, ext: string)
    ensures ext in Table(db) <==> ext == "gmi" || LastTypeFor(db, ext).Some?
    ensures LastTypeFor(db, ext).Some? ==> Table(db)[ext] == LastTypeFor(db, ext).value
    ensures LastTypeFor(db, ext).None? && ext == "gmi" ==> Table(db)[ext] == GemtextType
  {
    if db != [] {
      var last := db[|db| - 1];
      TableLookup(db[..|db| - 1], ext);
      AddExtensionsAt(Table(db[..|db| - 1]), last.mimeType, last.extensions, ext);
    }
  }

  // --- extname: index arithmetic over the path, as Node's posix `path.extname` scans it

  /** The end of `p[..e]` once trailing '/' characters are dropped. */
  function EndBeforeSlashes(p: string, e: nat): (r: nat)
    requires e <= |p|
    ensures r <= e
    decreases e
  {
    if e > 0 && p[e - 1] == '/' then EndBeforeSlashes(p, e - 1) else e
  }

  /** The start of the last path segment of `p[..e]`. */
  function SegmentStart(p: string, e: nat): (r: nat)
    requires e <= |p|
    ensures r <= e
    decreases e
  {
    if e > 0 && p[e - 1] != '/' then SegmentStart(p, e - 1) else e
  }

  /** The index of the last '.' in `p[s..e]`. */
  function LastDot(p: string, s: nat, e: nat): (r: Option<nat>)
    requires s <= e <= |p|
    ensures r.Some? ==> s <= r.value < e && p[r.value] == '.'
    ensures r.Some? ==> forall k :: r.value < k < e ==> p[k] != '.'
    ensures r.None? ==> forall k :: s <= k < e ==> p[k] != '.'
    decreases e
  {
    if e == s then None
    else if p[e - 1] == '.' then Some(e - 1)
    else LastDot(p, s, e - 1)
  }

  /**
    * Where `path.extname(p)` lies in `p`: from the last '.' of the base name to
    * its end. There is none when the base name has no '.', when its only
    * counted '.' is its first character (".bashrc"), or when it is "..".
    */
  function ExtRange(p: string): Option<(nat, nat)>
  {
    var e := EndBeforeSlashes(p, |p|);
    var s := SegmentStart(p, e);
    match LastDot(p, s, e)
    case None => None
    case Some(d) =>
      if d == s || (e - s == 2 && p[s] == '.' && p[s + 1] == '.') then None
      else Some((d, e))
  }

  /** `path.extname(p)`: empty, or a '.' followed by characters that are neither '.' nor '/'. */
  function ExtName(p: string): (r: string)
    ensures r == "" || (r[0] == '.' && forall k :: 1 <= k < |r| ==> r[k] != '.' && r[k] != '/')
  {
    match ExtRange(p)
    case None => ""
    case Some((d, e)) =>
      assert SegmentStart(p, e) < d by {
        var s := SegmentStart(p, e);
        SegmentStartNoSlash(p, e, s);
      }
      forall k | 1 <= k < e - d ensures p[d..e][k] != '/' {
        SegmentStartNoSlash(p, e, SegmentStart(p, e));
      }
      p[d..e]
  }

  lemma SegmentStartNoSlash(p: string, e: nat, s: nat)
    requires e <= |p| && s == SegmentStart(p, e)
    ensures forall k :: s <= k < e ==> p[k] != '/'
    decreases e
  {
    if e > 0 && p[e - 1] != '/' {
      SegmentStartNoSlash(p, e - 1, SegmentStart(p, e - 1));
    }
  }

  /** The key `lookup` reads: the extension, lower-cased, without its dot. */
  function Extension(file: string): (ext: string)
    ensures forall k :: 0 <= k < |ext| ==> ext[k] != '.' && ext[k] != '/'
  {
    var ext := ToLower(ExtName(file));
    if ext == "" then "" else ext[1..]
  }

  /**
    * `lookup`, reading the table as a map of its own entries: a string always,
    * the table's type for the extension when it has one and the default otherwise.
    */
  function LookupIn(table: map<string, string>, file: string): (r: string)
    ensures Extension(file) in table ==> r == table[Extension(file)]
    ensures Extension(file) !in table ==> r == DefaultType
  {
    if Extension(file) in table then table[Extension(file)] else DefaultType
  }

  /** A file name whose only '.' is its first character (".bashrc") has no extension and gets the default type. */
  lemma DotfileGetsDefault(table: map<string, string>, dir: string, name: string)
    requires |name| > 0 && name[0] == '.'
    requires forall k :: 0 < k < |name| ==> name[k] != '.' && name[k] != '/'
    requires "" !in table
    ensures ExtName(dir + "/" + name) == ""
    ensures LookupIn(table, dir + "/" + name) == DefaultType
  {
    var p := dir + "/" + name;
    assert p[|p| - 1] != '/';
    assert EndBeforeSlashes(p, |p|) == |p|;
    SegmentStartAfterSlash(p, |p|, |dir| + 1);
    var s := SegmentStart(p, |p|);
    assert s == |dir| + 1;
    var d := LastDot(p, s, |p|);
    assert p[s] == '.';
    assert d == Some(s) by {
      assert forall k :: s < k < |p| ==> p[k] == name[k - s];
      LastDotIsFirst(p, s, |p|);
    }
  }

  lemma SegmentStartAfterSlash(p: string, e: nat, s: nat)
    requires 0 < s <= e <= |p| && p[s - 1] == '/'
    requires forall k :: s <= k < e ==> p[k] != '/'
    ensures SegmentStart(p, e) == s
    decreases e
  {
    if e > s {
      SegmentStartAfterSlash(p, e - 1, s);
    }
  }

  lemma LastDotIsFirst(p: string, s: nat, e: nat)
    requires s < e <= |p| && p[s] == '.'
    requires forall k :: s < k < e ==> p[k] != '.'
    ensures LastDot(p, s, e) == Some(s)
    decreases e
  {
    if e - 1 > s {
      LastDotIsFirst(p, s, e - 1);
    }
  }

  // --- case insensitivity: lower-casing keeps every '/' and '.' where it was

  predicate SameShape(p: string, q: string)
  {
    |p| == |q| && forall k :: 0 <= k < |p| ==> (p[k] == '/' <==> q[k] == '/') && (p[k] == '.' <==> q[k] == '.')
  }

  lemma LowerSameShape(p: string)
    ensures SameShape(p, ToLower(p))
  {
  }

  lemma {:induction false} ShapeEnd(p: string, q: string, e: nat)
    requires SameShape(p, q) && e <= |p|
    ensures EndBeforeSlashes(p, e) == EndBeforeSlashes(q, e) && SegmentStart(p, e) == SegmentStart(q, e)
    decreases e
  {
    if e > 0 {
      ShapeEnd(p, q, e - 1);
    }
  }

  lemma {:induction false} ShapeDot(p: string, q: string, s: nat, e: nat)
    requires SameShape(p, q) && s <= e <= |p|
    ensures LastDot(p, s, e) == LastDot(q, s, e)
    decreases e
  {
    if e > s {
      ShapeDot(p, q, s, e - 1);
    }
  }

  lemma ShapeRange(p: string, q: string)
    requires SameShape(p, q)
    ensures ExtRange(p) == ExtRange(q)
  {
    ShapeEnd(p, q, |p|);
    var e := EndBeforeSlashes(p, |p|);
    ShapeEnd(p, q, e);
    ShapeDot(p, q, SegmentStart(p, e), e);
  }

  /** The extension of the lower-cased path is the lower-cased extension. */
  lemma ExtNameLower(p: string)
    ensures ExtName(ToLower(p)) == ToLower(ExtName(p))
  {
    LowerSameShape(p);
    ShapeRange(p, ToLower(p));
    match ExtRange(p)
    case None =>
    case Some((d, e)) => ToLowerSlice(p, d, e);
  }

  lemma LowerIdempotent(s: string)
    ensures ToLower(ToLower(s)) == ToLower(s)
  {
  }

  /** The lookup ignores the letter case of the path: `lookup("A.GMI") == lookup("a.gmi")`. */
  lemma LookupIgnoresCase(table: map<string, string>, file: string)
    ensures LookupIn(table, ToLower(file)) == LookupIn(table, file)
  {
    ExtNameLower(file);
    LowerIdempotent(ExtName(file));
  }

  // --- the lookup as written, over a plain JavaScript object

  /** What reading `dictionary[extension]` can give: a string, or an inherited `Object.prototype` member. */
  datatype JsValue = JsString(s: string) | InheritedMember(name: string)

  /** The lower-case names `Object.prototype` provides: `constructor` and `__proto__`. */
  predicate InheritedName(key: string)
  {
    key == "constructor" || key == "__proto__"
  }

  /**
    * `dictionary[extension] ?? 'application/octet-stream'` on a plain object:
    * an own entry when there is one; otherwise the inherited member, which is
    * not nullish, so the default is not taken. Assigning `__proto__` never
    * creates an own entry, so that name always reads the prototype.
    */
  function LookupAsWritten(table: map<string, string>, file: string): (v: JsValue)
    ensures v.InheritedMember? ==> InheritedName(Extension(file)) && v.name == Extension(file)
    ensures v.InheritedMember? ==> Extension(file) !in table || Extension(file) == "__proto__"
  {
    var key := Extension(file);
    if key == "__proto__" then InheritedMember(key)
    else if key in table then JsString(table[key])
    else if InheritedName(key) then InheritedMember(key)
    else JsString(DefaultType)
  }

  /** The two agree except on the inherited names. */
  lemma AsWrittenAgreesElsewhere(table: map<string, string>, file: string)
    requires !InheritedName(Extension(file))
    ensures LookupAsWritten(table, file) == JsString(LookupIn(table, file))
  {
  }

  /** `notes.constructor` gets the `Object` constructor, not a MIME type, when no database entry lists that extension. */
  lemma ConstructorExtensionIsNotAString(table: map<string, string>, dir: string)
    requires "constructor" !in table
    ensures LookupAsWritten(table, dir + "/" + "notes.constructor") == InheritedMember("constructor")
  {
    ConstructorExtension(dir);
  }

  lemma ConstructorExtension(dir: string)
    ensures Extension(dir + "/" + "notes.constructor") == "constructor"
  {
    ConstructorExtName(dir);
    var ext := ".constructor";
    assert "notes.constructor"[5..] == ext;
    NotesConstructorShape();
    NoUpperUnchanged(ext);
    assert ToLower(ExtName(dir + "/" + "notes.constructor")) == ext;
    assert ext[1..] == "constructor";
  }

  lemma ConstructorExtName(dir: string)
    ensures ExtName(dir + "/" + "notes.constructor") == "notes.constructor"[5..]
  {
    NotesConstructorShape();
    ExtNameOfName(dir, "notes.constructor", 5);
  }

  lemma NotesConstructorShape()
    ensures "notes.constructor"[5] == '.' && "notes.constructor" != ".."
    ensures forall k :: 0 <= k < 17 ==> "notes.constructor"[k] != '/'
    ensures forall k :: 5 < k < 17 ==> "notes.constructor"[k] != '.'
    ensures forall k :: 0 <= k < 12 ==> !('A' <= ".constructor"[k] <= 'Z')
  {
  }

  /** In `dir/name`, a '.' of `name` past its first character with no '.' after it starts the extension. */
  lemma ExtNameOfName(dir: string, name: string, d: nat)
    requires 0 < d < |name| && name[d] == '.'
    requires forall k :: 0 <= k < |name| ==> name[k] != '/'
    requires forall k :: d < k < |name| ==> name[k] != '.'
    requires name != ".."
    ensures ExtName(dir + "/" + name) == name[d..]
  {
    var p := dir + "/" + name;
    var s := |dir| + 1;
    assert p[s..] == name;
    assert p[|dir|] == '/';
    forall k | s <= k < |p| ensures p[k] != '/' && (s + d < k ==> p[k] != '.') {
      assert p[k] == p[s..][k - s];
    }
    ExtRangeAt(p, s, s + d);
    assert p[s + d..] == name[d..];
  }

  /** The extension range of a path whose base name starts after index `s - 1` and has its last '.' at `d > s`. */
  lemma ExtRangeAt(p: string, s: nat, d: nat)
    requires 0 < s < d < |p| && p[s - 1] == '/' && p[d] == '.'
    requires forall k :: s <= k < |p| ==> p[k] != '/'
    requires forall k :: d < k < |p| ==> p[k] != '.'
    requires p[s..] != ".."
    ensures ExtRange(p) == Some((d, |p|))
  {
    if |p| - s == 2 {
      assert p[s..] == [p[s], p[s + 1]];
    }
    assert EndBeforeSlashes(p, |p|) == |p|;
    SegmentStartAfterSlash(p, |p|, s);
    LastDotAt(p, s, d, |p|);
  }

  lemma NoUpperUnchanged(s: string)
    requires forall k :: 0 <= k < |s| ==> !('A' <= s[k] <= 'Z')
    ensures ToLower(s) == s
  {
  }

  lemma LastDotAt(p: string, s: nat, d: nat, e: nat)
    requires s <= d < e <= |p| && p[d] == '.'
    requires forall k :: d < k < e ==> p[k] != '.'
    ensures LastDot(p, s, e) == Some(d)
    decreases e
  {
    if e - 1 > d {
      LastDotAt(p, s, d, e - 1);
    }
  }

  // --- the dictionary object and its lazily built shared instance

  class MimeTypesDictionary {
    var dictionary: map<string, string>

    /** The constructor's two nested loops over the database. */
    constructor(db: seq<DbEntry>)
      ensures dictionary == Table(db)
    {
      var d := Seed();
      var i := 0;
      while i < |db|
        invariant 0 <= i <= |db|
        invariant d == Table(db[..i])
      {
        var entry := db[i];
        var j := 0;
        while j < |entry.extensions|
          invariant 0 <= j <= |entry.extensions|
          invariant d == AddExtensions(Table(db[..i]), entry.mimeType, entry.extensions[..j])
        {
          assert entry.extensions[..j + 1][..j] == entry.extensions[..j];
          d := d[entry.extensions[j] := entry.mimeType];
          j := j + 1;
        }
        assert entry.extensions[..j] == entry.extensions;
        assert db[..i + 1][..i] == db[..i];
        i := i + 1;
      }
      assert db[..i] == db;
      dictionary := d;
    }
  }

  /** The holder of the static `instance`, built on the first lookup and reused afterwards. */
  class MimeLookup {
    const db: seq<DbEntry>
    var instance: MimeTypesDictionary?

    ghost predicate Valid()
      reads this, instance
    {
      instance != null ==> instance.dictionary == Table(db)
    }

    constructor(db: seq<DbEntry>)
      ensures Valid() && this.db == db && instance == null
    {
      this.db := db;
      instance := null;
    }

    /** `MimeTypesDictionary.lookup`: the table is built at most once; the answer is that of `Lookup`. */
    method Lookup(file: string) returns (mimeType: string)
      requires Valid()
      modifies this
      ensures Valid() && instance != null
      ensures old(instance) != null ==> instance == old(instance)
      ensures old(instance) == null ==> fresh(instance)
      ensures mimeType == LookupIn(Table(db), file)
    {
      if instance == null {
        instance := new MimeTypesDictionary(db);
      }
      var dictionary := instance.dictionary;
      var extension := Extension(file);
      mimeType := if extension in dictionary then dictionary[extension] else DefaultType;
    }
  }
}
