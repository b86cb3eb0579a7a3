/**
  * Node's POSIX `path.join` and `path.resolve`, both purely lexical: a path is
  * split at '/', empty and "." segments are dropped, ".." pops the previous
  * segment, and at the root a ".." stays at the root. A relative path keeps
  * the ".." segments it cannot pop. `path.resolve` puts the working directory
  * `cwd` (a parameter here) in front of a relative path.
  */
module Paths {
  import opened Text

  predicate IsAbsolute(p: string)
  {
    |p| > 0 && p[0] == '/'
  }

  /** One segment of the normaliser; `aboveRoot` says whether a ".." that cannot pop is kept. */
  function Step(stack: seq<string>, segment: string, aboveRoot: bool): seq<string>
  {
    if segment == "" || segment == "." then stack
    else if segment == ".." then
      if |stack| > 0 && stack[|stack| - 1] != ".." then stack[..|stack| - 1]
      else if aboveRoot then stack + [".."]
      else stack
    else stack + [segment]
  }

  /** The normaliser run over `segments` from left to right, starting from `stack`. */
  function Fold(stack: seq<string>, segments: seq<string>, aboveRoot: bool): seq<string>
    decreases |segments|
  {
    if segments == [] then stack
    else Fold(Step(stack, segments[0], aboveRoot), segments[1..], aboveRoot)
  }

  /** `path.normalize`, without the trailing separator Node keeps. */
  function Normalize(p: string): (r: string)
    ensures r != ""
  {
    if p == "" then "."
    else if IsAbsolute(p) then "/" + JoinWith(Fold([], Split(p), false), "/")
    else
      var segments := Fold([], Split(p), true);
      SplitPieces(p);
      FoldShape([], Split(p), true);
      if segments == [] then "." else JoinWithFirst(segments, "/"); JoinWith(segments, "/")
  }

  /** The string `path.join(a, b)` normalises: the non-empty arguments joined by '/'. */
  function JoinArgs(a: string, b: string): string
  {
    if a == "" then b else if b == "" then a else a + "/" + b
  }

  /** `path.join(a, b)`. */
  function Join(a: string, b: string): (r: string)
    ensures r != ""
  {
    Normalize(JoinArgs(a, b))
  }

  function Absolutize(cwd: string, p: string): string
  {
    if IsAbsolute(p) then p else cwd + "/" + p
  }

  /** The segments of `path.resolve(p)` below the root. */
  function Segments(cwd: string, p: string): seq<string>
  {
    Fold([], Split(Absolutize(cwd, p)), false)
  }

  /** `path.resolve(p)` with working directory `cwd`. */
  function Resolve(cwd: string, p: string): (r: string)
    ensures IsAbsolute(r)
  {
    "/" + JoinWith(Segments(cwd, p), "/")
  }

  /** No empty and no "." segment. */
  predicate NoDotSegments(t: seq<string>)
  {
    forall k :: 0 <= k < |t| ==> t[k] != "" && t[k] != "."
  }

  predicate NoUpSegments(t: seq<string>)
  {
    forall k :: 0 <= k < |t| ==> t[k] != ".."
  }

  predicate NoSlashes(t: seq<string>)
  {
    forall k :: 0 <= k < |t| ==> '/' !in t[k]
  }

  /** What a resolved path is made of: plain names. */
  predicate Plain(t: seq<string>)
  {
    NoDotSegments(t) && NoUpSegments(t) && NoSlashes(t)
  }

  lemma {:induction false} FoldAppend(stack: seq<string>, xs: seq<string>, ys: seq<string>, aboveRoot: bool)
    ensures Fold(stack, xs + ys, aboveRoot) == Fold(Fold(stack, xs, aboveRoot), ys, aboveRoot)
    decreases |xs|
  {
    if xs == [] {
      assert xs + ys == ys;
    } else {
      assert (xs + ys)[0] == xs[0];
      assert (xs + ys)[1..] == xs[1..] + ys;
      FoldAppend(Step(stack, xs[0], aboveRoot), xs[1..], ys, aboveRoot);
    }
  }

  lemma FoldSnoc(stack: seq<string>, xs: seq<string>, s: string, aboveRoot: bool)
    ensures Fold(stack, xs + [s], aboveRoot) == Step(Fold(stack, xs, aboveRoot), s, aboveRoot)
  {
    FoldAppend(stack, xs, [s], aboveRoot);
  }

  /** The normaliser only ever produces names and (when `aboveRoot`) "..": never "", "." or a '/'. */
  lemma {:induction false} FoldShape(stack: seq<string>, segments: seq<string>, aboveRoot: bool)
    requires NoDotSegments(stack) && NoSlashes(stack) && NoSlashes(segments)
    requires !aboveRoot ==> NoUpSegments(stack)
    ensures NoDotSegments(Fold(stack, segments, aboveRoot)) && NoSlashes(Fold(stack, segments, aboveRoot))
    ensures !aboveRoot ==> NoUpSegments(Fold(stack, segments, aboveRoot))
    decreases |segments|
  {
    if segments != [] {
      assert NoSlashes(segments[1..]) by {
        forall k | 0 <= k < |segments[1..]| ensures '/' !in segments[1..][k] { assert segments[1..][k] == segments[k + 1]; }
      }
      FoldShape(Step(stack, segments[0], aboveRoot), segments[1..], aboveRoot);
    }
  }

  lemma FoldTwoEmpty()
    ensures Fold([], ["", ""], false) == []
  {
    assert ["", ""][1..] == [""];
    assert Fold([], [""], false) == Fold([], [], false);
  }

  /** Plain names go straight onto the stack. */
  lemma {:induction false} FoldPlain(stack: seq<string>, names: seq<string>, aboveRoot: bool)
    requires NoDotSegments(names) && NoUpSegments(names)
    ensures Fold(stack, names, aboveRoot) == stack + names
    decreases |names|
  {
    if names != [] {
      assert NoDotSegments(names[1..]) && NoUpSegments(names[1..]) by {
        forall k | 0 <= k < |names[1..]| ensures names[1..][k] == names[k + 1] { }
      }
      FoldPlain(stack + [names[0]], names[1..], aboveRoot);
      assert stack + [names[0]] + names[1..] == stack + names;
    }
  }

  /** Without ".." segments nothing is ever popped: the starting stack stays a prefix. */
  lemma {:induction false} FoldKeepsPrefix(stack: seq<string>, segments: seq<string>, aboveRoot: bool)
    requires NoUpSegments(segments)
    ensures |stack| <= |Fold(stack, segments, aboveRoot)|
    ensures Fold(stack, segments, aboveRoot)[..|stack|] == stack
    decreases |segments|
  {
    if segments != [] {
      assert NoUpSegments(segments[1..]) by {
        forall k | 0 <= k < |segments[1..]| ensures segments[1..][k] == segments[k + 1] { }
      }
      var next := Step(stack, segments[0], aboveRoot);
      FoldKeepsPrefix(next, segments[1..], aboveRoot);
      assert next[..|stack|] == stack;
      var r := Fold(stack, segments, aboveRoot);
      assert r[..|stack|] == r[..|next|][..|stack|];
    }
  }

  /**
    * Running one step of the relative normaliser and then the absolute one
    * equals running the absolute one on the unnormalised stack and then the step.
    */
  lemma StepCommutes(stack: seq<string>, t: seq<string>, s: string)
    requires NoDotSegments(t)
    ensures Fold(stack, Step(t, s, true), false) == Step(Fold(stack, t, false), s, false)
  {
    if s == "" || s == "." {
    } else if s == ".." {
      if |t| > 0 && t[|t| - 1] != ".." {
        var init := t[..|t| - 1];
        assert t == init + [t[|t| - 1]];
        FoldSnoc(stack, init, t[|t| - 1], false);
      } else {
        FoldSnoc(stack, t, "..", false);
      }
    } else {
      FoldSnoc(stack, t, s, false);
    }
  }

  /** Normalising a relative path first does not change where it resolves to. */
  lemma {:induction false} Confluence(stack: seq<string>, t: seq<string>, segments: seq<string>)
    requires NoDotSegments(t)
    ensures Fold(stack, Fold(t, segments, true), false) == Fold(Fold(stack, t, false), segments, false)
    decreases |segments|
  {
    if segments != [] {
      var t' := Step(t, segments[0], true);
      assert NoDotSegments(t');
      Confluence(stack, t', segments[1..]);
      StepCommutes(stack, t, segments[0]);
    }
  }

  /** The segments of a resolved path are plain names. */
  lemma SegmentsPlain(cwd: string, p: string)
    ensures Plain(Segments(cwd, p))
  {
    SplitPieces(Absolutize(cwd, p));
    FoldShape([], Split(Absolutize(cwd, p)), false);
  }

  /** An absolute path written from plain segments resolves to exactly those segments. */
  lemma SegmentsOfPlain(cwd: string, s: seq<string>)
    requires Plain(s)
    ensures Segments(cwd, "/" + JoinWith(s, "/")) == s
  {
    var j := JoinWith(s, "/");
    assert "/" + j == "" + "/" + j;
    SplitAppend("", j);
    SplitNoSlash("");
    if s == [] {
      assert Split("" + "/" + j) == ["", ""];
      FoldTwoEmpty();
    } else {
      SplitJoin(s);
      FoldPlain([], s, false);
      assert Split("" + "/" + j) == [""] + s;
    }
  }

  /** `path.resolve(path.normalize(p)) == path.resolve(p)`. */
  lemma SegmentsNormalize(cwd: string, p: string)
    ensures Segments(cwd, Normalize(p)) == Segments(cwd, p)
  {
    if p == "" {
      SegmentsOfCurrent(cwd);
    } else if IsAbsolute(p) {
      SplitPieces(p);
      FoldShape([], Split(p), false);
      SegmentsOfPlain(cwd, Fold([], Split(p), false));
    } else {
      SegmentsNormalizeRelative(cwd, p);
    }
  }

  /** "" and "." both resolve to the working directory. */
  lemma SegmentsOfCurrent(cwd: string)
    ensures Segments(cwd, ".") == Segments(cwd, "") == Fold([], Split(cwd), false)
  {
    var base := Fold([], Split(cwd), false);
    SplitNoSlash(".");
    SplitNoSlash("");
    SplitAppend(cwd, "");
    SplitAppend(cwd, ".");
    FoldAppend([], Split(cwd), [""], false);
    FoldAppend([], Split(cwd), ["."], false);
    assert Fold(base, ["."], false) == Fold(base, [], false);
    assert Fold(base, [""], false) == Fold(base, [], false);
  }

  /** `SegmentsNormalize` for a non-empty relative path. */
  lemma SegmentsNormalizeRelative(cwd: string, p: string)
    requires p != "" && !IsAbsolute(p)
    ensures Segments(cwd, Normalize(p)) == Segments(cwd, p)
  {
    var base := Fold([], Split(cwd), false);
    var s := Fold([], Split(p), true);
    SplitPieces(p);
    FoldShape([], Split(p), true);
    Confluence(base, [], Split(p));
    SplitAppend(cwd, p);
    FoldAppend([], Split(cwd), Split(p), false);
    if s == [] {
      assert Normalize(p) == ".";
      SegmentsOfCurrent(cwd);
    } else {
      var n := JoinWith(s, "/");
      JoinWithFirst(s, "/");
      assert !IsAbsolute(n);
      SplitJoin(s);
      SplitAppend(cwd, n);
      FoldAppend([], Split(cwd), s, false);
    }
  }

  /** `path.resolve(path.join(a, b))` is the resolution of the joined arguments. */
  lemma SegmentsJoin(cwd: string, a: string, b: string)
    ensures Segments(cwd, Join(a, b)) == Segments(cwd, JoinArgs(a, b))
  {
    SegmentsNormalize(cwd, JoinArgs(a, b));
  }

  /** Resolving `base/rest` continues the normaliser from where `base` resolved to. */
  lemma SegmentsAppend(cwd: string, base: string, rest: string)
    requires base != ""
    ensures Segments(cwd, base + "/" + rest) == Fold(Segments(cwd, base), Split(rest), false)
  {
    if IsAbsolute(base) {
      assert Absolutize(cwd, base + "/" + rest) == base + "/" + rest;
    } else {
      assert Absolutize(cwd, base + "/" + rest) == (cwd + "/" + base) + "/" + rest;
    }
    SplitAppend(Absolutize(cwd, base), rest);
    FoldAppend([], Split(Absolutize(cwd, base)), Split(rest), false);
  }

  /** Resolving an already resolved path changes nothing. */
  lemma SegmentsResolved(cwd: string, cwd': string, p: string)
    ensures Segments(cwd', Resolve(cwd, p)) == Segments(cwd, p)
  {
    SegmentsPlain(cwd, p);
    SegmentsOfPlain(cwd', Segments(cwd, p));
  }

  /** A path whose segments extend those of another has that path's text as a prefix. */
  lemma JoinPrefix(b: seq<string>, d: seq<string>)
    requires |b| <= |d| && d[..|b|] == b
    ensures StartsWith("/" + JoinWith(d, "/"), "/" + JoinWith(b, "/"))
  {
    if b != [] && |b| < |d| {
      assert d == b + d[|b|..];
      JoinWithAppend(b, d[|b|..], "/");
    } else if b != [] {
      assert d == b;
    }
  }
}
