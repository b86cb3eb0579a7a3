/**
  * String operations the server relies on, with the semantics of the
  * JavaScript built-ins it calls: `trim`, `toLowerCase` (on ASCII letters),
  * `startsWith`/`endsWith`, `split('/')` and `join(sep)`.
  */
module Text {

  /** The characters `String.prototype.trim` removes (white space and line terminators). */
  predicate IsJsWhitespace(c: char)
  {
    c == '\t' || c == '\n' || c == '\U{000B}' || c == '\U{000C}' || c == '\r' || c == ' '
    || c == '\U{00A0}' || c == '\U{1680}' || ('\U{2000}' <= c <= '\U{200A}')
    || c == '\U{2028}' || c == '\U{2029}' || c == '\U{202F}' || c == '\U{205F}'
    || c == '\U{3000}' || c == '\U{FEFF}'
  }

  /** Drops leading white space. */
  function TrimStart(s: string): (r: string)
    ensures |r| <= |s|
  {
    if s != "" && IsJsWhitespace(s[0]) then TrimStart(s[1..]) else s
  }

  /** Drops trailing white space. */
  function TrimEnd(s: string): (r: string)
    ensures |r| <= |s|
  {
    if s != "" && IsJsWhitespace(s[|s| - 1]) then TrimEnd(s[..|s| - 1]) else s
  }

  /** `String.prototype.trim`. */
  function Trim(s: string): (r: string)
    ensures |r| <= |s|
  {
    TrimEnd(TrimStart(s))
  }

  /** What `TrimStart` keeps is a suffix of `s` that does not start with white space, and all it drops is white space. */
  lemma {:induction false} TrimStartShape(s: string)
    ensures TrimStart(s) == s[|s| - |TrimStart(s)|..]
    ensures TrimStart(s) == "" || !IsJsWhitespace(TrimStart(s)[0])
    ensures forall i :: 0 <= i < |s| - |TrimStart(s)| ==> IsJsWhitespace(s[i])
  {
    if s != "" && IsJsWhitespace(s[0]) {
      TrimStartShape(s[1..]);
      forall i | 0 < i < |s| - |TrimStart(s)| ensures IsJsWhitespace(s[i]) {
        assert s[i] == s[1..][i - 1];
      }
    }
  }

  /** What `TrimEnd` keeps is a prefix of `s` that does not end with white space, and all it drops is white space. */
  lemma {:induction false} TrimEndShape(s: string)
    ensures TrimEnd(s) == s[..|TrimEnd(s)|]
    ensures TrimEnd(s) == "" || !IsJsWhitespace(TrimEnd(s)[|TrimEnd(s)| - 1])
    ensures forall i :: |TrimEnd(s)| <= i < |s| ==> IsJsWhitespace(s[i])
  {
    if s != "" && IsJsWhitespace(s[|s| - 1]) {
      TrimEndShape(s[..|s| - 1]);
      forall i | |TrimEnd(s)| <= i < |s| - 1 ensures IsJsWhitespace(s[i]) {
        assert s[i] == s[..|s| - 1][i];
      }
    }
  }

  /**
    * A trimmed string is a prefix of a suffix of the original, with no white
    * space at either end, and everything dropped before and after it is white space.
    */
  lemma TrimShape(s: string)
    ensures Trim(s) == s[|s| - |TrimStart(s)|..][..|Trim(s)|]
    ensures Trim(s) == "" || (!IsJsWhitespace(Trim(s)[0]) && !IsJsWhitespace(Trim(s)[|Trim(s)| - 1]))
    ensures forall i :: 0 <= i < |s| - |TrimStart(s)| ==> IsJsWhitespace(s[i])
    ensures forall i :: |s| - |TrimStart(s)| + |Trim(s)| <= i < |s| ==> IsJsWhitespace(s[i])
  {
    var t := TrimStart(s);
    TrimStartShape(s);
    TrimEndShape(t);
    WhitespaceTail(s, |s| - |t|, |Trim(s)|);
  }

  lemma WhitespaceTail(s: string, k: nat, n: nat)
    requires k + n <= |s|
    requires forall j :: n <= j < |s| - k ==> IsJsWhitespace(s[k..][j])
    ensures forall i :: k + n <= i < |s| ==> IsJsWhitespace(s[i])
  {
    forall i | k + n <= i < |s| ensures IsJsWhitespace(s[i]) {
      assert s[i] == s[k..][i - k];
    }
  }

  predicate StartsWith(s: string, prefix: string)
  {
    |prefix| <= |s| && s[..|prefix|] == prefix
  }

  predicate EndsWith(s: string, suffix: string)
  {
    |suffix| <= |s| && s[|s| - |suffix|..] == suffix
  }

  lemma StartsWithTransitive(s: string, t: string, u: string)
    requires StartsWith(s, t) && StartsWith(t, u)
    ensures StartsWith(s, u)
  {
    assert s[..|u|] == s[..|t|][..|u|];
  }

  /** Lower-cases an ASCII letter; every other character is left alone. */
  function LowerChar(c: char): char
  {
    if 'A' <= c <= 'Z' then (c as int + 32) as char else c
  }

  /** Character-wise lower-casing; letters outside ASCII are not mapped. */
  function ToLower(s: string): (r: string)
    ensures |r| == |s|
    ensures forall i :: 0 <= i < |s| ==> r[i] == LowerChar(s[i])
  {
    if s == "" then "" else [LowerChar(s[0])] + ToLower(s[1..])
  }

  /** Lower-casing commutes with slicing. */
  lemma {:induction false} ToLowerSlice(s: string, i: nat, j: nat)
    requires i <= j <= |s|
    ensures ToLower(s)[i..j] == ToLower(s[i..j])
  {
    var a, b := ToLower(s)[i..j], ToLower(s[i..j]);
    forall k | 0 <= k < j - i ensures a[k] == b[k] {
      assert s[i..j][k] == s[i + k];
    }
  }

  /** The index of the first '/' of `s` at or after `i`, or `|s|` when there is none. */
  function FirstSlash(s: string, i: nat): (r: nat)
    requires i <= |s|
    ensures i <= r <= |s|
    decreases |s| - i
  {
    if i == |s| || s[i] == '/' then i else FirstSlash(s, i + 1)
  }

  /** `FirstSlash` finds a '/' (or the end) and skips none. */
  lemma {:induction false} FirstSlashFacts(s: string, i: nat)
    requires i <= |s|
    ensures forall k :: i <= k < FirstSlash(s, i) ==> s[k] != '/'
    ensures FirstSlash(s, i) < |s| ==> s[FirstSlash(s, i)] == '/'
    decreases |s| - i
  {
    if i < |s| && s[i] != '/' {
      FirstSlashFacts(s, i + 1);
    }
  }

  lemma FirstSlashIs(s: string, i: nat, j: nat)
    requires i <= j <= |s|
    requires forall k :: i <= k < j ==> s[k] != '/'
    requires j < |s| ==> s[j] == '/'
    ensures FirstSlash(s, i) == j
    decreases j - i
  {
    if i < j {
      FirstSlashIs(s, i + 1, j);
    }
  }

  /** `s.split('/')`: the pieces between separators, in order; never empty. */
  function Split(s: string): (parts: seq<string>)
    ensures |parts| >= 1
    decreases |s|
  {
    var i := FirstSlash(s, 0);
    if i == |s| then [s] else [s[..i]] + Split(s[i + 1..])
  }

  /** No piece of a split holds a '/'. */
  lemma {:induction false} SplitPieces(s: string)
    ensures forall k :: 0 <= k < |Split(s)| ==> '/' !in Split(s)[k]
    decreases |s|
  {
    var i := FirstSlash(s, 0);
    FirstSlashFacts(s, 0);
    assert '/' !in s[..i] by {
      forall m | 0 <= m < i ensures s[..i][m] != '/' {
      }
    }
    if i < |s| {
      var rest := s[i + 1..];
      SplitPieces(rest);
      forall k | 1 <= k < |Split(s)| ensures '/' !in Split(s)[k] {
        assert Split(s)[k] == Split(rest)[k - 1];
      }
    } else {
      assert s[..i] == s;
    }
  }

  /** `parts.join(sep)`. */
  function JoinWith(parts: seq<string>, sep: string): string
  {
    if parts == [] then ""
    else if |parts| == 1 then parts[0]
    else parts[0] + sep + JoinWith(parts[1..], sep)
  }

  lemma JoinWithAppend(xs: seq<string>, ys: seq<string>, sep: string)
    requires xs != [] && ys != []
    ensures JoinWith(xs + ys, sep) == JoinWith(xs, sep) + sep + JoinWith(ys, sep)
  {
    if |xs| == 1 {
      assert xs + ys == [xs[0]] + ys;
    } else {
      assert (xs + ys)[1..] == xs[1..] + ys;
      JoinWithAppend(xs[1..], ys, sep);
    }
  }

  /** Joining the pieces of a split restores the string. */
  lemma {:induction false} JoinSplit(s: string)
    ensures JoinWith(Split(s), "/") == s
    decreases |s|
  {
    var i := FirstSlash(s, 0);
    if i < |s| {
      var rest := s[i + 1..];
      FirstSlashFacts(s, 0);
      JoinSplit(rest);
      assert ([s[..i]] + Split(rest))[1..] == Split(rest);
      assert s == s[..i] + "/" + rest;
    }
  }

  lemma SplitNoSlash(s: string)
    requires '/' !in s
    ensures Split(s) == [s]
  {
    FirstSlashIs(s, 0, |s|);
  }

  /** Splitting at an explicit separator splits both sides independently. */
  lemma {:induction false} SplitAppend(a: string, b: string)
    ensures Split(a + "/" + b) == Split(a) + Split(b)
    decreases |a|
  {
    var t := a + "/" + b;
    var i := FirstSlash(a, 0);
    FirstSlashFacts(a, 0);
    assert forall k :: 0 <= k < |a| ==> t[k] == a[k];
    FirstSlashIs(t, 0, i);
    if i == |a| {
      assert t[..i] == a && t[i + 1..] == b;
    } else {
      assert t[..i] == a[..i];
      assert t[i + 1..] == a[i + 1..] + "/" + b;
      SplitAppend(a[i + 1..], b);
    }
  }

  /** Splitting a join of separator-free pieces gives the pieces back. */
  lemma {:induction false} SplitJoin(parts: seq<string>)
    requires |parts| >= 1
    requires forall k :: 0 <= k < |parts| ==> '/' !in parts[k]
    ensures Split(JoinWith(parts, "/")) == parts
  {
    if |parts| == 1 {
      SplitNoSlash(parts[0]);
    } else {
      SplitNoSlash(parts[0]);
      SplitJoin(parts[1..]);
      SplitAppend(parts[0], JoinWith(parts[1..], "/"));
      assert parts == [parts[0]] + parts[1..];
    }
  }

  /**
    * The first piece of `s.split('/')` is the text before the first '/', and
    * `s.split('/').slice(1).join('/')` is the text after it (empty when `s`
    * holds no '/').
    */
  lemma SplitHead(s: string)
    ensures StartsWith(s, Split(s)[0])
    ensures |Split(s)| == 1 <==> '/' !in s
    ensures |Split(s)| == 1 ==> Split(s)[0] == s
    ensures |Split(s)| > 1 ==> s == Split(s)[0] + "/" + JoinWith(Split(s)[1..], "/")
  {
    var i := FirstSlash(s, 0);
    if i < |s| {
      SplitHeadAt(s, i);
      assert s[i] in s;
    } else {
      assert Split(s) == [s];
      FirstSlashFacts(s, 0);
      assert '/' !in s by {
        forall m | 0 <= m < |s| ensures s[m] != '/' {
        }
      }
    }
  }

  /** `SplitHead` when the first '/' of `s` is at `i`. */
  lemma SplitHeadAt(s: string, i: nat)
    requires i < |s| && i == FirstSlash(s, 0)
    ensures Split(s)[0] == s[..i] && |Split(s)| > 1 && s[i] == '/'
    ensures s == Split(s)[0] + "/" + JoinWith(Split(s)[1..], "/")
  {
    var rest := s[i + 1..];
    var parts := Split(s);
    assert parts == [s[..i]] + Split(rest);
    assert parts[1..] == Split(rest);
    FirstSlashFacts(s, 0);
    JoinSplit(rest);
    calc {
      parts[0] + "/" + JoinWith(parts[1..], "/");
      s[..i] + "/" + rest;
      s;
    }
  }

  lemma JoinWithFirst(parts: seq<string>, sep: string)
    requires |parts| >= 1 && parts[0] != ""
    ensures JoinWith(parts, sep) != "" && JoinWith(parts, sep)[0] == parts[0][0]
  {
  }
}
