/** The JavaScript built-ins the scoring and provenance code relies on, with
    their edge cases written out: `null`/`undefined`, `NaN` from `0 / 0`,
    `Math.round`, thrown errors, and the string methods `includes`,
    `indexOf`, `lastIndexOf`, `substring` and `trim`.  Strings are `seq<char>`:
    Unicode scalar values standing for JavaScript's UTF-16 code units, so a
    lone surrogate cannot occur and a character outside the Basic
    Multilingual Plane counts as one position rather than two. */
module Js {

  /** A value, or JavaScript's `null` / `undefined`. */
  datatype Option<+T> = None | Some(value: T) {
    function GetOr(default: T): T {
      if Some? then value else default
    }
  }

  /** The completion of a call that may throw: a normal result or an `Error` with its message. */
  datatype Completion<+T> = Normal(value: T) | Throw(message: string)

  /** A JavaScript number as far as this code can produce one: a finite value,
      or `NaN` (what `0 / 0` yields).  The inputs modelled here never make an
      infinity appear. */
  datatype Number = Finite(v: real) | NaN

  /** `a + b`; `NaN` is absorbing. */
  function Plus(a: Number, b: Number): Number {
    if a.Finite? && b.Finite? then Finite(a.v + b.v) else NaN
  }

  /** `a * k` for a finite factor `k`; `NaN` is absorbing. */
  function Times(a: Number, k: real): Number {
    if a.Finite? then Finite(a.v * k) else NaN
  }

  /** `a > t`: false whenever `a` is `NaN`. */
  predicate Above(a: Number, t: real) {
    a.Finite? && a.v > t
  }

  /** `a <= t`: false whenever `a` is `NaN`. */
  predicate AtMost(a: Number, t: real) {
    a.Finite? && a.v <= t
  }

  /** `Math.round(x)`: the nearest integer, halves rounded towards +infinity. */
  function Round(x: real): (r: int)
    ensures x - 0.5 < r as real <= x + 0.5
  {
    (x + 0.5).Floor
  }

  function MinInt(a: int, b: int): int {
    if a <= b then a else b
  }

  function MaxInt(a: int, b: int): int {
    if a >= b then a else b
  }

  function MaxReal(a: real, b: real): real {
    if a >= b then a else b
  }

  function MinReal(a: real, b: real): real {
    if a <= b then a else b
  }

  /** `n` copies of `c`. */
  function Repeat(c: char, n: nat): (r: string)
    ensures |r| == n
    ensures forall i :: 0 <= i < n ==> r[i] == c
  {
    seq(n, _ => c)
  }

  // ---------------------------------------------------------------------
  // Substring search
  // ---------------------------------------------------------------------

  /** `pat` occurs in `s` starting at index `i`. */
  predicate IsAt(s: string, pat: string, i: int) {
    0 <= i && i + |pat| <= |s| && s[i..i + |pat|] == pat
  }

  /** `s.includes(pat)`. */
  predicate Contains(s: string, pat: string) {
    exists i | 0 <= i <= |s| :: IsAt(s, pat, i)
  }

  /** The greatest occurrence of `pat` at an index `<= k`, or -1. */
  function LastIndexAtMost(s: string, pat: string, k: int): (r: int)
    ensures r == -1 ==> forall j :: j <= k ==> !IsAt(s, pat, j)
    ensures r != -1 ==> 0 <= r <= k && IsAt(s, pat, r)
    ensures r != -1 ==> forall j :: r < j <= k ==> !IsAt(s, pat, j)
    decreases if k < 0 then 0 else k + 1
  {
    if k < 0 then -1
    else if IsAt(s, pat, k) then k
    else LastIndexAtMost(s, pat, k - 1)
  }

  /** `s.lastIndexOf(pat)`: the index of the last occurrence of `pat`, or -1. */
  function LastIndexOf(s: string, pat: string): (r: int)
    ensures r == -1 <==> !Contains(s, pat)
    ensures r != -1 ==> IsAt(s, pat, r) && forall j :: r < j ==> !IsAt(s, pat, j)
  {
    LastIndexAtMost(s, pat, |s| - |pat|)
  }

  /** `s.indexOf(pat, k)` for `0 <= k`: the first occurrence at or after `k`, or -1. */
  function IndexFrom(s: string, pat: string, k: nat): (r: int)
    ensures r == -1 ==> forall j :: k <= j ==> !IsAt(s, pat, j)
    ensures r != -1 ==> k <= r && IsAt(s, pat, r)
    ensures r != -1 ==> forall j :: k <= j < r ==> !IsAt(s, pat, j)
    decreases |s| - k
  {
    if k + |pat| > |s| then -1
    else if IsAt(s, pat, k) then k
    else IndexFrom(s, pat, k + 1)
  }

  /** `s.indexOf(pat)`. */
  function IndexOf(s: string, pat: string): (r: int)
    ensures r == -1 <==> !Contains(s, pat)
    ensures r != -1 ==> IsAt(s, pat, r) && forall j :: j < r ==> !IsAt(s, pat, j)
  {
    IndexFrom(s, pat, 0)
  }

  /** `s.substring(a, b)`: both ends are clamped into `[0, |s|]` and swapped when `a > b`. */
  function Substring(s: string, a: int, b: int): string {
    var lo := MaxInt(0, MinInt(a, |s|));
    var hi := MaxInt(0, MinInt(b, |s|));
    if lo <= hi then s[lo..hi] else s[hi..lo]
  }

  // ---------------------------------------------------------------------
  // Whitespace and trim
  // ---------------------------------------------------------------------

  /** The characters `String.prototype.trim` removes: ECMAScript WhiteSpace
      (tab, vertical tab, form feed, space, no-break space, the byte-order
      mark and the space separators of Unicode category Zs) and LineTerminator
      (line feed, carriage return, line and paragraph separators). */
  predicate IsSpace(c: char) {
    || c == '\t' || c == '\n' || c == '\U{000B}' || c == '\U{000C}' || c == '\r'
    || c == ' ' || c == '\U{00A0}' || c == '\U{1680}'
    || ('\U{2000}' <= c <= '\U{200A}')
    || c == '\U{2028}' || c == '\U{2029}' || c == '\U{202F}' || c == '\U{205F}'
    || c == '\U{3000}' || c == '\U{FEFF}'
  }

  /** `s.trimStart()`. */
  function TrimStart(s: string): (r: string)
    ensures |r| <= |s| && r == s[|s| - |r|..]
    ensures r == [] || !IsSpace(r[0])
    ensures forall i :: 0 <= i < |s| - |r| ==> IsSpace(s[i])
  {
    if |s| > 0 && IsSpace(s[0]) then TrimStart(s[1..]) else s
  }

  /** `s.trimEnd()`. */
  function TrimEnd(s: string): (r: string)
    ensures |r| <= |s| && r == s[..|r|]
    ensures r == [] || !IsSpace(r[|r| - 1])
    ensures forall i :: |r| <= i < |s| ==> IsSpace(s[i])
  {
    if |s| > 0 && IsSpace(s[|s| - 1]) then TrimEnd(s[..|s| - 1]) else s
  }

  /** `s.trim()`. */
  function Trim(s: string): string {
    TrimEnd(TrimStart(s))
  }

  /** Neither the first nor the last character of `s` is whitespace. */
  predicate Trimmed(s: string) {
    s == [] || (!IsSpace(s[0]) && !IsSpace(s[|s| - 1]))
  }

  /** `trim` removes exactly the surrounding whitespace: its result is a
      contiguous piece of `s` with no whitespace at either end, and every
      character cut away on either side is whitespace. */
  lemma TrimSpec(s: string)
    ensures Trimmed(Trim(s))
    ensures var i := |s| - |TrimStart(s)|;
            && i + |Trim(s)| <= |s| && s[i..i + |Trim(s)|] == Trim(s)
            && (forall k :: 0 <= k < i ==> IsSpace(s[k]))
            && (forall k :: i + |Trim(s)| <= k < |s| ==> IsSpace(s[k]))
  {
    TrimIsTrimmed(s);
    TrimIsSlice(s);
  }

  lemma TrimIsTrimmed(s: string)
    ensures Trimmed(Trim(s))
  {
    var t := TrimStart(s);
    var r := TrimEnd(t);
    if r != [] {
      assert r[0] == t[0];
    }
  }

  lemma TrimIsSlice(s: string)
    ensures var i := |s| - |TrimStart(s)|;
            && i + |Trim(s)| <= |s| && s[i..i + |Trim(s)|] == Trim(s)
            && (forall k :: i + |Trim(s)| <= k < |s| ==> IsSpace(s[k]))
  {
    TrimIsPiece(s);
    TrimLeavesSpaces(s);
  }

  lemma TrimIsPiece(s: string)
    ensures var i := |s| - |TrimStart(s)|;
            i + |Trim(s)| <= |s| && s[i..i + |Trim(s)|] == Trim(s)
  {
    var t := TrimStart(s);
    var r := TrimEnd(t);
    SliceOfSuffix(s, |s| - |t|, |r|);
  }

  lemma SliceOfSuffix(s: string, i: nat, n: nat)
    requires i + n <= |s|
    ensures s[i..][..n] == s[i..i + n]
  {
  }

  lemma TrimLeavesSpaces(s: string)
    ensures var i := |s| - |TrimStart(s)|;
            forall k :: i + |Trim(s)| <= k < |s| ==> IsSpace(s[k])
  {
    var t := TrimStart(s);
    var r := TrimEnd(t);
    var i := |s| - |t|;
    forall k | i + |r| <= k < |s| ensures IsSpace(s[k]) {
      assert t == s[i..];
      assert s[k] == t[k - i];
    }
  }


  /** Trimming leaves an already-trimmed string unchanged, so `trim` is idempotent. */
  lemma TrimmedFixed(s: string)
    requires Trimmed(s)
    ensures Trim(s) == s
  {
  }

  /** Surrounding a trimmed string with one line feed on each side is undone by `trim`. */
  lemma TrimNewlines(p: string)
    requires Trimmed(p)
    ensures Trim("\n" + p + "\n") == p
  {
    var s := "\n" + p + "\n";
    assert s[1..] == p + "\n";
    var t := TrimStart(s);
    if p == [] {
      assert s == "\n\n";
      assert TrimStart(s) == TrimStart("\n");
      assert TrimStart("\n") == TrimStart("");
    } else {
      assert TrimStart(p + "\n") == p + "\n";
      assert t == p + "\n";
      assert t[..|t| - 1] == p;
    }
  }

  // ---------------------------------------------------------------------
  // Occurrences in concatenations
  // ---------------------------------------------------------------------

  /** Where `x` meets `y`, some character rules out an occurrence of `pat`
      that would start in `x` and end in `y`. */
  predicate Separated(x: string, y: string, pat: string)
    requires |pat| > 0
  {
    || (|y| > 0 && y[0] !in pat[1..])
    || (|x| > 0 && x[|x| - 1] !in pat[..|pat| - 1])
  }

  /** An occurrence of `pat` in `x + y` lies wholly in `x` or wholly in `y`
      when the seam is separated. */
  lemma OccurrenceInConcat(x: string, y: string, pat: string, j: int)
    requires |pat| > 0 && Separated(x, y, pat)
    ensures IsAt(x + y, pat, j) ==> IsAt(x, pat, j) || IsAt(y, pat, j - |x|)
  {
    var s := x + y;
    if 0 <= j && j + |pat| <= |x| {
      assert s[j..j + |pat|] == x[j..j + |pat|];
    } else if |x| <= j && j + |pat| <= |s| {
      assert s[j..j + |pat|] == y[j - |x|..j - |x| + |pat|];
    } else if 0 <= j < |x| < j + |pat| <= |s| {
      var m := |x| - j;
      assert s[j..j + |pat|][m] == y[0];
      assert s[j..j + |pat|][m - 1] == x[|x| - 1];
      assert pat[1..][m - 1] == pat[m];
      assert pat[..|pat| - 1][m - 1] == pat[m - 1];
    }
  }

  /** Two pieces free of `pat` joined at a separated seam stay free of it. */
  lemma NotContainsConcat(x: string, y: string, pat: string)
    requires |pat| > 0 && Separated(x, y, pat)
    requires !Contains(x, pat) && !Contains(y, pat)
    ensures !Contains(x + y, pat)
  {
    forall j | 0 <= j <= |x + y| ensures !IsAt(x + y, pat, j) {
      OccurrenceInConcat(x, y, pat, j);
    }
  }

  /** An occurrence in the left piece is an occurrence in the whole. */
  lemma IsAtLeft(x: string, y: string, pat: string, j: int)
    requires IsAt(x, pat, j)
    ensures IsAt(x + y, pat, j)
  {
    assert (x + y)[j..j + |pat|] == x[j..j + |pat|];
  }

  /** An occurrence in the right piece is an occurrence in the whole, shifted by `|x|`. */
  lemma IsAtRight(x: string, y: string, pat: string, j: int)
    requires IsAt(y, pat, j)
    ensures IsAt(x + y, pat, |x| + j)
  {
    assert (x + y)[|x| + j..|x| + j + |pat|] == y[j..j + |pat|];
  }

  /** A string that lacks the first character of `pat` cannot contain `pat`. */
  lemma NotContainsFirstChar(s: string, pat: string)
    requires |pat| > 0 && pat[0] !in s
    ensures !Contains(s, pat)
  {
    forall j | 0 <= j && j + |pat| <= |s| ensures !IsAt(s, pat, j) {
      assert s[j..j + |pat|][0] == s[j];
    }
  }

  /** A piece of a string free of `pat` is free of it too. */
  lemma NotContainsSlice(s: string, pat: string, a: int, b: int)
    requires 0 <= a <= b <= |s|
    requires !Contains(s, pat)
    ensures !Contains(s[a..b], pat)
  {
    forall j | 0 <= j && j + |pat| <= b - a ensures !IsAt(s[a..b], pat, j) {
      var t := s[a..b];
      var u, v := t[j..j + |pat|], s[a + j..a + j + |pat|];
      forall k | 0 <= k < |pat| ensures u[k] == v[k] {
        assert t[j + k] == s[a + j + k];
      }
      assert u == v;
      assert !IsAt(s, pat, a + j);
    }
  }

  /** An occurrence in `x + y` at or after `|x|` is an occurrence in `y`. */
  lemma IsAtShift(x: string, y: string, pat: string, j: int)
    requires IsAt(x + y, pat, j) && |x| <= j
    ensures IsAt(y, pat, j - |x|)
  {
    assert (x + y)[j..j + |pat|] == y[j - |x|..j - |x| + |pat|];
  }

  /** A string shorter than `pat` cannot contain it. */
  lemma NotContainsShort(s: string, pat: string)
    requires |s| < |pat|
    ensures !Contains(s, pat)
  {
  }

  /** A character absent from `pat` is absent from every slice of it. */
  lemma NotInSlice(c: char, pat: string, a: int, b: int)
    requires 0 <= a <= b <= |pat| && c !in pat
    ensures c !in pat[a..b]
  {
  }

  /** A pattern that ends the string has its last occurrence there. */
  lemma LastOccurrenceAtEnd(x: string, pat: string)
    ensures LastIndexOf(x + pat, pat) == |x|
  {
    assert (x + pat)[|x|..|x| + |pat|] == pat;
  }

  /** When the first character of `pat` does not recur in it and the text
      after a copy of `pat` is free of it, that copy is the last occurrence. */
  lemma LastOccurrenceBeforeFree(x: string, pat: string, w: string)
    requires |pat| > 0 && pat[0] !in pat[1..] && !Contains(w, pat)
    ensures LastIndexOf(x + pat + w, pat) == |x|
  {
    var t := x + pat + w;
    assert t[|x|..|x| + |pat|] == pat;
    assert IsAt(t, pat, |x|);
    forall j | |x| < j ensures !IsAt(t, pat, j) {
      if |x| + |pat| <= j && IsAt(t, pat, j) {
        assert t == (x + pat) + w;
        IsAtShift(x + pat, w, pat, j);
      }
    }
  }

  /** A copy of `pat` after text free of it, where the text's last character
      is not in `pat`, is the first occurrence. */
  lemma FirstOccurrenceAfterFree(x: string, pat: string, w: string)
    requires |pat| > 0 && |x| > 0 && x[|x| - 1] !in pat && !Contains(x, pat)
    ensures IndexOf(x + pat + w, pat) == |x|
  {
    var t := x + pat + w;
    assert t == x + (pat + w);
    assert t[|x|..|x| + |pat|] == pat;
    assert IsAt(t, pat, |x|);
    NotInSlice(x[|x| - 1], pat, 0, |pat| - 1);
    forall j | j < |x| ensures !IsAt(t, pat, j) {
      OccurrenceInConcat(x, pat + w, pat, j);
    }
  }

  /** Searching from `|x|` in `x + y + pat + w`, where `y` is free of `pat`
      and the first character of `pat` does not recur in it, finds the copy
      of `pat` right after `y`. */
  lemma FirstOccurrenceFrom(x: string, y: string, pat: string, w: string)
    requires |pat| > 0 && pat[0] !in pat[1..] && !Contains(y, pat)
    ensures IndexFrom(x + y + pat + w, pat, |x|) == |x| + |y|
  {
    var t := x + y + pat + w;
    var b := y + (pat + w);
    assert t == x + b;
    assert t[|x| + |y|..|x| + |y| + |pat|] == pat;
    assert IsAt(t, pat, |x| + |y|);
    forall j | |x| <= j < |x| + |y| ensures !IsAt(t, pat, j) {
      if IsAt(t, pat, j) {
        IsAtShift(x, b, pat, j);
        OccurrenceInConcat(y, pat + w, pat, j - |x|);
      }
    }
  }
}
