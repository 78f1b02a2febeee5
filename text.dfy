/**
 * The string builtins the agent relies on, stated over `seq<char>`:
 * `str.find`, `in`, `str.strip` and `str.lower`. Whitespace and case
 * folding are restricted to ASCII (see the README).
 */
module Text {

  /** `pat` occurs in `s` starting at index `i`. */
  predicate OccursAt(s: string, pat: string, i: int)
  {
    0 <= i && i + |pat| <= |s| && forall k :: 0 <= k < |pat| ==> s[i + k] == pat[k]
  }

  /** `s.find(pat, from)` for a non-negative start: the first index at or
      after `from` where `pat` occurs, or -1 when there is none. Which index
      that is is stated by `FindSpec`. */
  function Find(s: string, pat: string, from: nat): (r: int)
    ensures r == -1 || (from <= r && r + |pat| <= |s|)
    decreases |s| - from, 1
  {
    if |s| < from + |pat| then -1 else FindAt(s, pat, from)
  }

  function FindAt(s: string, pat: string, from: nat): (r: int)
    requires from + |pat| <= |s|
    ensures r == -1 || (from <= r && r + |pat| <= |s|)
    decreases |s| - from, 0
  {
    if OccursAt(s, pat, from) then from else Find(s, pat, from + 1)
  }

  /** `pat in s`. */
  predicate Contains(s: string, pat: string)
  {
    Find(s, pat, 0) >= 0
  }

  /** Find returns an occurrence of `pat`, or -1, and no occurrence lies
      between `from` and what it returns. */
  lemma {:induction false} FindSpec(s: string, pat: string, from: nat)
    ensures Find(s, pat, from) == -1 || OccursAt(s, pat, Find(s, pat, from))
    ensures forall j :: from <= j && (Find(s, pat, from) == -1 || j < Find(s, pat, from)) ==> !OccursAt(s, pat, j)
    decreases |s| - from
  {
    if |s| >= from + |pat| && !OccursAt(s, pat, from) {
      FindSpec(s, pat, from + 1);
    }
  }

  /** Find is determined by that contract: a candidate that is an occurrence
      (or -1) with no occurrence before it is the answer. */
  lemma {:induction false} FindIs(s: string, pat: string, from: nat, r: int)
    requires r == -1 || (from <= r && OccursAt(s, pat, r))
    requires forall j :: from <= j && (r == -1 || j < r) ==> !OccursAt(s, pat, j)
    ensures Find(s, pat, from) == r
    decreases |s| - from
  {
    if |s| >= from + |pat| && !OccursAt(s, pat, from) {
      FindIs(s, pat, from + 1, r);
    }
  }

  /** No occurrence of `pat` can straddle the seam of `a + b`: one of the
      two characters at the seam never occurs at the matching side of `pat`. */
  predicate Joinable(a: string, b: string, pat: string)
  {
    |pat| == 0 || |a| == 0 || |b| == 0 || b[0] !in pat[1..] || a[|a| - 1] !in pat[..|pat| - 1]
  }

  lemma OccursInLeft(a: string, b: string, pat: string, j: int)
    requires OccursAt(a, pat, j)
    ensures OccursAt(a + b, pat, j)
  {
  }

  lemma OccursInRight(a: string, b: string, pat: string, j: int)
    requires OccursAt(b, pat, j)
    ensures OccursAt(a + b, pat, |a| + j)
  {
  }

  /** An occurrence in `a + b` that does not straddle the seam lies in one side. */
  lemma OccursInConcat(a: string, b: string, pat: string, j: int)
    requires OccursAt(a + b, pat, j)
    ensures j + |pat| <= |a| ==> OccursAt(a, pat, j)
    ensures |a| <= j ==> OccursAt(b, pat, j - |a|)
    ensures Joinable(a, b, pat) ==> j + |pat| <= |a| || |a| <= j
  {
    if j < |a| < j + |pat| {
      var k := |a| - j;
      assert pat[k] == (a + b)[j + k] == b[0];
      assert pat[k - 1] == (a + b)[j + k - 1] == a[|a| - 1];
      assert pat[1..][k - 1] == pat[k];
      assert pat[..|pat| - 1][k - 1] == pat[k - 1];
    }
  }

  /** A search that starts inside the right part only sees the right part. */
  lemma FindInRight(a: string, b: string, pat: string, k: nat)
    ensures Find(a + b, pat, |a| + k) == if Find(b, pat, k) < 0 then -1 else |a| + Find(b, pat, k)
  {
    FindSpec(b, pat, k);
    var f := Find(b, pat, k);
    var r := if f < 0 then -1 else |a| + f;
    if f >= 0 {
      OccursInRight(a, b, pat, f);
    }
    forall j | |a| + k <= j && (r == -1 || j < r)
      ensures !OccursAt(a + b, pat, j)
    {
      if OccursAt(a + b, pat, j) {
        OccursInConcat(a, b, pat, j);
      }
    }
    FindIs(a + b, pat, |a| + k, r);
  }

  /** A match found in the left part is still the first match in `a + b`. */
  lemma FindInLeft(a: string, b: string, pat: string, k: nat)
    requires Find(a, pat, k) >= 0
    ensures Find(a + b, pat, k) == Find(a, pat, k)
  {
    FindSpec(a, pat, k);
    var f := Find(a, pat, k);
    OccursInLeft(a, b, pat, f);
    forall j | k <= j < f
      ensures !OccursAt(a + b, pat, j)
    {
      if OccursAt(a + b, pat, j) {
        OccursInConcat(a, b, pat, j);
      }
    }
    FindIs(a + b, pat, k, f);
  }

  /** When the left part holds no match from `k` on and nothing straddles the
      seam, the search in `a + b` from `k` is the search from the seam. */
  lemma FindPastLeft(a: string, b: string, pat: string, k: nat)
    requires k <= |a| && Find(a, pat, k) == -1 && Joinable(a, b, pat)
    ensures Find(a + b, pat, k) == if Find(b, pat, 0) < 0 then -1 else |a| + Find(b, pat, 0)
  {
    FindSpec(a, pat, k);
    FindInRight(a, b, pat, 0);
    FindSpec(a + b, pat, |a|);
    var r := Find(a + b, pat, |a|);
    forall j | k <= j < |a|
      ensures !OccursAt(a + b, pat, j)
    {
      if OccursAt(a + b, pat, j) {
        OccursInConcat(a, b, pat, j);
      }
    }
    FindIs(a + b, pat, k, r);
  }

  /** Absence of `pat` survives concatenation when nothing straddles the seam. */
  lemma AbsentConcat(a: string, b: string, pat: string)
    requires !Contains(a, pat) && !Contains(b, pat) && Joinable(a, b, pat)
    ensures !Contains(a + b, pat)
  {
    FindPastLeft(a, b, pat, 0);
  }

  /** A text without the first character of `pat` holds no `pat`. */
  lemma AbsentByFirstChar(s: string, pat: string)
    requires |pat| > 0 && pat[0] !in s
    ensures !Contains(s, pat)
  {
    forall j | 0 <= j
      ensures !OccursAt(s, pat, j)
    {
      if j < |s| {
        assert s[j] in s;
      }
    }
    FindIs(s, pat, 0, -1);
  }

  /** A text without `pat` has no match of it from any start. */
  lemma AbsentFrom(s: string, pat: string, k: nat)
    requires !Contains(s, pat)
    ensures Find(s, pat, k) == -1
  {
    FindSpec(s, pat, 0);
    FindIs(s, pat, k, -1);
  }

  /** Nothing before the first match of `pat` holds `pat`. */
  lemma AbsentBeforeFirst(s: string, pat: string, from: nat)
    requires |pat| > 0 && from <= |s| && Find(s, pat, from) >= 0
    ensures !Contains(s[from..Find(s, pat, from)], pat)
  {
    var p := Find(s, pat, from);
    FindSpec(s, pat, from);
    forall j | 0 <= j
      ensures !OccursAt(s[from..p], pat, j)
    {
      OccursInSlice(s, pat, from, p, j);
    }
    FindIs(s[from..p], pat, 0, -1);
  }

  /** An occurrence in a slice is an occurrence in the whole string, and
      back again when it lies within the slice. */
  lemma OccursInSlice(s: string, pat: string, lo: nat, hi: nat, f: int)
    requires lo <= hi <= |s|
    ensures OccursAt(s[lo..hi], pat, f) <==> (0 <= f && f + |pat| <= hi - lo && OccursAt(s, pat, lo + f))
  {
  }

  /** A slice of a string without `pat` is without `pat`. */
  lemma AbsentSlice(s: string, pat: string, lo: nat, hi: nat)
    requires lo <= hi <= |s| && !Contains(s, pat)
    ensures !Contains(s[lo..hi], pat)
  {
    FindSpec(s, pat, 0);
    FindSpec(s[lo..hi], pat, 0);
    var f := Find(s[lo..hi], pat, 0);
    if f >= 0 {
      OccursInSlice(s, pat, lo, hi, f);
    }
  }

  // ---------------------------------------------------------------------
  // str.strip()

  /** The characters `str.isspace()` accepts below 128: tab, line feed,
      vertical tab, form feed, carriage return, the four information
      separators 0x1C-0x1F, and space. */
  predicate IsSpace(c: char)
  {
    '\t' <= c <= '\r' || '\U{1C}' <= c <= '\U{1F}' || c == ' '
  }

  /** Neither end of `s` is whitespace. */
  predicate IsStripped(s: string)
  {
    s == [] || (!IsSpace(s[0]) && !IsSpace(s[|s| - 1]))
  }

  /** The first index in `[lo, hi)` of `t` that is not whitespace, or `hi`. */
  function SkipSpace(t: string, lo: nat, hi: nat): (r: nat)
    requires lo <= hi <= |t|
    ensures lo <= r <= hi
    decreases hi - lo
  {
    if lo < hi && IsSpace(t[lo]) then SkipSpace(t, lo + 1, hi) else lo
  }

  /** One past the last index in `[lo, hi)` of `t` that is not whitespace, or `lo`. */
  function SkipSpaceBack(t: string, lo: nat, hi: nat): (r: nat)
    requires lo <= hi <= |t|
    ensures lo <= r <= hi
    decreases hi - lo
  {
    if lo < hi && IsSpace(t[hi - 1]) then SkipSpaceBack(t, lo, hi - 1) else hi
  }

  /** `t[lo:hi].strip()`. */
  function StripRange(t: string, lo: nat, hi: nat): (r: string)
    requires lo <= hi <= |t|
  {
    var a := SkipSpace(t, lo, hi);
    t[a..SkipSpaceBack(t, a, hi)]
  }

  /** `s.strip()`. */
  function Strip(s: string): (r: string)
  {
    StripRange(s, 0, |s|)
  }

  lemma {:induction false} SkipSpaceSpec(t: string, lo: nat, hi: nat)
    requires lo <= hi <= |t|
    ensures forall k :: lo <= k < SkipSpace(t, lo, hi) ==> IsSpace(t[k])
    ensures SkipSpace(t, lo, hi) < hi ==> !IsSpace(t[SkipSpace(t, lo, hi)])
    decreases hi - lo
  {
    if lo < hi && IsSpace(t[lo]) {
      SkipSpaceSpec(t, lo + 1, hi);
    }
  }

  lemma {:induction false} SkipSpaceBackSpec(t: string, lo: nat, hi: nat)
    requires lo <= hi <= |t|
    ensures forall k :: SkipSpaceBack(t, lo, hi) <= k < hi ==> IsSpace(t[k])
    ensures lo < SkipSpaceBack(t, lo, hi) ==> !IsSpace(t[SkipSpaceBack(t, lo, hi) - 1])
    decreases hi - lo
  {
    if lo < hi && IsSpace(t[hi - 1]) {
      SkipSpaceBackSpec(t, lo, hi - 1);
    }
  }

  /** What `t[lo:hi].strip()` returns: the slice of `t[lo:hi]` from its first
      to its last non-whitespace character. Everything dropped is whitespace
      and neither end of the result is. */
  lemma StripRangeSpec(t: string, lo: nat, hi: nat)
    requires lo <= hi <= |t|
    ensures var a := SkipSpace(t, lo, hi);
      && a + |StripRange(t, lo, hi)| <= hi
      && StripRange(t, lo, hi) == t[a..a + |StripRange(t, lo, hi)|]
      && (forall k :: lo <= k < hi && !(a <= k < a + |StripRange(t, lo, hi)|) ==> IsSpace(t[k]))
      && IsStripped(StripRange(t, lo, hi))
  {
    var a := SkipSpace(t, lo, hi);
    SkipSpaceSpec(t, lo, hi);
    SkipSpaceBackSpec(t, a, hi);
  }

  /** The first non-whitespace index is determined by its defining facts. */
  lemma {:induction false} SkipSpaceIs(t: string, lo: nat, hi: nat, r: nat)
    requires lo <= r <= hi <= |t|
    requires forall k :: lo <= k < r ==> IsSpace(t[k])
    requires r < hi ==> !IsSpace(t[r])
    ensures SkipSpace(t, lo, hi) == r
    decreases hi - lo
  {
    if lo < r {
      SkipSpaceIs(t, lo + 1, hi, r);
    }
  }

  /** The end of the last non-whitespace character is determined likewise. */
  lemma {:induction false} SkipSpaceBackIs(t: string, lo: nat, hi: nat, r: nat)
    requires lo <= r <= hi <= |t|
    requires forall k :: r <= k < hi ==> IsSpace(t[k])
    requires lo < r ==> !IsSpace(t[r - 1])
    ensures SkipSpaceBack(t, lo, hi) == r
    decreases hi - lo
  {
    if r < hi {
      SkipSpaceBackIs(t, lo, hi - 1, r);
    }
  }

  lemma SkipSpaceOfSlice(t: string, lo: nat, hi: nat)
    requires lo <= hi <= |t|
    ensures SkipSpace(t[lo..hi], 0, hi - lo) == SkipSpace(t, lo, hi) - lo
  {
    var u := t[lo..hi];
    SkipSpaceSpec(t, lo, hi);
    SkipSpaceIs(u, 0, |u|, SkipSpace(t, lo, hi) - lo);
  }

  lemma SkipSpaceBackOfSlice(t: string, a: nat, lo: nat, hi: nat)
    requires lo <= a <= hi <= |t|
    ensures SkipSpaceBack(t[lo..hi], a - lo, hi - lo) == SkipSpaceBack(t, a, hi) - lo
  {
    var u := t[lo..hi];
    SkipSpaceBackSpec(t, a, hi);
    SkipSpaceBackIs(u, a - lo, |u|, SkipSpaceBack(t, a, hi) - lo);
  }

  /** Stripping a range is stripping the slice it denotes. */
  lemma StripRangeIsStrip(t: string, lo: nat, hi: nat)
    requires lo <= hi <= |t|
    ensures StripRange(t, lo, hi) == Strip(t[lo..hi])
  {
    var u := t[lo..hi];
    var a := SkipSpace(t, lo, hi);
    var b := SkipSpaceBack(t, a, hi);
    SkipSpaceOfSlice(t, lo, hi);
    SkipSpaceBackOfSlice(t, a, lo, hi);
    var w := u[a - lo..b - lo];
    forall i | 0 <= i < |w|
      ensures w[i] == t[a..b][i]
    {
      assert w[i] == u[a - lo + i];
    }
    assert w == t[a..b];
  }

  /** Stripping a range of the right part of `a + b` is stripping that range
      of `b`. */
  lemma StripRangeShift(a: string, b: string, lo: nat, hi: nat, lo': nat, hi': nat)
    requires lo <= hi <= |b| && lo' == |a| + lo && hi' == |a| + hi
    ensures StripRange(a + b, lo', hi') == StripRange(b, lo, hi)
  {
    StripRangeIsStrip(a + b, lo', hi');
    StripRangeIsStrip(b, lo, hi);
    var u := (a + b)[lo'..hi'];
    var v := b[lo..hi];
    forall i | 0 <= i < |u|
      ensures u[i] == v[i]
    {
      assert u[i] == (a + b)[lo' + i];
    }
    assert u == v;
  }

  /** Stripping a range of the left part of `a + b` is stripping that range
      of `a`. */
  lemma StripRangeLeft(a: string, b: string, lo: nat, hi: nat)
    requires lo <= hi <= |a|
    ensures StripRange(a + b, lo, hi) == StripRange(a, lo, hi)
  {
    StripRangeIsStrip(a + b, lo, hi);
    StripRangeIsStrip(a, lo, hi);
    assert (a + b)[lo..hi] == a[lo..hi];
  }

  /** Stripping a text without `pat` leaves a text without `pat`. */
  lemma StripRangeAbsent(t: string, lo: nat, hi: nat, pat: string)
    requires lo <= hi <= |t| && !Contains(t[lo..hi], pat)
    ensures !Contains(StripRange(t, lo, hi), pat)
  {
    StripRangeSpec(t, lo, hi);
    var a := SkipSpace(t, lo, hi);
    var r := StripRange(t, lo, hi);
    FindSpec(r, pat, 0);
    FindSpec(t[lo..hi], pat, 0);
    var f := Find(r, pat, 0);
    if f >= 0 {
      OccursInSlice(t, pat, a, a + |r|, f);
      OccursInSlice(t, pat, lo, hi, a - lo + f);
    }
  }

  /** Stripping whitespace padded around a stripped text gives the text back. */
  lemma StripPadded(w1: string, c: string, w2: string)
    requires forall k :: 0 <= k < |w1| ==> IsSpace(w1[k])
    requires forall k :: 0 <= k < |w2| ==> IsSpace(w2[k])
    requires IsStripped(c)
    ensures Strip(w1 + c + w2) == c
  {
    var u := w1 + c + w2;
    if c == [] {
      assert forall k :: 0 <= k < |u| ==> IsSpace(u[k]);
      SkipSpaceIs(u, 0, |u|, |u|);
      SkipSpaceBackIs(u, |u|, |u|, |u|);
    } else {
      assert u[|w1|] == c[0];
      SkipSpaceIs(u, 0, |u|, |w1|);
      assert u[|w1| + |c| - 1] == c[|c| - 1];
      SkipSpaceBackIs(u, |w1|, |u|, |w1| + |c|);
      assert u[|w1|..|w1| + |c|] == c;
    }
  }

  // ---------------------------------------------------------------------
  // str.lower()

  /** ASCII lower-casing of one character. */
  function LowerChar(c: char): char
  {
    if 'A' <= c <= 'Z' then (c as int + 32) as char else c
  }

  /** `s.lower()` restricted to ASCII letters. */
  function Lower(s: string): (r: string)
  {
    seq(|s|, i requires 0 <= i < |s| => LowerChar(s[i]))
  }

  /** The characters of `s` from `i` on lower-case to `kw`. */
  predicate MatchesIgnoringCase(s: string, kw: string, i: int)
  {
    0 <= i && i + |kw| <= |s| && forall k :: 0 <= k < |kw| ==> LowerChar(s[i + k]) == kw[k]
  }

  /** `kw in s.lower()` holds exactly when the characters of `s` at some
      index lower-case to `kw`: the match ignores ASCII case. */
  lemma ContainsLower(s: string, kw: string)
    ensures Contains(Lower(s), kw) <==> exists i :: MatchesIgnoringCase(s, kw, i)
  {
    FindSpec(Lower(s), kw, 0);
    if Contains(Lower(s), kw) {
      assert MatchesIgnoringCase(s, kw, Find(Lower(s), kw, 0));
    }
    if exists i :: MatchesIgnoringCase(s, kw, i) {
      var i :| MatchesIgnoringCase(s, kw, i);
      assert OccursAt(Lower(s), kw, i);
    }
  }
}
