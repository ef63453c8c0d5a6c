/** Python's `str.strip()` with no argument: removes leading and trailing characters
    for which `str.isspace()` is true. */
module PyText {

  /** The code-point ranges, bounds included, of the characters for which `c.isspace()`
      holds: the characters whose bidirectional class is WS, B or S, or whose general
      category is Zs. */
  const SpaceRanges: seq<(char, char)> := [
    ('\U{9}', '\U{d}'), ('\U{1c}', '\U{20}'), ('\U{85}', '\U{85}'), ('\U{a0}', '\U{a0}'),
    ('\U{1680}', '\U{1680}'), ('\U{2000}', '\U{200a}'), ('\U{2028}', '\U{2029}'),
    ('\U{202f}', '\U{202f}'), ('\U{205f}', '\U{205f}'), ('\U{3000}', '\U{3000}')]

  /** `c` lies in one of `ranges`. */
  predicate InRanges(c: char, ranges: seq<(char, char)>) {
    ranges != [] && (ranges[0].0 <= c <= ranges[0].1 || InRanges(c, ranges[1..]))
  }

  /** `c.isspace()` */
  predicate IsSpace(c: char) {
    InRanges(c, SpaceRanges)
  }

  /** Every character of `s[lo..hi]` is white space. */
  predicate SpaceBetween(s: string, lo: int, hi: int) {
    forall k :: lo <= k < hi ==> 0 <= k < |s| && IsSpace(s[k])
  }

  /** The index of the first character at or after `i` that is not white space, or `|s|`. */
  function SkipSpace(s: string, i: nat): (k: nat)
    requires i <= |s|
    ensures i <= k <= |s|
    decreases |s| - i
  {
    if i < |s| && IsSpace(s[i]) then SkipSpace(s, i + 1) else i
  }

  /** The index just after the last character before `j`, and not before `lo`, that is
      not white space, or `lo`. */
  function SkipSpaceBack(s: string, lo: nat, j: nat): (k: nat)
    requires lo <= j <= |s|
    ensures lo <= k <= j
  {
    if lo < j && IsSpace(s[j - 1]) then SkipSpaceBack(s, lo, j - 1) else j
  }

  /** `s.strip()`: skip the leading white space, then the trailing white space of what
      is left. */
  function Strip(s: string): (r: string)
    ensures |r| <= |s|
    ensures r != [] ==> !IsSpace(r[0]) && !IsSpace(r[|r| - 1])
  {
    var i := SkipSpace(s, 0);
    var j := SkipSpaceBack(s, i, |s|);
    SkipSpaceSpan(s, 0);
    SkipSpaceBackSpan(s, i, |s|);
    s[i..j]
  }

  /** `SkipSpace` stops at the first character that is not white space. */
  lemma {:induction false} SkipSpaceSpan(s: string, i: nat)
    requires i <= |s|
    ensures SpaceBetween(s, i, SkipSpace(s, i))
    ensures SkipSpace(s, i) < |s| ==> !IsSpace(s[SkipSpace(s, i)])
    decreases |s| - i
  {
    if i < |s| && IsSpace(s[i]) {
      SkipSpaceSpan(s, i + 1);
    }
  }

  /** `SkipSpaceBack` stops after the last character that is not white space. */
  lemma {:induction false} SkipSpaceBackSpan(s: string, lo: nat, j: nat)
    requires lo <= j <= |s|
    ensures SpaceBetween(s, SkipSpaceBack(s, lo, j), j)
    ensures lo < SkipSpaceBack(s, lo, j) ==> !IsSpace(s[SkipSpaceBack(s, lo, j) - 1])
  {
    if lo < j && IsSpace(s[j - 1]) {
      SkipSpaceBackSpan(s, lo, j - 1);
    }
  }

  /** `SkipSpace` from `i` gives `k` when `s[i..k]` is white space and `s[k]`, if
      present, is not. */
  lemma {:induction false} SkipSpaceIs(s: string, i: nat, k: nat)
    requires i <= k <= |s| && SpaceBetween(s, i, k) && (k < |s| ==> !IsSpace(s[k]))
    ensures SkipSpace(s, i) == k
    decreases k - i
  {
    if i < k {
      assert IsSpace(s[i]);
      SkipSpaceIs(s, i + 1, k);
    }
  }

  /** `SkipSpaceBack` from `j` gives `k` when `s[k..j]` is white space and `s[k - 1]`,
      if at or after `lo`, is not. */
  lemma {:induction false} SkipSpaceBackIs(s: string, lo: nat, j: nat, k: nat)
    requires lo <= k <= j <= |s| && SpaceBetween(s, k, j) && (lo < k ==> !IsSpace(s[k - 1]))
    ensures SkipSpaceBack(s, lo, j) == k
    decreases j - k
  {
    if k < j {
      assert IsSpace(s[j - 1]);
      SkipSpaceBackIs(s, lo, j - 1, k);
    }
  }

  /** `r` is what is left of `s` once a white-space prefix and a white-space suffix are
      cut off, and neither end of `r` is white space: the independent description of
      stripping. */
  ghost predicate IsStripOf(r: string, s: string) {
    exists i, j :: StripsAt(r, s, i, j)
  }

  /** `r` is `s[i..j]`, `s[..i]` and `s[j..]` are white space, and the ends of `r` are not. */
  predicate StripsAt(r: string, s: string, i: int, j: int) {
    && 0 <= i <= j <= |s| && r == s[i..j]
    && SpaceBetween(s, 0, i) && SpaceBetween(s, j, |s|)
    && (i < j ==> !IsSpace(s[i]) && !IsSpace(s[j - 1]))
  }

  /** `Strip` meets the description. */
  lemma StripIsStrip(s: string)
    ensures IsStripOf(Strip(s), s)
  {
    var i := SkipSpace(s, 0);
    var j := SkipSpaceBack(s, i, |s|);
    SkipSpaceSpan(s, 0);
    SkipSpaceBackSpan(s, i, |s|);
    assert StripsAt(Strip(s), s, i, j);
  }

  /** A text that is all white space strips to the empty text. */
  lemma StripOfSpace(s: string)
    requires SpaceBetween(s, 0, |s|)
    ensures Strip(s) == ""
  {
    SkipSpaceIs(s, 0, |s|);
  }

  /** The description determines the result: whatever meets it is `Strip(s)`. */
  lemma StripIsUnique(r: string, s: string)
    requires IsStripOf(r, s)
    ensures r == Strip(s)
  {
    var i, j :| StripsAt(r, s, i, j);
    if i == j {
      assert SpaceBetween(s, 0, |s|);
      StripOfSpace(s);
    } else {
      SkipSpaceIs(s, 0, i);
      SkipSpaceBackIs(s, i, |s|, j);
    }
  }

  /** Stripping twice is stripping once. */
  lemma StripIdempotent(s: string)
    ensures Strip(Strip(s)) == Strip(s)
  {
    var r := Strip(s);
    StripIsStrip(s);
    var i, j :| StripsAt(r, s, i, j);
    assert StripsAt(r, r, 0, |r|) by {
      assert r[0..|r|] == r;
      if 0 < |r| {
        assert r[0] == s[i] && r[|r| - 1] == s[j - 1];
      }
    }
    StripIsUnique(r, r);
  }
}
