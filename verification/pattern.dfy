/** The two regular expressions the spiders search with, `Page (\d+) of` and
    `\((\d+) available\)`, both of the shape `Prefix(\d+)Suffix`, together with
    Python's `re.search` semantics for them: the leftmost start position wins,
    and the captured group is converted with `int(...)`. */
module Pattern {
  import opened Wrappers
  import opened Text

  /** A regular expression `Prefix(\d+)Suffix` with literal prefix and suffix. */
  datatype Pattern = Pattern(prefix: string, suffix: string) {

    /** The suffix starts with a non-digit, so at any start position the only
        digit run that can be followed by the suffix is the maximal one. */
    predicate Valid() {
      |suffix| > 0 && !IsDigit(suffix[0])
    }

    /** Every matched text begins and ends with a non-whitespace character. */
    predicate SpaceFramed() {
      |prefix| > 0 && |suffix| > 0 && !IsSpace(prefix[0]) && !IsSpace(suffix[|suffix| - 1])
    }
  }

  /** `r'Page (\d+) of'` */
  const PagePattern := Pattern("Page ", " of")

  /** `r'\((\d+) available\)'` */
  const QuantityPattern := Pattern("(", " available)")

  /** Regex semantics: the pattern matches `s` at start `i` with a captured
      digit run of length `k`. */
  ghost predicate IsMatch(s: string, pat: Pattern, i: int, k: int) {
    && 0 <= i && 1 <= k
    && OccursAt(s, pat.prefix, i)
    && i + |pat.prefix| + k <= |s|
    && AllDigits(s[i + |pat.prefix|..i + |pat.prefix| + k])
    && OccursAt(s, pat.suffix, i + |pat.prefix| + k)
  }

  /** The pattern matches somewhere in `s`. */
  ghost predicate Matches(s: string, pat: Pattern) {
    exists i, k :: IsMatch(s, pat, i, k)
  }

  /** The match `re.search` reports: no match starts further left. */
  ghost predicate IsLeftmost(s: string, pat: Pattern, i: int, k: int) {
    IsMatch(s, pat, i, k) && forall j, l :: 0 <= j < i ==> !IsMatch(s, pat, j, l)
  }

  /** `match.group(1)` for a match at `i` with a run of `k` digits. */
  function Group(s: string, pat: Pattern, i: nat, k: nat): string
    requires i + |pat.prefix| + k <= |s|
  {
    s[i + |pat.prefix|..i + |pat.prefix| + k]
  }

  /** A start position and captured-run length reported by a search. */
  datatype Match = Match(start: nat, len: nat)

  /** Length of the run of digits in `s` beginning at index `p`. */
  function DigitRun(s: string, p: nat): (k: nat)
    requires p <= |s|
    ensures p + k <= |s|
    ensures AllDigits(s[p..p + k])
    ensures p + k == |s| || !IsDigit(s[p + k])
    decreases |s| - p
  {
    if p < |s| && IsDigit(s[p]) then
      var k := DigitRun(s, p + 1);
      assert s[p..p + 1 + k] == [s[p]] + s[p + 1..p + 1 + k];
      1 + k
    else 0
  }

  /** Any match at `i` captures exactly the maximal digit run after the
      prefix, because the suffix starts with a non-digit. */
  lemma MatchIsMaximalRun(s: string, pat: Pattern, i: nat, k: nat)
    requires pat.Valid() && IsMatch(s, pat, i, k)
    ensures k == DigitRun(s, i + |pat.prefix|)
  {
    var p := i + |pat.prefix|;
    assert s[p + k..p + k + |pat.suffix|][0] == s[p + k];
  }

  /** Anchored match at `i`: the length of the captured run, if any. */
  function MatchAt(s: string, pat: Pattern, i: nat): (r: Option<nat>)
    requires pat.Valid()
    ensures r.Some? ==> IsMatch(s, pat, i, r.value)
    ensures r.None? ==> forall k :: !IsMatch(s, pat, i, k)
  {
    if OccursAt(s, pat.prefix, i) then
      var p := i + |pat.prefix|;
      var k := DigitRun(s, p);
      assert forall l :: IsMatch(s, pat, i, l) ==> l == k by {
        forall l | IsMatch(s, pat, i, l) ensures l == k {
          MatchIsMaximalRun(s, pat, i, l);
        }
      }
      if k >= 1 && OccursAt(s, pat.suffix, p + k) then Some(k) else None
    else None
  }

  /** `re.search` restricted to start positions `from` and later. */
  function SearchFrom(s: string, pat: Pattern, from: nat): (r: Option<Match>)
    requires pat.Valid()
    ensures r.Some? ==> from <= r.value.start && IsMatch(s, pat, r.value.start, r.value.len)
    ensures r.Some? ==> forall i, k :: from <= i < r.value.start ==> !IsMatch(s, pat, i, k)
    ensures r.None? ==> forall i, k :: from <= i ==> !IsMatch(s, pat, i, k)
    decreases |s| - from
  {
    if from > |s| then None
    else
      match MatchAt(s, pat, from)
      case Some(k) => Some(Match(from, k))
      case None => SearchFrom(s, pat, from + 1)
  }

  /** `re.search(pat, s)`. */
  function Search(s: string, pat: Pattern): (r: Option<Match>)
    requires pat.Valid()
    ensures r.None? <==> !Matches(s, pat)
    ensures r.Some? ==> IsLeftmost(s, pat, r.value.start, r.value.len)
  {
    SearchFrom(s, pat, 0)
  }

  /** `int(m.group(1)) if (m := re.search(pat, s)) else None`. */
  function SearchNumber(s: string, pat: Pattern): (r: Option<nat>)
    requires pat.Valid()
    ensures r.None? <==> !Matches(s, pat)
    ensures r.Some? ==> exists i: nat, k: nat ::
      IsLeftmost(s, pat, i, k) && r.value == DigitsValue(Group(s, pat, i, k))
  {
    match Search(s, pat)
    case None => None
    case Some(m) =>
      var n := DigitsValue(Group(s, pat, m.start, m.len));
      assert IsLeftmost(s, pat, m.start, m.len);
      Some(n)
  }

  /** At a given start the captured run has only one possible length. */
  lemma MatchLengthUnique(s: string, pat: Pattern, i: nat, k: nat, l: nat)
    requires pat.Valid()
    requires IsMatch(s, pat, i, k) && IsMatch(s, pat, i, l)
    ensures k == l
  {
    MatchIsMaximalRun(s, pat, i, k);
    MatchIsMaximalRun(s, pat, i, l);
  }

  /** `re.search` has exactly one answer. */
  lemma LeftmostUnique(s: string, pat: Pattern, i: nat, k: nat, j: nat, l: nat)
    requires pat.Valid()
    requires IsLeftmost(s, pat, i, k) && IsLeftmost(s, pat, j, l)
    ensures i == j && k == l
  {
    MatchLengthUnique(s, pat, i, k, l);
  }

  /** A match with nothing to its left is what the search reports. */
  lemma SearchNumberAt(s: string, pat: Pattern, i: nat, ds: string)
    requires pat.Valid() && IsMatch(s, pat, i, |ds|)
    requires Group(s, pat, i, |ds|) == ds
    requires forall j, l :: 0 <= j < i ==> !IsMatch(s, pat, j, l)
    ensures AllDigits(ds) && SearchNumber(s, pat) == Some(DigitsValue(ds))
  {
    var m := Search(s, pat).value;
    assert m.start == i;
    MatchLengthUnique(s, pat, i, m.len, |ds|);
  }

  /** Where a text spells out `prefix`, digits, `suffix` after a part
      without the prefix's first character, that is its leftmost match. */
  lemma SpelledMatch(s: string, a: string, ds: string, rest: string, pat: Pattern)
    requires |pat.prefix| > 0 && pat.prefix[0] !in a
    requires |ds| > 0 && AllDigits(ds)
    requires s == a + pat.prefix + ds + pat.suffix + rest
    ensures IsMatch(s, pat, |a|, |ds|) && Group(s, pat, |a|, |ds|) == ds
    ensures forall j, l :: 0 <= j < |a| ==> !IsMatch(s, pat, j, l)
  {
    var i := |a|;
    var p := i + |pat.prefix|;
    var e := p + |ds|;
    assert s[i..p] == pat.prefix;
    assert s[p..e] == ds;
    assert s[e..e + |pat.suffix|] == pat.suffix;
  }

  /** A text that spells out `prefix`, digits `ds`, `suffix`, preceded by a
      part that cannot start a match, yields the number `ds` denotes. */
  lemma SearchNumberOf(a: string, ds: string, rest: string, pat: Pattern)
    requires pat.Valid() && |pat.prefix| > 0
    requires pat.prefix[0] !in a
    requires |ds| > 0 && AllDigits(ds)
    ensures SearchNumber(a + pat.prefix + ds + pat.suffix + rest, pat) == Some(DigitsValue(ds))
  {
    var s := a + pat.prefix + ds + pat.suffix + rest;
    SpelledMatch(s, a, ds, rest, pat);
    SearchNumberAt(s, pat, |a|, ds);
  }

  /** A match of a space-framed pattern starts and ends on non-space
      characters, so it lies inside the window. */
  lemma MatchInsideWindow(s: string, t: string, lo: nat, pat: Pattern, i: nat, k: nat)
    requires WindowAt(s, t, lo) && pat.SpaceFramed()
    requires IsMatch(s, pat, i, k)
    ensures lo <= i && i + |pat.prefix| + k + |pat.suffix| <= lo + |t|
  {
    var p := i + |pat.prefix|;
    var e := p + k + |pat.suffix|;
    assert s[i..p][0] == s[i];
    AfterSpacePrefix(s, lo, i);
    assert s[p + k..e][|pat.suffix| - 1] == s[e - 1];
    BeforeSpaceSuffix(s, lo + |t|, e - 1);
  }

  /** A match that lies inside a slice `t` of `s` is a match of `t`. */
  lemma MatchInSlice(s: string, t: string, lo: nat, pat: Pattern, i: nat, k: nat)
    requires lo + |t| <= |s| && t == s[lo..lo + |t|]
    requires IsMatch(s, pat, i, k)
    requires lo <= i && i + |pat.prefix| + k + |pat.suffix| <= lo + |t|
    ensures IsMatch(t, pat, i - lo, k)
  {
    var p := i + |pat.prefix|;
    OccursShift(s, t, lo, pat.prefix, i);
    SliceShift(s, t, lo, p, p + k);
    OccursShift(s, t, lo, pat.suffix, p + k);
  }

  /** A match in `s` lies inside the window `t` and is a match of `t`. */
  lemma WindowMatchDown(s: string, t: string, lo: nat, pat: Pattern, i: nat, k: nat)
    requires WindowAt(s, t, lo) && pat.SpaceFramed()
    requires IsMatch(s, pat, i, k)
    ensures lo <= i && IsMatch(t, pat, i - lo, k)
  {
    MatchInsideWindow(s, t, lo, pat, i, k);
    MatchInSlice(s, t, lo, pat, i, k);
  }

  /** A match in the window `t` is, shifted, a match of `s`. */
  lemma WindowMatchUp(s: string, t: string, lo: nat, pat: Pattern, j: nat, k: nat)
    requires lo + |t| <= |s| && t == s[lo..lo + |t|]
    requires IsMatch(t, pat, j, k)
    ensures IsMatch(s, pat, j + lo, k)
  {
    var i := j + lo;
    var p := i + |pat.prefix|;
    OccursShift(s, t, lo, pat.prefix, i);
    SliceShift(s, t, lo, p, p + k);
    OccursShift(s, t, lo, pat.suffix, p + k);
  }

  /** Surrounding whitespace never takes part in a match of a space-framed
      pattern: matches of `s` and of its window `t` correspond one to one. */
  lemma WindowMatches(s: string, t: string, lo: nat, pat: Pattern)
    requires WindowAt(s, t, lo) && pat.SpaceFramed()
    ensures forall i, k :: IsMatch(s, pat, i, k) ==> lo <= i && IsMatch(t, pat, i - lo, k)
    ensures forall j, k :: IsMatch(t, pat, j, k) ==> IsMatch(s, pat, j + lo, k)
  {
    forall i, k | IsMatch(s, pat, i, k) ensures lo <= i && IsMatch(t, pat, i - lo, k) {
      WindowMatchDown(s, t, lo, pat, i, k);
    }
    forall j, k | IsMatch(t, pat, j, k) ensures IsMatch(s, pat, j + lo, k) {
      WindowMatchUp(s, t, lo, pat, j, k);
    }
  }

  /** The leftmost match of `s` is, shifted, the leftmost match of its window. */
  lemma LeftmostInWindow(s: string, t: string, lo: nat, pat: Pattern, i: nat, k: nat)
    requires WindowAt(s, t, lo) && pat.SpaceFramed()
    requires IsLeftmost(s, pat, i, k)
    ensures lo <= i && IsLeftmost(t, pat, i - lo, k)
  {
    WindowMatches(s, t, lo, pat);
  }

  /** `s` has a match exactly when its window does. */
  lemma WindowMatchesIff(s: string, t: string, lo: nat, pat: Pattern)
    requires WindowAt(s, t, lo) && pat.SpaceFramed()
    ensures Matches(s, pat) <==> Matches(t, pat)
  {
    if Matches(s, pat) {
      var i, k :| IsMatch(s, pat, i, k);
      WindowMatchDown(s, t, lo, pat, i, k);
    }
    if Matches(t, pat) {
      var j, k :| IsMatch(t, pat, j, k);
      WindowMatchUp(s, t, lo, pat, j, k);
    }
  }

  /** The search over a window reports the same match, shifted. */
  lemma SearchWindow(s: string, t: string, lo: nat, pat: Pattern)
    requires WindowAt(s, t, lo) && pat.Valid() && pat.SpaceFramed()
    ensures Search(t, pat).None? <==> Search(s, pat).None?
    ensures Search(s, pat).Some? ==>
      lo <= Search(s, pat).value.start &&
      Search(t, pat).value == Match(Search(s, pat).value.start - lo, Search(s, pat).value.len)
  {
    WindowMatchesIff(s, t, lo, pat);
    var ms, mt := Search(s, pat), Search(t, pat);
    if ms.Some? {
      var i, k := ms.value.start, ms.value.len;
      LeftmostInWindow(s, t, lo, pat, i, k);
      LeftmostUnique(t, pat, i - lo, k, mt.value.start, mt.value.len);
    }
  }

  /** A captured group inside a slice reads the same as in `s`. */
  lemma GroupInSlice(s: string, t: string, lo: nat, pat: Pattern, i: nat, k: nat)
    requires lo + |t| <= |s| && t == s[lo..lo + |t|]
    requires lo <= i && i - lo + |pat.prefix| + k <= |t|
    ensures Group(t, pat, i - lo, k) == Group(s, pat, i, k)
  {
    SliceShift(s, t, lo, i + |pat.prefix|, i + |pat.prefix| + k);
  }

  /** Two searches whose groups read the same yield the same number. */
  lemma SameGroupSameNumber(s: string, t: string, pat: Pattern, m: Match, m': Match)
    requires pat.Valid()
    requires Search(s, pat) == Some(m) && Search(t, pat) == Some(m')
    requires m.start + |pat.prefix| + m.len <= |s| && m'.start + |pat.prefix| + m'.len <= |t|
    requires Group(t, pat, m'.start, m'.len) == Group(s, pat, m.start, m.len)
    ensures SearchNumber(t, pat) == SearchNumber(s, pat)
  {
  }

  /** When the search over a slice reports the shifted match, the numbers
      agree. */
  lemma SearchNumberSliceSome(s: string, t: string, lo: nat, pat: Pattern, m: Match)
    requires lo + |t| <= |s| && t == s[lo..lo + |t|] && pat.Valid()
    requires Search(s, pat) == Some(m) && lo <= m.start
    requires Search(t, pat) == Some(Match(m.start - lo, m.len))
    ensures SearchNumber(t, pat) == SearchNumber(s, pat)
  {
    var m' := Match(m.start - lo, m.len);
    assert IsMatch(t, pat, m'.start, m'.len);
    GroupInSlice(s, t, lo, pat, m.start, m.len);
    SameGroupSameNumber(s, t, pat, m, m');
  }

  /** Searching a window with whitespace-only margins yields the same number. */
  lemma SearchNumberWindow(s: string, t: string, lo: nat, pat: Pattern)
    requires WindowAt(s, t, lo) && pat.Valid() && pat.SpaceFramed()
    ensures SearchNumber(t, pat) == SearchNumber(s, pat)
  {
    SearchWindow(s, t, lo, pat);
    if Search(s, pat).Some? {
      SearchNumberSliceSome(s, t, lo, pat, Search(s, pat).value);
    }
  }

  /** Stripping the text first does not change what the search yields. */
  lemma SearchNumberStrip(s: string, pat: Pattern)
    requires pat.Valid() && pat.SpaceFramed()
    ensures SearchNumber(Strip(s), pat) == SearchNumber(s, pat)
  {
    SearchNumberWindow(s, Strip(s), LeadingSpace(s), pat);
  }
}
