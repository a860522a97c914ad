/** Character-level text helpers: the whitespace that Python's `str.strip()`
    removes, substring containment (`p in s`), ASCII decimal digits and
    `int(...)` of a digit string, and `s.replace(c, '')`. */
module Text {
  import opened Wrappers

  /** The ASCII characters that `str.isspace()` accepts: space, tab, line feed,
      vertical tab, form feed, carriage return and the four separators
      0x1C..0x1F. */
  predicate IsSpace(c: char) {
    c == ' ' || ('\t' <= c <= '\r') || ('\U{1C}' <= c <= '\U{1F}')
  }

  predicate AllSpace(s: string) {
    forall i :: 0 <= i < |s| ==> IsSpace(s[i])
  }

  /** Neither the first nor the last character is whitespace. */
  predicate Trimmed(s: string) {
    |s| == 0 || (!IsSpace(s[0]) && !IsSpace(s[|s| - 1]))
  }

  /** `r` sits inside `s` at `lo` with nothing but whitespace around it. */
  ghost predicate WindowAt(s: string, r: string, lo: int) {
    0 <= lo && lo + |r| <= |s| && s[lo..lo + |r|] == r
    && AllSpace(s[..lo]) && AllSpace(s[lo + |r|..])
  }

  /** Reference meaning of `s.strip() == r`: `r` is `s` with whitespace-only
      margins removed and no whitespace left at either end. */
  ghost predicate StripsTo(s: string, r: string) {
    Trimmed(r) && exists lo :: WindowAt(s, r, lo)
  }

  /** Number of leading whitespace characters. */
  function LeadingSpace(s: string): (n: nat)
    ensures n <= |s|
    ensures AllSpace(s[..n])
    ensures n == |s| || !IsSpace(s[n])
  {
    if |s| > 0 && IsSpace(s[0]) then
      var m := LeadingSpace(s[1..]);
      assert s[..1 + m] == [s[0]] + s[1..][..m];
      1 + m
    else 0
  }

  /** Number of trailing whitespace characters. */
  function TrailingSpace(s: string): (n: nat)
    ensures n <= |s|
    ensures AllSpace(s[|s| - n..])
    ensures n == |s| || !IsSpace(s[|s| - n - 1])
  {
    if |s| > 0 && IsSpace(s[|s| - 1]) then
      var m := TrailingSpace(s[..|s| - 1]);
      1 + m
    else 0
  }

  /** Python's `s.strip()` over the whitespace set of `IsSpace`. */
  function Strip(s: string): (r: string)
    ensures StripsTo(s, r)
    ensures WindowAt(s, r, LeadingSpace(s))
  {
    var lo := LeadingSpace(s);
    var rest := s[lo..];
    var t := TrailingSpace(rest);
    var r := rest[..|rest| - t];
    assert s[lo + |r|..] == rest[|rest| - t..];
    assert |r| > 0 ==> r[0] == s[lo] && r[|r| - 1] == rest[|rest| - t - 1];
    assert WindowAt(s, r, lo);
    r
  }

  /** A whitespace-only string strips to the empty string at its very end. */
  lemma AllSpaceLeading(s: string)
    requires AllSpace(s)
    ensures LeadingSpace(s) == |s|
  {
  }

  /** Two whitespace prefixes that both stop at a non-space character (or the
      end) have the same length. */
  lemma SpacePrefixUnique(s: string, a: nat, b: nat)
    requires a <= |s| && b <= |s|
    requires AllSpace(s[..a]) && (a == |s| || !IsSpace(s[a]))
    requires AllSpace(s[..b]) && (b == |s| || !IsSpace(s[b]))
    ensures a == b
  {
  }

  /** The mirror image of `SpacePrefixUnique` for suffixes. */
  lemma SpaceSuffixUnique(s: string, a: nat, b: nat)
    requires a <= |s| && b <= |s|
    requires AllSpace(s[a..]) && (a == 0 || !IsSpace(s[a - 1]))
    requires AllSpace(s[b..]) && (b == 0 || !IsSpace(s[b - 1]))
    ensures a == b
  {
  }

  /** A non-space character lies after a whitespace-only prefix. */
  lemma AfterSpacePrefix(s: string, lo: nat, i: nat)
    requires lo <= |s| && i < |s| && AllSpace(s[..lo]) && !IsSpace(s[i])
    ensures lo <= i
  {
  }

  /** A non-space character lies before a whitespace-only suffix. */
  lemma BeforeSpaceSuffix(s: string, hi: nat, i: nat)
    requires hi <= |s| && i < |s| && AllSpace(s[hi..]) && !IsSpace(s[i])
    ensures i < hi
  {
  }

  /** `StripsTo` pins the result down: it is exactly what `Strip` computes. */
  lemma StripUnique(s: string, r: string)
    requires StripsTo(s, r)
    ensures Strip(s) == r
  {
    var lo :| WindowAt(s, r, lo);
    if |r| == 0 {
      EmptyWindow(s, lo);
      AllSpaceLeading(s);
    } else {
      WindowStart(s, r, lo);
      WindowEnd(s, r, lo);
    }
  }

  /** An empty window leaves only whitespace around it. */
  lemma EmptyWindow(s: string, lo: int)
    requires WindowAt(s, "", lo)
    ensures AllSpace(s)
  {
    assert s == s[..lo] + s[lo..];
  }

  /** A non-empty trimmed window starts where `Strip` starts. */
  lemma WindowStart(s: string, r: string, lo: int)
    requires WindowAt(s, r, lo) && Trimmed(r) && |r| > 0
    ensures lo == LeadingSpace(s)
  {
    assert s[lo] == r[0];
    SpacePrefixUnique(s, lo, LeadingSpace(s));
  }

  /** A non-empty trimmed window ends where `Strip`'s result ends. */
  lemma WindowEnd(s: string, r: string, lo: int)
    requires WindowAt(s, r, lo) && Trimmed(r) && |r| > 0 && lo == LeadingSpace(s)
    ensures Strip(s) == r
  {
    var r' := Strip(s);
    var e, e' := lo + |r|, lo + |r'|;
    assert s[e - 1] == r[|r| - 1];
    assert |r'| > 0 ==> s[e' - 1] == r'[|r'| - 1];
    SpaceSuffixUnique(s, e, e');
  }

  /** Stripping twice is stripping once. */
  lemma StripIdempotent(s: string)
    ensures Strip(Strip(s)) == Strip(s)
  {
    var r := Strip(s);
    assert WindowAt(r, r, 0);
    StripUnique(r, r);
  }

  /** A string without whitespace margins is left as it is. */
  lemma StripTrimmed(s: string)
    requires Trimmed(s)
    ensures Strip(s) == s
  {
    assert WindowAt(s, s, 0);
    StripUnique(s, s);
  }

  /** A slice of a slice is a slice. */
  lemma SliceOfSlice(s: string, a: nat, b: nat, c: nat, d: nat)
    requires a <= b <= |s| && c <= d <= b - a
    ensures s[a..b][c..d] == s[a + c..a + d]
  {
    forall x | 0 <= x < d - c ensures s[a..b][c..d][x] == s[a + c..a + d][x] {
      assert s[a..b][c..d][x] == s[a..b][c + x];
    }
  }

  /** Inside a slice `t` of `s`, a range of `t` reads as the same range of
      `s` shifted by the slice's start. */
  lemma SliceShift(s: string, t: string, lo: nat, a: nat, b: nat)
    requires lo + |t| <= |s| && t == s[lo..lo + |t|]
    requires lo <= a <= b <= lo + |t|
    ensures t[a - lo..b - lo] == s[a..b]
  {
    SliceOfSlice(s, lo, lo + |t|, a - lo, b - lo);
  }

  /** `p` occurs in `s` starting at index `i`. */
  predicate OccursAt(s: string, p: string, i: int) {
    0 <= i && i + |p| <= |s| && s[i..i + |p|] == p
  }

  /** Occurrences inside a slice are occurrences in the whole string. */
  lemma OccursShift(s: string, t: string, lo: nat, p: string, i: nat)
    requires lo + |t| <= |s| && t == s[lo..lo + |t|]
    requires lo <= i && i + |p| <= lo + |t|
    ensures OccursAt(s, p, i) <==> OccursAt(t, p, i - lo)
  {
    SliceShift(s, t, lo, i, i + |p|);
  }

  /** Python's `p in s` for strings. */
  predicate Contains(s: string, p: string) {
    exists i | 0 <= i <= |s| - |p| :: OccursAt(s, p, i)
  }

  /** `s.find(p, from)`: the leftmost occurrence of `p` starting at `from`
      or later. */
  function FindFrom(s: string, p: string, from: nat): (r: Option<nat>)
    ensures r.Some? ==> from <= r.value && OccursAt(s, p, r.value)
    ensures r.Some? ==> forall j :: from <= j < r.value ==> !OccursAt(s, p, j)
    ensures r.None? ==> forall j :: from <= j ==> !OccursAt(s, p, j)
    decreases |s| - from
  {
    if from + |p| > |s| then None
    else if s[from..from + |p|] == p then Some(from)
    else FindFrom(s, p, from + 1)
  }

  /** `s.find(p)`, with `None` for -1: absent exactly when `p in s` fails,
      otherwise the leftmost occurrence. */
  function Find(s: string, p: string): (r: Option<nat>)
    ensures r.None? <==> !Contains(s, p)
    ensures r.Some? ==> OccursAt(s, p, r.value) && forall j :: 0 <= j < r.value ==> !OccursAt(s, p, j)
  {
    FindFrom(s, p, 0)
  }

  /** Python's `p in s`, computed by the search. */
  function HasSubstring(s: string, p: string): (b: bool)
    ensures b <==> Contains(s, p)
  {
    Find(s, p).Some?
  }

  /** An occurrence in `s` of a pattern with non-space ends lies inside the
      window `t`; occurrences correspond one to one. */
  lemma OccursInWindow(s: string, t: string, lo: nat, p: string, i: nat)
    requires WindowAt(s, t, lo) && |p| > 0 && !IsSpace(p[0]) && !IsSpace(p[|p| - 1])
    requires OccursAt(s, p, i)
    ensures lo <= i && OccursAt(t, p, i - lo)
  {
    assert s[i..i + |p|][0] == s[i];
    AfterSpacePrefix(s, lo, i);
    assert s[i..i + |p|][|p| - 1] == s[i + |p| - 1];
    BeforeSpaceSuffix(s, lo + |t|, i + |p| - 1);
    OccursShift(s, t, lo, p, i);
  }

  /** `p in s.strip()` exactly when `p in s`, for a pattern with non-space ends. */
  lemma ContainsStrip(s: string, p: string)
    requires |p| > 0 && !IsSpace(p[0]) && !IsSpace(p[|p| - 1])
    ensures Contains(Strip(s), p) <==> Contains(s, p)
  {
    var t, lo := Strip(s), LeadingSpace(s);
    if Contains(s, p) {
      var i :| 0 <= i <= |s| - |p| && OccursAt(s, p, i);
      OccursInWindow(s, t, lo, p, i);
    }
    if Contains(t, p) {
      var j :| 0 <= j <= |t| - |p| && OccursAt(t, p, j);
      OccursShift(s, t, lo, p, j + lo);
    }
  }

  /** A string cannot contain a pattern whose first character it lacks. */
  lemma LacksFirstChar(s: string, p: string)
    requires |p| > 0 && p[0] !in s
    ensures !Contains(s, p)
  {
  }

  predicate IsDigit(c: char) {
    '0' <= c <= '9'
  }

  predicate AllDigits(s: string) {
    forall i :: 0 <= i < |s| ==> IsDigit(s[i])
  }

  function Pow10(k: nat): (p: nat)
    ensures p >= 1
  {
    if k == 0 then 1 else 10 * Pow10(k - 1)
  }

  function DigitValue(c: char): (d: nat)
    requires IsDigit(c)
    ensures d < 10
  {
    c as int - '0' as int
  }

  function DigitChar(d: nat): (c: char)
    requires d < 10
    ensures IsDigit(c) && DigitValue(c) == d
  {
    ('0' as int + d) as char
  }

  /** Python's `int(ds)` for a run of ASCII digits, read most significant
      digit first. The empty run gives 0 here, although `int("")` raises;
      every captured group is non-empty. */
  function DigitsValue(ds: string): (n: nat)
    requires AllDigits(ds)
    ensures n < Pow10(|ds|)
  {
    if |ds| == 0 then 0
    else DigitsValue(ds[..|ds| - 1]) * 10 + DigitValue(ds[|ds| - 1])
  }

  /** Decimal rendering of `n` without leading zeros; `DigitsValue` inverts it. */
  function ShowNat(n: nat): (ds: string)
    ensures |ds| >= 1 && AllDigits(ds)
    ensures DigitsValue(ds) == n
    ensures !IsSpace(ds[0]) && !IsSpace(ds[|ds| - 1])
  {
    if n < 10 then [DigitChar(n)]
    else
      var hi := ShowNat(n / 10);
      var ds := hi + [DigitChar(n % 10)];
      assert ds[..|ds| - 1] == hi;
      ds
  }

  /** `int()` ignores leading zeros: `int("007") == 7`. */
  lemma {:induction false} LeadingZeroIgnored(ds: string)
    requires AllDigits(ds)
    ensures AllDigits("0" + ds) && DigitsValue("0" + ds) == DigitsValue(ds)
  {
    var z := "0" + ds;
    assert AllDigits(z) by {
      forall i | 0 <= i < |z| ensures IsDigit(z[i]) {
        if i > 0 { assert z[i] == ds[i - 1]; }
      }
    }
    if |ds| > 0 {
      var init := ds[..|ds| - 1];
      assert z[..|z| - 1] == "0" + init;
      LeadingZeroIgnored(init);
    }
  }

  /** Python's `s.replace(c, '')`: every occurrence of `c` dropped, the rest
      kept in order. */
  function RemoveAll(s: string, c: char): (r: string)
    ensures c !in r
    ensures |r| <= |s|
    ensures forall x :: x != c ==> multiset(r)[x] == multiset(s)[x]
  {
    if |s| == 0 then []
    else
      var tail := RemoveAll(s[1..], c);
      assert s == [s[0]] + s[1..];
      if s[0] == c then tail else [s[0]] + tail
  }

  /** `f` maps each position of `r` to a position of `s` holding the same
      character, and preserves order. */
  ghost predicate Embedding(f: seq<nat>, r: string, s: string) {
    && |f| == |r|
    && (forall i :: 0 <= i < |f| ==> f[i] < |s| && s[f[i]] == r[i])
    && (forall i, j :: 0 <= i < j < |f| ==> f[i] < f[j])
  }

  /** `r` is a subsequence of `s`: its characters appear in `s` in the same
      order. */
  ghost predicate InOrder(r: string, s: string) {
    exists f :: Embedding(f, r, s)
  }

  /** Every position moved one to the right. */
  function Shift(f: seq<nat>): (g: seq<nat>)
    ensures |g| == |f| && forall i :: 0 <= i < |f| ==> g[i] == f[i] + 1
  {
    seq(|f|, i requires 0 <= i < |f| => f[i] + 1)
  }

  /** The characters `replace(c, '')` keeps stay in their original order. */
  lemma {:induction false} RemoveAllInOrder(s: string, c: char)
    ensures InOrder(RemoveAll(s, c), s)
  {
    var f := RemoveAllEmbedding(s, c);
  }

  /** The embedding of `RemoveAll(s, c)` into `s`, built position by position. */
  lemma {:induction false} RemoveAllEmbedding(s: string, c: char) returns (f: seq<nat>)
    ensures Embedding(f, RemoveAll(s, c), s)
  {
    if |s| == 0 {
      f := [];
    } else {
      var g := RemoveAllEmbedding(s[1..], c);
      if s[0] == c {
        f := EmbedSkip(s, RemoveAll(s[1..], c), g);
      } else {
        f := EmbedKeep(s, RemoveAll(s[1..], c), g);
      }
    }
  }

  /** An embedding into the tail of `s` is an embedding into `s`, shifted. */
  lemma EmbedSkip(s: string, r: string, g: seq<nat>) returns (f: seq<nat>)
    requires |s| > 0 && Embedding(g, r, s[1..])
    ensures Embedding(f, r, s)
  {
    f := Shift(g);
    forall i | 0 <= i < |f| ensures f[i] < |s| && s[f[i]] == r[i] {
      assert s[f[i]] == s[1..][g[i]];
    }
  }

  /** Keeping the first character extends an embedding into the tail. */
  lemma EmbedKeep(s: string, r: string, g: seq<nat>) returns (f: seq<nat>)
    requires |s| > 0 && Embedding(g, r, s[1..])
    ensures Embedding(f, [s[0]] + r, s)
  {
    f := [0] + Shift(g);
    var r' := [s[0]] + r;
    forall i | 0 <= i < |f| ensures f[i] < |s| && s[f[i]] == r'[i] {
      if i > 0 {
        assert f[i] == g[i - 1] + 1;
        assert s[f[i]] == s[1..][g[i - 1]];
      }
    }
  }

  /** Removal works piecewise, so the kept characters keep their order. */
  lemma {:induction false} RemoveAllAppend(a: string, b: string, c: char)
    ensures RemoveAll(a + b, c) == RemoveAll(a, c) + RemoveAll(b, c)
  {
    if |a| > 0 {
      assert (a + b)[1..] == a[1..] + b;
      RemoveAllAppend(a[1..], b, c);
    } else {
      assert a + b == b;
    }
  }

  /** Removing a character that is absent changes nothing; in particular the
      removal is idempotent. */
  lemma {:induction false} RemoveAllAbsent(s: string, c: char)
    requires c !in s
    ensures RemoveAll(s, c) == s
  {
    if |s| > 0 {
      assert c !in s[1..];
      RemoveAllAbsent(s[1..], c);
      assert s == [s[0]] + s[1..];
    }
  }
}
