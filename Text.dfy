/** The pieces of Python's `str` and `re` behaviour the converter relies on:
    `\s` / `str.isspace`, substring search (`in`, `startswith`), `str.strip()`,
    and the leftmost-shortest search that a non-greedy pattern `A[\s\S]*?B`
    (or `A.*?B` under DOTALL) performs. */
module Text {
  import opened Wrappers

  /** Python's whitespace: the characters for which `str.isspace()` holds,
      which are also the characters `\s` matches in a `str` pattern. */
  predicate IsSpace(c: char) {
    || ('\t' <= c <= '\r')
    || ('\U{1C}' <= c <= ' ')
    || c == '\U{85}' || c == '\U{A0}' || c == '\U{1680}'
    || ('\U{2000}' <= c <= '\U{200A}')
    || c == '\U{2028}' || c == '\U{2029}' || c == '\U{202F}' || c == '\U{205F}'
    || c == '\U{3000}'
  }

  /** Every character of s[a..b] is whitespace. */
  predicate AllSpace(s: string, a: nat, b: nat)
    requires b <= |s|
  {
    forall k :: a <= k < b ==> IsSpace(s[k])
  }

  /** s has no leading and no trailing whitespace. */
  predicate NoOuterSpace(s: string) {
    |s| == 0 || (!IsSpace(s[0]) && !IsSpace(s[|s| - 1]))
  }

  /** pat occurs in s at position i. */
  predicate HasAt(s: string, pat: string, i: nat) {
    i + |pat| <= |s| && s[i..i + |pat|] == pat
  }

  /** Python's `pat in s`. */
  predicate Contains(s: string, pat: string) {
    exists i :: 0 <= i <= |s| && HasAt(s, pat, i)
  }

  /** Python's `s.startswith(pat)`. */
  predicate StartsWith(s: string, pat: string) {
    HasAt(s, pat, 0)
  }

  /** Python's `s.endswith(pat)`. */
  predicate EndsWith(s: string, pat: string) {
    |pat| <= |s| && HasAt(s, pat, |s| - |pat|)
  }

  /** The first position at or after `from` where pat occurs (`s.find(pat, from)`). */
  function Find(s: string, pat: string, from: nat): (r: Option<nat>)
    ensures r.Some? ==> from <= r.value && HasAt(s, pat, r.value)
    ensures r.Some? ==> forall j :: from <= j < r.value ==> !HasAt(s, pat, j)
    ensures r.None? ==> forall j: nat :: from <= j ==> !HasAt(s, pat, j)
    decreases |s| - from
  {
    if from + |pat| > |s| then None
    else if HasAt(s, pat, from) then Some(from)
    else Find(s, pat, from + 1)
  }

  /** The end of the run of whitespace that starts at i: where a greedy `\s*`
      begun at i stops. */
  function SkipSpace(s: string, i: nat): (r: nat)
    requires i <= |s|
    ensures i <= r <= |s|
    ensures AllSpace(s, i, r)
    ensures r == |s| || !IsSpace(s[r])
    decreases |s| - i
  {
    if i < |s| && IsSpace(s[i]) then SkipSpace(s, i + 1) else i
  }

  /** A whitespace run is determined by where it starts: any j that ends an
      all-space stretch from i at a non-space character is SkipSpace(s, i). */
  lemma SkipSpaceUnique(s: string, i: nat, j: nat)
    requires i <= j <= |s|
    requires AllSpace(s, i, j)
    requires j == |s| || !IsSpace(s[j])
    ensures SkipSpace(s, i) == j
  {
  }

  /** Where the trailing-whitespace trim of s[lo..hi] stops. */
  function TrimEnd(s: string, lo: nat, hi: nat): (r: nat)
    requires lo <= hi <= |s|
    ensures lo <= r <= hi
    ensures AllSpace(s, r, hi)
    ensures r == lo || !IsSpace(s[r - 1])
    decreases hi
  {
    if lo < hi && IsSpace(s[hi - 1]) then TrimEnd(s, lo, hi - 1) else hi
  }

  /** Python's `s.strip()`: s without its leading and trailing whitespace. */
  function Strip(s: string): (r: string)
    ensures NoOuterSpace(r)
    ensures |r| <= |s|
  {
    var a := SkipSpace(s, 0);
    s[a..TrimEnd(s, a, |s|)]
  }

  /** Stripping removes only outer whitespace: a string that has none is
      returned as it is. */
  lemma StripNoOuterSpace(s: string)
    requires NoOuterSpace(s)
    ensures Strip(s) == s
  {
    var a := SkipSpace(s, 0);
    if |s| > 0 {
      assert a == 0;
      assert TrimEnd(s, 0, |s|) == |s|;
    }
  }

  /** Stripping keeps every occurrence of a pattern that neither starts nor
      ends with whitespace. */
  lemma StripKeeps(s: string, pat: string, k: nat)
    requires |pat| > 0 && !IsSpace(pat[0]) && !IsSpace(pat[|pat| - 1])
    requires HasAt(s, pat, k)
    ensures Contains(Strip(s), pat)
  {
    var a := SkipSpace(s, 0);
    var b := TrimEnd(s, a, |s|);
    assert s[k] == s[k..k + |pat|][0] == pat[0];
    assert s[k + |pat| - 1] == s[k..k + |pat|][|pat| - 1] == pat[|pat| - 1];
    assert a <= k;
    assert k + |pat| <= b;
    HasAtSlice(s, pat, a, b, k);
  }

  /** An occurrence inside a slice is an occurrence in the slice, shifted. */
  lemma HasAtSlice(s: string, pat: string, a: nat, b: nat, k: nat)
    requires a <= k && k + |pat| <= b <= |s|
    requires HasAt(s, pat, k)
    ensures HasAt(s[a..b], pat, k - a)
  {
    var t := s[a..b];
    var w := s[k..k + |pat|];
    assert forall m :: 0 <= m < |pat| ==> t[k - a..k - a + |pat|][m] == w[m];
    assert t[k - a..k - a + |pat|] == w;
  }

  /** pat occurs in a + pat + b right after a. */
  lemma HasAtJoin(a: string, pat: string, b: string)
    ensures HasAt(a + pat + b, pat, |a|)
  {
    assert (a + pat + b)[|a|..|a| + |pat|] == pat;
  }

  /** An occurrence stays where it is when text is appended. */
  lemma HasAtExtend(s: string, pat: string, i: nat, t: string)
    requires HasAt(s, pat, i)
    ensures HasAt(s + t, pat, i)
  {
    assert (s + t)[i..i + |pat|] == s[i..i + |pat|];
  }

  /** An occurrence in a slice is an occurrence in the whole string. */
  lemma SliceHasAt(s: string, pat: string, a: nat, b: nat, k: nat)
    requires a <= b <= |s|
    requires HasAt(s[a..b], pat, k)
    ensures HasAt(s, pat, a + k)
  {
    var t := s[a..b];
    var w := s[a + k..a + k + |pat|];
    assert forall m :: 0 <= m < |pat| ==> t[k..k + |pat|][m] == w[m];
    assert t[k..k + |pat|] == w;
  }

  /** A slice that contains a pattern makes its whole string contain it. */
  lemma SliceContains(s: string, pat: string, a: nat, b: nat)
    requires a <= b <= |s|
    ensures Contains(s[a..b], pat) ==> Contains(s, pat)
  {
    if Contains(s[a..b], pat) {
      var k :| 0 <= k <= b - a && HasAt(s[a..b], pat, k);
      SliceHasAt(s, pat, a, b, k);
    }
  }

  /** Stripping only removes characters, so whatever the stripped text
      contains, the original contains. */
  lemma StripContains(s: string, pat: string)
    requires Contains(Strip(s), pat)
    ensures Contains(s, pat)
  {
    var a := SkipSpace(s, 0);
    SliceContains(s, pat, a, TrimEnd(s, a, |s|));
  }

  /** A match of the pattern `open[\s\S]*?close` (or `open.*?close` under
      DOTALL) that covers s[p..e]: open at p, close ending at e, anything
      (possibly empty) between. */
  predicate Delimited(s: string, open: string, close: string, p: nat, e: nat) {
    && p + |open| + |close| <= e <= |s|
    && HasAt(s, open, p)
    && HasAt(s, close, e - |close|)
  }

  /** The span `re.search` reports for `open[\s\S]*?close`: the match with
      the leftmost start and, at that start, the shortest extent. */
  ghost predicate LeftmostShortest(s: string, open: string, close: string, p: nat, e: nat) {
    && Delimited(s, open, close, p, e)
    && forall p': nat, e': nat :: Delimited(s, open, close, p', e') ==> p < p' || (p == p' && e <= e')
  }

  datatype Span = Span(start: nat, end: nat)

  /** Finds the first `open`, then the first `close` after it. This is the
      match a backtracking search for the non-greedy pattern reports: if the
      first `open` has no `close` after it, no later `open` has one either. */
  function LazySpan(s: string, open: string, close: string): (r: Option<Span>)
    ensures r.Some? ==> LeftmostShortest(s, open, close, r.value.start, r.value.end)
    ensures r.Some? ==> Find(s, open, 0) == Some(r.value.start)
    ensures r.Some? ==> Find(s, close, r.value.start + |open|) == Some(r.value.end - |close|)
    ensures r.None? <==> forall p: nat, e: nat :: !Delimited(s, open, close, p, e)
  {
    match Find(s, open, 0)
    case None => None
    case Some(p) =>
      match Find(s, close, p + |open|)
      case None => None
      case Some(q) => Some(Span(p, q + |close|))
  }

  /** The reported span starts with `open` and ends with `close`. */
  lemma LazySpanDelimiters(s: string, open: string, close: string)
    requires LazySpan(s, open, close).Some?
    ensures var sp := LazySpan(s, open, close).value;
      StartsWith(s[sp.start..sp.end], open) && EndsWith(s[sp.start..sp.end], close)
  {
    var sp := LazySpan(s, open, close).value;
    DelimitedEnds(s, open, close, sp.start, sp.end);
  }

  /** A delimited stretch starts with `open` and ends with `close`. */
  lemma DelimitedEnds(s: string, open: string, close: string, p: nat, e: nat)
    requires Delimited(s, open, close, p, e)
    ensures StartsWith(s[p..e], open) && EndsWith(s[p..e], close)
  {
    HasAtSlice(s, open, p, e, p);
    HasAtSlice(s, close, p, e, e - |close|);
  }

  /** Universal-newline reading, as `read_text` does it: each "\r\n" and
      each lone "\r" of the stored text comes back as "\n". */
  function TranslateNewlines(s: string): (r: string)
    ensures |r| <= |s|
    decreases |s|
  {
    if |s| == 0 then ""
    else if s[0] == '\r' then
      "\n" + TranslateNewlines(if |s| > 1 && s[1] == '\n' then s[2..] else s[1..])
    else
      [s[0]] + TranslateNewlines(s[1..])
  }

  /** No carriage return survives the translation. */
  lemma {:induction false} TranslateLeavesNoCr(s: string)
    ensures forall k :: 0 <= k < |TranslateNewlines(s)| ==> TranslateNewlines(s)[k] != '\r'
    decreases |s|
  {
    if |s| > 0 {
      var t := if s[0] == '\r' && |s| > 1 && s[1] == '\n' then s[2..] else s[1..];
      TranslateLeavesNoCr(t);
    }
  }

  /** A text without carriage returns reads back exactly as stored. */
  lemma TranslateIdentity(s: string)
    requires forall k :: 0 <= k < |s| ==> s[k] != '\r'
    ensures TranslateNewlines(s) == s
  {
    TranslatePrefix(s, "");
    assert s + "" == s;
  }

  /** A stretch without carriage returns reads back as it is stored, and the
      rest is read on from there. */
  lemma {:induction false} TranslatePrefix(a: string, rest: string)
    requires forall k :: 0 <= k < |a| ==> a[k] != '\r'
    ensures TranslateNewlines(a + rest) == a + TranslateNewlines(rest)
    decreases |a|
  {
    if |a| == 0 {
      assert a + rest == rest;
    } else {
      var a' := a[1..];
      assert forall k :: 0 <= k < |a'| ==> a'[k] == a[k + 1];
      var x := a' + rest;
      TranslatePrefix(a', rest);
      TranslateStep(a[0], x);
      assert [a[0]] + x == a + rest;
      assert [a[0]] + (a' + TranslateNewlines(rest)) == a + TranslateNewlines(rest);
    }
  }

  /** A line ending "\r\n" after a stretch without carriage returns reads
      back as "\n", and the rest is read on from there. */
  lemma TranslateCrLf(a: string, b: string)
    requires forall k :: 0 <= k < |a| ==> a[k] != '\r'
    ensures TranslateNewlines(a + "\r\n" + b) == a + "\n" + TranslateNewlines(b)
  {
    var rest := "\r\n" + b;
    TranslatePrefix(a, rest);
    TranslateCrLfHead(b);
    assert a + "\r\n" + b == a + rest;
  }

  /** A text that starts with "\r\n" reads as "\n" and then its rest. */
  lemma TranslateCrLfHead(b: string)
    ensures TranslateNewlines("\r\n" + b) == "\n" + TranslateNewlines(b)
  {
    var s := "\r\n" + b;
    assert s[0] == '\r' && s[1] == '\n';
    assert s[2..] == b;
  }

  /** A lone "\r", one not followed by "\n", reads as "\n" and then its
      rest. */
  lemma TranslateLoneCrHead(b: string)
    requires |b| == 0 || b[0] != '\n'
    ensures TranslateNewlines("\r" + b) == "\n" + TranslateNewlines(b)
  {
    var s := "\r" + b;
    assert s[0] == '\r' && s[1..] == b;
    assert !(|s| > 1 && s[1] == '\n');
  }

  /** A lone "\r" after a stretch without carriage returns reads back as
      "\n", and the rest is read on from there. */
  lemma TranslateLoneCr(a: string, b: string)
    requires forall k :: 0 <= k < |a| ==> a[k] != '\r'
    requires |b| == 0 || b[0] != '\n'
    ensures TranslateNewlines(a + "\r" + b) == a + "\n" + TranslateNewlines(b)
  {
    TranslatePrefix(a, "\r" + b);
    TranslateLoneCrHead(b);
    assert a + "\r" + b == a + ("\r" + b);
  }

  /** A character other than "\r" is read as it is. */
  lemma TranslateStep(c: char, t: string)
    requires c != '\r'
    ensures TranslateNewlines([c] + t) == [c] + TranslateNewlines(t)
  {
    assert ([c] + t)[1..] == t;
  }
}
