/** The two regular expressions of vkAnalyze.py, each as an explicit search:
    `clean_word = [а-яА-Яa-zA-z0-9]+` (vkAnalyze.py:42) and
    `file_split = (.*)(.[a-zA-Z0-9]{3,4})` (vkAnalyze.py:10), both used with `re.search`. */
module Patterns {
  import opened Wrappers

  /** The part of the subject a match covers, as `match.span()`: `start` included, `end` excluded. */
  datatype Span = Span(start: nat, end: nat)

  // ---------------------------------------------------------------------------
  // clean_word

  /** The character class `[а-яА-Яa-zA-z0-9]`, range by range as written. The
      range `A-z` runs from 0x41 to 0x7A, so it also takes `[ \ ] ^ _` and the
      backtick; `а-я` and `А-Я` together are U+0410..U+044F, which leaves out ё. */
  predicate IsWordChar(c: char)
  {
    ('\U{0430}' <= c <= '\U{044F}') || ('\U{0410}' <= c <= '\U{042F}')
    || ('a' <= c <= 'z') || ('A' <= c <= 'z') || ('0' <= c <= '9')
  }

  /** The class is three contiguous ranges. */
  lemma WordCharRanges(c: char)
    ensures IsWordChar(c) <==> ('0' <= c <= '9') || ('A' <= c <= 'z') || ('\U{0410}' <= c <= '\U{044F}')
  {
  }

  /** `[a-zA-Z0-9]` of file_split. */
  predicate IsAsciiAlnum(c: char)
  {
    ('a' <= c <= 'z') || ('A' <= c <= 'Z') || ('0' <= c <= '9')
  }

  /** `span` is what `re.search('[...]+', w)` reports: its start is the leftmost
      class character and the greedy `+` runs to the end of that run. */
  predicate IsLeftmostRun(w: string, span: Span)
  {
    && span.start < span.end <= |w|
    && (forall k :: 0 <= k < span.start ==> !IsWordChar(w[k]))
    && (forall k :: span.start <= k < span.end ==> IsWordChar(w[k]))
    && (span.end == |w| || !IsWordChar(w[span.end]))
  }

  /** The first index at or after `from` holding a class character, or `|w|`. */
  function SkipNonWord(w: string, from: nat): (i: nat)
    requires from <= |w|
    ensures from <= i <= |w|
    ensures forall k :: from <= k < i ==> !IsWordChar(w[k])
    ensures i < |w| ==> IsWordChar(w[i])
    decreases |w| - from
  {
    if from == |w| || IsWordChar(w[from]) then from else SkipNonWord(w, from + 1)
  }

  /** The first index at or after `from` not holding a class character, or `|w|`. */
  function SkipWord(w: string, from: nat): (i: nat)
    requires from <= |w|
    ensures from <= i <= |w|
    ensures forall k :: from <= k < i ==> IsWordChar(w[k])
    ensures i < |w| ==> !IsWordChar(w[i])
    decreases |w| - from
  {
    if from == |w| || !IsWordChar(w[from]) then from else SkipWord(w, from + 1)
  }

  /** `clean_word.search(w)`: the leftmost maximal run of class characters, or
      `None` when `w` holds no class character at all. */
  function SearchWordRun(w: string): (m: Option<Span>)
    ensures m.None? <==> forall k :: 0 <= k < |w| ==> !IsWordChar(w[k])
    ensures m.Some? ==> IsLeftmostRun(w, m.value)
  {
    var start := SkipNonWord(w, 0);
    if start == |w| then None else Some(Span(start, SkipWord(w, start + 1)))
  }

  /** The leftmost run is unique: the contract of `SearchWordRun` pins its answer down. */
  lemma {:induction false} LeftmostRunUnique(w: string, a: Span, b: Span)
    requires IsLeftmostRun(w, a) && IsLeftmostRun(w, b)
    ensures a == b
  {
    assert IsWordChar(w[a.start]) && IsWordChar(w[b.start]);
    assert a.end < |w| ==> !IsWordChar(w[a.end]);
    assert b.end < |w| ==> !IsWordChar(w[b.end]);
  }

  // ---------------------------------------------------------------------------
  // file_split

  /** The second group `.[a-zA-Z0-9]{3,4}` can match at `p`: one character other
      than a newline (`.` without DOTALL), then at least three ASCII alphanumerics. */
  predicate ExtensionAt(s: string, p: int)
  {
    0 <= p && p + 4 <= |s| && s[p] != '\n'
    && IsAsciiAlnum(s[p + 1]) && IsAsciiAlnum(s[p + 2]) && IsAsciiAlnum(s[p + 3])
  }

  /** No newline in `s[i..j]`, so `.*` can cover it. */
  predicate NoNewline(s: string, i: int, j: int)
    requires 0 <= i && j <= |s|
  {
    forall k :: i <= k < j ==> s[k] != '\n'
  }

  /** Starting at `st`, group 1 `(.*)` can take `s[st..p]` and group 2 can follow it. */
  predicate MatchesFrom(s: string, st: int, p: int)
  {
    0 <= st <= p && p + 4 <= |s| && NoNewline(s, st, p) && ExtensionAt(s, p)
  }

  /** `span` is group 1 of `file_split.search(s)`: the leftmost start at which the
      pattern matches, and from there the longest `(.*)` that still leaves room for group 2. */
  ghost predicate IsFileSplitMatch(s: string, span: Span)
  {
    && MatchesFrom(s, span.start, span.end)
    && (forall st, p :: 0 <= st < span.start ==> !MatchesFrom(s, st, p))
    && (forall p :: span.end < p ==> !MatchesFrom(s, span.start, p))
  }

  /** The first `p >= from` at which group 2 can match. */
  function FirstExtension(s: string, from: nat): (p: Option<nat>)
    ensures p.None? ==> forall q :: from <= q ==> !ExtensionAt(s, q)
    ensures p.Some? ==> from <= p.value && ExtensionAt(s, p.value)
    ensures p.Some? ==> forall q :: from <= q < p.value ==> !ExtensionAt(s, q)
    decreases |s| - from
  {
    if from + 4 > |s| then None
    else if ExtensionAt(s, from) then Some(from)
    else FirstExtension(s, from + 1)
  }

  /** The start of the line holding index `p`. */
  function LineStart(s: string, p: nat): (l: nat)
    requires p <= |s|
    ensures l <= p && NoNewline(s, l, p)
    ensures l == 0 || s[l - 1] == '\n'
  {
    if p == 0 || s[p - 1] == '\n' then p else LineStart(s, p - 1)
  }

  /** The index of the first newline at or after `p`, or `|s|`. */
  function LineEnd(s: string, p: nat): (e: nat)
    requires p <= |s|
    ensures p <= e <= |s| && NoNewline(s, p, e)
    ensures e == |s| || s[e] == '\n'
    decreases |s| - p
  {
    if p == |s| || s[p] == '\n' then p else LineEnd(s, p + 1)
  }

  /** The last `q` in `[lo, hi)` at which group 2 can match; `lo` is one. */
  function LastExtension(s: string, lo: nat, hi: nat): (q: nat)
    requires lo < hi && ExtensionAt(s, lo)
    ensures lo <= q < hi && ExtensionAt(s, q)
    ensures forall r :: q < r < hi ==> !ExtensionAt(s, r)
    decreases hi
  {
    if ExtensionAt(s, hi - 1) then hi - 1 else LastExtension(s, lo, hi - 1)
  }

  /** `file_split.search(s)`, reduced to the span of group 1; `None` when the
      search fails, which is exactly when group 2 can match nowhere. */
  function FileSplitSearch(s: string): (m: Option<Span>)
    ensures m.None? <==> forall p :: !ExtensionAt(s, p)
    ensures m.Some? ==> IsFileSplitMatch(s, m.value)
  {
    match FirstExtension(s, 0)
    case None => None
    case Some(first) =>
      var start := LineStart(s, first);
      var lineEnd := LineEnd(s, first);
      var end := LastExtension(s, first, lineEnd);
      FileSplitFound(s, first, start, lineEnd, end);
      Some(Span(start, end))
  }

  /** The span `FileSplitSearch` builds from the first extension position is the match. */
  lemma FileSplitFound(s: string, first: nat, start: nat, lineEnd: nat, end: nat)
    requires ExtensionAt(s, first) && forall q :: 0 <= q < first ==> !ExtensionAt(s, q)
    requires start <= first && NoNewline(s, start, first) && (start == 0 || s[start - 1] == '\n')
    requires first <= lineEnd <= |s| && NoNewline(s, first, lineEnd) && (lineEnd == |s| || s[lineEnd] == '\n')
    requires first <= end < lineEnd && ExtensionAt(s, end)
    requires forall r :: end < r < lineEnd ==> !ExtensionAt(s, r)
    ensures IsFileSplitMatch(s, Span(start, end))
  {
    assert MatchesFrom(s, start, end);
    forall st, p | 0 <= st < start
      ensures !MatchesFrom(s, st, p)
    {
      assert start <= p <= |s| ==> !NoNewline(s, st, p);
    }
    forall p | end < p
      ensures !MatchesFrom(s, start, p)
    {
      assert lineEnd < p <= |s| ==> !NoNewline(s, start, p);
    }
  }

  /** On a one-line name the search always starts at 0, so group 1 is the longest
      prefix `s[..e]` followed by one character and three ASCII alphanumerics. */
  lemma FileSplitOneLine(s: string)
    requires forall k :: 0 <= k < |s| ==> s[k] != '\n'
    ensures FileSplitSearch(s).Some? <==> exists p :: ExtensionAt(s, p)
    ensures FileSplitSearch(s).Some? ==>
      var span := FileSplitSearch(s).value;
      span.start == 0 && ExtensionAt(s, span.end) && forall p :: span.end < p ==> !ExtensionAt(s, p)
  {
    var m := FileSplitSearch(s);
    if m.Some? {
      var span := m.value;
      assert span.start > 0 ==> !MatchesFrom(s, 0, span.end);
      forall p | span.end < p
        ensures !ExtensionAt(s, p)
      {
        if ExtensionAt(s, p) {
          assert MatchesFrom(s, span.start, p);
        }
      }
    }
  }
}
