/** The string operations of vkAnalyze.py that Python provides as built-ins:
    `str.split(' ')`, `' '.join`, `str.lower()` and the substring test `w in text`. */
module Text {

  /** `' '.join(parts)`. */
  function Join(parts: seq<string>): string
  {
    if |parts| == 0 then ""
    else if |parts| == 1 then parts[0]
    else parts[0] + " " + Join(parts[1..])
  }

  /** Index of the first occurrence of `c` in `s`. */
  function FirstIndex(s: string, c: char): (i: nat)
    requires c in s
    ensures i < |s| && s[i] == c && c !in s[..i]
  {
    if s[0] == c then 0
    else
      assert s == [s[0]] + s[1..];
      var j := FirstIndex(s[1..], c);
      assert s[..j + 1] == [s[0]] + s[1..][..j];
      j + 1
  }

  /** `s.split(' ')`: cut at every single space. Consecutive spaces, or a space
      at either end, give empty fragments; the empty string gives `[""]`. */
  function Split(s: string): (parts: seq<string>)
    ensures |parts| >= 1
    ensures forall i :: 0 <= i < |parts| ==> ' ' !in parts[i]
    ensures Join(parts) == s
    decreases |s|
  {
    if ' ' !in s then [s]
    else
      var i := FirstIndex(s, ' ');
      var rest := Split(s[i + 1..]);
      var parts := [s[..i]] + rest;
      assert parts[1..] == rest;
      assert s == s[..i] + " " + s[i + 1..];
      parts
  }

  /** Splitting is the inverse of joining: fragments without spaces come back unchanged. */
  lemma {:induction false} SplitJoin(parts: seq<string>)
    requires |parts| >= 1
    requires forall i :: 0 <= i < |parts| ==> ' ' !in parts[i]
    ensures Split(Join(parts)) == parts
    decreases |parts|
  {
    if |parts| == 1 {
    } else {
      var s := Join(parts);
      var tail := Join(parts[1..]);
      assert s == parts[0] + " " + tail;
      assert ' ' in s by { assert s[|parts[0]|] == ' '; }
      var i := FirstIndex(s, ' ');
      assert s[..|parts[0]|] == parts[0];
      assert i == |parts[0]|;
      assert s[..i] == parts[0];
      assert s[i + 1..] == tail;
      SplitJoin(parts[1..]);
    }
  }

  /** Number of occurrences of `c` in `s`. */
  function Occurrences(s: string, c: char): nat
  {
    if s == [] then 0 else (if s[0] == c then 1 else 0) + Occurrences(s[1..], c)
  }

  lemma {:induction false} OccurrencesAppend(a: string, b: string, c: char)
    ensures Occurrences(a + b, c) == Occurrences(a, c) + Occurrences(b, c)
    decreases |a|
  {
    if a == [] {
      assert a + b == b;
    } else {
      assert (a + b)[1..] == a[1..] + b;
      OccurrencesAppend(a[1..], b, c);
    }
  }

  lemma {:induction false} OccurrencesAbsent(s: string, c: char)
    requires c !in s
    ensures Occurrences(s, c) == 0
    decreases |s|
  {
    if s != [] {
      OccurrencesAbsent(s[1..], c);
    }
  }

  /** A message with k spaces splits into exactly k + 1 fragments. */
  lemma {:induction false} SplitLength(s: string)
    ensures |Split(s)| == Occurrences(s, ' ') + 1
    decreases |s|
  {
    if ' ' !in s {
      OccurrencesAbsent(s, ' ');
    } else {
      var i := FirstIndex(s, ' ');
      assert s == s[..i] + ([' '] + s[i + 1..]);
      OccurrencesAppend(s[..i], [' '] + s[i + 1..], ' ');
      OccurrencesAppend([' '], s[i + 1..], ' ');
      OccurrencesAbsent(s[..i], ' ');
      SplitLength(s[i + 1..]);
    }
  }

  /** The characters `str.lower()` changes in this model: ASCII A-Z and the
      Cyrillic capitals U+0400..U+042F. */
  predicate IsUpper(c: char)
  {
    ('A' <= c <= 'Z') || ('\U{0400}' <= c <= '\U{042F}')
  }

  /** `str.lower()` on one character: A-Z and А-Я move up by 0x20, Ѐ-Џ (U+0400..U+040F,
      among them Ё) move up by 0x50 to U+0450..U+045F; everything else is kept. */
  function LowerChar(c: char): (d: char)
    ensures !IsUpper(d)
    ensures IsUpper(c) <==> d != c
  {
    if 'A' <= c <= 'Z' || '\U{0410}' <= c <= '\U{042F}' then (c as int + 0x20) as char
    else if '\U{0400}' <= c <= '\U{040F}' then (c as int + 0x50) as char
    else c
  }

  /** `s.lower()`. */
  function Lower(s: string): (r: string)
    ensures |r| == |s|
    ensures forall i :: 0 <= i < |s| ==> r[i] == LowerChar(s[i])
  {
    seq(|s|, i requires 0 <= i < |s| => LowerChar(s[i]))
  }

  /** Every character of `s` is already lower case. */
  predicate IsLowerCase(s: string)
  {
    forall i :: 0 <= i < |s| ==> !IsUpper(s[i])
  }

  /** Lowering is idempotent, and the lowered string has no upper-case character left. */
  lemma LowerIsLowerCase(s: string)
    ensures IsLowerCase(Lower(s))
    ensures Lower(Lower(s)) == Lower(s)
  {
  }

  /** A string with no upper-case character is its own lower-case form. */
  lemma LowerOfLowerCase(s: string)
    requires IsLowerCase(s)
    ensures Lower(s) == s
  {
  }

  /** `w` occurs in `text` starting at position `i`. */
  ghost predicate OccursAt(w: string, text: string, i: int)
  {
    0 <= i <= |text| - |w| && text[i..i + |w|] == w
  }

  /** `w` occurs in `text` at some position. */
  ghost predicate OccursIn(w: string, text: string)
  {
    exists i :: OccursAt(w, text, i)
  }

  /** Python's `w in text` for two strings: a prefix test at each position of `text`. */
  function Contains(text: string, w: string): bool
    decreases |text|
  {
    w <= text || (|text| > 0 && Contains(text[1..], w))
  }

  /** `Contains` is exactly substring occurrence, in both directions. */
  lemma {:induction false} ContainsIffOccurs(text: string, w: string)
    ensures Contains(text, w) <==> OccursIn(w, text)
    decreases |text|
  {
    if |text| == 0 {
      if w == [] {
        assert OccursAt(w, text, 0);
      } else {
        assert forall i :: !OccursAt(w, text, i);
      }
    } else if w <= text {
      assert OccursAt(w, text, 0);
    } else {
      ContainsIffOccurs(text[1..], w);
      if OccursIn(w, text) {
        var i :| OccursAt(w, text, i);
        OccursShift(w, text, i - 1);
      }
      if OccursIn(w, text[1..]) {
        var i :| OccursAt(w, text[1..], i);
        OccursShift(w, text, i);
      }
    }
  }

  /** Occurrences in `text[1..]` are the occurrences in `text` past position 0,
      one position earlier; an occurrence at 0 is a prefix. */
  lemma OccursShift(w: string, text: string, i: int)
    requires |text| > 0
    ensures OccursAt(w, text[1..], i) <==> 0 <= i && OccursAt(w, text, i + 1)
    ensures OccursAt(w, text, 0) ==> w <= text
  {
    if 0 <= i <= |text| - 1 - |w| {
      assert text[1..][i..i + |w|] == text[i + 1..i + 1 + |w|];
    }
  }

  /** The empty string is contained in every string, the empty one included. */
  lemma EmptyIsContained(text: string)
    ensures Contains(text, "")
  {
  }
}
