/** The ranked views of vkAnalyze.py: `sort_dictionary` (vkAnalyze.py:118-121) and
    `Counter.most_common(n)` (used at vkAnalyze.py:136). A dictionary's items are
    given as the sequence `d.items()` yields, in insertion order; the OrderedDict
    the source builds from sorted items is that sorted sequence. */
module Ranking {

  type Item = (string, int)

  // ---------------------------------------------------------------------------
  // Python's ordering of strings and of (key, count) tuples

  /** `a < b` on Python strings: lexicographic by code point, a proper prefix first. */
  predicate Below(a: string, b: string)
  {
    if |a| == 0 then |b| > 0
    else if |b| == 0 then false
    else if a[0] != b[0] then a[0] < b[0]
    else Below(a[1..], b[1..])
  }

  lemma {:induction false} BelowIrreflexive(a: string)
    ensures !Below(a, a)
    decreases |a|
  {
    if |a| > 0 {
      BelowIrreflexive(a[1..]);
    }
  }

  lemma {:induction false} BelowAsymmetric(a: string, b: string)
    requires Below(a, b)
    ensures !Below(b, a)
    decreases |a|
  {
    if |a| > 0 && |b| > 0 && a[0] == b[0] {
      BelowAsymmetric(a[1..], b[1..]);
    }
  }

  lemma {:induction false} BelowTransitive(a: string, b: string, c: string)
    requires Below(a, b) && Below(b, c)
    ensures Below(a, c)
    decreases |a|
  {
    if |a| > 0 && a[0] == b[0] && b[0] == c[0] {
      BelowTransitive(a[1..], b[1..], c[1..]);
    }
  }

  /** Two different strings are ordered one way or the other. */
  lemma {:induction false} BelowTotal(a: string, b: string)
    requires a != b
    ensures Below(a, b) || Below(b, a)
    decreases |a|
  {
    if |a| > 0 && |b| > 0 && a[0] == b[0] {
      assert a == [a[0]] + a[1..] && b == [b[0]] + b[1..];
      BelowTotal(a[1..], b[1..]);
    }
  }

  /** `x <= y` on Python tuples `(key, count)`: by key, then by count. */
  predicate ItemLe(x: Item, y: Item)
  {
    Below(x.0, y.0) || (x.0 == y.0 && x.1 <= y.1)
  }

  lemma ItemLeTotal(x: Item, y: Item)
    ensures ItemLe(x, y) || ItemLe(y, x)
  {
    if x.0 != y.0 {
      BelowTotal(x.0, y.0);
    }
  }

  lemma ItemLeTransitive(x: Item, y: Item, z: Item)
    requires ItemLe(x, y) && ItemLe(y, z)
    ensures ItemLe(x, z)
  {
    if Below(x.0, y.0) && Below(y.0, z.0) {
      BelowTransitive(x.0, y.0, z.0);
    }
  }

  // ---------------------------------------------------------------------------
  // sort_dictionary(d, 'key'): sorted(d.items())

  /** Each item is at most its successor. */
  predicate AscendingByItem(s: seq<Item>)
  {
    forall i :: 0 <= i < |s| - 1 ==> ItemLe(s[i], s[i + 1])
  }

  /** Places `x` before the first item it does not exceed. */
  function InsertByItem(x: Item, s: seq<Item>): seq<Item>
  {
    if s == [] || ItemLe(x, s[0]) then [x] + s
    else [s[0]] + InsertByItem(x, s[1..])
  }

  /** Inserting into an ascending list keeps it ascending; the new first item is
      `x` or the old first item. */
  lemma {:induction false} InsertByItemSorted(x: Item, s: seq<Item>)
    requires AscendingByItem(s)
    ensures AscendingByItem(InsertByItem(x, s))
    ensures InsertByItem(x, s)[0] == x || (s != [] && InsertByItem(x, s)[0] == s[0])
    decreases |s|
  {
    if s != [] && !ItemLe(x, s[0]) {
      var rest := InsertByItem(x, s[1..]);
      ItemLeTotal(x, s[0]);
      InsertByItemSorted(x, s[1..]);
      assert InsertByItem(x, s) == [s[0]] + rest;
      assert ItemLe(s[0], rest[0]);
    }
  }

  /** Inserting adds exactly `x` to the items. */
  lemma {:induction false} InsertByItemPermutes(x: Item, s: seq<Item>)
    ensures multiset(InsertByItem(x, s)) == multiset(s) + multiset{x}
    decreases |s|
  {
    if s != [] && !ItemLe(x, s[0]) {
      var head, tail := s[0], s[1..];
      InsertByItemPermutes(x, tail);
      assert s == [head] + tail;
      assert multiset(s) == multiset{head} + multiset(tail);
      assert multiset([head] + InsertByItem(x, tail)) == multiset{head} + multiset(InsertByItem(x, tail));
    }
  }

  /** The items in ascending tuple order. */
  function SortByKey(items: seq<Item>): (r: seq<Item>)
    ensures AscendingByItem(r)
    ensures multiset(r) == multiset(items)
  {
    if items == [] then []
    else
      assert items == [items[0]] + items[1..];
      InsertByItemSorted(items[0], SortByKey(items[1..]));
      InsertByItemPermutes(items[0], SortByKey(items[1..]));
      InsertByItem(items[0], SortByKey(items[1..]))
  }

  /** No key is listed twice, as in the items of any dict. */
  predicate DistinctKeys(s: seq<Item>)
  {
    forall i, j :: 0 <= i < j < |s| ==> s[i].0 != s[j].0
  }

  /** The keys of `s`. */
  function KeySet(s: seq<Item>): set<string>
  {
    set i | 0 <= i < |s| :: s[i].0
  }

  /** The keys of a non-empty list: its first key and the keys of the rest; with
      distinct keys, the first is not among the rest and the rest stay distinct. */
  lemma KeySetCons(s: seq<Item>)
    requires s != []
    ensures KeySet(s) == {s[0].0} + KeySet(s[1..])
    ensures DistinctKeys(s) ==> s[0].0 !in KeySet(s[1..]) && DistinctKeys(s[1..])
  {
    var t := s[1..];
    forall k | k in KeySet(s) ensures k in {s[0].0} + KeySet(t) {
      var i :| 0 <= i < |s| && s[i].0 == k;
      if i > 0 {
        assert t[i - 1] == s[i];
      }
    }
    forall k | k in KeySet(t) ensures k in KeySet(s) {
      var i :| 0 <= i < |t| && t[i].0 == k;
      assert s[i + 1] == t[i];
    }
    if DistinctKeys(s) {
      forall i | 0 <= i < |t| ensures t[i].0 != s[0].0 {
        assert t[i] == s[i + 1];
      }
    }
  }

  /** The keys of `[y] + t`: `y`'s key and those of `t`; they are distinct
      exactly when `t`'s are and `y`'s key is not among them. */
  lemma KeySetPrepend(y: Item, t: seq<Item>)
    ensures KeySet([y] + t) == {y.0} + KeySet(t)
    ensures DistinctKeys([y] + t) <==> y.0 !in KeySet(t) && DistinctKeys(t)
  {
    var r := [y] + t;
    assert r[1..] == t;
    KeySetCons(r);
    if y.0 !in KeySet(t) && DistinctKeys(t) {
      forall i, j | 0 <= i < j < |r|
        ensures r[i].0 != r[j].0
      {
        if i == 0 {
          assert r[j] == t[j - 1];
          assert t[j - 1].0 in KeySet(t);
        } else {
          assert r[i] == t[i - 1] && r[j] == t[j - 1];
        }
      }
    }
  }

  /** Inserting an item with a new key adds the key and keeps the keys distinct. */
  lemma {:induction false} InsertByItemKeys(x: Item, s: seq<Item>)
    requires DistinctKeys(s) && x.0 !in KeySet(s)
    ensures KeySet(InsertByItem(x, s)) == KeySet(s) + {x.0}
    ensures DistinctKeys(InsertByItem(x, s))
    decreases |s|
  {
    if s == [] || ItemLe(x, s[0]) {
      KeySetPrepend(x, s);
    } else {
      var head, tail := s[0], s[1..];
      KeySetCons(s);
      InsertByItemKeys(x, tail);
      KeySetPrepend(head, InsertByItem(x, tail));
    }
  }

  /** Sorting the items of a dict keeps their keys, each listed once. */
  lemma {:induction false} SortByKeyKeys(items: seq<Item>)
    requires DistinctKeys(items)
    ensures KeySet(SortByKey(items)) == KeySet(items)
    ensures DistinctKeys(SortByKey(items))
    decreases |items|
  {
    if items != [] {
      var t := items[1..];
      KeySetCons(items);
      SortByKeyKeys(t);
      InsertByItemKeys(items[0], SortByKey(t));
    }
  }

  /** Adjacent order extends to all pairs. */
  lemma {:induction false} AscendingAllPairs(s: seq<Item>, i: int, j: int)
    requires AscendingByItem(s) && 0 <= i < j < |s|
    ensures ItemLe(s[i], s[j])
    decreases j - i
  {
    if j > i + 1 {
      AscendingAllPairs(s, i + 1, j);
      ItemLeTransitive(s[i], s[i + 1], s[j]);
    }
  }

  /** Sorting a dict's items by key lists the keys strictly ascending. */
  lemma SortByKeyStrictlyAscending(items: seq<Item>)
    requires DistinctKeys(items)
    ensures forall i, j :: 0 <= i < j < |SortByKey(items)| ==> Below(SortByKey(items)[i].0, SortByKey(items)[j].0)
  {
    var r := SortByKey(items);
    SortByKeyKeys(items);
    forall i, j | 0 <= i < j < |r|
      ensures Below(r[i].0, r[j].0)
    {
      AscendingAllPairs(r, i, j);
    }
  }

  // ---------------------------------------------------------------------------
  // sort_dictionary(d): sorted(d.items(), key=lambda x: x[1], reverse=True)

  /** Each count is at least its successor's. */
  predicate NonIncreasing(s: seq<Item>)
  {
    forall i :: 0 <= i < |s| - 1 ==> s[i].1 >= s[i + 1].1
  }

  /** Places `x` before the first item whose count does not exceed its own, so
      that among equal counts `x`, which came first in the input, stays first. */
  function InsertByCount(x: Item, s: seq<Item>): seq<Item>
  {
    if s == [] || s[0].1 <= x.1 then [x] + s
    else [s[0]] + InsertByCount(x, s[1..])
  }

  /** Inserting into a list ordered by count keeps it ordered; the new first item
      is `x` or the old first item. */
  lemma {:induction false} InsertByCountSorted(x: Item, s: seq<Item>)
    requires NonIncreasing(s)
    ensures NonIncreasing(InsertByCount(x, s))
    ensures InsertByCount(x, s)[0] == x || (s != [] && InsertByCount(x, s)[0] == s[0])
    decreases |s|
  {
    if s != [] && s[0].1 > x.1 {
      var rest := InsertByCount(x, s[1..]);
      InsertByCountSorted(x, s[1..]);
      assert InsertByCount(x, s) == [s[0]] + rest;
      assert s[0].1 >= rest[0].1;
    }
  }

  /** Inserting adds exactly `x` to the items. */
  lemma {:induction false} InsertByCountPermutes(x: Item, s: seq<Item>)
    ensures multiset(InsertByCount(x, s)) == multiset(s) + multiset{x}
    decreases |s|
  {
    if s != [] && s[0].1 > x.1 {
      var head, tail := s[0], s[1..];
      InsertByCountPermutes(x, tail);
      assert s == [head] + tail;
      assert multiset(s) == multiset{head} + multiset(tail);
      assert multiset([head] + InsertByCount(x, tail)) == multiset{head} + multiset(InsertByCount(x, tail));
    }
  }

  /** The items by count, highest first, equal counts in their input order. */
  function SortByCount(items: seq<Item>): (r: seq<Item>)
    ensures NonIncreasing(r)
    ensures multiset(r) == multiset(items)
  {
    if items == [] then []
    else
      assert items == [items[0]] + items[1..];
      InsertByCountSorted(items[0], SortByCount(items[1..]));
      InsertByCountPermutes(items[0], SortByCount(items[1..]));
      InsertByCount(items[0], SortByCount(items[1..]))
  }

  /** The items of `s` whose count is `v`, in order. */
  function WithCount(s: seq<Item>, v: int): seq<Item>
  {
    if s == [] then [] else (if s[0].1 == v then [s[0]] else []) + WithCount(s[1..], v)
  }

  /** The first item is kept exactly when it has the count. */
  lemma WithCountCons(y: Item, t: seq<Item>, v: int)
    ensures WithCount([y] + t, v) == (if y.1 == v then [y] else []) + WithCount(t, v)
  {
    assert ([y] + t)[1..] == t;
  }

  /** Inserting by count keeps the items of each count in the order of `[x] + s`. */
  lemma {:induction false} InsertByCountStable(x: Item, s: seq<Item>, v: int)
    ensures WithCount(InsertByCount(x, s), v) == WithCount([x] + s, v)
    decreases |s|
  {
    if s != [] && s[0].1 > x.1 {
      var head, tail := s[0], s[1..];
      var rest := InsertByCount(x, tail);
      InsertByCountStable(x, tail, v);
      WithCountCons(head, rest, v);
      WithCountCons(x, tail, v);
      WithCountCons(x, s, v);
      // `head` and `x` have different counts, so at most one of them is kept.
      if x.1 == v {
        assert WithCount(s, v) == WithCount(tail, v);
        assert WithCount([head] + rest, v) == WithCount(rest, v);
      } else {
        assert WithCount([x] + s, v) == WithCount(s, v);
        assert WithCount(rest, v) == WithCount(tail, v);
      }
    }
  }

  /** The sort is stable: the items of each count come out in their input order. */
  lemma {:induction false} SortByCountStable(items: seq<Item>, v: int)
    ensures WithCount(SortByCount(items), v) == WithCount(items, v)
    decreases |items|
  {
    if items != [] {
      SortByCountStable(items[1..], v);
      InsertByCountStable(items[0], SortByCount(items[1..]), v);
      WithCountCons(items[0], SortByCount(items[1..]), v);
    }
  }

  /** Adjacent order extends to all pairs. */
  lemma {:induction false} NonIncreasingAllPairs(s: seq<Item>, i: int, j: int)
    requires NonIncreasing(s) && 0 <= i < j < |s|
    ensures s[i].1 >= s[j].1
    decreases j - i
  {
    if j > i + 1 {
      NonIncreasingAllPairs(s, i + 1, j);
    }
  }

  /** `sort_dictionary(d, sort_by)`: by key when `sort_by` is `'key'`, by count
      (the default `'value'`, or any other string) otherwise. */
  function SortDictionary(items: seq<Item>, sortBy: string): (r: seq<Item>)
    ensures multiset(r) == multiset(items)
    ensures sortBy == "key" ==> AscendingByItem(r)
    ensures sortBy != "key" ==> NonIncreasing(r) && forall v :: WithCount(r, v) == WithCount(items, v)
  {
    if sortBy == "key" then SortByKey(items)
    else
      var r := SortByCount(items);
      assert forall v :: WithCount(r, v) == WithCount(items, v) by {
        forall v ensures WithCount(r, v) == WithCount(items, v) {
          SortByCountStable(items, v);
        }
      }
      r
  }

  // ---------------------------------------------------------------------------
  // Counter.most_common(n)

  /** `most_common(n)`: the first `n` items of the stable sort by count, highest first. */
  function MostCommon(items: seq<Item>, n: nat): (r: seq<Item>)
    ensures |r| == if n < |items| then n else |items|
    ensures r <= SortByCount(items)
    ensures multiset(r) <= multiset(items)
  {
    var sorted := SortByCount(items);
    var m := if n < |sorted| then n else |sorted|;
    assert sorted == sorted[..m] + sorted[m..];
    assert multiset(sorted) == multiset(sorted[..m]) + multiset(sorted[m..]);
    sorted[..m]
  }

  /** In a sequence sorted by count, every item of a prefix has at least the
      count of every item after it. */
  lemma PrefixDominates(sorted: seq<Item>, m: nat)
    requires NonIncreasing(sorted) && m <= |sorted|
    ensures forall x, y :: x in sorted[..m] && y in sorted[m..] ==> x.1 >= y.1
  {
    forall x, y | x in sorted[..m] && y in sorted[m..]
      ensures x.1 >= y.1
    {
      var i :| 0 <= i < m && sorted[..m][i] == x;
      var j :| 0 <= j < |sorted| - m && sorted[m..][j] == y;
      NonIncreasingAllPairs(sorted, i, m + j);
    }
  }

  /** Taking a prefix away from a sequence leaves the multiset of the rest. */
  lemma PrefixRemoved(s: seq<Item>, m: nat)
    requires m <= |s|
    ensures multiset(s) - multiset(s[..m]) == multiset(s[m..])
  {
    assert s == s[..m] + s[m..];
  }

  /** A prefix of a sequence sorted by count is sorted by count. */
  lemma PrefixNonIncreasing(s: seq<Item>, m: nat)
    requires NonIncreasing(s) && m <= |s|
    ensures NonIncreasing(s[..m])
  {
    assert forall i :: 0 <= i < m ==> s[..m][i] == s[i];
  }

  /** No item left out of `most_common(n)` has a higher count than one kept. */
  lemma MostCommonIsTop(items: seq<Item>, n: nat)
    ensures NonIncreasing(MostCommon(items, n))
    ensures forall x, y :: x in MostCommon(items, n) && y in multiset(items) - multiset(MostCommon(items, n)) ==> x.1 >= y.1
  {
    var sorted := SortByCount(items);
    var r := MostCommon(items, n);
    assert r == sorted[..|r|];
    PrefixNonIncreasing(sorted, |r|);
    PrefixRemoved(sorted, |r|);
    PrefixDominates(sorted, |r|);
  }
}
