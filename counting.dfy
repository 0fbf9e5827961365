/** The frequency dictionaries of vkAnalyze.py: a Python dict from words to
    counts, which remembers the order in which its keys were first inserted, with
    `add_to_dictionary` (vkAnalyze.py:17-22) and `collections.Counter.update`
    (used at vkAnalyze.py:54). Both bump one key at a time: an existing key gains
    one and keeps its place, a new key enters at the end with count 1. */
module Counting {

  /** Each key listed once, and the listed keys are exactly the keys of `counts`. */
  ghost predicate WellFormed(keys: seq<string>, counts: map<string, int>)
  {
    && (forall i, j :: 0 <= i < j < |keys| ==> keys[i] != keys[j])
    && (forall k :: k in counts <==> k in keys)
  }

  /** The counts after `d[k] += 1` (or `d[k] = 1` for a new key). */
  function Bump(counts: map<string, int>, k: string): map<string, int>
  {
    counts[k := if k in counts then counts[k] + 1 else 1]
  }

  /** The key order after a bump of `k`: a new key goes to the end. */
  function Enlist(keys: seq<string>, k: string): seq<string>
  {
    if k in keys then keys else keys + [k]
  }

  /** The counts after bumping each word of `words`, in order. */
  function Tally(counts: map<string, int>, words: seq<string>): map<string, int>
  {
    if words == [] then counts
    else Bump(Tally(counts, words[..|words| - 1]), words[|words| - 1])
  }

  /** The key order after bumping each word of `words`, in order. */
  function InsertionOrder(keys: seq<string>, words: seq<string>): seq<string>
  {
    if words == [] then keys
    else Enlist(InsertionOrder(keys, words[..|words| - 1]), words[|words| - 1])
  }

  /** `d.items()`: the pairs in key order. */
  function ItemsOf(keys: seq<string>, counts: map<string, int>): (items: seq<(string, int)>)
    requires forall i :: 0 <= i < |keys| ==> keys[i] in counts
    ensures |items| == |keys|
    ensures forall i :: 0 <= i < |keys| ==> items[i] == (keys[i], counts[keys[i]])
  {
    seq(|keys|, i requires 0 <= i < |keys| => (keys[i], counts[keys[i]]))
  }

  /** The sum of the counts of `items`. */
  function Total(items: seq<(string, int)>): int
  {
    if items == [] then 0 else Total(items[..|items| - 1]) + items[|items| - 1].1
  }

  /** A dict of counts, with its keys in insertion order. `collections.Counter`
      is this dict together with `Update`. */
  class Dictionary {
    var keys: seq<string>
    var counts: map<string, int>

    ghost predicate Valid()
      reads this
    {
      WellFormed(keys, counts)
    }

    /** `self.items()`. */
    function Items(): (items: seq<(string, int)>)
      reads this
      requires Valid()
      ensures items == ItemsOf(keys, counts)
    {
      ItemsOf(keys, counts)
    }

    /** `Counter()` / `{}`: the empty dictionary. */
    constructor ()
      ensures Valid() && keys == [] && counts == map[]
    {
      keys := [];
      counts := map[];
    }

    /** `Counter.update(words)`: one insert-or-increment per word, in order,
        the same step `add_to_dictionary` takes. */
    method Update(words: seq<string>)
      requires Valid()
      modifies this
      ensures Valid()
      ensures keys == InsertionOrder(old(keys), words)
      ensures counts == Tally(old(counts), words)
    {
      for i := 0 to |words|
        invariant Valid()
        invariant keys == InsertionOrder(old(keys), words[..i])
        invariant counts == Tally(old(counts), words[..i])
      {
        assert words[..i + 1][..i] == words[..i];
        var _ := AddToDictionary(this, words[i]);
      }
      assert words[..|words|] == words;
    }
  }

  /** `add_to_dictionary(dictionary, value)`: increments the count of `value`, or
      enters it with count 1 when absent; returns the same dictionary. */
  method AddToDictionary(dictionary: Dictionary, value: string) returns (same: Dictionary)
    requires dictionary.Valid()
    modifies dictionary
    ensures same == dictionary && dictionary.Valid()
    ensures value in dictionary.counts
    ensures dictionary.counts[value] == if value in old(dictionary.counts) then old(dictionary.counts[value]) + 1 else 1
    ensures forall k :: k != value ==> (k in dictionary.counts <==> k in old(dictionary.counts))
    ensures forall k :: k != value && k in dictionary.counts ==> dictionary.counts[k] == old(dictionary.counts[k])
    ensures dictionary.keys == if value in old(dictionary.counts) then old(dictionary.keys) else old(dictionary.keys) + [value]
    ensures dictionary.counts == Bump(old(dictionary.counts), value) && dictionary.keys == Enlist(old(dictionary.keys), value)
  {
    if value in dictionary.counts {
      dictionary.counts := dictionary.counts[value := dictionary.counts[value] + 1];
    } else {
      dictionary.counts := dictionary.counts[value := 1];
      dictionary.keys := dictionary.keys + [value];
    }
    same := dictionary;
  }

  // ---------------------------------------------------------------------------
  // What a sequence of bumps computes

  /** After the bumps, a word is counted once more per occurrence in `words`;
      keys that were absent and do not occur stay absent. */
  lemma {:induction false} TallyCounts(counts: map<string, int>, words: seq<string>, w: string)
    ensures w in Tally(counts, words) <==> w in counts || w in words
    ensures w in Tally(counts, words) ==>
      Tally(counts, words)[w] == (if w in counts then counts[w] else 0) + multiset(words)[w]
    decreases |words|
  {
    if words != [] {
      var init, last := words[..|words| - 1], words[|words| - 1];
      assert words == init + [last];
      TallyCounts(counts, init, w);
    }
  }

  /** From an empty Counter, the result is the multiset of the words: each word
      counted once per occurrence and nothing else present. */
  lemma TallyIsMultiset(words: seq<string>)
    ensures Tally(map[], words) == map w | w in multiset(words) :: multiset(words)[w]
  {
    forall w | true
      ensures w in Tally(map[], words) <==> w in multiset(words)
      ensures w in Tally(map[], words) ==> Tally(map[], words)[w] == multiset(words)[w]
    {
      TallyCounts(map[], words, w);
    }
  }

  /** The counts do not depend on the order of the words. */
  lemma TallyPermutation(words1: seq<string>, words2: seq<string>)
    requires multiset(words1) == multiset(words2)
    ensures Tally(map[], words1) == Tally(map[], words2)
  {
    TallyIsMultiset(words1);
    TallyIsMultiset(words2);
  }

  /** Bumping through `a` and then through `b` is bumping through `a + b`. */
  lemma {:induction false} TallyAppend(counts: map<string, int>, keys: seq<string>, a: seq<string>, b: seq<string>)
    ensures Tally(Tally(counts, a), b) == Tally(counts, a + b)
    ensures InsertionOrder(InsertionOrder(keys, a), b) == InsertionOrder(keys, a + b)
    decreases |b|
  {
    if b == [] {
      assert a + b == a;
    } else {
      var init := b[..|b| - 1];
      assert (a + b)[..|a + b| - 1] == a + init;
      assert (a + b)[|a + b| - 1] == b[|b| - 1];
      TallyAppend(counts, keys, a, init);
    }
  }

  /** The key order keeps the old keys in place, lists every key once and lists
      exactly the old keys and the words; with matching counts it stays well formed. */
  lemma {:induction false} InsertionOrderWellFormed(keys: seq<string>, counts: map<string, int>, words: seq<string>)
    requires WellFormed(keys, counts)
    ensures WellFormed(InsertionOrder(keys, words), Tally(counts, words))
    ensures keys <= InsertionOrder(keys, words)
    ensures forall w :: w in InsertionOrder(keys, words) <==> w in keys || w in words
    decreases |words|
  {
    if words != [] {
      var init, last := words[..|words| - 1], words[|words| - 1];
      assert words == init + [last];
      InsertionOrderWellFormed(keys, counts, init);
      var k := InsertionOrder(keys, init);
      if last !in k {
        assert forall i :: 0 <= i < |k| ==> k[i] != last;
      }
    }
  }

  /** Replacing one item changes the total by the difference of the two counts. */
  lemma {:induction false} TotalUpdate(items: seq<(string, int)>, i: nat, x: (string, int))
    requires i < |items|
    ensures Total(items[i := x]) == Total(items) - items[i].1 + x.1
    decreases |items|
  {
    var updated := items[i := x];
    var init := items[..|items| - 1];
    if i < |items| - 1 {
      assert updated[..|updated| - 1] == init[i := x];
      TotalUpdate(init, i, x);
    } else {
      assert updated[..|updated| - 1] == init;
    }
  }

  /** Raising the count of a key listed exactly once raises the total by one. */
  lemma TotalBump(keys: seq<string>, counts: map<string, int>, w: string)
    requires WellFormed(keys, counts) && w in counts
    ensures Total(ItemsOf(keys, Bump(counts, w))) == Total(ItemsOf(keys, counts)) + 1
  {
    var i :| 0 <= i < |keys| && keys[i] == w;
    var before := ItemsOf(keys, counts);
    var after := ItemsOf(keys, Bump(counts, w));
    TotalUpdate(before, i, (w, counts[w] + 1));
    forall j | 0 <= j < |keys|
      ensures after[j] == before[i := (w, counts[w] + 1)][j]
    {
      if j != i {
        assert keys[j] != w;
      }
    }
    assert after == before[i := (w, counts[w] + 1)];
  }

  /** One bump, of a listed or of a new key, raises the total by one. */
  lemma TotalEnlist(keys: seq<string>, counts: map<string, int>, w: string)
    requires WellFormed(keys, counts)
    ensures Total(ItemsOf(Enlist(keys, w), Bump(counts, w))) == Total(ItemsOf(keys, counts)) + 1
  {
    if w in keys {
      TotalBump(keys, counts, w);
    } else {
      var before := ItemsOf(keys, counts);
      var after := ItemsOf(keys + [w], Bump(counts, w));
      forall j | 0 <= j < |keys|
        ensures after[j] == before[j]
      {
        assert (keys + [w])[j] == keys[j] != w;
      }
      assert after[..|keys|] == before;
      assert after[|keys|] == (w, 1);
    }
  }

  /** The total of the counts grows by exactly the number of words bumped. */
  lemma {:induction false} TotalTally(keys: seq<string>, counts: map<string, int>, words: seq<string>)
    requires WellFormed(keys, counts)
    ensures WellFormed(InsertionOrder(keys, words), Tally(counts, words))
    ensures Total(ItemsOf(InsertionOrder(keys, words), Tally(counts, words))) == Total(ItemsOf(keys, counts)) + |words|
    decreases |words|
  {
    InsertionOrderWellFormed(keys, counts, words);
    if words != [] {
      var init, last := words[..|words| - 1], words[|words| - 1];
      TotalTally(keys, counts, init);
      TotalEnlist(InsertionOrder(keys, init), Tally(counts, init), last);
    }
  }

  /** The counts of a Counter built from `words` add up to the number of words. */
  lemma CounterTotal(words: seq<string>)
    ensures WellFormed(InsertionOrder([], words), Tally(map[], words))
    ensures Total(ItemsOf(InsertionOrder([], words), Tally(map[], words))) == |words|
  {
    TotalTally([], map[], words);
  }

  /** `Counter(words).items()`: each distinct word once, in order of first
      appearance, with its number of occurrences; the counts add up to `|words|`. */
  function CounterItems(words: seq<string>): (items: seq<(string, int)>)
    ensures forall i :: 0 <= i < |items| ==> items[i].0 in words && items[i].1 == multiset(words)[items[i].0]
    ensures forall i, j :: 0 <= i < j < |items| ==> items[i].0 != items[j].0
    ensures forall w :: w in words ==> exists i :: 0 <= i < |items| && items[i].0 == w
    ensures Total(items) == |words|
  {
    CounterTotal(words);
    InsertionOrderWellFormed([], map[], words);
    var keys := InsertionOrder([], words);
    forall i | 0 <= i < |keys|
      ensures Tally(map[], words)[keys[i]] == multiset(words)[keys[i]]
    {
      TallyCounts(map[], words, keys[i]);
    }
    ItemsOf(keys, Tally(map[], words))
  }

  // ---------------------------------------------------------------------------
  // The order of the keys

  /** The index of the first occurrence of `w` in `words`. */
  function FirstOccurrence(words: seq<string>, w: string): (i: nat)
    requires w in words
    ensures i < |words| && words[i] == w && w !in words[..i]
  {
    if words[0] == w then 0
    else
      assert words == [words[0]] + words[1..];
      var j := FirstOccurrence(words[1..], w);
      assert words[..j + 1] == [words[0]] + words[1..][..j];
      j + 1
  }

  /** An index holding `w` with no `w` before it is the first occurrence. */
  lemma FirstOccurrenceUnique(words: seq<string>, w: string, i: nat)
    requires i < |words| && words[i] == w && w !in words[..i]
    ensures FirstOccurrence(words, w) == i
  {
    var f := FirstOccurrence(words, w);
    assert forall k :: 0 <= k < i ==> words[..i][k] == words[k];
    assert forall k :: 0 <= k < f ==> words[..f][k] == words[k];
  }

  /** Appending a word moves no first occurrence, and gives a new word its own. */
  lemma FirstOccurrenceAppend(init: seq<string>, last: string, w: string)
    requires w in init || w == last
    ensures w in init ==> FirstOccurrence(init + [last], w) == FirstOccurrence(init, w)
    ensures w !in init ==> FirstOccurrence(init + [last], w) == |init|
  {
    var words := init + [last];
    if w in init {
      var f := FirstOccurrence(init, w);
      assert words[..f] == init[..f];
      FirstOccurrenceUnique(words, w, f);
    } else {
      assert words[..|init|] == init;
      FirstOccurrenceUnique(words, w, |init|);
    }
  }

  /** `keys` is ordered by first occurrence in `words`. */
  ghost predicate ByFirstOccurrence(keys: seq<string>, words: seq<string>)
  {
    && (forall k :: k in keys ==> k in words)
    && (forall i, j :: 0 <= i < j < |keys| ==> FirstOccurrence(words, keys[i]) < FirstOccurrence(words, keys[j]))
  }

  /** Appending a word to the words, and to the keys when it is new, keeps the
      keys ordered by first occurrence. */
  lemma EnlistByFirstOccurrence(keys: seq<string>, init: seq<string>, last: string)
    requires ByFirstOccurrence(keys, init)
    requires last in keys <==> last in init
    ensures ByFirstOccurrence(Enlist(keys, last), init + [last])
  {
    var words := init + [last];
    forall k | k in keys
      ensures FirstOccurrence(words, k) == FirstOccurrence(init, k) < |init|
    {
      FirstOccurrenceAppend(init, last, k);
    }
    if last !in keys {
      var after := keys + [last];
      FirstOccurrenceAppend(init, last, last);
      forall i, j | 0 <= i < j < |after|
        ensures FirstOccurrence(words, after[i]) < FirstOccurrence(words, after[j])
      {
        assert after[i] == keys[i];
        if j < |keys| {
          assert after[j] == keys[j];
        }
      }
    }
  }

  /** The keys of `Counter(words)` come in the order of their first occurrence in
      `words`: this order decides which of several equally frequent words
      `most_common` lists first. */
  lemma {:induction false} InsertionOrderIsFirstOccurrence(words: seq<string>)
    ensures ByFirstOccurrence(InsertionOrder([], words), words)
    decreases |words|
  {
    if words != [] {
      var init, last := words[..|words| - 1], words[|words| - 1];
      assert words == init + [last];
      InsertionOrderIsFirstOccurrence(init);
      InsertionOrderWellFormed([], map[], init);
      EnlistByFirstOccurrence(InsertionOrder([], init), init, last);
    }
  }
}
