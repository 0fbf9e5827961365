/** The word-statistics pipeline of vkAnalyze.py: `get_word_frequency`
    (vkAnalyze.py:39-55) and `collect_data` (vkAnalyze.py:97-109). The stop-word
    file's text, which the source reads from `commonWordsRussian.txt`, is the
    parameter `commonWords`; the message bodies are their texts. */
module WordFrequency {
  import opened Wrappers
  import opened Text
  import opened Patterns
  import opened Counting

  /** What one space-separated fragment contributes. The fragment is lowered; it
      is dropped when it occurs anywhere in the stop-word text, as a substring;
      otherwise its token is the leftmost run of `[а-яА-Яa-zA-z0-9]`, and it is
      dropped when it has none. */
  function FragmentToken(fragment: string, commonWords: string): (token: Option<string>)
    ensures token.Some? <==>
      !OccursIn(Lower(fragment), commonWords) && exists k :: 0 <= k < |fragment| && IsWordChar(Lower(fragment)[k])
    ensures token.Some? ==>
      exists span :: IsLeftmostRun(Lower(fragment), span) && token.value == Lower(fragment)[span.start..span.end]
    ensures token.Some? ==>
      |token.value| > 0 && IsLowerCase(token.value) && forall i :: 0 <= i < |token.value| ==> IsWordChar(token.value[i])
  {
    var word := Lower(fragment);
    ContainsIffOccurs(commonWords, word);
    LowerIsLowerCase(fragment);
    if Contains(commonWords, word) then None
    else
      match SearchWordRun(word)
      case None => None
      case Some(span) => Some(word[span.start..span.end])
  }

  /** A fragment found in the stop-word text contributes nothing; in particular the
      empty fragment, which consecutive spaces produce, never does. */
  lemma StopWordDropped(fragment: string, commonWords: string)
    requires Contains(commonWords, Lower(fragment))
    ensures FragmentToken(fragment, commonWords) == None
    ensures FragmentToken("", commonWords) == None
  {
    ContainsIffOccurs(commonWords, Lower(fragment));
    ContainsIffOccurs(commonWords, Lower(""));
  }

  /** The list an optional token adds to `processed_words`. */
  function Emitted(token: Option<string>): seq<string>
  {
    if token.Some? then [token.value] else []
  }

  /** `processed_words` after the fragments, in order. */
  function FragmentTokens(fragments: seq<string>, commonWords: string): seq<string>
  {
    if fragments == [] then []
    else FragmentTokens(fragments[..|fragments| - 1], commonWords)
         + Emitted(FragmentToken(fragments[|fragments| - 1], commonWords))
  }

  /** The tokens of one message. */
  function MessageTokens(message: string, commonWords: string): seq<string>
  {
    FragmentTokens(Split(message), commonWords)
  }

  /** `f(x)` for each `x` of `xs`, concatenated in order. */
  function Flatten(xs: seq<string>, f: string -> seq<string>): seq<string>
  {
    if xs == [] then [] else Flatten(xs[..|xs| - 1], f) + f(xs[|xs| - 1])
  }

  /** The tokens of all messages, message after message. */
  function AllTokens(messages: seq<string>, commonWords: string): seq<string>
  {
    Flatten(messages, m => MessageTokens(m, commonWords))
  }

  /** `get_word_frequency(message_list)`: a new Counter holding one count per token
      occurrence, with its keys in the order the tokens first appear. */
  method GetWordFrequency(messageList: seq<string>, commonWords: string) returns (frequencyDictionary: Dictionary)
    ensures fresh(frequencyDictionary) && frequencyDictionary.Valid()
    ensures frequencyDictionary.keys == InsertionOrder([], AllTokens(messageList, commonWords))
    ensures frequencyDictionary.counts == Tally(map[], AllTokens(messageList, commonWords))
  {
    frequencyDictionary := new Dictionary();
    for m := 0 to |messageList|
      invariant frequencyDictionary.Valid()
      invariant frequencyDictionary.keys == InsertionOrder([], AllTokens(messageList[..m], commonWords))
      invariant frequencyDictionary.counts == Tally(map[], AllTokens(messageList[..m], commonWords))
    {
      var processedWords: seq<string> := [];
      var wordsList := Split(messageList[m]);
      for f := 0 to |wordsList|
        invariant processedWords == FragmentTokens(wordsList[..f], commonWords)
      {
        assert wordsList[..f + 1][..f] == wordsList[..f];
        var word := Lower(wordsList[f]);
        if Contains(commonWords, word) {
          continue;
        }
        var found := SearchWordRun(word);
        if found.Some? {
          word := word[found.value.start..found.value.end];
          processedWords := processedWords + [word];
        }
      }
      assert wordsList[..|wordsList|] == wordsList;
      ghost var before := AllTokens(messageList[..m], commonWords);
      TallyAppend(map[], [], before, processedWords);
      frequencyDictionary.Update(processedWords);
      assert messageList[..m + 1][..m] == messageList[..m];
    }
    assert messageList[..|messageList|] == messageList;
  }

  /** The bodies with non-empty text, in input order: the `message_list` of
      `collect_data`. */
  function NonEmptyTexts(texts: seq<string>): (kept: seq<string>)
    ensures forall i :: 0 <= i < |kept| ==> kept[i] != ""
    ensures forall t :: t != "" ==> multiset(kept)[t] == multiset(texts)[t]
    ensures |kept| == |texts| - multiset(texts)[""]
  {
    if texts == [] then []
    else
      var init, last := texts[..|texts| - 1], texts[|texts| - 1];
      assert texts == init + [last];
      NonEmptyTexts(init) + (if last != "" then [last] else [])
  }

  /** `collect_data(bodies)`: keeps the bodies whose text is non-empty, counts them,
      and computes the word Counter from the kept texts. */
  method CollectData(texts: seq<string>, commonWords: string) returns (wordDictionary: Dictionary, numberOfMessages: nat)
    ensures numberOfMessages == |texts| - multiset(texts)[""]
    ensures fresh(wordDictionary) && wordDictionary.Valid()
    ensures wordDictionary.keys == InsertionOrder([], AllTokens(NonEmptyTexts(texts), commonWords))
    ensures wordDictionary.counts == Tally(map[], AllTokens(NonEmptyTexts(texts), commonWords))
  {
    numberOfMessages := 0;
    var messageList: seq<string> := [];
    for i := 0 to |texts|
      invariant messageList == NonEmptyTexts(texts[..i])
      invariant numberOfMessages == |messageList|
    {
      assert texts[..i + 1][..i] == texts[..i];
      if texts[i] != "" {
        messageList := messageList + [texts[i]];
        numberOfMessages := numberOfMessages + 1;
      }
    }
    assert texts[..|texts|] == texts;
    wordDictionary := GetWordFrequency(messageList, commonWords);
  }

  // ---------------------------------------------------------------------------
  // Properties of the token stream

  /** Flattening consecutive lists gives consecutive results. */
  lemma {:induction false} FlattenAppend(a: seq<string>, b: seq<string>, f: string -> seq<string>)
    ensures Flatten(a + b, f) == Flatten(a, f) + Flatten(b, f)
    decreases |b|
  {
    if b == [] {
      assert a + b == a;
    } else {
      var init := b[..|b| - 1];
      assert (a + b)[..|a + b| - 1] == a + init;
      assert (a + b)[|a + b| - 1] == b[|b| - 1];
      FlattenAppend(a, init, f);
    }
  }

  /** Every token is non-empty, lower case and made only of class characters. */
  lemma {:induction false} TokensAreWords(messages: seq<string>, commonWords: string, t: string)
    requires t in AllTokens(messages, commonWords)
    ensures |t| > 0 && IsLowerCase(t) && forall i :: 0 <= i < |t| ==> IsWordChar(t[i])
    decreases |messages|
  {
    var init := messages[..|messages| - 1];
    if t in AllTokens(init, commonWords) {
      TokensAreWords(init, commonWords, t);
    } else {
      MessageTokensAreWords(Split(messages[|messages| - 1]), commonWords, t);
    }
  }

  /** The same for the tokens of one message's fragments. */
  lemma {:induction false} MessageTokensAreWords(fragments: seq<string>, commonWords: string, t: string)
    requires t in FragmentTokens(fragments, commonWords)
    ensures |t| > 0 && IsLowerCase(t) && forall i :: 0 <= i < |t| ==> IsWordChar(t[i])
    decreases |fragments|
  {
    var init := fragments[..|fragments| - 1];
    if t in FragmentTokens(init, commonWords) {
      MessageTokensAreWords(init, commonWords, t);
    }
  }

  /** Removing the item at `j` removes one occurrence of it. */
  lemma RemoveAt(xs: seq<string>, j: nat)
    requires j < |xs|
    ensures multiset(xs[..j] + xs[j + 1..]) == multiset(xs) - multiset{xs[j]}
  {
    assert xs == xs[..j] + [xs[j]] + xs[j + 1..];
  }

  /** Flattening with one item moved to the end gives the same multiset. */
  lemma MoveToEnd(xs: seq<string>, j: nat, f: string -> seq<string>)
    requires j < |xs|
    ensures multiset(Flatten(xs, f)) == multiset(Flatten(xs[..j] + xs[j + 1..], f)) + multiset(f(xs[j]))
  {
    var before, after := xs[..j], xs[j + 1..];
    assert xs == before + [xs[j]] + after;
    FlattenAppend(before + [xs[j]], after, f);
    FlattenAppend(before, [xs[j]], f);
    FlattenAppend(before, after, f);
    assert [xs[j]][..0] == [];
  }

  /** Flattening a permutation gives a permutation. */
  lemma {:induction false} FlattenPermutation(xs: seq<string>, ys: seq<string>, f: string -> seq<string>)
    requires multiset(xs) == multiset(ys)
    ensures multiset(Flatten(xs, f)) == multiset(Flatten(ys, f))
    decreases |xs|
  {
    if xs == [] {
      assert ys == [];
    } else {
      var init, last := xs[..|xs| - 1], xs[|xs| - 1];
      assert xs == init + [last];
      assert last in multiset(ys);
      var j :| 0 <= j < |ys| && ys[j] == last;
      RemoveAt(ys, j);
      RemoveAt(xs, |xs| - 1);
      FlattenPermutation(init, ys[..j] + ys[j + 1..], f);
      MoveToEnd(ys, j, f);
    }
  }

  /** The order of the messages does not change the multiset of tokens. */
  lemma AllTokensPermutation(messages1: seq<string>, messages2: seq<string>, commonWords: string)
    requires multiset(messages1) == multiset(messages2)
    ensures multiset(AllTokens(messages1, commonWords)) == multiset(AllTokens(messages2, commonWords))
  {
    FlattenPermutation(messages1, messages2, m => MessageTokens(m, commonWords));
  }

  /** Permuting `message_list` leaves the Counter's counts unchanged. */
  lemma WordFrequencyPermutation(messages1: seq<string>, messages2: seq<string>, commonWords: string)
    requires multiset(messages1) == multiset(messages2)
    ensures Tally(map[], AllTokens(messages1, commonWords)) == Tally(map[], AllTokens(messages2, commonWords))
  {
    AllTokensPermutation(messages1, messages2, commonWords);
    TallyPermutation(AllTokens(messages1, commonWords), AllTokens(messages2, commonWords));
  }

  /** A fragment passes both tests: not in the stop-word text, and holding a class character. */
  ghost predicate Passes(fragment: string, commonWords: string)
  {
    !OccursIn(Lower(fragment), commonWords) && exists k :: 0 <= k < |fragment| && IsWordChar(Lower(fragment)[k])
  }

  /** The number of `fragments` that pass. */
  ghost function CountPassing(fragments: seq<string>, commonWords: string): nat
  {
    if fragments == [] then 0
    else CountPassing(fragments[..|fragments| - 1], commonWords)
         + (if Passes(fragments[|fragments| - 1], commonWords) then 1 else 0)
  }

  /** The number of fragments that pass, over all fragments of all messages. */
  ghost function PassingFragments(messages: seq<string>, commonWords: string): nat
  {
    if messages == [] then 0
    else PassingFragments(messages[..|messages| - 1], commonWords) + CountPassing(Split(messages[|messages| - 1]), commonWords)
  }

  /** One token per passing fragment. */
  lemma {:induction false} FragmentTokensCount(fragments: seq<string>, commonWords: string)
    ensures |FragmentTokens(fragments, commonWords)| == CountPassing(fragments, commonWords)
    decreases |fragments|
  {
    if fragments != [] {
      FragmentTokensCount(fragments[..|fragments| - 1], commonWords);
    }
  }

  /** The counts of `get_word_frequency`'s Counter add up to the number of
      fragments, over all messages, that pass the stop-word and the character tests. */
  lemma {:induction false} CounterTotalIsPassingFragments(messages: seq<string>, commonWords: string)
    ensures Total(CounterItems(AllTokens(messages, commonWords))) == PassingFragments(messages, commonWords)
    decreases |messages|
  {
    if messages != [] {
      CounterTotalIsPassingFragments(messages[..|messages| - 1], commonWords);
      FragmentTokensCount(Split(messages[|messages| - 1]), commonWords);
    }
  }

  /** An empty body yields no token: `"".split(' ')` is `[""]` and the empty
      fragment is in every stop-word text. */
  lemma EmptyMessageNoTokens(commonWords: string)
    ensures MessageTokens("", commonWords) == []
  {
    assert Split("") == [""];
    StopWordDropped("", commonWords);
    assert [""][..0] == [];
    assert FragmentTokens([""], commonWords) == FragmentTokens([], commonWords) + Emitted(FragmentToken("", commonWords));
  }

  /** Dropping the empty bodies changes only `number_of_messages`: the tokens,
      and so the Counter, are the same as from all bodies. */
  lemma {:induction false} NonEmptyTextsSameTokens(texts: seq<string>, commonWords: string)
    ensures AllTokens(NonEmptyTexts(texts), commonWords) == AllTokens(texts, commonWords)
    decreases |texts|
  {
    if texts != [] {
      var init, last := texts[..|texts| - 1], texts[|texts| - 1];
      NonEmptyTextsSameTokens(init, commonWords);
      if last != "" {
        FlattenAppend(NonEmptyTexts(init), [last], m => MessageTokens(m, commonWords));
        assert [last][..0] == [];
      } else {
        EmptyMessageNoTokens(commonWords);
        assert NonEmptyTexts(texts) == NonEmptyTexts(init);
      }
    }
  }
}
