/** `driver()` of vkAnalyze.py (vkAnalyze.py:124-145) without its I/O: the file
    name comes in as a string, the bodies of the `msg_body` divs as their texts
    and the stop-word file as its text; what the source hands to the bar-graph
    module comes out as a `Report`. */
module VkAnalyze {
  import opened Wrappers
  import opened Patterns
  import opened Counting
  import opened WordFrequency
  import opened Ranking

  /** Subscripting the `None` that a failed `file_split.search` returns raises
      `TypeError` (vkAnalyze.py:127). */
  datatype Error = NoneNotSubscriptable

  /** What `driver` passes to `graphs.bar_graph`: the ranked words, the title
      and the output path, and the message count the title shows. */
  datatype Report = Report(words: seq<Item>, numberOfMessages: nat, title: string, outputPath: string)

  /** The number of words in the chart: `most_common(20)`. */
  const TopWords: nat := 20

  /** `file_split.search(file_name_with_extension)[1]`. */
  function FileName(fileNameWithExtension: string): (r: Result<string, Error>)
    ensures r.Failure? <==> forall p :: !ExtensionAt(fileNameWithExtension, p)
    ensures r.Success? ==>
      exists span :: IsFileSplitMatch(fileNameWithExtension, span)
        && r.value == fileNameWithExtension[span.start..span.end]
  {
    match FileSplitSearch(fileNameWithExtension)
    case None => Failure(NoneNotSubscriptable)
    case Some(span) => Success(fileNameWithExtension[span.start..span.end])
  }

  /** The value of a string of decimal digits. */
  function DecimalValue(s: string): nat
  {
    if s == [] then 0
    else DecimalValue(s[..|s| - 1]) * 10 + (if '0' <= s[|s| - 1] <= '9' then s[|s| - 1] as int - '0' as int else 0)
  }

  /** `str(n)` for a natural number: its decimal digits, without leading zeros. */
  function DecimalString(n: nat): (s: string)
    ensures |s| > 0 && forall i :: 0 <= i < |s| ==> '0' <= s[i] <= '9'
    ensures s[0] == '0' ==> n == 0 && s == "0"
    ensures DecimalValue(s) == n
  {
    var digit := ('0' as int + n % 10) as char;
    if n < 10 then [digit]
    else
      var prefix := DecimalString(n / 10);
      assert (prefix + [digit])[..|prefix|] == prefix;
      prefix + [digit]
  }

  /** `driver()`: the file name without its extension, the word Counter of the
      non-empty bodies, its 20 most common words, and the chart's title and path;
      a file name the pattern does not match fails before anything is read. */
  method Driver(fileNameWithExtension: string, messageBodies: seq<string>, commonWords: string)
    returns (r: Result<Report, Error>)
    ensures r.Failure? <==> FileName(fileNameWithExtension).Failure?
    ensures r.Success? ==>
      var fileName := FileName(fileNameWithExtension).value;
      var tokens := AllTokens(messageBodies, commonWords);
      && r.value.numberOfMessages == |messageBodies| - multiset(messageBodies)[""]
      && r.value.words == MostCommon(CounterItems(tokens), TopWords)
      && r.value.title == "Most used words in " + DecimalString(r.value.numberOfMessages) + " messages in " + fileName
      && r.value.outputPath == "outputVk/" + fileName + "word_frequency.png"
  {
    var fileName := FileName(fileNameWithExtension);
    if fileName.Failure? {
      return Failure(fileName.error);
    }
    var wordDictionary, numberOfMessages := CollectData(messageBodies, commonWords);
    NonEmptyTextsSameTokens(messageBodies, commonWords);
    var words := MostCommon(wordDictionary.Items(), TopWords);
    var title := "Most used words in " + DecimalString(numberOfMessages) + " messages in " + fileName.value;
    var outputPath := "outputVk/" + fileName.value + "word_frequency.png";
    r := Success(Report(words, numberOfMessages, title, outputPath));
  }

  /** The chart holds at most 20 words, highest count first, and no word left
      out was used more often than a word shown. */
  lemma ChartIsTopWords(messageBodies: seq<string>, commonWords: string)
    ensures
      var tokens := AllTokens(messageBodies, commonWords);
      var items := CounterItems(tokens);
      var words := MostCommon(items, TopWords);
      && |words| <= TopWords
      && NonIncreasing(words)
      && forall x, y :: x in words && y in multiset(items) - multiset(words) ==> x.1 >= y.1
  {
    MostCommonIsTop(CounterItems(AllTokens(messageBodies, commonWords)), TopWords);
  }

  /** Group 1 of `file_split` on a name with a three-letter extension is the name
      without it. */
  lemma FileNameThreeLetterExtension()
    ensures FileName("chat.txt") == Success("chat")
  {
    var s := "chat.txt";
    FileSplitOneLine(s);
    assert ExtensionAt(s, 4);
    assert FileSplitSearch(s).value == Span(0, 4);
    assert s[0..4] == "chat";
  }

  /** The unescaped `.` of `file_split` lets group 2 start one character late on a
      four-letter extension, so group 1 keeps the dot. */
  lemma FileNameFourLetterExtension()
    ensures FileName("chat.html") == Success("chat.")
  {
    var s := "chat.html";
    FileSplitOneLine(s);
    assert ExtensionAt(s, 5);
    assert FileSplitSearch(s).value == Span(0, 5);
    assert s[0..5] == "chat.";
  }

  /** A name with fewer than three characters after any position fails. */
  lemma FileNameTooShort()
    ensures FileName("a.b") == Failure(NoneNotSubscriptable)
  {
    assert forall p :: !ExtensionAt("a.b", p);
  }
}
