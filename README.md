# vkAnalyze word statistics in Dafny

This project models the word-statistics core of `vkAnalyze.py`, a script that reads an HTML export of VK chat messages. The script:

- splits the text of every message body on single spaces;
- lowercases each fragment;
- drops a fragment that occurs, as a substring, anywhere in the text of a stop-word file;
- keeps the first run of `[а-яА-Яa-zA-z0-9]` characters as the token;
- counts the tokens in a `collections.Counter`;
- charts the 20 most common words.

The file name shown in the chart comes from the `file_split` regular expression `(.*)(.[a-zA-Z0-9]{3,4})`.

Modules, in dependency order:

- `Wrappers`: `Option` and `Result`.
- `Text`: the Python built-ins the script relies on. These are `str.split(' ')` with its inverse `' '.join`, `str.lower()`, and the substring test `w in text`.
- `Patterns`: the two regular expressions, each written out as an explicit search with a declarative description of its match.
  - `clean_word` gives the leftmost maximal run of the character class.
  - `file_split` gives the leftmost start and then the greedy `(.*)`. Because `.` does not match a newline, both groups stay on one line.
- `Counting`: the frequency dictionary. It is a class holding the keys in insertion order together with a map of counts. The module provides:
  - `add_to_dictionary`;
  - `Counter.update`, one insert-or-increment per word;
  - the specification functions `Tally` and `InsertionOrder` that these implement.
- `WordFrequency`: `get_word_frequency` and `collect_data`, with the tokenizer as functions.
- `Ranking`: `sort_dictionary` and `Counter.most_common(n)`.
  - The sort by key follows Python's tuple order.
  - The sort by count is stable and descending, so items with equal counts keep their insertion order.
- `VkAnalyze`: `driver()` without its I/O. It returns what would be handed to the bar-graph module. A name that `file_split` does not match fails with the `TypeError` that `None[1]` raises.

Quirks of the source that the model keeps:

- The stop-word test is substring containment in the raw file text. The empty fragment is therefore always dropped, and so is any fragment that is part of a longer stop word.
- The range `A-z` also admits `[ \ ] ^ _` and the backtick.
- `ё` and `Ё` are outside `а-я` and `А-Я`.
- The token is the first run of class characters, not the longest.
- Fragments come from splitting on the single space `' '`, not on all whitespace. Empty fragments are produced, and then dropped by the stop-word test.
- The unescaped `.` in `file_split` lets a four-character extension keep its dot: `chat.html` yields `chat.`.
- Bodies with empty text are not counted as messages. They contribute no tokens in any case.

The docstring of `get_word_frequency` (vkAnalyze.py:32) says that cleaning a word removes every non-alphanumeric character. The code at vkAnalyze.py:51-52 instead keeps only the leftmost run of the character class, so `a-b` gives `a`. The model follows the code.

## Model

| member | source | states |
|---|---|---|
| Text.Split | vkAnalyze.py:46 | `split(' ')` gives at least one fragment; no fragment holds a space; joining the fragments with spaces gives back the message |
| Text.SplitJoin | vkAnalyze.py:46 | splitting undoes joining for space-free fragments |
| Text.SplitLength | vkAnalyze.py:46 | a message with k spaces splits into k + 1 fragments |
| Text.LowerChar | vkAnalyze.py:48 | `lower()` on one character: the result is never upper case, and it differs from the input exactly when the input is upper case |
| Text.Lower | vkAnalyze.py:48 | `lower()` keeps the length and lowers each character in place |
| Text.LowerIsLowerCase | vkAnalyze.py:48 | a lowered string is lower case, and lowering it again changes nothing |
| Text.LowerOfLowerCase | vkAnalyze.py:48 | lowering a lower-case string changes nothing |
| Text.ContainsIffOccurs | vkAnalyze.py:49 | `word in common_words_list` holds exactly when the word occurs at some index of the stop-word text |
| Text.EmptyIsContained | vkAnalyze.py:49 | the empty fragment is in every stop-word text |
| Patterns.WordCharRanges | vkAnalyze.py:42 | the class `[а-яА-Яa-zA-z0-9]` is the three ranges 0-9, A..z and U+0410..U+044F |
| Patterns.SearchWordRun | vkAnalyze.py:51-52 | `clean_word.search` is None exactly when no character is in the class; otherwise it is the leftmost maximal run |
| Patterns.LeftmostRunUnique | vkAnalyze.py:51-52 | the leftmost maximal run is unique, so the search result is determined |
| Patterns.FileSplitSearch | vkAnalyze.py:10 | `file_split.search` fails exactly when no position holds a non-newline character followed by three ASCII alphanumerics; otherwise group 1 starts at the leftmost possible start and extends as far as the greedy `(.*)` allows |
| Patterns.FileSplitOneLine | vkAnalyze.py:10 | on a name without newlines, group 1 is the longest prefix that is followed by one character and three ASCII alphanumerics |
| Counting.ItemsOf | vkAnalyze.py:120-121 | `items()` lists the keys in order, each with its count |
| Counting.Dictionary.constructor | vkAnalyze.py:43 | `Counter()` is empty |
| Counting.Dictionary.Update | vkAnalyze.py:54 | `Counter.update(words)` leaves the keys and counts that bumping every word in order gives, and keeps the dictionary well formed |
| Counting.AddToDictionary | vkAnalyze.py:17-22 | an existing key gains one and keeps its place; a new key is appended with count 1; every other key is unchanged; the same dictionary is returned |
| Counting.TallyCounts | vkAnalyze.py:17-22 | after the bumps, each word's count grows by its number of occurrences, and no other key appears |
| Counting.TallyIsMultiset | vkAnalyze.py:54 | a Counter built from words is the multiset of those words |
| Counting.TallyPermutation | vkAnalyze.py:54 | the counts do not depend on the order of the words |
| Counting.TallyAppend | vkAnalyze.py:54 | updating with a and then with b is updating with a + b, both for the counts and for the key order |
| Counting.InsertionOrderWellFormed | vkAnalyze.py:17-22 | bumping keeps each key listed once; the old keys keep their places; the keys become the old keys plus the words |
| Counting.TotalUpdate | vkAnalyze.py:19 | replacing one count changes the sum of the counts by the difference |
| Counting.TotalBump | vkAnalyze.py:18-19 | incrementing an existing key raises the sum of the counts by one |
| Counting.TotalEnlist | vkAnalyze.py:17-22 | one insert-or-increment raises the sum of the counts by one |
| Counting.TotalTally | vkAnalyze.py:54 | the sum of the counts grows by the number of words in the update |
| Counting.CounterTotal | vkAnalyze.py:54 | the counts of a Counter built from words add up to the number of words |
| Counting.CounterItems | vkAnalyze.py:54 | `Counter(words).items()` lists each distinct word once with its number of occurrences, lists every word, and its counts add up to the number of words |
| Counting.FirstOccurrenceUnique | vkAnalyze.py:17-22 | an index holding a word with no earlier copy of it is that word's first occurrence |
| Counting.FirstOccurrenceAppend | vkAnalyze.py:17-22 | appending a word moves no first occurrence, and a new word's first occurrence is the appended position |
| Counting.EnlistByFirstOccurrence | vkAnalyze.py:17-22 | one insert-or-increment keeps the keys ordered by first occurrence in the words seen so far |
| Counting.InsertionOrderIsFirstOccurrence | vkAnalyze.py:54 | the keys of `Counter(words)` are words, ordered by their first occurrence in `words`; this order breaks ties in `most_common` |
| WordFrequency.FragmentToken | vkAnalyze.py:48-53 | a fragment yields a token exactly when its lowered form is not in the stop-word text and holds a class character; the token is the leftmost run of the lowered fragment, non-empty, lower case and made of class characters |
| WordFrequency.StopWordDropped | vkAnalyze.py:49-50 | a fragment found in the stop-word text yields nothing, and neither does the empty fragment |
| WordFrequency.GetWordFrequency | vkAnalyze.py:39-55 | a new Counter whose keys are the tokens of all messages in order of first appearance, each counted once per occurrence |
| WordFrequency.NonEmptyTexts | vkAnalyze.py:103-106 | the kept bodies are the non-empty ones with their multiplicities, and there are as many as the bodies minus the empty ones |
| WordFrequency.CollectData | vkAnalyze.py:97-109 | the message count is the number of non-empty bodies, and the Counter is that of their tokens |
| WordFrequency.FlattenAppend | vkAnalyze.py:44-54 | the per-message results of consecutive message lists concatenate |
| WordFrequency.FlattenPermutation | vkAnalyze.py:44-54 | reordering the messages permutes the concatenated per-message results |
| WordFrequency.TokensAreWords | vkAnalyze.py:48-53 | every counted word is non-empty, lower case and made of class characters |
| WordFrequency.MessageTokensAreWords | vkAnalyze.py:47-53 | the same holds for the tokens of one message |
| WordFrequency.AllTokensPermutation | vkAnalyze.py:44-54 | reordering the messages permutes the tokens |
| WordFrequency.WordFrequencyPermutation | vkAnalyze.py:44-54 | reordering the messages leaves every count unchanged |
| WordFrequency.FragmentTokensCount | vkAnalyze.py:47-53 | one token per fragment that passes the stop-word test and the character test |
| WordFrequency.CounterTotalIsPassingFragments | vkAnalyze.py:39-55 | the counts add up to the number of passing fragments over all messages |
| WordFrequency.EmptyMessageNoTokens | vkAnalyze.py:46-50 | an empty body yields no token |
| WordFrequency.NonEmptyTextsSameTokens | vkAnalyze.py:103-108 | dropping empty bodies leaves the tokens, and so the Counter, unchanged |
| Ranking.BelowIrreflexive | vkAnalyze.py:120 | Python's string `<` is irreflexive |
| Ranking.BelowAsymmetric | vkAnalyze.py:120 | Python's string `<` is asymmetric |
| Ranking.BelowTransitive | vkAnalyze.py:120 | Python's string `<` is transitive |
| Ranking.BelowTotal | vkAnalyze.py:120 | two different strings are ordered one way or the other |
| Ranking.ItemLeTotal | vkAnalyze.py:120 | any two (key, count) tuples are comparable |
| Ranking.ItemLeTransitive | vkAnalyze.py:120 | tuple order is transitive |
| Ranking.InsertByItemSorted | vkAnalyze.py:120 | inserting into an ascending list keeps it ascending |
| Ranking.InsertByItemPermutes | vkAnalyze.py:120 | inserting adds exactly the new item to the multiset of items |
| Ranking.SortByKey | vkAnalyze.py:120 | `sorted(items)` is ascending in tuple order and a permutation of the items |
| Ranking.KeySetPrepend | vkAnalyze.py:120 | the keys of `[y] + t` are y's key and t's keys; they are distinct exactly when t's are and y's key is new |
| Ranking.InsertByItemKeys | vkAnalyze.py:120 | inserting an item with a new key keeps the keys distinct and adds the key |
| Ranking.SortByKeyKeys | vkAnalyze.py:120 | sorting keeps the keys distinct and the key set unchanged |
| Ranking.AscendingAllPairs | vkAnalyze.py:120 | in an ascending list, an earlier item is at most a later one |
| Ranking.SortByKeyStrictlyAscending | vkAnalyze.py:119-120 | the items of a dict sorted by key have strictly ascending keys |
| Ranking.InsertByCountSorted | vkAnalyze.py:121 | inserting into a list ordered by count, highest first, keeps that order |
| Ranking.InsertByCountPermutes | vkAnalyze.py:121 | inserting adds exactly the new item to the multiset of items |
| Ranking.SortByCount | vkAnalyze.py:121 | `sorted(items, key=count, reverse=True)` orders by count, highest first, and is a permutation of the items |
| Ranking.WithCountCons | vkAnalyze.py:121 | filtering by count keeps the first item exactly when it has that count |
| Ranking.InsertByCountStable | vkAnalyze.py:121 | inserting an item puts it first among the items of equal count, and leaves the items of every other count in order |
| Ranking.SortByCountStable | vkAnalyze.py:121 | the sort is stable: items of equal count keep their input order |
| Ranking.NonIncreasingAllPairs | vkAnalyze.py:121 | in a list ordered by count, an earlier item's count is at least a later one's |
| Ranking.SortDictionary | vkAnalyze.py:118-121 | `'key'` sorts ascending by tuple order; any other value sorts by count, highest first and stable; both permute the items |
| Ranking.MostCommon | vkAnalyze.py:136 | `most_common(n)` has min(n, len) items, is a prefix of the stable sort by count, and draws its items from the input |
| Ranking.PrefixDominates | vkAnalyze.py:136 | in a list ordered by count, every item of a prefix has at least the count of every item after it |
| Ranking.MostCommonIsTop | vkAnalyze.py:136 | `most_common(n)` is ordered by count, and no item left out has a higher count than an item kept |
| VkAnalyze.FileName | vkAnalyze.py:127 | `file_split.search(name)[1]` fails exactly when the pattern matches nowhere; otherwise it is group 1 of the match |
| VkAnalyze.DecimalString | vkAnalyze.py:143 | `str(n)` is decimal digits without a leading zero, and its value is n |
| VkAnalyze.Driver | vkAnalyze.py:124-145 | fails exactly when the file name does not match. Otherwise: the chart's words are `most_common(20)` of the Counter of all tokens; the message count is the number of non-empty bodies; the title is `'Most used words in ' + str(n) + ' messages in ' + file_name`; the path is `'outputVk/' + file_name + 'word_frequency.png'` |
| VkAnalyze.ChartIsTopWords | vkAnalyze.py:136 | the chart has at most 20 words, highest count first, and no word left out was used more often than a word shown |
| VkAnalyze.FileNameThreeLetterExtension | vkAnalyze.py:127 | `chat.txt` gives `chat` |
| VkAnalyze.FileNameFourLetterExtension | vkAnalyze.py:127 | `chat.html` gives `chat.`: the dot stays in group 1 |
| VkAnalyze.FileNameTooShort | vkAnalyze.py:127 | `a.b` fails with the error of `None[1]` |

## Left out

- Reading the stop-word file `commonWordsRussian.txt` (vkAnalyze.py:40-41) is left out. Its text is the parameter `commonWords`.
- Reading and parsing the HTML with BeautifulSoup, and `findAll` of the `msg_body` divs (vkAnalyze.py:128-129), are left out. The bodies arrive as the sequence of their texts, and `str(lines.text)` is that text.
- `get_file_name` and `sys.argv` (vkAnalyze.py:65-71), and `read_file` (vkAnalyze.py:80-83), are I/O and are left out. The file name is a parameter.
- The `print` of each body (vkAnalyze.py:105), `os.mkdir` (vkAnalyze.py:138-139) and the call to `graphs.bar_graph` (vkAnalyze.py:141-145) are left out. `graphs` is not part of this model. `Driver` returns the arguments the call would receive, except the constants 20 and `'Uses'`.
- Text.LowerChar: covers only ASCII `A-Z` and the basic Cyrillic capitals U+0400..U+042F. Python's full Unicode `str.lower()` is not modelled.
- Ranking.MostCommon: `Counter.most_common` uses `heapq.nlargest`, which picks the same items in the same order as the stable sort by count. The model states the result through that sort. The heap itself is not modelled.
- The date, time and person dictionaries that the `collect_data` docstring (vkAnalyze.py:86-94) mentions are not built by its code, and are not modelled.
- Python's `int` is unbounded, like Dafny's. No overflow is modelled.
