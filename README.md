# BookBot text statistics in Dafny

BookBot reads a book and reports two things: how many words it has, and how often each
letter occurs, most frequent first. This project models the counting and reporting
core of BookBot (`skeleton/stats.py`):

- `count_words`: the number of tokens `text.split()` yields;
- `count_characters`: a dictionary from each lower-cased character to its number of
  occurrences. Spaces, digits and punctuation are counted too;
- `get_character_report`: the alphabetic entries of that dictionary as `{"char", "num"}`
  records, sorted by `num` with the highest first, using the key helper `sort_on`.

In the repository these four functions are exercise stubs. Their bodies are `TODO`
comments followed by `pass` or by returning an empty container. The model therefore
follows what their doc-comments and hints promise, and what `tests/test_stats.py`
checks of them. It does not follow the placeholder bodies. (Those would return `None`,
`{}` and `[]` for every input.)

Files:

- `pystr.dfy`, module `PyStr`: the Python string built-ins.
  - The core calls `split()` with no argument, `lower()` and `isalpha()`.
  - `isspace` is modelled as the separator of `split()`.
  - `upper()` and `" ".join` are not called by the core. `upper()` serves to state
    case-insensitivity, and `" ".join` to build test sentences.
  - Character classes and `lower()` are Python's for ASCII and Latin-1. `upper()` is too,
    except for three characters listed under "Left out".
  - `split()` is characterised by three lemmas: a word splits into itself, whitespace
    splits into nothing, and one whitespace character splits its two sides
    independently. Together these determine `split()` on every input.
  - A round-trip lemma says that splitting `" ".join(words)` gives `words` back.
- `stats.dfy`, module `Stats`: the four functions of `stats.py`.
  - `count_characters` is a method with a loop that updates a `map`, as the source
    updates its dict. It is proved equal to the function `Tally`, whose properties are
    lemmas.
  - `get_character_report` is a method. It builds a list by visiting the dictionary's
    keys in an order the map chooses. It then sorts that list in place, as an array, by
    insertion sort.
  - The report's contract says that it holds exactly the alphabetic entries, each once,
    with the counts never increasing. A lemma shows that this fixes the report up to
    the order of equal counts.

## Model

| member | source | states |
|---|---|---|
| PyStr.Lower | skeleton/stats.py:37 | `lower()` on one character: an upper-case ASCII or Latin-1 letter moves to its lower-case partner, and every other character is unchanged; the result is never upper-case |
| PyStr.Upper | tests/test_stats.py:50-54 | `upper()` on one character, used to state case-insensitivity: a lower-case letter moves to its upper-case partner, and nothing else changes |
| PyStr.LowerUpper | tests/test_stats.py:50-54 | lower-casing an upper-cased or lower-cased character gives the same as lower-casing it once |
| PyStr.IsSpace | skeleton/stats.py:17-18 | the characters `str.isspace` accepts, which `split()` with no argument splits on: tab to carriage return, U+1C to U+20, U+85, U+A0, U+1680, U+2000 to U+200A, U+2028, U+2029, U+202F, U+205F and U+3000 |
| PyStr.IsAlpha | skeleton/stats.py:60 | the characters up to U+00FF that `str.isalpha` accepts: the ASCII letters, U+AA, U+B5, U+BA, and U+C0 to U+FF without U+D7 and U+F7 |
| PyStr.LowerStringIdempotent | skeleton/stats.py:37 | lower-casing already lower-cased text changes nothing |
| PyStr.LowerOfUpperString | tests/test_stats.py:50-54 | lower-casing upper-cased text gives the same as lower-casing the text |
| PyStr.JoinWords | tests/test_stats.py:19-20 | `" ".join(words)`: the words in order, a single space between neighbours |
| PyStr.WordLength | skeleton/stats.py:17-18 | the leading word of a string: within bounds, holds no whitespace, and stops at the end or at a whitespace character |
| PyStr.Split | skeleton/stats.py:17-18 | `text.split()`: every token is non-empty and holds no whitespace |
| PyStr.SplitWord | tests/test_stats.py:25-26 | a non-empty string without whitespace splits into exactly itself |
| PyStr.SplitSpace | tests/test_stats.py:22-23 | the empty string and all-whitespace strings split into no tokens |
| PyStr.SplitAtSpace | tests/test_stats.py:28-31 | a whitespace character is a delimiter: the tokens of `a + [c] + b` are the tokens of `a` followed by those of `b` |
| PyStr.SplitEmpty | skeleton/stats.py:17-18 | there are no tokens exactly when the text is empty or all whitespace (both directions) |
| PyStr.SplitJoin | skeleton/stats.py:17-18 | round trip: splitting words joined by single spaces yields the same words, when each word is non-empty and has no whitespace |
| Stats.CountWords | skeleton/stats.py:7-19 | `count_words` is the number of tokens of `text.split()`; it is 0 exactly when the text is empty or only whitespace |
| Stats.CountWordsAtSpace | tests/test_stats.py:28-31 | one whitespace character separates words: counts on its two sides add up |
| Stats.CountWordsRun | tests/test_stats.py:28-31 | a run of any number of whitespace characters counts as one delimiter, so the counts on its two sides add up |
| Stats.CountWordsPadded | skeleton/stats.py:17-18 | whitespace of any length before the text, after it, on both sides or on neither adds no words |
| Stats.CountWordsOfWord | tests/test_stats.py:33-37 | a non-empty run without whitespace, including its punctuation, is one word |
| Stats.CountWordsCons | tests/test_stats.py:19-20 | a word followed by whitespace adds exactly one to the count of the rest |
| Stats.CountWordsSkip | tests/test_stats.py:28-31 | a leading whitespace character changes nothing |
| Stats.CountWordsExamples | tests/test_stats.py:22-26 | `""` has 0 words and `"hello"` has 1 |
| Stats.CountWordsOfJoin | skeleton/stats.py:17-18 | words joined by single spaces count as exactly that many words, when each is non-empty and has no whitespace |
| Stats.CountSixWords | tests/test_stats.py:19-20 | any six non-empty words without whitespace, separated by single spaces, count as 6 |
| Stats.CountWordsSentence | tests/test_stats.py:19-20 | "Hello world this is a test" has 6 words |
| Stats.CountWordsPunctuation | tests/test_stats.py:33-37 | "Hello, world! How are you today?" has 6 words, punctuation attached |
| Stats.CountThreeWords | tests/test_stats.py:28-31 | any three non-empty words without whitespace, separated by whitespace runs of any length, count as 3 |
| Stats.CountWordsSpaced | tests/test_stats.py:28-31 | "hello    world   test" has 3 words |
| Stats.CountWhere | skeleton/stats.py:36-39 | the number of characters satisfying a predicate is at most the length, and equals it exactly when every character satisfies it |
| Stats.Tally | skeleton/stats.py:33-41 | the dictionary built character by character: every key is lower-case with a count of at least 1, and the tally is empty exactly when the text is |
| Stats.CountCharacters | skeleton/stats.py:22-41 | the loop that fills the dictionary, incrementing the lower-cased character and starting a new key at 0, yields `Tally(text)` |
| Stats.TallyCounts | tests/test_stats.py:44-48 | a character is a key exactly when some character of the text lower-cases to it, and its count is the number of such characters |
| Stats.TallyIgnoresCase | tests/test_stats.py:50-54 | texts that agree position by position up to case have the same tally |
| Stats.TallyOfCaseMapped | tests/test_stats.py:50-54 | the tally of `text.upper()` and of `text.lower()` is the tally of `text` |
| Stats.TallyExamples | tests/test_stats.py:44-54 | "hello" and "Hello" both have the tally {h:1, e:1, l:2, o:1}, and "" has the empty tally |
| Stats.TallyHiThere | tests/test_stats.py:56-60 | "hi there!" has the tally {h:2, i:1, ' ':1, t:1, e:2, r:1, '!':1}: the space and the punctuation are counted |
| Stats.TallyFive | skeleton/stats.py:33-41 | the tally of five characters is the empty dictionary bumped at each lower-cased character in turn |
| Stats.TallyNine | skeleton/stats.py:33-41 | the tally of nine characters is the empty dictionary bumped at each lower-cased character in turn |
| Stats.TallyTotal | tests/test_stats.py:56-60 | every character, space and punctuation included, is tallied once: the counts sum to the length of the text |
| Stats.AlphaTotal | skeleton/stats.py:59-62 | the counts of the alphabetic keys sum to the number of letters of the text, which is at most its length |
| Stats.SortOnRanksByCount | skeleton/stats.py:64-83 | sorting on `sort_on` ranks by count alone: records are in non-increasing `sort_on` order exactly when their counts never increase from left to right |
| Stats.SortDescending | skeleton/stats.py:64-66 | `list.sort(key=..., reverse=True)` in place: afterwards the keys never increase, and the elements are a permutation of the old ones |
| Stats.GetCharacterReport | skeleton/stats.py:44-68 | a record is in the report exactly when its char is an alphabetic key of the tally with that count; each record occurs once; counts never increase; the report is empty exactly when the tally has no alphabetic key |
| Stats.ReportsAgree | skeleton/stats.py:64-66 | any two reports of one tally have equal lengths and equal counts position by position; they can differ only in the order of characters with equal counts |
| Stats.ReportOfNoLetters | skeleton/stats.py:52-53 | a tally with no alphabetic key, the empty tally included, has only the empty report |
| Stats.ReportNoLettersExamples | tests/test_stats.py:84-92 | the reports of {'!':5, ' ':3, '1':2} and of {} are empty |
| Stats.ReportPositions | tests/test_stats.py:75-78 | each position of a report holds an alphabetic key of the tally with its count, and no character appears at two positions |
| Stats.ExpectedIsReport | tests/test_stats.py:81-82 | [c:8, a:5, b:3] is a valid report of {a:5, b:3, c:8, '!':2, ' ':10} |
| Stats.ReportExample | tests/test_stats.py:72-82 | the only report of {a:5, b:3, c:8, '!':2, ' ':10} is [c:8, a:5, b:3] |
| Stats.PermutedNums | skeleton/stats.py:64-66 | permuting the records permutes their counts |
| Stats.DescendingUnique | tests/test_stats.py:118-122 | two sequences of counts that never increase and are permutations of each other are equal |
| Stats.EnumeratesTotal | skeleton/stats.py:57-62 | a list holding each entry of a dictionary once has counts that sum to the dictionary's total |
| Stats.ReportSumsLetters | skeleton/main.py:38-45 | the report of a text's tally has counts that sum to the number of letters of the text, never more than its length |

## Left out

- `skeleton/main.py` is not part of this model beyond the composition stated in `ReportSumsLetters`. It covers file reading, `sys.argv` checking, the usage message, exit codes and printing the report. These are I/O and console output.
- `tests/test_main.py` runs the program as a subprocess on temporary files. It is a command-line harness, not logic.
- The test runner (`main()` in `tests/test_stats.py`) and its printing are not modelled.
- Unicode beyond Latin-1: `Lower`, `IsAlpha` and `IsSpace` match Python for code points up to U+00FF, and `Upper` does for all of them but the three below. Every code point above U+00FF is treated as a non-letter without case. For example, Greek and Cyrillic letters are neither counted in the report nor case-folded.
- `Lower` works one character at a time, so it keeps the text's length. Python's `lower()` turns U+0130 into two code points. In the model no character lower-cases to two, so the tally always sums to the length of the original text.
- `Upper` leaves U+00B5, U+00DF and U+00FF alone. Python maps U+00B5 to U+039C, U+00DF to the two ASCII letters "SS", and U+00FF to U+0178. U+0178 lower-cases back to U+00FF, so for U+00FF the tally of `text.upper()` is still the tally of `text`. For U+00B5 and U+00DF it is not: U+039C lower-cases to U+03BC, and "SS" to "ss". `TallyOfCaseMapped` and `LowerOfUpperString` hold for those two characters only because of this restriction.
- `SortDescending`: Python's sort is stable, and this one is too (it never swaps equal keys). The contract does not state stability. The order it would preserve is the dictionary's iteration order, which the model leaves unspecified. `ReportsAgree` states what is fixed instead: the counts at every position.
- `GetCharacterReport` takes counts as `nat`, as `count_characters` produces them. Negative counts in a hand-made dictionary are not modelled.
- `run_integration_test` in `tests/test_stats.py` is not evaluated on its sample text. Its checks are stated for every text instead: the word count is positive for text that is not all whitespace (`CountWords`), and the report's counts never increase (`GetCharacterReport`).
