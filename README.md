# Text analyzer model

A Dafny model of the text-analysis engine of the site's text analyzer
(`textanalyzer.js`). Given a block of text, the analyzer

- counts letters (`[a-zA-Z]`), spaces (`' '`), newlines (`'\n'`) and special
  symbols (not `\w`, not a space, not a newline) in one pass over the text,
  and counts words by splitting on `\s+` and dropping empty pieces
  (`countBasicElements`);
- builds, for each of three word lists (pronouns, prepositions, indefinite
  articles), a table with one entry per word, counting whole-word,
  case-insensitive matches of `\b(w1|w2|...)\b` (`countPartsOfSpeech`);
- for display, keeps the non-zero entries of each table, sorts them by
  descending count and sums them (`displayWordCounts`);
- refuses text that is empty after `trim()` (`analyzeText`).

Modules, one per part of the engine:

| file | module | models |
|---|---|---|
| chars.dfy | `Chars` | `[a-zA-Z]`, `\w`, `\s` and ASCII lower-casing |
| words.dfy | `Words` | maximal runs, `split(/\s+/)`, the word count, `trim()` |
| basic_elements.dfy | `BasicElements` | `countBasicElements` (a method with a loop) |
| parts_of_speech.dfy | `PartsOfSpeech` | `countPartsOfSpeech` (a method with two loops) and the meaning of its regular expression |
| ranking.dfy | `Ranking` | `Object.entries`, `filter`, the stable `sort`, `reduce` |
| word_lists.dfy | `WordLists` | the `pronouns`, `prepositions` and `articles` constants |
| analyzer.dfy | `Analyzer` | `analyzeText` and the data each result section shows |

The regular expression is not run by an engine. Its matches are specified
directly: for words made of word characters, a match of `\b(w1|...)\b` with
flags `gi` is exactly a maximal run of `[A-Za-z0-9_]` that equals one of the
words ignoring ASCII case (`PartsOfSpeech.Matches`). Both `\b` and `\w` accept
only ASCII word characters. The `i` flag folds case through upper-casing, and
without the `u` flag no character at or above U+0080 folds onto an ASCII one,
so an ASCII word matches only ASCII text. Alternation order cannot change a match: `in` is
listed before `inside`, but on "inside" the closing `\b` rejects `in` and
backtracking picks `inside`.

`\s` and `trim()` use the ECMAScript WhiteSpace and LineTerminator characters,
written out in `Chars.IsWhitespace`.

It might be expected that, per word list, the total number of matches is at
most the word count. The code does not guarantee this, because matches are
delimited by `\b` and words by whitespace: "a-a" is one word but two matches
of `a` (`Analyzer.HitsCanExceedWords`). The bound that does hold is the number
of word-character runs (`Analyzer.ReportTotal`). Sorting and summing happen
inside `displayWordCounts`; they are modelled because they are the only
computation in it.

## Model

| member | source | states |
|---|---|---|
| `Chars.ToLower` | textanalyzer.js:223 | lower-casing maps `A`–`Z` to `a`–`z` (code point + 32), leaves every other character unchanged, and never yields an upper-case ASCII letter |
| `Chars.Lower` | textanalyzer.js:223 | `toLowerCase` of a match lowers each character in place and keeps the length |
| `Chars.IsAsciiLetter` | textanalyzer.js:183 | `/[a-zA-Z]/` accepts only ASCII characters, and lower-casing maps every letter to `a`–`z` |
| `Chars.IsWordChar` | textanalyzer.js:189 | `/\w/` without the `u` flag accepts every ASCII letter, nothing outside ASCII and no whitespace; these are the characters `\b` at line 216 separates from the rest |
| `Chars.IsWhitespace` | textanalyzer.js:195 | `\s` (and `trim()` at line 147) accepts tab, line feed, U+000B, U+000C, carriage return, space, U+00A0, U+1680, U+2000 to U+200A, U+2028, U+2029, U+202F, U+205F, U+3000 and U+FEFF, and nothing else |
| `Chars.AsciiWhitespace` | textanalyzer.js:195 | the ASCII characters `\s` accepts are exactly tab, line feed, vertical tab, form feed, carriage return and space |
| `Words.Tokens` | textanalyzer.js:195 | every maximal run is non-empty and holds only characters of its class |
| `Words.Split` | textanalyzer.js:195 | `split(/\s+/)` yields at least one piece, and no piece contains whitespace |
| `Words.NonEmpty` | textanalyzer.js:195 | a piece is kept exactly when it is one of the input pieces and is non-empty |
| `Words.WordCount` | textanalyzer.js:195 | `words` is the number of maximal non-whitespace runs of the text |
| `Words.SplitIsTokens` | textanalyzer.js:195 | the non-empty pieces of the whitespace split are exactly the maximal non-whitespace runs, in order |
| `Words.TokensCountRuns` | textanalyzer.js:195 | the number of runs equals the number of positions where a run starts, which is an independent count |
| `Words.WordCountIsRunCount` | textanalyzer.js:195 | `words` is the number of maximal non-whitespace runs |
| `Words.WordCountZero` | textanalyzer.js:195 | `words` is 0 exactly when the text is empty or all whitespace |
| `Words.TokensSeparated` | textanalyzer.js:216-219 | a character outside the class splits the runs: runs of `a + [c] + b` are runs of `a` then runs of `b` |
| `Words.WordCountExamples` | textanalyzer.js:195 | "" has 0 words, "a b" has 2, " \t\n" has 0 |
| `Words.TrimStart` | textanalyzer.js:147 | the result is a suffix, everything dropped is whitespace, and it does not start with whitespace |
| `Words.TrimEnd` | textanalyzer.js:147 | the result is a prefix, everything dropped is whitespace, and it does not end with whitespace |
| `Words.Trim` | textanalyzer.js:147 | `trim()` is the slice that starts after the leading whitespace run, everything outside the slice is whitespace, and neither end of a non-empty result is whitespace; it is empty exactly when the text is all whitespace |
| `Words.TrimEmptyIffNoWords` | textanalyzer.js:147-150 | the blank-text guard rejects exactly the texts with no words |
| `BasicElements.CountBasicElements` | textanalyzer.js:170-198 | the loop with its chain of tests, followed by the split, yields letters = number of `[a-zA-Z]`, spaces = number of `' '`, newlines = number of `'\n'`, specialSymbols = number of characters that are not `\w`, `' '` or `'\n'`, and words = the word count |
| `BasicElements.IsSpecialSymbol` | textanalyzer.js:189 | a special symbol is never a letter, and every whitespace character other than space and line feed (tab, carriage return, ...) is one |
| `BasicElements.BucketsPartitionChar` | textanalyzer.js:183-190 | each character falls in exactly one of: letter, space, newline, special symbol, uncounted (digit or `_`) |
| `BasicElements.BucketsPartition` | textanalyzer.js:180-192 | letters + spaces + newlines + specialSymbols + (digits and `_`) = length of the text |
| `BasicElements.BucketsBounded` | textanalyzer.js:180-192 | the four character counters sum to at most the length of the text |
| `BasicElements.BucketExamples` | textanalyzer.js:183-190 | digits and `_` increment no counter; tab and `'\r'` are special symbols; `é` is a special symbol and not a letter |
| `BasicElements.BasicCountsExamples` | textanalyzer.js:170-198 | "" gives all zeros; "a b" gives letters 2, words 2, spaces 1, newlines 0, special symbols 0 |
| `PartsOfSpeech.MatchingRuns` | textanalyzer.js:216-219 | the matches are at most the runs, and each one equals some vocabulary word ignoring case |
| `PartsOfSpeech.Matches` | textanalyzer.js:216-219 | the matches of the pattern (the empty list when there are none) are at most one per word run and each equals a word of the list ignoring case; none is missed: for every word of the list, its lower-cased matches are all of its occurrences in the text |
| `PartsOfSpeech.CountLowered` | textanalyzer.js:222-227 | a count of matches never exceeds the number of matches |
| `PartsOfSpeech.CountPartsOfSpeech` | textanalyzer.js:207-230 | the table has exactly one key per vocabulary word and no other keys; each entry is the number of whole-word, case-insensitive occurrences of its key, and 0 when the key never occurs |
| `PartsOfSpeech.CountLoweredStep` | textanalyzer.js:222-227 | processing one more match adds one to exactly the entry equal to its lower-cased form |
| `PartsOfSpeech.MatchesCountOccurrences` | textanalyzer.js:216-227 | counting a vocabulary word's lower-cased matches gives the same result as counting its occurrences among all word runs |
| `PartsOfSpeech.OccurrencesIgnoreCase` | textanalyzer.js:216 | occurrences do not change when the text is lower-cased |
| `PartsOfSpeech.UpperCaseKeyNeverCounted` | textanalyzer.js:223-225 | a key containing an upper-case letter never equals a lower-cased match, so it stays 0 |
| `PartsOfSpeech.OccurrencesOfOneRun` | textanalyzer.js:216-219 | a single word run is one occurrence of its lower-case form and of nothing else |
| `PartsOfSpeech.OccurrencesSeparated` | textanalyzer.js:216-219 | no match spans a non-word character: occurrences in `a + [c] + b` are those in `a` plus those in `b` |
| `PartsOfSpeech.CountLoweredAppend` | textanalyzer.js:222-227 | counts over concatenated match lists add up |
| `PartsOfSpeech.WholeWordExamples` | textanalyzer.js:216-219 | "thistle" has no occurrence of `this`; "inside" has one of `inside` and none of `in` |
| `PartsOfSpeech.CaseExamples` | textanalyzer.js:216-225 | "A AN a AN" gives `a` = 2 and `an` = 2 |
| `Ranking.KeyOrder` | textanalyzer.js:211-213 | table keys in insertion order are exactly the vocabulary words, each once; for a list without duplicates they are the list itself |
| `Ranking.KeyOrderFirstOccurrence` | textanalyzer.js:211-213 | keys come in the order of their first occurrence in the vocabulary, which is the order `Object.entries` lists them in |
| `Ranking.Entries` | textanalyzer.js:279 | `Object.entries` pairs each key, in order, with its count |
| `Ranking.Insert` | textanalyzer.js:281 | inserting an entry adds exactly that entry and keeps all others |
| `Ranking.InsertDescending` | textanalyzer.js:281 | inserting into a descending list keeps it descending |
| `Ranking.InsertWithCount` | textanalyzer.js:281 | an inserted entry goes in front of the entries with its count, and no other entry moves relative to its equals |
| `Ranking.SortByCountDescending` | textanalyzer.js:281 | the sort is a permutation of its input |
| `Ranking.SortFacts` | textanalyzer.js:281 | the sort keeps the total, is descending by count, and keeps entries with equal counts in their input order |
| `Ranking.NonZero` | textanalyzer.js:280 | the filter keeps exactly the entries with a positive count |
| `Ranking.Total` | textanalyzer.js:284 | the sum is at least every single count, and is 0 exactly when every count is 0 |
| `Ranking.NonZeroTotal` | textanalyzer.js:280-284 | dropping zero entries does not change the sum |
| `Ranking.Ranked` | textanalyzer.js:279-281 | the ranked list is a permutation of the positive entries: an entry is listed exactly when it is in the table with a positive count |
| `Ranking.RankedFacts` | textanalyzer.js:279-284 | the ranked list is descending by count with ties in table order, and its total equals the sum of the whole table |
| `WordLists.WordListShapes` | textanalyzer.js:316-349 | the lists hold 39 pronouns, 56 prepositions and 2 articles; `this`, `in` and `inside` are among them |
| `Analyzer.Summarize` | textanalyzer.js:279-284 | a section shows only positive entries of its own word list, in descending order with every positive entry present and ties in table order; its total equals the sum of the whole table |
| `Analyzer.AnalyzeText` | textanalyzer.js:144-163 | blank text yields no report; otherwise the report holds the basic counts and, for each of the three word lists, its occurrence table, ranked entries and total |
| `Analyzer.TotalOfTable` | textanalyzer.js:284 | summing a table with distinct keys counts each word run at most once |
| `Analyzer.ReportTotal` | textanalyzer.js:211-227 | a section's total is the number of word runs whose lower-case form is in the word list, so it is at most the number of word runs |
| `Analyzer.HitsCanExceedWords` | textanalyzer.js:195 | "a-a" has one word but two occurrences of `a`, so the total is not bounded by the word count |

## Left out

- The interface: building the page (`createTextAnalyzerInterface`), the sample
  text loader, the `alert`, and the HTML generated by `displayBasicCounts` and
  `displayWordCounts`. These only produce output. The data those sections show
  is modelled.
- A general regular-expression engine. Matches are specified as word-character
  runs, which is what the pattern means for word lists made of word
  characters. A word list holding an empty word or a regular-expression
  metacharacter is outside the model.
- That the three word lists are lower-case ASCII and free of duplicates is
  assumed, not proved. `WordLists` lists the same words in the same order as
  the source (39 pronouns, 56 prepositions, 2 articles). No contract of the
  model depends on it: the tables are keyed by the list as given, and key
  order is stated for lists with or without duplicates.
- Word lists holding special property names are outside the model. The
  model assumes no list word is an array index (a word of digits such as
  `2`, which `Object.entries` lists first, in numeric order), `__proto__`
  (assigning it sets the prototype and creates no key) or `hasOwnProperty`
  (which replaces the method the count loop calls). The three lists of the
  analyzer contain none of these.
- UTF-16: the source indexes UTF-16 code units, so a character outside the
  Basic Multilingual Plane counts as two special symbols. The model's `char`
  is a Unicode scalar value, which counts once. Lone surrogates are not
  modelled.
- `toLowerCase` is modelled for ASCII only. A match holds only ASCII word
  characters, so the full Unicode mapping never applies.
- The `type` parameter of `countPartsOfSpeech` is unused by the source and is
  dropped.
- The user tracker and the slideshow are other widgets of the site and are
  not part of this model.
