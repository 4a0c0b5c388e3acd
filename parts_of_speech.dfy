/**
 * `countPartsOfSpeech`: a table with one entry per vocabulary word, counting
 * the whole-word, case-insensitive matches of `\b(w1|w2|...)\b` (flags `gi`).
 *
 * For a vocabulary of non-empty words made of word characters, a match of
 * that pattern starts and ends on a word boundary and contains only word
 * characters, so it is a whole maximal run of `[A-Za-z0-9_]`; conversely a
 * run equal to some word ignoring ASCII case is matched, whichever
 * alternative is tried first (a shorter alternative such as `in` before
 * `inside` fails at the closing `\b` and is backtracked). The matches are
 * therefore the maximal word-character runs that equal a vocabulary word
 * ignoring case, in text order. All three word lists of the analyzer are
 * made of lower-case ASCII letters; a vocabulary holding an empty word or a
 * regular-expression metacharacter is outside this reading.
 */
module PartsOfSpeech {
  import opened Chars
  import opened Words

  /** The maximal runs of word characters: what `\b...\b` can delimit. */
  function WordRuns(text: seq<char>): seq<string> {
    Tokens(text, IsWordChar)
  }

  predicate MatchesVocabulary(run: string, vocab: seq<string>) {
    exists k :: 0 <= k < |vocab| && EqualIgnoringCase(run, vocab[k])
  }

  /** The runs among `runs` that some vocabulary word matches, in order. */
  function MatchingRuns(runs: seq<string>, vocab: seq<string>): (ms: seq<string>)
    ensures |ms| <= |runs|
    ensures forall k :: 0 <= k < |ms| ==> MatchesVocabulary(ms[k], vocab)
  {
    if runs == [] then []
    else
      var last := runs[|runs| - 1];
      MatchingRuns(runs[..|runs| - 1], vocab) + (if MatchesVocabulary(last, vocab) then [last] else [])
  }

  /**
   * `text.match(pattern) || []`: no more matches than word runs, each equal
   * to a vocabulary word ignoring case, and none missed: every vocabulary
   * word's lower-cased matches are all its occurrences in the text.
   */
  function Matches(text: seq<char>, vocab: seq<string>): (ms: seq<string>)
    ensures |ms| <= |WordRuns(text)|
    ensures forall k :: 0 <= k < |ms| ==> MatchesVocabulary(ms[k], vocab)
    ensures forall w :: w in vocab ==> CountLowered(ms, w) == Occurrences(text, w)
  {
    MatchesCountAll(WordRuns(text), vocab);
    MatchingRuns(WordRuns(text), vocab)
  }

  /** How many of `ms` lower-case to `key`. */
  function CountLowered(ms: seq<string>, key: string): (n: nat)
    ensures n <= |ms|
  {
    if ms == [] then 0
    else CountLowered(ms[..|ms| - 1], key) + (if Lower(ms[|ms| - 1]) == key then 1 else 0)
  }

  /** Whole-word, case-insensitive occurrences of `w` in `text`. */
  function Occurrences(text: seq<char>, w: string): nat {
    CountLowered(WordRuns(text), w)
  }

  /**
   * Initialise every vocabulary word to 0, then add one to the entry of
   * the lower-cased form of each match, if the table has such an entry.
   */
  method CountPartsOfSpeech(text: seq<char>, vocab: seq<string>) returns (counts: map<string, nat>)
    ensures forall w :: w in counts <==> w in vocab
    ensures forall w :: w in counts ==> counts[w] == Occurrences(text, w)
  {
    counts := map[];
    for i := 0 to |vocab|
      invariant forall w :: w in counts <==> w in vocab[..i]
      invariant forall w :: w in counts ==> counts[w] == 0
    {
      assert vocab[..i + 1] == vocab[..i] + [vocab[i]];
      counts := counts[vocab[i] := 0];
    }
    assert vocab[..|vocab|] == vocab;
    var matches := Matches(text, vocab);
    for i := 0 to |matches|
      invariant forall w :: w in counts <==> w in vocab
      invariant forall w :: w in counts ==> counts[w] == CountLowered(matches[..i], w)
    {
      var lowerMatch := Lower(matches[i]);
      CountLoweredStep(matches, i);
      if lowerMatch in counts {
        counts := counts[lowerMatch := counts[lowerMatch] + 1];
      }
    }
    assert matches[..|matches|] == matches;
  }

  lemma CountLoweredStep(ms: seq<string>, i: nat)
    requires i < |ms|
    ensures forall key :: CountLowered(ms[..i + 1], key)
                         == CountLowered(ms[..i], key) + (if Lower(ms[i]) == key then 1 else 0)
  {
    assert ms[..i + 1][..i] == ms[..i];
  }

  /** Counting the matches of a vocabulary word is counting its occurrences among all runs. */
  lemma {:induction false} MatchesCountOccurrences(runs: seq<string>, vocab: seq<string>, k: nat)
    requires k < |vocab|
    ensures CountLowered(MatchingRuns(runs, vocab), vocab[k]) == CountLowered(runs, vocab[k])
  {
    if runs != [] {
      var last := runs[|runs| - 1];
      MatchesCountOccurrences(runs[..|runs| - 1], vocab, k);
      if Lower(last) == vocab[k] {
        LowerIdempotent(last);
        assert EqualIgnoringCase(last, vocab[k]);
      }
      var rest := MatchingRuns(runs[..|runs| - 1], vocab);
      if MatchesVocabulary(last, vocab) {
        var ms := rest + [last];
        assert ms[..|ms| - 1] == rest && ms[|ms| - 1] == last;
      } else {
        assert MatchingRuns(runs, vocab) == rest;
      }
    }
  }

  lemma MatchesCountAll(runs: seq<string>, vocab: seq<string>)
    ensures forall w :: w in vocab ==> CountLowered(MatchingRuns(runs, vocab), w) == CountLowered(runs, w)
  {
    forall w | w in vocab ensures CountLowered(MatchingRuns(runs, vocab), w) == CountLowered(runs, w) {
      var k :| 0 <= k < |vocab| && vocab[k] == w;
      MatchesCountOccurrences(runs, vocab, k);
    }
  }

  // ---------------------------------------------------------------------
  // Case-insensitivity

  function LowerAll(ms: seq<string>): (r: seq<string>)
    ensures |r| == |ms|
    ensures forall k :: 0 <= k < |ms| ==> r[k] == Lower(ms[k])
  {
    if ms == [] then [] else [Lower(ms[0])] + LowerAll(ms[1..])
  }

  lemma {:induction false} RunLengthLower(s: seq<char>)
    ensures RunLength(Lower(s), IsWordChar) == RunLength(s, IsWordChar)
  {
    if s != [] {
      ToLowerKeepsClass(s[0]);
      assert Lower(s)[1..] == Lower(s[1..]);
      RunLengthLower(s[1..]);
    }
  }

  /** Lowering the text lowers each word run and keeps the runs where they are. */
  lemma {:induction false} WordRunsLower(s: seq<char>)
    ensures WordRuns(Lower(s)) == LowerAll(WordRuns(s))
    decreases |s|
  {
    if s != [] {
      ToLowerKeepsClass(s[0]);
      if !IsWordChar(s[0]) {
        assert Lower(s)[1..] == Lower(s[1..]);
        WordRunsLower(s[1..]);
      } else {
        var n := RunLength(s, IsWordChar);
        RunLengthLower(s);
        assert Lower(s)[..n] == Lower(s[..n]);
        assert Lower(s)[n..] == Lower(s[n..]);
        WordRunsLower(s[n..]);
        assert LowerAll([s[..n]] + WordRuns(s[n..])) == [Lower(s[..n])] + LowerAll(WordRuns(s[n..]));
      }
    }
  }

  lemma {:induction false} CountLoweredLowerAll(ms: seq<string>, key: string)
    ensures CountLowered(LowerAll(ms), key) == CountLowered(ms, key)
  {
    if ms != [] {
      var init := ms[..|ms| - 1];
      CountLoweredLowerAll(init, key);
      assert LowerAll(ms)[..|ms| - 1] == LowerAll(init);
      LowerIdempotent(ms[|ms| - 1]);
    }
  }

  /** Occurrences do not depend on the case of the text. */
  lemma OccurrencesIgnoreCase(text: seq<char>, w: string)
    ensures Occurrences(Lower(text), w) == Occurrences(text, w)
  {
    WordRunsLower(text);
    CountLoweredLowerAll(WordRuns(text), w);
  }

  /** A key that is not all lower case never receives a match. */
  lemma {:induction false} UpperCaseKeyNeverCounted(ms: seq<string>, key: string, i: nat)
    requires i < |key| && IsAsciiUpper(key[i])
    ensures CountLowered(ms, key) == 0
  {
    if ms != [] {
      UpperCaseKeyNeverCounted(ms[..|ms| - 1], key, i);
    }
  }

  // ---------------------------------------------------------------------
  // Whole words

  lemma {:induction false} CountLoweredAppend(a: seq<string>, b: seq<string>, key: string)
    ensures CountLowered(a + b, key) == CountLowered(a, key) + CountLowered(b, key)
    decreases |b|
  {
    if b == [] {
      assert a + b == a;
    } else {
      assert (a + b)[..|a + b| - 1] == a + b[..|b| - 1];
      CountLoweredAppend(a, b[..|b| - 1], key);
    }
  }

  /** A single run of word characters is one occurrence of its own lower-case form and of nothing else. */
  lemma OccurrencesOfOneRun(x: string, w: string)
    requires x != []
    requires forall i :: 0 <= i < |x| ==> IsWordChar(x[i])
    ensures Occurrences(x, w) == if Lower(x) == w then 1 else 0
  {
    TokensWhole(x, IsWordChar);
    var runs := [x];
    assert runs[..0] == [];
    assert CountLowered(runs, w) == CountLowered(runs[..0], w) + (if Lower(runs[0]) == w then 1 else 0);
  }

  /** A non-word character between two texts separates their occurrences: no match spans it. */
  lemma OccurrencesSeparated(a: string, c: char, b: string, w: string)
    requires !IsWordChar(c)
    ensures Occurrences(a + [c] + b, w) == Occurrences(a, w) + Occurrences(b, w)
  {
    TokensSeparated(a, c, b, IsWordChar);
    CountLoweredAppend(WordRuns(a), WordRuns(b), w);
  }

  // ---------------------------------------------------------------------
  // Examples

  /** Whole words only: `this` does not occur in "thistle", `in` does not occur in "inside". */
  lemma WholeWordExamples()
    ensures Occurrences("thistle", "this") == 0
    ensures Occurrences("inside", "in") == 0
    ensures Occurrences("inside", "inside") == 1
  {
    OccurrencesOfOneRun("thistle", "this");
    OccurrencesOfOneRun("inside", "in");
    OccurrencesOfOneRun("inside", "inside");
  }

  lemma ArticlePair(first: string, w: string)
    requires first == "A" || first == "a"
    requires w == "a" || w == "an"
    ensures Occurrences(first + " AN", w) == 1
  {
    OccurrencesOfOneRun(first, w);
    OccurrencesOfOneRun("AN", w);
    OccurrencesSeparated(first, ' ', "AN", w);
    assert first + [' '] + "AN" == first + " AN";
  }

  /** Case is ignored and the surface form is folded onto the lower-case key. */
  lemma CaseExamples()
    ensures Occurrences("A AN a AN", "a") == 2
    ensures Occurrences("A AN a AN", "an") == 2
  {
    var left, right := "A" + " AN", "a" + " AN";
    ArticlePair("A", "a");
    ArticlePair("A", "an");
    ArticlePair("a", "a");
    ArticlePair("a", "an");
    OccurrencesSeparated(left, ' ', right, "a");
    OccurrencesSeparated(left, ' ', right, "an");
    assert left + [' '] + right == "A AN a AN";
  }
}
