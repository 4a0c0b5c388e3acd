/**
 * `analyzeText`: the emptiness guard, the four analyses, and the data each
 * result section shows (basic counts; for each word list the table, its
 * ranked non-zero entries and their total). Rendering is not modelled.
 */
module Analyzer {
  import opened Chars
  import opened Words
  import opened BasicElements
  import opened PartsOfSpeech
  import opened Ranking
  import opened WordLists

  datatype Option<T> = None | Some(value: T)

  /** One word-list section: the table, its non-zero entries by descending count, and their total. */
  datatype WordReport = WordReport(counts: map<string, nat>, ranked: seq<Entry>, total: nat)

  datatype Report = Report(basic: BasicCounts, pronouns: WordReport, prepositions: WordReport, articles: WordReport)

  /** The filter, sort and sum that `displayWordCounts` applies to a table built from `vocab`. */
  function Summarize(vocab: seq<string>, counts: map<string, nat>): (r: WordReport)
    requires forall w :: w in vocab ==> w in counts
    ensures r.counts == counts
    ensures forall k :: 0 <= k < |r.ranked| ==> r.ranked[k].count > 0 && r.ranked[k].word in vocab
    ensures IsDescending(r.ranked)
    ensures forall n :: n > 0 ==> WithCount(r.ranked, n) == WithCount(Entries(KeyOrder(vocab), counts), n)
    ensures r.total == Total(Entries(KeyOrder(vocab), counts))
  {
    var entries := Entries(KeyOrder(vocab), counts);
    var ranked := Ranked(entries);
    RankedFacts(entries);
    forall k | 0 <= k < |ranked| ensures ranked[k].count > 0 && ranked[k].word in vocab {
      assert ranked[k] in ranked;
    }
    WordReport(counts, ranked, Total(ranked))
  }

  /** What the section for `vocab` holds when `text` is analyzed. */
  ghost predicate IsWordReportFor(text: seq<char>, vocab: seq<string>, r: WordReport) {
    && (forall w :: w in r.counts <==> w in vocab)
    && (forall w :: w in r.counts ==> r.counts[w] == Occurrences(text, w))
    && r == Summarize(vocab, r.counts)
  }

  /**
   * Reject blank text (the source alerts and returns); otherwise count the
   * basic elements and the three word lists and rank each table.
   */
  method AnalyzeText(text: seq<char>) returns (report: Option<Report>)
    ensures report.None? <==> forall i :: 0 <= i < |text| ==> IsWhitespace(text[i])
    ensures report.Some? ==> report.value.basic == BasicCountsOf(text)
    ensures report.Some? ==> IsWordReportFor(text, Pronouns, report.value.pronouns)
    ensures report.Some? ==> IsWordReportFor(text, Prepositions, report.value.prepositions)
    ensures report.Some? ==> IsWordReportFor(text, Articles, report.value.articles)
  {
    if Trim(text) == [] {
      return None;
    }
    var basicCounts := CountBasicElements(text);
    var pronounCounts := CountPartsOfSpeech(text, Pronouns);
    var prepositionCounts := CountPartsOfSpeech(text, Prepositions);
    var articleCounts := CountPartsOfSpeech(text, Articles);
    report := Some(Report(
      basicCounts,
      Summarize(Pronouns, pronounCounts),
      Summarize(Prepositions, prepositionCounts),
      Summarize(Articles, articleCounts)));
  }

  // ---------------------------------------------------------------------
  // Totals

  /** How many of `ms` lower-case to one of `keys`. */
  function CountLoweredIn(ms: seq<string>, keys: seq<string>): (n: nat)
    ensures n <= |ms|
  {
    if ms == [] then 0
    else CountLoweredIn(ms[..|ms| - 1], keys) + (if Lower(ms[|ms| - 1]) in keys then 1 else 0)
  }

  /** Counting one more key that is not among `keys` adds that key's count. */
  lemma {:induction false} CountLoweredInCons(ms: seq<string>, key: string, keys: seq<string>)
    requires key !in keys
    ensures CountLoweredIn(ms, [key] + keys) == CountLowered(ms, key) + CountLoweredIn(ms, keys)
  {
    if ms != [] {
      CountLoweredInCons(ms[..|ms| - 1], key, keys);
    }
  }

  /** Summing a table of distinct keys counts every run at most once. */
  lemma {:induction false} TotalOfTable(runs: seq<string>, keys: seq<string>, table: map<string, nat>)
    requires Distinct(keys)
    requires forall w :: w in keys ==> w in table && table[w] == CountLowered(runs, w)
    ensures Total(Entries(keys, table)) == CountLoweredIn(runs, keys)
  {
    if keys == [] {
      assert CountLoweredIn(runs, keys) == 0 by {
        CountLoweredInNone(runs, keys);
      }
    } else {
      assert keys == [keys[0]] + keys[1..];
      assert keys[0] !in keys[1..];
      TotalOfTable(runs, keys[1..], table);
      CountLoweredInCons(runs, keys[0], keys[1..]);
    }
  }

  lemma {:induction false} CountLoweredInNone(ms: seq<string>, keys: seq<string>)
    requires keys == []
    ensures CountLoweredIn(ms, keys) == 0
  {
    if ms != [] {
      CountLoweredInNone(ms[..|ms| - 1], keys);
    }
  }

  lemma {:induction false} CountLoweredInSameKeys(ms: seq<string>, a: seq<string>, b: seq<string>)
    requires forall w :: w in a <==> w in b
    ensures CountLoweredIn(ms, a) == CountLoweredIn(ms, b)
  {
    if ms != [] {
      CountLoweredInSameKeys(ms[..|ms| - 1], a, b);
    }
  }

  /**
   * The total a section shows is the number of whole-word runs of the text
   * whose lower-case form is in the word list, so it never exceeds the
   * number of word-character runs.
   */
  lemma ReportTotal(text: seq<char>, vocab: seq<string>, r: WordReport)
    requires IsWordReportFor(text, vocab, r)
    ensures r.total == CountLoweredIn(WordRuns(text), vocab)
    ensures r.total <= |WordRuns(text)|
  {
    var keys := KeyOrder(vocab);
    TotalOfTable(WordRuns(text), keys, r.counts);
    CountLoweredInSameKeys(WordRuns(text), keys, vocab);
  }

  /**
   * The total is not bounded by the word count: "a-a" is one
   * whitespace-separated word but two whole-word matches of `a`.
   */
  lemma HitsCanExceedWords()
    ensures WordCount("a-a") == 1
    ensures Occurrences("a-a", "a") == 2
  {
    WordCountIsRunCount("a-a");
    OccurrencesOfOneRun("a", "a");
    OccurrencesSeparated("a", '-', "a", "a");
    assert "a" + ['-'] + "a" == "a-a";
  }
}
