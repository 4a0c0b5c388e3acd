/**
 * Runs of characters, the word count `text.split(/\s+/).filter(w => w.length > 0).length`
 * and the `text.trim()` emptiness guard.
 */
module Words {
  import opened Chars

  predicate IsNonWhitespace(c: char) {
    !IsWhitespace(c)
  }

  /** Length of the longest prefix of `s` whose characters all satisfy `p`. */
  function RunLength(s: seq<char>, p: char -> bool): (n: nat)
    ensures n <= |s|
    ensures forall i :: 0 <= i < n ==> p(s[i])
    ensures n < |s| ==> !p(s[n])
  {
    if s == [] || !p(s[0]) then 0 else 1 + RunLength(s[1..], p)
  }

  /**
   * The maximal runs of characters satisfying `p`, left to right.
   * Every run is non-empty and made only of characters satisfying `p`.
   */
  function Tokens(s: seq<char>, p: char -> bool): (ts: seq<seq<char>>)
    ensures forall k :: 0 <= k < |ts| ==> ts[k] != []
    ensures forall k, i :: 0 <= k < |ts| && 0 <= i < |ts[k]| ==> p(ts[k][i])
    decreases |s|
  {
    if s == [] then []
    else if !p(s[0]) then Tokens(s[1..], p)
    else
      var n := RunLength(s, p);
      [s[..n]] + Tokens(s[n..], p)
  }

  /**
   * Independent count of maximal runs: the positions holding a character
   * that satisfies `p` and whose predecessor does not (or that have none).
   * `inRun` says whether the character before `s` satisfied `p`.
   */
  function RunStarts(s: seq<char>, p: char -> bool, inRun: bool): nat
  {
    if s == [] then 0
    else (if p(s[0]) && !inRun then 1 else 0) + RunStarts(s[1..], p, p(s[0]))
  }

  /** `text.split(/\s+/)`: the pieces between maximal whitespace runs, empty pieces included. */
  function Split(s: seq<char>): (pieces: seq<seq<char>>)
    ensures |pieces| >= 1
    ensures forall k, i :: 0 <= k < |pieces| && 0 <= i < |pieces[k]| ==> !IsWhitespace(pieces[k][i])
    decreases |s|
  {
    var i := RunLength(s, IsNonWhitespace);
    if i == |s| then [s]
    else
      var j := i + RunLength(s[i..], IsWhitespace);
      [s[..i]] + Split(s[j..])
  }

  /** `.filter(word => word.length > 0)` */
  function NonEmpty(pieces: seq<seq<char>>): (r: seq<seq<char>>)
    ensures |r| <= |pieces|
    ensures forall x :: x in r <==> x in pieces && x != []
  {
    if pieces == [] then []
    else
      assert forall x :: x in pieces <==> x == pieces[0] || x in pieces[1..];
      if pieces[0] == [] then NonEmpty(pieces[1..])
      else [pieces[0]] + NonEmpty(pieces[1..])
  }

  /** `counts.words`: the number of maximal non-whitespace runs. */
  function WordCount(s: seq<char>): (n: nat)
    ensures n == |Tokens(s, IsNonWhitespace)|
  {
    SplitIsTokens(s);
    |NonEmpty(Split(s))|
  }

  // ---------------------------------------------------------------------
  // Runs

  /** Characters that fail `p` before the first run do not change the runs. */
  lemma {:induction false} TokensSkip(s: seq<char>, p: char -> bool, k: nat)
    requires k <= |s|
    requires forall i :: 0 <= i < k ==> !p(s[i])
    ensures Tokens(s, p) == Tokens(s[k..], p)
    decreases k
  {
    if k > 0 {
      assert s[1..][k - 1..] == s[k..];
      TokensSkip(s[1..], p, k - 1);
    }
  }

  lemma {:induction false} TokensEmpty(s: seq<char>, p: char -> bool)
    ensures Tokens(s, p) == [] <==> forall i :: 0 <= i < |s| ==> !p(s[i])
    decreases |s|
  {
    if s != [] && !p(s[0]) {
      TokensEmpty(s[1..], p);
      assert forall i :: 1 <= i < |s| ==> s[i] == s[1..][i - 1];
    }
  }

  /** A text made only of characters satisfying `p` is a single run. */
  lemma TokensWhole(s: seq<char>, p: char -> bool)
    requires s != []
    requires forall i :: 0 <= i < |s| ==> p(s[i])
    ensures Tokens(s, p) == [s]
  {
    assert s[..|s|] == s && s[|s|..] == [];
  }

  /** A run that ends inside `a` has the same length in `a + t`. */
  lemma {:induction false} RunLengthPrefix(a: seq<char>, t: seq<char>, p: char -> bool)
    requires RunLength(a, p) < |a| || (t != [] && !p(t[0]))
    ensures RunLength(a + t, p) == RunLength(a, p)
  {
    if a == [] {
    } else if p(a[0]) {
      assert (a + t)[1..] == a[1..] + t;
      RunLengthPrefix(a[1..], t, p);
    }
  }

  /** A character failing `p` separates the runs on its left from those on its right. */
  lemma {:induction false} TokensSeparated(a: seq<char>, c: char, b: seq<char>, p: char -> bool)
    requires !p(c)
    ensures Tokens(a + [c] + b, p) == Tokens(a, p) + Tokens(b, p)
    decreases |a|
  {
    var s := a + [c] + b;
    if a == [] {
      assert s[1..] == b;
    } else if !p(a[0]) {
      assert s[1..] == a[1..] + [c] + b;
      TokensSeparated(a[1..], c, b, p);
    } else {
      var n := RunLength(a, p);
      RunLengthPrefix(a, [c] + b, p);
      assert s == a + ([c] + b);
      assert s[..n] == a[..n];
      assert s[n..] == a[n..] + [c] + b;
      TokensSeparated(a[n..], c, b, p);
    }
  }

  /** Inside a run, the remaining run starts are those after the run. */
  lemma {:induction false} RunStartsAfterRun(s: seq<char>, p: char -> bool, k: nat)
    requires k <= RunLength(s, p)
    requires 0 < k
    ensures RunStarts(s[k..], p, true) == RunStarts(s[RunLength(s, p)..], p, false)
    decreases RunLength(s, p) - k
  {
    var n := RunLength(s, p);
    if k < n {
      assert s[k..][1..] == s[k + 1..];
      RunStartsAfterRun(s, p, k + 1);
    } else if k < |s| {
      assert s[k..][1..] == s[k + 1..];
    }
  }

  /** `Tokens` yields exactly one token per maximal run. */
  lemma {:induction false} TokensCountRuns(s: seq<char>, p: char -> bool)
    ensures |Tokens(s, p)| == RunStarts(s, p, false)
    decreases |s|
  {
    if s == [] {
    } else if !p(s[0]) {
      TokensCountRuns(s[1..], p);
    } else {
      var n := RunLength(s, p);
      TokensCountRuns(s[n..], p);
      if n == 1 {
        if |s| > 1 {
          assert s[1..][1..] == s[2..];
        }
      } else {
        RunStartsAfterRun(s, p, 1);
      }
    }
  }

  // ---------------------------------------------------------------------
  // Word count

  lemma NonEmptyPrepend(x: seq<char>, rest: seq<seq<char>>)
    ensures NonEmpty([x] + rest) == (if x == [] then [] else [x]) + NonEmpty(rest)
  {
    assert ([x] + rest)[1..] == rest;
  }

  /** The split of a text with no whitespace is the text itself. */
  lemma SplitWithoutWhitespace(s: seq<char>)
    requires RunLength(s, IsNonWhitespace) == |s|
    ensures NonEmpty(Split(s)) == Tokens(s, IsNonWhitespace)
  {
    assert Split(s) == [s];
    NonEmptyPrepend(s, []);
    if s != [] {
      assert s[..|s|] == s && s[|s|..] == [];
    }
  }

  /** Tokens of a text whose first whitespace run is `s[i..j]`. */
  lemma TokensAtWhitespace(s: seq<char>, i: nat, j: nat)
    requires i == RunLength(s, IsNonWhitespace) < |s|
    requires j == i + RunLength(s[i..], IsWhitespace)
    ensures Tokens(s, IsNonWhitespace) == (if i == 0 then [] else [s[..i]]) + Tokens(s[j..], IsNonWhitespace)
  {
    var t := s[i..];
    assert t[j - i..] == s[j..];
    TokensSkip(t, IsNonWhitespace, j - i);
    if i == 0 {
      assert t == s;
    } else {
      assert Tokens(s, IsNonWhitespace) == [s[..i]] + Tokens(t, IsNonWhitespace);
    }
  }

  /** One step of the split: the piece before the first whitespace run, then the split of the rest. */
  lemma SplitStep(s: seq<char>, i: nat, j: nat)
    requires i == RunLength(s, IsNonWhitespace) < |s|
    requires j == i + RunLength(s[i..], IsWhitespace)
    ensures Split(s) == [s[..i]] + Split(s[j..])
  {
  }

  /** A split that cuts at a whitespace run `s[i..j]` after the non-whitespace prefix `s[..i]`. */
  lemma SplitAtWhitespace(s: seq<char>, i: nat, j: nat)
    requires i == RunLength(s, IsNonWhitespace) < |s|
    requires j == i + RunLength(s[i..], IsWhitespace)
    requires NonEmpty(Split(s[j..])) == Tokens(s[j..], IsNonWhitespace)
    ensures NonEmpty(Split(s)) == Tokens(s, IsNonWhitespace)
  {
    var head, rest := s[..i], Split(s[j..]);
    SplitStep(s, i, j);
    NonEmptyPrepend(head, rest);
    assert head == [] <==> i == 0;
    TokensAtWhitespace(s, i, j);
  }

  /** The non-empty pieces of the whitespace split are exactly the maximal non-whitespace runs. */
  lemma {:induction false} SplitIsTokens(s: seq<char>)
    ensures NonEmpty(Split(s)) == Tokens(s, IsNonWhitespace)
    decreases |s|
  {
    var i := RunLength(s, IsNonWhitespace);
    if i == |s| {
      SplitWithoutWhitespace(s);
    } else {
      var j := i + RunLength(s[i..], IsWhitespace);
      SplitIsTokens(s[j..]);
      SplitAtWhitespace(s, i, j);
    }
  }

  /** `words` is the number of maximal non-whitespace runs. */
  lemma WordCountIsRunCount(s: seq<char>)
    ensures WordCount(s) == RunStarts(s, IsNonWhitespace, false)
  {
    TokensCountRuns(s, IsNonWhitespace);
  }

  /** `words` is 0 exactly for empty or whitespace-only text. */
  lemma WordCountZero(s: seq<char>)
    ensures WordCount(s) == 0 <==> forall i :: 0 <= i < |s| ==> IsWhitespace(s[i])
  {
    TokensEmpty(s, IsNonWhitespace);
  }

  // ---------------------------------------------------------------------
  // `text.trim()`

  function TrimStart(s: seq<char>): (r: seq<char>)
    ensures |r| <= |s| && r == s[|s| - |r|..]
    ensures forall i :: 0 <= i < |s| - |r| ==> IsWhitespace(s[i])
    ensures r != [] ==> !IsWhitespace(r[0])
  {
    s[RunLength(s, IsWhitespace)..]
  }

  function TrimEnd(s: seq<char>): (r: seq<char>)
    ensures |r| <= |s| && r == s[..|r|]
    ensures forall i :: |r| <= i < |s| ==> IsWhitespace(s[i])
    ensures r != [] ==> !IsWhitespace(r[|r| - 1])
  {
    if s != [] && IsWhitespace(s[|s| - 1]) then TrimEnd(s[..|s| - 1]) else s
  }

  /**
   * `String.prototype.trim`: the text without leading and trailing whitespace.
   * The result is the slice `s[a..a + |r|]` where `a` is the length of the
   * leading whitespace run, and everything outside that slice is whitespace.
   */
  function Trim(s: seq<char>): (r: seq<char>)
    ensures r == [] <==> forall i :: 0 <= i < |s| ==> IsWhitespace(s[i])
    ensures r != [] ==> !IsWhitespace(r[0]) && !IsWhitespace(r[|r| - 1])
    ensures var a := RunLength(s, IsWhitespace);
            && a + |r| <= |s|
            && r == s[a..a + |r|]
            && forall i :: 0 <= i < |s| && !(a <= i < a + |r|) ==> IsWhitespace(s[i])
  {
    var a := RunLength(s, IsWhitespace);
    var t := TrimStart(s);
    var r := TrimEnd(t);
    assert t == s[a..];
    assert r == [] ==> t == [];
    assert forall i :: a + |r| <= i < |s| ==> s[i] == t[i - a];
    r
  }

  /** The `!text.trim()` guard rejects exactly the texts that have no words. */
  lemma TrimEmptyIffNoWords(s: seq<char>)
    ensures Trim(s) == [] <==> WordCount(s) == 0
  {
    WordCountZero(s);
  }

  lemma WordCountExamples()
    ensures WordCount("") == 0
    ensures WordCount("a b") == 2
    ensures WordCount(" \t\n") == 0
  {
    WordCountIsRunCount("");
    WordCountIsRunCount("a b");
    WordCountZero(" \t\n");
  }
}
