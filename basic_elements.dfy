/**
 * `countBasicElements`: letters, words, spaces, newlines and special symbols.
 */
module BasicElements {
  import opened Chars
  import opened Words

  datatype BasicCounts = BasicCounts(letters: nat, words: nat, spaces: nat, newlines: nat, specialSymbols: nat)

  predicate IsSpace(c: char) {
    c == ' '
  }

  predicate IsNewline(c: char) {
    c == '\n'
  }

  /**
   * Not `\w`, not a space, not a newline: never a letter, and every
   * whitespace character other than space and line feed (tab, `'\r'`, ...).
   */
  predicate IsSpecialSymbol(c: char)
    ensures IsSpecialSymbol(c) ==> !IsAsciiLetter(c)
    ensures IsWhitespace(c) && c != ' ' && c != '\n' ==> IsSpecialSymbol(c)
  {
    !IsWordChar(c) && c != ' ' && c != '\n'
  }

  /** Digits and `_` are word characters but not letters: no counter takes them. */
  predicate IsUncounted(c: char) {
    IsAsciiDigit(c) || c == '_'
  }

  /** Number of characters of `s` that satisfy `p`. */
  function CountWhere(s: seq<char>, p: char -> bool): (n: nat)
    ensures n <= |s|
  {
    if s == [] then 0
    else CountWhere(s[..|s| - 1], p) + (if p(s[|s| - 1]) then 1 else 0)
  }

  /** The counts the analyzer reports for `text`, each stated on its own. */
  function BasicCountsOf(text: seq<char>): BasicCounts {
    BasicCounts(
      letters := CountWhere(text, IsAsciiLetter),
      words := WordCount(text),
      spaces := CountWhere(text, IsSpace),
      newlines := CountWhere(text, IsNewline),
      specialSymbols := CountWhere(text, IsSpecialSymbol))
  }

  /**
   * One pass over the text with the source's chain of tests, then the
   * whitespace split for `words`.
   */
  method CountBasicElements(text: seq<char>) returns (counts: BasicCounts)
    ensures counts == BasicCountsOf(text)
  {
    counts := BasicCounts(letters := 0, words := 0, spaces := 0, newlines := 0, specialSymbols := 0);
    for i := 0 to |text|
      invariant counts.letters == CountWhere(text[..i], IsAsciiLetter)
      invariant counts.spaces == CountWhere(text[..i], IsSpace)
      invariant counts.newlines == CountWhere(text[..i], IsNewline)
      invariant counts.specialSymbols == CountWhere(text[..i], IsSpecialSymbol)
      invariant counts.words == 0
    {
      assert text[..i + 1][..i] == text[..i];
      var ch := text[i];
      if IsAsciiLetter(ch) {
        counts := counts.(letters := counts.letters + 1);
      } else if ch == ' ' {
        counts := counts.(spaces := counts.spaces + 1);
      } else if ch == '\n' {
        counts := counts.(newlines := counts.newlines + 1);
      } else if !IsWordChar(ch) && ch != ' ' && ch != '\n' {
        counts := counts.(specialSymbols := counts.specialSymbols + 1);
      }
    }
    assert text[..|text|] == text;
    counts := counts.(words := WordCount(text));
  }

  /** Each character lands in exactly one of the four buckets or in none, the latter exactly for digits and `_`. */
  lemma BucketsPartitionChar(c: char)
    ensures (if IsAsciiLetter(c) then 1 else 0) + (if IsSpace(c) then 1 else 0)
          + (if IsNewline(c) then 1 else 0) + (if IsSpecialSymbol(c) then 1 else 0)
          + (if IsUncounted(c) then 1 else 0) == 1
  {
  }

  /** The four counters and the uncounted digits and underscores add up to the length of the text. */
  lemma {:induction false} BucketsPartition(s: seq<char>)
    ensures CountWhere(s, IsAsciiLetter) + CountWhere(s, IsSpace) + CountWhere(s, IsNewline)
          + CountWhere(s, IsSpecialSymbol) + CountWhere(s, IsUncounted) == |s|
  {
    if s != [] {
      BucketsPartition(s[..|s| - 1]);
      BucketsPartitionChar(s[|s| - 1]);
    }
  }

  /** No character is counted twice. */
  lemma BucketsBounded(text: seq<char>)
    ensures var c := BasicCountsOf(text);
            c.letters + c.spaces + c.newlines + c.specialSymbols <= |text|
  {
    BucketsPartition(text);
  }

  /** Digits, `_`, tab, carriage return and non-ASCII letters. */
  lemma BucketExamples()
    ensures BasicCountsOf("7_") == BasicCounts(0, 1, 0, 0, 0)
    ensures BasicCountsOf("\t\r") == BasicCounts(0, 0, 0, 0, 2)
    ensures BasicCountsOf("\U{00E9}") == BasicCounts(0, 1, 0, 0, 1)
  {
    WordCountIsRunCount("7_");
    WordCountZero("\t\r");
    WordCountIsRunCount("\U{00E9}");
  }

  lemma BasicCountsExamples()
    ensures BasicCountsOf("") == BasicCounts(0, 0, 0, 0, 0)
    ensures BasicCountsOf("a b") == BasicCounts(2, 2, 1, 0, 0)
  {
    WordCountExamples();
    assert "a b"[..2] == "a ";
    assert "a "[..1] == "a";
  }
}
