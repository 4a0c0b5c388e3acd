/**
 * Character classes used by the text analyzer.
 *
 * `[a-zA-Z]` and `\w` only ever accept ASCII characters. The `i` flag folds
 * case through upper-casing, which can map characters outside ASCII onto
 * each other, but without the `u` flag no character at or above U+0080 folds
 * onto an ASCII one, so a word made of ASCII word characters matches only
 * ASCII text. `\s` (and `String.prototype.trim`) accept the ECMAScript
 * WhiteSpace and LineTerminator characters.
 */
module Chars {

  /** `/[a-zA-Z]/`: ASCII only, and lower-casing maps every letter to `a`..`z`. */
  predicate IsAsciiLetter(c: char)
    ensures IsAsciiLetter(c) ==> c < '\U{0080}' && 'a' <= ToLower(c) <= 'z'
  {
    ('a' <= c <= 'z') || ('A' <= c <= 'Z')
  }

  predicate IsAsciiDigit(c: char) {
    '0' <= c <= '9'
  }

  predicate IsAsciiUpper(c: char) {
    'A' <= c <= 'Z'
  }

  /** `/\w/` without the `u` flag: `[A-Za-z0-9_]`, so every letter, nothing outside ASCII and no whitespace. */
  predicate IsWordChar(c: char)
    ensures IsAsciiLetter(c) ==> IsWordChar(c)
    ensures IsWordChar(c) ==> c < '\U{0080}' && !IsWhitespace(c)
  {
    IsAsciiLetter(c) || IsAsciiDigit(c) || c == '_'
  }

  /**
   * `/\s/`: the WhiteSpace characters of ECMAScript (tab, vertical tab,
   * form feed, the byte order mark and the Unicode space separators) and
   * its LineTerminator characters (line feed, carriage return, line
   * separator, paragraph separator).
   */
  predicate IsWhitespace(c: char)
  {
    || c == '\t' || c == '\n' || c == '\U{000B}' || c == '\U{000C}' || c == '\r'
    || c == ' ' || c == '\U{00A0}' || c == '\U{1680}'
    || ('\U{2000}' <= c <= '\U{200A}')
    || c == '\U{2028}' || c == '\U{2029}' || c == '\U{202F}' || c == '\U{205F}'
    || c == '\U{3000}' || c == '\U{FEFF}'
  }

  /** The ASCII whitespace: tab, line feed, vertical tab, form feed, carriage return and space. */
  lemma AsciiWhitespace(c: char)
    requires c < '\U{0080}'
    ensures IsWhitespace(c) <==> c in {'\t', '\n', '\U{000B}', '\U{000C}', '\r', ' '}
  {
  }

  /** `String.prototype.toLowerCase` restricted to ASCII, the only case folding a match can need. */
  function ToLower(c: char): (r: char)
    ensures IsAsciiUpper(c) ==> r as int == c as int + 32 && 'a' <= r <= 'z'
    ensures !IsAsciiUpper(c) ==> r == c
    ensures !IsAsciiUpper(r)
  {
    if IsAsciiUpper(c) then (c as int + 32) as char else c
  }

  function Lower(s: seq<char>): (r: seq<char>)
    ensures |r| == |s|
    ensures forall i :: 0 <= i < |s| ==> r[i] == ToLower(s[i])
  {
    if s == [] then [] else [ToLower(s[0])] + Lower(s[1..])
  }

  /** Case-insensitive comparison as the `i` flag performs it on ASCII text. */
  predicate EqualIgnoringCase(a: seq<char>, b: seq<char>) {
    Lower(a) == Lower(b)
  }

  lemma LowerIdempotent(s: seq<char>)
    ensures Lower(Lower(s)) == Lower(s)
  {
  }

  /** Lowering keeps word characters word characters and non-word characters non-word characters. */
  lemma ToLowerKeepsClass(c: char)
    ensures IsWordChar(ToLower(c)) == IsWordChar(c)
    ensures IsWhitespace(ToLower(c)) == IsWhitespace(c)
  {
  }
}
