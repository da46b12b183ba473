/** Bytes of a UTF-8 JSON document and the leaf-level byte classifiers the
    scanners use. The structural bytes follow the lexical grammar of RFC 8259:
    insignificant whitespace (section 2), numbers (section 6) and strings with
    the backslash escape (section 7). */
module Bytes {

  /** One byte of the document, as an unsigned value. */
  newtype byte = b: int | 0 <= b < 256

  const DOUBLE_QUOTE: byte := 34
  const BACKSLASH: byte := 92
  const COLON: byte := 58
  const SPACE: byte := 32
  const TAB: byte := 9
  const LINE_FEED: byte := 10
  const CARRIAGE_RETURN: byte := 13
  const CURLY_BRACKET_OPEN: byte := 123
  const SQUARE_BRACKET_OPEN: byte := 91
  const ASTERISK: byte := 42
  const MINUS: byte := 45
  const PLUS: byte := 43
  const DOT: byte := 46
  const LOWER_E: byte := 101
  const UPPER_E: byte := 69

  predicate IsDoubleQuote(b: byte) { b == DOUBLE_QUOTE }

  predicate IsEscapeCharacter(b: byte) { b == BACKSLASH }

  predicate IsColon(b: byte) { b == COLON }

  /** Insignificant whitespace of RFC 8259 section 2. */
  predicate IsWhiteSpace(b: byte) {
    b == SPACE || b == TAB || b == LINE_FEED || b == CARRIAGE_RETURN
  }

  predicate IsDigit(b: byte) { 48 <= b <= 57 }

  /** A number of RFC 8259 section 6 starts with a minus or a digit. */
  predicate IsFirstNumberChar(b: byte) { b == MINUS || IsDigit(b) }

  /** Every byte that can occur inside a number of RFC 8259 section 6. */
  predicate IsNumericCharacter(b: byte) {
    IsDigit(b) || b == MINUS || b == PLUS || b == DOT || b == LOWER_E || b == UPPER_E
  }

  predicate IsAscii(s: seq<byte>) {
    forall k :: 0 <= k < |s| ==> s[k] < 128
  }

  /** `n` copies of the byte `b`. */
  function Fill(b: byte, n: nat): (r: seq<byte>)
    ensures |r| == n
    ensures forall k :: 0 <= k < n ==> r[k] == b
  {
    if n == 0 then [] else Fill(b, n - 1) + [b]
  }

  predicate AllAre(s: seq<byte>, b: byte) {
    forall k :: 0 <= k < |s| ==> s[k] == b
  }

  predicate AllWhiteSpace(s: seq<byte>) {
    forall k :: 0 <= k < |s| ==> IsWhiteSpace(s[k])
  }

  /** A string token: the bytes between two double quotes. */
  function Quote(s: seq<byte>): seq<byte> {
    [DOUBLE_QUOTE] + s + [DOUBLE_QUOTE]
  }

  predicate MatchesAt(s: seq<byte>, pat: seq<byte>, p: nat) {
    p + |pat| <= |s| && s[p..p + |pat|] == pat
  }

  /** `pat` occurs as a contiguous slice of `s`. */
  ghost predicate Occurs(pat: seq<byte>, s: seq<byte>) {
    exists p: nat :: MatchesAt(s, pat, p)
  }

  /** An occurrence in a prefix is an occurrence in the whole. */
  lemma OccursExtend(pat: seq<byte>, a: seq<byte>, b: seq<byte>)
    requires Occurs(pat, a)
    ensures Occurs(pat, a + b)
  {
    var p: nat :| MatchesAt(a, pat, p);
    assert (a + b)[p..p + |pat|] == a[p..p + |pat|];
    assert MatchesAt(a + b, pat, p);
  }

  /** A suffix that starts with `pat` makes `pat` occur in the whole. */
  lemma OccursAtJoin(pat: seq<byte>, a: seq<byte>, b: seq<byte>)
    requires |pat| <= |b| && b[..|pat|] == pat
    ensures Occurs(pat, a + b)
  {
    assert (a + b)[|a|..|a| + |pat|] == b[..|pat|];
    assert MatchesAt(a + b, pat, |a|);
  }

  /** What a masker hands back: the masked document, or the out-of-range read
      the Java code would have failed with on malformed input. */
  datatype Result<T> = Ok(value: T) | OutOfBounds

  datatype Option<T> = None | Some(value: T)
}
