/** The older single-key masker: it searches for the quoted target key, accepts
    it as a key only when spaces and then a colon follow, and overwrites the
    bytes of a string value with `*` in place, never changing the length and,
    with an obfuscation length set, stopping after that many bytes.

    The Java method works on a `String` and its UTF-8 bytes at once; on ASCII
    input the two index spaces coincide, which is the case modelled here. Every
    slice it searches is a fresh copy of the original string (on the first pass
    each byte is read before it is overwritten), so all reads see `input`. An
    obfuscation length of -1 means none is set. */
module JsonMasker {
  import opened Bytes

  /** The first index at or after `from` where `pat` occurs in `s`, or -1, as
      `String.indexOf` from that index. */
  function IndexOfFrom(s: seq<byte>, pat: seq<byte>, from: nat): (r: int)
    ensures r == -1 || (from <= r && MatchesAt(s, pat, r))
    ensures r == -1 ==> forall p: nat :: from <= p ==> !MatchesAt(s, pat, p)
    ensures r >= 0 ==> forall p: nat :: from <= p < r ==> !MatchesAt(s, pat, p)
    decreases |s| - from
  {
    if from + |pat| > |s| then -1
    else if s[from..from + |pat|] == pat then from
    else IndexOfFrom(s, pat, from + 1)
  }

  /** `String.indexOf`: the first occurrence of `pat` in `s`, or -1 if none. */
  function IndexOf(s: seq<byte>, pat: seq<byte>): (r: int)
    ensures r == -1 <==> !Occurs(pat, s)
    ensures r >= 0 ==> MatchesAt(s, pat, r) && forall p: nat :: p < r ==> !MatchesAt(s, pat, p)
  {
    IndexOfFrom(s, pat, 0)
  }

  /** A masked stretch of a string value: the target key at `keyAt`, its colon
      at `colonAt`, and the overwritten bytes `[start, end)`. */
  datatype Span = Span(keyAt: nat, colonAt: nat, start: nat, end: nat)

  /** The quoted target key at `keyAt`, spaces, a colon at `colonAt`, spaces,
      and the opening quote of a string value at `quoteAt`. */
  ghost predicate ValueHeader(input: seq<byte>, target: seq<byte>, keyAt: nat, colonAt: nat, quoteAt: nat) {
    && keyAt + |target| <= colonAt < quoteAt < |input|
    && MatchesAt(input, target, keyAt)
    && AllAre(input[keyAt + |target|..colonAt], SPACE)
    && input[colonAt] == COLON
    && AllAre(input[colonAt + 1..quoteAt], SPACE)
    && input[quoteAt] == DOUBLE_QUOTE
  }

  /** The masked bytes follow a header; they contain no double quote; and they
      run up to the closing quote, or stop after exactly `obfuscationLength`
      bytes. */
  ghost predicate ValidSpan(input: seq<byte>, target: seq<byte>, obfuscationLength: int, s: Span) {
    && 1 <= s.start <= s.end <= |input|
    && ValueHeader(input, target, s.keyAt, s.colonAt, s.start - 1)
    && (forall p :: s.start <= p < s.end ==> input[p] != DOUBLE_QUOTE)
    && (obfuscationLength >= 0 ==> s.end - s.start <= obfuscationLength)
    && ((s.end < |input| && input[s.end] == DOUBLE_QUOTE)
        || (obfuscationLength >= 0 && s.end - s.start == obfuscationLength))
  }

  ghost predicate Covered(spans: seq<Span>, p: int)
    decreases |spans|
  {
    |spans| > 0 &&
    (Covered(spans[..|spans| - 1], p) || spans[|spans| - 1].start <= p < spans[|spans| - 1].end)
  }

  /** Every overwritten byte lies after an occurrence of the target key. */
  lemma {:induction false} CoveredAfterKey(input: seq<byte>, target: seq<byte>, obfuscationLength: int,
                                           spans: seq<Span>, p: nat)
    requires forall s :: s in spans ==> ValidSpan(input, target, obfuscationLength, s)
    requires Covered(spans, p)
    ensures p <= |input| && Occurs(target, input[..p])
    decreases |spans|
  {
    var last := spans[|spans| - 1];
    if last.start <= p < last.end {
      assert ValidSpan(input, target, obfuscationLength, last);
      assert input[..p][last.keyAt..last.keyAt + |target|] == input[last.keyAt..last.keyAt + |target|];
      assert MatchesAt(input[..p], target, last.keyAt);
    } else {
      CoveredAfterKey(input, target, obfuscationLength, spans[..|spans| - 1], p);
    }
  }

  /** A slice of the suffix `input[j..]` is the shifted slice of `input`. */
  lemma SuffixSlice(input: seq<byte>, j: nat, a: nat, b: nat)
    requires j + b <= |input| && a <= b
    ensures input[j..][a..b] == input[j + a..j + b]
  {
  }

  /** A header found in the suffix `input[j..]` is a header of `input`. */
  lemma HeaderFromSlice(input: seq<byte>, target: seq<byte>, j: nat, keyAt: nat, colonAt: nat, quoteAt: nat)
    requires j <= |input|
    requires keyAt + |target| <= colonAt < quoteAt < |input| - j
    requires MatchesAt(input[j..], target, keyAt)
    requires AllAre(input[j..][keyAt + |target|..colonAt], SPACE)
    requires input[j..][colonAt] == COLON
    requires AllAre(input[j..][colonAt + 1..quoteAt], SPACE)
    requires input[j..][quoteAt] == DOUBLE_QUOTE
    ensures ValueHeader(input, target, j + keyAt, j + colonAt, j + quoteAt)
  {
    SuffixSlice(input, j, keyAt, keyAt + |target|);
    SuffixSlice(input, j, keyAt + |target|, colonAt);
    SuffixSlice(input, j, colonAt + 1, quoteAt);
  }

  /** Appending a span covers exactly its bytes in addition. */
  lemma CoveredAppend(spans: seq<Span>, span: Span, p: int)
    ensures Covered(spans + [span], p) <==> Covered(spans, p) || span.start <= p < span.end
  {
    assert (spans + [span])[..|spans|] == spans;
  }

  /** A match in the suffix `input[j..]` is a match in `input`. */
  lemma OccursInSuffix(input: seq<byte>, target: seq<byte>, j: nat, p: nat)
    requires j <= |input| && MatchesAt(input[j..], target, p)
    ensures MatchesAt(input, target, j + p) && Occurs(target, input)
  {
    SuffixSlice(input, j, p, p + |target|);
    assert MatchesAt(input, target, j + p);
  }

  /** `out` is `input` with the bytes of `spans` overwritten by `*`. */
  ghost predicate MaskedBy(input: seq<byte>, out: seq<byte>, spans: seq<Span>) {
    && |out| == |input|
    && forall p :: 0 <= p < |input| ==> out[p] == if Covered(spans, p) then ASTERISK else input[p]
  }

  ghost predicate AllSpansValid(input: seq<byte>, target: seq<byte>, obfuscationLength: int, spans: seq<Span>) {
    forall s :: s in spans ==> ValidSpan(input, target, obfuscationLength, s)
  }

  /** The masking loop over a string value whose first byte is at `start`
      reads past the end of the input: no double quote follows, and an
      obfuscation length, if set, is not reached before the end. */
  ghost predicate UnterminatedValue(input: seq<byte>, obfuscationLength: int, start: nat) {
    && (forall q :: start <= q < |input| ==> input[q] != DOUBLE_QUOTE)
    && !(0 <= obfuscationLength && start + obfuscationLength < |input|)
  }

  /** The masking loop over one string value whose first byte is at `start` of
      the slice `input[j..]`: bytes become `*` until the closing quote, or until
      `obfuscationLength` of them are masked. Fails exactly when neither comes
      before the end. `end` is where masking stopped; the cursor `i` steps one byte further
      when it stopped at the obfuscation length. */
  method MaskStringValue(obfuscationLength: int, input: seq<byte>, inputBytes: seq<byte>, ghost spans: seq<Span>,
                         j: nat, start: nat)
    returns (ok: bool, next: seq<byte>, i: nat, ghost end: nat)
    requires j + start <= |input| && MaskedBy(input, inputBytes, spans)
    ensures !ok <==> UnterminatedValue(input, obfuscationLength, j + start)
    ensures ok ==>
      && start <= end < |input| - j
      && (forall q :: j + start <= q < j + end ==> input[q] != DOUBLE_QUOTE)
      && (obfuscationLength >= 0 ==> end - start <= obfuscationLength)
      && (input[j + end] == DOUBLE_QUOTE || (obfuscationLength >= 0 && end - start == obfuscationLength))
      && i == (if input[j + end] == DOUBLE_QUOTE then end else end + 1)
      && |next| == |input|
      && forall p :: 0 <= p < |input| ==>
           next[p] == if Covered(spans, p) || j + start <= p < j + end then ASTERISK else input[p]
  {
    var inputSlice := input[j..];
    next := inputBytes;
    i := start;
    var k := 0; // bytes masked so far
    while i < |inputSlice| && inputSlice[i] != DOUBLE_QUOTE && !(obfuscationLength != -1 && k == obfuscationLength)
      invariant start <= i <= |inputSlice|
      invariant k == i - start
      invariant obfuscationLength >= 0 ==> k <= obfuscationLength
      invariant forall q :: j + start <= q < j + i ==> input[q] != DOUBLE_QUOTE
      invariant |next| == |input|
      invariant forall p :: 0 <= p < |input| ==>
                  next[p] == if Covered(spans, p) || j + start <= p < j + i then ASTERISK else input[p]
      decreases |inputSlice| - i
    {
      next := next[i + j := ASTERISK];
      k := k + 1;
      i := i + 1;
    }
    if i == |inputSlice| {
      // inputSliceBytes[i] is read past the end
      return false, inputBytes, 0, 0;
    }
    end := i;
    if inputSlice[i] != DOUBLE_QUOTE {
      i := i + 1; // the obfuscation length was reached
    }
    ok := true;
  }

  /** The first index from `from` on that is the end or not a space (0x20). */
  method SkipSpaces(s: seq<byte>, from: nat) returns (at: nat)
    requires from <= |s|
    ensures from <= at <= |s|
    ensures AllAre(s[from..at], SPACE)
    ensures at < |s| ==> s[at] != SPACE
  {
    at := from;
    while at < |s| && s[at] == SPACE
      invariant from <= at <= |s|
      invariant AllAre(s[from..at], SPACE)
      decreases |s| - at
    {
      assert s[from..at + 1] == s[from..at] + [SPACE];
      at := at + 1;
    }
  }

  /** What one pass of the outer loop ends in. */
  datatype Outcome = Continue | NoMoreKey | Fail

  /** What the search for the next key finds in the slice. */
  datatype Found = Absent | NotAStringValue | StringValue

  /** A byte that is not a space, with only spaces between `from` and it, is
      the first one `SkipSpaces` stops at. */
  lemma FirstNonSpace(s: seq<byte>, from: nat, at: nat, x: nat)
    requires from <= at <= |s| && AllAre(s[from..at], SPACE) && (at < |s| ==> s[at] != SPACE)
    requires from <= x < |s| && AllAre(s[from..x], SPACE) && s[x] != SPACE
    ensures x == at
  {
  }

  /** `FirstNonSpace` for a `SkipSpaces` run over the slice `input[j..]`,
      stated in the indices of `input`. */
  lemma FirstNonSpaceInSlice(input: seq<byte>, j: nat, from: nat, at: nat, x: nat)
    requires j <= |input| && from <= at <= |input| - j
    requires AllAre(input[j..][from..at], SPACE) && (at < |input| - j ==> input[j..][at] != SPACE)
    requires j + from <= x < |input| && AllAre(input[j + from..x], SPACE) && input[x] != SPACE
    ensures x == j + at
  {
    SuffixSlice(input, j, from, at);
    FirstNonSpace(input, j + from, j + at, x);
  }

  /** Where the next pass starts, `r` in indices of `input`, after the key at
      `keyAt` when no string value follows it: at the first byte after the
      spaces that is not a colon; one past the end when only spaces follow the
      key; or, after the colon and more spaces, at the first byte that is not
      an opening quote, or at the end. */
  ghost predicate NotStringResume(input: seq<byte>, target: seq<byte>, keyAt: nat, r: nat) {
    && keyAt + |target| <= |input| && keyAt + |target| <= r
    && (|| (r < |input| && AllAre(input[keyAt + |target|..r], SPACE) && input[r] != SPACE && input[r] != COLON)
        || (r == |input| + 1 && AllAre(input[keyAt + |target|..], SPACE))
        || exists colonAt: nat ::
             && keyAt + |target| <= colonAt < r <= |input|
             && AllAre(input[keyAt + |target|..colonAt], SPACE) && input[colonAt] == COLON
             && AllAre(input[colonAt + 1..r], SPACE)
             && (r < |input| ==> input[r] != SPACE && input[r] != DOUBLE_QUOTE))
  }

  /** The search part of one pass over the slice `input[j..]`: find the target
      key, require spaces and then a colon after it, skip spaces, and look for
      the opening quote of a string value. `i` is the cursor in the slice: on a
      string value it is the position of the opening quote. Running out of
      slice before the colon still steps over the missing colon. Only the first
      occurrence of the key in the slice is looked at, and a string value is
      reported exactly when a header follows that occurrence. */
  method LocateValue(target: seq<byte>, input: seq<byte>, j: nat)
    returns (found: Found, i: nat, ghost keyAt: nat, ghost colonAt: nat)
    requires j <= |input|
    ensures found == Absent <==> !Occurs(target, input[j..])
    ensures found != Absent ==> Occurs(target, input) && |target| <= i && j + i <= |input| + 1
    ensures found != Absent ==> keyAt == j + IndexOf(input[j..], target) && MatchesAt(input, target, keyAt)
    ensures found == StringValue ==> j + i < |input| && ValueHeader(input, target, keyAt, colonAt, j + i)
    ensures found != Absent ==>
      forall c: nat, q: nat :: ValueHeader(input, target, keyAt, c, q) ==> found == StringValue && c == colonAt && q == j + i
    ensures j + i == |input| + 1 ==> found == NotAStringValue && AllAre(input[keyAt + |target|..], SPACE)
    ensures found == NotAStringValue ==> NotStringResume(input, target, keyAt, j + i)
  {
    var inputSlice := input[j..];
    var startIndexOfTargetKey := IndexOf(inputSlice, target);
    if startIndexOfTargetKey == -1 {
      return Absent, 0, 0, 0; // no further occurrence of the target key
    }
    keyAt := j + startIndexOfTargetKey;
    OccursInSuffix(input, target, j, startIndexOfTargetKey);
    found, i, colonAt := LocateColon(target, input, j, startIndexOfTargetKey, keyAt);
  }

  /** The part of `LocateValue` after the target key found at `start` of the
      slice `input[j..]`: spaces and then a colon must follow. */
  method LocateColon(target: seq<byte>, input: seq<byte>, j: nat, start: nat, ghost keyAt: nat)
    returns (found: Found, i: nat, ghost colonAt: nat)
    requires keyAt == j + start && MatchesAt(input, target, keyAt)
    ensures found != Absent && start + |target| <= i && j + i <= |input| + 1
    ensures found == StringValue ==> j + i < |input| && ValueHeader(input, target, keyAt, colonAt, j + i)
    ensures forall c: nat, q: nat :: ValueHeader(input, target, keyAt, c, q) ==>
              found == StringValue && c == colonAt && q == j + i
    ensures j + i == |input| + 1 ==> found == NotAStringValue && AllAre(input[keyAt + |target|..], SPACE)
    ensures found == NotAStringValue ==> NotStringResume(input, target, keyAt, j + i)
  {
    var inputSlice := input[j..];
    i := SkipSpaces(inputSlice, start + |target|);
    forall c: nat, q: nat | ValueHeader(input, target, keyAt, c, q)
      ensures c == j + i
    {
      FirstNonSpaceInSlice(input, j, start + |target|, i, c);
    }
    SuffixSlice(input, j, start + |target|, i);
    if i < |inputSlice| && inputSlice[i] != COLON {
      found, colonAt := NotAStringValue, 0; // not a JSON key
    } else {
      colonAt := j + i;
      found, i := LocateAfterColon(target, input, j, keyAt, i);
      if j + i == |input| + 1 {
        assert input[keyAt + |target|..] == input[keyAt + |target|..colonAt];
      } else if found == NotAStringValue {
        assert j + i < |input| ==> input[j + i] != SPACE && input[j + i] != DOUBLE_QUOTE;
      }
    }
  }

  /** The part of `LocateValue` after the spaces that follow the key at
      `keyAt`: the colon is at `colon` in the slice, or the slice ended there. */
  method LocateAfterColon(target: seq<byte>, input: seq<byte>, j: nat, ghost keyAt: nat, colon: nat)
    returns (found: Found, i: nat)
    requires j + colon <= |input| && keyAt + |target| <= j + colon && MatchesAt(input, target, keyAt)
    requires AllAre(input[keyAt + |target|..j + colon], SPACE)
    requires j + colon < |input| ==> input[j + colon] == COLON
    requires forall c: nat, q: nat :: ValueHeader(input, target, keyAt, c, q) ==> c == j + colon
    ensures found != Absent && colon < i && j + i <= |input| + 1
    ensures found == StringValue ==> j + i < |input| && ValueHeader(input, target, keyAt, j + colon, j + i)
    ensures forall c: nat, q: nat :: ValueHeader(input, target, keyAt, c, q) ==> found == StringValue && q == j + i
    ensures j + i == |input| + 1 ==> found == NotAStringValue && j + colon == |input|
    ensures found == NotAStringValue && j + i <= |input| ==>
      && j + colon < |input| && AllAre(input[j + colon + 1..j + i], SPACE)
      && (j + i < |input| ==> input[j + i] != SPACE && input[j + i] != DOUBLE_QUOTE)
  {
    var inputSlice := input[j..];
    i := colon + 1; // step over the colon
    if i <= |inputSlice| {
      i := SkipSpaces(inputSlice, i);
      forall c: nat, q: nat | ValueHeader(input, target, keyAt, c, q)
        ensures q == j + i
      {
        FirstNonSpaceInSlice(input, j, colon + 1, i, q);
      }
    }
    if i <= |inputSlice| {
      SuffixSlice(input, j, colon + 1, i);
    }
    if i < |inputSlice| && inputSlice[i] == DOUBLE_QUOTE {
      found := StringValue;
    } else {
      found := NotAStringValue;
    }
  }

  /** A stretch masked after a header extends the spans: the output is masked
      by one more valid span. */
  lemma SpanAppended(input: seq<byte>, target: seq<byte>, obfuscationLength: int, spans: seq<Span>, span: Span,
                     next: seq<byte>, spans': seq<Span>)
    requires AllSpansValid(input, target, obfuscationLength, spans)
    requires 1 <= span.start <= span.end < |input|
    requires ValueHeader(input, target, span.keyAt, span.colonAt, span.start - 1)
    requires forall q :: span.start <= q < span.end ==> input[q] != DOUBLE_QUOTE
    requires obfuscationLength >= 0 ==> span.end - span.start <= obfuscationLength
    requires input[span.end] == DOUBLE_QUOTE || (obfuscationLength >= 0 && span.end - span.start == obfuscationLength)
    requires |next| == |input|
    requires forall p :: 0 <= p < |input| ==>
               next[p] == if Covered(spans, p) || span.start <= p < span.end then ASTERISK else input[p]
    requires spans' == spans + [span]
    ensures MaskedBy(input, next, spans') && AllSpansValid(input, target, obfuscationLength, spans')
  {
    assert ValidSpan(input, target, obfuscationLength, span);
    forall p | 0 <= p < |input|
      ensures next[p] == if Covered(spans', p) then ASTERISK else input[p]
    {
      CoveredAppend(spans, span, p);
    }
  }

  /** One pass of the outer loop over the slice `input[j..]`: locate the next
      key-value pair of the target key and mask a string value. `i` is the
      cursor in the slice where the next pass starts. Only the first occurrence
      of the key in the slice, at `keyAt`, is looked at: when a header of a
      string value follows it, that value is masked or the pass fails. */
  method MaskPass(target: seq<byte>, obfuscationLength: int, input: seq<byte>, inputBytes: seq<byte>,
                  ghost spans: seq<Span>, j: nat)
    returns (outcome: Outcome, next: seq<byte>, i: nat, ghost spans': seq<Span>, ghost keyAt: nat)
    requires j <= |input|
    requires MaskedBy(input, inputBytes, spans) && AllSpansValid(input, target, obfuscationLength, spans)
    ensures outcome == NoMoreKey <==> !Occurs(target, input[j..])
    ensures outcome != NoMoreKey ==>
      && Occurs(target, input)
      && keyAt == j + IndexOf(input[j..], target)
      && MatchesAt(input, target, keyAt)
    ensures outcome == Fail ==>
      exists c: nat, q: nat :: ValueHeader(input, target, keyAt, c, q) && UnterminatedValue(input, obfuscationLength, q + 1)
    ensures outcome != NoMoreKey ==>
      forall c: nat, q: nat :: ValueHeader(input, target, keyAt, c, q) ==>
        && (outcome == Fail <==> UnterminatedValue(input, obfuscationLength, q + 1))
        && (outcome == Continue ==>
              && |spans'| == |spans| + 1 && spans'[..|spans|] == spans
              && spans'[|spans|].keyAt == keyAt && spans'[|spans|].colonAt == c && spans'[|spans|].start == q + 1
              && spans'[|spans|].end < |input|
              && j + i == if input[spans'[|spans|].end] == DOUBLE_QUOTE then spans'[|spans|].end
                          else spans'[|spans|].end + 1)
    ensures outcome == Continue && !(exists c: nat, q: nat :: ValueHeader(input, target, keyAt, c, q)) ==>
              next == inputBytes && spans' == spans && NotStringResume(input, target, keyAt, j + i)
    ensures outcome == Continue ==>
      && |target| <= i && j + i <= |input| + 1
      && MaskedBy(input, next, spans') && AllSpansValid(input, target, obfuscationLength, spans')
      && (forall s :: s in spans ==> s in spans')
    ensures outcome == Continue && j + i == |input| + 1 ==> AllAre(input[keyAt + |target|..], SPACE)
  {
    var found, at;
    ghost var colonAt;
    found, at, keyAt, colonAt := LocateValue(target, input, j);
    if found == Absent {
      outcome, next, i, spans' := NoMoreKey, inputBytes, 0, spans;
    } else if found == NotAStringValue {
      outcome, next, i, spans' := Continue, inputBytes, at, spans;
    } else {
      outcome, next, i, spans' := MaskFoundValue(target, obfuscationLength, input, inputBytes, spans, j, at,
                                                 keyAt, colonAt);
    }
  }

  /** The masking half of `MaskPass`, for the string value whose opening
      quote is at `at` in the slice `input[j..]`, after the one header that
      follows the key at `keyAt`. */
  method MaskFoundValue(target: seq<byte>, obfuscationLength: int, input: seq<byte>, inputBytes: seq<byte>,
                        ghost spans: seq<Span>, j: nat, at: nat, ghost keyAt: nat, ghost colonAt: nat)
    returns (outcome: Outcome, next: seq<byte>, i: nat, ghost spans': seq<Span>)
    requires |target| <= at && j + at < |input| && ValueHeader(input, target, keyAt, colonAt, j + at)
    requires forall c: nat, q: nat :: ValueHeader(input, target, keyAt, c, q) ==> c == colonAt && q == j + at
    requires MaskedBy(input, inputBytes, spans) && AllSpansValid(input, target, obfuscationLength, spans)
    ensures outcome != NoMoreKey
    ensures outcome == Fail ==> UnterminatedValue(input, obfuscationLength, j + at + 1)
    ensures forall c: nat, q: nat :: ValueHeader(input, target, keyAt, c, q) ==>
      && (outcome == Fail <==> UnterminatedValue(input, obfuscationLength, q + 1))
      && (outcome == Continue ==>
            && |spans'| == |spans| + 1 && spans'[..|spans|] == spans
            && spans'[|spans|].keyAt == keyAt && spans'[|spans|].colonAt == c && spans'[|spans|].start == q + 1
            && spans'[|spans|].end < |input|
            && j + i == if input[spans'[|spans|].end] == DOUBLE_QUOTE then spans'[|spans|].end
                        else spans'[|spans|].end + 1)
    ensures outcome == Continue ==>
      && |target| <= i && j + i <= |input|
      && MaskedBy(input, next, spans') && AllSpansValid(input, target, obfuscationLength, spans')
      && (forall s :: s in spans ==> s in spans')
  {
    var ok, masked, after, end := MaskStringValue(obfuscationLength, input, inputBytes, spans, j, at + 1);
    if !ok {
      outcome, next, i, spans' := Fail, inputBytes, 0, spans;
    } else {
      ghost var span := Span(keyAt, colonAt, j + (at + 1), j + end);
      outcome, next, i, spans' := Continue, masked, after, spans + [span];
      SpanAppended(input, target, obfuscationLength, spans, span, next, spans');
      MaskedPassSpan(input, target, obfuscationLength, spans, j, keyAt, colonAt, at, end, i, spans');
    }
  }

  /** The span a masking pass adds belongs to the one header after the key,
      and the next pass starts at the closing quote or one byte after the
      last masked one. */
  lemma MaskedPassSpan(input: seq<byte>, target: seq<byte>, obfuscationLength: int, spans: seq<Span>, j: nat,
                       keyAt: nat, colonAt: nat, at: nat, end: nat, i: nat, spans': seq<Span>)
    requires forall c: nat, q: nat :: ValueHeader(input, target, keyAt, c, q) ==> c == colonAt && q == j + at
    requires !UnterminatedValue(input, obfuscationLength, j + at + 1)
    requires j + end < |input| && i == (if input[j + end] == DOUBLE_QUOTE then end else end + 1)
    requires spans' == spans + [Span(keyAt, colonAt, j + (at + 1), j + end)]
    ensures forall s :: s in spans ==> s in spans'
    ensures forall c: nat, q: nat :: ValueHeader(input, target, keyAt, c, q) ==>
      && !UnterminatedValue(input, obfuscationLength, q + 1)
      && |spans'| == |spans| + 1 && spans'[..|spans|] == spans
      && spans'[|spans|].keyAt == keyAt && spans'[|spans|].colonAt == c && spans'[|spans|].start == q + 1
      && spans'[|spans|].end < |input|
      && j + i == if input[spans'[|spans|].end] == DOUBLE_QUOTE then spans'[|spans|].end
                  else spans'[|spans|].end + 1
  {
    assert spans'[..|spans|] == spans;
  }

  /** The string value after the first occurrence of the target key, when a
      header of one follows that occurrence, is masked by a span. */
  ghost predicate FirstValueMasked(input: seq<byte>, target: seq<byte>, spans: seq<Span>) {
    Occurs(target, input) ==>
      forall colonAt: nat, quoteAt: nat :: ValueHeader(input, target, IndexOf(input, target), colonAt, quoteAt) ==>
        exists s :: s in spans && s.keyAt == IndexOf(input, target) && s.colonAt == colonAt && s.start == quoteAt + 1
  }

  /** Adding spans keeps the first value masked. */
  lemma FirstValueMaskedGrows(input: seq<byte>, target: seq<byte>, spans: seq<Span>, spans': seq<Span>)
    requires FirstValueMasked(input, target, spans)
    requires forall s :: s in spans ==> s in spans'
    ensures FirstValueMasked(input, target, spans')
  {
    if Occurs(target, input) {
      var keyAt := IndexOf(input, target);
      forall colonAt: nat, quoteAt: nat | ValueHeader(input, target, keyAt, colonAt, quoteAt)
        ensures exists s :: s in spans' && s.keyAt == keyAt && s.colonAt == colonAt && s.start == quoteAt + 1
      {
        var s :| s in spans && s.keyAt == keyAt && s.colonAt == colonAt && s.start == quoteAt + 1;
        assert s in spans';
      }
    }
  }

  /** The first pass masks the value after the first occurrence of the key. */
  lemma FirstPassMasks(input: seq<byte>, target: seq<byte>, spans: seq<Span>, spans': seq<Span>, keyAt: nat)
    requires Occurs(target, input) && keyAt == IndexOf(input, target)
    requires forall c: nat, q: nat :: ValueHeader(input, target, keyAt, c, q) ==>
               && |spans'| == |spans| + 1
               && spans'[|spans|].keyAt == keyAt && spans'[|spans|].colonAt == c && spans'[|spans|].start == q + 1
    ensures FirstValueMasked(input, target, spans')
  {
    forall c: nat, q: nat | ValueHeader(input, target, keyAt, c, q)
      ensures exists s :: s in spans' && s.keyAt == keyAt && s.colonAt == c && s.start == q + 1
    {
      assert spans'[|spans|] in spans';
    }
  }

  /** Where the single-key masker reads past the end of the input: only
      spaces follow an occurrence of the key, or a string value after a header
      has no end. */
  ghost predicate ReadsPastEnd(input: seq<byte>, target: seq<byte>, obfuscationLength: int) {
    || (exists keyAt: nat :: MatchesAt(input, target, keyAt) && AllAre(input[keyAt + |target|..], SPACE))
    || (exists keyAt: nat, colonAt: nat, quoteAt: nat ::
          ValueHeader(input, target, keyAt, colonAt, quoteAt) && UnterminatedValue(input, obfuscationLength, quoteAt + 1))
  }

  /** A pass that continued keeps the first value masked, and a cursor one
      past the end means only spaces followed the key. */
  lemma ContinuedPass(input: seq<byte>, target: seq<byte>, obfuscationLength: int, spans: seq<Span>,
                      spans': seq<Span>, j: nat, i: nat, keyAt: nat)
    requires j <= |input| && (j != 0 ==> FirstValueMasked(input, target, spans))
    requires keyAt == j + IndexOf(input[j..], target) && MatchesAt(input, target, keyAt)
    requires forall c: nat, q: nat :: ValueHeader(input, target, keyAt, c, q) ==>
               && |spans'| == |spans| + 1
               && spans'[|spans|].keyAt == keyAt && spans'[|spans|].colonAt == c && spans'[|spans|].start == q + 1
    requires forall s :: s in spans ==> s in spans'
    requires j + i == |input| + 1 ==> AllAre(input[keyAt + |target|..], SPACE)
    ensures FirstValueMasked(input, target, spans')
    ensures j + i == |input| + 1 ==> ReadsPastEnd(input, target, obfuscationLength)
  {
    if j == 0 {
      assert input[j..] == input;
      FirstPassMasks(input, target, spans, spans', keyAt);
    } else {
      FirstValueMaskedGrows(input, target, spans, spans');
    }
  }

  /** One pass of the outer loop from the slice start `j`, with the loop's
      invariant carried across it: the pieces of the invariant that `MaskPass`
      establishes on its own terms are restated here for the whole input. */
  method MainLoopPass(target: seq<byte>, obfuscationLength: int, input: seq<byte>, inputBytes: seq<byte>,
                      ghost spans: seq<Span>, j: nat)
    returns (outcome: Outcome, next: seq<byte>, i: nat, ghost spans': seq<Span>)
    requires j <= |input|
    requires MaskedBy(input, inputBytes, spans) && AllSpansValid(input, target, obfuscationLength, spans)
    requires j != 0 ==> FirstValueMasked(input, target, spans)
    ensures outcome == NoMoreKey ==> FirstValueMasked(input, target, spans)
    ensures outcome == Fail ==> ReadsPastEnd(input, target, obfuscationLength)
    ensures outcome == Continue ==>
      && |target| <= i && j + i <= |input| + 1
      && Occurs(target, input)
      && MaskedBy(input, next, spans') && AllSpansValid(input, target, obfuscationLength, spans')
      && FirstValueMasked(input, target, spans')
      && (j + i == |input| + 1 ==> ReadsPastEnd(input, target, obfuscationLength))
  {
    ghost var keyAt;
    outcome, next, i, spans', keyAt := MaskPass(target, obfuscationLength, input, inputBytes, spans, j);
    if outcome == NoMoreKey {
      if j == 0 {
        assert input[j..] == input;
      }
    } else if outcome == Fail {
      ghost var c: nat, q: nat :| ValueHeader(input, target, keyAt, c, q) && UnterminatedValue(input, obfuscationLength, q + 1);
      assert ReadsPastEnd(input, target, obfuscationLength);
    } else {
      ContinuedPass(input, target, obfuscationLength, spans, spans', j, i, keyAt);
    }
  }

  /** Masks the string values of the target key `targetKey`. The ghost `spans`
      lists the stretches overwritten with `*`; every other byte is the
      input's. */
  method MaskValuesOfTargetKey(targetKey: seq<byte>, obfuscationLength: int, input: seq<byte>)
    returns (r: Result<seq<byte>>, ghost spans: seq<Span>)
    requires IsAscii(input) && IsAscii(targetKey)
    ensures |input| <= |targetKey| + 3 ==> r == Ok(input)
    ensures !Occurs(Quote(targetKey), input) ==> r == Ok(input)
    ensures r.Ok? ==>
      && |r.value| == |input|
      && (forall p :: 0 <= p < |input| ==> r.value[p] == if Covered(spans, p) then ASTERISK else input[p])
      && (forall s :: s in spans ==> ValidSpan(input, Quote(targetKey), obfuscationLength, s))
    ensures r.Ok? ==>
      forall p :: 0 <= p < |input| && r.value[p] != input[p] ==> Occurs(Quote(targetKey), input[..p])
    ensures r.Ok? ==> FirstValueMasked(input, Quote(targetKey), spans)
    ensures r == OutOfBounds ==> ReadsPastEnd(input, Quote(targetKey), obfuscationLength)
  {
    var target := Quote(targetKey);
    var targetKeyLength := |targetKey| + 2;
    var inputBytes := input;
    var i: nat := 0; // index into the current slice
    var j: nat := 0; // start of the current slice in the input
    spans := [];
    while j < |inputBytes| - targetKeyLength - 1
      invariant j + i <= |input| + 1
      invariant MaskedBy(input, inputBytes, spans)
      invariant AllSpansValid(input, target, obfuscationLength, spans)
      invariant (i == 0 && j == 0 && inputBytes == input) || Occurs(target, input)
      invariant |input| <= targetKeyLength + 1 ==> inputBytes == input
      invariant j + i == |input| + 1 ==> ReadsPastEnd(input, target, obfuscationLength)
      invariant !(i == 0 && j == 0) ==> FirstValueMasked(input, target, spans)
      decreases |input| + 1 - (j + i)
    {
      j := j + i;
      if j > |input| {
        // input.substring(j) is out of range
        return OutOfBounds, spans;
      }
      var outcome, next, i', spans' := MainLoopPass(target, obfuscationLength, input, inputBytes, spans, j);
      if outcome == NoMoreKey {
        break;
      }
      if outcome == Fail {
        return OutOfBounds, spans;
      }
      inputBytes, i, spans := next, i', spans';
    }
    r := Ok(inputBytes);
    forall p | 0 <= p < |input| && inputBytes[p] != input[p]
      ensures Occurs(target, input[..p])
    {
      CoveredAfterKey(input, target, obfuscationLength, spans, p);
    }
  }
}
