/** The single-pass key-contains masker: it walks a UTF-8 JSON buffer without
    parsing it, takes a quoted token followed by optional whitespace and a colon
    as a key, and, when the key is a target key and its value is a string (or,
    with number masking, a number), overwrites the value with mask bytes,
    splicing it to a new length where the configuration asks for one.

    The Java method mutates its array in place and reassigns it on a splice; here
    the buffer is an immutable sequence rebound after every write. Every read the
    Java code would make past the end of the array becomes `OutOfBounds`. */
module KeyContains {
  import opened Bytes
  import opened FixedLength
  import opened Escape

  /** The closing quote of a key lies at least this many bytes before the end,
      as in the smallest maskable object `{"":""}`. */
  const MIN_OFFSET_JSON_KEY_QUOTE: nat := 4

  /** The masking configuration as the scanner consults it: whether numbers are
      masked and with which byte, and the optional fixed obfuscation length.
      Strings are always masked with `*`. */
  datatype Config = Config(maskNumbers: bool, numberMask: byte, obfuscationLength: Option<nat>)

  /** A double quote whose preceding byte is not an escape character. Only
      called from index 1 on, so the preceding byte always exists. */
  predicate IsUnescapedDoubleQuote(buf: seq<byte>, i: nat)
    requires 1 <= i < |buf|
  {
    IsDoubleQuote(buf[i]) && !IsEscapeCharacter(buf[i - 1])
  }

  predicate IsObjectOrArray(buf: seq<byte>)
    requires |buf| > 0
  {
    buf[0] == CURLY_BRACKET_OPEN || buf[0] == SQUARE_BRACKET_OPEN
  }

  /** For a quote at `q` inside the string opened at `quoteAt`, the one-byte
      look-behind takes it as unescaped exactly when the bytes before it end
      in no escape character; so a quote JSON escapes (an odd run before it)
      is never taken as unescaped. */
  lemma UnescapedQuoteByTrailingRun(buf: seq<byte>, quoteAt: nat, q: nat)
    requires quoteAt < q < |buf| && IsDoubleQuote(buf[quoteAt]) && IsDoubleQuote(buf[q])
    ensures IsUnescapedDoubleQuote(buf, q) <==> TrailingEscapes(buf[quoteAt + 1..q]) == 0
    ensures TrailingEscapes(buf[quoteAt + 1..q]) % 2 == 1 ==> !IsUnescapedDoubleQuote(buf, q)
  {
  }

  /** Whether the masker looks inside the input at all depends on its first
      byte only: an input that starts with whitespace, a quote or a number
      is not an object or array, whatever follows. */
  lemma ObjectOrArrayByFirstByte(buf: seq<byte>, rest: seq<byte>)
    requires |buf| > 0
    ensures IsObjectOrArray(buf + rest) == IsObjectOrArray(buf)
    ensures IsWhiteSpace(buf[0]) || IsDoubleQuote(buf[0]) || IsFirstNumberChar(buf[0]) ==> !IsObjectOrArray(buf)
  {
  }

  /** Length a masked number ends up with: its own length without obfuscation,
      else the obfuscation length, except that 0 becomes 1 because an empty
      number is not JSON. */
  function NumberLength(cfg: Config, actual: nat): nat {
    match cfg.obfuscationLength
    case None => actual
    case Some(o) => if o == 0 then 1 else o
  }

  /** Length a masked string ends up with: the obfuscation length, else the raw
      length minus the escapes the value opens. */
  function StringLength(cfg: Config, value: seq<byte>): nat {
    match cfg.obfuscationLength
    case Some(o) => o
    case None => IntroductionsBound(value); |value| - EscapeIntroductions(value)
  }

  /** The bytes of a string value as the scanner delimits it: every double quote
      in it follows an escape character, and it does not end with one (else its
      closing quote would count as escaped). */
  predicate StringBody(v: seq<byte>) {
    && (forall p :: 0 <= p < |v| && IsDoubleQuote(v[p]) ==> p > 0 && IsEscapeCharacter(v[p - 1]))
    && (|v| > 0 ==> !IsEscapeCharacter(v[|v| - 1]))
  }

  /** The bytes of a number value as the scanner delimits it. */
  predicate NumberBody(v: seq<byte>) {
    && |v| > 0
    && IsFirstNumberChar(v[0])
    && forall p :: 0 <= p < |v| ==> IsNumericCharacter(v[p])
  }

  /** A stretch of the document as the masker leaves it: bytes kept verbatim,
      or a key-value field whose value was replaced by `masked`. */
  datatype Piece =
    | Keep(bytes: seq<byte>)
    | Field(key: seq<byte>, beforeColon: seq<byte>, afterColon: seq<byte>,
            isString: bool, value: seq<byte>, masked: seq<byte>)

  /** `"key"`, whitespace, the colon, whitespace. */
  function Header(p: Piece): seq<byte>
    requires p.Field?
  {
    Quote(p.key) + p.beforeColon + [COLON] + p.afterColon
  }

  /** The piece's bytes in the input. */
  function Before(p: Piece): seq<byte> {
    match p
    case Keep(b) => b
    case Field(_, _, _, isString, value, _) => Header(p) + (if isString then Quote(value) else value)
  }

  /** The piece's bytes in the output. */
  function After(p: Piece): seq<byte> {
    match p
    case Keep(b) => b
    case Field(_, _, _, isString, _, masked) => Header(p) + (if isString then Quote(masked) else masked)
  }

  function Befores(ps: seq<Piece>): seq<byte>
    decreases |ps|
  {
    if |ps| == 0 then [] else Befores(ps[..|ps| - 1]) + Before(ps[|ps| - 1])
  }

  function Afters(ps: seq<Piece>): seq<byte>
    decreases |ps|
  {
    if |ps| == 0 then [] else Afters(ps[..|ps| - 1]) + After(ps[|ps| - 1])
  }

  /** A masked field is a target key, then a colon between whitespace, then a
      string or number value; the mask bytes and their count follow the
      configuration. */
  predicate ValidField(cfg: Config, keys: set<seq<byte>>, p: Piece) {
    match p
    case Keep(_) => true
    case Field(key, beforeColon, afterColon, isString, value, masked) =>
      && key in keys
      && AllWhiteSpace(beforeColon)
      && AllWhiteSpace(afterColon)
      && if isString then
           && StringBody(value)
           && AllAre(masked, ASTERISK)
           && |masked| == StringLength(cfg, value)
         else
           && cfg.maskNumbers
           && NumberBody(value)
           && AllAre(masked, cfg.numberMask)
           && |masked| == NumberLength(cfg, |value|)
  }

  predicate AllValid(cfg: Config, keys: set<seq<byte>>, ps: seq<Piece>) {
    forall p :: p in ps ==> ValidField(cfg, keys, p)
  }

  lemma {:induction false} BeforesAppend(ps: seq<Piece>, qs: seq<Piece>)
    ensures Befores(ps + qs) == Befores(ps) + Befores(qs)
    ensures Afters(ps + qs) == Afters(ps) + Afters(qs)
  {
    BeforesConcat(ps, qs);
    AftersConcat(ps, qs);
  }

  lemma {:induction false} BeforesConcat(ps: seq<Piece>, qs: seq<Piece>)
    ensures Befores(ps + qs) == Befores(ps) + Befores(qs)
    decreases |qs|
  {
    if |qs| > 0 {
      assert (ps + qs)[..|ps + qs| - 1] == ps + qs[..|qs| - 1];
      BeforesConcat(ps, qs[..|qs| - 1]);
    } else {
      assert ps + qs == ps;
    }
  }

  lemma {:induction false} AftersConcat(ps: seq<Piece>, qs: seq<Piece>)
    ensures Afters(ps + qs) == Afters(ps) + Afters(qs)
    decreases |qs|
  {
    if |qs| > 0 {
      assert (ps + qs)[..|ps + qs| - 1] == ps + qs[..|qs| - 1];
      AftersConcat(ps, qs[..|qs| - 1]);
    } else {
      assert ps + qs == ps;
    }
  }

  lemma BeforesPair(a: Piece, b: Piece)
    ensures Befores([a, b]) == Before(a) + Before(b)
    ensures Afters([a, b]) == After(a) + After(b)
  {
    assert [a, b][..1] == [a];
    assert [a][..0] == [];
    assert Befores([a]) == Before(a);
    assert Afters([a]) == After(a);
  }

  /** A document cut into kept pieces only comes out as it went in. */
  lemma {:induction false} KeptPiecesUnchanged(ps: seq<Piece>)
    requires forall p :: p in ps ==> p.Keep?
    ensures Afters(ps) == Befores(ps)
    decreases |ps|
  {
    if |ps| > 0 {
      KeptPiecesUnchanged(ps[..|ps| - 1]);
    }
  }

  /** The quoted key of every masked field occurs in the input. */
  lemma {:induction false} FieldKeyOccurs(ps: seq<Piece>, f: Piece)
    requires f in ps && f.Field?
    ensures Occurs(Quote(f.key), Befores(ps))
    decreases |ps|
  {
    var init := ps[..|ps| - 1];
    var last := ps[|ps| - 1];
    if f == last {
      var pat := Quote(f.key);
      assert Before(last) == pat + (Before(last)[|pat|..]);
      OccursAtJoin(pat, Befores(init), Before(last));
    } else {
      assert f in init;
      FieldKeyOccurs(init, f);
      OccursExtend(Quote(f.key), Befores(init), Before(last));
    }
  }

  /** If no target key occurs quoted in the input, no piece is a masked field
      and the output equals the input. */
  lemma NoTargetKeyNoChange(cfg: Config, keys: set<seq<byte>>, ps: seq<Piece>, input: seq<byte>)
    requires Befores(ps) == input && AllValid(cfg, keys, ps)
    requires forall t :: t in keys ==> !Occurs(Quote(t), input)
    ensures Afters(ps) == input
  {
    forall p | p in ps
      ensures p.Keep?
    {
      if p.Field? {
        FieldKeyOccurs(ps, p);
      }
    }
    KeptPiecesUnchanged(ps);
  }

  /** `buf[o..k]` is a key header: quote, key bytes, quote, gap, colon, gap. */
  lemma HeaderSlices(buf: seq<byte>, o: nat, c: nat, colon: nat, k: nat)
    requires o < c < colon < k <= |buf|
    requires IsDoubleQuote(buf[o]) && IsDoubleQuote(buf[c]) && IsColon(buf[colon])
    ensures buf[o..k] == Quote(buf[o + 1..c]) + buf[c + 1..colon] + [COLON] + buf[colon + 1..k]
  {
    assert buf[o..k] == buf[o..c + 1] + buf[c + 1..colon] + buf[colon..k];
    assert buf[o..c + 1] == [buf[o]] + buf[o + 1..c] + [buf[c]];
    assert buf[colon..k] == [buf[colon]] + buf[colon + 1..k];
  }

  /** Bookkeeping for one masked value: how the input stretch `buf[i..e]`
      splits, and where the replacement lands in the rebuilt buffer. */
  lemma FieldStepSlices(buf: seq<byte>, next: seq<byte>, i: nat, o: nat, k: nat, e: nat, repl: seq<byte>)
    requires i <= o <= k <= e <= |buf|
    requires next == buf[..k] + repl + buf[e..]
    ensures buf[i..e] == buf[i..o] + buf[o..e]
    ensures next[..i] == buf[..i]
    ensures next[i..k + |repl|] == buf[i..o] + (buf[o..k] + repl)
    ensures next[k + |repl|..] == buf[e..]
  {
    assert next[i..k + |repl|] == buf[i..k] + repl;
    assert buf[i..k] == buf[i..o] + buf[o..k];
  }

  /** A kept stretch followed by a valid field, as one pass adds them. */
  lemma KeepFieldPair(cfg: Config, keys: set<seq<byte>>, x: seq<byte>, f: Piece)
    requires f.Field? && ValidField(cfg, keys, f)
    ensures Befores([Keep(x), f]) == x + Before(f)
    ensures Afters([Keep(x), f]) == x + After(f)
    ensures AllValid(cfg, keys, [Keep(x), f])
  {
    BeforesPair(Keep(x), f);
  }

  /** Searches `[from, limit)` for an unescaped double quote, as the two
      quote-finding loops of the scanner do. */
  method FindUnescapedQuote(buf: seq<byte>, from: nat, limit: nat) returns (found: bool, at: nat)
    requires 1 <= from < limit <= |buf|
    ensures from <= at < limit
    ensures found ==> IsUnescapedDoubleQuote(buf, at)
    ensures !found ==> at == limit - 1 && !IsUnescapedDoubleQuote(buf, at)
    ensures forall p :: from <= p < at ==> !IsUnescapedDoubleQuote(buf, p)
  {
    at := from;
    while !IsUnescapedDoubleQuote(buf, at)
      invariant from <= at < limit
      invariant forall p :: from <= p < at ==> !IsUnescapedDoubleQuote(buf, p)
      decreases limit - at
    {
      if at < limit - 1 {
        at := at + 1;
      } else {
        return false, at;
      }
    }
    found := true;
  }

  /** The first index from `from` on that is the end or not whitespace. */
  method SkipWhiteSpace(buf: seq<byte>, from: nat) returns (at: nat)
    requires from <= |buf|
    ensures from <= at <= |buf|
    ensures AllWhiteSpace(buf[from..at])
    ensures at < |buf| ==> !IsWhiteSpace(buf[at])
  {
    at := from;
    while at < |buf| && IsWhiteSpace(buf[at])
      invariant from <= at <= |buf|
      invariant AllWhiteSpace(buf[from..at])
      decreases |buf| - at
    {
      assert buf[from..at + 1] == buf[from..at] + [buf[at]];
      at := at + 1;
    }
  }

  /** Masks the number that starts at `start`: every numeric byte becomes the
      number mask byte, then the literal is spliced to its configured length.
      Fails when the number runs to the end of the buffer. */
  method MaskNumberValue(cfg: Config, buf: seq<byte>, start: nat)
    returns (ok: bool, next: seq<byte>, cursor: nat, valueEnd: nat)
    requires start < |buf| && IsNumericCharacter(buf[start])
    ensures !ok ==> forall p :: start <= p < |buf| ==> IsNumericCharacter(buf[p])
    ensures ok ==>
      && start < valueEnd < |buf|
      && !IsNumericCharacter(buf[valueEnd])
      && (forall p :: start <= p < valueEnd ==> IsNumericCharacter(buf[p]))
      && next == buf[..start] + Fill(cfg.numberMask, NumberLength(cfg, valueEnd - start)) + buf[valueEnd..]
      && cursor == start + NumberLength(cfg, valueEnd - start)
  {
    next := buf;
    cursor := start;
    var targetValueLength: int := 0;
    while cursor < |next| && IsNumericCharacter(next[cursor])
      invariant start <= cursor <= |buf|
      invariant targetValueLength == cursor - start
      invariant next == buf[..start] + Fill(cfg.numberMask, cursor - start) + buf[cursor..]
      invariant forall p :: start <= p < cursor ==> IsNumericCharacter(buf[p])
      decreases |buf| - cursor
    {
      targetValueLength := targetValueLength + 1;
      next := next[cursor := cfg.numberMask];
      cursor := cursor + 1;
    }
    if cursor == |next| {
      return false, buf, 0, 0;
    }
    valueEnd := cursor;
    if cfg.obfuscationLength.Some? && cfg.obfuscationLength.value != targetValueLength {
      var obfuscationLength := cfg.obfuscationLength.value;
      if obfuscationLength == 0 {
        SpliceAfterInPlaceFill(buf, start, valueEnd, 1, cfg.numberMask);
        next := Splice(next, cursor, 1, targetValueLength, cfg.numberMask);
        cursor := cursor - (targetValueLength - 1);
      } else {
        SpliceAfterInPlaceFill(buf, start, valueEnd, obfuscationLength, cfg.numberMask);
        next := Splice(next, cursor, obfuscationLength, targetValueLength, cfg.numberMask);
        cursor := cursor - (targetValueLength - obfuscationLength);
      }
    } else if cfg.obfuscationLength.Some? {
      // skipping the splice at the literal's own length loses nothing
      assert next[start..cursor] == Fill(cfg.numberMask, targetValueLength);
      SpliceSameLengthIsIdentity(next, cursor, targetValueLength, cfg.numberMask);
    }
    ok := true;
  }

  /** One pass of the string masking loop, from index `i - 1` to `i`: the
      byte at `i - 1` was not an unescaped quote, it is now an asterisk, and
      the automaton has read it. */
  lemma MaskLoopStep(buf: seq<byte>, quoteAt: nat, i: nat, prev: seq<byte>, next: seq<byte>,
                     before: State, after: State)
    requires quoteAt + 1 < i <= |buf|
    requires prev == buf[..quoteAt + 1] + Fill(ASTERISK, i - 1 - quoteAt - 1) + buf[i - 1..]
    requires next == prev[i - 1 := ASTERISK]
    requires before == Run(buf[quoteAt + 1..i - 1])
    requires before.escapeNext == IsEscapeCharacter(buf[i - 2])
    requires after == Step(before, prev[i - 1])
    requires !IsDoubleQuote(prev[i - 1]) || before.escapeNext
    requires forall p :: quoteAt < p < i - 1 ==> !IsUnescapedDoubleQuote(buf, p)
    ensures next == buf[..quoteAt + 1] + Fill(ASTERISK, i - quoteAt - 1) + buf[i..]
    ensures after == Run(buf[quoteAt + 1..i])
    ensures after.escapeNext == IsEscapeCharacter(buf[i - 1])
    ensures forall p :: quoteAt < p < i ==> !IsUnescapedDoubleQuote(buf, p)
  {
    var n := i - 1 - quoteAt - 1;
    assert Fill(ASTERISK, n + 1) == Fill(ASTERISK, n) + [ASTERISK];
    assert buf[i - 1..] == [buf[i - 1]] + buf[i..];
    assert prev[i - 1] == buf[i - 1];
    assert buf[quoteAt + 1..i][..i - 1 - quoteAt - 1] == buf[quoteAt + 1..i - 1];
  }

  /** The masking loop over a string value whose opening quote is at
      `quoteAt`: every byte up to the next unescaped double quote becomes `*`,
      and the look-behind automaton counts the escapes on the way. Fails when
      no closing quote follows. */
  method MaskStringInPlace(buf: seq<byte>, quoteAt: nat)
    returns (ok: bool, next: seq<byte>, closingQuote: nat, targetValueLength: int, noOfEscapeCharacters: int)
    requires quoteAt < |buf| && IsDoubleQuote(buf[quoteAt])
    ensures !ok ==> forall p :: quoteAt < p < |buf| ==> !IsUnescapedDoubleQuote(buf, p)
    ensures ok ==>
      && quoteAt < closingQuote < |buf|
      && IsUnescapedDoubleQuote(buf, closingQuote)
      && (forall p :: quoteAt < p < closingQuote ==> !IsUnescapedDoubleQuote(buf, p))
      && targetValueLength == closingQuote - quoteAt - 1
      && noOfEscapeCharacters == EscapeIntroductions(buf[quoteAt + 1..closingQuote])
      && next == buf[..quoteAt + 1] + Fill(ASTERISK, targetValueLength) + buf[closingQuote..]
  {
    var i := quoteAt + 1; // step over the opening quote
    next := buf;
    targetValueLength := 0;
    noOfEscapeCharacters := 0;
    var escapeNextCharacter := false;
    var previousCharacterCountedAsEscapeCharacter := false;
    while i < |next| && (!IsDoubleQuote(next[i]) || (IsDoubleQuote(next[i]) && escapeNextCharacter))
      invariant quoteAt < i <= |buf|
      invariant next == buf[..quoteAt + 1] + Fill(ASTERISK, i - quoteAt - 1) + buf[i..]
      invariant targetValueLength == i - quoteAt - 1
      invariant State(escapeNextCharacter, previousCharacterCountedAsEscapeCharacter, noOfEscapeCharacters)
                == Run(buf[quoteAt + 1..i])
      invariant escapeNextCharacter == IsEscapeCharacter(buf[i - 1])
      invariant forall p :: quoteAt < p < i ==> !IsUnescapedDoubleQuote(buf, p)
      decreases |buf| - i
    {
      ghost var prev, before := next, State(escapeNextCharacter, previousCharacterCountedAsEscapeCharacter, noOfEscapeCharacters);
      escapeNextCharacter := IsEscapeCharacter(next[i]);
      if escapeNextCharacter && !previousCharacterCountedAsEscapeCharacter {
        noOfEscapeCharacters := noOfEscapeCharacters + 1;
        previousCharacterCountedAsEscapeCharacter := true;
      } else {
        previousCharacterCountedAsEscapeCharacter := false;
      }
      next := next[i := ASTERISK];
      targetValueLength := targetValueLength + 1;
      i := i + 1;
      MaskLoopStep(buf, quoteAt, i, prev, next, before,
                   State(escapeNextCharacter, previousCharacterCountedAsEscapeCharacter, noOfEscapeCharacters));
    }
    if i == |next| {
      return false, buf, 0, 0, 0;
    }
    closingQuote := i;
    RunMatchesReference(buf[quoteAt + 1..closingQuote]);
    ok := true;
  }

  /** Splices the masked string value `buf[quoteAt + 1..closingQuote]`, already
      overwritten with `actual` asterisks in `masked`, to `desired` asterisks. */
  function SpliceString(buf: seq<byte>, quoteAt: nat, closingQuote: nat, masked: seq<byte>, desired: nat): (r: seq<byte>)
    requires quoteAt < closingQuote <= |buf|
    requires masked == buf[..quoteAt + 1] + Fill(ASTERISK, closingQuote - quoteAt - 1) + buf[closingQuote..]
    ensures r == buf[..quoteAt + 1] + Fill(ASTERISK, desired) + buf[closingQuote..]
  {
    SpliceAfterInPlaceFill(buf, quoteAt + 1, closingQuote, desired, ASTERISK);
    Splice(masked, closingQuote, desired, closingQuote - quoteAt - 1, ASTERISK)
  }

  /** Masks the string whose opening quote is at `quoteAt`, then splices it to
      the obfuscation length or, without one, shrinks it by the escape count.
      The cursor ends just past the closing quote. */
  method MaskStringValue(cfg: Config, buf: seq<byte>, quoteAt: nat)
    returns (ok: bool, next: seq<byte>, cursor: nat, closingQuote: nat)
    requires quoteAt < |buf| && IsDoubleQuote(buf[quoteAt])
    ensures !ok ==> forall p :: quoteAt < p < |buf| ==> !IsUnescapedDoubleQuote(buf, p)
    ensures ok ==>
      && quoteAt < closingQuote < |buf|
      && IsUnescapedDoubleQuote(buf, closingQuote)
      && (forall p :: quoteAt < p < closingQuote ==> !IsUnescapedDoubleQuote(buf, p))
      && next == buf[..quoteAt + 1]
                 + Fill(ASTERISK, StringLength(cfg, buf[quoteAt + 1..closingQuote]))
                 + buf[closingQuote..]
      && cursor == quoteAt + 2 + StringLength(cfg, buf[quoteAt + 1..closingQuote])
  {
    var masked, targetValueLength, noOfEscapeCharacters;
    ok, masked, closingQuote, targetValueLength, noOfEscapeCharacters := MaskStringInPlace(buf, quoteAt);
    if !ok {
      return false, buf, 0, 0;
    }
    next, cursor := FixStringLength(cfg, buf, quoteAt, closingQuote, masked, targetValueLength, noOfEscapeCharacters);
  }

  /** Both the masking loop and the key scan test only the byte before a
      quote. A quote after a complete (even) run of escape characters, which
      closes the string in JSON, is therefore never the closing quote the
      masker finds, although the automaton's parity flag knows the run is
      complete. */
  lemma CompleteEscapeRunHidesQuote(buf: seq<byte>, quoteAt: nat, q: nat)
    requires quoteAt < q < |buf| && IsDoubleQuote(buf[q])
    requires TrailingEscapes(buf[quoteAt + 1..q]) > 0 && TrailingEscapes(buf[quoteAt + 1..q]) % 2 == 0
    ensures !IsUnescapedDoubleQuote(buf, q)
    ensures Run(buf[quoteAt + 1..q]).escapeNext && !Run(buf[quoteAt + 1..q]).previousCounted
  {
    EvenRunLooksEscaped(buf[quoteAt + 1..q]);
  }

  /** The length fix-up after the string masking loop: splice to the
      obfuscation length when it differs from the unescaped length, else drop
      one asterisk per escape. */
  method FixStringLength(cfg: Config, buf: seq<byte>, quoteAt: nat, closingQuote: nat, masked: seq<byte>,
                         targetValueLength: int, noOfEscapeCharacters: int)
    returns (next: seq<byte>, cursor: nat)
    requires quoteAt < closingQuote < |buf|
    requires targetValueLength == closingQuote - quoteAt - 1
    requires noOfEscapeCharacters == EscapeIntroductions(buf[quoteAt + 1..closingQuote])
    requires masked == buf[..quoteAt + 1] + Fill(ASTERISK, targetValueLength) + buf[closingQuote..]
    ensures next == buf[..quoteAt + 1]
                    + Fill(ASTERISK, StringLength(cfg, buf[quoteAt + 1..closingQuote]))
                    + buf[closingQuote..]
    ensures cursor == quoteAt + 2 + StringLength(cfg, buf[quoteAt + 1..closingQuote])
  {
    var i: int := closingQuote;
    ghost var value := buf[quoteAt + 1..closingQuote];
    IntroductionsBound(value);
    next := masked;
    if cfg.obfuscationLength.Some? && cfg.obfuscationLength.value != targetValueLength - noOfEscapeCharacters {
      var obfuscationLength := cfg.obfuscationLength.value;
      next := SpliceString(buf, quoteAt, closingQuote, masked, obfuscationLength);
      i := i - (targetValueLength - obfuscationLength);
      assert StringLength(cfg, value) == obfuscationLength;
    } else if noOfEscapeCharacters > 0 {
      var actualStringLength := targetValueLength - noOfEscapeCharacters;
      next := SpliceString(buf, quoteAt, closingQuote, masked, actualStringLength);
      i := i - noOfEscapeCharacters;
      assert StringLength(cfg, value) == actualStringLength;
    } else {
      assert StringLength(cfg, value) == targetValueLength;
    }
    cursor := i + 1; // step over the closing quote
  }

  /** What one pass of the main loop ends in. */
  datatype Outcome = Advanced | Stop | Fail

  /** One pass of the main loop moved the cursor from `i` in `buf` to `cursor`
      in `next`: the input stretch `buf[i..i + consumed]` became
      `next[i..cursor]` as the pieces `added` describe, and nothing before or
      after it changed. */
  ghost predicate Advances(cfg: Config, keys: set<seq<byte>>, buf: seq<byte>, i: nat,
                           next: seq<byte>, cursor: nat, added: seq<Piece>, consumed: nat)
  {
    && 0 < consumed && i + consumed <= |buf|
    && i <= cursor <= |next|
    && next[..i] == buf[..i]
    && Befores(added) == buf[i..i + consumed]
    && Afters(added) == next[i..cursor]
    && next[cursor..] == buf[i + consumed..]
    && AllValid(cfg, keys, added)
  }

  /** The pieces one pass adds for the target key `buf[o + 1..c]` whose value
      starts at `k`: the stretch before the key is kept, then comes a field
      with exactly this key, masked as a number when `k` holds a numeric byte
      with number masking on and as a string otherwise, over the whole value:
      a string up to its first unescaped quote, a number up to the first byte
      that is not numeric. */
  ghost predicate MasksValue(cfg: Config, buf: seq<byte>, i: nat, o: nat, c: nat, k: nat,
                             added: seq<Piece>, consumed: nat)
  {
    && i <= o < c < k < |buf| && i + consumed <= |buf|
    && |added| == 2 && added[0] == Keep(buf[i..o]) && added[1].Field?
    && added[1].key == buf[o + 1..c]
    && added[1].isString == !IsNumberValue(cfg, buf[k])
    && if added[1].isString then
         && k + 1 < i + consumed
         && added[1].value == buf[k + 1..i + consumed - 1]
         && IsUnescapedDoubleQuote(buf, i + consumed - 1)
         && (forall p :: k < p < i + consumed - 1 ==> !IsUnescapedDoubleQuote(buf, p))
       else
         && k < i + consumed < |buf|
         && added[1].value == buf[k..i + consumed]
         && !IsNumericCharacter(buf[i + consumed])
  }

  /** Only the last of the pieces one pass adds can be a number field, and a
      number field ends just before a byte of the buffer that is not numeric. */
  ghost predicate EndsNumbers(buf: seq<byte>, i: nat, added: seq<Piece>, consumed: nat) {
    forall n :: 0 <= n < |added| && added[n].Field? && !added[n].isString ==>
      n == |added| - 1 && i + consumed < |buf| && !IsNumericCharacter(buf[i + consumed])
  }

  /** The pieces that mask a value end any number field they hold. */
  lemma MasksValueEndsNumbers(cfg: Config, buf: seq<byte>, i: nat, o: nat, c: nat, k: nat,
                              added: seq<Piece>, consumed: nat)
    requires MasksValue(cfg, buf, i, o, c, k, added, consumed)
    ensures EndsNumbers(buf, i, added, consumed)
  {
  }

  /** A masked number field over `buf[k..valueEnd]` masks that value. */
  lemma NumberMasksValue(cfg: Config, buf: seq<byte>, i: nat, o: nat, c: nat, k: nat, valueEnd: nat,
                         f: Piece, added: seq<Piece>, consumed: nat)
    requires i <= o < c < k < valueEnd < |buf| && IsNumberValue(cfg, buf[k]) && !IsNumericCharacter(buf[valueEnd])
    requires f.Field? && f.key == buf[o + 1..c] && !f.isString && f.value == buf[k..valueEnd]
    requires added == [Keep(buf[i..o]), f] && consumed == valueEnd - i
    ensures MasksValue(cfg, buf, i, o, c, k, added, consumed)
  {
  }

  /** A masked string field over `buf[k + 1..q]`, `q` the first unescaped
      quote after `k`, masks that value. */
  lemma StringMasksValue(cfg: Config, buf: seq<byte>, i: nat, o: nat, c: nat, k: nat, q: nat,
                         f: Piece, added: seq<Piece>, consumed: nat)
    requires i <= o < c < k < q < |buf| && !IsNumberValue(cfg, buf[k])
    requires IsUnescapedDoubleQuote(buf, q) && forall p :: k < p < q ==> !IsUnescapedDoubleQuote(buf, p)
    requires f.Field? && f.key == buf[o + 1..c] && f.isString && f.value == buf[k + 1..q]
    requires added == [Keep(buf[i..o]), f] && consumed == q + 1 - i
    ensures MasksValue(cfg, buf, i, o, c, k, added, consumed)
  {
  }

  /** Passing over `buf[i..to]` without touching it. */
  lemma SkipAdvances(cfg: Config, keys: set<seq<byte>>, buf: seq<byte>, i: nat, to: nat,
                     next: seq<byte>, cursor: nat, added: seq<Piece>, consumed: nat)
    requires i < to <= |buf|
    requires next == buf && cursor == to && added == [Keep(buf[i..to])] && consumed == to - i
    ensures Advances(cfg, keys, buf, i, next, cursor, added, consumed)
  {
    SingleKeep(cfg, keys, buf[i..to]);
  }

  /** Passing over a kept stretch `buf[i..o]` and a masked field `f` that spans
      `buf[o..e]` in the input and `repl` from `k` on in the output. */
  lemma FieldAdvances(cfg: Config, keys: set<seq<byte>>, buf: seq<byte>, next: seq<byte>,
                      i: nat, o: nat, k: nat, e: nat, repl: seq<byte>, f: Piece,
                      cursor: nat, added: seq<Piece>, consumed: nat)
    requires i <= o < k <= e <= |buf|
    requires next == buf[..k] + repl + buf[e..]
    requires Before(f) == buf[o..e] && After(f) == buf[o..k] + repl
    requires cursor == k + |repl| && added == [Keep(buf[i..o]), f] && consumed == e - i
    requires AllValid(cfg, keys, added)
    ensures Advances(cfg, keys, buf, i, next, cursor, added, consumed)
  {
    FieldStepSlices(buf, next, i, o, k, e, repl);
    BeforesPair(Keep(buf[i..o]), f);
  }

  /** Masks a number value of a target key: header `buf[o..k]`, value from `k`. */
  method MaskNumberField(cfg: Config, keys: set<seq<byte>>, buf: seq<byte>, i: nat,
                         o: nat, c: nat, colon: nat, k: nat)
    returns (outcome: Outcome, next: seq<byte>, cursor: nat, ghost added: seq<Piece>, ghost consumed: nat)
    requires i <= o < c < colon < k < |buf|
    requires IsDoubleQuote(buf[o]) && IsDoubleQuote(buf[c]) && IsColon(buf[colon])
    requires buf[o + 1..c] in keys
    requires AllWhiteSpace(buf[c + 1..colon]) && AllWhiteSpace(buf[colon + 1..k])
    requires cfg.maskNumbers && IsFirstNumberChar(buf[k])
    ensures outcome != Stop
    ensures outcome == Fail <==> forall p :: k <= p < |buf| ==> IsNumericCharacter(buf[p])
    ensures outcome == Advanced ==> Advances(cfg, keys, buf, i, next, cursor, added, consumed)
    ensures outcome == Advanced ==> |added| == 2 && added[1].Field? && !added[1].isString
    ensures outcome == Advanced ==> MasksValue(cfg, buf, i, o, c, k, added, consumed)
  {
    var ok, masked, after, valueEnd := MaskNumberValue(cfg, buf, k);
    if !ok {
      return Fail, buf, i, [], 0;
    }
    var repl := Fill(cfg.numberMask, NumberLength(cfg, valueEnd - k));
    var f := Field(buf[o + 1..c], buf[c + 1..colon], buf[colon + 1..k], false, buf[k..valueEnd], repl);
    HeaderSlices(buf, o, c, colon, k);
    assert buf[o..valueEnd] == buf[o..k] + buf[k..valueEnd];
    outcome, next, cursor := Advanced, masked, after;
    added, consumed := [Keep(buf[i..o]), f], valueEnd - i;
    KeepFieldPair(cfg, keys, buf[i..o], f);
    FieldAdvances(cfg, keys, buf, next, i, o, k, valueEnd, repl, f, cursor, added, consumed);
    NumberMasksValue(cfg, buf, i, o, c, k, valueEnd, f, added, consumed);
  }

  /** The bytes of a string value between its opening quote at `k` and the
      first unescaped quote after it. */
  lemma StringValueSlices(buf: seq<byte>, o: nat, k: nat, q: nat)
    requires o < k < q < |buf|
    requires IsDoubleQuote(buf[k]) && IsUnescapedDoubleQuote(buf, q)
    requires forall p :: k < p < q ==> !IsUnescapedDoubleQuote(buf, p)
    ensures StringBody(buf[k + 1..q])
    ensures buf[o..k + 1] == buf[o..k] + [DOUBLE_QUOTE]
    ensures buf[o..q + 1] == buf[o..k] + Quote(buf[k + 1..q])
    ensures buf[k + 1..q + 1] == buf[k + 1..q] + [DOUBLE_QUOTE]
  {
    var value := buf[k + 1..q];
    forall p | 0 <= p < |value| && IsDoubleQuote(value[p])
      ensures p > 0 && IsEscapeCharacter(value[p - 1])
    {
      assert !IsUnescapedDoubleQuote(buf, k + 1 + p);
    }
    assert buf[o..q + 1] == buf[o..k] + [buf[k]] + value + [buf[q]];
  }

  /** The string field with header `buf[o..k]` and value `buf[k + 1..q]`
      between quotes is a valid masked field. */
  lemma StringFieldValid(cfg: Config, keys: set<seq<byte>>, buf: seq<byte>, o: nat, c: nat, colon: nat, k: nat, q: nat,
                          f: Piece)
    requires o < c < colon < k < q < |buf|
    requires IsDoubleQuote(buf[o]) && IsDoubleQuote(buf[c]) && IsColon(buf[colon])
    requires buf[o + 1..c] in keys
    requires AllWhiteSpace(buf[c + 1..colon]) && AllWhiteSpace(buf[colon + 1..k])
    requires IsDoubleQuote(buf[k]) && IsUnescapedDoubleQuote(buf, q)
    requires forall p :: k < p < q ==> !IsUnescapedDoubleQuote(buf, p)
    requires f == Field(buf[o + 1..c], buf[c + 1..colon], buf[colon + 1..k], true, buf[k + 1..q],
                        Fill(ASTERISK, StringLength(cfg, buf[k + 1..q])))
    ensures ValidField(cfg, keys, f)
    ensures Before(f) == buf[o..q + 1]
    ensures After(f) == buf[o..k + 1] + (f.masked + [DOUBLE_QUOTE])
  {
    HeaderSlices(buf, o, c, colon, k);
    StringValueSlices(buf, o, k, q);
    assert Header(f) == buf[o..k];
    assert Quote(f.masked) == [DOUBLE_QUOTE] + (f.masked + [DOUBLE_QUOTE]);
  }

  /** The closing quote of a string value stays in place after the splice. */
  lemma ClosingQuoteKept(buf: seq<byte>, k: nat, q: nat, repl: seq<byte>, next: seq<byte>)
    requires k < q < |buf| && IsDoubleQuote(buf[q])
    requires next == buf[..k + 1] + repl + buf[q..]
    ensures next == buf[..k + 1] + (repl + [DOUBLE_QUOTE]) + buf[q + 1..]
  {
    assert buf[q..] == [DOUBLE_QUOTE] + buf[q + 1..];
  }

  /** A masked string value of a target key advances the pass by one kept
      stretch and one valid field. */
  lemma StringFieldAdvances(cfg: Config, keys: set<seq<byte>>, buf: seq<byte>, i: nat,
                            o: nat, k: nat, q: nat, masked: seq<byte>, f: Piece,
                            cursor: nat, added: seq<Piece>, consumed: nat)
    requires i <= o < k < q < |buf| && IsDoubleQuote(buf[q])
    requires f.Field?
    requires Before(f) == buf[o..q + 1] && After(f) == buf[o..k + 1] + (f.masked + [DOUBLE_QUOTE])
    requires masked == buf[..k + 1] + f.masked + buf[q..]
    requires cursor == k + 2 + |f.masked| && added == [Keep(buf[i..o]), f] && consumed == q + 1 - i
    requires AllValid(cfg, keys, added)
    ensures Advances(cfg, keys, buf, i, masked, cursor, added, consumed)
  {
    var repl, start, end := f.masked + [DOUBLE_QUOTE], k + 1, q + 1;
    ClosingQuoteKept(buf, k, q, f.masked, masked);
    assert After(f) == buf[o..start] + repl;
    assert cursor == start + |repl| && consumed == end - i;
    FieldAdvances(cfg, keys, buf, masked, i, o, start, end, repl, f, cursor, added, consumed);
  }

  /** Masks a string value of a target key: header `buf[o..k]`, opening quote
      of the value at `k`. */
  method MaskStringField(cfg: Config, keys: set<seq<byte>>, buf: seq<byte>, i: nat,
                         o: nat, c: nat, colon: nat, k: nat)
    returns (outcome: Outcome, next: seq<byte>, cursor: nat, ghost added: seq<Piece>, ghost consumed: nat)
    requires i <= o < c < colon < k < |buf|
    requires IsDoubleQuote(buf[o]) && IsDoubleQuote(buf[c]) && IsColon(buf[colon])
    requires buf[o + 1..c] in keys
    requires AllWhiteSpace(buf[c + 1..colon]) && AllWhiteSpace(buf[colon + 1..k])
    requires IsDoubleQuote(buf[k])
    ensures outcome != Stop
    ensures outcome == Fail <==> forall p :: k < p < |buf| ==> !IsUnescapedDoubleQuote(buf, p)
    ensures outcome == Advanced ==> Advances(cfg, keys, buf, i, next, cursor, added, consumed)
    ensures outcome == Advanced ==> |added| == 2 && added[1].Field? && added[1].isString
    ensures outcome == Advanced ==> MasksValue(cfg, buf, i, o, c, k, added, consumed)
  {
    var ok, masked, after, closingQuote := MaskStringValue(cfg, buf, k);
    if !ok {
      return Fail, buf, i, [], 0;
    }
    ghost var value := buf[k + 1..closingQuote];
    ghost var f := Field(buf[o + 1..c], buf[c + 1..colon], buf[colon + 1..k], true, value,
                         Fill(ASTERISK, StringLength(cfg, value)));
    outcome, next, cursor := Advanced, masked, after;
    added, consumed := [Keep(buf[i..o]), f], closingQuote + 1 - i;
    StringFieldValid(cfg, keys, buf, o, c, colon, k, closingQuote, f);
    KeepFieldPair(cfg, keys, buf[i..o], f);
    StringFieldAdvances(cfg, keys, buf, i, o, k, closingQuote, next, f, cursor, added, consumed);
    StringMasksValue(cfg, buf, i, o, c, k, closingQuote, f, added, consumed);
  }

  /** No quoted token fits the window the scanner searches from `i`: no
      unescaped quote before `|buf| - 4` is followed by another one before
      `|buf| - 3`. */
  ghost predicate NoTokenFrom(buf: seq<byte>, i: nat) {
    forall o, p ::
      (&& 1 <= i <= o < p < |buf| - MIN_OFFSET_JSON_KEY_QUOTE + 1
       && o < |buf| - MIN_OFFSET_JSON_KEY_QUOTE
       && IsUnescapedDoubleQuote(buf, o)) ==> !IsUnescapedDoubleQuote(buf, p)
  }

  /** A suffix that starts at the closing quote of a token after which the
      scanner reads past the end: the header runs off, or a maskable value
      follows and has no end. */
  ghost predicate Unterminated(cfg: Config, s: seq<byte>) {
    && |s| > 0 && IsDoubleQuote(s[0])
    && (|| HeaderRunsOff(s, 0)
        || exists colon: nat, value: nat :: MaskableValueAt(cfg, s, 0, colon, value) && ValueRunsOff(cfg, s, value))
  }

  /** A header that runs off, read from the token's closing quote on. */
  lemma HeaderRunsOffTail(buf: seq<byte>, c: nat)
    requires HeaderRunsOff(buf, c)
    ensures HeaderRunsOff(buf[c..], 0)
  {
    var s := buf[c..];
    assert s[1..] == buf[c + 1..];
    if !AllWhiteSpace(buf[c + 1..]) {
      var colon :| c < colon < |buf| && IsColon(buf[colon])
                   && AllWhiteSpace(buf[c + 1..colon]) && AllWhiteSpace(buf[colon + 1..]);
      assert s[1..colon - c] == buf[c + 1..colon] && s[colon - c + 1..] == buf[colon + 1..];
      assert IsColon(s[colon - c]);
    }
  }

  /** A maskable value, read from the token's closing quote on. */
  lemma MaskableValueTail(cfg: Config, buf: seq<byte>, c: nat, colon: nat, value: nat)
    requires MaskableValueAt(cfg, buf, c, colon, value)
    ensures MaskableValueAt(cfg, buf[c..], 0, colon - c, value - c)
  {
    var s := buf[c..];
    assert s[1..colon - c] == buf[c + 1..colon] && s[colon - c + 1..value - c] == buf[colon + 1..value];
    assert s[colon - c] == buf[colon] && s[value - c] == buf[value];
  }

  /** A value without end, read from an earlier index on. */
  lemma ValueRunsOffTail(cfg: Config, buf: seq<byte>, c: nat, value: nat)
    requires c < value && ValueRunsOff(cfg, buf, value)
    ensures ValueRunsOff(cfg, buf[c..], value - c)
  {
    var s := buf[c..];
    assert s[value - c] == buf[value];
    if IsNumberValue(cfg, buf[value]) {
      forall p | value - c <= p < |s|
        ensures IsNumericCharacter(s[p])
      {
        assert s[p] == buf[c + p];
      }
    } else {
      forall p | value - c < p < |s|
        ensures !IsUnescapedDoubleQuote(s, p)
      {
        assert s[p] == buf[c + p] && s[p - 1] == buf[c + p - 1];
        assert !IsUnescapedDoubleQuote(buf, c + p);
      }
    }
  }

  /** A token's failing tail, read from the token's closing quote on. */
  lemma UnterminatedTail(cfg: Config, buf: seq<byte>, c: nat)
    requires c < |buf| && IsDoubleQuote(buf[c])
    requires || HeaderRunsOff(buf, c)
             || exists colon: nat, value: nat :: MaskableValueAt(cfg, buf, c, colon, value) && ValueRunsOff(cfg, buf, value)
    ensures Unterminated(cfg, buf[c..])
  {
    if HeaderRunsOff(buf, c) {
      HeaderRunsOffTail(buf, c);
    } else {
      var colon: nat, value: nat :| MaskableValueAt(cfg, buf, c, colon, value) && ValueRunsOff(cfg, buf, value);
      MaskableValueTail(cfg, buf, c, colon, value);
      ValueRunsOffTail(cfg, buf, c, value);
    }
  }

  /** One pass of the main loop from cursor `i`: find a quoted token, check it
      is a key with a maskable value and a target key, and mask the value. The
      pass stops when no token fits the search window and fails only at a
      token whose tail is unterminated. */
  method ScanStep(cfg: Config, keys: set<seq<byte>>, buf: seq<byte>, i: nat)
    returns (outcome: Outcome, next: seq<byte>, cursor: nat, ghost added: seq<Piece>, ghost consumed: nat,
             o: nat, c: nat)
    requires 1 <= i && i + MIN_OFFSET_JSON_KEY_QUOTE < |buf|
    ensures outcome == Stop <==> NoTokenFrom(buf, i)
    ensures outcome == Stop ==> next == buf
    ensures outcome == Fail ==> exists c :: i < c < |buf| && Unterminated(cfg, buf[c..])
    ensures outcome != Stop ==> FirstToken(buf, i, o, c)
    ensures outcome != Stop ==> (outcome == Fail <==> TokenRunsOff(cfg, keys, buf, o, c))
    ensures outcome == Advanced ==> cursor <= |next| && |next| - cursor < |buf| - i
    ensures outcome == Advanced ==> Advances(cfg, keys, buf, i, next, cursor, added, consumed)
    ensures outcome == Advanced && !TargetWithValue(cfg, keys, buf, o, c) ==>
              next == buf && added == [Keep(buf[i..cursor])] && SkipsTo(buf, c, cursor)
    ensures outcome == Advanced && buf[o + 1..c] in keys ==>
      forall colon: nat, value: nat :: MaskableValueAt(cfg, buf, c, colon, value) ==>
        MasksValue(cfg, buf, i, o, c, value, added, consumed)
    ensures outcome == Advanced ==> EndsNumbers(buf, i, added, consumed)
  {
    var found;
    found, o, c := FindToken(buf, i);
    if !found {
      outcome, next, cursor, added, consumed := Stop, buf, i, [], 0;
    } else {
      outcome, next, cursor, added, consumed := ScanToken(cfg, keys, buf, i, o, c);
      if outcome == Fail {
        UnterminatedTail(cfg, buf, c);
      }
    }
  }

  /** The search for the next quoted token from `i`: an opening unescaped
      quote before `|buf| - 4`, then its closing one before `|buf| - 3`. */
  method FindToken(buf: seq<byte>, i: nat) returns (found: bool, o: nat, c: nat)
    requires 1 <= i && i + MIN_OFFSET_JSON_KEY_QUOTE < |buf|
    ensures found <==> !NoTokenFrom(buf, i)
    ensures found ==> FirstToken(buf, i, o, c) && IsDoubleQuote(buf[o]) && IsDoubleQuote(buf[c]) && c < |buf|
  {
    // find the opening quote of a string token
    var foundOpening, openingQuoteIndex := FindUnescapedQuote(buf, i, |buf| - MIN_OFFSET_JSON_KEY_QUOTE);
    if !foundOpening {
      return false, 0, 0;
    }
    // find its closing quote; the Java loop's extra `i < length - 1` test always holds here
    var foundClosing, closingQuoteIndex :=
      FindUnescapedQuote(buf, openingQuoteIndex + 1, |buf| - MIN_OFFSET_JSON_KEY_QUOTE + 1);
    found, o, c := foundClosing, openingQuoteIndex, closingQuoteIndex;
  }

  /** `buf[o..c + 1]` is the first quoted token the scan finds from `i`: `o` is
      the first unescaped quote from `i` on before `|buf| - 4`, and `c` the
      first one after it before `|buf| - 3`. */
  ghost predicate FirstToken(buf: seq<byte>, i: nat, o: nat, c: nat) {
    && 1 <= i <= o < c
    && o < |buf| - MIN_OFFSET_JSON_KEY_QUOTE && c < |buf| - MIN_OFFSET_JSON_KEY_QUOTE + 1
    && IsUnescapedDoubleQuote(buf, o) && IsUnescapedDoubleQuote(buf, c)
    && (forall p :: i <= p < o ==> !IsUnescapedDoubleQuote(buf, p))
    && (forall p :: o < p < c ==> !IsUnescapedDoubleQuote(buf, p))
  }

  /** The test that sends a target key's value to number masking rather than
      string masking. */
  predicate IsNumberValue(cfg: Config, b: byte) {
    cfg.maskNumbers && IsNumericCharacter(b)
  }

  /** The value that starts at `value` has no end inside the buffer: a number
      whose bytes are numeric up to the end, or a string with no unescaped
      closing quote after its opening one. */
  ghost predicate ValueRunsOff(cfg: Config, buf: seq<byte>, value: nat) {
    && value < |buf|
    && if IsNumberValue(cfg, buf[value]) then
         forall p :: value <= p < |buf| ==> IsNumericCharacter(buf[p])
       else
         forall p :: value < p < |buf| ==> !IsUnescapedDoubleQuote(buf, p)
  }

  /** After the token that closes at `c`, the search for its colon or for its
      value runs to the end of the buffer: only whitespace follows, or
      whitespace, a colon and whitespace. */
  ghost predicate HeaderRunsOff(buf: seq<byte>, c: nat) {
    && c < |buf|
    && (|| AllWhiteSpace(buf[c + 1..])
        || exists colon :: c < colon < |buf| && IsColon(buf[colon])
                           && AllWhiteSpace(buf[c + 1..colon]) && AllWhiteSpace(buf[colon + 1..]))
  }

  /** Where the scan resumes after the token that closes at `c` when it skips
      the token: at the first byte after it that is not whitespace, when that
      byte is not a colon, or else at the first byte after the colon that is
      not whitespace. */
  ghost predicate SkipsTo(buf: seq<byte>, c: nat, to: nat) {
    && c < to < |buf| && !IsWhiteSpace(buf[to])
    && (|| (AllWhiteSpace(buf[c + 1..to]) && !IsColon(buf[to]))
        || exists colon :: c < colon < to && IsColon(buf[colon])
                           && AllWhiteSpace(buf[c + 1..colon]) && AllWhiteSpace(buf[colon + 1..to]))
  }

  /** The token `buf[o..c + 1]` is a target key and a maskable value follows it. */
  ghost predicate TargetWithValue(cfg: Config, keys: set<seq<byte>>, buf: seq<byte>, o: nat, c: nat) {
    && o < c <= |buf|
    && buf[o + 1..c] in keys
    && exists colon: nat, value: nat :: MaskableValueAt(cfg, buf, c, colon, value)
  }

  /** The scan reads past the end after the token `buf[o..c + 1]`: while
      looking for its colon or value, or while masking the value of a target
      key. */
  ghost predicate TokenRunsOff(cfg: Config, keys: set<seq<byte>>, buf: seq<byte>, o: nat, c: nat) {
    || HeaderRunsOff(buf, c)
    || (&& o < c <= |buf| && buf[o + 1..c] in keys
        && exists colon: nat, value: nat :: MaskableValueAt(cfg, buf, c, colon, value) && ValueRunsOff(cfg, buf, value))
  }

  /** What follows a quoted token `buf[o..c + 1]`. */
  datatype Token =
    | Truncated                        // the buffer ends before the colon or the value
    | Skip(to: nat)                    // not a key, no maskable value, or not a target key
    | Maskable(colon: nat, value: nat) // a target key with a maskable value at `value`

  /** After the token that closes at `c` come whitespace, a colon at `colon`,
      whitespace, and at `value` the first byte of a string or, with number
      masking, of a number. */
  predicate MaskableValueAt(cfg: Config, buf: seq<byte>, c: nat, colon: nat, value: nat) {
    && c < colon < value < |buf|
    && IsColon(buf[colon])
    && AllWhiteSpace(buf[c + 1..colon]) && AllWhiteSpace(buf[colon + 1..value])
    && (IsDoubleQuote(buf[value]) || (cfg.maskNumbers && IsFirstNumberChar(buf[value])))
  }

  /** A byte that is not whitespace, with only whitespace between `from` and
      it, is the first one `SkipWhiteSpace` stops at. */
  lemma FirstNonWhiteSpace(buf: seq<byte>, from: nat, at: nat, x: nat)
    requires from <= at <= |buf| && AllWhiteSpace(buf[from..at]) && (at < |buf| ==> !IsWhiteSpace(buf[at]))
    requires from <= x < |buf| && AllWhiteSpace(buf[from..x]) && !IsWhiteSpace(buf[x])
    ensures x == at
  {
  }

  /** `SkipWhiteSpace` stops at the end of the buffer exactly when only
      whitespace follows `from`. */
  lemma WhiteSpaceToEnd(buf: seq<byte>, from: nat, at: nat)
    requires from <= at <= |buf| && AllWhiteSpace(buf[from..at]) && (at < |buf| ==> !IsWhiteSpace(buf[at]))
    ensures at == |buf| <==> AllWhiteSpace(buf[from..])
  {
    if at < |buf| {
      assert buf[from..][at - from] == buf[at];
    } else {
      assert buf[from..at] == buf[from..];
    }
  }

  /** Classifies a quoted token: it is a key only if whitespace and a colon
      follow, its value must be a string or (with number masking) a number, and
      the key must be a target key. A token that is skipped resumes the scan at
      the first byte that is not whitespace after it, or after its colon. */
  method ClassifyToken(cfg: Config, keys: set<seq<byte>>, buf: seq<byte>, o: nat, c: nat) returns (t: Token)
    requires o < c < |buf|
    ensures t.Truncated? <==> HeaderRunsOff(buf, c)
    ensures t.Skip? ==> SkipsTo(buf, c, t.to)
    ensures t.Maskable? ==>
      && c < t.colon < t.value < |buf|
      && IsColon(buf[t.colon])
      && AllWhiteSpace(buf[c + 1..t.colon]) && AllWhiteSpace(buf[t.colon + 1..t.value])
      && (IsDoubleQuote(buf[t.value]) || (cfg.maskNumbers && IsFirstNumberChar(buf[t.value])))
      && buf[o + 1..c] in keys
    ensures t.Maskable? ==>
      forall colon: nat, value: nat :: MaskableValueAt(cfg, buf, c, colon, value) ==> colon == t.colon && value == t.value
    ensures !t.Maskable? ==>
      forall colon: nat, value: nat :: MaskableValueAt(cfg, buf, c, colon, value) ==> buf[o + 1..c] !in keys
  {
    // a key is followed by whitespace and a colon
    var colonIndex := SkipWhiteSpace(buf, c + 1);
    WhiteSpaceToEnd(buf, c + 1, colonIndex);
    forall colon | c < colon < |buf| && IsColon(buf[colon]) && AllWhiteSpace(buf[c + 1..colon])
      ensures colon == colonIndex
    {
      FirstNonWhiteSpace(buf, c + 1, colonIndex, colon);
    }
    if colonIndex == |buf| {
      t := Truncated;
    } else if !IsColon(buf[colonIndex]) {
      t := Skip(colonIndex);
    } else {
      t := ClassifyValue(cfg, keys, buf, o, c, colonIndex);
    }
  }

  /** The part of `ClassifyToken` after the colon at `colonIndex`. */
  method ClassifyValue(cfg: Config, keys: set<seq<byte>>, buf: seq<byte>, o: nat, c: nat, colonIndex: nat)
    returns (t: Token)
    requires o < c < colonIndex < |buf| && IsColon(buf[colonIndex]) && AllWhiteSpace(buf[c + 1..colonIndex])
    requires forall colon :: c < colon < |buf| && IsColon(buf[colon]) && AllWhiteSpace(buf[c + 1..colon]) ==> colon == colonIndex
    ensures t.Truncated? <==> AllWhiteSpace(buf[colonIndex + 1..])
    ensures t.Skip? ==> colonIndex < t.to < |buf| && !IsWhiteSpace(buf[t.to]) && AllWhiteSpace(buf[colonIndex + 1..t.to])
    ensures t.Maskable? ==> t.colon == colonIndex && MaskableValueAt(cfg, buf, c, t.colon, t.value) && buf[o + 1..c] in keys
    ensures forall colon: nat, value: nat :: MaskableValueAt(cfg, buf, c, colon, value) ==>
              if t.Maskable? then colon == t.colon && value == t.value else buf[o + 1..c] !in keys
  {
    // its value is a string, or with number masking a number
    var valueIndex := SkipWhiteSpace(buf, colonIndex + 1);
    WhiteSpaceToEnd(buf, colonIndex + 1, valueIndex);
    forall colon: nat, value: nat | MaskableValueAt(cfg, buf, c, colon, value)
      ensures colon == colonIndex && value == valueIndex
    {
      FirstNonWhiteSpace(buf, colonIndex + 1, valueIndex, value);
    }
    if valueIndex == |buf| {
      t := Truncated;
    } else if !IsDoubleQuote(buf[valueIndex]) && (!cfg.maskNumbers || !IsFirstNumberChar(buf[valueIndex])) {
      t := Skip(valueIndex);
    } else if buf[o + 1..c] !in keys {
      // the key must be a target key
      t := Skip(valueIndex);
    } else {
      t := Maskable(colonIndex, valueIndex);
    }
  }

  /** Moves the cursor on to `to` without touching the buffer, as the scanner's
      `continue mainLoop` does. */
  method SkipTo(cfg: Config, keys: set<seq<byte>>, buf: seq<byte>, i: nat, to: nat)
    returns (outcome: Outcome, next: seq<byte>, cursor: nat, ghost added: seq<Piece>, ghost consumed: nat)
    requires i < to <= |buf|
    ensures outcome == Advanced && next == buf && cursor == to
    ensures added == [Keep(buf[i..to])] && consumed == to - i
    ensures Advances(cfg, keys, buf, i, next, cursor, added, consumed)
  {
    outcome, next, cursor, added, consumed := Advanced, buf, to, [Keep(buf[i..to])], to - i;
    SkipAdvances(cfg, keys, buf, i, to, next, cursor, added, consumed);
  }

  /** The rest of a pass once a quoted token `buf[o..c + 1]` is found: a
      target key with a maskable value gets its value masked; otherwise the
      cursor moves on and the buffer is unchanged. The pass fails exactly when
      the search for the colon or the value, or the masking of a target key's
      value, reads past the end. */
  method ScanToken(cfg: Config, keys: set<seq<byte>>, buf: seq<byte>, i: nat, o: nat, c: nat)
    returns (outcome: Outcome, next: seq<byte>, cursor: nat, ghost added: seq<Piece>, ghost consumed: nat)
    requires i <= o < c < |buf|
    requires IsDoubleQuote(buf[o]) && IsDoubleQuote(buf[c])
    ensures outcome != Stop
    ensures outcome == Advanced ==> Advances(cfg, keys, buf, i, next, cursor, added, consumed)
    ensures outcome == Fail <==> TokenRunsOff(cfg, keys, buf, o, c)
    ensures !TargetWithValue(cfg, keys, buf, o, c) ==> next == buf
    ensures outcome == Advanced && !TargetWithValue(cfg, keys, buf, o, c) ==>
              added == [Keep(buf[i..cursor])] && SkipsTo(buf, c, cursor)
    ensures outcome == Advanced && buf[o + 1..c] in keys ==>
      forall colon: nat, value: nat :: MaskableValueAt(cfg, buf, c, colon, value) ==>
        MasksValue(cfg, buf, i, o, c, value, added, consumed)
    ensures outcome == Advanced ==> EndsNumbers(buf, i, added, consumed)
  {
    var t := ClassifyToken(cfg, keys, buf, o, c);
    if t.Truncated? {
      outcome, next, cursor, added, consumed := Fail, buf, i, [], 0;
    } else if t.Skip? {
      outcome, next, cursor, added, consumed := SkipToken(cfg, keys, buf, i, o, c, t.to);
    } else {
      outcome, next, cursor, added, consumed := MaskToken(cfg, keys, buf, i, o, c, t.colon, t.value);
    }
  }

  /** `ScanToken` for a token that is skipped, resuming at `to`. */
  method SkipToken(cfg: Config, keys: set<seq<byte>>, buf: seq<byte>, i: nat, o: nat, c: nat, to: nat)
    returns (outcome: Outcome, next: seq<byte>, cursor: nat, ghost added: seq<Piece>, ghost consumed: nat)
    requires i <= o < c < |buf| && !HeaderRunsOff(buf, c) && SkipsTo(buf, c, to)
    requires forall colon: nat, value: nat :: MaskableValueAt(cfg, buf, c, colon, value) ==> buf[o + 1..c] !in keys
    ensures outcome == Advanced && Advances(cfg, keys, buf, i, next, cursor, added, consumed)
    ensures !TargetWithValue(cfg, keys, buf, o, c) && !TokenRunsOff(cfg, keys, buf, o, c)
    ensures next == buf && added == [Keep(buf[i..cursor])] && SkipsTo(buf, c, cursor)
    ensures EndsNumbers(buf, i, added, consumed)
  {
    SkippedToken(cfg, keys, buf, o, c);
    outcome, next, cursor, added, consumed := SkipTo(cfg, keys, buf, i, to);
  }

  /** `ScanToken` for a target key whose only maskable value starts at `value`. */
  method MaskToken(cfg: Config, keys: set<seq<byte>>, buf: seq<byte>, i: nat, o: nat, c: nat, colon: nat, value: nat)
    returns (outcome: Outcome, next: seq<byte>, cursor: nat, ghost added: seq<Piece>, ghost consumed: nat)
    requires i <= o < c < |buf| && !HeaderRunsOff(buf, c)
    requires IsDoubleQuote(buf[o]) && IsDoubleQuote(buf[c])
    requires MaskableValueAt(cfg, buf, c, colon, value) && buf[o + 1..c] in keys
    requires forall colon': nat, value': nat :: MaskableValueAt(cfg, buf, c, colon', value') ==>
               colon' == colon && value' == value
    ensures outcome != Stop
    ensures outcome == Advanced ==> Advances(cfg, keys, buf, i, next, cursor, added, consumed)
    ensures TargetWithValue(cfg, keys, buf, o, c)
    ensures outcome == Fail <==> TokenRunsOff(cfg, keys, buf, o, c)
    ensures outcome == Advanced ==>
      forall colon': nat, value': nat :: MaskableValueAt(cfg, buf, c, colon', value') ==>
        MasksValue(cfg, buf, i, o, c, value', added, consumed)
    ensures outcome == Advanced ==> EndsNumbers(buf, i, added, consumed)
  {
    MaskableToken(cfg, keys, buf, o, c, colon, value);
    outcome, next, cursor, added, consumed := MaskTargetValue(cfg, keys, buf, i, o, c, colon, value);
    if outcome == Advanced {
      MasksValueEndsNumbers(cfg, buf, i, o, c, value, added, consumed);
    }
  }

  /** A token whose header does not run off and that is not a target key with
      a maskable value is skipped without failing. */
  lemma SkippedToken(cfg: Config, keys: set<seq<byte>>, buf: seq<byte>, o: nat, c: nat)
    requires o < c < |buf| && !HeaderRunsOff(buf, c)
    requires forall colon: nat, value: nat :: MaskableValueAt(cfg, buf, c, colon, value) ==> buf[o + 1..c] !in keys
    ensures !TargetWithValue(cfg, keys, buf, o, c) && !TokenRunsOff(cfg, keys, buf, o, c)
  {
  }

  /** A target key whose only maskable value is at `value` fails exactly when
      that value runs off. */
  lemma MaskableToken(cfg: Config, keys: set<seq<byte>>, buf: seq<byte>, o: nat, c: nat, colon: nat, value: nat)
    requires o < c && !HeaderRunsOff(buf, c)
    requires MaskableValueAt(cfg, buf, c, colon, value) && buf[o + 1..c] in keys
    requires forall colon': nat, value': nat :: MaskableValueAt(cfg, buf, c, colon', value') ==>
               colon' == colon && value' == value
    ensures TargetWithValue(cfg, keys, buf, o, c)
    ensures TokenRunsOff(cfg, keys, buf, o, c) <==> ValueRunsOff(cfg, buf, value)
  {
  }

  /** Dispatches a target key's value to number or string masking: a value that
      is not a string reaches this point only as a number. */
  method MaskTargetValue(cfg: Config, keys: set<seq<byte>>, buf: seq<byte>, i: nat,
                         o: nat, c: nat, colon: nat, k: nat)
    returns (outcome: Outcome, next: seq<byte>, cursor: nat, ghost added: seq<Piece>, ghost consumed: nat)
    requires i <= o < c < colon < k < |buf|
    requires IsDoubleQuote(buf[o]) && IsDoubleQuote(buf[c]) && IsColon(buf[colon])
    requires buf[o + 1..c] in keys
    requires AllWhiteSpace(buf[c + 1..colon]) && AllWhiteSpace(buf[colon + 1..k])
    requires IsDoubleQuote(buf[k]) || (cfg.maskNumbers && IsFirstNumberChar(buf[k]))
    ensures outcome != Stop
    ensures outcome == Fail <==> ValueRunsOff(cfg, buf, k)
    ensures outcome == Advanced ==> Advances(cfg, keys, buf, i, next, cursor, added, consumed)
    ensures outcome == Advanced ==> |added| == 2 && added[1].Field? && added[1].isString == !IsNumberValue(cfg, buf[k])
    ensures outcome == Advanced ==> MasksValue(cfg, buf, i, o, c, k, added, consumed)
  {
    if IsNumberValue(cfg, buf[k]) {
      outcome, next, cursor, added, consumed := MaskNumberField(cfg, keys, buf, i, o, c, colon, k);
    } else {
      outcome, next, cursor, added, consumed := MaskStringField(cfg, keys, buf, i, o, c, colon, k);
    }
  }

  /** The main-loop invariant: the pieces so far reassemble to the input up to
      `j` and to the buffer up to the cursor `i`, and the rest of the buffer is
      the rest of the input. */
  ghost predicate Scanned(cfg: Config, keys: set<seq<byte>>, input: seq<byte>, buf: seq<byte>,
                          i: nat, j: nat, ps: seq<Piece>)
  {
    && i <= |buf| && j <= |input|
    && Befores(ps) == input[..j]
    && Afters(ps) == buf[..i]
    && buf[i..] == input[j..]
    && AllValid(cfg, keys, ps)
  }

  lemma ScannedAdvance(cfg: Config, keys: set<seq<byte>>, input: seq<byte>, buf: seq<byte>, i: nat, j: nat,
                       ps: seq<Piece>, next: seq<byte>, cursor: nat, added: seq<Piece>, consumed: nat)
    requires Scanned(cfg, keys, input, buf, i, j, ps)
    requires Advances(cfg, keys, buf, i, next, cursor, added, consumed)
    ensures Scanned(cfg, keys, input, next, cursor, j + consumed, ps + added)
    ensures |next| - cursor < |buf| - i
  {
    BeforesAppend(ps, added);
    SuffixSlices(input, buf, i, j, consumed);
    assert next[..cursor] == next[..i] + next[i..cursor];
    AllValidAppend(cfg, keys, ps, added);
  }

  lemma SuffixSlices(input: seq<byte>, buf: seq<byte>, i: nat, j: nat, consumed: nat)
    requires i + consumed <= |buf| && j <= |input| && buf[i..] == input[j..]
    ensures buf[i..i + consumed] == input[j..j + consumed]
    ensures input[..j + consumed] == input[..j] + input[j..j + consumed]
    ensures buf[i + consumed..] == input[j + consumed..]
  {
    assert buf[i..i + consumed] == buf[i..][..consumed];
    assert input[j..j + consumed] == input[j..][..consumed];
    assert buf[i + consumed..] == buf[i..][consumed..];
    assert input[j + consumed..] == input[j..][consumed..];
  }

  lemma AllValidAppend(cfg: Config, keys: set<seq<byte>>, ps: seq<Piece>, qs: seq<Piece>)
    requires AllValid(cfg, keys, ps) && AllValid(cfg, keys, qs)
    ensures AllValid(cfg, keys, ps + qs)
  {
    forall p | p in ps + qs
      ensures ValidField(cfg, keys, p)
    {
      if p in ps {
      } else {
        assert p in qs;
      }
    }
  }

  /** A single kept stretch stands for itself on both sides. */
  lemma SingleKeep(cfg: Config, keys: set<seq<byte>>, x: seq<byte>)
    ensures Befores([Keep(x)]) == x && Afters([Keep(x)]) == x
    ensures AllValid(cfg, keys, [Keep(x)])
  {
    assert [Keep(x)][..0] == [];
  }

  lemma ScannedFinish(cfg: Config, keys: set<seq<byte>>, input: seq<byte>, buf: seq<byte>, i: nat, j: nat,
                      ps: seq<Piece>)
    returns (ps': seq<Piece>)
    requires Scanned(cfg, keys, input, buf, i, j, ps) && NumbersWhole(input, ps)
    ensures ps' == ps + [Keep(buf[i..])]
    ensures Befores(ps') == input && Afters(ps') == buf && AllValid(cfg, keys, ps')
    ensures NumbersWhole(input, ps')
    ensures FirstTokenMasked(cfg, keys, input, ps) ==> FirstTokenMasked(cfg, keys, input, ps')
  {
    ps' := ps + [Keep(buf[i..])];
    NumbersWholeKeep(input, ps, buf[i..]);
    if FirstTokenMasked(cfg, keys, input, ps) {
      FirstTokenMaskedGrows(cfg, keys, input, ps, [Keep(buf[i..])]);
    }
    BeforesAppend(ps, [Keep(buf[i..])]);
    SingleKeep(cfg, keys, buf[i..]);
    AllValidAppend(cfg, keys, ps, [Keep(buf[i..])]);
    assert input == input[..j] + input[j..];
    assert buf == buf[..i] + buf[i..];
  }

  /** The unmasked rest of the buffer is the rest of the input, so a failing
      tail found in it is one of the input. */
  lemma UnterminatedInInput(cfg: Config, input: seq<byte>, buf: seq<byte>, i: nat, j: nat)
    requires i <= |buf| && |buf| - i == |input| - j && buf[i..] == input[j..]
    requires exists c :: i < c < |buf| && Unterminated(cfg, buf[c..])
    ensures exists p :: 0 < p < |input| && Unterminated(cfg, input[p..])
  {
    var c :| i < c < |buf| && Unterminated(cfg, buf[c..]);
    assert buf[c..] == buf[i..][c - i..] == input[j..][c - i..] == input[j + (c - i)..];
  }

  /** Every number field of `ps` is followed in the input by a byte that is
      not numeric: the field covers the whole number. */
  ghost predicate NumbersWhole(input: seq<byte>, ps: seq<Piece>) {
    forall n :: 0 <= n < |ps| && ps[n].Field? && !ps[n].isString ==>
      |Befores(ps[..n + 1])| < |input| && !IsNumericCharacter(input[|Befores(ps[..n + 1])|])
  }

  /** When the first quoted token after the opening bracket is a target key
      with a maskable value, the pieces keep the bracket and the bytes before
      the token, and then hold a field with exactly this key, masked as a
      number or a string as the value's first byte says. */
  ghost predicate FirstTokenMasked(cfg: Config, keys: set<seq<byte>>, input: seq<byte>, ps: seq<Piece>) {
    forall o: nat, c: nat, colon: nat, value: nat ::
      FirstToken(input, 1, o, c) && input[o + 1..c] in keys && MaskableValueAt(cfg, input, c, colon, value) ==>
        && |ps| >= 3 && ps[0] == Keep(input[..1]) && ps[1] == Keep(input[1..o])
        && ps[2].Field? && ps[2].key == input[o + 1..c]
        && ps[2].isString == !IsNumberValue(cfg, input[value])
  }

  /** The scan finds one first token at most. */
  lemma FirstTokenUnique(buf: seq<byte>, i: nat, o: nat, c: nat, o': nat, c': nat)
    requires FirstToken(buf, i, o, c) && FirstToken(buf, i, o', c')
    ensures o == o' && c == c'
  {
  }

  /** Without a token in the window there is no first token to mask. */
  lemma NoFirstToken(cfg: Config, keys: set<seq<byte>>, input: seq<byte>, ps: seq<Piece>)
    requires NoTokenFrom(input, 1)
    ensures forall o: nat, c: nat :: !FirstToken(input, 1, o, c)
    ensures FirstTokenMasked(cfg, keys, input, ps)
  {
  }

  /** The first pass over the input masks its first token when that is a
      target key with a maskable value. */
  lemma FirstPassMasks(cfg: Config, keys: set<seq<byte>>, input: seq<byte>, o: nat, c: nat,
                       added: seq<Piece>, consumed: nat)
    requires FirstToken(input, 1, o, c)
    requires input[o + 1..c] in keys ==>
      forall colon: nat, value: nat :: MaskableValueAt(cfg, input, c, colon, value) ==>
        MasksValue(cfg, input, 1, o, c, value, added, consumed)
    ensures FirstTokenMasked(cfg, keys, input, [Keep(input[..1])] + added)
  {
    forall o': nat, c': nat, colon: nat, value: nat |
      FirstToken(input, 1, o', c') && input[o' + 1..c'] in keys && MaskableValueAt(cfg, input, c', colon, value)
      ensures && |[Keep(input[..1])] + added| >= 3
              && ([Keep(input[..1])] + added)[0] == Keep(input[..1])
              && ([Keep(input[..1])] + added)[1] == Keep(input[1..o'])
              && ([Keep(input[..1])] + added)[2].Field?
              && ([Keep(input[..1])] + added)[2].key == input[o' + 1..c']
              && ([Keep(input[..1])] + added)[2].isString == !IsNumberValue(cfg, input[value])
    {
      FirstTokenUnique(input, 1, o, c, o', c');
      assert MasksValue(cfg, input, 1, o, c, value, added, consumed);
    }
  }

  /** Later pieces leave the first ones alone. */
  lemma FirstTokenMaskedGrows(cfg: Config, keys: set<seq<byte>>, input: seq<byte>, ps: seq<Piece>, more: seq<Piece>)
    requires FirstTokenMasked(cfg, keys, input, ps)
    ensures FirstTokenMasked(cfg, keys, input, ps + more)
  {
    forall o: nat, c: nat, colon: nat, value: nat |
      FirstToken(input, 1, o, c) && input[o + 1..c] in keys && MaskableValueAt(cfg, input, c, colon, value)
      ensures && |ps + more| >= 3 && (ps + more)[0] == ps[0] && (ps + more)[1] == ps[1] && (ps + more)[2] == ps[2]
    {
    }
  }

  /** The pieces of one pass keep every number field whole. */
  lemma NumbersWholeAppend(cfg: Config, keys: set<seq<byte>>, input: seq<byte>, buf: seq<byte>, i: nat, j: nat,
                           ps: seq<Piece>, next: seq<byte>, cursor: nat, added: seq<Piece>, consumed: nat)
    requires NumbersWhole(input, ps) && Scanned(cfg, keys, input, buf, i, j, ps)
    requires Advances(cfg, keys, buf, i, next, cursor, added, consumed) && EndsNumbers(buf, i, added, consumed)
    ensures NumbersWhole(input, ps + added)
  {
    forall n | 0 <= n < |ps + added| && (ps + added)[n].Field? && !(ps + added)[n].isString
      ensures |Befores((ps + added)[..n + 1])| < |input|
      ensures !IsNumericCharacter(input[|Befores((ps + added)[..n + 1])|])
    {
      if n < |ps| {
        PrefixOfAppend(ps, added, n + 1);
      } else {
        AppendedNumberWhole(input, buf, i, j, ps, added, consumed, n);
      }
    }
  }

  /** The number field a pass adds is its last piece, so the byte after it
      in the input is the one the pass stopped at. */
  lemma AppendedNumberWhole(input: seq<byte>, buf: seq<byte>, i: nat, j: nat, ps: seq<Piece>,
                            added: seq<Piece>, consumed: nat, n: nat)
    requires j <= |input| && Befores(ps) == input[..j]
    requires i + consumed <= |buf| && |buf| - i == |input| - j && buf[i..] == input[j..]
    requires Befores(added) == buf[i..i + consumed]
    requires EndsNumbers(buf, i, added, consumed)
    requires |ps| <= n < |ps + added| && (ps + added)[n].Field? && !(ps + added)[n].isString
    ensures |Befores((ps + added)[..n + 1])| < |input|
    ensures !IsNumericCharacter(input[|Befores((ps + added)[..n + 1])|])
  {
    BeforesAppend(ps, added);
    SuffixSlices(input, buf, i, j, consumed);
    assert (ps + added)[n] == added[n - |ps|];
    assert (ps + added)[..n + 1] == ps + added;
    assert input[j + consumed] == buf[i..][consumed];
  }

  lemma PrefixOfAppend(ps: seq<Piece>, qs: seq<Piece>, m: nat)
    requires m <= |ps|
    ensures (ps + qs)[..m] == ps[..m]
  {
  }

  /** A final kept stretch adds no number field. */
  lemma NumbersWholeKeep(input: seq<byte>, ps: seq<Piece>, rest: seq<byte>)
    requires NumbersWhole(input, ps)
    ensures NumbersWhole(input, ps + [Keep(rest)])
  {
    forall n | 0 <= n < |ps + [Keep(rest)]| && (ps + [Keep(rest)])[n].Field? && !(ps + [Keep(rest)])[n].isString
      ensures |Befores((ps + [Keep(rest)])[..n + 1])| < |input|
      ensures !IsNumericCharacter(input[|Befores((ps + [Keep(rest)])[..n + 1])|])
    {
      PrefixOfAppend(ps, [Keep(rest)], n + 1);
    }
  }

  /** An advancing pass keeps the main loop's invariant. */
  lemma PassKeepsInvariant(cfg: Config, keys: set<seq<byte>>, input: seq<byte>, buf: seq<byte>, i: nat, j: nat,
                           ps: seq<Piece>, started: bool, next: seq<byte>, cursor: nat, added: seq<Piece>,
                           consumed: nat, o: nat, c: nat)
    returns (j': nat, ps': seq<Piece>)
    requires Scanned(cfg, keys, input, buf, i, j, ps) && NumbersWhole(input, ps)
    requires !started ==> i == 1 && j == 1 && buf == input && ps == [Keep(input[..1])]
    requires started ==> FirstTokenMasked(cfg, keys, input, ps)
    requires Advances(cfg, keys, buf, i, next, cursor, added, consumed) && EndsNumbers(buf, i, added, consumed)
    requires FirstToken(buf, i, o, c)
    requires buf[o + 1..c] in keys ==>
      forall colon: nat, value: nat :: MaskableValueAt(cfg, buf, c, colon, value) ==>
        MasksValue(cfg, buf, i, o, c, value, added, consumed)
    ensures j' == j + consumed && ps' == ps + added
    ensures |next| - cursor == |input| - j' && |next| - cursor < |buf| - i
    ensures Scanned(cfg, keys, input, next, cursor, j', ps')
    ensures NumbersWhole(input, ps')
    ensures FirstTokenMasked(cfg, keys, input, ps')
  {
    j', ps' := j + consumed, ps + added;
    ScannedAdvance(cfg, keys, input, buf, i, j, ps, next, cursor, added, consumed);
    NumbersWholeAppend(cfg, keys, input, buf, i, j, ps, next, cursor, added, consumed);
    FirstTokenMaskedAfterPass(cfg, keys, input, buf, i, j, ps, started, added, consumed, o, c);
  }

  lemma FirstTokenMaskedAfterPass(cfg: Config, keys: set<seq<byte>>, input: seq<byte>, buf: seq<byte>, i: nat,
                                  j: nat, ps: seq<Piece>, started: bool, added: seq<Piece>, consumed: nat,
                                  o: nat, c: nat)
    requires FirstToken(buf, i, o, c)
    requires !started ==> i == 1 && j == 1 && buf == input && ps == [Keep(input[..1])]
    requires started ==> FirstTokenMasked(cfg, keys, input, ps)
    requires buf[o + 1..c] in keys ==>
      forall colon: nat, value: nat :: MaskableValueAt(cfg, buf, c, colon, value) ==>
        MasksValue(cfg, buf, i, o, c, value, added, consumed)
    ensures FirstTokenMasked(cfg, keys, input, ps + added)
  {
    if !started {
      FirstPassMasks(cfg, keys, input, o, c, added, consumed);
    } else {
      FirstTokenMaskedGrows(cfg, keys, input, ps, added);
    }
  }

  /** One pass of the main loop from cursor `i`, with the loop's invariant
      carried across it: `started` tells whether an earlier pass ran. */
  method MainLoopPass(cfg: Config, keys: set<seq<byte>>, input: seq<byte>, buf: seq<byte>, i: nat,
                      ghost j: nat, ghost ps: seq<Piece>, ghost started: bool)
    returns (outcome: Outcome, next: seq<byte>, cursor: nat, ghost j': nat, ghost ps': seq<Piece>)
    requires 1 <= i && i + MIN_OFFSET_JSON_KEY_QUOTE < |buf| && |buf| - i == |input| - j
    requires Scanned(cfg, keys, input, buf, i, j, ps) && NumbersWhole(input, ps)
    requires !started ==> i == 1 && j == 1 && buf == input && ps == [Keep(input[..1])]
    requires started ==> FirstTokenMasked(cfg, keys, input, ps)
    ensures outcome == Stop ==> FirstTokenMasked(cfg, keys, input, ps)
    ensures outcome == Fail ==> exists p :: 0 < p < |input| && Unterminated(cfg, input[p..])
    ensures outcome == Advanced ==>
      && i < cursor && |next| - cursor == |input| - j' && |next| - cursor < |buf| - i
      && Scanned(cfg, keys, input, next, cursor, j', ps')
      && NumbersWhole(input, ps')
      && FirstTokenMasked(cfg, keys, input, ps')
  {
    ghost var added, consumed;
    var o, c;
    outcome, next, cursor, added, consumed, o, c := ScanStep(cfg, keys, buf, i);
    j', ps' := j, ps;
    if outcome == Stop {
      if !started {
        NoFirstToken(cfg, keys, input, ps);
      }
    } else if outcome == Fail {
      UnterminatedInInput(cfg, input, buf, i, j);
    } else {
      j', ps' := PassKeepsInvariant(cfg, keys, input, buf, i, j, ps, started, next, cursor, added, consumed, o, c);
    }
  }

  /** Masks the values of all target keys in `input`. The ghost `ps` cuts the
      input into kept stretches and masked fields: reassembled from the input
      side it gives back `input`, from the output side the result. */
  method Mask(cfg: Config, keys: set<seq<byte>>, input: seq<byte>) returns (r: Result<seq<byte>>, ghost ps: seq<Piece>)
    ensures |input| == 0 ==> r == OutOfBounds
    ensures r == OutOfBounds ==> |input| == 0 || exists p :: 0 < p < |input| && Unterminated(cfg, input[p..])
    ensures |input| > 0 && (!IsObjectOrArray(input) || |input| < 7) ==> r == Ok(input)
    ensures r.Ok? ==> Befores(ps) == input && Afters(ps) == r.value && AllValid(cfg, keys, ps)
    ensures r.Ok? && (forall key :: key in keys ==> !Occurs(Quote(key), input)) ==> r.value == input
    ensures r.Ok? && IsObjectOrArray(input) && |input| >= 7 ==> FirstTokenMasked(cfg, keys, input, ps)
    ensures r.Ok? ==> NumbersWhole(input, ps)
  {
    if |input| == 0 {
      // the Java code reads input[0] before it looks at the length
      return OutOfBounds, [];
    }
    if !IsObjectOrArray(input) || |input| < 7 {
      ps := [Keep(input)];
      assert ps[..0] == [];
      return Ok(input), ps;
    }
    var buf := input;
    var i: nat := 1; // the opening bracket is skipped, so i - 1 is always in range
    ghost var j: nat := 1;
    ghost var started := false;
    ps := [Keep(input[..1])];
    assert ps[..0] == [];
    while i < |buf| - MIN_OFFSET_JSON_KEY_QUOTE
      invariant 1 <= i
      invariant |buf| - i == |input| - j
      invariant Scanned(cfg, keys, input, buf, i, j, ps)
      invariant NumbersWhole(input, ps)
      invariant !started ==> i == 1 && j == 1 && buf == input && ps == [Keep(input[..1])]
      invariant started ==> FirstTokenMasked(cfg, keys, input, ps)
      decreases |buf| - i
    {
      var outcome, next, cursor, j', ps' := MainLoopPass(cfg, keys, input, buf, i, j, ps, started);
      if outcome == Stop {
        started := true;
        break;
      }
      if outcome == Fail {
        return OutOfBounds, ps;
      }
      started := true;
      ps := ps';
      buf, i, j := next, cursor, j';
    }
    ps := ScannedFinish(cfg, keys, input, buf, i, j, ps);
    r := Ok(buf);
    if forall key :: key in keys ==> !Occurs(Quote(key), input) {
      NoTargetKeyNoChange(cfg, keys, ps, input);
    }
  }
}
