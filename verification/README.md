# json-masker scanners in Dafny

This project models the two byte scanners of json-masker. Both mask the values of
chosen keys in a JSON document without parsing it.

- **Key-contains masker** (`KeyContainsMasker.mask`, module `KeyContains`).
  - It walks a UTF-8 buffer from index 1 and finds quoted tokens by their unescaped
    double quotes.
  - A token is a key when whitespace and then a colon follow it. Its value must be a
    string, or a number when number masking is on. The key must be in the target set.
  - The value's bytes are overwritten with the mask byte.
  - When an obfuscation length is configured, or when the string value contains
    escapes, the value is spliced to a new length. The cursor moves back by the same
    amount.
- **Escape automaton** (module `Escape`). The masking loop over a string value runs
  a small automaton with two flags. The model checks it against reference
  definitions: the length of the trailing backslash run, and the number of
  backslashes that open an escape.
- **Fixed-length splice** (module `FixedLength`). `FixedLengthValueUtil` is not part
  of this model. Its splice is modelled as the pure sequence function
  `buf[..end - actual] + fill^desired + buf[end..]`.
- **Single-key masker** (`JsonMasker.maskValuesOfTargetKey`, module `JsonMasker`).
  - It searches for the quoted target key and requires spaces and then a colon after
    it.
  - It overwrites string values with `*` in place, so the document keeps its length.
  - When an obfuscation length is given, it stops after that many bytes.

Shared byte classifiers live in module `Bytes`. `Utf8AsciiJson` and
`Utf8AsciiCharacter` are not part of this model. Their predicates are given the
lexical classes of RFC 8259:
- whitespace is space, tab, line feed and carriage return (section 2);
- a number starts with `-` or a digit, and its bytes are digits and `- + . e E`
  (section 6);
- strings use the double quote and the backslash escape (section 7).

What the model keeps from the Java code:
- Reads past the end of the array become the result `OutOfBounds`. In the
  key-contains masker this covers an empty input, whitespace (or whitespace, a colon
  and whitespace) running to the end after a quoted token, and a target key's number
  or string value that has no end. A byte other than whitespace or a colon after a
  token is not a failure: the token is skipped. In the single-key masker it covers
  spaces running to the end after the key, and a string value with no closing quote
  that ends before the obfuscation length is reached.
- The key-contains masker has no precondition on its input. The single-key masker
  requires ASCII input and an ASCII key (see "Left out").
- The key-contains result carries a ghost list of pieces. Each piece is a stretch
  kept verbatim or a masked key-value field. Joining the pieces' input sides gives
  the input, and joining their output sides gives the output. This is how "bytes
  outside masked values are untouched" is stated.
- The single-key result carries a ghost list of spans, the masked stretches. Every
  byte outside a span equals the input byte.
- The string loop tests only the byte just before a double quote. So the closing
  quote of `"a\\"` is taken as escaped, even though the automaton's own parity flag
  knows the backslash run is even. `KeyContains.CompleteEscapeRunHidesQuote` states
  this for every buffer. The key-finding test `isUnescapedDoubleQuote` has the same
  one-byte look-behind. The model follows the code.
- In `KeyContainsMasker.java`, the closing-quote loop also tests
  `i < input.length - 1`. That test always holds there, because the inner bound
  `input.length - 4` is checked first.

## Model

| member | source | states |
|---|---|---|
| KeyContains.Mask | src/main/java/masker/json/KeyContainsMasker.java:31-156 | An empty input fails, like the `input[0]` read. A non-bracket first byte, or fewer than 7 bytes, returns the input unchanged. On success the pieces reassemble to the input on one side and the output on the other, and every masked field is a target key with a well-formed, correctly sized mask. If no target key occurs quoted in the input, the output equals the input. If the first quoted token after the bracket is a target key with a maskable value, the pieces are the bracket, the bytes up to the token, and a masked field for exactly that key, masked as a number or a string by the value's first byte. Every masked number covers the whole literal: the input byte after it is not numeric. A failure on a non-empty input happens only where some suffix of the input is an unterminated token tail: a quote after which the colon or value search runs to the end, or a maskable value follows and has no end. |
| KeyContains.ScanStep | src/main/java/masker/json/KeyContainsMasker.java:40-60 | One main-loop pass from cursor `i` stops exactly when no pair of unescaped quotes fits the search window (the opening one before `length - 4`, the closing one before `length - 3`), and then leaves the buffer unchanged. Otherwise it returns the token it handled: the first unescaped quote from `i` and the first one after it. The pass fails exactly when that token's tail runs to the end. A token that is not a target key with a maskable value is passed over unchanged, up to the resume byte `ClassifyToken` pins. For a target key with a maskable value, the pass keeps the bytes before the token and adds a field with exactly that key, whose value is the whole string up to the first unescaped quote, or the whole numeric run followed by a non-numeric byte. The distance from the cursor to the end strictly shrinks. |
| KeyContains.FindToken | src/main/java/masker/json/KeyContainsMasker.java:42-57 | A token is found exactly when a pair of unescaped quotes fits the search window; it is the first unescaped quote from `i` and the first one after it. |
| KeyContains.FindUnescapedQuote | src/main/java/masker/json/KeyContainsMasker.java:42-57 | Returns the first unescaped double quote in `[from, limit)`, meaning a quote whose preceding byte is not a backslash. If there is none, it reports the last index examined. Every skipped index is not an unescaped quote. |
| KeyContains.SkipWhiteSpace | src/main/java/masker/json/KeyContainsMasker.java:63-77 | Returns the first index that is not RFC 8259 whitespace, and all bytes skipped are whitespace. |
| KeyContains.UnescapedQuoteByTrailingRun | src/main/java/masker/json/KeyContainsMasker.java:165-167 | For a quote inside a string, the one-byte look-behind `isUnescapedDoubleQuote` takes it as unescaped exactly when no backslash directly precedes it in the string, so a quote JSON escapes (odd backslash run) is never taken as unescaped. |
| KeyContains.ObjectOrArrayByFirstByte | src/main/java/masker/json/KeyContainsMasker.java:169-171 | Whether the input is scanned depends on its first byte only. An input that starts with whitespace, a quote or a number is not an object or array, so by `KeyContains.Mask` it comes back unchanged even when target keys follow. |
| KeyContains.ScanToken | src/main/java/masker/json/KeyContainsMasker.java:61-153 | The pass fails exactly when the colon or value search after the token runs to the end, or the token is a target key whose maskable value has no end. The buffer is unchanged unless the token is a target key followed by whitespace, a colon, whitespace and a maskable value; otherwise the pass keeps one stretch and resumes at the byte `ClassifyToken` pins (java:65/80/83/95). For such a target key, an advancing pass adds the bytes before the token as kept and then a field with exactly this key and exactly this value: the string body up to the first unescaped quote, or the full numeric run, which a non-numeric byte follows. |
| KeyContains.MaskToken | src/main/java/masker/json/KeyContainsMasker.java:98-153 | For a target key with its unique maskable value, the pass fails exactly when the value has no end, and otherwise masks that value of that key as `MaskTargetValue` describes. |
| KeyContains.ClassifyToken | src/main/java/masker/json/KeyContainsMasker.java:61-96 | A token is truncated exactly when only whitespace, or whitespace, a colon and whitespace, follow it to the end. A skipped token resumes at a byte that is not whitespace: the first one after the token when it is not a colon, otherwise the first one after the colon. A maskable token is followed by whitespace, a colon, whitespace and a string or (with number masking) a number start, its key is a target key, and that colon and value position are the only ones possible. A target key with such a value after it is never skipped. |
| KeyContains.ClassifyValue | src/main/java/masker/json/KeyContainsMasker.java:73-96 | After the colon, the token is truncated exactly when only whitespace follows to the end. A skip resumes at the first byte after the colon that is not whitespace. A maskable result names the colon and the first value byte, and no other position qualifies; if the result is not maskable, no target key has a maskable value there. |
| KeyContains.SkipTo | src/main/java/masker/json/KeyContainsMasker.java:63-96 | A `continue mainLoop` advances the pass with the buffer unchanged and the cursor at the resume index. The stretch passed over is kept verbatim. |
| KeyContains.MaskTargetValue | src/main/java/masker/json/KeyContainsMasker.java:98-153 | A target key's value is masked as a number exactly when number masking is on and its first byte is numeric (line 101), and as a string otherwise; the field produced records which. The pass fails exactly when that value has no end. Otherwise it keeps the bytes from the cursor to the key's quote and adds one field whose key is the token's bytes and whose value is the string body up to the first unescaped quote, or the full numeric run, which a non-numeric byte follows. |
| KeyContains.MaskNumberValue | src/main/java/masker/json/KeyContainsMasker.java:101-122 | Every byte of the number becomes the number mask byte. The literal ends up with its own length if no obfuscation is set, 1 for obfuscation length 0, and otherwise the obfuscation length. The cursor lands right after the rewritten literal. A number that runs to the end of the buffer fails. |
| KeyContains.MaskNumberField | src/main/java/masker/json/KeyContainsMasker.java:98-122 | A target key with a number value becomes a valid masked number field after the kept bytes before the key. The field's key is the token's bytes, and its value is the full numeric run from the value's start: the byte after it is not numeric. It fails exactly when every byte from the number's start to the end is numeric. |
| KeyContains.MaskStringInPlace | src/main/java/masker/json/KeyContainsMasker.java:124-141 | Every byte up to the next unescaped quote becomes `*`. The escape count equals the reference count of escape-opening backslashes. A string with no closing quote fails. |
| KeyContains.CompleteEscapeRunHidesQuote | src/main/java/masker/json/KeyContainsMasker.java:128-167 | In any buffer, a quote that follows a complete (even) run of backslashes inside a string is not an unescaped quote, so neither the masking loop nor the key scan takes it as the closing quote. |
| KeyContains.MaskLoopStep | src/main/java/masker/json/KeyContainsMasker.java:130-141 | One pass of the string masking loop keeps its invariant. The masked run grows by one `*`, the flags and count are the automaton's state after the bytes read so far, and no unescaped quote was passed over. |
| KeyContains.FixStringLength | src/main/java/masker/json/KeyContainsMasker.java:142-152 | Whichever branch of the length fix-up runs, the value ends up as exactly the obfuscation length, or its raw length minus its escapes, of `*` bytes. The cursor lands just past the closing quote. |
| KeyContains.MaskStringValue | src/main/java/masker/json/KeyContainsMasker.java:123-153 | The masked string has exactly the obfuscation length, or, without one, its raw length minus its escapes. Bytes before and after the value are unchanged, and the cursor lands just past the closing quote. |
| KeyContains.MaskStringField | src/main/java/masker/json/KeyContainsMasker.java:123-153 | A target key with a string value becomes a valid masked string field after the kept bytes before the key. The field's key is the token's bytes, and its value is the bytes after the opening quote up to the first unescaped quote, all of whose mask bytes are `*`. It fails exactly when no unescaped quote follows the opening quote. |
| KeyContains.ScannedAdvance | src/main/java/masker/json/KeyContainsMasker.java:40-153 | After a pass the main-loop invariant still holds. The measure `buffer length - cursor` strictly drops, even across splices, which makes the loop terminate. |
| KeyContains.FirstPassMasks | src/main/java/masker/json/KeyContainsMasker.java:40-153 | When the first pass handles the first token after the bracket and that token is a target key with a maskable value, the pieces begin with the bracket, the bytes up to the token and a field for that key. |
| KeyContains.NumbersWholeAppend | src/main/java/masker/json/KeyContainsMasker.java:101-107 | Appending the pieces of one pass keeps every masked number whole: a number field is the last piece of its pass, and the input byte after it is the non-numeric byte that ended the literal. |
| KeyContains.KeptPiecesUnchanged | src/main/java/masker/json/KeyContainsMasker.java:63-96 | A document made only of kept stretches comes out as it went in. |
| KeyContains.FieldKeyOccurs | src/main/java/masker/json/KeyContainsMasker.java:90-96 | The quoted key of every masked field occurs in the input. |
| KeyContains.NoTargetKeyNoChange | src/main/java/masker/json/KeyContainsMasker.java:90-96 | If no target key occurs quoted in the input, no field is masked and the output equals the input. |
| Escape.RunMatchesReference | src/main/java/masker/json/KeyContainsMasker.java:127-137 | After any byte string, the automaton's `escapeNext` is "the last byte is a backslash", its `previousCounted` is "the trailing backslash run is odd", and its count is the number of backslashes at odd positions of their runs. |
| Escape.IntroductionsBound | src/main/java/masker/json/KeyContainsMasker.java:142-148 | The escape count is at most half the value length, rounded up for an odd trailing run. So `raw length - escapes` is never negative. |
| Escape.EscapedEscapeCountedOnce | src/main/java/masker/json/KeyContainsMasker.java:131-137 | After an even backslash run, an escaped backslash `\\` adds exactly one to the count and leaves the run even. |
| Escape.EvenRunLooksEscaped | src/main/java/masker/json/KeyContainsMasker.java:128-137 | After any byte string ending in an even, non-empty run of backslashes, the parity flag says the run is complete, yet `escapeNext` still reports a backslash. |
| FixedLength.Splice | src/main/java/masker/json/KeyContainsMasker.java:111-121 | The buffer length changes by `desired - actual`. The prefix before the literal and the suffix after it are kept, and the literal becomes `desired` fill bytes. The distance from the new literal's end to the buffer end is unchanged, which is why the cursor moves back by the same delta. |
| FixedLength.SpliceSameLengthIsIdentity | src/main/java/masker/json/KeyContainsMasker.java:111 | Splicing an already filled literal to its own length changes nothing. `KeyContains.MaskNumberValue` applies it on the path where the code skips the splice because the lengths agree, so that path gives the same result as splicing. |
| FixedLength.SpliceAfterInPlaceFill | src/main/java/masker/json/KeyContainsMasker.java:104-121 | Overwriting a literal in place and then splicing it equals replacing the untouched literal with `desired` fill bytes. |
| JsonMasker.IndexOf | src/main/java/masker/JsonMasker.java:45 | Returns -1 exactly when the pattern does not occur, and otherwise the first index where it occurs. |
| JsonMasker.LocateValue | src/main/java/masker/JsonMasker.java:45-65 | Reports no key exactly when the quoted target key does not occur in the rest of the input; otherwise it looks only at the first occurrence. A string value is reported only after that occurrence, spaces (0x20 only), a colon, spaces and an opening quote, and conversely whenever such a header follows that occurrence, with the cursor at its quote. Without a string value the cursor is where the source resumes: the first byte after the spaces that is not a colon, one past the end when only spaces follow the key, or the first byte after the colon and its spaces that is not a quote (or the end). |
| JsonMasker.LocateColon | src/main/java/masker/JsonMasker.java:48-59 | After the key, the cursor stops at the first byte that is not a space. A byte there other than a colon ends the pass with the cursor on it (line 57). A header after the key has its colon exactly there, a string value is reported exactly when such a header follows, and without one the cursor is the resume point `LocateValue` states. |
| JsonMasker.LocateAfterColon | src/main/java/masker/JsonMasker.java:59-65 | After stepping over the colon (or the missing one), the cursor stops at the first byte that is not a space. A string value is reported exactly when it is a double quote, so the header found is the only one possible. Otherwise the cursor stays on that byte (line 85), or at the end, with only spaces after the colon. |
| JsonMasker.SkipSpaces | src/main/java/masker/JsonMasker.java:50-63 | Returns the first index from `from` that is the end or not a space (0x20), and every byte skipped is a space. |
| JsonMasker.MaskStringValue | src/main/java/masker/JsonMasker.java:64-79 | Masks with `*` from the value's first byte up to, but not including, the next double quote, or exactly `obfuscationLength` bytes if that comes first. All other bytes are unchanged. The cursor steps one byte further when the cap was reached. It fails exactly when no double quote follows and the cap is not reached before the end. |
| JsonMasker.SpanAppended | src/main/java/masker/JsonMasker.java:64-83 | Masking one more string value after a header adds one valid span, and the output is still the input overwritten over exactly the spans. |
| JsonMasker.MaskPass | src/main/java/masker/JsonMasker.java:35-85 | One outer pass finds no key exactly when the quoted key does not occur in the slice. Otherwise it looks at the first occurrence. When a string-value header follows it, the pass fails exactly when that value has no end. Otherwise it appends one span starting right after the value's quote, and the next pass starts at the closing quote, or, when the cap stopped it, one byte past the first unmasked byte (line 73). Without such a header the output and spans are unchanged, and the next pass starts where `LocateValue` says. When it continues, the cursor has advanced by at least the key length, and the output is the input masked over valid spans only. |
| JsonMasker.MaskValuesOfTargetKey | src/main/java/masker/JsonMasker.java:30-89 | A short input, or one where the quoted key never occurs, is returned unchanged. On success the output has the input's length, every byte is `*` inside a masked span and the input byte outside, and each span follows the key, spaces, a colon, spaces and a quote, holds no quote, and is capped at the obfuscation length. The string value after the first occurrence of the key, when a header follows it, is masked. A failure happens only where spaces run to the end after an occurrence of the key, or a string value after a header has no end. |
| JsonMasker.CoveredAfterKey | src/main/java/masker/JsonMasker.java:45-79 | Every overwritten byte lies after an occurrence of the quoted target key. |

## Left out

- KeyContains.Mask: does not state whole-document completeness, that is, that every target key with a maskable value gets masked. Which tokens the scanner sees depends on where each pass resumes. The model states soundness (only target-key values change, with the configured lengths, and numbers are masked whole), the early returns, and masking of the first token after the bracket. `KeyContains.ScanStep` states for every pass which token it handles, where it resumes, and that a target key's value is masked. For the same reason the failure clause is a necessary condition (an unterminated token tail occurs in the input), not a sufficient one.
- JsonMasker.MaskValuesOfTargetKey: requires ASCII input and an ASCII key. The Java code mixes `String` character indices with UTF-8 byte indices, and the two agree only on ASCII.
- JsonMasker.MaskValuesOfTargetKey: promises masking only for the value after the first occurrence of the key. Later passes start where the previous one stopped, and which occurrences they see depends on that. `JsonMasker.MaskPass` states each pass's behaviour, including where the next pass starts. The failure clause is a necessary condition, not a sufficient one, for the same reason.
- Allow mode and case-insensitive key matching: the modelled scanner only tests set membership.
- UTF-8 decoding of keys: keys are compared as byte sequences.
- `JsonMasker.mask(byte[], Charset)` and the String/byte conversions: they are I/O wrappers around the scanners.
- `FixedLengthValueUtil`, `Utf8AsciiJson`, `Utf8AsciiCharacter`, `JsonMaskingConfig` and `AbstractMasker` are not part of this model. They are represented by the splice function, the RFC 8259 classifiers, the `Config` datatype, and the target key and obfuscation length passed as parameters.
- Java exceptions: they are not raised. Each out-of-range read becomes the result `OutOfBounds`, and no other exception kind is distinguished.
- In-place mutation of the caller's array: the buffer is an immutable sequence, so the model does not show the caller seeing a partly masked array.
- The fuzzing and property tests: they use random generation, a reference JSON library, threads and timeouts.
