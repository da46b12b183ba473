/** The two-flag look-behind automaton the key-contains masker runs over the
    bytes of a string value it masks. `escapeNext` records whether the byte just
    read is an escape character; `previousCounted` records whether that byte
    opened an escape (so that the escape character it escapes is not counted
    again); `count` is the number of escapes opened so far. */
module Escape {
  import opened Bytes

  datatype State = State(escapeNext: bool, previousCounted: bool, count: nat)

  const Initial: State := State(false, false, 0)

  /** One pass of the masking loop body over byte `b`. */
  function Step(st: State, b: byte): State {
    var escapeNext := IsEscapeCharacter(b);
    if escapeNext && !st.previousCounted then State(true, true, st.count + 1)
    else State(escapeNext, false, st.count)
  }

  /** The automaton after reading all of `s`, starting from `Initial`. */
  function Run(s: seq<byte>): State
    decreases |s|
  {
    if |s| == 0 then Initial else Step(Run(s[..|s| - 1]), s[|s| - 1])
  }

  /** Reference definitions, independent of the automaton. */

  /** The number of escape characters `s` ends with. */
  function TrailingEscapes(s: seq<byte>): nat
    decreases |s|
  {
    if |s| == 0 || !IsEscapeCharacter(s[|s| - 1]) then 0
    else 1 + TrailingEscapes(s[..|s| - 1])
  }

  /** The number of escape characters that open an escape: those at an odd
      position (1st, 3rd, ...) of their run of consecutive escape characters. */
  function EscapeIntroductions(s: seq<byte>): nat
    decreases |s|
  {
    if |s| == 0 then 0
    else EscapeIntroductions(s[..|s| - 1]) + (if TrailingEscapes(s) % 2 == 1 then 1 else 0)
  }

  /** The automaton computes the reference: `escapeNext` is a one-byte
      look-behind, `previousCounted` is the parity of the trailing escape run,
      and `count` is the number of escape introductions. */
  lemma {:induction false} RunMatchesReference(s: seq<byte>)
    ensures Run(s).escapeNext == (|s| > 0 && IsEscapeCharacter(s[|s| - 1]))
    ensures Run(s).previousCounted == (TrailingEscapes(s) % 2 == 1)
    ensures Run(s).count == EscapeIntroductions(s)
    decreases |s|
  {
    if |s| > 0 {
      RunMatchesReference(s[..|s| - 1]);
    }
  }

  /** Escape introductions never outnumber half the bytes (rounded up), so the
      masked length `raw length - escapes` is never negative. */
  lemma {:induction false} IntroductionsBound(s: seq<byte>)
    ensures 2 * EscapeIntroductions(s) <= |s| + TrailingEscapes(s) % 2
    ensures EscapeIntroductions(s) <= |s|
    decreases |s|
  {
    if |s| > 0 {
      IntroductionsBound(s[..|s| - 1]);
    }
  }

  /** An escaped escape character is counted once: after an even run of
      escape characters, appending two more adds exactly one introduction and
      leaves the run even again. */
  lemma EscapedEscapeCountedOnce(s: seq<byte>)
    requires TrailingEscapes(s) % 2 == 0
    ensures EscapeIntroductions(s + [BACKSLASH, BACKSLASH]) == EscapeIntroductions(s) + 1
    ensures TrailingEscapes(s + [BACKSLASH, BACKSLASH]) % 2 == 0
  {
    var s1 := s + [BACKSLASH];
    var s2 := s + [BACKSLASH, BACKSLASH];
    assert s2[..|s2| - 1] == s1;
    assert s1[..|s1| - 1] == s;
    var t := TrailingEscapes(s);
    assert TrailingEscapes(s1) == t + 1;
    assert TrailingEscapes(s2) == t + 2;
    assert (t + 1) % 2 == 1 && (t + 2) % 2 == 0;
    assert EscapeIntroductions(s1) == EscapeIntroductions(s) + 1;
  }

  /** An even, non-empty run of escape characters is complete (its last
      escape character is itself escaped), yet the one-byte look-behind
      `escapeNext` still reports an escape character. */
  lemma EvenRunLooksEscaped(s: seq<byte>)
    requires TrailingEscapes(s) > 0 && TrailingEscapes(s) % 2 == 0
    ensures Run(s).escapeNext && !Run(s).previousCounted
  {
    RunMatchesReference(s);
  }
}
