/** The fixed-length splice the masker applies when a masked literal must get a
    length other than its original one: the `actualLength` bytes of a literal
    that ends at `valueEnd` are replaced by `desiredLength` copies of a fill
    byte, shifting every later byte by the difference. */
module FixedLength {
  import opened Bytes

  function Splice(buf: seq<byte>, valueEnd: nat, desiredLength: nat, actualLength: nat, fill: byte): (r: seq<byte>)
    requires actualLength <= valueEnd <= |buf|
    ensures |r| == |buf| - actualLength + desiredLength
    // the cursor placed just after the rewritten literal keeps its distance to the end
    ensures |r| - (valueEnd - actualLength + desiredLength) == |buf| - valueEnd
    ensures r[..valueEnd - actualLength] == buf[..valueEnd - actualLength]
    ensures AllAre(r[valueEnd - actualLength..valueEnd - actualLength + desiredLength], fill)
    ensures r[valueEnd - actualLength + desiredLength..] == buf[valueEnd..]
  {
    buf[..valueEnd - actualLength] + Fill(fill, desiredLength) + buf[valueEnd..]
  }

  /** Splicing a literal that already consists of fill bytes to its own length
      changes nothing. */
  lemma SpliceSameLengthIsIdentity(buf: seq<byte>, valueEnd: nat, len: nat, fill: byte)
    requires len <= valueEnd <= |buf|
    requires AllAre(buf[valueEnd - len..valueEnd], fill)
    ensures Splice(buf, valueEnd, len, len, fill) == buf
  {
    var r := Splice(buf, valueEnd, len, len, fill);
    assert r[valueEnd - len..valueEnd] == buf[valueEnd - len..valueEnd];
    assert buf == buf[..valueEnd - len] + buf[valueEnd - len..valueEnd] + buf[valueEnd..];
    assert r == r[..valueEnd - len] + r[valueEnd - len..valueEnd] + r[valueEnd..];
  }

  /** Writing the fill byte over a literal in place, then splicing it, is the
      same as splicing the untouched literal. */
  lemma SpliceAfterInPlaceFill(buf: seq<byte>, valueStart: nat, valueEnd: nat, desiredLength: nat, fill: byte)
    requires valueStart <= valueEnd <= |buf|
    ensures var filled := buf[..valueStart] + Fill(fill, valueEnd - valueStart) + buf[valueEnd..];
            Splice(filled, valueEnd, desiredLength, valueEnd - valueStart, fill)
              == buf[..valueStart] + Fill(fill, desiredLength) + buf[valueEnd..]
  {
    var filled := buf[..valueStart] + Fill(fill, valueEnd - valueStart) + buf[valueEnd..];
    assert filled[..valueStart] == buf[..valueStart];
    assert filled[valueEnd..] == buf[valueEnd..];
  }
}
