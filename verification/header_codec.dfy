/** The header slot: five bytes of mode tag, two little-endian i32 counts,
    three little-endian f32 values (maximum energy, minimum energy, source
    total), then zero padding up to the record size. */
module HeaderCodec {
  import opened Bytes
  import opened Float32
  import opened Phsp

  /** The layout a five-byte tag selects. */
  function ModeOfTag(tag: seq<byte>): (r: Result<Mode>)
    requires |tag| == ModeLength
    ensures r.Ok? <==> tag == Mode0.Tag() || tag == Mode2.Tag()
    ensures r.Ok? ==> r.value.Tag() == tag
    ensures r.Err? ==> r.error == BadMode
  {
    if tag == Mode0.Tag() then Ok(Mode0)
    else if tag == Mode2.Tag() then Ok(Mode2)
    else Err(BadMode)
  }

  /** `PHSPReader::from` up to the padding: reads the first 25 bytes of a
      stream. A stream shorter than that fails as `read_exact` does. */
  function DecodeHeader(bs: seq<byte>): (r: Result<Header>)
    ensures |bs| < HeaderLength ==> r == Err(Io)
    ensures |bs| >= HeaderLength ==>
      (r.Ok? <==> bs[..ModeLength] == Mode0.Tag() || bs[..ModeLength] == Mode2.Tag())
    ensures |bs| >= HeaderLength && r.Err? ==> r.error == BadMode
    ensures r.Ok? && bs[..ModeLength] == Mode0.Tag() ==>
      r.value.RecordSize() == 28 && !r.value.UsingZlast()
    ensures r.Ok? && bs[..ModeLength] == Mode2.Tag() ==>
      r.value.RecordSize() == 32 && r.value.UsingZlast()
  {
    if |bs| < HeaderLength then Err(Io)
    else
      var mode :- ModeOfTag(bs[..ModeLength]);
      Ok(Header(
        mode,
        totalParticles := WordToI32(WordFromBytes(bs[5..9])),
        totalPhotons := WordToI32(WordFromBytes(bs[9..13])),
        maxEnergy := WordFromBytes(bs[13..17]),
        minEnergy := WordFromBytes(bs[17..21]),
        sourceTotal := WordFromBytes(bs[21..25])))
  }

  function Zeros(n: nat): (z: seq<byte>)
    ensures |z| == n
    ensures forall i :: 0 <= i < n ==> z[i] == 0
  {
    seq(n, _ => 0)
  }

  /** `PHSPWriter::from`: the 25 header bytes, zero-padded to one record slot. */
  function EncodeHeader(h: Header): (bs: seq<byte>)
    ensures |bs| == h.RecordSize()
    ensures forall i :: HeaderLength <= i < |bs| ==> bs[i] == 0
  {
    h.mode.Tag()
    + WordToBytes(I32ToWord(h.totalParticles))
    + WordToBytes(I32ToWord(h.totalPhotons))
    + WordToBytes(h.maxEnergy)
    + WordToBytes(h.minEnergy)
    + WordToBytes(h.sourceTotal)
    + Zeros(h.RecordSize() - HeaderLength)
  }

  /** Where each field of an encoded header sits. */
  lemma HeaderLayout(h: Header)
    ensures EncodeHeader(h)[0..5] == h.mode.Tag()
    ensures EncodeHeader(h)[5..9] == WordToBytes(I32ToWord(h.totalParticles))
    ensures EncodeHeader(h)[9..13] == WordToBytes(I32ToWord(h.totalPhotons))
    ensures EncodeHeader(h)[13..17] == WordToBytes(h.maxEnergy)
    ensures EncodeHeader(h)[17..21] == WordToBytes(h.minEnergy)
    ensures EncodeHeader(h)[21..25] == WordToBytes(h.sourceTotal)
  {
  }

  /** Writing a header and reading it back, whatever follows it in the
      stream, gives the same mode, counts, energies and source total. */
  lemma HeaderRoundTrip(h: Header, rest: seq<byte>)
    ensures DecodeHeader(EncodeHeader(h) + rest) == Ok(h)
  {
    var bs := EncodeHeader(h) + rest;
    HeaderLayout(h);
    assert bs[..ModeLength] == h.mode.Tag();
    assert bs[5..9] == EncodeHeader(h)[5..9];
    assert bs[9..13] == EncodeHeader(h)[9..13];
    assert bs[13..17] == EncodeHeader(h)[13..17];
    assert bs[17..21] == EncodeHeader(h)[17..21];
    assert bs[21..25] == EncodeHeader(h)[21..25];
  }

  /** Reading a header and writing it back reproduces the 25 data bytes;
      only the padding is normalised to zeros. */
  lemma HeaderBytesRoundTrip(bs: seq<byte>)
    requires DecodeHeader(bs).Ok?
    ensures EncodeHeader(DecodeHeader(bs).value)[..HeaderLength] == bs[..HeaderLength]
  {
    var h := DecodeHeader(bs).value;
    HeaderLayout(h);
    BytesWordRoundTrip(bs[5..9]);
    BytesWordRoundTrip(bs[9..13]);
    BytesWordRoundTrip(bs[13..17]);
    BytesWordRoundTrip(bs[17..21]);
    BytesWordRoundTrip(bs[21..25]);
    WordI32RoundTrip(WordFromBytes(bs[5..9]));
    WordI32RoundTrip(WordFromBytes(bs[9..13]));
    var e := EncodeHeader(h);
    assert e[..HeaderLength] == e[0..5] + e[5..9] + e[9..13] + e[13..17] + e[17..21] + e[21..25];
    assert bs[..HeaderLength] == bs[0..5] + bs[5..9] + bs[9..13] + bs[13..17] + bs[17..21] + bs[21..25];
  }
}
