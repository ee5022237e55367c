/** One record slot: a little-endian u32 latch, six little-endian f32 fields
    (total energy, x, y, x cosine, y cosine, weight) and, in `MODE2`, a
    trailing f32. */
module RecordCodec {
  import opened Bytes
  import opened Float32
  import opened Phsp

  /** The body of `Iterator::next` once a full slot has been read: word `i`
      of the slot is field `i`, in the order latch, total energy, x, y,
      x cosine, y cosine, weight, and in `MODE2` the trailing field. */
  function DecodeRecord(m: Mode, bs: seq<byte>): (r: Record)
    requires |bs| == m.RecordSize()
    ensures r.zlast.Some? <==> m.UsingZlast()
  {
    var ws := ReadWords(bs);
    Record(
      latch := ws[0],
      totalEnergy := ws[1],
      xCm := ws[2],
      yCm := ws[3],
      xCos := ws[4],
      yCos := ws[5],
      weight := ws[6],
      zlast := if m.UsingZlast() then Some(ws[7]) else None)
  }

  /** Where each field of a decoded record is read from: field `i` is the
      little-endian word at bytes `4 * i` to `4 * i + 4`, and in `MODE2`
      the trailing field is the word at bytes 28 to 32. */
  lemma DecodeLayout(m: Mode, bs: seq<byte>)
    requires |bs| == m.RecordSize()
    ensures var r := DecodeRecord(m, bs);
      && r.latch == WordFromBytes(bs[0..4])
      && r.totalEnergy == WordFromBytes(bs[4..8])
      && r.xCm == WordFromBytes(bs[8..12])
      && r.yCm == WordFromBytes(bs[12..16])
      && r.xCos == WordFromBytes(bs[16..20])
      && r.yCos == WordFromBytes(bs[20..24])
      && r.weight == WordFromBytes(bs[24..28])
      && (m.UsingZlast() ==> r.zlast == Some(WordFromBytes(bs[28..32])))
  {
    var ws := ReadWords(bs);
    ReadWordsInverse(bs);
    forall j | 0 <= j < |ws|
      ensures WordFromBytes(bs[4 * j..4 * j + 4]) == ws[j]
    {
      WordAt(ws, j);
    }
  }

  /** What a reader gets back for `r` after a writer in mode `m` stored it:
      in `MODE2` the trailing slot holds the weight, not `r.zlast`. */
  function AsWritten(m: Mode, r: Record): Record {
    r.(zlast := if m.UsingZlast() then Some(r.weight) else None)
  }

  /** The words `PHSPWriter::write` stores for `r` in mode `m`. */
  function WrittenWords(m: Mode, r: Record): (ws: seq<u32>)
    ensures |ws| == m.RecordSize() / 4
  {
    [r.latch, r.totalEnergy, r.xCm, r.yCm, r.xCos, r.yCos, r.weight]
    + if m.UsingZlast() then [r.weight] else []
  }

  /** `PHSPWriter::write`: the slot is filled from the weight in `MODE2`
      and exactly `record_size` bytes are written. */
  function EncodeRecord(m: Mode, r: Record): (bs: seq<byte>)
    ensures |bs| == m.RecordSize()
    ensures DecodeRecord(m, bs) == AsWritten(m, r)
  {
    WordsRoundTrip(WrittenWords(m, r));
    WordsToBytes(WrittenWords(m, r))
  }

  /** In `MODE0` a record without a trailing field survives a write and a
      read unchanged. */
  lemma Mode0RoundTrip(r: Record)
    requires r.zlast.None?
    ensures DecodeRecord(Mode0, EncodeRecord(Mode0, r)) == r
  {
  }

  /** Where each field of an encoded record sits. */
  lemma RecordLayout(m: Mode, r: Record)
    ensures EncodeRecord(m, r)[0..4] == WordToBytes(r.latch)
    ensures EncodeRecord(m, r)[4..8] == WordToBytes(r.totalEnergy)
    ensures EncodeRecord(m, r)[8..12] == WordToBytes(r.xCm)
    ensures EncodeRecord(m, r)[12..16] == WordToBytes(r.yCm)
    ensures EncodeRecord(m, r)[16..20] == WordToBytes(r.xCos)
    ensures EncodeRecord(m, r)[20..24] == WordToBytes(r.yCos)
    ensures EncodeRecord(m, r)[24..28] == WordToBytes(r.weight)
    ensures m.UsingZlast() ==> EncodeRecord(m, r)[28..32] == WordToBytes(r.weight)
  {
    var ws := WrittenWords(m, r);
    WordAt(ws, 0);
    WordAt(ws, 1);
    WordAt(ws, 2);
    WordAt(ws, 3);
    WordAt(ws, 4);
    WordAt(ws, 5);
    WordAt(ws, 6);
    if m.UsingZlast() {
      WordAt(ws, 7);
    }
  }

  /** A record written back as it was read reproduces its slot, except that
      in `MODE2` the trailing four bytes become a copy of the weight's. */
  lemma RecordBytesRoundTrip(m: Mode, bs: seq<byte>)
    requires |bs| == m.RecordSize()
    ensures EncodeRecord(m, DecodeRecord(m, bs))
      == if m.UsingZlast() then bs[..28] + bs[24..28] else bs
  {
    var ws := ReadWords(bs);
    var words := WrittenWords(m, DecodeRecord(m, bs));
    ReadWordsInverse(bs);
    if m.UsingZlast() {
      var front := ReadWords(bs[..28]);
      ReadWordsInverse(bs[..28]);
      assert ws[..7] == front;
      assert words == front + [front[6]];
      assert front[6] == WordFromBytes(bs[24..28]);
      BytesWordRoundTrip(bs[24..28]);
    } else {
      assert words == ws;
    }
  }

  /** The trailing field does not survive a `MODE2` round trip: a record
      whose `zlast` differs from its weight comes back with the weight. */
  lemma ZlastNotPreserved(r: Record)
    requires r.zlast != Some(r.weight)
    ensures DecodeRecord(Mode2, EncodeRecord(Mode2, r)) != r
  {
  }
}
