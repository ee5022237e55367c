/** `PHSPWriter`: a header slot followed by one slot per record, all in the
    header's layout; and what a reader makes of such a file. */
module Writer {
  import opened Bytes
  import opened Float32
  import opened Phsp
  import opened HeaderCodec
  import opened RecordCodec
  import opened Reader

  /** The bytes `PHSPWriter::write` appends for each record in turn. */
  function EncodeRecords(m: Mode, recs: seq<Record>): (bs: seq<byte>)
    ensures |bs| == m.Span(|recs|)
  {
    if |recs| == 0 then [] else EncodeRecord(m, recs[0]) + EncodeRecords(m, recs[1..])
  }

  lemma {:induction false} EncodeRecordsAppend(m: Mode, a: seq<Record>, b: seq<Record>)
    ensures EncodeRecords(m, a + b) == EncodeRecords(m, a) + EncodeRecords(m, b)
  {
    if |a| > 0 {
      assert (a + b)[1..] == a[1..] + b;
      EncodeRecordsAppend(m, a[1..], b);
    } else {
      assert a + b == b;
    }
  }

  lemma EncodeRecordsSnoc(m: Mode, recs: seq<Record>, r: Record)
    ensures EncodeRecords(m, recs + [r]) == EncodeRecords(m, recs) + EncodeRecord(m, r)
  {
    EncodeRecordsAppend(m, recs, [r]);
    assert EncodeRecords(m, [r]) == EncodeRecord(m, r) + EncodeRecords(m, []);
  }

  /** Every record as a reader gets it back from a writer in mode `m`. */
  function WrittenAll(m: Mode, recs: seq<Record>): (out: seq<Record>)
    ensures |out| == |recs|
    ensures forall i :: 0 <= i < |recs| ==> out[i] == AsWritten(m, recs[i])
  {
    if |recs| == 0 then [] else [AsWritten(m, recs[0])] + WrittenAll(m, recs[1..])
  }

  /** A whole file: `PHSPWriter::from` then one `write` per record. */
  function WriteFile(pf: PhspFile): seq<byte> {
    EncodeHeader(pf.header) + EncodeRecords(pf.header.mode, pf.records)
  }

  /** A reader over encoded records yields them back (with the `MODE2`
      trailing field replaced by the weight) and ignores what follows. */
  lemma {:induction false} ReadAllEncoded(h: Header, recs: seq<Record>, extra: seq<byte>, k: nat)
    requires Remaining(Reader(h, EncodeRecords(h.mode, recs) + extra, k)) == |recs|
    ensures ReadAll(Reader(h, EncodeRecords(h.mode, recs) + extra, k)) == Ok(WrittenAll(h.mode, recs))
  {
    var rd := Reader(h, EncodeRecords(h.mode, recs) + extra, k);
    if |recs| > 0 {
      var tail := EncodeRecords(h.mode, recs[1..]) + extra;
      AppendAssoc(EncodeRecord(h.mode, recs[0]), EncodeRecords(h.mode, recs[1..]), extra);
      NextEncoded(h, recs[0], tail, k);
      ReadAllEncoded(h, recs[1..], extra, k + 1);
      assert ReadAll(rd) == Ok([AsWritten(h.mode, recs[0])] + WrittenAll(h.mode, recs[1..]));
    }
  }

  /** A reader positioned at an encoded record, with a record still due,
      yields that record as written and moves past its slot. */
  lemma NextEncoded(h: Header, r: Record, tail: seq<byte>, k: nat)
    requires Remaining(Reader(h, EncodeRecord(h.mode, r) + tail, k)) > 0
    ensures Next(Reader(h, EncodeRecord(h.mode, r) + tail, k))
      == (Some(Ok(AsWritten(h.mode, r))), Reader(h, tail, k + 1))
  {
    var bs := EncodeRecord(h.mode, r) + tail;
    var size := h.RecordSize();
    assert bs[..size] == EncodeRecord(h.mode, r);
    assert bs[size..] == tail;
  }

  /** Writing a file and reading it back gives the header and the records
      as written, whatever bytes follow the last record. */
  lemma WriteThenRead(pf: PhspFile, extra: seq<byte>)
    requires pf.header.totalParticles == |pf.records|
    ensures ReadFile(WriteFile(pf) + extra)
      == Ok(PhspFile(pf.header, WrittenAll(pf.header.mode, pf.records)))
  {
    var h := pf.header;
    var body := EncodeRecords(h.mode, pf.records) + extra;
    var file := WriteFile(pf) + extra;
    AppendAssoc(EncodeHeader(h), EncodeRecords(h.mode, pf.records), extra);
    HeaderRoundTrip(h, body);
    assert file[h.RecordSize()..] == body;
    ReadAllEncoded(h, pf.records, extra, 0);
  }

  /** A written file is exactly `expected_size` bytes long. */
  lemma WrittenLength(pf: PhspFile)
    requires pf.header.totalParticles == |pf.records|
    ensures |WriteFile(pf)| == ExpectedSize(pf.header)
  {
    var n := |pf.records|;
    if pf.header.mode.Mode0? {
      assert |WriteFile(pf)| == 28 + n * 28;
    } else {
      assert |WriteFile(pf)| == 32 + n * 32;
    }
  }

  /** A file that reads without error declares a non-negative count and
      holds exactly that many records: a negative count asks for more than
      2^63 records, which no file shorter than 2^64 bytes contains. */
  lemma ReadFileCount(file: seq<byte>)
    requires |file| < U64Modulus
    requires ReadFile(file).Ok?
    ensures ReadFile(file).value.header.totalParticles >= 0
    ensures |ReadFile(file).value.records| == ReadFile(file).value.header.totalParticles
  {
    var rd := Open(file).value;
    var h := rd.header;
    assert ReadAll(rd).Ok?;
    assert h.mode.Span(Remaining(rd)) <= |rd.rest| <= |file|;
  }

  /** Bytes after the last declared record never change what is read. */
  lemma {:induction false} ReadAllIgnoresTrailing(rd: Reader, extra: seq<byte>)
    requires ReadAll(rd).Ok?
    ensures ReadAll(rd.(rest := rd.rest + extra)) == ReadAll(rd)
    decreases |rd.rest|
  {
    var rd2 := rd.(rest := rd.rest + extra);
    if Remaining(rd) > 0 {
      var size := rd.header.RecordSize();
      var (item, next) := Next(rd);
      assert item.Some? && item.value.Ok?;
      assert |rd.rest| >= size;
      assert (rd.rest + extra)[..size] == rd.rest[..size];
      DropAppend(rd.rest, extra, size);
      assert Next(rd2) == (item, next.(rest := next.rest + extra));
      ReadAllIgnoresTrailing(next, extra);
    } else {
      assert Next(rd2).0.None?;
    }
  }
}
