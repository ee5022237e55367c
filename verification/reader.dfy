/** `PHSPReader`: a forward-only reader over the bytes of one file. Opening
    it decodes the header and skips the rest of the header slot; each `Next`
    reads one record slot, until `total_particles` records have been yielded. */
module Reader {
  import opened Bytes
  import opened Float32
  import opened Phsp
  import opened HeaderCodec
  import opened RecordCodec

  /** A reader: its header, the bytes not yet consumed, and how many
      records it has yielded. */
  datatype Reader = Reader(header: Header, rest: seq<byte>, nextRecord: nat)

  /** `total_particles as u64`: a negative count sign-extends to a huge one. */
  function Limit(h: Header): (n: nat)
    ensures h.totalParticles >= 0 ==> n == h.totalParticles
    ensures h.totalParticles < 0 ==> n >= U64Modulus - 0x8000_0000
  {
    if h.totalParticles >= 0 then h.totalParticles else h.totalParticles + U64Modulus
  }

  /** Records the reader still has to yield. */
  function Remaining(rd: Reader): nat {
    if rd.nextRecord >= Limit(rd.header) then 0 else Limit(rd.header) - rd.nextRecord
  }

  /** `PHSPReader::from`: decodes the header, then consumes the padding of
      the header slot (as far as the file reaches). The length check against
      `expected_size` only logs, so it does not appear here. */
  function Open(file: seq<byte>): (r: Result<Reader>)
    ensures r.Ok? <==> DecodeHeader(file).Ok?
    ensures r.Err? ==> r == Err(DecodeHeader(file).error)
    ensures r.Ok? ==> r.value.header == DecodeHeader(file).value && r.value.nextRecord == 0
    ensures r.Ok? && |file| >= r.value.header.RecordSize() ==>
      file == file[..r.value.header.RecordSize()] + r.value.rest
  {
    var h :- DecodeHeader(file);
    var skip := if |file| < h.RecordSize() then |file| else h.RecordSize();
    Ok(Reader(h, file[skip..], 0))
  }

  /** `Iterator::next`. `None` once `total_particles` records have been
      yielded, whatever bytes remain; an `Io` error when fewer bytes than a
      record slot remain (`read_exact` then consumes what is left and the
      count does not advance); otherwise the next record. */
  function Next(rd: Reader): (res: (Option<Result<Record>>, Reader))
    ensures res.0.None? <==> Remaining(rd) == 0
    ensures res.0.None? ==> res.1 == rd
    ensures res.0 == Some(Err(Io)) <==> Remaining(rd) > 0 && |rd.rest| < rd.header.RecordSize()
    ensures res.0.Some? ==> res.0 == Some(Err(Io)) || res.0.value.Ok?
    ensures res.1.header == rd.header
    ensures res.0.Some? && res.0.value.Ok? ==>
      && |rd.rest| >= rd.header.RecordSize()
      && res.0.value.value == DecodeRecord(rd.header.mode, rd.rest[..rd.header.RecordSize()])
      && res.1.rest == rd.rest[rd.header.RecordSize()..]
      && res.1.nextRecord == rd.nextRecord + 1
      && Remaining(res.1) == Remaining(rd) - 1
  {
    var size := rd.header.RecordSize();
    if rd.nextRecord >= Limit(rd.header) then
      (None, rd)
    else if |rd.rest| < size then
      (Some(Err(Io)), rd.(rest := []))
    else
      (Some(Ok(DecodeRecord(rd.header.mode, rd.rest[..size]))),
       rd.(rest := rd.rest[size..], nextRecord := rd.nextRecord + 1))
  }

  /** Draining the reader: every record up to `None`, or the first error. */
  function ReadAll(rd: Reader): (r: Result<seq<Record>>)
    decreases |rd.rest|
    ensures r.Ok? <==> rd.header.mode.Span(Remaining(rd)) <= |rd.rest|
    ensures r.Err? ==> r.error == Io
    ensures r.Ok? ==> |r.value| == Remaining(rd)
  {
    var (item, rd') := Next(rd);
    match item
    case None => Ok([])
    case Some(Err(e)) => Err(e)
    case Some(Ok(rec)) =>
      var recs :- ReadAll(rd');
      Ok([rec] + recs)
  }

  /** The `i`-th record drained is the `i`-th slot of the bytes left,
      decoded in the header's layout. */
  lemma {:induction false} ReadAllContents(rd: Reader, recs: seq<Record>, i: nat)
    requires ReadAll(rd) == Ok(recs) && i < |recs|
    ensures rd.header.mode.Span(i + 1) <= |rd.rest|
    ensures recs[i] == DecodeRecord(rd.header.mode, rd.rest[rd.header.mode.Span(i)..rd.header.mode.Span(i + 1)])
    decreases i
  {
    var m := rd.header.mode;
    var next, tail := ReadAllStep(rd, recs);
    if i == 0 {
      assert rd.rest[m.Span(0)..m.Span(1)] == rd.rest[..m.RecordSize()];
    } else {
      ReadAllContents(next, tail, i - 1);
      ShiftedSlot(m, rd.rest, i);
    }
  }

  /** Slot `i - 1` of the bytes past the first slot is slot `i` of the whole. */
  lemma ShiftedSlot(m: Mode, rest: seq<byte>, i: nat)
    requires i > 0 && m.RecordSize() <= |rest| && m.Span(i) <= |rest| - m.RecordSize()
    ensures m.Span(i + 1) <= |rest|
    ensures rest[m.RecordSize()..][m.Span(i - 1)..m.Span(i)] == rest[m.Span(i)..m.Span(i + 1)]
  {
    assert m.Span(i) == m.RecordSize() + m.Span(i - 1);
    assert m.Span(i + 1) == m.RecordSize() + m.Span(i);
  }

  /** A reader that drains in full yields the decoded first slot, then what
      the reader past that slot yields. */
  lemma ReadAllStep(rd: Reader, recs: seq<Record>) returns (next: Reader, tail: seq<Record>)
    requires ReadAll(rd) == Ok(recs) && |recs| > 0
    ensures |rd.rest| >= rd.header.RecordSize()
    ensures next == rd.(rest := rd.rest[rd.header.RecordSize()..], nextRecord := rd.nextRecord + 1)
    ensures ReadAll(next) == Ok(tail)
    ensures recs == [DecodeRecord(rd.header.mode, rd.rest[..rd.header.RecordSize()])] + tail
  {
    next := Next(rd).1;
    tail := ReadAll(next).value;
  }

  /** A slice of a suffix is a slice of the whole, shifted. */
  lemma SliceShift<T>(s: seq<T>, k: nat, a: nat, b: nat)
    requires k <= |s| && a <= b <= |s| - k
    ensures s[k..][a..b] == s[k + a..k + b]
  {
  }

  /** After the header slot, a file has room for every record its count
      declares. */
  predicate HoldsRecords(h: Header, length: nat) {
    Limit(h) == 0 || h.RecordSize() + h.mode.Span(Limit(h)) <= length
  }

  /** The records a whole file yields, or why it cannot be read. */
  function ReadFile(file: seq<byte>): (r: Result<PhspFile>)
    ensures r.Ok? <==> DecodeHeader(file).Ok? && HoldsRecords(DecodeHeader(file).value, |file|)
    ensures r.Err? && DecodeHeader(file).Ok? ==> r.error == Io
    ensures r.Ok? ==> DecodeHeader(file) == Ok(r.value.header) && |r.value.records| == Limit(r.value.header)
  {
    var rd :- Open(file);
    var recs :- ReadAll(rd);
    Ok(PhspFile(rd.header, recs))
  }

  /** The `i`-th record of a file read in full is its `i`-th slot after the
      header slot, decoded in the header's layout. */
  lemma ReadFileRecords(file: seq<byte>, i: nat)
    requires ReadFile(file).Ok? && i < |ReadFile(file).value.records|
    ensures var h := ReadFile(file).value.header;
      && h.RecordSize() + h.mode.Span(i + 1) <= |file|
      && ReadFile(file).value.records[i]
        == DecodeRecord(h.mode, file[h.RecordSize() + h.mode.Span(i)..h.RecordSize() + h.mode.Span(i + 1)])
  {
    var rd := Open(file).value;
    var m := rd.header.mode;
    var size := rd.header.RecordSize();
    assert ReadFile(file).value == PhspFile(rd.header, ReadAll(rd).value);
    assert |file| >= size && rd.rest == file[size..];
    ReadAllContents(rd, ReadAll(rd).value, i);
    SliceShift(file, size, m.Span(i), m.Span(i + 1));
  }

  /** Reading every file of a list, stopping at the first that fails. */
  function ReadFiles(files: seq<seq<byte>>): (r: Result<seq<PhspFile>>)
    ensures r.Ok? <==> forall i :: 0 <= i < |files| ==> ReadFile(files[i]).Ok?
    ensures r.Ok? ==>
      && |r.value| == |files|
      && forall i :: 0 <= i < |files| ==> r.value[i] == ReadFile(files[i]).value
  {
    Collect(files, ReadFile)
  }

  /** An input that cannot be read makes the whole read fail. */
  lemma ReadFilesFails(files: seq<seq<byte>>, i: nat)
    requires i < |files| && ReadFile(files[i]).Err?
    ensures ReadFiles(files).Err?
  {
  }

  /** Reading every input of the list is reading the list. */
  lemma ReadFilesAll(files: seq<seq<byte>>, n: nat)
    requires n == |files|
    ensures ReadFiles(files[..n]) == ReadFiles(files)
  {
    assert files[..n] == files;
  }

  lemma ReadFilesSnoc(files: seq<seq<byte>>, i: nat)
    requires i < |files|
    requires ReadFiles(files[..i]).Ok? && ReadFile(files[i]).Ok?
    ensures ReadFiles(files[..i + 1]) == Ok(ReadFiles(files[..i]).value + [ReadFile(files[i]).value])
  {
    assert files[..i + 1][..i] == files[..i];
  }

  lemma ReadFilesPrefix(files: seq<seq<byte>>, n: nat)
    requires n <= |files| && ReadFiles(files).Ok?
    ensures ReadFiles(files[..n]) == Ok(ReadFiles(files).value[..n])
  {
    var all := ReadFiles(files).value;
    forall j | 0 <= j < n
      ensures ReadFile(files[..n][j]) == Ok(all[j])
    {
      assert files[..n][j] == files[j];
    }
    var pre := ReadFiles(files[..n]).value;
    assert forall j :: 0 <= j < n ==> pre[j] == all[j];
    assert pre == all[..n];
  }
}
