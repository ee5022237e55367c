/** `combine`: one output file whose header is the merge of the input
    headers and whose records are the inputs' records, file after file. */
module Combine {
  import opened Bytes
  import opened Float32
  import opened Phsp
  import opened HeaderCodec
  import opened RecordCodec
  import opened Reader
  import opened Writer
  import opened Merge

  /** `combine` on decoded inputs: the first header merged with each later
      one in order, and every record of every input in order. */
  function CombineFiles(pfs: seq<PhspFile>, arith: Arith): (r: Result<PhspFile>)
    ensures |pfs| == 0 ==> r == Err(NoInputs)
  {
    if |pfs| == 0 then Err(NoInputs)
    else
      var h :- MergeAll(pfs[0].header, Headers(pfs)[1..], arith);
      Ok(PhspFile(h, ConcatRecords(pfs)))
  }

  /** Every input's header decodes. */
  predicate HeadersDecode(files: seq<seq<byte>>) {
    forall j :: 0 <= j < |files| ==> DecodeHeader(files[j]).Ok?
  }

  /** The decoded header of every input, in order. */
  function FileHeaders(files: seq<seq<byte>>): (hs: seq<Header>)
    requires HeadersDecode(files)
    ensures |hs| == |files|
    ensures forall j :: 0 <= j < |files| ==> DecodeHeader(files[j]) == Ok(hs[j])
  {
    if |files| == 0 then []
    else FileHeaders(files[..|files| - 1]) + [DecodeHeader(files[|files| - 1]).value]
  }

  /** The first pass of `combine`: open every input and fold its header into
      the first one's. Only headers are read, so an input whose records are
      short does not stop this pass. */
  method MergeHeaders(files: seq<seq<byte>>, arith: Arith) returns (r: Result<Header>)
    requires |files| > 0
    ensures r.Ok? <==>
      HeadersDecode(files) && MergeAll(FileHeaders(files)[0], FileHeaders(files)[1..], arith).Ok?
    ensures r.Ok? ==> r == MergeAll(FileHeaders(files)[0], FileHeaders(files)[1..], arith)
  {
    var first :- Open(files[0]);
    var header := first.header;
    ghost var hs: seq<Header> := [];
    var i := 1;
    while i < |files|
      invariant 1 <= i <= |files|
      invariant |hs| == i - 1
      invariant HeadersDecode(files[..i])
      invariant FileHeaders(files[..i]) == [first.header] + hs
      invariant MergeAll(first.header, hs, arith) == Ok(header)
    {
      var rd := Open(files[i]);
      if rd.Err? {
        return Err(rd.error);
      }
      var merged := Merge.Merge(header, rd.value.header, arith);
      HeaderStep(files, i, first.header, hs, rd.value.header);
      MergeAllSnoc(first.header, hs, rd.value.header, header, arith);
      if merged.Err? {
        HeaderMergeFails(files, i + 1, first.header, hs + [rd.value.header], arith);
        return Err(merged.error);
      }
      header := merged.value;
      hs := hs + [rd.value.header];
      i := i + 1;
    }
    assert files[..i] == files;
    return Ok(header);
  }

  /** One more decoded header extends the headers read so far. */
  lemma HeaderStep(files: seq<seq<byte>>, i: nat, h0: Header, hs: seq<Header>, h: Header)
    requires i < |files|
    requires HeadersDecode(files[..i]) && FileHeaders(files[..i]) == [h0] + hs
    requires DecodeHeader(files[i]) == Ok(h)
    ensures HeadersDecode(files[..i + 1]) && FileHeaders(files[..i + 1]) == [h0] + (hs + [h])
  {
    assert files[..i + 1][..i] == files[..i];
  }

  /** A merge failure over the headers of the first `n` inputs means the
      merge over all of them fails too. */
  lemma HeaderMergeFails(files: seq<seq<byte>>, n: nat, h0: Header, hs: seq<Header>, arith: Arith)
    requires n <= |files| && |hs| + 1 == n
    requires HeadersDecode(files[..n]) && FileHeaders(files[..n]) == [h0] + hs
    requires MergeAll(h0, hs, arith).Err?
    ensures !(HeadersDecode(files) && MergeAll(FileHeaders(files)[0], FileHeaders(files)[1..], arith).Ok?)
  {
    if HeadersDecode(files) {
      PrefixHeaders(files, n);
      assert FileHeaders(files)[0] == FileHeaders(files)[..n][0] == h0;
      DropFirst(FileHeaders(files), h0, hs);
      MergeAllPrefixFails(h0, FileHeaders(files)[1..], |hs|, arith);
    }
  }

  lemma DropFirst<T>(xs: seq<T>, x: T, ys: seq<T>)
    requires |ys| < |xs| && xs[..|ys| + 1] == [x] + ys
    ensures xs[1..][..|ys|] == ys
  {
    assert forall k :: 0 <= k < |ys| ==> xs[1..][k] == xs[..|ys| + 1][k + 1];
  }

  lemma PrefixHeaders(files: seq<seq<byte>>, n: nat)
    requires n <= |files|
    requires HeadersDecode(files)
    ensures HeadersDecode(files[..n]) && FileHeaders(files[..n]) == FileHeaders(files)[..n]
  {
  }

  /** Appends the slot of every record, in order. */
  method WriteRecords(out: seq<byte>, m: Mode, recs: seq<Record>) returns (out': seq<byte>)
    ensures out' == out + EncodeRecords(m, recs)
  {
    out' := out;
    var k := 0;
    while k < |recs|
      invariant 0 <= k <= |recs|
      invariant out' == out + EncodeRecords(m, recs[..k])
    {
      WriteStep(out, m, recs, k);
      out' := out' + EncodeRecord(m, recs[k]);
      k := k + 1;
    }
    assert recs[..k] == recs;
  }

  /** Writing one more record extends the bytes written by its slot. */
  lemma WriteStep(out: seq<byte>, m: Mode, recs: seq<Record>, k: nat)
    requires k < |recs|
    ensures out + EncodeRecords(m, recs[..k]) + EncodeRecord(m, recs[k])
      == out + EncodeRecords(m, recs[..k + 1])
  {
    assert recs[..k + 1] == recs[..k] + [recs[k]];
    EncodeRecordsSnoc(m, recs[..k], recs[k]);
    AppendAssoc(out, EncodeRecords(m, recs[..k]), EncodeRecord(m, recs[k]));
  }

  /** Reopens one input and appends the slot of each of its records. */
  method CopyFile(out: seq<byte>, file: seq<byte>, m: Mode) returns (r: Result<seq<byte>>)
    ensures r.Ok? <==> ReadFile(file).Ok?
    ensures r.Ok? ==> r.value == out + EncodeRecords(m, ReadFile(file).value.records)
  {
    var rd :- Open(file);
    var recs :- ReadAll(rd);
    var out' := WriteRecords(out, m, recs);
    return Ok(out');
  }

  /** The second pass of `combine`: after the merged header, reopen every
      input and write each of its records in the header's layout. */
  method CopyRecords(files: seq<seq<byte>>, front: seq<byte>, m: Mode) returns (r: Result<seq<byte>>)
    ensures r.Ok? <==> ReadFiles(files).Ok?
    ensures r.Ok? ==> r.value == front + EncodeRecords(m, ConcatRecords(ReadFiles(files).value))
  {
    var out := front;
    ghost var pfs: seq<PhspFile> := [];
    var i := 0;
    assert files[..0] == [];
    while i < |files|
      invariant 0 <= i <= |files|
      invariant ReadFiles(files[..i]) == Ok(pfs)
      invariant out == front + EncodeRecords(m, ConcatRecords(pfs))
    {
      var next := CopyFile(out, files[i], m);
      if next.Err? {
        ReadFilesFails(files, i);
        return Err(next.error);
      }
      ghost var pf := ReadFile(files[i]).value;
      CopyStep(files, i, pfs, pf, m);
      AppendAssoc(front, EncodeRecords(m, ConcatRecords(pfs)), EncodeRecords(m, pf.records));
      out := next.value;
      pfs := pfs + [pf];
      i := i + 1;
    }
    assert files[..i] == files;
    return Ok(out);
  }

  /** One more input read in full extends the records written so far by
      its records. */
  lemma CopyStep(files: seq<seq<byte>>, i: nat, pfs: seq<PhspFile>, pf: PhspFile, m: Mode)
    requires i < |files|
    requires ReadFiles(files[..i]) == Ok(pfs) && ReadFile(files[i]) == Ok(pf)
    ensures ReadFiles(files[..i + 1]) == Ok(pfs + [pf])
    ensures EncodeRecords(m, ConcatRecords(pfs + [pf]))
      == EncodeRecords(m, ConcatRecords(pfs)) + EncodeRecords(m, pf.records)
  {
    ReadFilesSnoc(files, i);
    ConcatRecordsSnoc(pfs, pf);
    EncodeRecordsAppend(m, ConcatRecords(pfs), pf.records);
  }

  /** Inputs that read in full have headers that decode, and those are the
      headers of what was read. */
  lemma ReadHeaders(files: seq<seq<byte>>)
    requires ReadFiles(files).Ok?
    ensures HeadersDecode(files) && FileHeaders(files) == Headers(ReadFiles(files).value)
  {
  }

  /** `combine` over the bytes of the input files: the first pass merges the
      headers, the second writes the merged header and every record.
      Deleting the inputs is not modelled. */
  method Combine(files: seq<seq<byte>>, arith: Arith) returns (r: Result<seq<byte>>)
    ensures |files| == 0 ==> r == Err(NoInputs)
    ensures r.Ok? <==> ReadFiles(files).Ok? && CombineFiles(ReadFiles(files).value, arith).Ok?
    ensures r.Ok? ==> r.value == WriteFile(CombineFiles(ReadFiles(files).value, arith).value)
  {
    if |files| == 0 {
      return Err(NoInputs);
    }
    var header := MergeHeaders(files, arith);
    if ReadFiles(files).Ok? {
      ReadHeaders(files);
    }
    if header.Err? {
      return Err(header.error);
    }
    r := CopyRecords(files, EncodeHeader(header.value), header.value.mode);
  }

  /** What `combine` promises about its output, on decoded inputs: it
      succeeds exactly when all modes agree and no running particle total
      overflows; the header then holds the first input's mode, the summed
      counts (photons wrapping) and the source totals added in order, and
      the records are every input's records in input order. */
  lemma CombineFilesSpec(pfs: seq<PhspFile>, arith: Arith)
    requires |pfs| > 0
    ensures CombineFiles(pfs, arith).Ok?
      <==> AllMode(Headers(pfs)[1..], pfs[0].header.mode)
           && PrefixSumsFit(pfs[0].header, Headers(pfs)[1..])
    ensures CombineFiles(pfs, arith).Ok? ==>
      var c := CombineFiles(pfs, arith).value;
      && c.records == ConcatRecords(pfs)
      && c.header.mode == pfs[0].header.mode
      && c.header.totalParticles == pfs[0].header.totalParticles + SumParticles(Headers(pfs)[1..])
      && c.header.totalPhotons == WrapI32(pfs[0].header.totalPhotons + SumPhotons(Headers(pfs)[1..]))
      && c.header.sourceTotal == SourceSum(pfs[0].header.sourceTotal, Headers(pfs)[1..], arith)
  {
    MergeAllSucceeds(pfs[0].header, Headers(pfs)[1..], arith);
    if CombineFiles(pfs, arith).Ok? {
      MergeAllTotals(pfs[0].header, Headers(pfs)[1..], arith);
    }
  }

  /** Each decoded file holds as many records as its header declares. */
  predicate CountsMatch(pfs: seq<PhspFile>) {
    forall i :: 0 <= i < |pfs| ==> pfs[i].header.totalParticles == |pfs[i].records|
  }

  lemma {:induction false} CountsAddUp(pfs: seq<PhspFile>, n: nat)
    requires 0 < n <= |pfs|
    requires CountsMatch(pfs)
    ensures pfs[0].header.totalParticles + SumParticles(Headers(pfs)[1..n]) == |ConcatRecords(pfs[..n])|
  {
    if n == 1 {
      assert Headers(pfs)[1..n] == [];
      assert pfs[..1] == [pfs[0]];
    } else {
      CountsAddUp(pfs, n - 1);
      assert Headers(pfs)[1..n][..n - 2] == Headers(pfs)[1..n - 1];
      assert pfs[..n][..n - 1] == pfs[..n - 1];
    }
  }

  /** The combined file reads back as the merged header and every input
      record in order (in `MODE2` each with its weight as trailing field). */
  lemma CombinedFileReadsBack(pfs: seq<PhspFile>, arith: Arith)
    requires CountsMatch(pfs)
    requires CombineFiles(pfs, arith).Ok?
    ensures var c := CombineFiles(pfs, arith).value;
      ReadFile(WriteFile(c)) == Ok(PhspFile(c.header, WrittenAll(c.header.mode, ConcatRecords(pfs))))
  {
    var c := CombineFiles(pfs, arith).value;
    CombineFilesSpec(pfs, arith);
    CountsAddUp(pfs, |pfs|);
    assert pfs[..|pfs|] == pfs;
    assert Headers(pfs)[1..|pfs|] == Headers(pfs)[1..];
    assert WriteFile(c) + [] == WriteFile(c);
    WriteThenRead(c, []);
  }

  /** Two copies of a `MODE0` file with two particles (one photon), energies
      0.5 to 2.0 MeV and 100 source particles combine into four particles
      (two photons), the same energy range, 200 source particles and the
      records twice over, in order. */
  lemma CombineTwoCopies(recs: seq<Record>, arith: Arith)
    requires arith.add(0x42c8_0000, 0x42c8_0000) == 0x4348_0000  // 100.0 + 100.0 == 200.0
    ensures var f := PhspFile(Header(Mode0, 2, 1, 0x3f00_0000, 0x4000_0000, 0x42c8_0000), recs);
      CombineFiles([f, f], arith)
        == Ok(PhspFile(Header(Mode0, 4, 2, 0x3f00_0000, 0x4000_0000, 0x4348_0000), recs + recs))
  {
    var f := PhspFile(Header(Mode0, 2, 1, 0x3f00_0000, 0x4000_0000, 0x42c8_0000), recs);
    assert Headers([f, f])[1..] == [f.header];
    assert [f.header][..0] == [];
    assert MergeAll(f.header, [], arith) == Ok(f.header);
    assert MergeAll(f.header, [f.header], arith) == Merge.Merge(f.header, f.header, arith);
    assert [f, f][..1] == [f];
    assert [f][..0] == [];
    assert ConcatRecords([f]) == recs;
  }
}
