/** `sample`: one `MODE0` file holding a random subset of the inputs'
    records, with a header recounted from the records kept. The random
    generator is a parameter: `draw(i)` is the outcome of the weighted coin
    tossed for the `i`-th record read, counting across all inputs. */
module Sample {
  import opened Bytes
  import opened Float32
  import opened Phsp
  import opened HeaderCodec
  import opened RecordCodec
  import opened Reader
  import opened Writer
  import opened Merge
  import opened Accessors

  /** `gen_weighted_bool(rate)`: true without consulting the generator when
      `rate <= 1`, otherwise the generator's outcome, true with chance
      1 / `rate`. */
  predicate Keep(rate: u32, draw: nat -> bool, i: nat) {
    rate <= 1 || draw(i)
  }

  /** The records of `recs` whose toss comes out true, in order; the first
      record of `recs` is the `start`-th record read overall. */
  function Kept(recs: seq<Record>, rate: u32, draw: nat -> bool, start: nat): (k: seq<Record>)
    ensures |k| <= |recs|
    ensures forall r :: r in k ==> r in recs
  {
    if |recs| == 0 then []
    else
      var n := |recs| - 1;
      Kept(recs[..n], rate, draw, start) + (if Keep(rate, draw, start + n) then [recs[n]] else [])
  }

  /** Tossing for two runs of records one after the other keeps the same as
      tossing for their concatenation: the count of records read carries
      over from one input to the next. */
  lemma {:induction false} KeptAppend(a: seq<Record>, b: seq<Record>, rate: u32, draw: nat -> bool, start: nat)
    ensures Kept(a + b, rate, draw, start) == Kept(a, rate, draw, start) + Kept(b, rate, draw, start + |a|)
  {
    if |b| == 0 {
      assert a + b == a;
    } else {
      var n := |b| - 1;
      assert (a + b)[..|a| + n] == a + b[..n];
      KeptAppend(a, b[..n], rate, draw, start);
    }
  }

  /** A record whose toss comes out true is kept. */
  lemma {:induction false} KeptMembers(recs: seq<Record>, rate: u32, draw: nat -> bool, start: nat)
    ensures forall i :: 0 <= i < |recs| && Keep(rate, draw, start + i) ==> recs[i] in Kept(recs, rate, draw, start)
  {
    if |recs| > 0 {
      var n := |recs| - 1;
      KeptMembers(recs[..n], rate, draw, start);
      forall i | 0 <= i < |recs| && Keep(rate, draw, start + i)
        ensures recs[i] in Kept(recs, rate, draw, start)
      {
        if i < n {
          assert recs[..n][i] == recs[i];
        }
      }
    }
  }

  /** With `rate <= 1` every record is kept. */
  lemma {:induction false} KeptAll(recs: seq<Record>, rate: u32, draw: nat -> bool, start: nat)
    requires rate <= 1
    ensures Kept(recs, rate, draw, start) == recs
  {
    if |recs| > 0 {
      var n := |recs| - 1;
      KeptAll(recs[..n], rate, draw, start);
      assert recs[..n] + [recs[n]] == recs;
    }
  }

  /** The positions among the first `n` records read from `start` on whose
      toss comes out true: exactly those positions, in increasing order. */
  function KeptIndices(rate: u32, draw: nat -> bool, start: nat, n: nat): (idx: seq<nat>)
    ensures forall j :: 0 <= j < |idx| ==> idx[j] < n && Keep(rate, draw, start + idx[j])
    ensures forall i :: 0 <= i < n && Keep(rate, draw, start + i) ==> i in idx
    ensures forall j, k :: 0 <= j < k < |idx| ==> idx[j] < idx[k]
  {
    if n == 0 then []
    else KeptIndices(rate, draw, start, n - 1) + (if Keep(rate, draw, start + n - 1) then [n - 1] else [])
  }

  /** `Kept` is the selection of the records at `KeptIndices`, in order: a
      record whose toss comes out false is dropped, and the kept ones keep
      their relative order. */
  lemma {:induction false} KeptSelects(recs: seq<Record>, rate: u32, draw: nat -> bool, start: nat)
    ensures var idx := KeptIndices(rate, draw, start, |recs|);
      && |Kept(recs, rate, draw, start)| == |idx|
      && forall j :: 0 <= j < |idx| ==> Kept(recs, rate, draw, start)[j] == recs[idx[j]]
  {
    if |recs| > 0 {
      var n := |recs| - 1;
      KeptSelects(recs[..n], rate, draw, start);
      var idx0 := KeptIndices(rate, draw, start, n);
      var k0 := Kept(recs[..n], rate, draw, start);
      forall j | 0 <= j < |idx0|
        ensures k0[j] == recs[idx0[j]]
      {
        assert recs[..n][idx0[j]] == recs[idx0[j]];
      }
    }
  }

  /** Records whose latch does not mark them charged. */
  function PhotonCount(recs: seq<Record>): (n: nat)
    ensures n <= |recs|
  {
    if |recs| == 0 then 0
    else PhotonCount(recs[..|recs| - 1]) + (if Charged(recs[|recs| - 1]) then 0 else 1)
  }

  lemma {:induction false} PhotonCountAppend(a: seq<Record>, b: seq<Record>)
    ensures PhotonCount(a + b) == PhotonCount(a) + PhotonCount(b)
  {
    if |b| == 0 {
      assert a + b == a;
    } else {
      var n := |b| - 1;
      assert (a + b)[..|a| + n] == a + b[..n];
      PhotonCountAppend(a, b[..n]);
    }
  }

  /** The header `sample` starts from: `MODE0`, no particles, minimum
      energy 1000.0, maximum 0.0, no source particles. */
  const Placeholder: Header := Header(Mode0, 0, 0, Thousand, Zero, Zero)

  /** What one kept record does to the running header: one more particle
      (`checked_add`, so an overflow stops everything), one more photon when
      the record is not charged, and the energy range widened by a positive
      stored energy. */
  function TallyRecord(h: Header, r: Record): (res: Result<Header>)
    ensures res.Ok? <==> InI32(h.totalParticles + 1)
    ensures res.Err? ==> res.error == ParticleOverflow
  {
    if !InI32(h.totalParticles + 1) then Err(ParticleOverflow)
    else
      var positive := IsPositive(r.totalEnergy);
      Ok(h.(
        totalParticles := h.totalParticles + 1,
        totalPhotons := if Charged(r) then h.totalPhotons else WrapI32(h.totalPhotons + 1),
        minEnergy := if positive then Min(h.minEnergy, r.totalEnergy) else h.minEnergy,
        maxEnergy := if positive then Max(h.maxEnergy, r.totalEnergy) else h.maxEnergy))
  }

  /** `TallyRecord` over every kept record in turn, stopping at the first
      overflow. */
  function TallyAll(h: Header, recs: seq<Record>): Result<Header> {
    if |recs| == 0 then Ok(h)
    else
      var front :- TallyAll(h, recs[..|recs| - 1]);
      TallyRecord(front, recs[|recs| - 1])
  }

  /** The counts of a tally: it succeeds exactly when the particle count
      stays in the i32 range, and then counts one particle per record and
      one photon per uncharged record; nothing else but the energies moves. */
  lemma {:induction false} TallyAllCounts(h: Header, recs: seq<Record>)
    requires 0 <= h.totalPhotons <= h.totalParticles
    ensures TallyAll(h, recs).Ok? <==> h.totalParticles + |recs| <= I32Max
    ensures TallyAll(h, recs).Ok? ==>
      var t := TallyAll(h, recs).value;
      && t.totalParticles == h.totalParticles + |recs|
      && t.totalPhotons == h.totalPhotons + PhotonCount(recs)
      && t.mode == h.mode
      && t.sourceTotal == h.sourceTotal
  {
    if |recs| > 0 {
      var n := |recs| - 1;
      TallyAllCounts(h, recs[..n]);
    }
  }

  /** Tallying two runs of records one after the other is tallying their
      concatenation. */
  lemma {:induction false} TallyAllAppend(h: Header, a: seq<Record>, b: seq<Record>)
    requires TallyAll(h, a).Ok?
    ensures TallyAll(h, a + b) == TallyAll(TallyAll(h, a).value, b)
  {
    if |b| == 0 {
      assert a + b == a;
    } else {
      var n := |b| - 1;
      assert (a + b)[..|a| + n] == a + b[..n];
      TallyAllAppend(h, a, b[..n]);
    }
  }

  /** Once a prefix of the records overflows, the whole tally does. */
  lemma {:induction false} TallyAllPrefixFails(h: Header, a: seq<Record>, b: seq<Record>)
    requires TallyAll(h, a).Err?
    ensures TallyAll(h, a + b).Err?
  {
    if |b| == 0 {
      assert a + b == a;
    } else {
      var n := |b| - 1;
      assert (a + b)[..|a| + n] == a + b[..n];
      TallyAllPrefixFails(h, a, b[..n]);
    }
  }

  /** The energy range of a tally: starting from non-NaN bounds, the
      minimum is the starting one or a positive stored energy and lies at or
      below both the start and every positive stored energy; likewise the
      maximum from above. Zero, negative and NaN energies leave it alone. */
  lemma {:induction false} TallyAllEnergies(h: Header, recs: seq<Record>)
    requires TallyAll(h, recs).Ok?
    requires !IsNaN(h.minEnergy) && !IsNaN(h.maxEnergy)
    ensures var t := TallyAll(h, recs).value;
      && Key(t.minEnergy) <= Key(h.minEnergy)
      && (forall i :: 0 <= i < |recs| && IsPositive(recs[i].totalEnergy) ==>
            Key(t.minEnergy) <= Key(recs[i].totalEnergy))
      && (t.minEnergy == h.minEnergy
          || exists i :: 0 <= i < |recs| && IsPositive(recs[i].totalEnergy) && t.minEnergy == recs[i].totalEnergy)
    ensures var t := TallyAll(h, recs).value;
      && Key(t.maxEnergy) >= Key(h.maxEnergy)
      && (forall i :: 0 <= i < |recs| && IsPositive(recs[i].totalEnergy) ==>
            Key(t.maxEnergy) >= Key(recs[i].totalEnergy))
      && (t.maxEnergy == h.maxEnergy
          || exists i :: 0 <= i < |recs| && IsPositive(recs[i].totalEnergy) && t.maxEnergy == recs[i].totalEnergy)
  {
    if |recs| > 0 {
      var n := |recs| - 1;
      var front := recs[..n];
      TallyAllEnergies(h, front);
      var m := TallyAll(h, front).value;
      var t := TallyAll(h, recs).value;
      assert forall i :: 0 <= i < n ==> front[i] == recs[i];
      if t.minEnergy != h.minEnergy && t.minEnergy != recs[n].totalEnergy {
        assert t.minEnergy == m.minEnergy;
        var i :| 0 <= i < n && IsPositive(front[i].totalEnergy) && m.minEnergy == front[i].totalEnergy;
        assert t.minEnergy == recs[i].totalEnergy;
      }
      if t.maxEnergy != h.maxEnergy && t.maxEnergy != recs[n].totalEnergy {
        assert t.maxEnergy == m.maxEnergy;
        var i :| 0 <= i < n && IsPositive(front[i].totalEnergy) && m.maxEnergy == front[i].totalEnergy;
        assert t.maxEnergy == recs[i].totalEnergy;
      }
    }
  }

  /** Some input has the `MODE2` layout, which `sample` refuses. */
  predicate AnyZlast(pfs: seq<PhspFile>) {
    exists i :: 0 <= i < |pfs| && pfs[i].header.UsingZlast()
  }

  /** `sample` on decoded inputs: the kept records of all inputs in order,
      under the tally of those records, with the inputs' source totals added
      as f32 and divided by `rate as f32`. */
  function SampleFiles(pfs: seq<PhspFile>, rate: u32, draw: nat -> bool, arith: Arith): (r: Result<PhspFile>)
    ensures |pfs| == 0 ==> r == Err(NoInputs)
    ensures r.Ok? ==> r.value.header.mode == Mode0
  {
    if |pfs| == 0 then Err(NoInputs)
    else if AnyZlast(pfs) then Err(ZlastInput)
    else
      var kept := Kept(ConcatRecords(pfs), rate, draw, 0);
      TallyAllCounts(Placeholder, kept);
      var h :- TallyAll(Placeholder, kept);
      var source := arith.div(SourceSum(Zero, Headers(pfs), arith), arith.ofU32(rate));
      Ok(PhspFile(h.(sourceTotal := source), kept))
  }

  /** What `sample` promises about its output, on decoded inputs: it
      succeeds exactly when there is an input, none is `MODE2` and at most
      `i32::MAX` records are kept; the output then holds the kept records,
      counts them and their photons exactly, and keeps every record when
      `rate <= 1`. */
  lemma SampleFilesSpec(pfs: seq<PhspFile>, rate: u32, draw: nat -> bool, arith: Arith)
    ensures SampleFiles(pfs, rate, draw, arith).Ok? <==>
      |pfs| > 0 && !AnyZlast(pfs) && |Kept(ConcatRecords(pfs), rate, draw, 0)| <= I32Max
    ensures SampleFiles(pfs, rate, draw, arith).Ok? ==>
      var s := SampleFiles(pfs, rate, draw, arith).value;
      var kept := Kept(ConcatRecords(pfs), rate, draw, 0);
      && s.records == kept
      && s.header.totalParticles == |kept|
      && s.header.totalPhotons == PhotonCount(kept)
      && s.header.sourceTotal == arith.div(SourceSum(Zero, Headers(pfs), arith), arith.ofU32(rate))
      && (rate <= 1 ==> s.records == ConcatRecords(pfs))
  {
    var kept := Kept(ConcatRecords(pfs), rate, draw, 0);
    TallyAllCounts(Placeholder, kept);
    if rate <= 1 {
      KeptAll(ConcatRecords(pfs), rate, draw, 0);
    }
  }

  /** The energy range of a sampled file: with no kept record of positive
      energy it stays at 1000.0 and 0.0; otherwise the minimum is a positive
      kept energy no greater than any other (or 1000.0 when all are larger)
      and the maximum is the largest positive kept energy. */
  lemma SampleFilesEnergies(pfs: seq<PhspFile>, rate: u32, draw: nat -> bool, arith: Arith)
    requires SampleFiles(pfs, rate, draw, arith).Ok?
    ensures var s := SampleFiles(pfs, rate, draw, arith).value;
      && Key(s.header.minEnergy) <= Key(Thousand)
      && (forall i :: 0 <= i < |s.records| && IsPositive(s.records[i].totalEnergy) ==>
            Key(s.header.minEnergy) <= Key(s.records[i].totalEnergy))
      && (s.header.minEnergy == Thousand
          || exists i :: 0 <= i < |s.records| && IsPositive(s.records[i].totalEnergy)
               && s.header.minEnergy == s.records[i].totalEnergy)
    ensures var s := SampleFiles(pfs, rate, draw, arith).value;
      && (forall i :: 0 <= i < |s.records| && IsPositive(s.records[i].totalEnergy) ==>
            Key(s.header.maxEnergy) >= Key(s.records[i].totalEnergy))
      && (s.header.maxEnergy == Zero
          || exists i :: 0 <= i < |s.records| && IsPositive(s.records[i].totalEnergy)
               && s.header.maxEnergy == s.records[i].totalEnergy)
  {
    var kept := Kept(ConcatRecords(pfs), rate, draw, 0);
    TallyAllEnergies(Placeholder, kept);
  }

  /** Reopening the output without truncating it and writing a header
      replaces the header slot and keeps every byte after it. */
  function OverwriteSlot(file: seq<byte>, slot: seq<byte>): (r: seq<byte>)
    requires |slot| <= |file|
    ensures |r| == |file| && r[..|slot|] == slot && r[|slot|..] == file[|slot|..]
  {
    slot + file[|slot|..]
  }

  /** Tosses for each record of one input, in order, tallies and appends the
      kept ones; `g` is how many records were read before this input. */
  method SampleRecords(h: Header, out: seq<byte>, recs: seq<Record>, rate: u32, draw: nat -> bool, g: nat)
    returns (r: Result<(Header, seq<byte>)>)
    ensures r.Ok? <==> TallyAll(h, Kept(recs, rate, draw, g)).Ok?
    ensures r.Ok? ==>
      && r.value.0 == TallyAll(h, Kept(recs, rate, draw, g)).value
      && r.value.1 == out + EncodeRecords(Mode0, Kept(recs, rate, draw, g))
  {
    var header := h;
    var written := out;
    var k := 0;
    while k < |recs|
      invariant 0 <= k <= |recs|
      invariant RecordsSoFar(h, out, recs[..k], rate, draw, g, header, written)
    {
      if Keep(rate, draw, g + k) {
        var next := TallyRecord(header, recs[k]);
        if next.Err? {
          KeptRestFails(h, out, header, written, recs, k, rate, draw, g);
          return Err(next.error);
        }
        KeptRecord(h, out, header, written, recs, k, rate, draw, g);
        header := next.value;
        written := written + EncodeRecord(Mode0, recs[k]);
      } else {
        SkippedRecord(h, out, header, written, recs, k, rate, draw, g);
      }
      k := k + 1;
    }
    assert recs[..k] == recs;
    return Ok((header, written));
  }

  /** The running header and bytes after tossing for `done`. */
  predicate RecordsSoFar(h: Header, out: seq<byte>, done: seq<Record>, rate: u32, draw: nat -> bool, g: nat,
                         header: Header, written: seq<byte>) {
    && TallyAll(h, Kept(done, rate, draw, g)) == Ok(header)
    && written == out + EncodeRecords(Mode0, Kept(done, rate, draw, g))
  }

  /** A record whose toss comes out true and that does not overflow the
      count extends both the tally and the bytes written. */
  lemma KeptRecord(h: Header, out: seq<byte>, header: Header, written: seq<byte>, recs: seq<Record>, k: nat,
                   rate: u32, draw: nat -> bool, g: nat)
    requires k < |recs| && Keep(rate, draw, g + k)
    requires RecordsSoFar(h, out, recs[..k], rate, draw, g, header, written)
    requires TallyRecord(header, recs[k]).Ok?
    ensures RecordsSoFar(h, out, recs[..k + 1], rate, draw, g,
                         TallyRecord(header, recs[k]).value, written + EncodeRecord(Mode0, recs[k]))
  {
    var before := Kept(recs[..k], rate, draw, g);
    KeptStep(recs, k, rate, draw, g);
    TallyAllSnoc(h, before, recs[k]);
    EncodeRecordsSnoc(Mode0, before, recs[k]);
    AppendAssoc(out, EncodeRecords(Mode0, before), EncodeRecord(Mode0, recs[k]));
  }

  /** A record whose toss comes out false changes nothing. */
  lemma SkippedRecord(h: Header, out: seq<byte>, header: Header, written: seq<byte>, recs: seq<Record>, k: nat,
                      rate: u32, draw: nat -> bool, g: nat)
    requires k < |recs| && !Keep(rate, draw, g + k)
    requires RecordsSoFar(h, out, recs[..k], rate, draw, g, header, written)
    ensures RecordsSoFar(h, out, recs[..k + 1], rate, draw, g, header, written)
  {
    KeptStep(recs, k, rate, draw, g);
  }

  lemma KeptStep(recs: seq<Record>, k: nat, rate: u32, draw: nat -> bool, g: nat)
    requires k < |recs|
    ensures Kept(recs[..k + 1], rate, draw, g)
      == if Keep(rate, draw, g + k) then Kept(recs[..k], rate, draw, g) + [recs[k]]
         else Kept(recs[..k], rate, draw, g)
  {
    assert recs[..k + 1][..k] == recs[..k];
  }

  lemma TallyAllSnoc(h: Header, recs: seq<Record>, r: Record)
    requires TallyAll(h, recs).Ok?
    ensures TallyAll(h, recs + [r]) == TallyRecord(TallyAll(h, recs).value, r)
  {
    assert (recs + [r])[..|recs|] == recs;
  }

  /** An overflow on the `k`-th record makes the tally of all of `recs` fail. */
  lemma KeptRestFails(h: Header, out: seq<byte>, header: Header, written: seq<byte>, recs: seq<Record>, k: nat,
                      rate: u32, draw: nat -> bool, g: nat)
    requires k < |recs| && Keep(rate, draw, g + k)
    requires RecordsSoFar(h, out, recs[..k], rate, draw, g, header, written)
    requires TallyRecord(header, recs[k]).Err?
    ensures TallyAll(h, Kept(recs, rate, draw, g)).Err?
  {
    KeptStep(recs, k, rate, draw, g);
    TallyAllSnoc(h, Kept(recs[..k], rate, draw, g), recs[k]);
    KeptPrefixFails(h, recs, k + 1, rate, draw, g);
  }

  /** An overflow on the first `n` records makes the tally of all of `recs` fail. */
  lemma KeptPrefixFails(h: Header, recs: seq<Record>, n: nat, rate: u32, draw: nat -> bool, g: nat)
    requires n <= |recs|
    requires TallyAll(h, Kept(recs[..n], rate, draw, g)).Err?
    ensures TallyAll(h, Kept(recs, rate, draw, g)).Err?
  {
    assert recs[..n] + recs[n..] == recs;
    KeptAppend(recs[..n], recs[n..], rate, draw, g);
    TallyAllPrefixFails(h, Kept(recs[..n], rate, draw, g), Kept(recs[n..], rate, draw, g + n));
  }

  /** What `sample` carries from one input to the next: the running
      header, the bytes written so far, the running source total, and how
      many records have been read. */
  datatype Progress = Progress(header: Header, out: seq<byte>, source: F32, read: nat)

  /** One input of `sample`: open it, refuse it if `MODE2`, add its source
      total, then toss for, tally and write each of its records. */
  method SampleInput(p: Progress, file: seq<byte>, rate: u32, draw: nat -> bool, arith: Arith)
    returns (r: Result<Progress>)
    ensures r.Ok? <==>
      && ReadFile(file).Ok?
      && !ReadFile(file).value.header.UsingZlast()
      && TallyAll(p.header, Kept(ReadFile(file).value.records, rate, draw, p.read)).Ok?
    ensures r.Ok? ==>
      var pf := ReadFile(file).value;
      var kept := Kept(pf.records, rate, draw, p.read);
      r.value == Progress(
        TallyAll(p.header, kept).value,
        p.out + EncodeRecords(Mode0, kept),
        arith.add(p.source, pf.header.sourceTotal),
        p.read + |pf.records|)
  {
    var rd :- Open(file);
    if rd.header.UsingZlast() {
      return Err(ZlastInput);
    }
    var source := arith.add(p.source, rd.header.sourceTotal);
    var recs :- ReadAll(rd);
    var next :- SampleRecords(p.header, p.out, recs, rate, draw, p.read);
    return Ok(Progress(next.0, next.1, source, p.read + |recs|));
  }

  /** `sample` over the bytes of the input files. The output starts with the
      placeholder header; each input is opened, refused if `MODE2`, its
      source total added, and its records tossed for, tallied and written;
      finally the source total is divided by `rate as f32` and the header
      slot is overwritten with the tally. */
  method Sample(files: seq<seq<byte>>, rate: u32, draw: nat -> bool, arith: Arith) returns (r: Result<seq<byte>>)
    ensures |files| == 0 ==> r == Err(NoInputs)
    ensures r.Ok? <==> ReadFiles(files).Ok? && SampleFiles(ReadFiles(files).value, rate, draw, arith).Ok?
    ensures r.Ok? ==> r.value == WriteFile(SampleFiles(ReadFiles(files).value, rate, draw, arith).value)
  {
    if |files| == 0 {
      return Err(NoInputs);
    }
    var p := Progress(Placeholder, EncodeHeader(Placeholder), Zero, 0);
    ghost var pfs: seq<PhspFile> := [];
    var i := 0;
    InvariantInit(files, rate, draw, arith);
    while i < |files|
      invariant 0 <= i <= |files|
      invariant ReadFiles(files[..i]) == Ok(pfs)
      invariant InvariantOf(pfs, p, rate, draw, arith)
    {
      var next := SampleInput(p, files[i], rate, draw, arith);
      if next.Err? {
        SampleInputFails(files, i, pfs, p, rate, draw, arith);
        return Err(next.error);
      }
      ghost var pf := ReadFile(files[i]).value;
      SampleStep(files, i, pfs, pf, p, rate, draw, arith);
      p := next.value;
      pfs := pfs + [pf];
      i := i + 1;
    }
    var final := p.header.(sourceTotal := arith.div(p.source, arith.ofU32(rate)));
    ReadFilesAll(files, i);
    SampleFinish(pfs, p, rate, draw, arith);
    return Ok(OverwriteSlot(p.out, EncodeHeader(final)));
  }

  /** After the last input, overwriting the header slot of the output with
      the final tally gives the file `SampleFiles` describes. */
  lemma SampleFinish(pfs: seq<PhspFile>, p: Progress, rate: u32, draw: nat -> bool, arith: Arith)
    requires |pfs| > 0 && InvariantOf(pfs, p, rate, draw, arith)
    ensures var final := p.header.(sourceTotal := arith.div(p.source, arith.ofU32(rate)));
      && SampleFiles(pfs, rate, draw, arith).Ok?
      && |EncodeHeader(final)| <= |p.out|
      && OverwriteSlot(p.out, EncodeHeader(final)) == WriteFile(SampleFiles(pfs, rate, draw, arith).value)
  {
    var final := p.header.(sourceTotal := arith.div(p.source, arith.ofU32(rate)));
    SampleResult(pfs, rate, draw, arith, p.header, final);
  }

  /** The state `Sample` keeps after reading the inputs `pfs`. */
  predicate InvariantOf(pfs: seq<PhspFile>, p: Progress, rate: u32, draw: nat -> bool, arith: Arith) {
    && !AnyZlast(pfs)
    && p.read == |ConcatRecords(pfs)|
    && TallyAll(Placeholder, Kept(ConcatRecords(pfs), rate, draw, 0)) == Ok(p.header)
    && p.source == SourceSum(Zero, Headers(pfs), arith)
    && p.out == EncodeHeader(Placeholder) + EncodeRecords(Mode0, Kept(ConcatRecords(pfs), rate, draw, 0))
  }

  /** Before the first input: nothing read, the placeholder header written. */
  lemma InvariantInit(files: seq<seq<byte>>, rate: u32, draw: nat -> bool, arith: Arith)
    ensures ReadFiles(files[..0]) == Ok([])
    ensures InvariantOf([], Progress(Placeholder, EncodeHeader(Placeholder), Zero, 0), rate, draw, arith)
  {
    assert files[..0] == [];
    assert EncodeHeader(Placeholder) + [] == EncodeHeader(Placeholder);
  }

  /** A failing input makes `sample` fail: it cannot be read, it is `MODE2`,
      or its kept records overflow the particle count. */
  lemma SampleInputFails(files: seq<seq<byte>>, i: nat, pfs: seq<PhspFile>, p: Progress,
                         rate: u32, draw: nat -> bool, arith: Arith)
    requires i < |files|
    requires ReadFiles(files[..i]) == Ok(pfs) && InvariantOf(pfs, p, rate, draw, arith)
    requires !(&& ReadFile(files[i]).Ok?
               && !ReadFile(files[i]).value.header.UsingZlast()
               && TallyAll(p.header, Kept(ReadFile(files[i]).value.records, rate, draw, p.read)).Ok?)
    ensures !(ReadFiles(files).Ok? && SampleFiles(ReadFiles(files).value, rate, draw, arith).Ok?)
  {
    if ReadFile(files[i]).Err? {
      ReadFilesFails(files, i);
    } else if ReadFile(files[i]).value.header.UsingZlast() {
      SampleZlastFails(files, i, rate, draw, arith);
    } else {
      var pf := ReadFile(files[i]).value;
      ReadFilesSnoc(files, i);
      KeptSnoc(pfs, pf, rate, draw);
      TallyAllAppend(Placeholder, Kept(ConcatRecords(pfs), rate, draw, 0), Kept(pf.records, rate, draw, p.read));
      SampleOverflowFails(files, i + 1, pfs + [pf], rate, draw, arith);
    }
  }

  /** A `MODE2` input that opens makes `sample` fail, whether or not the
      rest can be read. */
  lemma SampleZlastFails(files: seq<seq<byte>>, i: nat, rate: u32, draw: nat -> bool, arith: Arith)
    requires i < |files| && ReadFile(files[i]).Ok? && ReadFile(files[i]).value.header.UsingZlast()
    ensures !(ReadFiles(files).Ok? && SampleFiles(ReadFiles(files).value, rate, draw, arith).Ok?)
  {
    if ReadFiles(files).Ok? {
      assert ReadFiles(files).value[i].header.UsingZlast();
    }
  }

  /** One more input read in full extends the state the loop of `Sample`
      keeps. */
  lemma SampleStep(files: seq<seq<byte>>, i: nat, pfs: seq<PhspFile>, pf: PhspFile, p: Progress,
                   rate: u32, draw: nat -> bool, arith: Arith)
    requires i < |files|
    requires ReadFiles(files[..i]) == Ok(pfs) && ReadFile(files[i]) == Ok(pf)
    requires InvariantOf(pfs, p, rate, draw, arith)
    requires !pf.header.UsingZlast() && TallyAll(p.header, Kept(pf.records, rate, draw, p.read)).Ok?
    ensures ReadFiles(files[..i + 1]) == Ok(pfs + [pf])
    ensures var kept := Kept(pf.records, rate, draw, p.read);
      InvariantOf(pfs + [pf], Progress(
        TallyAll(p.header, kept).value,
        p.out + EncodeRecords(Mode0, kept),
        arith.add(p.source, pf.header.sourceTotal),
        p.read + |pf.records|), rate, draw, arith)
  {
    ReadFilesSnoc(files, i);
    InvariantStep(pfs, pf, p, rate, draw, arith);
  }

  lemma InvariantStep(pfs: seq<PhspFile>, pf: PhspFile, p: Progress, rate: u32, draw: nat -> bool, arith: Arith)
    requires InvariantOf(pfs, p, rate, draw, arith)
    requires !pf.header.UsingZlast() && TallyAll(p.header, Kept(pf.records, rate, draw, p.read)).Ok?
    ensures var kept := Kept(pf.records, rate, draw, p.read);
      InvariantOf(pfs + [pf], Progress(
        TallyAll(p.header, kept).value,
        p.out + EncodeRecords(Mode0, kept),
        arith.add(p.source, pf.header.sourceTotal),
        p.read + |pf.records|), rate, draw, arith)
  {
    KeptSnoc(pfs, pf, rate, draw);
    SourceSumSnoc(pfs, pf, arith);
    var before := Kept(ConcatRecords(pfs), rate, draw, 0);
    var kept := Kept(pf.records, rate, draw, p.read);
    TallyAllAppend(Placeholder, before, kept);
    OutStep(EncodeHeader(Placeholder), before, kept);
    NoZlastStep(pfs, pf);
  }

  lemma OutStep(front: seq<byte>, before: seq<Record>, kept: seq<Record>)
    ensures front + EncodeRecords(Mode0, before) + EncodeRecords(Mode0, kept)
      == front + EncodeRecords(Mode0, before + kept)
  {
    EncodeRecordsAppend(Mode0, before, kept);
    AppendAssoc(front, EncodeRecords(Mode0, before), EncodeRecords(Mode0, kept));
  }

  lemma NoZlastStep(pfs: seq<PhspFile>, pf: PhspFile)
    requires !AnyZlast(pfs) && !pf.header.UsingZlast()
    ensures !AnyZlast(pfs + [pf])
  {
    assert forall j :: 0 <= j < |pfs| ==> (pfs + [pf])[j] == pfs[j];
  }

  lemma KeptSnoc(pfs: seq<PhspFile>, pf: PhspFile, rate: u32, draw: nat -> bool)
    ensures |ConcatRecords(pfs + [pf])| == |ConcatRecords(pfs)| + |pf.records|
    ensures Kept(ConcatRecords(pfs + [pf]), rate, draw, 0)
      == Kept(ConcatRecords(pfs), rate, draw, 0) + Kept(pf.records, rate, draw, |ConcatRecords(pfs)|)
  {
    ConcatRecordsSnoc(pfs, pf);
    KeptAppend(ConcatRecords(pfs), pf.records, rate, draw, 0);
  }

  lemma SourceSumSnoc(pfs: seq<PhspFile>, pf: PhspFile, arith: Arith)
    ensures SourceSum(Zero, Headers(pfs + [pf]), arith)
      == arith.add(SourceSum(Zero, Headers(pfs), arith), pf.header.sourceTotal)
  {
    assert (pfs + [pf])[..|pfs|] == pfs;
    assert Headers(pfs + [pf])[..|pfs|] == Headers(pfs);
  }

  /** An overflow while tallying the first `n` inputs makes `sample` fail. */
  lemma SampleOverflowFails(files: seq<seq<byte>>, n: nat, pfs: seq<PhspFile>,
                            rate: u32, draw: nat -> bool, arith: Arith)
    requires n <= |files| && ReadFiles(files[..n]) == Ok(pfs)
    requires TallyAll(Placeholder, Kept(ConcatRecords(pfs), rate, draw, 0)).Err?
    ensures !(ReadFiles(files).Ok? && SampleFiles(ReadFiles(files).value, rate, draw, arith).Ok?)
  {
    if ReadFiles(files).Ok? {
      var all := ReadFiles(files).value;
      ReadFilesPrefix(files, n);
      OverflowPrefix(all, n, rate, draw);
      OverflowFails(all, rate, draw, arith);
    }
  }

  lemma OverflowPrefix(all: seq<PhspFile>, n: nat, rate: u32, draw: nat -> bool)
    requires n <= |all|
    requires TallyAll(Placeholder, Kept(ConcatRecords(all[..n]), rate, draw, 0)).Err?
    ensures TallyAll(Placeholder, Kept(ConcatRecords(all), rate, draw, 0)).Err?
  {
    var front := ConcatRecords(all[..n]);
    ConcatPrefix(all, n);
    var rest := ConcatRecords(all)[|front|..];
    assert front + rest == ConcatRecords(all);
    KeptAppend(front, rest, rate, draw, 0);
    TallyAllPrefixFails(Placeholder, Kept(front, rate, draw, 0), Kept(rest, rate, draw, |front|));
  }

  lemma OverflowFails(pfs: seq<PhspFile>, rate: u32, draw: nat -> bool, arith: Arith)
    requires TallyAll(Placeholder, Kept(ConcatRecords(pfs), rate, draw, 0)).Err?
    ensures SampleFiles(pfs, rate, draw, arith).Err?
  {
  }

  /** The records of a prefix of the files are a prefix of all the records. */
  lemma {:induction false} ConcatPrefix(pfs: seq<PhspFile>, n: nat)
    requires n <= |pfs|
    ensures |ConcatRecords(pfs[..n])| <= |ConcatRecords(pfs)|
    ensures ConcatRecords(pfs)[..|ConcatRecords(pfs[..n])|] == ConcatRecords(pfs[..n])
    decreases |pfs|
  {
    if n < |pfs| {
      var m := |pfs| - 1;
      assert pfs[..m][..n] == pfs[..n];
      ConcatPrefix(pfs[..m], n);
    } else {
      assert pfs[..n] == pfs;
    }
  }

  /** Once every input is read, the overwritten output is the file
      `SampleFiles` describes. */
  lemma SampleResult(pfs: seq<PhspFile>, rate: u32, draw: nat -> bool, arith: Arith, header: Header, final: Header)
    requires |pfs| > 0 && !AnyZlast(pfs)
    requires TallyAll(Placeholder, Kept(ConcatRecords(pfs), rate, draw, 0)) == Ok(header)
    requires final == header.(sourceTotal := arith.div(SourceSum(Zero, Headers(pfs), arith), arith.ofU32(rate)))
    ensures SampleFiles(pfs, rate, draw, arith)
      == Ok(PhspFile(final, Kept(ConcatRecords(pfs), rate, draw, 0)))
    ensures var out := EncodeHeader(Placeholder) + EncodeRecords(Mode0, Kept(ConcatRecords(pfs), rate, draw, 0));
      |EncodeHeader(final)| <= |out|
      && OverwriteSlot(out, EncodeHeader(final)) == WriteFile(PhspFile(final, Kept(ConcatRecords(pfs), rate, draw, 0)))
  {
    TallyAllCounts(Placeholder, Kept(ConcatRecords(pfs), rate, draw, 0));
  }

  /** A sampled file reads back as its header and its records (the `MODE0`
      layout drops any trailing field). */
  lemma SampledFileReadsBack(pfs: seq<PhspFile>, rate: u32, draw: nat -> bool, arith: Arith)
    requires SampleFiles(pfs, rate, draw, arith).Ok?
    ensures var s := SampleFiles(pfs, rate, draw, arith).value;
      ReadFile(WriteFile(s)) == Ok(PhspFile(s.header, WrittenAll(Mode0, s.records)))
  {
    var s := SampleFiles(pfs, rate, draw, arith).value;
    SampleFilesSpec(pfs, rate, draw, arith);
    assert WriteFile(s) + [] == WriteFile(s);
    WriteThenRead(s, []);
  }
}
