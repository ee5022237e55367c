/** `Header::merge` and its left fold over a list of headers, the header
    arithmetic of `combine`. */
module Merge {
  import opened Bytes
  import opened Float32
  import opened Phsp

  /** `Header::merge`: the modes must match (an `assert!`); the particle
      counts add with `checked_add` (an overflow panics); the photon counts
      add with a plain, wrapping `+=`; the energies take the `f32` minimum and
      maximum; the source totals add as f32. */
  function Merge(a: Header, b: Header, arith: Arith): (r: Result<Header>)
    ensures a.mode != b.mode ==> r == Err(ModeMismatch)
    ensures a.mode == b.mode ==> (r.Ok? <==> InI32(a.totalParticles + b.totalParticles))
    ensures a.mode == b.mode && r.Err? ==> r.error == ParticleOverflow
    ensures r.Ok? ==>
      && r.value.mode == a.mode
      && r.value.RecordSize() == a.RecordSize()
      && r.value.UsingZlast() == a.UsingZlast()
      && r.value.totalParticles == a.totalParticles + b.totalParticles
      && (r.value.totalPhotons - (a.totalPhotons + b.totalPhotons)) % WordModulus == 0
      && r.value.minEnergy == Min(a.minEnergy, b.minEnergy)
      && r.value.maxEnergy == Max(a.maxEnergy, b.maxEnergy)
      && r.value.sourceTotal == arith.add(a.sourceTotal, b.sourceTotal)
  {
    if a.mode != b.mode then Err(ModeMismatch)
    else if !InI32(a.totalParticles + b.totalParticles) then Err(ParticleOverflow)
    else
      Ok(a.(
        totalParticles := a.totalParticles + b.totalParticles,
        totalPhotons := WrapI32(a.totalPhotons + b.totalPhotons),
        minEnergy := Min(a.minEnergy, b.minEnergy),
        maxEnergy := Max(a.maxEnergy, b.maxEnergy),
        sourceTotal := arith.add(a.sourceTotal, b.sourceTotal)))
  }

  /** Folding `Merge` over `hs` from the left, starting at `acc`, stopping at
      the first failure: the loop over the inputs after the first in `combine`. */
  function MergeAll(acc: Header, hs: seq<Header>, arith: Arith): Result<Header> {
    if |hs| == 0 then Ok(acc)
    else
      var front :- MergeAll(acc, hs[..|hs| - 1], arith);
      Merge(front, hs[|hs| - 1], arith)
  }

  /** Sum of the particle counts. */
  function SumParticles(hs: seq<Header>): int {
    if |hs| == 0 then 0 else SumParticles(hs[..|hs| - 1]) + hs[|hs| - 1].totalParticles
  }

  /** Sum of the photon counts. */
  function SumPhotons(hs: seq<Header>): int {
    if |hs| == 0 then 0 else SumPhotons(hs[..|hs| - 1]) + hs[|hs| - 1].totalPhotons
  }

  /** The f32 additions of the source totals, left to right from `acc`. */
  function SourceSum(acc: F32, hs: seq<Header>, arith: Arith): F32 {
    if |hs| == 0 then acc else arith.add(SourceSum(acc, hs[..|hs| - 1], arith), hs[|hs| - 1].sourceTotal)
  }

  /** Every header of `hs` has mode `m`. */
  predicate AllMode(hs: seq<Header>, m: Mode) {
    forall i :: 0 <= i < |hs| ==> hs[i].mode == m
  }

  /** No running total of particle counts leaves the i32 range. */
  predicate PrefixSumsFit(acc: Header, hs: seq<Header>) {
    forall k :: 0 < k <= |hs| ==> InI32(acc.totalParticles + SumParticles(hs[..k]))
  }

  /** The fold succeeds exactly when every header has the starting mode and
      no running particle total overflows. */
  lemma {:induction false} MergeAllSucceeds(acc: Header, hs: seq<Header>, arith: Arith)
    ensures MergeAll(acc, hs, arith).Ok? <==> AllMode(hs, acc.mode) && PrefixSumsFit(acc, hs)
  {
    if |hs| > 0 {
      var front := hs[..|hs| - 1];
      MergeAllSucceeds(acc, front, arith);
      if PrefixSumsFit(acc, front) && InI32(acc.totalParticles + SumParticles(hs)) {
        PrefixSumsGrow(acc, hs);
      }
      if PrefixSumsFit(acc, hs) {
        PrefixSumsShrink(acc, hs);
      }
      AllModeSnoc(hs, acc.mode);
      if MergeAll(acc, front, arith).Ok? {
        MergeAllTotals(acc, front, arith);
      }
    }
  }

  lemma PrefixSumsGrow(acc: Header, hs: seq<Header>)
    requires |hs| > 0
    requires PrefixSumsFit(acc, hs[..|hs| - 1]) && InI32(acc.totalParticles + SumParticles(hs))
    ensures PrefixSumsFit(acc, hs)
  {
    var front := hs[..|hs| - 1];
    forall k | 0 < k <= |hs|
      ensures InI32(acc.totalParticles + SumParticles(hs[..k]))
    {
      if k < |hs| {
        assert front[..k] == hs[..k];
        assert InI32(acc.totalParticles + SumParticles(front[..k]));
      } else {
        assert hs[..k] == hs;
      }
    }
  }

  lemma PrefixSumsShrink(acc: Header, hs: seq<Header>)
    requires |hs| > 0
    requires PrefixSumsFit(acc, hs)
    ensures PrefixSumsFit(acc, hs[..|hs| - 1]) && InI32(acc.totalParticles + SumParticles(hs))
  {
    var front := hs[..|hs| - 1];
    forall k | 0 < k <= |front|
      ensures InI32(acc.totalParticles + SumParticles(front[..k]))
    {
      assert front[..k] == hs[..k];
    }
    assert hs[..|hs|] == hs;
  }

  lemma AllModeSnoc(hs: seq<Header>, m: Mode)
    requires |hs| > 0
    ensures AllMode(hs, m) <==> AllMode(hs[..|hs| - 1], m) && hs[|hs| - 1].mode == m
  {
  }

  /** What a successful fold computes: the starting mode, the exact sum of
      the particle counts, the wrapped sum of the photon counts, and the f32
      sum of the source totals in input order. */
  lemma {:induction false} MergeAllTotals(acc: Header, hs: seq<Header>, arith: Arith)
    requires MergeAll(acc, hs, arith).Ok?
    ensures MergeAll(acc, hs, arith).value.mode == acc.mode
    ensures MergeAll(acc, hs, arith).value.totalParticles == acc.totalParticles + SumParticles(hs)
    ensures MergeAll(acc, hs, arith).value.totalPhotons == WrapI32(acc.totalPhotons + SumPhotons(hs))
    ensures MergeAll(acc, hs, arith).value.sourceTotal == SourceSum(acc.sourceTotal, hs, arith)
  {
    if |hs| > 0 {
      var front := hs[..|hs| - 1];
      MergeAllTotals(acc, front, arith);
      var m := MergeAll(acc, front, arith).value;
      WrapI32Add(acc.totalPhotons + SumPhotons(front), hs[|hs| - 1].totalPhotons);
      assert m.totalPhotons + hs[|hs| - 1].totalPhotons
        == WrapI32(acc.totalPhotons + SumPhotons(front)) + hs[|hs| - 1].totalPhotons;
    }
  }

  /** Without NaN energies, a successful fold's minimum energy is one of the
      input minima and no greater than any of them; likewise the maximum. */
  lemma {:induction false} MergeAllEnergies(acc: Header, hs: seq<Header>, arith: Arith)
    requires MergeAll(acc, hs, arith).Ok?
    requires !IsNaN(acc.minEnergy) && !IsNaN(acc.maxEnergy)
    requires forall i :: 0 <= i < |hs| ==> !IsNaN(hs[i].minEnergy) && !IsNaN(hs[i].maxEnergy)
    ensures var r := MergeAll(acc, hs, arith).value;
      && Key(r.minEnergy) <= Key(acc.minEnergy)
      && (forall i :: 0 <= i < |hs| ==> Key(r.minEnergy) <= Key(hs[i].minEnergy))
      && (r.minEnergy == acc.minEnergy || exists i :: 0 <= i < |hs| && r.minEnergy == hs[i].minEnergy)
    ensures var r := MergeAll(acc, hs, arith).value;
      && Key(r.maxEnergy) >= Key(acc.maxEnergy)
      && (forall i :: 0 <= i < |hs| ==> Key(r.maxEnergy) >= Key(hs[i].maxEnergy))
      && (r.maxEnergy == acc.maxEnergy || exists i :: 0 <= i < |hs| && r.maxEnergy == hs[i].maxEnergy)
  {
    if |hs| > 0 {
      var n := |hs| - 1;
      var front := hs[..n];
      MergeAllEnergies(acc, front, arith);
      var m := MergeAll(acc, front, arith).value;
      var r := MergeAll(acc, hs, arith).value;
      assert forall i :: 0 <= i < n ==> front[i] == hs[i];
      if r.minEnergy != acc.minEnergy && r.minEnergy != hs[n].minEnergy {
        assert r.minEnergy == m.minEnergy;
        var i :| 0 <= i < n && m.minEnergy == front[i].minEnergy;
        assert r.minEnergy == hs[i].minEnergy;
      }
      if r.maxEnergy != acc.maxEnergy && r.maxEnergy != hs[n].maxEnergy {
        assert r.maxEnergy == m.maxEnergy;
        var i :| 0 <= i < n && m.maxEnergy == front[i].maxEnergy;
        assert r.maxEnergy == hs[i].maxEnergy;
      }
    }
  }

  /** Folding one more header is merging it into the fold so far. */
  lemma MergeAllSnoc(acc: Header, hs: seq<Header>, h: Header, front: Header, arith: Arith)
    requires MergeAll(acc, hs, arith) == Ok(front)
    ensures MergeAll(acc, hs + [h], arith) == Merge(front, h, arith)
  {
    assert (hs + [h])[..|hs|] == hs;
  }

  /** Once a prefix of the fold fails, the whole fold fails. */
  lemma {:induction false} MergeAllPrefixFails(acc: Header, hs: seq<Header>, k: nat, arith: Arith)
    requires k <= |hs|
    requires MergeAll(acc, hs[..k], arith).Err?
    ensures MergeAll(acc, hs, arith).Err?
    decreases |hs| - k
  {
    if k < |hs| {
      assert hs[..k + 1][..k] == hs[..k];
      MergeAllPrefixFails(acc, hs, k + 1, arith);
    } else {
      assert hs[..k] == hs;
    }
  }
}
