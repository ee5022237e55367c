/** The derived views of a record: the latch bit queries, and the
    accessors that split the sign-carrying energy and weight fields into a
    magnitude and a flag. A latch mask `latch & m` is written as the
    modular arithmetic that selects the same bits. */
module Accessors {
  import opened Bytes
  import opened Float32
  import opened Phsp

  /** Bit `k` of a word. */
  predicate Bit(w: u32, k: nat)
    requires k < 32
  {
    (w / Pow2(k)) % 2 == 1
  }

  function Pow2(k: nat): (p: nat)
    ensures p >= 1
  {
    if k == 0 then 1 else 2 * Pow2(k - 1)
  }

  /** `bremsstrahlung_or_annihilation`: `latch & 1 != 0`. */
  predicate BremsstrahlungOrAnnihilation(r: Record) {
    r.latch % 2 == 1
  }

  /** `bit_region`: `latch & 0xfffffe`, bits 1 to 23. */
  function BitRegion(r: Record): (b: u32)
    ensures b < 0x100_0000 && b % 2 == 0
  {
    r.latch % 0x100_0000 - r.latch % 2
  }

  /** `region_number`: `latch & 0xf000000`, bits 24 to 27 left in place. */
  function RegionNumber(r: Record): (n: u32)
    ensures n < 0x1000_0000 && n % 0x100_0000 == 0
  {
    r.latch % 0x1000_0000 - r.latch % 0x100_0000
  }

  /** `b29`: `latch & (1 << 29) != 0`. */
  predicate B29(r: Record) {
    (r.latch / 0x2000_0000) % 2 == 1
  }

  /** `charged`: `latch & (1 << 30) != 0`. */
  predicate Charged(r: Record) {
    (r.latch / 0x4000_0000) % 2 == 1
  }

  /** `crossed_multiple`: the same bit as `charged`, asked another question. */
  predicate CrossedMultiple(r: Record) {
    (r.latch / 0x4000_0000) % 2 == 1
  }

  /** The two names for bit 30 always agree. */
  lemma ChargedIsCrossedMultiple(r: Record)
    ensures Charged(r) <==> CrossedMultiple(r)
  {
  }

  /** The queries read the bits they are named after. */
  lemma QueriesReadTheirBits(r: Record)
    ensures BremsstrahlungOrAnnihilation(r) <==> Bit(r.latch, 0)
    ensures B29(r) <==> Bit(r.latch, 29)
    ensures Charged(r) <==> Bit(r.latch, 30)
  {
    assert Pow2(29) == 0x2000_0000 by { Pow2Value(29); }
    assert Pow2(30) == 0x4000_0000 by { Pow2Value(30); }
  }

  lemma Pow2Value(k: nat)
    requires k <= 30
    ensures Pow2(k) == [0x1, 0x2, 0x4, 0x8, 0x10, 0x20, 0x40, 0x80,
                        0x100, 0x200, 0x400, 0x800, 0x1000, 0x2000, 0x4000, 0x8000,
                        0x1_0000, 0x2_0000, 0x4_0000, 0x8_0000,
                        0x10_0000, 0x20_0000, 0x40_0000, 0x80_0000,
                        0x100_0000, 0x200_0000, 0x400_0000, 0x800_0000,
                        0x1000_0000, 0x2000_0000, 0x4000_0000][k]
  {
    if k > 0 {
      Pow2Value(k - 1);
    }
  }

  /** Together the queries recover every latch bit except 28 and 31: bit 0,
      the bit region, the region number, bit 29 and bit 30 are disjoint
      pieces of `latch & 0x6fffffff`. */
  lemma LatchDecomposition(r: Record)
    ensures (if BremsstrahlungOrAnnihilation(r) then 1 else 0)
      + BitRegion(r) + RegionNumber(r)
      + (if B29(r) then 0x2000_0000 else 0)
      + (if Charged(r) then 0x4000_0000 else 0)
      == r.latch - (if (r.latch / 0x1000_0000) % 2 == 1 then 0x1000_0000 else 0)
         - (if r.latch >= 0x8000_0000 then 0x8000_0000 else 0)
  {
    var low, region, t0, t1, t2, t3 := LatchDigits(r.latch);
    DigitQueries(r.latch, low, region, t0, t1, t2, t3);
  }

  /** A word split into its low 24 bits, the four region bits, and bits 28
      to 31 one by one. */
  lemma LatchDigits(l: u32) returns (low: int, region: int, t0: int, t1: int, t2: int, t3: int)
    ensures 0 <= low < 0x100_0000 && 0 <= region < 0x10
    ensures 0 <= t0 < 2 && 0 <= t1 < 2 && 0 <= t2 < 2 && 0 <= t3 < 2
    ensures l == low + 0x100_0000 * region
      + 0x1000_0000 * t0 + 0x2000_0000 * t1 + 0x4000_0000 * t2 + 0x8000_0000 * t3
  {
    low := l % 0x100_0000;
    var high := l / 0x100_0000;
    assert l == low + 0x100_0000 * high;
    region := high % 0x10;
    var top := high / 0x10;
    assert high == region + 0x10 * top;
    assert top < 0x10;
    t0, t1, t2, t3 := top % 2, (top / 2) % 2, (top / 4) % 2, top / 8;
    assert top == t0 + 2 * t1 + 4 * t2 + 8 * t3;
  }

  lemma DigitQueries(l: u32, low: int, region: int, t0: int, t1: int, t2: int, t3: int)
    requires 0 <= low < 0x100_0000 && 0 <= region < 0x10
    requires 0 <= t0 < 2 && 0 <= t1 < 2 && 0 <= t2 < 2 && 0 <= t3 < 2
    requires l == low + 0x100_0000 * region
      + 0x1000_0000 * t0 + 0x2000_0000 * t1 + 0x4000_0000 * t2 + 0x8000_0000 * t3
    ensures l % 2 == low % 2
    ensures l % 0x100_0000 == low
    ensures l % 0x1000_0000 == low + 0x100_0000 * region
    ensures (l / 0x1000_0000) % 2 == t0
    ensures (l / 0x2000_0000) % 2 == t1
    ensures (l / 0x4000_0000) % 2 == t2
    ensures l >= 0x8000_0000 <==> t3 == 1
  {
    assert l / 0x1000_0000 == t0 + 2 * t1 + 4 * t2 + 8 * t3;
    assert l / 0x2000_0000 == t1 + 2 * t2 + 4 * t3;
    assert l / 0x4000_0000 == t2 + 2 * t3;
    assert l == low + 0x100_0000 * (l / 0x100_0000);
  }

  /** `get_weight`: the magnitude of the weight. */
  function Weight(r: Record): (w: F32)
    ensures !SignBit(w)
  {
    Abs(r.weight)
  }

  /** `z_positive`: the weight's sign bit is clear. */
  predicate ZPositive(r: Record) {
    !SignBit(r.weight)
  }

  /** `total_energy`: the magnitude of the stored energy. */
  function TotalEnergy(r: Record): (e: F32)
    ensures !SignBit(e)
  {
    Abs(r.totalEnergy)
  }

  /** `first_scored_by_primary_history`: the energy's sign bit is set. */
  predicate FirstScoredByPrimaryHistory(r: Record) {
    SignBit(r.totalEnergy)
  }

  /** The stored weight is exactly its magnitude with the z-direction flag
      as its sign; likewise the stored energy with the history flag. */
  lemma SignCarriersSplit(r: Record)
    ensures r.weight == (if ZPositive(r) then Weight(r) else Negate(Weight(r)))
    ensures r.totalEnergy
      == (if FirstScoredByPrimaryHistory(r) then Negate(TotalEnergy(r)) else TotalEnergy(r))
  {
    SignMagnitudeSplit(r.weight);
    SignMagnitudeSplit(r.totalEnergy);
  }

  /** `set_weight`: `weight = new_weight * weight.signum()`. Only the weight
      changes. */
  function SetWeight(r: Record, newWeight: F32): (r': Record)
    ensures r'.(weight := r.weight) == r
    ensures IsNaN(r'.weight) <==> IsNaN(newWeight) || IsNaN(r.weight)
    ensures !IsNaN(r'.weight) ==>
      Weight(r') == Abs(newWeight) && (ZPositive(r') <==> ZPositive(r) == !SignBit(newWeight))
  {
    r.(weight := TimesSignum(newWeight, r.weight))
  }

  /** Setting a non-negative weight on a record with a non-NaN weight
      replaces the magnitude and keeps the z-direction flag; the latch and
      the energy flag are untouched. */
  lemma SetWeightKeepsSign(r: Record, newWeight: F32)
    requires !IsNaN(r.weight) && !IsNaN(newWeight) && !SignBit(newWeight)
    ensures Weight(SetWeight(r, newWeight)) == newWeight
    ensures ZPositive(SetWeight(r, newWeight)) <==> ZPositive(r)
    ensures SetWeight(r, newWeight).latch == r.latch
    ensures FirstScoredByPrimaryHistory(SetWeight(r, newWeight)) <==> FirstScoredByPrimaryHistory(r)
  {
  }
}
