/** IEEE-754 binary32 values as the bit patterns the file stores. The
    operations the phase-space code needs without rounding (sign tests,
    `abs`, negation, comparison, `f32::min`/`f32::max`, multiplication by
    `signum`) are spelled out exactly on the bits; the rounding operations
    (addition, division, conversion from u32) are a parameter, `Arith`. */
module Float32 {
  import opened Bytes

  /** The bit pattern of an f32. */
  type F32 = u32

  const SignMask: int := 0x8000_0000
  const InfinityBits: int := 0x7f80_0000

  const Zero: F32 := 0x0000_0000      // 0.0
  const Thousand: F32 := 0x447a_0000  // 1000.0
  const QuietNaN: F32 := 0x7fc0_0000  // f32::NAN

  /** `is_sign_negative`: the top bit is set. */
  predicate SignBit(x: F32) {
    x >= SignMask
  }

  /** `f32::abs`: the bit pattern with the sign bit cleared. */
  function Abs(x: F32): (r: F32)
    ensures !SignBit(r)
    ensures r == x || r + SignMask == x
  {
    x % SignMask
  }

  /** Unary minus: flips the sign bit and nothing else. */
  function Negate(x: F32): (r: F32)
    ensures SignBit(r) != SignBit(x)
    ensures Abs(r) == Abs(x)
  {
    if SignBit(x) then x - SignMask else x + SignMask
  }

  /** Exponent all ones and a non-zero fraction. */
  predicate IsNaN(x: F32) {
    Abs(x) > InfinityBits
  }

  /** Where a non-NaN value sits on the number line: for non-NaN bit
      patterns the float order is the order of their magnitudes' bit
      patterns, negated when the sign bit is set, and +0.0 and -0.0 meet at 0. */
  function Key(x: F32): int {
    if SignBit(x) then 0 - Abs(x) as int else Abs(x)
  }

  /** The float comparison `a < b` (false when either side is NaN). */
  predicate Less(a: F32, b: F32) {
    !IsNaN(a) && !IsNaN(b) && Key(a) < Key(b)
  }

  /** The float comparison `x > 0.0`. */
  predicate IsPositive(x: F32) {
    Less(Zero, x)
  }

  /** `a.min(b)`: a NaN argument yields the other argument; otherwise the
      lesser, with `a` kept when the two compare equal (+0.0 against -0.0,
      where Rust leaves the choice open). */
  function Min(a: F32, b: F32): (r: F32)
    ensures r == a || r == b
    ensures IsNaN(a) ==> r == b
    ensures !IsNaN(a) ==> !IsNaN(r)
    ensures !IsNaN(a) && !IsNaN(b) ==> Key(r) <= Key(a) && Key(r) <= Key(b)
  {
    if IsNaN(a) then b
    else if IsNaN(b) then a
    else if Key(b) < Key(a) then b
    else a
  }

  /** `a.max(b)`, with the same NaN and tie rules as `Min`. */
  function Max(a: F32, b: F32): (r: F32)
    ensures r == a || r == b
    ensures IsNaN(a) ==> r == b
    ensures !IsNaN(a) ==> !IsNaN(r)
    ensures !IsNaN(a) && !IsNaN(b) ==> Key(r) >= Key(a) && Key(r) >= Key(b)
  {
    if IsNaN(a) then b
    else if IsNaN(b) then a
    else if Key(a) < Key(b) then b
    else a
  }

  /** `x * s.signum()`: `signum` is -1.0, 1.0 or NaN, and multiplying a
      non-NaN value by -1.0 or 1.0 is exact. A NaN result is represented by
      `QuietNaN`; its payload and sign are not modelled. */
  function TimesSignum(x: F32, s: F32): (r: F32)
    ensures IsNaN(r) <==> IsNaN(x) || IsNaN(s)
    ensures !IsNaN(r) ==> Abs(r) == Abs(x) && (SignBit(r) <==> SignBit(x) != SignBit(s))
  {
    if IsNaN(x) || IsNaN(s) then QuietNaN
    else if SignBit(s) then Negate(x)
    else x
  }

  /** Clearing the sign bit and recording it separately loses nothing. */
  lemma SignMagnitudeSplit(x: F32)
    ensures x == (if SignBit(x) then Negate(Abs(x)) else Abs(x))
  {
  }

  /** The rounding binary32 operations the model leaves abstract: `a + b`,
      `a / b`, and `n as f32` for a u32 `n`. */
  datatype Arith = Arith(add: (F32, F32) -> F32, div: (F32, F32) -> F32, ofU32: u32 -> F32)
}
