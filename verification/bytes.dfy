/** Little-endian layout of the 32-bit quantities a phase-space file stores:
    u32 latches, i32 counts and the bit patterns of f32 values. Bytes and
    words are kept as bounded integers, so a bit mask is written as the
    modular arithmetic it amounts to. */
module Bytes {

  const WordModulus: int := 0x1_0000_0000
  const I32Min: int := -0x8000_0000
  const I32Max: int := 0x7fff_ffff

  type byte = x: int | 0 <= x < 0x100

  /** A raw 32-bit word: a u32, or the bit pattern of an i32 or an f32. */
  type u32 = x: int | 0 <= x < 0x1_0000_0000

  predicate InI32(x: int) {
    I32Min <= x <= I32Max
  }

  type i32 = x: int | I32Min <= x <= I32Max

  /** The four bytes of `w`, least significant first (`LittleEndian::write_u32`). */
  function WordToBytes(w: u32): (bs: seq<byte>)
    ensures |bs| == 4
    ensures WordFromBytes(bs) == w
  {
    var r1 := w / 0x100;
    var r2 := r1 / 0x100;
    [w % 0x100, r1 % 0x100, r2 % 0x100, r2 / 0x100]
  }

  /** The word whose least significant byte is `bs[0]` (`LittleEndian::read_u32`). */
  function WordFromBytes(bs: seq<byte>): u32
    requires |bs| == 4
  {
    bs[0] as int + 0x100 * (bs[1] as int + 0x100 * (bs[2] as int + 0x100 * bs[3] as int))
  }

  lemma BytesWordRoundTrip(bs: seq<byte>)
    requires |bs| == 4
    ensures WordToBytes(WordFromBytes(bs)) == bs
  {
    var r2 := bs[2] as int + 0x100 * bs[3] as int;
    var r1 := bs[1] as int + 0x100 * r2;
    var w := bs[0] as int + 0x100 * r1;
    DivModByte(w, r1, bs[0]);
    DivModByte(r1, r2, bs[1]);
    DivModByte(r2, bs[3], bs[2]);
  }

  lemma DivModByte(x: int, q: int, r: int)
    requires 0 <= r < 0x100 && x == r + 0x100 * q
    ensures x / 0x100 == q && x % 0x100 == r
  {
  }

  /** Words laid out one after another, each little-endian. */
  function WordsToBytes(ws: seq<u32>): (bs: seq<byte>)
    ensures |bs| == 4 * |ws|
  {
    if |ws| == 0 then [] else WordsToBytes(ws[..|ws| - 1]) + WordToBytes(ws[|ws| - 1])
  }

  /** Word `j` of a layout occupies bytes `4 * j` to `4 * j + 4`. */
  lemma {:induction false} WordAt(ws: seq<u32>, j: nat)
    requires j < |ws|
    ensures WordsToBytes(ws)[4 * j..4 * j + 4] == WordToBytes(ws[j])
  {
    var front := ws[..|ws| - 1];
    var bs := WordsToBytes(ws);
    assert bs == WordsToBytes(front) + WordToBytes(ws[|ws| - 1]);
    if j < |ws| - 1 {
      WordAt(front, j);
      assert bs[4 * j..4 * j + 4] == WordsToBytes(front)[4 * j..4 * j + 4];
    }
  }

  /** The words a run of bytes holds, four bytes each, in order. */
  function ReadWords(bs: seq<byte>): (ws: seq<u32>)
    requires |bs| % 4 == 0
    ensures 4 * |ws| == |bs|
  {
    if |bs| == 0 then [] else ReadWords(bs[..|bs| - 4]) + [WordFromBytes(bs[|bs| - 4..])]
  }

  /** Laying out the words read from a run of bytes gives the bytes back. */
  lemma {:induction false} ReadWordsInverse(bs: seq<byte>)
    requires |bs| % 4 == 0
    ensures WordsToBytes(ReadWords(bs)) == bs
  {
    if |bs| > 0 {
      var n := |bs| - 4;
      var ws := ReadWords(bs);
      ReadWordsInverse(bs[..n]);
      BytesWordRoundTrip(bs[n..]);
      assert ws[..|ws| - 1] == ReadWords(bs[..n]);
    }
  }

  /** Reading back laid-out words gives the words. */
  lemma {:induction false} WordsRoundTrip(ws: seq<u32>)
    ensures ReadWords(WordsToBytes(ws)) == ws
  {
    if |ws| > 0 {
      var front := ws[..|ws| - 1];
      var last := ws[|ws| - 1];
      var bs := WordsToBytes(ws);
      var n := |bs| - 4;
      MultipleOfFour(|front|);
      MultipleOfFour(|ws|);
      assert n == 4 * |front| && |bs| == 4 * |ws|;
      assert bs == WordsToBytes(front) + WordToBytes(last);
      assert bs[..n] == WordsToBytes(front);
      assert bs[n..] == WordToBytes(last);
      WordsRoundTrip(front);
      assert ws == front + [last];
    }
  }

  lemma MultipleOfFour(k: nat)
    ensures (4 * k) % 4 == 0 && (4 * k + 4) % 4 == 0 && (4 * k + 4) / 4 == k + 1
  {
  }

  /** The two's-complement bit pattern of `x` (`LittleEndian::write_i32`). */
  function I32ToWord(x: i32): (w: u32)
    ensures WordToI32(w) == x
    ensures x >= 0 <==> w <= I32Max
  {
    if x >= 0 then x else x + WordModulus
  }

  /** The i32 a two's-complement bit pattern denotes (`LittleEndian::read_i32`). */
  function WordToI32(w: u32): i32 {
    if w <= I32Max then w else w - WordModulus
  }

  lemma WordI32RoundTrip(w: u32)
    ensures I32ToWord(WordToI32(w)) == w
  {
  }

  /** `x` reduced into the i32 range modulo 2^32: the value a wrapping i32
      addition leaves behind. */
  function WrapI32(x: int): (r: i32)
    ensures (r - x) % WordModulus == 0
    ensures InI32(x) ==> r == x
  {
    (x - I32Min) % WordModulus + I32Min
  }

  /** Wrapping an intermediate sum changes nothing: a chain of wrapping
      additions ends where the exact sum, wrapped once, ends. */
  lemma WrapI32Add(x: int, y: int)
    ensures WrapI32(WrapI32(x) + y) == WrapI32(x + y)
  {
    var a := WrapI32(x);
    var k := (a - x) / WordModulus;
    assert a == x + k * WordModulus;
    ModShift((x + y) - I32Min, k);
  }

  lemma ModShift(n: int, k: int)
    ensures (n + k * WordModulus) % WordModulus == n % WordModulus
  {
  }
}
