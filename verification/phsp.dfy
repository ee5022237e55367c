/** The entities of an EGSnrc phase-space file: the two record layouts, the
    header, the particle record, and the ways an operation can stop. */
module Phsp {
  import opened Bytes
  import opened Float32

  /** Bytes of the header that carry data; the rest of its slot is padding. */
  const HeaderLength: nat := 25
  const ModeLength: nat := 5
  const U64Modulus: int := 0x1_0000_0000_0000_0000

  datatype Option<T> = None | Some(value: T)

  /** The two record layouts, told apart by the first five bytes of a file. */
  datatype Mode = Mode0 | Mode2 {
    /** Bytes per record, and per header slot. */
    function RecordSize(): nat {
      if Mode0? then 28 else 32
    }

    /** Bytes taken by `n` record slots, written per layout so that the
        product is with a constant. */
    function Span(n: nat): nat {
      if Mode0? then 28 * n else 32 * n
    }

    /** Whether each record carries the trailing `zlast` field. */
    predicate UsingZlast() {
      Mode2?
    }

    /** The ASCII tag `MODE0` or `MODE2`. */
    function Tag(): seq<byte> {
      if Mode0? then [0x4d, 0x4f, 0x44, 0x45, 0x30] else [0x4d, 0x4f, 0x44, 0x45, 0x32]
    }
  }

  /** A file header. The record size and the `zlast` flag are functions of
      the mode, which is how every header in the program is built. */
  datatype Header = Header(
    mode: Mode,
    totalParticles: i32,
    totalPhotons: i32,
    minEnergy: F32,
    maxEnergy: F32,
    sourceTotal: F32)
  {
    function RecordSize(): nat {
      mode.RecordSize()
    }

    predicate UsingZlast() {
      mode.UsingZlast()
    }
  }

  /** One particle crossing the scoring plane. `totalEnergy` and `weight`
      are the raw stored values: their sign bits carry flags. */
  datatype Record = Record(
    latch: u32,
    totalEnergy: F32,
    xCm: F32,
    yCm: F32,
    xCos: F32,
    yCos: F32,
    weight: F32,
    zlast: Option<F32>)

  /** A decoded file: its header and the records its reader yields. */
  datatype PhspFile = PhspFile(header: Header, records: seq<Record>)

  /** Why an operation stops. `Io` and `BadMode` are the `EGSError` values
      the code returns (`Io` here is always a stream that ends too early);
      the others are the panics of `assert!`, `expect` and `unwrap`. */
  datatype Error =
    | Io
    | BadMode
    | ModeMismatch      // merge: `assert!` on equal modes
    | ParticleOverflow  // `checked_add(..).expect(..)` on the particle count
    | NoInputs          // combine and sample: `assert!` on a non-empty input list
    | ZlastInput        // sample: `assert!(!using_zlast)`

  datatype Result<T> = Ok(value: T) | Err(error: Error) {
    predicate IsFailure() {
      Err?
    }

    function PropagateFailure<U>(): Result<U>
      requires Err?
    {
      Err(error)
    }

    function Extract(): T
      requires Ok?
    {
      value
    }
  }

  /** `f` applied to each element in turn, stopping at the first error. */
  function Collect<A, B>(xs: seq<A>, f: A -> Result<B>): (r: Result<seq<B>>)
    ensures r.Ok? <==> forall i :: 0 <= i < |xs| ==> f(xs[i]).Ok?
    ensures r.Ok? ==> |r.value| == |xs| && forall i :: 0 <= i < |xs| ==> r.value[i] == f(xs[i]).value
  {
    if |xs| == 0 then Ok([])
    else
      var n := |xs| - 1;
      assert forall i :: 0 <= i < n ==> xs[..n][i] == xs[i];
      var front :- Collect(xs[..n], f);
      var last :- f(xs[n]);
      Ok(front + [last])
  }

  /** `Header::expected_size`: `(total_particles as usize + 1) * record_size`
      on a 64-bit target, wrapping like a release build. */
  function ExpectedSize(h: Header): (n: nat)
    ensures n < U64Modulus
    ensures h.totalParticles >= 0 ==> n == (h.totalParticles + 1) * h.RecordSize()
  {
    var count := if h.totalParticles >= 0 then h.totalParticles else h.totalParticles + U64Modulus;
    ((count + 1) % U64Modulus) * h.RecordSize() % U64Modulus
  }

  /** All records of `files`, file by file, each file's in its own order. */
  function ConcatRecords(files: seq<PhspFile>): (rs: seq<Record>)
    ensures |files| == 1 ==> rs == files[0].records
  {
    if |files| == 0 then []
    else ConcatRecords(files[..|files| - 1]) + files[|files| - 1].records
  }

  /** The header of every file, in order. */
  function Headers(pfs: seq<PhspFile>): (hs: seq<Header>)
    ensures |hs| == |pfs|
    ensures forall i :: 0 <= i < |pfs| ==> hs[i] == pfs[i].header
  {
    if |pfs| == 0 then [] else Headers(pfs[..|pfs| - 1]) + [pfs[|pfs| - 1].header]
  }

  lemma ConcatRecordsSnoc(files: seq<PhspFile>, f: PhspFile)
    ensures ConcatRecords(files + [f]) == ConcatRecords(files) + f.records
  {
    assert (files + [f])[..|files|] == files;
  }

  /** Concatenation regrouped; stated once so that callers need not prove
      it element by element. */
  lemma AppendAssoc<T>(a: seq<T>, b: seq<T>, c: seq<T>)
    ensures (a + b) + c == a + (b + c)
  {
  }

  /** Dropping a prefix of the first part of a concatenation. */
  lemma DropAppend<T>(a: seq<T>, b: seq<T>, k: nat)
    requires k <= |a|
    ensures (a + b)[k..] == a[k..] + b
  {
  }
}
