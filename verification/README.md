# Phaser core in Dafny

A model of the library core of Phaser, a tool for EGSnrc phase-space
files (`src/lib.rs`). A phase-space file holds one header slot followed by
one slot per particle record. The layout is `MODE0`, with 28-byte slots,
or `MODE2`, with 32-byte slots whose extra field is `zlast`. The model
covers these parts:

- the byte layout of the header and of a record, as `PHSPReader` reads it
  and `PHSPWriter` writes it;
- the reader as an iterator that stops after `total_particles` records;
- `Header::expected_size` and `Header::merge`;
- the latch bit queries and the accessors that split the sign-carrying
  energy and weight fields, including `set_weight`;
- `combine`: merge the headers, then copy every record;
- `sample`: keep a random subset of the records and recount the header
  from the records kept.

Modelling decisions:

- **Integers.** Bytes and 32-bit words are bounded integers. A latch mask
  is the modular arithmetic that selects the same bits. An i32 is stored
  as its two's-complement word.
- **f32 values.** An f32 is its bit pattern. The operations that do not
  round are written out exactly on the bits: sign tests, `abs`, negation,
  comparison, `f32::min`/`f32::max` with their NaN rules, and
  multiplication by `signum`. The rounding operations are a parameter,
  `Float32.Arith`: f32 addition, f32 division and `u32 as f32`.
- **Panics.** The panics of the source become error values next to its
  `EGSError` values:
  - `assert!` on matching modes;
  - `checked_add(..).expect(..)`;
  - `assert!` on a non-empty input list;
  - `assert!(!using_zlast)`;
  - `unwrap` of a read error.
- **Wrapping photon counts.** Photon counts add with a plain `+=`. The
  model wraps them modulo 2^32, as a release build does.
- **Files.** A file is a byte sequence. `combine` and `sample` take the
  input files' bytes and return the output file's bytes.
- **Randomness.** The random generator of `sample` becomes a function
  `draw`. `draw(i)` is the toss for the `i`-th record read, counting
  across all inputs.
- **The `MODE2` writer.** `PHSPWriter::write` fills the `MODE2` trailing
  slot from the record's weight, not from its `zlast`. The model writes
  files as the code does. `RecordCodec.AsWritten` is what a reader gets
  back. `RecordCodec.ZlastNotPreserved` states that the original `zlast`
  is lost.

Each operation comes in two forms:

- a function over decoded inputs, `Combine.CombineFiles` and
  `Sample.SampleFiles`, which states what the result is;
- a method over the bytes, `Combine.Combine` and `Sample.Sample`, which
  follows the code's passes and loops and is proved to produce exactly
  the bytes of the function's result.

## Model

| member | source | states |
|---|---|---|
| Bytes.WordToBytes | src/lib.rs:216-222 | the four little-endian bytes of a word read back as that word |
| Bytes.BytesWordRoundTrip | src/lib.rs:181-187 | any four bytes read as a word and written back are the same four bytes |
| Bytes.I32ToWord | src/lib.rs:202-203 | the two's-complement word of an i32 reads back as that i32, and is at most `i32::MAX` exactly when the value is non-negative |
| Bytes.WrapI32Add | src/lib.rs:247 | a chain of wrapping i32 additions ends where the exact sum ends once it is wrapped |
| Float32.Min | src/lib.rs:248 | `f32::min` returns one of its arguments: the other one when an argument is NaN, otherwise one no greater than either |
| Float32.Max | src/lib.rs:249 | `f32::max` returns one of its arguments: the other one when an argument is NaN, otherwise one no smaller than either |
| Float32.TimesSignum | src/lib.rs:284 | multiplying by `signum` gives NaN exactly when either side is NaN; otherwise the result has the same magnitude, and its sign is the product of the two signs |
| Phsp.ExpectedSize | src/lib.rs:232-234 | for a non-negative count, the size is one header slot plus one slot per record; every result fits in a u64 |
| Phsp.Collect | src/lib.rs:334-336 | stepping through a list and stopping at the first error succeeds exactly when every step does, and then yields each step's result in order |
| HeaderCodec.ModeOfTag | src/lib.rs:142-149 | only the tags `MODE0` and `MODE2` are accepted, and each selects the layout whose tag it is; any other tag is `BadMode` |
| HeaderCodec.DecodeHeader | src/lib.rs:128-150 | a stream shorter than 25 bytes is an `Io` error; a wrong tag is `BadMode`; `MODE0` gives 28-byte records without `zlast`, and `MODE2` gives 32-byte records with it |
| HeaderCodec.EncodeHeader | src/lib.rs:198-207 | the header slot is one record long, and everything after byte 25 is zero |
| HeaderCodec.HeaderLayout | src/lib.rs:201-206 | the tag, the two counts, the maximum energy, the minimum energy and the source total sit at bytes 0, 5, 9, 13, 17 and 21 |
| HeaderCodec.HeaderRoundTrip | src/lib.rs:131-141 | a written header reads back as the same header, whatever bytes follow it |
| HeaderCodec.HeaderBytesRoundTrip | src/lib.rs:135-141 | a header read and written back reproduces its 25 data bytes |
| RecordCodec.DecodeRecord | src/lib.rs:180-193 | a decoded record carries `zlast` exactly in `MODE2` |
| RecordCodec.DecodeLayout | src/lib.rs:180-193 | each field of a decoded record is the little-endian word at its 4-byte offset: the latch at 0, then total energy, x, y, the two cosines and the weight; in `MODE2`, `zlast` is the word at bytes 28-32 |
| RecordCodec.WrittenWords | src/lib.rs:214-226 | a record is written as one 4-byte word per slot position: 7 words in `MODE0`, 8 in `MODE2` |
| RecordCodec.EncodeRecord | src/lib.rs:214-228 | an encoded record is exactly one slot long, and it decodes to the record as written: in `MODE2`, the trailing field becomes the weight |
| RecordCodec.Mode0RoundTrip | src/lib.rs:214-222 | in `MODE0`, a record without `zlast` survives a write and a read unchanged |
| RecordCodec.RecordLayout | src/lib.rs:216-224 | where each field sits in the slot; in `MODE2`, bytes 28-32 repeat the weight |
| RecordCodec.RecordBytesRoundTrip | src/lib.rs:223-226 | a slot read and written back is unchanged in `MODE0`; in `MODE2`, its last four bytes become a copy of the weight's |
| RecordCodec.ZlastNotPreserved | src/lib.rs:223-225 | a `MODE2` record whose `zlast` differs from its weight does not survive a write and a read |
| Reader.Limit | src/lib.rs:171 | a non-negative count is the number of records; a negative count, cast to u64, asks for at least 2^64 - 2^31 records |
| Reader.Open | src/lib.rs:128-165 | opening succeeds exactly when the header decodes; the cursor then starts after the header slot, at record 0 |
| Reader.Next | src/lib.rs:170-194 | `None` exactly when the declared count has been read; an `Io` error exactly when a record is due but fewer bytes than a slot remain; otherwise the next slot decoded, one slot consumed, and one fewer record due |
| Reader.ReadAll | src/lib.rs:168-195 | draining the reader succeeds exactly when the bytes left hold every record due, and then yields that many records; the only failure is `Io` |
| Reader.ReadAllContents | src/lib.rs:170-193 | the `i`-th record drained is the `i`-th slot of the bytes left, decoded in the header's layout |
| Reader.ReadFile | src/lib.rs:128-195 | a file reads in full exactly when its header decodes and it holds every declared record after the header slot; a decoded header with too few bytes after it is an `Io` error; a file read in full has the header its first bytes decode to and as many records as the count declares |
| Reader.ReadFileRecords | src/lib.rs:131-193 | the `i`-th record of a file read in full is its `i`-th slot after the header slot, decoded in the header's layout |
| Reader.ReadFiles | src/lib.rs:334-336 | a list of inputs reads in full exactly when each input does, and yields each input's contents in order |
| Reader.ReadFilesFails | src/lib.rs:335-337 | one unreadable input makes the whole list unreadable |
| Writer.EncodeRecords | src/lib.rs:214-228 | the records written take one slot each |
| Writer.EncodeRecordsAppend | src/lib.rs:336-338 | writing two runs of records one after the other writes their concatenation |
| Writer.WrittenAll | src/lib.rs:223-225 | the records read back from a writer are the records as written, position by position |
| Writer.ReadAllEncoded | src/lib.rs:168-194 | a reader over written records yields them back as written |
| Writer.WriteThenRead | src/lib.rs:197-228 | a file written with as many records as its header declares reads back as that header and those records as written, whatever bytes follow |
| Writer.WrittenLength | src/lib.rs:232-234 | a written file is exactly `expected_size` bytes long |
| Writer.ReadFileCount | src/lib.rs:171-178 | a file shorter than 2^64 bytes that reads in full declares a non-negative count and holds exactly that many records |
| Writer.ReadAllIgnoresTrailing | src/lib.rs:170-179 | bytes after the last declared record never change what is read |
| Merge.Merge | src/lib.rs:242-251 | a mode mismatch is refused; otherwise the merge succeeds exactly when the particle sum fits an i32, and then keeps the mode and layout, holds the exact particle sum, the photon sum modulo 2^32, the f32 minimum and maximum energies, and the f32 sum of the source totals |
| Merge.MergeAllSucceeds | src/lib.rs:324-328 | merging a list of headers into a first one succeeds exactly when every header has the first one's mode and no running particle total leaves the i32 range |
| Merge.MergeAllTotals | src/lib.rs:324-328 | a successful merge holds the first mode, the exact particle sum, the wrapped photon sum, and the source totals added in input order |
| Merge.MergeAllEnergies | src/lib.rs:248-249 | without NaNs, the merged minimum energy is one of the input minima and no greater than any of them; the maximum likewise |
| Merge.MergeAllPrefixFails | src/lib.rs:325-328 | once merging a prefix of the inputs fails, merging all of them fails |
| Accessors.BitRegion | src/lib.rs:265-267 | the bit region is an even value below 2^24 |
| Accessors.RegionNumber | src/lib.rs:268-270 | the region number is a multiple of 2^24 below 2^28 |
| Accessors.ChargedIsCrossedMultiple | src/lib.rs:274-279 | `charged` and `crossed_multiple` test the same bit, so they always agree |
| Accessors.QueriesReadTheirBits | src/lib.rs:262-276 | `bremsstrahlung_or_annihilation`, `b29` and `charged` read latch bits 0, 29 and 30 |
| Accessors.LatchDecomposition | src/lib.rs:262-276 | bit 0, the bit region, the region number, bit 29 and bit 30 are disjoint parts that add up to the latch without bits 28 and 31 |
| Accessors.Weight | src/lib.rs:280-282 | `get_weight` is never negative |
| Accessors.TotalEnergy | src/lib.rs:286-288 | `total_energy` is never negative |
| Accessors.SignCarriersSplit | src/lib.rs:280-297 | the stored weight is `get_weight` with the `z_positive` flag as its sign; the stored energy is `total_energy` with the `first_scored_by_primary_history` flag as its sign |
| Accessors.SetWeight | src/lib.rs:283-285 | `set_weight` changes only the weight; the result is NaN exactly when either weight is; otherwise it has the new magnitude, and its direction flag is the old one, flipped when the new weight is negative |
| Accessors.SetWeightKeepsSign | src/lib.rs:283-285 | setting a non-negative weight replaces the magnitude and keeps the z direction, the latch and the energy flag |
| Combine.CombineFiles | src/lib.rs:320-321 | combining no inputs is refused |
| Combine.MergeHeaders | src/lib.rs:323-328 | the first pass succeeds exactly when every input's header decodes and the headers merge, and then yields the merged header |
| Combine.WriteRecords | src/lib.rs:336-338 | writing an input's records appends their slots, in order, to the output |
| Combine.CopyFile | src/lib.rs:335-338 | copying an input succeeds exactly when it reads in full, and then appends the slots of its records |
| Combine.CopyRecords | src/lib.rs:334-342 | the second pass succeeds exactly when every input reads in full, and appends every record of every input, in input order |
| Combine.Combine | src/lib.rs:320-346 | no inputs is refused; otherwise the output exists exactly when every input reads and their headers merge, and it is then the combined file, byte for byte |
| Combine.CombineFilesSpec | src/lib.rs:320-346 | combining succeeds exactly when all modes agree and no running particle total overflows. The result then holds the first mode, the summed particle count, the wrapped photon count, the source totals added in order, and every input record in input order |
| Combine.CombinedFileReadsBack | src/lib.rs:332-338 | the combined file reads back as the merged header and every input record in order |
| Combine.CombineTwoCopies | src/lib.rs:320-346 | two copies of a two-particle `MODE0` file combine into four particles, two photons, the same energy range, twice the source total, and the records twice over |
| Sample.Kept | src/lib.rs:367 | the records kept are drawn from the records read, and there are no more of them |
| Sample.KeptIndices | src/lib.rs:367 | the positions whose toss comes out true: each such position and no other, in increasing order |
| Sample.KeptSelects | src/lib.rs:367 | the records kept are exactly the records at the positions whose toss comes out true, in input order; every other record is dropped |
| Sample.KeptAppend | src/lib.rs:362-367 | tossing across consecutive inputs keeps the same records as tossing for their concatenation, because the toss count carries over from one input to the next |
| Sample.KeptMembers | src/lib.rs:367 | every record whose toss comes out true is kept |
| Sample.KeptAll | src/lib.rs:367 | with a rate of at most 1, every record is kept |
| Sample.PhotonCount | src/lib.rs:371-373 | there are no more uncharged records than records |
| Sample.PhotonCountAppend | src/lib.rs:362-373 | the photons of two runs of records add up |
| Sample.TallyRecord | src/lib.rs:369-377 | counting one more record succeeds exactly when the particle count stays in the i32 range; an overflow is `ParticleOverflow` |
| Sample.TallyAllCounts | src/lib.rs:368-377 | tallying succeeds exactly when the particle count stays at most `i32::MAX`; it then counts one particle per record and one photon per uncharged record, and changes neither the mode nor the source total |
| Sample.TallyAllAppend | src/lib.rs:362-379 | tallying one input after another is tallying their records together |
| Sample.TallyAllPrefixFails | src/lib.rs:369-370 | once the count overflows on a prefix of the records, the whole tally fails |
| Sample.TallyAllEnergies | src/lib.rs:374-377 | the minimum energy is the starting one or a positive stored energy, and is no greater than either; likewise the maximum; zero, negative and NaN energies leave the range alone |
| Sample.SampleFiles | src/lib.rs:348-388 | sampling no inputs is refused; a sampled file is always `MODE0` |
| Sample.SampleFilesSpec | src/lib.rs:348-388 | sampling succeeds exactly when there is an input, none is `MODE2`, and at most `i32::MAX` records are kept. The output then holds the kept records, counts them and their photons exactly, and has as source total the f32 sum of the inputs' totals divided by `rate as f32`. A rate of at most 1 keeps every record |
| Sample.SampleFilesEnergies | src/lib.rs:357-377 | the sampled minimum energy is 1000.0 or a positive kept energy, and is no greater than any positive kept energy; the maximum is 0.0 or the largest positive kept energy |
| Sample.OverwriteSlot | src/lib.rs:383-386 | rewriting the header without truncating keeps the file length and every byte after the header slot |
| Sample.SampleRecords | src/lib.rs:367-379 | the records of one input are tossed for, tallied, and the kept ones appended; this succeeds exactly when the tally does |
| Sample.SampleInput | src/lib.rs:362-381 | one input succeeds exactly when it reads in full, is not `MODE2`, and its kept records do not overflow the count. Its source total, kept records and record count then move the running state on |
| Sample.Sample | src/lib.rs:348-388 | no inputs is refused; otherwise the output exists exactly when every input reads and sampling succeeds, and it is then the sampled file, byte for byte, header slot rewritten |
| Sample.SampleInputFails | src/lib.rs:363-370 | an input that cannot be read, is `MODE2`, or overflows the count makes `sample` fail |
| Sample.SampleZlastFails | src/lib.rs:364 | any `MODE2` input makes `sample` fail |
| Sample.SampledFileReadsBack | src/lib.rs:384-386 | a sampled file reads back as its header and its records |

## Left out

- `transform`, `Record::transform`, `Transform::rotation` and `Record::z_cos`: these need rounding f32 arithmetic, sines, cosines and square roots, which the model does not define.
- `Header::similar_to` and `Record::similar_to`: these compare floats by ULP distance and by rounding subtraction. They are used only by tests.
- Opening, creating and deleting files, `BufReader`/`BufWriter` buffering, `println!`, CPU timing and the command-line front end (`bin.rs`). `combine`'s `delete` flag is not modelled. The model assumes the input paths are distinct and the output path is none of them. With `delete` set, as the front end's `shout` command always sets it, a path listed twice fails on its second `File::open` once `remove_file` has removed it. An output path equal to an input truncates that input before it is read.
- The model is of a release build, where integer overflow wraps instead of panicking. The next lines list each place where a debug build behaves differently.
- Reader.Open: in a debug build, `expected_size` (src/lib.rs:233) overflows and panics for every negative `total_particles` when `PHSPReader::from` calls it (src/lib.rs:151). `Open` succeeds there, as a release build does. Apart from that, the length check only writes a message to stderr, so it has no effect on the model.
- Phsp.ExpectedSize: the size wraps modulo 2^64, as in a release build. A debug build panics for every negative count.
- f32 addition, f32 division and `u32 as f32`: these are the parameter `Float32.Arith`, so properties involving them hold for any rounding.
- Float32.TimesSignum: a NaN result is one fixed quiet NaN. Its sign and payload are not modelled.
- Float32.Min: when +0.0 and -0.0 compare equal, the first argument is returned. Rust leaves that choice open.
- Float32.Max: the same tie rule as `Min`.
- Merge.Merge: the photon count wraps as in a release build. A debug build would panic on overflow instead.
- Sample.TallyRecord: the photon count's `+= 1` wraps as in a release build. A debug build would panic on overflow instead.
- Combine.Combine: when several inputs fail, which error is reported is not pinned down, except that no inputs at all is `NoInputs`.
- Sample.Sample: the same applies to which error is reported. A read error inside `sample` counts as an immediate failure. The filter in the source can skip an error item whose toss comes out false, and go on drawing for the following items of a reader that has already reached its end.
- The random generator and its seed: `sample` takes a `draw` function instead of an `StdRng`, so no claim is made about the distribution of the tosses.
- The partial output file that a failed `combine` or `sample` leaves behind is not modelled; the result is the error.
