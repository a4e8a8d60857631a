# Composition Time to Sample box (`ctts`)

A Dafny model of the `ctts` box of the mp4ff MP4 library (`mp4/ctts.go`),
the ISO Base Media File Format table (ISO/IEC 14496-12, section 8.6.1.3)
that maps every sample, in decode order, to the offset between its decode
time and its composition time. The table is run-length coded: run `i`
covers `SampleCount[i]` consecutive samples that share `SampleOffset[i]`.

The model has three modules:

- `Bytes` (`bytes.dfy`): 8-bit, 32-bit unsigned and 32-bit signed integers;
  the big-endian word layout; Go's `int32(u)` and `uint32(i)` conversions;
  and the concatenation of a list of 4-byte words.
- `Writer` (`writer.dfy`): the fixed-capacity slice writer that box
  encoders write into. The class `SliceWriter` holds the bytes written and a
  sticky error flag. Its writes are specified by the pure functions
  `Put`/`PutAll`: bytes are appended in order; a write that does not fit sets
  the error and writes nothing; after an error nothing is written.
- `Ctts` (`ctts.dfy`): the box as a value (`CttsBox`) and the following.
  - Decoding: the method `DecodeCtts` with its loop, proved against the
    function `DecodeBody`.
  - Encoding: the method `EncodeSW` with its loop, proved against the
    sequence of writes `BodyWords` and the byte layout `LaidOut`.
  - `Size` and `Encode`.
  - Both round trips.
  - The sample lookup `GetCompositionTimeOffset`, proved against prefix sums
    of the run lengths and against the reference expansion `Expand`, which
    lists one offset per sample.

Where the Go code would panic, the model returns an error instead:
- a body too short for its entry count gives `TruncatedData`;
- sample number 0 gives `InvalidArgument`.

## Model

| member | source | states |
|---|---|---|
| Ctts.DecodeCtts | mp4/ctts.go:26-41 | Succeeds exactly when the body holds at least `8 + 8·entryCount` bytes; fails with `TruncatedData` otherwise. Version is the top byte of word 0 and flags are its low 24 bits. Both columns have `entryCount` entries. Run `i`'s count is the big-endian word at bytes `8+8i`. Run `i`'s offset is the two's-complement reading of the word at bytes `12+8i`. The result equals the decoding function `DecodeBody`. |
| Ctts.DecodeReadsOnlyPrefix | mp4/ctts.go:35-40 | No byte at or past `8 + 8·entryCount` affects the decoded box; cutting the body there changes nothing. |
| Bytes.ReadBE32 | mp4/ctts.go:26-30 | `binary.BigEndian.Uint32`: the word read at a position, divided by 2^24 (`>> 24`), is its first byte. Modulo 2^24 (`& flagsMask`) it is its last three bytes. |
| Bytes.BE32 | mp4/ctts.go:72-76 | The four bytes written for a word (`binary.BigEndian.PutUint32`), read as base-256 digits with the most significant byte first, give back the word. |
| Bytes.ToInt32 | mp4/ctts.go:39 | Reads a raw 32-bit field as two's complement. The result equals the raw value modulo 2^32 and is negative exactly when the top bit is set, so `0xFFFFFFFF` reads as -1. |
| Bytes.Int32Bits | mp4/ctts.go:76 | The raw bits written for a signed offset equal the offset modulo 2^32, with the top bit set exactly for negative offsets. |
| Bytes.Int32BitsRoundTrip | mp4/ctts.go:39 | Reading back written offset bits gives back the offset. Writing back read bits gives back the bits. |
| Bytes.ReadBE32OfBE32 | mp4/ctts.go:36-37 | Reading a big-endian word from the four bytes the writer produces for `x` gives `x`. |
| Bytes.BE32OfReadBE32 | mp4/ctts.go:36-37 | Writing a word read from four bytes gives back those four bytes. |
| Ctts.BoxType | mp4/ctts.go:45-47 | Returns the constant `ctts`. Its contract states only that the box type is four characters long. |
| Ctts.Size | mp4/ctts.go:50-52 | `boxHeaderSize (8) + 8 + 8·len(SampleCount)`. For every well-formed box this is the header length plus the length of the encoded body, so it is the number of bytes `Encode` produces. |
| Ctts.EncodeLayout | mp4/ctts.go:50-52 | The encoded body is exactly `Size - boxHeaderSize` = `8 + 8·len(SampleCount)` bytes. It has the version/flags word, the 32-bit entry count, and then, per run, the count word and the offset's raw bits, all big-endian. |
| Ctts.EncodeSW | mp4/ctts.go:66-79 | The writer ends up in the state of these writes in order: header, version/flags word, entry count, then count and offset for each run. A failed header write stops the encoder at once. The result is the writer's accumulated error. |
| Ctts.EncodeOutcome | mp4/ctts.go:66-79 | Encoding into a writer fails exactly when the writer had failed already or has fewer than `Size()` bytes of room. Otherwise it appends the header followed by the body. |
| Ctts.Encode | mp4/ctts.go:55-60 | Encoding into a fresh writer of `Size()` bytes never fails. It yields the header followed by the encoded body, exactly `Size()` bytes. |
| Ctts.VersionAndFlags | mp4/ctts.go:71 | `(uint32(version) << 24) + flags` in wrapping 32-bit arithmetic. Its low 24 bits are always the low 24 bits of the flags. With flags below 2^24 nothing wraps: the word is `version·2^24 + flags`, and it splits back into version (top byte) and flags (low 24 bits). |
| Ctts.VersionAndFlagsOfWord | mp4/ctts.go:29-30 | A version and flags split from a word rebuild that word. |
| Ctts.LaidOutReads | mp4/ctts.go:26-37 | From a body laid out for box `b`, the decoder's reads give `b`'s version/flags word, its entry count, and each run's count and offset bits. |
| Ctts.DecodeOfLayout | mp4/ctts.go:26-40 | A body laid out for a box whose flags fit in 24 bits, with fewer than 2^32 runs, decodes to that box. |
| Ctts.DecodeEncodeRoundTrip | mp4/ctts.go:71-76 | Decoding the encoded body of a box whose flags fit in 24 bits and whose run count fits in 32 bits gives back the same version, flags, counts and offsets. |
| Ctts.EncodeDecodeRoundTrip | mp4/ctts.go:26-40 | A decoded box is always encodable. Its encoding is exactly the first `8 + 8·entryCount` bytes it was decoded from. |
| Ctts.WideFlagsDoNotRoundTrip | mp4/ctts.go:71 | Because flags are added to the version word rather than masked, a box with flags of 2^24 or more never survives encode-then-decode. |
| Ctts.PrefixSumMonotone | mp4/ctts.go:89-91 | The number of samples covered by the first `k` runs never decreases with `k`. |
| Ctts.RunIsUnique | mp4/ctts.go:89-94 | At most one run covers a given sample, so the first covering run is the only one. The covering run is never a run of count 0; such runs are skipped. |
| Ctts.Expand | mp4/ctts.go:89-94 | The reference table, one offset per sample, has as many entries as the runs cover samples. |
| Ctts.ExpandAt | mp4/ctts.go:89-94 | A sample covered by run `i` has run `i`'s offset in the reference table. |
| Ctts.GetCompositionTimeOffset | mp4/ctts.go:82-97 | Sample number 0 gives `InvalidArgument`. For `1 <= n <= sum(SampleCount)` it returns the offset of the run `i` with `SampleCount[0]+…+SampleCount[i-1] < n <= SampleCount[0]+…+SampleCount[i]`. Past the last sample, including for an empty table, it returns 0. For every `n >= 1` the result is entry `n-1` of the reference table. |
| Writer.Put | mp4/ctts.go:72-76 | A write never takes the writer past its capacity. Once the writer has failed, a write changes nothing. |
| Writer.PutAllOutcome | mp4/ctts.go:56-58 | A run of writes into a fixed-capacity writer fails exactly when the writer had failed or the bytes do not all fit. Otherwise all chunks are appended in order. |
| Writer.PutAllAfterFailure | mp4/ctts.go:67-69 | After the accumulated error is set, further writes change nothing. |
| Writer.PutAllAfterFirstFailure | mp4/ctts.go:67-69 | When the header write fails, the writes the encoder would have made after it change nothing. |
| Writer.PutAllSplit | mp4/ctts.go:66-78 | A run of writes is its first `k` writes followed by the rest. |
| Writer.SliceWriter.NewFixed | mp4/ctts.go:56 | A new writer has capacity `Size()`, holds no bytes and has no error. |
| Writer.SliceWriter.WriteBytes | mp4/ctts.go:67 | Writing the header bytes updates the writer as `Put` says. |
| Writer.SliceWriter.WriteUint32 | mp4/ctts.go:72-75 | Writing a word appends its four big-endian bytes, or sets the error if they do not fit. |
| Writer.SliceWriter.WriteInt32 | mp4/ctts.go:76 | Writing a signed offset writes its raw 32 bits big-endian. |

## Left out

- `Info` (mp4/ctts.go:100-109) is diagnostic text formatting through helpers defined elsewhere; it is not modelled.
- Reading the body from an `io.Reader` (`readBoxBody`) and its error are not modelled. `DecodeCtts` takes the body bytes.
- The final `w.Write` of `Encode` to an `io.Writer` is not modelled. `Encode` returns the bytes it would write.
- The box header is an opaque parameter of `boxHeaderSize` (8) bytes. `EncodeHeaderSW` and the header parsing are not part of this model.
- `bits.FixedSliceWriter` is not part of this model. `Writer.SliceWriter` states the behaviour the encoder relies on. A write that does not fit sets a sticky error and writes nothing; every later write is ignored.
- Ctts.DecodeCtts: where Go panics on a short body, the model returns `TruncatedData`. Go's preallocation with capacity `entryCount` has no counterpart.
- Ctts.GetCompositionTimeOffset: where Go panics on sample number 0, the model returns `InvalidArgument`.
