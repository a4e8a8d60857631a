/**
  The Composition Time to Sample box (`ctts`) of the ISO Base Media File
  Format (ISO/IEC 14496-12, section 8.6.1.3): a run-length table that gives
  each sample, in decode order, the offset from its decode time to its
  composition (presentation) time.

  Body layout, big-endian, after the generic box header:
    bytes 0..4          version (top byte) and flags (low 24 bits)
    bytes 4..8          entry count
    bytes 8+8i..12+8i   sample count of run i
    bytes 12+8i..16+8i  sample offset of run i (two's-complement int32 bits)
 */
module Ctts {
  import opened Bytes
  import opened Writer

  /** Size of the generic box header that precedes the body (size and type fields). */
  const BoxHeaderSize: nat := 8

  datatype CttsError =
    | TruncatedData    // the body is shorter than its entry count implies
    | InvalidArgument  // a sample number of 0 was looked up
    | WriteFailure     // the slice writer ran out of room

  datatype Result<T> = Success(value: T) | Failure(error: CttsError)

  /** The box. Run `i` covers `sampleCount[i]` samples that share `sampleOffset[i]`. */
  datatype CttsBox = CttsBox(
    version: uint8,
    flags: uint32,
    sampleCount: seq<uint32>,
    sampleOffset: seq<int32>)

  /** The two columns of the table always have one entry per run. */
  predicate Valid(b: CttsBox)
  {
    |b.sampleCount| == |b.sampleOffset|
  }

  /** A box that the body layout can carry without loss: 24-bit flags and a 32-bit entry count. */
  predicate Encodable(b: CttsBox)
  {
    Valid(b) && b.flags < 0x100_0000 && |b.sampleCount| < 0x1_0000_0000
  }

  /** Go: `Type()`, the four-character box type. */
  function BoxType(): (r: string)
    ensures |r| == 4
  {
    "ctts"
  }

  // ---------------------------------------------------------------------------
  // Decoding

  /** The meaning of a body: the box it describes, or TruncatedData. */
  function DecodeBody(data: seq<uint8>): Result<CttsBox>
  {
    if |data| < 8 then Failure(TruncatedData)
    else
      var versionAndFlags := ReadBE32(data, 0);
      var entryCount := ReadBE32(data, 4);
      if |data| < 8 + 8 * entryCount then Failure(TruncatedData)
      else
        Success(CttsBox(
          versionAndFlags / 0x100_0000,
          versionAndFlags % 0x100_0000,
          seq(entryCount, i requires 0 <= i < entryCount => ReadBE32(data, 8 + 8 * i)),
          seq(entryCount, i requires 0 <= i < entryCount => ToInt32(ReadBE32(data, 12 + 8 * i)))))
  }

  /**
    Parses a box body (Go: `DecodeCtts`, after the body has been read). Where
    the Go code would slice past the end of a short body, this returns
    TruncatedData; no byte at or beyond `8 + 8 * entryCount` is read.
   */
  method DecodeCtts(data: seq<uint8>) returns (r: Result<CttsBox>)
    ensures r == DecodeBody(data)
    ensures r.Success? <==> 8 <= |data| && 8 + 8 * ReadBE32(data, 4) <= |data|
    ensures r.Success? ==>
      && Valid(r.value)
      && r.value.version == data[0]
      && r.value.flags == (data[1] as int) * 0x1_0000 + (data[2] as int) * 0x100 + data[3]
      && |r.value.sampleCount| == ReadBE32(data, 4)
      && (forall i :: 0 <= i < |r.value.sampleCount| ==>
            r.value.sampleCount[i] == ReadBE32(data, 8 + 8 * i))
      && (forall i :: 0 <= i < |r.value.sampleOffset| ==>
            r.value.sampleOffset[i] == ToInt32(ReadBE32(data, 12 + 8 * i)))
  {
    if |data| < 8 {
      return Failure(TruncatedData);
    }
    var versionAndFlags := ReadBE32(data, 0);
    var entryCount := ReadBE32(data, 4);
    if |data| < 8 + 8 * (entryCount as int) {
      return Failure(TruncatedData);
    }
    var sampleCount: seq<uint32> := [];
    var sampleOffset: seq<int32> := [];
    for i := 0 to entryCount
      invariant |sampleCount| == |sampleOffset| == i
      invariant forall k :: 0 <= k < i ==> sampleCount[k] == ReadBE32(data, 8 + 8 * k)
      invariant forall k :: 0 <= k < i ==> sampleOffset[k] == ToInt32(ReadBE32(data, 12 + 8 * k))
    {
      var sCount := ReadBE32(data, 8 + 8 * i);
      var sOffset := ReadBE32(data, 12 + 8 * i);
      sampleCount := sampleCount + [sCount];
      sampleOffset := sampleOffset + [ToInt32(sOffset)];
    }
    r := Success(CttsBox(versionAndFlags / 0x100_0000, versionAndFlags % 0x100_0000, sampleCount, sampleOffset));
    assert r.value.sampleCount == DecodeBody(data).value.sampleCount;
    assert r.value.sampleOffset == DecodeBody(data).value.sampleOffset;
  }

  /** Decoding depends only on the bytes below `8 + 8 * entryCount`; trailing bytes are ignored. */
  lemma DecodeReadsOnlyPrefix(data: seq<uint8>)
    requires DecodeBody(data).Success?
    ensures 8 + 8 * ReadBE32(data, 4) <= |data|
    ensures DecodeBody(data[..8 + 8 * ReadBE32(data, 4)]) == DecodeBody(data)
  {
    var n: nat := ReadBE32(data, 4);
    var prefix := data[..8 + 8 * n];
    assert ReadBE32(prefix, 0) == ReadBE32(data, 0);
    assert ReadBE32(prefix, 4) == n;
    var b, b' := DecodeBody(data).value, DecodeBody(prefix).value;
    assert b.sampleCount == b'.sampleCount by {
      forall i | 0 <= i < n ensures ReadBE32(prefix, 8 + 8 * i) == ReadBE32(data, 8 + 8 * i) { }
    }
    assert b.sampleOffset == b'.sampleOffset by {
      forall i | 0 <= i < n ensures ReadBE32(prefix, 12 + 8 * i) == ReadBE32(data, 12 + 8 * i) { }
    }
  }

  // ---------------------------------------------------------------------------
  // Encoding

  /**
    The version/flags word as the encoder builds it: `(version << 24) + flags`
    in 32-bit arithmetic, so flags above 24 bits spill into the version byte.
   */
  function VersionAndFlags(b: CttsBox): (r: uint32)
    ensures r % 0x100_0000 == b.flags % 0x100_0000
    ensures b.flags < 0x100_0000 ==> r == b.version * 0x100_0000 + b.flags
    ensures b.flags < 0x100_0000 ==> r / 0x100_0000 == b.version && r % 0x100_0000 == b.flags
  {
    var sum := b.version * 0x100_0000 + b.flags;
    assert sum % 0x100_0000 == b.flags % 0x100_0000 by {
      assert sum == (b.version + b.flags / 0x100_0000) * 0x100_0000 + b.flags % 0x100_0000;
    }
    assert sum % 0x1_0000_0000 == sum - sum / 0x1_0000_0000 * 0x1_0000_0000;
    assert (sum / 0x1_0000_0000 * 0x1_0000_0000) % 0x100_0000 == 0 by {
      assert sum / 0x1_0000_0000 * 0x1_0000_0000 == (sum / 0x1_0000_0000 * 0x100) * 0x100_0000;
    }
    sum % 0x1_0000_0000
  }

  /** The words of the first `k` runs: sample count, then offset bits, run after run. */
  function EntryWords(b: CttsBox, k: nat): (r: seq<seq<uint8>>)
    requires Valid(b) && k <= |b.sampleCount|
    ensures |r| == 2 * k
  {
    if k == 0 then []
    else EntryWords(b, k - 1) + [BE32(b.sampleCount[k - 1]), BE32(Int32Bits(b.sampleOffset[k - 1]))]
  }

  /** The words of the body, in the order the encoder writes them. */
  function BodyWords(b: CttsBox): (r: seq<seq<uint8>>)
    requires Valid(b)
  {
    [BE32(VersionAndFlags(b)), BE32(|b.sampleCount| % 0x1_0000_0000)] + EntryWords(b, |b.sampleCount|)
  }

  /** The encoded body. */
  function EncodeBody(b: CttsBox): seq<uint8>
    requires Valid(b)
  {
    Flatten(BodyWords(b))
  }

  /** The body is two words plus two words per run. */
  lemma BodyLength(b: CttsBox)
    ensures Valid(b) ==> |EncodeBody(b)| == 8 + 8 * |b.sampleCount|
  {
    if Valid(b) {
      BodyWordsAreWords(b);
      FlattenWords(BodyWords(b));
      BodyWordsHead(b);
    }
  }

  /** Go: `Size()`, the byte count of header and body. */
  function Size(b: CttsBox): (r: nat)
    ensures Valid(b) ==> r == BoxHeaderSize + |EncodeBody(b)|
  {
    BodyLength(b);
    BoxHeaderSize + 8 + 8 * |b.sampleCount|
  }

  /**
    `data` is the body layout of `b`: the version/flags word, the entry count
    and, for every run, its sample count and the bits of its sample offset.
   */
  predicate LaidOut(data: seq<uint8>, b: CttsBox)
    requires Valid(b)
  {
    && |data| == 8 + 8 * |b.sampleCount|
    && data[0..4] == BE32(VersionAndFlags(b))
    && data[4..8] == BE32(|b.sampleCount| % 0x1_0000_0000)
    && forall i :: 0 <= i < |b.sampleCount| ==>
         data[8 + 8 * i..12 + 8 * i] == BE32(b.sampleCount[i]) &&
         data[12 + 8 * i..16 + 8 * i] == BE32(Int32Bits(b.sampleOffset[i]))
  }

  /** The encoded body has the body layout, and the box size counts header and body. */
  lemma EncodeLayout(b: CttsBox)
    requires Valid(b)
    ensures LaidOut(EncodeBody(b), b)
    ensures |EncodeBody(b)| == Size(b) - BoxHeaderSize
  {
    var words := BodyWords(b);
    var data := EncodeBody(b);
    BodyWordsAreWords(b);
    FlattenWords(words);
    BodyWordsHead(b);
    assert data[4 * 0..4 * 0 + 4] == words[0];
    assert data[4 * 1..4 * 1 + 4] == words[1];
    forall i | 0 <= i < |b.sampleCount|
      ensures data[8 + 8 * i..12 + 8 * i] == BE32(b.sampleCount[i])
      ensures data[12 + 8 * i..16 + 8 * i] == BE32(Int32Bits(b.sampleOffset[i]))
    {
      EncodedEntry(b, i);
    }
  }

  /** Run `i` is encoded at bytes `[8 + 8i, 16 + 8i)` of the body. */
  lemma EncodedEntry(b: CttsBox, i: nat)
    requires Valid(b) && i < |b.sampleCount|
    ensures 16 + 8 * i <= |EncodeBody(b)|
    ensures EncodeBody(b)[8 + 8 * i..12 + 8 * i] == BE32(b.sampleCount[i])
    ensures EncodeBody(b)[12 + 8 * i..16 + 8 * i] == BE32(Int32Bits(b.sampleOffset[i]))
  {
    BodyWordsAreWords(b);
    FlattenWords(BodyWords(b));
    BodyWordsAt(b, i);
    assert 4 * (2 + 2 * i) == 8 + 8 * i && 4 * (3 + 2 * i) == 12 + 8 * i;
  }

  /**
    Go: `EncodeSW`. Writes the header (given here as the bytes the external
    header writer produces), then the body, stopping at the first error.
   */
  method EncodeSW(b: CttsBox, sw: SliceWriter, header: seq<uint8>) returns (failed: bool)
    requires Valid(b) && |header| == BoxHeaderSize && sw.Valid()
    modifies sw
    ensures sw.Valid()
    ensures sw.State() == PutAll(old(sw.State()), sw.capacity, [header] + BodyWords(b))
    ensures failed == sw.failed
  {
    ghost var s0 := sw.State();
    ghost var done: seq<seq<uint8>> := [header];
    PutAllSnoc(s0, sw.capacity, [], header);
    sw.WriteBytes(header);
    if sw.AccError() {
      PutAllAfterFirstFailure(s0, sw.capacity, header, BodyWords(b));
      return true;
    }
    var versionAndFlags := VersionAndFlags(b);
    PutAllSnoc(s0, sw.capacity, done, BE32(versionAndFlags));
    sw.WriteUint32(versionAndFlags);
    done := done + [BE32(versionAndFlags)];
    var entryCount := |b.sampleCount| % 0x1_0000_0000;
    PutAllSnoc(s0, sw.capacity, done, BE32(entryCount));
    sw.WriteUint32(entryCount);
    done := done + [BE32(entryCount)];
    assert done + EntryWords(b, 0) == done;
    for i := 0 to |b.sampleCount|
      invariant sw.Valid()
      invariant sw.State() == PutAll(s0, sw.capacity, done + EntryWords(b, i))
    {
      var before := done + EntryWords(b, i);
      var count, offset := BE32(b.sampleCount[i]), BE32(Int32Bits(b.sampleOffset[i]));
      PutAllSnoc(s0, sw.capacity, before, count);
      PutAllSnoc(s0, sw.capacity, before + [count], offset);
      EntryWordsStep(b, done, i);
      sw.WriteUint32(b.sampleCount[i]);
      sw.WriteInt32(b.sampleOffset[i]);
    }
    AllWordsWritten(b, header);
    failed := sw.AccError();
  }

  /** The words already written, followed by the two words of run `i`. */
  lemma EntryWordsStep(b: CttsBox, done: seq<seq<uint8>>, i: nat)
    requires Valid(b) && i < |b.sampleCount|
    ensures done + EntryWords(b, i + 1)
         == done + EntryWords(b, i) + [BE32(b.sampleCount[i])] + [BE32(Int32Bits(b.sampleOffset[i]))]
  {
  }

  /** The header, the two head words and every run's words make up all the writes. */
  lemma AllWordsWritten(b: CttsBox, header: seq<uint8>)
    requires Valid(b)
    ensures [header] + [BE32(VersionAndFlags(b))] + [BE32(|b.sampleCount| % 0x1_0000_0000)]
            + EntryWords(b, |b.sampleCount|) == [header] + BodyWords(b)
  {
  }

  /** The version/flags word and the entry count word come first. */
  lemma BodyWordsHead(b: CttsBox)
    requires Valid(b)
    ensures |BodyWords(b)| == 2 + 2 * |b.sampleCount|
    ensures BodyWords(b)[0] == BE32(VersionAndFlags(b))
    ensures BodyWords(b)[1] == BE32(|b.sampleCount| % 0x1_0000_0000)
  {
  }

  /** The two words of run `i` sit at positions `2i` and `2i + 1` of the entry words. */
  lemma {:induction false} EntryWordsAt(b: CttsBox, k: nat, i: nat)
    requires Valid(b) && i < k <= |b.sampleCount|
    ensures EntryWords(b, k)[2 * i] == BE32(b.sampleCount[i])
    ensures EntryWords(b, k)[2 * i + 1] == BE32(Int32Bits(b.sampleOffset[i]))
    decreases k
  {
    if i < k - 1 {
      EntryWordsAt(b, k - 1, i);
    }
  }

  /** The words written for run `i`. */
  lemma BodyWordsAt(b: CttsBox, i: nat)
    requires Valid(b) && i < |b.sampleCount|
    ensures |BodyWords(b)| == 2 + 2 * |b.sampleCount|
    ensures BodyWords(b)[2 + 2 * i] == BE32(b.sampleCount[i])
    ensures BodyWords(b)[3 + 2 * i] == BE32(Int32Bits(b.sampleOffset[i]))
  {
    EntryWordsAt(b, |b.sampleCount|, i);
  }

  /** Every word of the body is four bytes long. */
  lemma BodyWordsAreWords(b: CttsBox)
    requires Valid(b)
    ensures AllWords(BodyWords(b))
  {
    var words := BodyWords(b);
    BodyWordsHead(b);
    forall j | 2 <= j < |words|
      ensures |words[j]| == 4
    {
      var h := Halve(j);
      BodyWordsAt(b, h - 1);
    }
  }

  /** `j` split into its half and its parity, without division. */
  lemma {:induction false} Halve(j: nat) returns (h: nat)
    ensures j == 2 * h || j == 2 * h + 1
  {
    if j < 2 {
      h := 0;
    } else {
      h := Halve(j - 2);
      h := h + 1;
    }
  }

  /**
    Writing a box into a writer succeeds exactly when the writer has not
    failed before and has `Size(b)` bytes of room left; the bytes appended are
    then the header followed by the body.
   */
  lemma EncodeOutcome(b: CttsBox, header: seq<uint8>, s: Sink, capacity: nat)
    requires Valid(b) && |header| == BoxHeaderSize && |s.bytes| <= capacity
    ensures PutAll(s, capacity, [header] + BodyWords(b)).failed <==> s.failed || |s.bytes| + Size(b) > capacity
    ensures !PutAll(s, capacity, [header] + BodyWords(b)).failed ==>
      PutAll(s, capacity, [header] + BodyWords(b)).bytes == s.bytes + header + EncodeBody(b)
  {
    FlattenCons(header, BodyWords(b));
    EncodeLayout(b);
    PutAllOutcome(s, capacity, [header] + BodyWords(b));
  }

  /**
    Go: `Encode` without the final write to the `io.Writer`: a writer of
    exactly `Size(b)` bytes receives the header and the body, and never fails.
   */
  method Encode(b: CttsBox, header: seq<uint8>) returns (r: Result<seq<uint8>>)
    requires Valid(b) && |header| == BoxHeaderSize
    ensures r == Success(header + EncodeBody(b))
    ensures |r.value| == Size(b)
  {
    var sw := new SliceWriter.NewFixed(Size(b));
    var failed := EncodeSW(b, sw, header);
    EncodeOutcome(b, header, Sink([], false), Size(b));
    assert sw.State() == PutAll(Sink([], false), Size(b), [header] + BodyWords(b));
    assert !failed;
    assert sw.Bytes() == header + EncodeBody(b);
    EncodeLayout(b);
    r := if failed then Failure(WriteFailure) else Success(sw.Bytes());
  }

  // ---------------------------------------------------------------------------
  // Round trips

  /** The words a decoder reads from a body laid out for `b`. */
  lemma LaidOutReads(data: seq<uint8>, b: CttsBox)
    requires Valid(b) && LaidOut(data, b)
    ensures ReadBE32(data, 0) == VersionAndFlags(b)
    ensures ReadBE32(data, 4) == |b.sampleCount| % 0x1_0000_0000
    ensures forall i :: 0 <= i < |b.sampleCount| ==>
      ReadBE32(data, 8 + 8 * i) == b.sampleCount[i] &&
      ReadBE32(data, 12 + 8 * i) == Int32Bits(b.sampleOffset[i])
  {
    ReadBE32OfBE32(data, 0, VersionAndFlags(b));
    ReadBE32OfBE32(data, 4, |b.sampleCount| % 0x1_0000_0000);
    forall i | 0 <= i < |b.sampleCount|
      ensures ReadBE32(data, 8 + 8 * i) == b.sampleCount[i]
      ensures ReadBE32(data, 12 + 8 * i) == Int32Bits(b.sampleOffset[i])
    {
      ReadBE32OfBE32(data, 8 + 8 * i, b.sampleCount[i]);
      ReadBE32OfBE32(data, 12 + 8 * i, Int32Bits(b.sampleOffset[i]));
    }
  }

  /** A body laid out as the encoder lays out `b` decodes to `b`. */
  lemma DecodeOfLayout(data: seq<uint8>, b: CttsBox)
    requires Encodable(b) && LaidOut(data, b)
    ensures DecodeBody(data) == Success(b)
  {
    LaidOutReads(data, b);
    DecodeOfReads(data, b);
  }

  /** A body whose words read as `b`'s fields decodes to `b`. */
  lemma DecodeOfReads(data: seq<uint8>, b: CttsBox)
    requires Encodable(b) && |data| == 8 + 8 * |b.sampleCount|
    requires ReadBE32(data, 0) == VersionAndFlags(b)
    requires ReadBE32(data, 4) == |b.sampleCount| % 0x1_0000_0000
    requires forall i :: 0 <= i < |b.sampleCount| ==>
      ReadBE32(data, 8 + 8 * i) == b.sampleCount[i] &&
      ReadBE32(data, 12 + 8 * i) == Int32Bits(b.sampleOffset[i])
    ensures DecodeBody(data) == Success(b)
  {
    var n := |b.sampleCount|;
    assert n % 0x1_0000_0000 == n;
    var d := DecodeBody(data).value;
    forall i | 0 <= i < n
      ensures d.sampleOffset[i] == b.sampleOffset[i]
    {
      Int32BitsRoundTrip(0, b.sampleOffset[i]);
    }
    assert d.sampleCount == b.sampleCount && d.sampleOffset == b.sampleOffset;
  }

  /** Decoding an encoded body gives back the box, whenever its flags fit in 24 bits. */
  lemma DecodeEncodeRoundTrip(b: CttsBox)
    requires Encodable(b)
    ensures DecodeBody(EncodeBody(b)) == Success(b)
  {
    EncodeLayout(b);
    DecodeOfLayout(EncodeBody(b), b);
  }

  /** A box whose version and flags were split from a word builds that word back. */
  lemma VersionAndFlagsOfWord(b: CttsBox, word: uint32)
    requires b.version == word / 0x100_0000 && b.flags == word % 0x100_0000
    ensures VersionAndFlags(b) == word
  {
    assert word == word / 0x100_0000 * 0x100_0000 + word % 0x100_0000;
  }

  /** The first two words of a body whose header fields `b` carries are `b`'s first two words. */
  lemma HeadWordsOf(data: seq<uint8>, b: CttsBox)
    requires Valid(b) && 8 <= |data|
    requires b.version == ReadBE32(data, 0) / 0x100_0000 && b.flags == ReadBE32(data, 0) % 0x100_0000
    requires |b.sampleCount| == ReadBE32(data, 4)
    ensures data[0..4] == BodyWords(b)[0]
    ensures data[4..8] == BodyWords(b)[1]
  {
    BodyWordsHead(b);
    VersionWordOf(data, b);
    CountWordOf(data, |b.sampleCount|);
  }

  /** The first word of a body whose version and flags `b` carries is `b`'s version/flags word. */
  lemma VersionWordOf(data: seq<uint8>, b: CttsBox)
    requires 4 <= |data|
    requires b.version == ReadBE32(data, 0) / 0x100_0000 && b.flags == ReadBE32(data, 0) % 0x100_0000
    ensures data[0..4] == BE32(VersionAndFlags(b))
  {
    VersionAndFlagsOfWord(b, ReadBE32(data, 0));
    BE32OfReadBE32(data, 0);
  }

  /** The second word of a body holding `n` runs is the entry count word for `n` runs. */
  lemma CountWordOf(data: seq<uint8>, n: nat)
    requires 8 <= |data| && n == ReadBE32(data, 4)
    ensures data[4..8] == BE32(n % 0x1_0000_0000)
  {
    BE32OfReadBE32(data, 4);
    assert n % 0x1_0000_0000 == n;
  }

  /** The two words of a run whose fields `b` carries are `b`'s words for that run. */
  lemma EntryWordsOf(data: seq<uint8>, b: CttsBox, i: nat)
    requires Valid(b) && i < |b.sampleCount| && 16 + 8 * i <= |data|
    requires b.sampleCount[i] == ReadBE32(data, 8 + 8 * i)
    requires b.sampleOffset[i] == ToInt32(ReadBE32(data, 12 + 8 * i))
    ensures data[8 + 8 * i..12 + 8 * i] == BodyWords(b)[2 + 2 * i]
    ensures data[12 + 8 * i..16 + 8 * i] == BodyWords(b)[3 + 2 * i]
  {
    BodyWordsAt(b, i);
    BE32OfReadBE32(data, 8 + 8 * i);
    BE32OfReadBE32(data, 12 + 8 * i);
    Int32BitsRoundTrip(ReadBE32(data, 12 + 8 * i), 0);
  }

  /** The first two words of a decodable body are the ones the encoder writes back. */
  lemma DecodedHeadWords(data: seq<uint8>)
    requires DecodeBody(data).Success?
    ensures data[0..4] == BodyWords(DecodeBody(data).value)[0]
    ensures data[4..8] == BodyWords(DecodeBody(data).value)[1]
  {
    HeadWordsOf(data, DecodeBody(data).value);
  }

  /** The words of run `i` of a decodable body are the ones the encoder writes back. */
  lemma DecodedEntryWords(data: seq<uint8>, i: nat)
    requires DecodeBody(data).Success? && i < ReadBE32(data, 4)
    ensures 16 + 8 * i <= |data|
    ensures data[8 + 8 * i..12 + 8 * i] == BodyWords(DecodeBody(data).value)[2 + 2 * i]
    ensures data[12 + 8 * i..16 + 8 * i] == BodyWords(DecodeBody(data).value)[3 + 2 * i]
  {
    EntryWordsOf(data, DecodeBody(data).value, i);
  }

  /** Word `j` of a decodable body is the word the encoder writes back for it. */
  lemma DecodedWord(data: seq<uint8>, j: nat)
    requires DecodeBody(data).Success?
    requires j < 2 + 2 * ReadBE32(data, 4)
    ensures 4 * j + 4 <= |data|
    ensures data[4 * j..4 * j + 4] == BodyWords(DecodeBody(data).value)[j]
  {
    if j < 2 {
      DecodedHeadWords(data);
    } else {
      var h := Halve(j);
      DecodedEntryWords(data, h - 1);
      if j == 2 * h {
        assert 4 * j == 8 + 8 * (h - 1) && j == 2 + 2 * (h - 1);
      } else {
        assert 4 * j == 12 + 8 * (h - 1) && j == 3 + 2 * (h - 1);
      }
    }
  }

  /** Encoding a decoded box gives back the bytes it was decoded from (trailing bytes aside). */
  lemma EncodeDecodeRoundTrip(data: seq<uint8>)
    requires DecodeBody(data).Success?
    ensures Encodable(DecodeBody(data).value)
    ensures EncodeBody(DecodeBody(data).value) == data[..8 + 8 * ReadBE32(data, 4)]
  {
    var b := DecodeBody(data).value;
    var n: nat := ReadBE32(data, 4);
    var words := BodyWords(b);
    var prefix := data[..8 + 8 * n];
    forall j | 0 <= j < |words|
      ensures prefix[4 * j..4 * j + 4] == words[j]
    {
      DecodedWord(data, j);
      assert prefix[4 * j..4 * j + 4] == data[4 * j..4 * j + 4];
    }
    BodyWordsAreWords(b);
    FlattenWordsUnique(words, prefix);
  }

  /**
    The version/flags word is built with `+`, not a mask: flags that do not
    fit in 24 bits leak into the version byte and do not survive a round trip.
   */
  lemma WideFlagsDoNotRoundTrip(b: CttsBox)
    requires Valid(b) && b.flags >= 0x100_0000
    ensures DecodeBody(EncodeBody(b)) != Success(b)
  {
    EncodeLayout(b);
    var data := EncodeBody(b);
    ReadBE32OfBE32(data, 0, VersionAndFlags(b));
  }

  // ---------------------------------------------------------------------------
  // Composition time offset lookup

  /** Number of samples covered by the first `k` runs. */
  function PrefixSum(counts: seq<uint32>, k: nat): nat
    requires k <= |counts|
  {
    if k == 0 then 0 else PrefixSum(counts, k - 1) + counts[k - 1]
  }

  /** Number of samples covered by the whole table. */
  function TotalSamples(counts: seq<uint32>): nat
  {
    PrefixSum(counts, |counts|)
  }

  lemma {:induction false} PrefixSumMonotone(counts: seq<uint32>, i: nat, j: nat)
    requires i <= j <= |counts|
    ensures PrefixSum(counts, i) <= PrefixSum(counts, j)
    decreases j
  {
    if i < j {
      PrefixSumMonotone(counts, i, j - 1);
    }
  }

  /**
    The run that holds zero-based sample `s` is unique: at most one run `i`
    has `PrefixSum(i) <= s < PrefixSum(i + 1)`, so it is the first such run,
    and it is never an empty run.
   */
  lemma RunIsUnique(counts: seq<uint32>, i: nat, j: nat, s: nat)
    requires i < |counts| && j < |counts|
    requires PrefixSum(counts, i) <= s < PrefixSum(counts, i + 1)
    requires PrefixSum(counts, j) <= s < PrefixSum(counts, j + 1)
    ensures i == j && counts[i] > 0
  {
    if i < j {
      PrefixSumMonotone(counts, i + 1, j);
    } else if j < i {
      PrefixSumMonotone(counts, j + 1, i);
    }
  }

  /**
    The reference meaning of the table: the offset of every sample, one per
    sample, for the samples covered by the first `k` runs.
   */
  function Expand(counts: seq<uint32>, offsets: seq<int32>, k: nat): (r: seq<int32>)
    requires |counts| == |offsets| && k <= |counts|
    ensures |r| == PrefixSum(counts, k)
  {
    if k == 0 then []
    else Expand(counts, offsets, k - 1) + seq(counts[k - 1], _ => offsets[k - 1])
  }

  /** A sample in run `i` has that run's offset in the expanded table. */
  lemma {:induction false} ExpandAt(counts: seq<uint32>, offsets: seq<int32>, k: nat, i: nat, s: nat)
    requires |counts| == |offsets| && i < k <= |counts|
    requires PrefixSum(counts, i) <= s < PrefixSum(counts, i + 1)
    ensures s < |Expand(counts, offsets, k)| && Expand(counts, offsets, k)[s] == offsets[i]
    decreases k
  {
    PrefixSumMonotone(counts, i + 1, k);
    if i < k - 1 {
      PrefixSumMonotone(counts, i + 1, k - 1);
      ExpandAt(counts, offsets, k - 1, i, s);
    }
  }

  /** The offset of zero-based sample `s` by the reference meaning, 0 past the end. */
  function SampleOffsetOf(b: CttsBox, s: nat): int32
    requires Valid(b)
  {
    var all := Expand(b.sampleCount, b.sampleOffset, |b.sampleCount|);
    if s < |all| then all[s] else 0
  }

  /**
    Go: `GetCompositionTimeOffset`, for a one-based sample number. The Go code
    panics on 0; here that is an InvalidArgument error.
   */
  method GetCompositionTimeOffset(b: CttsBox, sampleNr: uint32) returns (r: Result<int32>)
    requires Valid(b)
    ensures sampleNr == 0 ==> r == Failure(InvalidArgument)
    ensures 1 <= sampleNr <= TotalSamples(b.sampleCount) ==>
      exists i :: 0 <= i < |b.sampleCount| &&
        PrefixSum(b.sampleCount, i) < sampleNr <= PrefixSum(b.sampleCount, i + 1) &&
        r == Success(b.sampleOffset[i])
    ensures sampleNr > TotalSamples(b.sampleCount) ==> r == Success(0)
    ensures sampleNr >= 1 ==> r == Success(SampleOffsetOf(b, sampleNr - 1))
  {
    if sampleNr == 0 {
      return Failure(InvalidArgument);
    }
    var remaining: uint32 := sampleNr - 1;
    for i := 0 to |b.sampleCount|
      invariant remaining == sampleNr - 1 - PrefixSum(b.sampleCount, i)
    {
      if remaining >= b.sampleCount[i] {
        remaining := remaining - b.sampleCount[i];
      } else {
        ExpandAt(b.sampleCount, b.sampleOffset, |b.sampleCount|, i, sampleNr - 1);
        return Success(b.sampleOffset[i]);
      }
    }
    return Success(0);
  }

  /** The examples of the run-length lookup: runs (3, 100) and (2, -50). */
  method ExampleLookup()
  {
    var b := CttsBox(0, 0, [3, 2], [100, -50]);
    assert PrefixSum(b.sampleCount, 1) == 3 && PrefixSum(b.sampleCount, 2) == 5;
    var r := GetCompositionTimeOffset(b, 0);
    assert r == Failure(InvalidArgument);
    r := GetCompositionTimeOffset(b, 1);
    assert r == Success(100);
    r := GetCompositionTimeOffset(b, 3);
    assert r == Success(100);
    r := GetCompositionTimeOffset(b, 4);
    assert r == Success(-50);
    r := GetCompositionTimeOffset(b, 5);
    assert r == Success(-50);
    r := GetCompositionTimeOffset(b, 6);
    assert r == Success(0);
  }
}
