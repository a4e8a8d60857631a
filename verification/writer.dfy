/**
  The fixed-capacity slice writer that box encoders write into
  (`bits.NewFixedSliceWriter` of the MP4 library). The writer is outside the
  box code; it is modelled by the behaviour the encoders rely on: bytes are
  appended in order, a write that does not fit sets a sticky accumulated
  error and writes nothing, and every write after an error is ignored.
 */
module Writer {
  import opened Bytes

  /** What has been written so far, and whether the accumulated error is set. */
  datatype Sink = Sink(bytes: seq<uint8>, failed: bool)

  /** One write of `chunk` into a writer of the given capacity. */
  function Put(s: Sink, capacity: nat, chunk: seq<uint8>): (r: Sink)
    ensures |s.bytes| <= capacity ==> |r.bytes| <= capacity
    ensures s.failed ==> r == s
  {
    if s.failed then s
    else if |s.bytes| + |chunk| > capacity then s.(failed := true)
    else Sink(s.bytes + chunk, false)
  }

  /** The writes of `chunks`, one after the other. */
  function PutAll(s: Sink, capacity: nat, chunks: seq<seq<uint8>>): (r: Sink)
    decreases |chunks|
  {
    if chunks == [] then s
    else Put(PutAll(s, capacity, chunks[..|chunks| - 1]), capacity, chunks[|chunks| - 1])
  }

  /**
    A run of writes fails exactly when the writer had failed already or the
    bytes do not all fit; when it succeeds, everything was appended in order.
   */
  lemma {:induction false} PutAllOutcome(s: Sink, capacity: nat, chunks: seq<seq<uint8>>)
    requires |s.bytes| <= capacity
    ensures PutAll(s, capacity, chunks).failed <==> s.failed || |s.bytes| + |Flatten(chunks)| > capacity
    ensures !PutAll(s, capacity, chunks).failed ==> PutAll(s, capacity, chunks).bytes == s.bytes + Flatten(chunks)
    decreases |chunks|
  {
    if chunks != [] {
      var init := chunks[..|chunks| - 1];
      PutAllOutcome(s, capacity, init);
      var last := chunks[|chunks| - 1];
      assert Flatten(chunks) == Flatten(init) + last;
      var mid := PutAll(s, capacity, init);
      assert PutAll(s, capacity, chunks) == Put(mid, capacity, last);
      if !mid.failed {
        assert |mid.bytes| + |last| == |s.bytes| + |Flatten(chunks)|;
      }
    }
  }

  /** One more write after a run of writes. */
  lemma PutAllSnoc(s: Sink, capacity: nat, chunks: seq<seq<uint8>>, chunk: seq<uint8>)
    ensures PutAll(s, capacity, chunks + [chunk]) == Put(PutAll(s, capacity, chunks), capacity, chunk)
  {
    assert (chunks + [chunk])[..|chunks|] == chunks;
  }

  /** A run of writes is its first `k` writes followed by the rest. */
  lemma {:induction false} PutAllSplit(s: Sink, capacity: nat, chunks: seq<seq<uint8>>, k: nat)
    requires k <= |chunks|
    ensures PutAll(s, capacity, chunks) == PutAll(PutAll(s, capacity, chunks[..k]), capacity, chunks[k..])
    decreases |chunks|
  {
    if |chunks| > k {
      var init := chunks[..|chunks| - 1];
      PutAllSplit(s, capacity, init, k);
      assert init[..k] == chunks[..k];
      assert init[k..] == chunks[k..][..|chunks[k..]| - 1];
    } else {
      assert chunks[..k] == chunks;
    }
  }

  /** After an error every further write is ignored. */
  lemma {:induction false} PutAllAfterFailure(s: Sink, capacity: nat, chunks: seq<seq<uint8>>)
    requires s.failed
    ensures PutAll(s, capacity, chunks) == s
    decreases |chunks|
  {
    if chunks != [] {
      PutAllAfterFailure(s, capacity, chunks[..|chunks| - 1]);
    }
  }

  /** When the first write fails, the writes after it change nothing. */
  lemma PutAllAfterFirstFailure(s: Sink, capacity: nat, first: seq<uint8>, rest: seq<seq<uint8>>)
    requires Put(s, capacity, first).failed
    ensures PutAll(s, capacity, [first] + rest) == Put(s, capacity, first)
  {
    var chunks := [first] + rest;
    PutAllSplit(s, capacity, chunks, 1);
    assert chunks[..1] == [] + [first] && chunks[1..] == rest;
    PutAllSnoc(s, capacity, [], first);
    PutAllAfterFailure(Put(s, capacity, first), capacity, rest);
  }

  /** A writer over a buffer of `capacity` bytes (Go: `bits.FixedSliceWriter`). */
  class SliceWriter {
    const capacity: nat
    var written: seq<uint8>
    var failed: bool

    ghost predicate Valid()
      reads this
    {
      |written| <= capacity
    }

    function State(): Sink
      reads this
    {
      Sink(written, failed)
    }

    /** Go: `bits.NewFixedSliceWriter(size)`. */
    constructor NewFixed(size: nat)
      ensures Valid() && capacity == size
      ensures State() == Sink([], false)
    {
      capacity := size;
      written := [];
      failed := false;
    }

    /** Go: `sw.Bytes()`, the bytes written so far. */
    function Bytes(): seq<uint8>
      reads this
    {
      written
    }

    /** Go: `sw.AccError() != nil`. */
    function AccError(): bool
      reads this
    {
      failed
    }

    method WriteBytes(chunk: seq<uint8>)
      requires Valid()
      modifies this
      ensures Valid()
      ensures State() == Put(old(State()), capacity, chunk)
    {
      if !failed {
        if |written| + |chunk| > capacity {
          failed := true;
        } else {
          written := written + chunk;
        }
      }
    }

    /** Go: `sw.WriteUint32(x)`, big-endian. */
    method WriteUint32(x: uint32)
      requires Valid()
      modifies this
      ensures Valid()
      ensures State() == Put(old(State()), capacity, BE32(x))
    {
      WriteBytes(BE32(x));
    }

    /** Go: `sw.WriteInt32(x)`, the raw two's-complement bits, big-endian. */
    method WriteInt32(x: int32)
      requires Valid()
      modifies this
      ensures Valid()
      ensures State() == Put(old(State()), capacity, BE32(Int32Bits(x)))
    {
      WriteUint32(Int32Bits(x));
    }
  }
}
