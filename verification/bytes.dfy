/**
  Fixed-width integers and their big-endian byte layout, as used by the
  box encoders and decoders of the MP4 library (Go's `encoding/binary`
  BigEndian helpers and the `int32(u)` / `uint32(i)` conversions).
 */
module Bytes {

  type uint8 = x: int | 0 <= x < 0x100
  type uint32 = x: int | 0 <= x < 0x1_0000_0000
  type int32 = x: int | -0x8000_0000 <= x < 0x8000_0000

  /** The four big-endian bytes of `x` (Go: `binary.BigEndian.PutUint32`). */
  function BE32(x: uint32): (r: seq<uint8>)
    ensures |r| == 4
    ensures (r[0] as int) * 0x100_0000 + (r[1] as int) * 0x1_0000 + (r[2] as int) * 0x100 + r[3] == x
  {
    assert x == x / 0x100 * 0x100 + x % 0x100;
    assert x / 0x100 == x / 0x1_0000 * 0x100 + x / 0x100 % 0x100;
    assert x / 0x1_0000 == x / 0x100_0000 * 0x100 + x / 0x1_0000 % 0x100;
    [x / 0x100_0000, x / 0x1_0000 % 0x100, x / 0x100 % 0x100, x % 0x100]
  }

  /** The big-endian word at `s[pos..pos + 4]` (Go: `binary.BigEndian.Uint32`). */
  function ReadBE32(s: seq<uint8>, pos: nat): (r: uint32)
    requires pos + 4 <= |s|
    ensures r / 0x100_0000 == s[pos]
    ensures r % 0x100_0000 == (s[pos + 1] as int) * 0x1_0000 + (s[pos + 2] as int) * 0x100 + s[pos + 3]
  {
    var lo := (s[pos + 1] as int) * 0x1_0000 + (s[pos + 2] as int) * 0x100 + s[pos + 3];
    assert 0 <= lo < 0x100_0000;
    (s[pos] as int) * 0x100_0000 + lo
  }

  /** Reading back the bytes of a written word gives the word. */
  lemma ReadBE32OfBE32(s: seq<uint8>, pos: nat, x: uint32)
    requires pos + 4 <= |s| && s[pos..pos + 4] == BE32(x)
    ensures ReadBE32(s, pos) == x
  {
    assert s[pos..pos + 4][0] == s[pos] && s[pos..pos + 4][3] == s[pos + 3];
  }

  /** Writing a word that was read gives back the bytes it was read from. */
  lemma BE32OfReadBE32(s: seq<uint8>, pos: nat)
    requires pos + 4 <= |s|
    ensures BE32(ReadBE32(s, pos)) == s[pos..pos + 4]
  {
    var x := ReadBE32(s, pos);
    var lo := (s[pos + 1] as int) * 0x1_0000 + (s[pos + 2] as int) * 0x100 + s[pos + 3];
    assert x / 0x100_0000 == s[pos] && x % 0x100_0000 == lo by {
      assert x == (s[pos] as int) * 0x100_0000 + lo && 0 <= lo < 0x100_0000;
    }
    var mid := (s[pos + 2] as int) * 0x100 + s[pos + 3];
    assert x / 0x1_0000 == (s[pos] as int) * 0x100 + s[pos + 1] by {
      assert x == ((s[pos] as int) * 0x100 + s[pos + 1]) * 0x1_0000 + mid && 0 <= mid < 0x1_0000;
    }
    assert x / 0x100 == ((s[pos] as int) * 0x100 + s[pos + 1]) * 0x100 + s[pos + 2] by {
      assert x == (((s[pos] as int) * 0x100 + s[pos + 1]) * 0x100 + s[pos + 2]) * 0x100 + s[pos + 3];
    }
  }

  /** Go's `int32(u)`: the same 32 bits read as two's complement. */
  function ToInt32(u: uint32): (r: int32)
    ensures (r - u) % 0x1_0000_0000 == 0
    ensures r < 0 <==> u >= 0x8000_0000
  {
    if u < 0x8000_0000 then u else u - 0x1_0000_0000
  }

  /** Go's `uint32(i)`: the raw 32 bits of a two's-complement value. */
  function Int32Bits(i: int32): (r: uint32)
    ensures (r - i) % 0x1_0000_0000 == 0
    ensures r >= 0x8000_0000 <==> i < 0
  {
    if i < 0 then i + 0x1_0000_0000 else i
  }

  /** The two conversions are inverse bijections. */
  lemma Int32BitsRoundTrip(u: uint32, i: int32)
    ensures ToInt32(Int32Bits(i)) == i
    ensures Int32Bits(ToInt32(u)) == u
  {
  }

  /** The concatenation of a sequence of byte chunks, in order. */
  function Flatten(chunks: seq<seq<uint8>>): seq<uint8>
    decreases |chunks|
  {
    if chunks == [] then [] else Flatten(chunks[..|chunks| - 1]) + chunks[|chunks| - 1]
  }

  lemma {:induction false} FlattenCons(c: seq<uint8>, chunks: seq<seq<uint8>>)
    ensures Flatten([c] + chunks) == c + Flatten(chunks)
    decreases |chunks|
  {
    if chunks != [] {
      var all := [c] + chunks;
      assert all[..|all| - 1] == [c] + chunks[..|chunks| - 1];
      FlattenCons(c, chunks[..|chunks| - 1]);
    }
  }

  predicate AllWords(chunks: seq<seq<uint8>>)
  {
    forall j :: 0 <= j < |chunks| ==> |chunks[j]| == 4
  }

  /** Word `j` of a flattened sequence of 4-byte words sits at bytes `[4j, 4j + 4)`. */
  lemma {:induction false} FlattenWords(chunks: seq<seq<uint8>>)
    requires AllWords(chunks)
    ensures |Flatten(chunks)| == 4 * |chunks|
    ensures forall j :: 0 <= j < |chunks| ==> Flatten(chunks)[4 * j..4 * j + 4] == chunks[j]
    decreases |chunks|
  {
    if chunks != [] {
      var n := |chunks|;
      var init := chunks[..n - 1];
      FlattenWords(init);
      var f := Flatten(chunks);
      assert f == Flatten(init) + chunks[n - 1];
      forall j | 0 <= j < n
        ensures f[4 * j..4 * j + 4] == chunks[j]
      {
        if j < n - 1 {
          assert f[4 * j..4 * j + 4] == Flatten(init)[4 * j..4 * j + 4];
        }
      }
    }
  }

  /** Conversely, a byte sequence cut into 4-byte words is the flattening of those words. */
  lemma {:induction false} FlattenWordsUnique(chunks: seq<seq<uint8>>, s: seq<uint8>)
    requires AllWords(chunks) && |s| == 4 * |chunks|
    requires forall j :: 0 <= j < |chunks| ==> s[4 * j..4 * j + 4] == chunks[j]
    ensures Flatten(chunks) == s
    decreases |chunks|
  {
    if chunks != [] {
      var n := |chunks|;
      var init := chunks[..n - 1];
      var prefix := s[..4 * (n - 1)];
      forall j | 0 <= j < n - 1
        ensures prefix[4 * j..4 * j + 4] == init[j]
      {
        assert prefix[4 * j..4 * j + 4] == s[4 * j..4 * j + 4];
      }
      FlattenWordsUnique(init, prefix);
      assert s == prefix + s[4 * (n - 1)..4 * n];
    }
  }
}
