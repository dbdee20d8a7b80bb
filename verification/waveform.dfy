/** The arbitrary-waveform payload: 2048 twelve-bit codes, each sent as two bytes,
    low byte first, and cut into the 8-byte chunks the instrument acknowledges. */
module Waveform {
  import opened Transport

  const SampleCount: nat := 2048
  const MaxCode: int := 4095
  /** Mid-scale code used for every sample the caller did not supply. */
  const MidCode: int := 2048
  const PayloadSize: nat := 4096
  const ChunkSize: nat := 8

  /** `max(0, min(4095, v))`. */
  function Clamp(v: int): (c: int)
    ensures 0 <= c <= MaxCode
    ensures 0 <= v <= MaxCode ==> c == v
    ensures v < 0 ==> c == 0
    ensures v > MaxCode ==> c == MaxCode
  {
    if v < 0 then 0 else if v > MaxCode then MaxCode else v
  }

  function ClampAll(vs: seq<int>): (cs: seq<int>)
    ensures |cs| == |vs|
    ensures forall i :: 0 <= i < |vs| ==> cs[i] == Clamp(vs[i])
  {
    if vs == [] then [] else [Clamp(vs[0])] + ClampAll(vs[1..])
  }

  /** The packing loop of the integer-sample path: samples are consumed until 2048 have
      been taken, each clamped to 0..4095, and a short input is padded with mid-scale. */
  function Pack(samples: seq<int>): (codes: seq<int>)
    ensures |codes| == SampleCount
  {
    var taken := ClampAll(if |samples| <= SampleCount then samples else samples[..SampleCount]);
    taken + seq(SampleCount - |taken|, _ => MidCode)
  }

  /** `v & 0xFF`. Python's `&` on a negative int acts on its two's complement, which
      agrees with the non-negative remainder. */
  function LowByte(v: int): byte {
    v % 256
  }

  /** `(v >> 8) & 0xFF`; `>>` floors, as Euclidean division by 256 does. */
  function HighByte(v: int): byte {
    (v / 256) % 256
  }

  /** The payload: every code as its low byte followed by its high byte. */
  function Serialize(codes: seq<int>): (data: seq<byte>)
    ensures |data| == 2 * |codes|
  {
    if codes == [] then [] else [LowByte(codes[0]), HighByte(codes[0])] + Serialize(codes[1..])
  }

  /** The payload `upload_arbitrary` sends for `samples`. */
  function Payload(samples: seq<int>): (data: seq<byte>)
    ensures |data| == PayloadSize
  {
    Serialize(Pack(samples))
  }

  /** Reads a payload back as little-endian 16-bit values. */
  function Deserialize(data: seq<byte>): (codes: seq<int>)
    requires |data| % 2 == 0
    decreases |data|
  {
    if data == [] then [] else [data[0] + 256 * data[1]] + Deserialize(data[2..])
  }

  /** The 8-byte slices of `data`, in order; the last one is shorter when the length
      is not a multiple of 8. */
  function Chunks(data: seq<byte>): (cs: seq<seq<byte>>)
    ensures forall k :: 0 <= k < |cs| ==> 0 < |cs[k]| <= ChunkSize
    decreases |data|
  {
    if data == [] then []
    else
      var n := if |data| < ChunkSize then |data| else ChunkSize;
      [data[..n]] + Chunks(data[n..])
  }

  // ---------------------------------------------------------------------------
  // Lemmas

  /** Every packed code is in range: the caller's sample clamped to 0..4095 where one
      was supplied, mid-scale 2048 beyond the end of a short input; samples past the
      2048th are ignored. */
  lemma PackContents(samples: seq<int>)
    ensures forall i :: 0 <= i < SampleCount ==> 0 <= Pack(samples)[i] <= MaxCode
    ensures forall i :: 0 <= i < SampleCount && i < |samples| ==> Pack(samples)[i] == Clamp(samples[i])
    ensures forall i :: |samples| <= i < SampleCount ==> Pack(samples)[i] == MidCode
  {
  }

  /** Code `i` is sent as bytes `2i` (low) and `2i + 1` (high). */
  lemma {:induction false} SerializeBytes(codes: seq<int>)
    ensures forall i :: 0 <= i < |codes| ==>
      Serialize(codes)[2 * i] == LowByte(codes[i]) && Serialize(codes)[2 * i + 1] == HighByte(codes[i])
  {
    if codes != [] {
      SerializeBytes(codes[1..]);
      var rest := Serialize(codes[1..]);
      var data := Serialize(codes);
      assert data == [LowByte(codes[0]), HighByte(codes[0])] + rest;
      forall i | 1 <= i < |codes|
        ensures data[2 * i] == LowByte(codes[i]) && data[2 * i + 1] == HighByte(codes[i])
      {
        assert data[2 * i] == rest[2 * (i - 1)];
        assert data[2 * i + 1] == rest[2 * (i - 1) + 1];
        assert codes[1..][i - 1] == codes[i];
      }
    }
  }

  /** The low and high byte of a 16-bit code give it back: `lo + 256 * hi`. */
  lemma LowHighRecover(v: int)
    requires 0 <= v < 65536
    ensures LowByte(v) + 256 * HighByte(v) == v
  {
  }

  /** Serialisation is lossless for 16-bit codes. */
  lemma {:induction false} SerializeRoundTrip(codes: seq<int>)
    requires forall i :: 0 <= i < |codes| ==> 0 <= codes[i] < 65536
    ensures Deserialize(Serialize(codes)) == codes
  {
    if codes != [] {
      var data := Serialize(codes);
      assert data[2..] == Serialize(codes[1..]);
      SerializeRoundTrip(codes[1..]);
      LowHighRecover(codes[0]);
    }
  }

  /** Whatever the caller supplies, the payload is 4096 bytes that decode back to the
      2048 packed codes, each within 0..4095. */
  lemma PayloadShape(samples: seq<int>)
    ensures Deserialize(Payload(samples)) == Pack(samples)
    ensures forall i :: 0 <= i < SampleCount ==> 0 <= Pack(samples)[i] <= MaxCode
  {
    PackContents(samples);
    SerializeRoundTrip(Pack(samples));
  }

  /** Chunking loses and reorders nothing: the chunks concatenate back to the data. */
  lemma {:induction false} ChunksFlatten(data: seq<byte>)
    ensures Flatten(Chunks(data)) == data
    decreases |data|
  {
    if data != [] {
      var n := if |data| < ChunkSize then |data| else ChunkSize;
      var cs := Chunks(data);
      assert cs[1..] == Chunks(data[n..]);
      ChunksFlatten(data[n..]);
      assert data == data[..n] + data[n..];
    }
  }

  /** A payload whose length is a multiple of 8 is cut into equal 8-byte chunks:
      chunk `k` is bytes `8k .. 8k+8`. */
  lemma {:induction false} ChunksAligned(data: seq<byte>)
    requires |data| % ChunkSize == 0
    ensures |Chunks(data)| == |data| / ChunkSize
    ensures forall k :: 0 <= k < |Chunks(data)| ==>
      Chunks(data)[k] == data[ChunkSize * k..ChunkSize * k + ChunkSize]
    decreases |data|
  {
    if data != [] {
      var rest := data[ChunkSize..];
      ChunksAligned(rest);
      var cs := Chunks(data);
      assert cs == [data[..ChunkSize]] + Chunks(rest);
      forall k | 1 <= k < |cs|
        ensures cs[k] == data[ChunkSize * k..ChunkSize * k + ChunkSize]
      {
        assert cs[k] == Chunks(rest)[k - 1];
        assert rest[ChunkSize * (k - 1)..ChunkSize * (k - 1) + ChunkSize]
            == data[ChunkSize * k..ChunkSize * k + ChunkSize];
      }
    }
  }
}
