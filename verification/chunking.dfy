/**
 Splitting the payload into the fixed-size write units of the transfer
 protocol: `for i in range(0, file_size, 1024): chunk = binary_data[i:i+1024]`.
 */
module Chunking {
  import opened BigEndian

  /** Bytes per chunk in this protocol version. */
  const ChunkSize: nat := 1024

  function Min(a: int, b: int): int
  {
    if a <= b then a else b
  }

  /** How many offsets `range(0, n, ChunkSize)` produces: the ceiling of n / ChunkSize. */
  function NumChunks(n: nat): nat
  {
    (n + ChunkSize - 1) / ChunkSize
  }

  /** Chunk `k` starts at offset k * ChunkSize exactly when that offset lies inside the payload. */
  lemma NumChunksBound(n: nat, k: nat)
    ensures k < NumChunks(n) <==> k * ChunkSize < n
  {
  }

  /**
   The `k`-th chunk as the source slices it: a Python slice clamps its end at
   the length of the buffer, so the last chunk may be shorter.
   */
  function ChunkAt(data: seq<byte>, k: nat): (c: seq<byte>)
    requires k < NumChunks(|data|)
    ensures 1 <= |c| <= ChunkSize
    ensures |c| == Min(ChunkSize, |data| - k * ChunkSize)
  {
    NumChunksBound(|data|, k);
    data[k * ChunkSize .. Min((k + 1) * ChunkSize, |data|)]
  }

  /**
   The chunks of `data`, first to last, defined by peeling off one chunk at a
   time from the front: an independent reference for the offset-based slicing.
   */
  function Chunks(data: seq<byte>): (cs: seq<seq<byte>>)
    ensures |cs| == NumChunks(|data|)
    decreases |data|
  {
    if |data| == 0 then []
    else if |data| <= ChunkSize then [data]
    else [data[..ChunkSize]] + Chunks(data[ChunkSize..])
  }

  /** Concatenation of a list of chunks. */
  function Flatten(cs: seq<seq<byte>>): seq<byte>
  {
    if |cs| == 0 then [] else cs[0] + Flatten(cs[1..])
  }

  /** The chunks cover the payload exactly once, in order, with no gap and no overlap. */
  lemma {:induction false} ChunksCover(data: seq<byte>)
    ensures Flatten(Chunks(data)) == data
    decreases |data|
  {
    if |data| > ChunkSize {
      var cs := Chunks(data);
      assert cs[1..] == Chunks(data[ChunkSize..]);
      ChunksCover(data[ChunkSize..]);
      assert data[..ChunkSize] + data[ChunkSize..] == data;
    }
  }

  /** The `k`-th chunk is the slice of `data` at offset k * ChunkSize, as the source cuts it. */
  lemma {:induction false} ChunksAreSlices(data: seq<byte>, k: nat)
    requires k < NumChunks(|data|)
    ensures Chunks(data)[k] == ChunkAt(data, k)
    decreases |data|
  {
    if |data| > ChunkSize && k > 0 {
      var rest := data[ChunkSize..];
      assert Chunks(data)[k] == Chunks(rest)[k - 1];
      ChunksAreSlices(rest, k - 1);
      var lo := (k - 1) * ChunkSize;
      var hi := Min(k * ChunkSize, |rest|);
      assert rest[lo..hi] == data[ChunkSize + lo .. ChunkSize + hi];
    }
  }

  /**
   Every chunk but the last holds exactly ChunkSize bytes and the last holds
   between 1 and ChunkSize bytes.
   */
  lemma ChunkLengths(data: seq<byte>)
    ensures forall k :: 0 <= k < |Chunks(data)| - 1 ==> |Chunks(data)[k]| == ChunkSize
    ensures |Chunks(data)| > 0 ==> 1 <= |Chunks(data)[|Chunks(data)| - 1]| <= ChunkSize
  {
    var cs := Chunks(data);
    forall k | 0 <= k < |cs|
      ensures |cs[k]| == Min(ChunkSize, |data| - k * ChunkSize)
    {
      ChunksAreSlices(data, k);
    }
    forall k | 0 <= k < |cs| - 1
      ensures |cs[k]| == ChunkSize
    {
      NumChunksBound(|data|, k + 1);
    }
  }
}
