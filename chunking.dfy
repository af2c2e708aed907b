/** The chunking both fragmenters share: a datagram buffer of 1024 bytes, 128
    of them reserved for the header, so chunks of at most 896 payload bytes
    taken by the loop `for i in range(0, file_size, payload_size)`. */
module Chunking {
  import opened Text

  const BufferSize: nat := 1024
  const HeaderReserve: nat := 128
  const PayloadSize: nat := BufferSize - HeaderReserve

  /** total_packets = math.ceil(file_size / payload_size): the least number
      of chunks of PayloadSize bytes that hold size bytes. */
  function PacketCount(size: nat): (q: nat)
    ensures size <= q * PayloadSize
    ensures size > 0 ==> (q - 1) * PayloadSize < size
    ensures q == 0 <==> size == 0
  {
    (size + PayloadSize - 1) / PayloadSize
  }

  /** Content of at most one payload goes out in a single packet. */
  lemma SinglePacket(size: nat)
    requires 0 < size <= PayloadSize
    ensures PacketCount(size) == 1
  {
  }

  /** The loop's index k * payload_size is still inside the data exactly for
      the first PacketCount(size) values of k. */
  lemma IterationBound(k: nat, size: nat)
    ensures k < PacketCount(size) <==> k * PayloadSize < size
  {
    var q := PacketCount(size);
    if k < q {
      assert k * PayloadSize <= (q - 1) * PayloadSize;
    } else {
      assert k * PayloadSize >= q * PayloadSize;
    }
  }

  /** One more turn of the loop: the index moves on by one payload, and the
      loop goes on while the next packet number is below the count. */
  lemma LoopStep(k: nat, i: nat, size: nat)
    requires i == k * PayloadSize
    ensures i + PayloadSize == (k + 1) * PayloadSize
    ensures k + 1 < PacketCount(size) <==> i + PayloadSize < size
  {
    IterationBound(k + 1, size);
  }

  /** The number of values Python's `range(start, stop, step)` yields. */
  function RangeLength(start: nat, stop: nat, step: nat): nat
    requires step > 0
    decreases stop - start
  {
    if start >= stop then 0 else 1 + RangeLength(start + step, stop, step)
  }

  lemma {:induction false} RangeLengthFrom(k: nat, size: nat)
    requires k <= PacketCount(size)
    ensures RangeLength(k * PayloadSize, size, PayloadSize) == PacketCount(size) - k
    decreases PacketCount(size) - k
  {
    if k < PacketCount(size) {
      assert k * PayloadSize < size;
      assert k * PayloadSize + PayloadSize == (k + 1) * PayloadSize;
      RangeLengthFrom(k + 1, size);
    } else {
      assert k * PayloadSize >= size;
    }
  }

  /** The for loop over range(0, file_size, payload_size) runs once per packet. */
  lemma LoopRunsPacketCount(size: nat)
    ensures RangeLength(0, size, PayloadSize) == PacketCount(size)
  {
    RangeLengthFrom(0, size);
  }

  /** The slice data[i:i + payload_size] of the k-th iteration, i = k * payload_size;
      like Python's slice, it stops at the end of data. */
  function Chunk(data: seq<byte>, k: nat): seq<byte>
    requires k < PacketCount(|data|)
  {
    data[k * PayloadSize .. Min(k * PayloadSize + PayloadSize, |data|)]
  }

  /** The chunks in loop order. */
  function Chunks(data: seq<byte>): seq<seq<byte>>
  {
    seq(PacketCount(|data|), k requires 0 <= k < PacketCount(|data|) => Chunk(data, k))
  }

  /** Every chunk holds between one and PayloadSize bytes, and every chunk but
      the last holds exactly PayloadSize. */
  lemma ChunkSizes(data: seq<byte>)
    ensures forall k :: 0 <= k < |Chunks(data)| ==> 1 <= |Chunks(data)[k]| <= PayloadSize
    ensures forall k :: 0 <= k < |Chunks(data)| - 1 ==> |Chunks(data)[k]| == PayloadSize
  {
    var n := PacketCount(|data|);
    forall k | 0 <= k < n
      ensures 1 <= |Chunks(data)[k]| <= PayloadSize
      ensures k < n - 1 ==> |Chunks(data)[k]| == PayloadSize
    {
      assert k * PayloadSize < |data|;
      if k < n - 1 {
        assert (k + 1) * PayloadSize <= (n - 1) * PayloadSize;
      }
    }
  }

  /** More than one chunk: the first is the first PayloadSize bytes, the
      rest are the chunks of what follows. */
  lemma ChunksCons(data: seq<byte>)
    requires |data| > PayloadSize
    ensures Chunks(data) == [data[..PayloadSize]] + Chunks(data[PayloadSize..])
  {
    var rest := data[PayloadSize..];
    assert PacketCount(|data|) == PacketCount(|rest|) + 1;
    forall k | 0 <= k < PacketCount(|rest|)
      ensures Chunks(data)[k + 1] == Chunks(rest)[k]
    {
      assert (k + 1) * PayloadSize == k * PayloadSize + PayloadSize;
    }
  }

  /** Concatenating the chunks in order gives the data back. */
  lemma {:induction false} ChunksCover(data: seq<byte>)
    ensures Flatten(Chunks(data)) == data
    decreases |data|
  {
    if |data| == 0 {
    } else if |data| <= PayloadSize {
      SinglePacket(|data|);
      assert Chunk(data, 0) == data;
      assert Chunks(data) == [data];
      assert Flatten([data]) == data + Flatten([]);
    } else {
      ChunksCons(data);
      ChunksCover(data[PayloadSize..]);
      assert data[..PayloadSize] + data[PayloadSize..] == data;
    }
  }
}
