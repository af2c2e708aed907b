/** The second fragmenter: the same chunks and the same header, with the
    CRC-32 of header plus chunk written in front of them, so each datagram is
    `<crc>|<id>|<seq>|<total>|<flag>|<chunk>`.

    The program calls zlib.crc32, a foreign function; here it is the
    parameter crc. Crc32.Checksum is the function zlib computes, and
    ChecksumFits shows it meets what the lemmas below ask of crc. */
module ChecksumFragmentation {
  import opened Text
  import Utf8
  import opened Chunking
  import Crc32
  import Plain = Fragmentation

  /** A checksum function whose values are unsigned 32-bit numbers, as zlib.crc32's are. */
  ghost predicate Fits32(crc: seq<byte> -> nat)
  {
    forall bs :: crc(bs) < 0x1_0000_0000
  }

  /** The CRC-32 written out bit by bit is such a function. */
  lemma ChecksumFits()
    ensures Fits32(Crc32.Checksum)
  {
    forall bs ensures Crc32.Checksum(bs) < 0x1_0000_0000 {
      var c := Crc32.Checksum(bs);
    }
  }

  /** checksum = zlib.crc32(header_bytes + chunk): it is taken over the
      header without the checksum field, followed by the chunk. */
  function PacketChecksum(crc: seq<byte> -> nat, id: string, num: nat, total: nat, chunk: seq<byte>): nat
  {
    crc(Utf8.Encode(Plain.Header(id, num, total)) + chunk)
  }

  /** full_header_str = f"{checksum}|{header_str}", encoded, then the chunk. */
  function Packet(crc: seq<byte> -> nat, id: string, num: nat, total: nat, chunk: seq<byte>): seq<byte>
  {
    Utf8.Encode(Decimal(PacketChecksum(crc, id, num, total, chunk)) + "|" + Plain.Header(id, num, total)) + chunk
  }

  function Packets(crc: seq<byte> -> nat, id: string, data: seq<byte>): seq<seq<byte>>
  {
    var n := PacketCount(|data|);
    seq(n, k requires 0 <= k < n => Packet(crc, id, k, n, Chunk(data, k)))
  }

  /** The fragmenter as the program runs it, one packet per loop iteration. */
  method Fragment(crc: seq<byte> -> nat, id: string, content: string) returns (packets: seq<seq<byte>>)
    ensures packets == Packets(crc, id, Utf8.Encode(content))
    ensures |packets| == PacketCount(|Utf8.Encode(content)|)
  {
    var bytes := Utf8.Encode(content);
    var fileSize := |bytes|;
    if fileSize == 0 {
      return [];
    }
    var totalPackets := PacketCount(fileSize);
    packets := [];
    var packetNum := 0;
    var i := 0;
    while i < fileSize
      invariant i == packetNum * PayloadSize
      invariant packetNum <= totalPackets
      invariant packetNum < totalPackets <==> i < fileSize
      invariant |packets| == packetNum
      invariant forall k :: 0 <= k < packetNum ==> packets[k] == Packet(crc, id, k, totalPackets, Chunk(bytes, k))
    {
      var chunk := bytes[i .. Min(i + PayloadSize, fileSize)];
      var flagEnd := if packetNum == totalPackets - 1 then 1 else 0;
      var headerStr := id + "|" + Decimal(packetNum) + "|" + Decimal(totalPackets) + "|" + Decimal(flagEnd) + "|";
      var headerBytes := Utf8.Encode(headerStr);
      var checksum := crc(headerBytes + chunk);
      var fullHeaderStr := Decimal(checksum) + "|" + headerStr;
      var finalPacket := Utf8.Encode(fullHeaderStr) + chunk;
      assert headerStr == Plain.Header(id, packetNum, totalPackets);
      assert chunk == Chunk(bytes, packetNum);
      assert finalPacket == Packet(crc, id, packetNum, totalPackets, Chunk(bytes, packetNum));
      packets := packets + [finalPacket];
      LoopStep(packetNum, i, fileSize);
      packetNum := packetNum + 1;
      i := i + PayloadSize;
    }
  }

  // ---------------------------------------------------------------------------
  // What the packet list is
  // ---------------------------------------------------------------------------

  /** No content, no packets. */
  lemma PacketsEmpty(crc: seq<byte> -> nat, id: string, content: string)
    ensures Packets(crc, id, Utf8.Encode(content)) == [] <==> content == ""
  {
  }

  /** As many packets as the first fragmenter makes, and in the same order:
      math.ceil(file_size / 896), one per iteration of the loop. */
  lemma PacketsCount(crc: seq<byte> -> nat, id: string, data: seq<byte>)
    ensures |Packets(crc, id, data)| == |Plain.Packets(id, data)| == PacketCount(|data|)
    ensures |Packets(crc, id, data)| == RangeLength(0, |data|, PayloadSize)
  {
    LoopRunsPacketCount(|data|);
  }

  /** Each packet is its checksum's numeral and a delimiter, followed by
      exactly the packet the first fragmenter makes (header and chunk), and
      the checksum is taken over that packet and over nothing else. */
  lemma ChecksumPrefix(crc: seq<byte> -> nat, id: string, data: seq<byte>, k: nat)
    requires k < |Packets(crc, id, data)|
    ensures var inner := Plain.Packets(id, data)[k];
            Packets(crc, id, data)[k] == Utf8.Encode(Decimal(crc(inner)) + "|") + inner
  {
    var n := PacketCount(|data|);
    var header := Plain.Header(id, k, n);
    var chunk := Chunk(data, k);
    var inner := Plain.Packets(id, data)[k];
    assert inner == Utf8.Encode(header) + chunk;
    var prefix := Decimal(crc(inner)) + "|";
    assert Packets(crc, id, data)[k] == Utf8.Encode(prefix + header) + chunk;
    Utf8.EncodeAppend(prefix, header);
    assert Utf8.Encode(prefix + header) + chunk == Utf8.Encode(prefix) + inner;
  }

  /** Packet k is its full header (checksum, id, k, the common total, its
      flag) followed by exactly chunk k, so the chunks have the sizes and
      cover the data as Chunking says; the flag is 1 only on the last. */
  lemma PacketLayout(crc: seq<byte> -> nat, id: string, data: seq<byte>, k: nat)
    requires k < |Packets(crc, id, data)|
    ensures var ps := Packets(crc, id, data);
            var n := |ps|;
            var chunk := Chunks(data)[k];
            var h := Utf8.Encode(Decimal(PacketChecksum(crc, id, k, n, chunk)) + "|" + Plain.Header(id, k, n));
            |h| <= |ps[k]| && ps[k][..|h|] == h && ps[k][|h|..] == chunk
            && (Plain.EndFlag(k, n) == 1 <==> k == n - 1)
  {
  }

  /** Read back from packet k's full header: the checksum's numeral, the
      common id, k, the common total, and a flag field that is "1" exactly on
      the last packet and "0" on every other. */
  lemma PacketFlagField(crc: seq<byte> -> nat, id: string, data: seq<byte>, k: nat)
    requires '|' !in id && k < |Packets(crc, id, data)|
    ensures var n := |Packets(crc, id, data)|;
            var c := PacketChecksum(crc, id, k, n, Chunks(data)[k]);
            var f := Split(Decimal(c) + "|" + Plain.Header(id, k, n), '|');
            |f| == 6 && f[0] == Decimal(c) && f[1] == id && f[2] == Decimal(k) && f[3] == Decimal(n)
            && (f[4] == "1" <==> k == n - 1) && (f[4] == "0" <==> k != n - 1)
  {
    var n := |Packets(crc, id, data)|;
    var c := PacketChecksum(crc, id, k, n, Chunks(data)[k]);
    Plain.PacketFlagField(id, data, k);
    Plain.DigitsFreeOfBar(Decimal(c));
    SplitAfter(Decimal(c), Plain.Header(id, k, n), '|');
  }

  /** Reading a packet back: the first byte 0x7C ends the checksum field,
      which decodes to the numeral of the checksum of everything after it; and
      everything after it is the first fragmenter's packet. So the checksum
      covers header and chunk and not the checksum field itself. */
  lemma ChecksumFieldCoversRest(crc: seq<byte> -> nat, id: string, data: seq<byte>, k: nat)
    requires k < |Packets(crc, id, data)|
    ensures var p := Packets(crc, id, data)[k];
            var inner := Plain.Packets(id, data)[k];
            SplitFirst(p, Bar).Some?
            && SplitFirst(p, Bar).value.1 == inner
            && Utf8.Decode(SplitFirst(p, Bar).value.0) == Some(Decimal(crc(inner)))
            && ParseDecimal(Decimal(crc(inner))) == crc(inner)
  {
    var inner := Plain.Packets(id, data)[k];
    var numeral := Decimal(crc(inner));
    ChecksumPrefix(crc, id, data, k);
    Utf8.EncodeAppend(numeral, "|");
    assert Utf8.IsAscii(numeral);
    Utf8.BarInEncode(numeral);
    assert Utf8.Encode(numeral + "|") + inner == Utf8.Encode(numeral) + [Bar] + inner;
    SplitFirstAfter(Utf8.Encode(numeral), inner, Bar);
    Utf8.DecodeEncode(numeral);
    ParseDecimalInverse(crc(inner));
  }

  /** A 32-bit checksum's numeral has at most ten digits. */
  lemma ChecksumNumeralLength(c: nat)
    requires c < 0x1_0000_0000
    ensures |Decimal(c)| <= 10
  {
    DecimalLengthMonotone(c, 0xFFFF_FFFF);
    assert |Decimal(0xFFFF_FFFF)| == 10;
  }

  /** With the checksum field included, a packet still fits in one 1024-byte
      datagram when id and numerals leave room for the ten-digit checksum. */
  lemma PacketsFitBuffer(crc: seq<byte> -> nat, id: string, data: seq<byte>)
    requires Fits32(crc)
    requires |Utf8.Encode(id)| + 2 * |Decimal(PacketCount(|data|))| + 16 <= HeaderReserve
    ensures forall p :: p in Packets(crc, id, data) ==> |p| <= BufferSize
  {
    var ps := Packets(crc, id, data);
    forall k | 0 <= k < |ps| ensures |ps[k]| <= BufferSize {
      var inner := Plain.Packets(id, data)[k];
      ChecksumPrefix(crc, id, data, k);
      var numeral := Decimal(crc(inner));
      ChecksumNumeralLength(crc(inner));
      assert Utf8.IsAscii(numeral + "|");
      Utf8.EncodeAscii(numeral + "|");
      HeaderBound(id, data, k);
    }
  }

  /** The first fragmenter's packet k leaves room for the checksum field. */
  lemma HeaderBound(id: string, data: seq<byte>, k: nat)
    requires |Utf8.Encode(id)| + 2 * |Decimal(PacketCount(|data|))| + 16 <= HeaderReserve
    requires k < |Plain.Packets(id, data)|
    ensures |Plain.Packets(id, data)[k]| + 11 <= BufferSize
  {
    var n := PacketCount(|data|);
    ChunkSizes(data);
    DecimalLengthMonotone(k, n);
    Plain.HeaderLength(id, k, n);
    Plain.PacketLayout(id, data, k);
  }
}
