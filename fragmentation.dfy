/** The first fragmenter: a message's UTF-8 bytes become datagrams
    `<id>|<seq>|<total>|<flag>|<chunk>`, one per chunk of at most 896 bytes.
    The file the program reads is replaced by its content, and the random
    UUID by the id parameter. */
module Fragmentation {
  import opened Text
  import Utf8
  import opened Chunking

  /** flag_end: 1 on the packet numbered total - 1, 0 on every other. */
  function EndFlag(num: nat, total: nat): nat
  {
    if num == total - 1 then 1 else 0
  }

  /** header_str, before encoding. */
  function Header(id: string, num: nat, total: nat): string
  {
    id + "|" + Decimal(num) + "|" + Decimal(total) + "|" + Decimal(EndFlag(num, total)) + "|"
  }

  /** The encoded header followed by the chunk. */
  function Packet(id: string, num: nat, total: nat, chunk: seq<byte>): seq<byte>
  {
    Utf8.Encode(Header(id, num, total)) + chunk
  }

  /** The packet list for message bytes data: packet k carries chunk k. */
  function Packets(id: string, data: seq<byte>): seq<seq<byte>>
  {
    var n := PacketCount(|data|);
    seq(n, k requires 0 <= k < n => Packet(id, k, n, Chunk(data, k)))
  }

  /** The fragmenter, step by step as the program runs it: the empty message
      gives no packets; otherwise one packet per iteration of the loop over
      range(0, file_size, payload_size). */
  method Fragment(id: string, content: string) returns (packets: seq<seq<byte>>)
    ensures packets == Packets(id, Utf8.Encode(content))
    ensures |packets| == PacketCount(|Utf8.Encode(content)|)
  {
    var bytes := Utf8.Encode(content);
    var fileSize := |bytes|;
    if fileSize == 0 {
      return [];
    }
    var totalPackets := PacketCount(fileSize);
    packets := [];
    var packetNum := 0;
    var i := 0;
    while i < fileSize
      invariant i == packetNum * PayloadSize
      invariant packetNum <= totalPackets
      invariant packetNum < totalPackets <==> i < fileSize
      invariant |packets| == packetNum
      invariant forall k :: 0 <= k < packetNum ==> packets[k] == Packet(id, k, totalPackets, Chunk(bytes, k))
    {
      var chunk := bytes[i .. Min(i + PayloadSize, fileSize)];
      var flagEnd := if packetNum == totalPackets - 1 then 1 else 0;
      var headerStr := id + "|" + Decimal(packetNum) + "|" + Decimal(totalPackets) + "|" + Decimal(flagEnd) + "|";
      var finalPacket := Utf8.Encode(headerStr) + chunk;
      assert finalPacket == Packet(id, packetNum, totalPackets, Chunk(bytes, packetNum));
      packets := packets + [finalPacket];
      LoopStep(packetNum, i, fileSize);
      packetNum := packetNum + 1;
      i := i + PayloadSize;
    }
    PacketsExtensional(id, bytes, packets);
  }

  /** A list with packet k at every index k, as many as there are chunks, is the packet list. */
  lemma PacketsExtensional(id: string, data: seq<byte>, packets: seq<seq<byte>>)
    requires |packets| == PacketCount(|data|)
    requires forall k :: 0 <= k < |packets| ==> packets[k] == Packet(id, k, |packets|, Chunk(data, k))
    ensures packets == Packets(id, data)
  {
  }

  // ---------------------------------------------------------------------------
  // What the packet list is
  // ---------------------------------------------------------------------------

  /** No content, no packets; any content, at least one. */
  lemma PacketsEmpty(id: string, content: string)
    ensures Packets(id, Utf8.Encode(content)) == [] <==> content == ""
  {
  }

  /** As many packets as math.ceil(file_size / 896), which is also the number
      of iterations of the loop over range(0, file_size, 896). */
  lemma PacketsCount(id: string, data: seq<byte>)
    ensures |Packets(id, data)| == PacketCount(|data|)
    ensures |Packets(id, data)| == RangeLength(0, |data|, PayloadSize)
  {
    LoopRunsPacketCount(|data|);
  }

  /** Packet k is exactly its encoded header followed by chunk k of the data. */
  lemma PacketLayout(id: string, data: seq<byte>, k: nat)
    requires k < |Packets(id, data)|
    ensures var ps := Packets(id, data);
            var h := Utf8.Encode(Header(id, k, |ps|));
            |h| <= |ps[k]| && ps[k][..|h|] == h && ps[k][|h|..] == Chunks(data)[k]
  {
  }

  /** The payload of a packet: what follows its header. */
  function Payload(id: string, total: nat, k: nat, packet: seq<byte>): seq<byte>
  {
    var h := |Utf8.Encode(Header(id, k, total))|;
    if h <= |packet| then packet[h..] else []
  }

  /** Each payload holds at most 896 bytes (at least one), and every payload
      but the last holds exactly 896. */
  lemma PayloadSizes(id: string, data: seq<byte>)
    ensures var ps := Packets(id, data);
            forall k :: 0 <= k < |ps| ==> 1 <= |Payload(id, |ps|, k, ps[k])| <= PayloadSize
    ensures var ps := Packets(id, data);
            forall k :: 0 <= k < |ps| - 1 ==> |Payload(id, |ps|, k, ps[k])| == PayloadSize
  {
    var ps := Packets(id, data);
    ChunkSizes(data);
    forall k | 0 <= k < |ps| ensures Payload(id, |ps|, k, ps[k]) == Chunks(data)[k] {
      PacketLayout(id, data, k);
    }
  }

  /** The payloads, concatenated in packet order, are the message bytes. */
  lemma PayloadsCover(id: string, data: seq<byte>)
    ensures var ps := Packets(id, data);
            Flatten(seq(|ps|, k requires 0 <= k < |ps| => Payload(id, |ps|, k, ps[k]))) == data
  {
    var ps := Packets(id, data);
    var payloads := seq(|ps|, k requires 0 <= k < |ps| => Payload(id, |ps|, k, ps[k]));
    forall k | 0 <= k < |ps| ensures payloads[k] == Chunks(data)[k] {
      PacketLayout(id, data, k);
    }
    assert payloads == Chunks(data);
    ChunksCover(data);
  }

  /** Split on '|', a header gives back the id, the packet's own number, the
      total and its flag, then the empty text that precedes the chunk; so
      every packet of one message carries the same id and the same total. */
  lemma HeaderFields(id: string, num: nat, total: nat)
    requires '|' !in id
    ensures Split(Header(id, num, total), '|')
            == [id, Decimal(num), Decimal(total), Decimal(EndFlag(num, total)), ""]
  {
    var parts := [id, Decimal(num), Decimal(total), Decimal(EndFlag(num, total)), ""];
    assert Join(parts, '|') == Header(id, num, total) by {
      JoinFive(id, Decimal(num), Decimal(total), Decimal(EndFlag(num, total)), "", '|');
    }
    DigitsFreeOfBar(Decimal(num));
    DigitsFreeOfBar(Decimal(total));
    DigitsFreeOfBar(Decimal(EndFlag(num, total)));
    SplitJoin(parts, '|');
  }

  /** Read back from packet k's header: the common id, k, the common total,
      and a flag field that is "1" exactly on the last packet and "0" on
      every other. */
  lemma PacketFlagField(id: string, data: seq<byte>, k: nat)
    requires '|' !in id && k < |Packets(id, data)|
    ensures var n := |Packets(id, data)|;
            var f := Split(Header(id, k, n), '|');
            |f| == 5 && f[0] == id && f[1] == Decimal(k) && f[2] == Decimal(n)
            && (f[3] == "1" <==> k == n - 1) && (f[3] == "0" <==> k != n - 1)
  {
    var n := |Packets(id, data)|;
    HeaderFields(id, k, n);
    assert Decimal(1) == "1" && Decimal(0) == "0";
  }

  lemma DigitsFreeOfBar(s: string)
    requires AllDigits(s)
    ensures '|' !in s
  {
  }

  /** The encoded header is the encoded id and four delimiters around three
      numerals, one byte per digit. */
  lemma HeaderLength(id: string, num: nat, total: nat)
    ensures |Utf8.Encode(Header(id, num, total))|
            == |Utf8.Encode(id)| + |Decimal(num)| + |Decimal(total)| + 5
  {
    var d1, d2, d3 := Decimal(num), Decimal(total), Decimal(EndFlag(num, total));
    var tail := "|" + d1 + "|" + d2 + "|" + d3 + "|";
    assert Header(id, num, total) == id + tail;
    Utf8.DigitsAscii(d1);
    Utf8.DigitsAscii(d2);
    Utf8.DigitsAscii(d3);
    Utf8.AsciiAppend("|", d1);
    Utf8.AsciiAppend("|" + d1, "|");
    Utf8.AsciiAppend("|" + d1 + "|", d2);
    Utf8.AsciiAppend("|" + d1 + "|" + d2, "|");
    Utf8.AsciiAppend("|" + d1 + "|" + d2 + "|", d3);
    Utf8.AsciiAppend("|" + d1 + "|" + d2 + "|" + d3, "|");
    Utf8.EncodeAppend(id, tail);
    Utf8.EncodeAscii(tail);
  }

  /** With a 36-character UUID, or any id short enough that the header stays
      within its 128 reserved bytes, every packet fits in one 1024-byte
      datagram, so a receiver reading 1024 bytes gets all of it. */
  lemma PacketsFitBuffer(id: string, data: seq<byte>)
    requires |Utf8.Encode(id)| + 2 * |Decimal(PacketCount(|data|))| + 5 <= HeaderReserve
    ensures forall p :: p in Packets(id, data) ==> |p| <= BufferSize
  {
    var ps := Packets(id, data);
    forall k | 0 <= k < |ps| ensures |ps[k]| <= BufferSize {
      PacketFits(id, data, k);
    }
  }

  lemma PacketFits(id: string, data: seq<byte>, k: nat)
    requires |Utf8.Encode(id)| + 2 * |Decimal(PacketCount(|data|))| + 5 <= HeaderReserve
    requires k < PacketCount(|data|)
    ensures |Packet(id, k, PacketCount(|data|), Chunk(data, k))| <= BufferSize
  {
    var n := PacketCount(|data|);
    ChunkSizes(data);
    assert Chunks(data)[k] == Chunk(data, k);
    DecimalLengthMonotone(k, n);
    HeaderLength(id, k, n);
  }
}
