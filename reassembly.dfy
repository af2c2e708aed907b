/** The server's receive loop: datagrams are read one at a time, each is
    decoded as UTF-8 and split on '|', field 4 is appended to the message,
    and reading stops after the first datagram whose field 3 is not "0".

    The socket becomes the list of datagrams still waiting to be read. When
    that list runs out before the loop ends, the server would block in
    recvfrom; the model reports Pending. A failing decode or a missing field
    raises in the program and ends the server; the model reports the error
    and how many datagrams were read. */
module Reassembly {
  import opened Text
  import Utf8
  import opened Chunking
  import Plain = Fragmentation
  import Chat

  /** One datagram as recvfrom would return it, before truncation. */
  datatype Datagram = Datagram(data: seq<byte>, from: Chat.Address)

  datatype Outcome =
    | Message(text: string, sender: Chat.Address, consumed: nat)
    | DecodeError(consumed: nat)
    | MissingField(consumed: nat)
    | Pending

  /** recvfrom(1024): the bytes beyond the buffer are discarded. */
  function Truncate(bs: seq<byte>): (r: seq<byte>)
    ensures |r| == Min(|bs|, BufferSize) && r == bs[..|r|]
    ensures |bs| <= BufferSize ==> r == bs
  {
    bs[..Min(|bs|, BufferSize)]
  }

  /** data.decode().split("|"), or None when decoding raises. */
  function Fields(d: Datagram): Option<seq<string>>
  {
    match Utf8.Decode(Truncate(d.data))
    case None => None
    case Some(m) => Some(Split(m, '|'))
  }

  /** Decoded, with a field 4 to take. */
  predicate Framed(d: Datagram)
  {
    Fields(d).Some? && |Fields(d).value| >= 5
  }

  function Flag(d: Datagram): string
    requires Framed(d)
  {
    Fields(d).value[3]
  }

  function Body(d: Datagram): string
    requires Framed(d)
  {
    Fields(d).value[4]
  }

  /** The loop from the i-th datagram on, with acc already collected. */
  function ReassembleFrom(inbox: seq<Datagram>, i: nat, acc: string): Outcome
    decreases |inbox| - i
  {
    if i >= |inbox| then Pending
    else if Fields(inbox[i]).None? then DecodeError(i + 1)
    else if !Framed(inbox[i]) then MissingField(i + 1)
    else if Flag(inbox[i]) == "0" then ReassembleFrom(inbox, i + 1, acc + Body(inbox[i]))
    else Message(acc + Body(inbox[i]), inbox[i].from, i + 1)
  }

  function Reassemble(inbox: seq<Datagram>): Outcome
  {
    ReassembleFrom(inbox, 0, "")
  }

  /** server.py's loop, reading from the inbox as it reads from the socket. */
  method Receive(inbox: seq<Datagram>) returns (outcome: Outcome)
    ensures outcome == Reassemble(inbox)
  {
    if |inbox| == 0 {
      return Pending;
    }
    var data := Truncate(inbox[0].data);
    var clientAddress := inbox[0].from;
    var i := 1;
    var message := Utf8.Decode(data);
    if message.None? {
      return DecodeError(i);
    }
    var messageInfo := Split(message.value, '|');
    if |messageInfo| < 5 {
      return MissingField(i);
    }
    var messageContent := messageInfo[4];
    assert Fields(inbox[0]) == Some(messageInfo);
    assert "" + messageContent == messageContent;
    while messageInfo[3] == "0"
      invariant 1 <= i <= |inbox| && |messageInfo| >= 5 && clientAddress == inbox[i - 1].from
      invariant messageInfo[3] == "0" ==> ReassembleFrom(inbox, i, messageContent) == Reassemble(inbox)
      invariant messageInfo[3] != "0" ==> Reassemble(inbox) == Message(messageContent, clientAddress, i)
      decreases |inbox| - i
    {
      if i == |inbox| {
        return Pending;
      }
      data := Truncate(inbox[i].data);
      clientAddress := inbox[i].from;
      i := i + 1;
      message := Utf8.Decode(data);
      if message.None? {
        return DecodeError(i);
      }
      messageInfo := Split(message.value, '|');
      if |messageInfo| < 5 {
        return MissingField(i);
      }
      messageContent := messageContent + messageInfo[4];
    }
    return Message(messageContent, clientAddress, i);
  }

  // ---------------------------------------------------------------------------
  // What the loop computes
  // ---------------------------------------------------------------------------

  /** Datagrams i .. m - 1 are all framed with flag "0": the loop reads on. */
  ghost predicate Continues(inbox: seq<Datagram>, i: nat, m: nat)
    decreases m - i
  {
    i <= m <= |inbox|
    && (i < m ==> Framed(inbox[i]) && Flag(inbox[i]) == "0" && Continues(inbox, i + 1, m))
  }

  /** Datagrams i .. n - 1 form one message: all framed, flag "0" until the
      last one, whose flag is something else. */
  ghost predicate RunFrom(inbox: seq<Datagram>, i: nat, n: nat)
    decreases n - i
  {
    i < n <= |inbox| && Framed(inbox[i])
    && if i == n - 1 then Flag(inbox[i]) != "0" else Flag(inbox[i]) == "0" && RunFrom(inbox, i + 1, n)
  }

  /** Field 4 of datagrams i .. n - 1, concatenated. */
  function Bodies(inbox: seq<Datagram>, i: nat, n: nat): string
    requires RunFrom(inbox, i, n)
    decreases n - i
  {
    if i == n - 1 then Body(inbox[i]) else Body(inbox[i]) + Bodies(inbox, i + 1, n)
  }

  /** A run is datagrams that continue the loop and then one that ends it. */
  lemma {:induction false} RunFromIff(inbox: seq<Datagram>, i: nat, n: nat)
    ensures RunFrom(inbox, i, n)
            <==> i < n <= |inbox| && Continues(inbox, i, n - 1)
                 && Framed(inbox[n - 1]) && Flag(inbox[n - 1]) != "0"
    decreases n - i
  {
    if i < n - 1 && n <= |inbox| {
      RunFromIff(inbox, i + 1, n);
    }
  }

  /** The loop waits for more datagrams exactly when every datagram from i
      on is framed with flag "0". */
  lemma {:induction false} PendingCase(inbox: seq<Datagram>, i: nat, acc: string)
    requires i <= |inbox|
    ensures ReassembleFrom(inbox, i, acc).Pending? <==> Continues(inbox, i, |inbox|)
    decreases |inbox| - i
  {
    if i < |inbox| && Framed(inbox[i]) && Flag(inbox[i]) == "0" {
      PendingCase(inbox, i + 1, acc + Body(inbox[i]));
    }
  }

  /** A decoding error names the first datagram that does not decode; every
      datagram before it continued the loop. */
  lemma {:induction false} DecodeErrorCase(inbox: seq<Datagram>, i: nat, acc: string)
    requires i <= |inbox|
    ensures var r := ReassembleFrom(inbox, i, acc);
            r.DecodeError? ==> i < r.consumed <= |inbox| && Continues(inbox, i, r.consumed - 1)
                               && Fields(inbox[r.consumed - 1]).None?
    decreases |inbox| - i
  {
    if i < |inbox| && Framed(inbox[i]) && Flag(inbox[i]) == "0" {
      DecodeErrorCase(inbox, i + 1, acc + Body(inbox[i]));
    }
  }

  /** A missing field names the first datagram that decodes to fewer than
      five fields; every datagram before it continued the loop. */
  lemma {:induction false} MissingFieldCase(inbox: seq<Datagram>, i: nat, acc: string)
    requires i <= |inbox|
    ensures var r := ReassembleFrom(inbox, i, acc);
            r.MissingField? ==> i < r.consumed <= |inbox| && Continues(inbox, i, r.consumed - 1)
                                && Fields(inbox[r.consumed - 1]).Some?
                                && |Fields(inbox[r.consumed - 1]).value| < 5
    decreases |inbox| - i
  {
    if i < |inbox| && Framed(inbox[i]) && Flag(inbox[i]) == "0" {
      MissingFieldCase(inbox, i + 1, acc + Body(inbox[i]));
    }
  }

  /** A message comes from a run: framed datagrams with flag "0" up to one
      with another flag; its text is acc and their fields 4 concatenated,
      and its sender is the sender of the last of them. */
  lemma {:induction false} MessageCase(inbox: seq<Datagram>, i: nat, acc: string)
    requires i <= |inbox|
    ensures var r := ReassembleFrom(inbox, i, acc);
            r.Message? ==> RunFrom(inbox, i, r.consumed)
                           && r.text == acc + Bodies(inbox, i, r.consumed)
                           && r.sender == inbox[r.consumed - 1].from
    decreases |inbox| - i
  {
    if i < |inbox| && Framed(inbox[i]) && Flag(inbox[i]) == "0" {
      var acc' := acc + Body(inbox[i]);
      MessageCase(inbox, i + 1, acc');
      var r := ReassembleFrom(inbox, i + 1, acc');
      if r.Message? {
        assert acc' + Bodies(inbox, i + 1, r.consumed) == acc + Bodies(inbox, i, r.consumed);
      }
    }
  }

  /** Conversely, a run of datagrams that form one message is read as that
      message, whatever follows it in the inbox. */
  lemma {:induction false} RunIsMessage(inbox: seq<Datagram>, i: nat, n: nat, acc: string)
    requires RunFrom(inbox, i, n)
    ensures ReassembleFrom(inbox, i, acc) == Message(acc + Bodies(inbox, i, n), inbox[n - 1].from, n)
    decreases n - i
  {
    if i < n - 1 {
      RunIsMessage(inbox, i + 1, n, acc + Body(inbox[i]));
      assert acc + Body(inbox[i]) + Bodies(inbox, i + 1, n) == acc + Bodies(inbox, i, n);
    }
  }

  /** The characterisation from the start of the inbox. */
  lemma ReassembleMessage(inbox: seq<Datagram>, n: nat)
    ensures RunFrom(inbox, 0, n) ==> Reassemble(inbox) == Message(Bodies(inbox, 0, n), inbox[n - 1].from, n)
    ensures Reassemble(inbox).Message? && Reassemble(inbox).consumed == n ==> RunFrom(inbox, 0, n)
  {
    if RunFrom(inbox, 0, n) {
      RunIsMessage(inbox, 0, n, "");
      assert "" + Bodies(inbox, 0, n) == Bodies(inbox, 0, n);
    }
    MessageCase(inbox, 0, "");
  }

  /** A datagram that decodes to text without '|' (client.py sends the line
      the user typed bare, so any typed line without a bar) has a single
      field, so the loop fails at it. */
  lemma UnframedIsMissingField(d: Datagram, text: string, rest: seq<Datagram>)
    requires Utf8.Decode(Truncate(d.data)) == Some(text) && '|' !in text
    ensures Reassemble([d] + rest) == MissingField(1)
  {
    SplitWhole(text, '|');
  }

  // ---------------------------------------------------------------------------
  // Reading back what the first fragmenter sends
  // ---------------------------------------------------------------------------

  /** The fragmenter's packets, delivered in order from one address. */
  function Delivered(packets: seq<seq<byte>>, from: Chat.Address): (inbox: seq<Datagram>)
    ensures |inbox| == |packets|
    ensures forall k :: 0 <= k < |packets| ==> inbox[k] == Datagram(packets[k], from)
  {
    seq(|packets|, k requires 0 <= k < |packets| => Datagram(packets[k], from))
  }

  /** A header followed by text free of '|' splits into the four header
      fields and the text. */
  lemma PacketFields(id: string, num: nat, total: nat, piece: string)
    requires '|' !in id && '|' !in piece
    ensures Split(Plain.Header(id, num, total) + piece, '|')
            == [id, Decimal(num), Decimal(total), Decimal(Plain.EndFlag(num, total)), piece]
  {
    var parts := [id, Decimal(num), Decimal(total), Decimal(Plain.EndFlag(num, total)), piece];
    assert Join(parts, '|') == Plain.Header(id, num, total) + piece by {
      JoinFive(parts[0], parts[1], parts[2], parts[3], piece, '|');
    }
    Plain.DigitsFreeOfBar(parts[1]);
    Plain.DigitsFreeOfBar(parts[2]);
    Plain.DigitsFreeOfBar(parts[3]);
    SplitJoin(parts, '|');
  }

  /** Text decoded from bytes without 0x7C holds no '|'. */
  lemma {:induction false} NoBarNoPipe(bs: seq<byte>)
    requires Utf8.Decode(bs).Some? && Bar !in bs
    ensures '|' !in Utf8.Decode(bs).value
    decreases |bs|
  {
    if |bs| > 0 {
      var c, n := Utf8.DecodeHead(bs);
      assert bs[0] in bs;
      assert forall x :: x in bs[n..] ==> x in bs;
      NoBarNoPipe(bs[n..]);
    }
  }

  /** The chunks a message's bytes are cut into each decode on their own:
      no chunk boundary falls inside a character. */
  ghost predicate AlignedChunks(bytes: seq<byte>)
  {
    forall k :: 0 <= k < PacketCount(|bytes|) ==> Utf8.Decode(Chunk(bytes, k)).Some?
  }

  /** The text of chunk k. */
  function Piece(bytes: seq<byte>, k: nat): string
    requires AlignedChunks(bytes) && k < PacketCount(|bytes|)
  {
    Utf8.Decode(Chunk(bytes, k)).value
  }

  /** The pieces of chunks i .. n - 1, concatenated. */
  function Pieces(bytes: seq<byte>, i: nat, n: nat): string
    requires AlignedChunks(bytes) && n <= PacketCount(|bytes|)
    decreases n - i
  {
    if i >= n then "" else Piece(bytes, i) + Pieces(bytes, i + 1, n)
  }

  /** Decoding the bytes of chunks i onwards gives their pieces. */
  lemma {:induction false} DecodeChunksFrom(bytes: seq<byte>, i: nat)
    requires AlignedChunks(bytes) && i <= PacketCount(|bytes|)
    ensures Utf8.Decode(Flatten(Chunks(bytes)[i..])) == Some(Pieces(bytes, i, PacketCount(|bytes|)))
    decreases PacketCount(|bytes|) - i
  {
    var n := PacketCount(|bytes|);
    var cs := Chunks(bytes);
    if i == n {
      assert cs[i..] == [];
    } else {
      DecodeChunksFrom(bytes, i + 1);
      assert cs[i..][0] == Chunk(bytes, i);
      assert cs[i..][1..] == cs[i + 1..];
      Utf8.DecodeAppend(Chunk(bytes, i), Flatten(cs[i + 1..]));
    }
  }

  /** So, as the chunks cover the bytes, the pieces make up the text. */
  lemma PiecesAreText(text: string)
    requires AlignedChunks(Utf8.Encode(text))
    ensures Pieces(Utf8.Encode(text), 0, PacketCount(|Utf8.Encode(text)|)) == text
  {
    var bytes := Utf8.Encode(text);
    DecodeChunksFrom(bytes, 0);
    assert Chunks(bytes)[0..] == Chunks(bytes);
    ChunksCover(bytes);
    Utf8.DecodeEncode(text);
  }

  /** The header fits in its reserve, so no packet is cut by recvfrom(1024). */
  ghost predicate HeaderFits(id: string, bytes: seq<byte>)
  {
    |Utf8.Encode(id)| + 2 * |Decimal(PacketCount(|bytes|))| + 5 <= HeaderReserve
  }

  /** Packet k arrives whole and decodes to its header and its piece. */
  lemma DecodePacket(id: string, bytes: seq<byte>, k: nat)
    requires AlignedChunks(bytes) && HeaderFits(id, bytes) && k < PacketCount(|bytes|)
    ensures var p := Plain.Packets(id, bytes)[k];
            Utf8.Decode(Truncate(p)) == Some(Plain.Header(id, k, PacketCount(|bytes|)) + Piece(bytes, k))
  {
    var n := PacketCount(|bytes|);
    var header := Plain.Header(id, k, n);
    var p := Plain.Packets(id, bytes)[k];
    assert p == Utf8.Encode(header) + Chunk(bytes, k);
    Plain.PacketFits(id, bytes, k);
    Utf8.DecodeEncode(header);
    Utf8.DecodeAppend(Utf8.Encode(header), Chunk(bytes, k));
  }

  /** What the bytes do not hold, no chunk of them holds. */
  lemma AbsentFromChunk(bytes: seq<byte>, k: nat, b: byte)
    requires b !in bytes && k < PacketCount(|bytes|)
    ensures b !in Chunk(bytes, k)
  {
  }

  /** The piece of a text free of '|' is free of '|'. */
  lemma PieceFreeOfPipe(text: string, k: nat)
    requires '|' !in text
    requires AlignedChunks(Utf8.Encode(text)) && k < PacketCount(|Utf8.Encode(text)|)
    ensures '|' !in Piece(Utf8.Encode(text), k)
  {
    var bytes := Utf8.Encode(text);
    Utf8.BarInEncode(text);
    AbsentFromChunk(bytes, k, Bar);
    NoBarNoPipe(Chunk(bytes, k));
  }

  /** Packet k, received: framed, flag "0" except on the last, field 4 the piece. */
  lemma ReceivedPacket(id: string, text: string, k: nat, from: Chat.Address)
    requires '|' !in id && '|' !in text
    requires AlignedChunks(Utf8.Encode(text)) && HeaderFits(id, Utf8.Encode(text))
    requires k < PacketCount(|Utf8.Encode(text)|)
    ensures var bytes := Utf8.Encode(text);
            var n := PacketCount(|bytes|);
            var d := Datagram(Plain.Packets(id, bytes)[k], from);
            Framed(d) && (Flag(d) == "0" <==> k != n - 1) && Body(d) == Piece(bytes, k)
  {
    var bytes := Utf8.Encode(text);
    var n := PacketCount(|bytes|);
    var piece := Piece(bytes, k);
    var d := Datagram(Plain.Packets(id, bytes)[k], from);
    var flag := Decimal(Plain.EndFlag(k, n));
    assert Fields(d) == Some([id, Decimal(k), Decimal(n), flag, piece]) by {
      DecodePacket(id, bytes, k);
      PieceFreeOfPipe(text, k);
      PacketFields(id, k, n, piece);
    }
    DecimalIsZero(Plain.EndFlag(k, n));
  }

  /** The round trip: text and id free of '|', chunks that fall between
      characters, a header that fits. Then the packets the first fragmenter
      makes, received in order from one address, are read back as exactly
      that text from that address, one datagram per packet. */
  lemma RoundTrip(id: string, text: string, from: Chat.Address, rest: seq<Datagram>)
    requires text != ""
    requires '|' !in id && '|' !in text
    requires AlignedChunks(Utf8.Encode(text)) && HeaderFits(id, Utf8.Encode(text))
    ensures var ps := Plain.Packets(id, Utf8.Encode(text));
            Reassemble(Delivered(ps, from) + rest) == Message(text, from, |ps|)
  {
    var bytes := Utf8.Encode(text);
    var n := PacketCount(|bytes|);
    var inbox := Delivered(Plain.Packets(id, bytes), from) + rest;
    assert |bytes| >= |text| > 0;
    PacketsRun(id, text, from, rest, 0);
    RunIsMessage(inbox, 0, n, "");
    PiecesAreText(text);
    assert "" + Bodies(inbox, 0, n) == Bodies(inbox, 0, n);
  }

  /** The packets from k on form a run, and their fields 4 are the pieces. */
  lemma {:induction false} PacketsRun(id: string, text: string, from: Chat.Address, rest: seq<Datagram>, k: nat)
    requires '|' !in id && '|' !in text
    requires AlignedChunks(Utf8.Encode(text)) && HeaderFits(id, Utf8.Encode(text))
    requires k < PacketCount(|Utf8.Encode(text)|)
    ensures var bytes := Utf8.Encode(text);
            var n := PacketCount(|bytes|);
            var inbox := Delivered(Plain.Packets(id, bytes), from) + rest;
            RunFrom(inbox, k, n) && Bodies(inbox, k, n) == Pieces(bytes, k, n)
    decreases PacketCount(|Utf8.Encode(text)|) - k
  {
    var bytes := Utf8.Encode(text);
    var n := PacketCount(|bytes|);
    var ps := Plain.Packets(id, bytes);
    var inbox := Delivered(ps, from) + rest;
    assert Framed(inbox[k]) && (Flag(inbox[k]) == "0" <==> k != n - 1) && Body(inbox[k]) == Piece(bytes, k) by {
      assert inbox[k] == Datagram(ps[k], from);
      ReceivedPacket(id, text, k, from);
    }
    if k < n - 1 {
      PacketsRun(id, text, from, rest, k + 1);
    } else {
      assert Pieces(bytes, k + 1, n) == "";
      assert Piece(bytes, k) + "" == Piece(bytes, k);
    }
  }

  /** ASCII text never has a chunk boundary inside a character. */
  lemma AsciiAligned(text: string)
    requires Utf8.IsAscii(text)
    ensures AlignedChunks(Utf8.Encode(text))
  {
    var bytes := Utf8.Encode(text);
    Utf8.EncodeAscii(text);
    forall k | 0 <= k < PacketCount(|bytes|) ensures Utf8.Decode(Chunk(bytes, k)).Some? {
      Utf8.EncodeAsciiSlice(text, k * PayloadSize, Min(k * PayloadSize + PayloadSize, |bytes|));
      Utf8.DecodeEncode(text[k * PayloadSize .. Min(k * PayloadSize + PayloadSize, |bytes|)]);
    }
  }

  /** Neither does a message short enough for a single packet. */
  lemma SingleChunkAligned(text: string)
    requires |Utf8.Encode(text)| <= PayloadSize
    ensures AlignedChunks(Utf8.Encode(text))
  {
    var bytes := Utf8.Encode(text);
    if |bytes| > 0 {
      SinglePacket(|bytes|);
      assert Chunk(bytes, 0) == bytes;
      Utf8.DecodeEncode(text);
    }
  }

  // ---------------------------------------------------------------------------
  // Two messages the loop as written does not read back
  // ---------------------------------------------------------------------------

  /** A single-packet message arrives whole and decodes to header and text. */
  lemma SinglePacketDecodes(id: string, text: string)
    requires text != "" && |Utf8.Encode(text)| <= PayloadSize && HeaderFits(id, Utf8.Encode(text))
    ensures PacketCount(|Utf8.Encode(text)|) == 1
    ensures Utf8.Decode(Truncate(Plain.Packets(id, Utf8.Encode(text))[0])) == Some(Plain.Header(id, 0, 1) + text)
  {
    var bytes := Utf8.Encode(text);
    assert |bytes| >= |text| > 0;
    SinglePacket(|bytes|);
    SingleChunkAligned(text);
    assert Chunk(bytes, 0) == bytes;
    Utf8.DecodeEncode(text);
    DecodePacket(id, bytes, 0);
  }

  /** The header of a single packet and "before|after" split into the four
      header fields, before, and the pieces of after. */
  lemma PipeSplit(id: string, before: string, after: string)
    requires '|' !in id && '|' !in before
    ensures Split(Plain.Header(id, 0, 1) + (before + "|" + after), '|')
            == [id, "0", "1", "1", before] + Split(after, '|')
  {
    var parts := [id, "0", "1", "1", before];
    assert Plain.Header(id, 0, 1) == id + "|" + "0" + "|" + "1" + "|" + "1" + "|" by {
      assert Decimal(0) == "0" && Decimal(1) == "1";
    }
    JoinFive(id, "0", "1", "1", before, '|');
    assert Plain.Header(id, 0, 1) + (before + "|" + after) == Join(parts, '|') + "|" + after;
    SplitJoinAppend(parts, after, '|');
  }

  /** Splitting the whole decoded datagram on '|' also splits the text: a
      single-packet message "before|after" is read back as "before" alone. */
  lemma PipeTruncates(id: string, before: string, after: string, from: Chat.Address)
    requires '|' !in id && '|' !in before
    requires |Utf8.Encode(before + "|" + after)| <= PayloadSize
    requires HeaderFits(id, Utf8.Encode(before + "|" + after))
    ensures var ps := Plain.Packets(id, Utf8.Encode(before + "|" + after));
            Reassemble(Delivered(ps, from)) == Message(before, from, 1)
  {
    var text := before + "|" + after;
    var bytes := Utf8.Encode(text);
    SinglePacketDecodes(id, text);
    PipeSplit(id, before, after);
    var inbox := Delivered(Plain.Packets(id, bytes), from);
    assert inbox[0] == Datagram(Plain.Packets(id, bytes)[0], from);
    assert Fields(inbox[0]) == Some([id, "0", "1", "1", before] + Split(after, '|'));
    assert "" + before == before;
  }

  /** The concrete case: "a|b" from a client comes out as "a". */
  lemma PipeExample(id: string, from: Chat.Address)
    requires '|' !in id && |Utf8.Encode(id)| <= 100
    ensures Reassemble(Delivered(Plain.Packets(id, Utf8.Encode("a|b")), from)) == Message("a", from, 1)
    ensures "a" != "a|b"
  {
    assert "a" + "|" + "b" == "a|b";
    assert Utf8.Encode("a|b") == [97, 124, 98] by {
      assert Utf8.IsAscii("a|b");
      Utf8.EncodeAscii("a|b");
    }
    assert HeaderFits(id, [97, 124, 98]) by {
      SinglePacket(3);
    }
    PipeTruncates(id, "a", "b", from);
  }

  /** 895 ASCII letters and then 'ê' (U+00EA, two bytes): 897 bytes, two
      packets, and the first chunk ends with the first byte of 'ê'. */
  function SplitCharacterText(): string
  {
    seq(895, _ => 'a') + "ê"
  }

  /** Each datagram is decoded on its own, so a chunk boundary inside a
      character makes the very first decode fail, although the text and the
      header are well formed and every packet fits the buffer. */
  lemma SplitCharacterFails(id: string, from: Chat.Address)
    requires HeaderFits(id, Utf8.Encode(SplitCharacterText()))
    ensures PacketCount(|Utf8.Encode(SplitCharacterText())|) == 2
    ensures Reassemble(Delivered(Plain.Packets(id, Utf8.Encode(SplitCharacterText())), from)) == DecodeError(1)
  {
    var bytes := Utf8.Encode(SplitCharacterText());
    FirstPacketUndecodable(id);
    var inbox := Delivered(Plain.Packets(id, bytes), from);
    assert inbox[0] == Datagram(Plain.Packets(id, bytes)[0], from);
  }

  /** The first packet ends with a lone lead byte, so it does not decode. */
  lemma FirstPacketUndecodable(id: string)
    requires HeaderFits(id, Utf8.Encode(SplitCharacterText()))
    ensures PacketCount(|Utf8.Encode(SplitCharacterText())|) == 2
    ensures Utf8.Decode(Truncate(Plain.Packets(id, Utf8.Encode(SplitCharacterText()))[0])) == None
  {
    var letters := SplitCharacterBytes();
    var bytes := Utf8.Encode(SplitCharacterText());
    var header := Plain.Header(id, 0, 2);
    var p := Plain.Packets(id, bytes)[0];
    assert Truncate(p) == Utf8.Encode(header + letters) + [0xC3] by {
      assert p == Utf8.Encode(header) + Chunk(bytes, 0);
      Plain.PacketFits(id, bytes, 0);
      Utf8.EncodeAppend(header, letters);
    }
    Utf8.DecodeEncode(header + letters);
    Utf8.DecodeLoneLead(Utf8.Encode(header + letters), 0xC3);
  }

  /** The text's 897 bytes: the letters, then 0xC3 0xAA; the first chunk
      stops after 0xC3. */
  lemma SplitCharacterBytes() returns (letters: string)
    ensures var bytes := Utf8.Encode(SplitCharacterText());
            Utf8.IsAscii(letters) && |bytes| == 897 && PacketCount(897) == 2
            && Chunk(bytes, 0) == Utf8.Encode(letters) + [0xC3]
  {
    letters := seq(895, _ => 'a');
    assert SplitCharacterText() == letters + "ê";
    assert Utf8.IsAscii(letters);
    Utf8.EncodeAscii(letters);
    Utf8.EncodeAppend(letters, "ê");
    assert Utf8.Encode("ê") == [0xC3, 0xAA];
    var bytes := Utf8.Encode(SplitCharacterText());
    assert bytes == Utf8.Encode(letters) + [0xC3, 0xAA];
    assert PacketCount(897) == 2;
    assert bytes[..PayloadSize] == Utf8.Encode(letters) + [0xC3];
  }

  // ---------------------------------------------------------------------------
  // The loop as evidently intended: header fields split off the bytes, the
  // payloads joined, and the message decoded once at the end
  // ---------------------------------------------------------------------------

  /** The first n fields of bs, each ended by 0x7C, and what follows them. */
  function SplitFields(bs: seq<byte>, n: nat): (r: Option<(seq<seq<byte>>, seq<byte>)>)
    ensures r.Some? ==> |r.value.0| == n
    decreases n
  {
    if n == 0 then Some(([], bs))
    else match SplitFirst(bs, Bar)
      case None => None
      case Some((field, rest)) =>
        match SplitFields(rest, n - 1)
        case None => None
        case Some((fields, payload)) => Some(([field] + fields, payload))
  }

  /** The bytes of the flag "0". */
  const ZeroFlag: seq<byte> := [48]

  /** How far the intended loop gets with the header fields: the payload
      bytes of a whole message, a datagram without four fields, or an inbox
      that ends first. */
  datatype Collection = Collected(payload: seq<byte>, from: Chat.Address, consumed: nat) | Unframed(consumed: nat) | Waiting

  /** The intended loop from the i-th datagram on, with the payload bytes
      collected so far. */
  function CollectFrom(inbox: seq<Datagram>, i: nat, acc: seq<byte>): Collection
    decreases |inbox| - i
  {
    if i >= |inbox| then Waiting
    else match SplitFields(Truncate(inbox[i].data), 4)
      case None => Unframed(i + 1)
      case Some((fields, payload)) =>
        if fields[3] == ZeroFlag then CollectFrom(inbox, i + 1, acc + payload)
        else Collected(acc + payload, inbox[i].from, i + 1)
  }

  /** What the intended loop makes of the collected payload bytes when the
      last packet is in: the text, or an error if they do not decode. */
  function Finish(payload: seq<byte>, from: Chat.Address, consumed: nat): Outcome
  {
    match Utf8.Decode(payload)
    case None => DecodeError(consumed)
    case Some(text) => Message(text, from, consumed)
  }

  /** The intended reassembler: collect the payloads, then decode them once. */
  function ReassembleIntended(inbox: seq<Datagram>): Outcome
  {
    match CollectFrom(inbox, 0, [])
    case Waiting => Pending
    case Unframed(consumed) => MissingField(consumed)
    case Collected(payload, from, consumed) => Finish(payload, from, consumed)
  }

  /** The intended loop, written as the server's loop is. */
  method ReceiveIntended(inbox: seq<Datagram>) returns (outcome: Outcome)
    ensures outcome == ReassembleIntended(inbox)
  {
    var i := 0;
    var content: seq<byte> := [];
    while i < |inbox|
      invariant i <= |inbox|
      invariant CollectFrom(inbox, i, content) == CollectFrom(inbox, 0, [])
      decreases |inbox| - i
    {
      var data := Truncate(inbox[i].data);
      var clientAddress := inbox[i].from;
      i := i + 1;
      var header := SplitFields(data, 4);
      if header.None? {
        return MissingField(i);
      }
      var fields := header.value.0;
      content := content + header.value.1;
      if fields[3] != ZeroFlag {
        var message := Utf8.Decode(content);
        if message.None? {
          return DecodeError(i);
        }
        return Message(message.value, clientAddress, i);
      }
    }
    return Pending;
  }

  /** The encoded header is the encoded fields, each followed by 0x7C. */
  lemma EncodedHeader(id: string, num: nat, total: nat)
    ensures var d1, d2, d3 := Decimal(num), Decimal(total), Decimal(Plain.EndFlag(num, total));
            Utf8.Encode(Plain.Header(id, num, total))
            == Utf8.Encode(id) + [Bar] + Utf8.Encode(d1) + [Bar] + Utf8.Encode(d2) + [Bar] + Utf8.Encode(d3) + [Bar]
  {
    var d1, d2, d3 := Decimal(num), Decimal(total), Decimal(Plain.EndFlag(num, total));
    assert Utf8.Encode("|") == [Bar];
    Utf8.EncodeAppend(id, "|");
    Utf8.EncodeAppend(id + "|", d1);
    Utf8.EncodeAppend(id + "|" + d1, "|");
    Utf8.EncodeAppend(id + "|" + d1 + "|", d2);
    Utf8.EncodeAppend(id + "|" + d1 + "|" + d2, "|");
    Utf8.EncodeAppend(id + "|" + d1 + "|" + d2 + "|", d3);
    Utf8.EncodeAppend(id + "|" + d1 + "|" + d2 + "|" + d3, "|");
  }

  lemma NumeralFreeOfBar(n: nat)
    ensures Bar !in Utf8.Encode(Decimal(n))
  {
    Plain.DigitsFreeOfBar(Decimal(n));
    Utf8.BarInEncode(Decimal(n));
  }

  /** A field free of 0x7C, then 0x7C, then n - 1 more fields. */
  lemma SplitFieldsCons(field: seq<byte>, rest: seq<byte>, n: nat, fields: seq<seq<byte>>, payload: seq<byte>)
    requires Bar !in field && n > 0
    requires SplitFields(rest, n - 1) == Some((fields, payload))
    ensures SplitFields(field + [Bar] + rest, n) == Some(([field] + fields, payload))
  {
    SplitFirstAfter(field, rest, Bar);
  }

  /** Whatever the chunk holds, '|' bytes included, the four header fields
      come off packet k and the chunk is what is left. */
  lemma IntendedFields(id: string, num: nat, total: nat, chunk: seq<byte>)
    requires '|' !in id
    ensures var d1, d2, d3 := Decimal(num), Decimal(total), Decimal(Plain.EndFlag(num, total));
            SplitFields(Plain.Packet(id, num, total, chunk), 4)
            == Some(([Utf8.Encode(id), Utf8.Encode(d1), Utf8.Encode(d2), Utf8.Encode(d3)], chunk))
  {
    var d1, d2, d3 := Decimal(num), Decimal(total), Decimal(Plain.EndFlag(num, total));
    var e0, e1, e2, e3 := Utf8.Encode(id), Utf8.Encode(d1), Utf8.Encode(d2), Utf8.Encode(d3);
    Utf8.BarInEncode(id);
    NumeralFreeOfBar(num);
    NumeralFreeOfBar(total);
    NumeralFreeOfBar(Plain.EndFlag(num, total));
    PacketAsFields(id, num, total, chunk);
    FourFields(e0, e1, e2, e3, chunk);
  }

  lemma FourFields(e0: seq<byte>, e1: seq<byte>, e2: seq<byte>, e3: seq<byte>, rest: seq<byte>)
    requires Bar !in e0 && Bar !in e1 && Bar !in e2 && Bar !in e3
    ensures SplitFields(e0 + [Bar] + (e1 + [Bar] + (e2 + [Bar] + (e3 + [Bar] + rest))), 4)
            == Some(([e0, e1, e2, e3], rest))
  {
    var r2 := e3 + [Bar] + rest;
    var r1 := e2 + [Bar] + r2;
    var r0 := e1 + [Bar] + r1;
    SplitFieldsCons(e3, rest, 1, [], rest);
    SplitFieldsCons(e2, r2, 2, [e3] + [], rest);
    SplitFieldsCons(e1, r1, 3, [e2] + ([e3] + []), rest);
    SplitFieldsCons(e0, r0, 4, [e1] + ([e2] + ([e3] + [])), rest);
    assert [e0] + ([e1] + ([e2] + ([e3] + []))) == [e0, e1, e2, e3];
  }

  lemma PacketAsFields(id: string, num: nat, total: nat, chunk: seq<byte>)
    ensures var e0, e1, e2, e3 := Utf8.Encode(id), Utf8.Encode(Decimal(num)), Utf8.Encode(Decimal(total)),
                                  Utf8.Encode(Decimal(Plain.EndFlag(num, total)));
            Plain.Packet(id, num, total, chunk) == e0 + [Bar] + (e1 + [Bar] + (e2 + [Bar] + (e3 + [Bar] + chunk)))
  {
    EncodedHeader(id, num, total);
    Regroup(Utf8.Encode(id), Utf8.Encode(Decimal(num)), Utf8.Encode(Decimal(total)),
            Utf8.Encode(Decimal(Plain.EndFlag(num, total))), chunk, Bar);
  }

  /** The flag field is the bytes of "0" exactly on every packet but the last. */
  lemma FlagBytes(num: nat, total: nat)
    ensures Utf8.Encode(Decimal(Plain.EndFlag(num, total))) == ZeroFlag <==> num != total - 1
  {
    if num == total - 1 {
      assert Utf8.Encode(Decimal(1)) == [49];
    } else {
      assert Utf8.Encode(Decimal(0)) == [48];
    }
  }

  /** Packet k loses its four header fields and keeps its chunk; its flag
      field is "0" on every packet but the last. */
  lemma IntendedPacket(id: string, bytes: seq<byte>, k: nat)
    requires '|' !in id && HeaderFits(id, bytes) && k < PacketCount(|bytes|)
    ensures var h := SplitFields(Truncate(Plain.Packets(id, bytes)[k]), 4);
            h.Some? && h.value.1 == Chunk(bytes, k)
            && (h.value.0[3] == ZeroFlag <==> k != PacketCount(|bytes|) - 1)
  {
    var n := PacketCount(|bytes|);
    var p := Plain.Packets(id, bytes)[k];
    Plain.PacketFits(id, bytes, k);
    assert Truncate(p) == p;
    IntendedFields(id, k, n, Chunk(bytes, k));
    FlagBytes(k, n);
  }

  /** Datagrams k, k + 1, ... of the inbox have four fields and then chunks
      k, k + 1, ..., with the flag field "0" on all but the last chunk. */
  ghost predicate CarriesChunks(inbox: seq<Datagram>, chunks: seq<seq<byte>>, k: nat)
    decreases |chunks| - k
  {
    |chunks| <= |inbox|
    && (k < |chunks| ==> CarriesChunk(inbox[k], chunks[k], k == |chunks| - 1) && CarriesChunks(inbox, chunks, k + 1))
  }

  ghost predicate CarriesChunk(d: Datagram, chunk: seq<byte>, last: bool)
  {
    var h := SplitFields(Truncate(d.data), 4);
    h.Some? && h.value.1 == chunk && (h.value.0[3] == ZeroFlag <==> !last)
  }

  /** A datagram with flag "0" adds its chunk and the loop reads on. */
  lemma IntendedReadsOn(inbox: seq<Datagram>, k: nat, acc: seq<byte>, chunk: seq<byte>)
    requires k < |inbox| && CarriesChunk(inbox[k], chunk, false)
    ensures CollectFrom(inbox, k, acc) == CollectFrom(inbox, k + 1, acc + chunk)
  {
  }

  /** A datagram with another flag ends the loop. */
  lemma IntendedStops(inbox: seq<Datagram>, k: nat, acc: seq<byte>, chunk: seq<byte>)
    requires k < |inbox| && CarriesChunk(inbox[k], chunk, true)
    ensures CollectFrom(inbox, k, acc) == Collected(acc + chunk, inbox[k].from, k + 1)
  {
  }

  /** From datagram k on, an inbox that carries the chunks is read to the
      end of them, and the bytes decoded are acc and the chunks from k on. */
  lemma {:induction false} IntendedCarried(inbox: seq<Datagram>, chunks: seq<seq<byte>>, k: nat, acc: seq<byte>)
    requires CarriesChunks(inbox, chunks, k) && k < |chunks|
    ensures CollectFrom(inbox, k, acc) == Collected(acc + Flatten(chunks[k..]), inbox[|chunks| - 1].from, |chunks|)
    decreases |chunks| - k
  {
    FlattenFrom(chunks, k);
    if k < |chunks| - 1 {
      IntendedReadsOn(inbox, k, acc, chunks[k]);
      IntendedCarried(inbox, chunks, k + 1, acc + chunks[k]);
      assert acc + chunks[k] + Flatten(chunks[k + 1..]) == acc + Flatten(chunks[k..]);
    } else {
      IntendedStops(inbox, k, acc, chunks[k]);
    }
  }

  /** The first fragmenter's packets, delivered in order, carry its chunks. */
  lemma {:induction false} PacketsCarryChunks(id: string, bytes: seq<byte>, from: Chat.Address, rest: seq<Datagram>, k: nat)
    requires '|' !in id && HeaderFits(id, bytes)
    ensures CarriesChunks(Delivered(Plain.Packets(id, bytes), from) + rest, Chunks(bytes), k)
    decreases PacketCount(|bytes|) - k
  {
    var n := PacketCount(|bytes|);
    var ps := Plain.Packets(id, bytes);
    var inbox := Delivered(ps, from) + rest;
    if k < n {
      assert CarriesChunk(inbox[k], Chunks(bytes)[k], k == n - 1) by {
        assert inbox[k] == Datagram(ps[k], from);
        IntendedPacket(id, bytes, k);
      }
      PacketsCarryChunks(id, bytes, from, rest, k + 1);
    }
  }

  /** The corrected round trip: for any text at all, '|' and characters
      across chunk boundaries included, the packets of the first fragmenter
      are read back as exactly that text from that address. */
  lemma IntendedRoundTrip(id: string, text: string, from: Chat.Address, rest: seq<Datagram>)
    requires text != ""
    requires '|' !in id && HeaderFits(id, Utf8.Encode(text))
    ensures var ps := Plain.Packets(id, Utf8.Encode(text));
            ReassembleIntended(Delivered(ps, from) + rest) == Message(text, from, |ps|)
  {
    var bytes := Utf8.Encode(text);
    var ps := Plain.Packets(id, bytes);
    var inbox := Delivered(ps, from) + rest;
    var cs := Chunks(bytes);
    assert |bytes| >= |text| > 0;
    PacketsCarryChunks(id, bytes, from, rest, 0);
    IntendedCarried(inbox, cs, 0, []);
    assert inbox[|cs| - 1].from == from;
    assert [] + Flatten(cs[0..]) == bytes by {
      assert cs[0..] == cs;
      ChunksCover(bytes);
    }
    Utf8.DecodeEncode(text);
  }
}
