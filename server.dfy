/** The server itself: the dict `clients` it keeps across messages, one turn
    of its `while True` loop (read one message, dispatch it), and
    send_message, which fragments each text and sends the packets to one
    address. The socket is the caller's: a turn reads from a list of
    datagrams and returns what it sends. */
module Server {
  import opened Text
  import Utf8
  import Chat
  import Plain = Fragmentation
  import Reassembly

  /** SERVER_IP and SERVER_PORT, the address replies come from. */
  const ServerAddress: Chat.Address := Chat.Address("127.0.0.1", 12345)

  /** One sendto: the packet and its destination. */
  datatype Wire = Wire(to: Chat.Address, packet: seq<byte>)

  /** send_message: the text's packets, under the id the fragmenter drew,
      all to one address, in order. */
  function Transmission(message: string, to: Chat.Address, id: string): seq<Wire>
  {
    var ps := Plain.Packets(id, Utf8.Encode(message));
    seq(|ps|, k requires 0 <= k < |ps| => Wire(to, ps[k]))
  }

  /** Every send_message of a turn, one after the other; the i-th draws ids[i]. */
  function Transmissions(out: seq<Chat.Outgoing>, ids: seq<string>): seq<Wire>
    requires |ids| == |out|
    decreases |out|
  {
    if |out| == 0 then []
    else Transmission(out[0].text, out[0].to, ids[0]) + Transmissions(out[1..], ids[1..])
  }

  /** The list comprehension of send_message over the fragmenter's packets. */
  method SendMessage(message: string, to: Chat.Address, id: string) returns (sent: seq<Wire>)
    ensures sent == Transmission(message, to, id)
  {
    var fragments := Plain.Fragment(id, message);
    sent := [];
    for k := 0 to |fragments|
      invariant |sent| == k
      invariant forall j :: 0 <= j < k ==> sent[j] == Wire(to, fragments[j])
    {
      sent := sent + [Wire(to, fragments[k])];
    }
  }

  /** All the sending of one turn, text by text in the order of out. */
  method Transmit(out: seq<Chat.Outgoing>, ids: seq<string>) returns (sent: seq<Wire>)
    requires |ids| == |out|
    ensures sent == Transmissions(out, ids)
  {
    sent := [];
    for i := 0 to |out|
      invariant sent == Transmissions(out[..i], ids[..i])
    {
      var wires := SendMessage(out[i].text, out[i].to, ids[i]);
      TransmissionsSnoc(out, ids, i);
      sent := sent + wires;
    }
    assert out[..|out|] == out && ids[..|ids|] == ids;
  }

  /** One more text at the end of a turn adds its packets at the end. */
  lemma TransmissionsSnoc(out: seq<Chat.Outgoing>, ids: seq<string>, i: nat)
    requires |ids| == |out| && i < |out|
    ensures Transmissions(out[..i + 1], ids[..i + 1])
            == Transmissions(out[..i], ids[..i]) + Transmission(out[i].text, out[i].to, ids[i])
  {
    assert out[..i + 1] == out[..i] + [out[i]];
    assert ids[..i + 1] == ids[..i] + [ids[i]];
    TransmissionsAppend(out[..i], ids[..i], [out[i]], [ids[i]]);
  }

  /** The packets of two turns' texts, one after the other. */
  lemma {:induction false} TransmissionsAppend(a: seq<Chat.Outgoing>, ia: seq<string>, b: seq<Chat.Outgoing>, ib: seq<string>)
    requires |ia| == |a| && |ib| == |b|
    ensures Transmissions(a + b, ia + ib) == Transmissions(a, ia) + Transmissions(b, ib)
    decreases |a|
  {
    if |a| == 0 {
      assert a + b == b && ia + ib == ib;
    } else {
      assert (a + b)[1..] == a[1..] + b && (ia + ib)[1..] == ia[1..] + ib;
      TransmissionsAppend(a[1..], ia[1..], b, ib);
    }
  }

  /** Every packet goes to one of the addresses the room step chose, and a
      turn that sends no text sends no packet. */
  lemma {:induction false} TransmissionsGoToRecipients(out: seq<Chat.Outgoing>, ids: seq<string>)
    requires |ids| == |out|
    ensures forall w :: w in Transmissions(out, ids) ==> w.to in Chat.Recipients(out)
    ensures |out| == 0 ==> Transmissions(out, ids) == []
    decreases |out|
  {
    if |out| > 0 {
      TransmissionsGoToRecipients(out[1..], ids[1..]);
      var head := Transmission(out[0].text, out[0].to, ids[0]);
      forall w | w in Transmissions(out, ids) ensures w.to in Chat.Recipients(out) {
        if w in head {
          var k :| 0 <= k < |head| && head[k] == w;
          assert Chat.Recipients(out)[0] == out[0].to;
        } else {
          assert w in Transmissions(out[1..], ids[1..]);
          var j :| 0 <= j < |out[1..]| && Chat.Recipients(out[1..])[j] == w.to;
          assert Chat.Recipients(out)[j + 1] == w.to;
        }
      }
    }
  }

  /** What the server sends one address would be read back, in order, by
      the corrected reassembler as exactly that text coming from the server.
      The client prints datagrams as they arrive; this is about the packets. */
  lemma TransmissionReadBack(message: string, to: Chat.Address, id: string, rest: seq<Reassembly.Datagram>)
    requires message != ""
    requires '|' !in id && Reassembly.HeaderFits(id, Utf8.Encode(message))
    ensures var ws := Transmission(message, to, id);
            var arrived := seq(|ws|, k requires 0 <= k < |ws| => Reassembly.Datagram(ws[k].packet, ServerAddress));
            (forall w :: w in ws ==> w.to == to)
            && Reassembly.ReassembleIntended(arrived + rest) == Reassembly.Message(message, ServerAddress, |ws|)
  {
    var ps := Plain.Packets(id, Utf8.Encode(message));
    var ws := Transmission(message, to, id);
    var arrived := seq(|ws|, k requires 0 <= k < |ws| => Reassembly.Datagram(ws[k].packet, ServerAddress));
    assert arrived == Reassembly.Delivered(ps, ServerAddress);
    Reassembly.IntendedRoundTrip(id, message, ServerAddress, rest);
  }

  /** The server between two messages: who is in the room. */
  class ChatServer {
    var room: Chat.Room

    ghost predicate Valid()
      reads this
    {
      room.Valid()
    }

    /** clients = {}. */
    constructor ()
      ensures room == Chat.EmptyRoom() && Valid()
    {
      room := Chat.EmptyRoom();
    }

    /** The if/elif chain after a message is reassembled: it updates the
        room in place and returns the texts to send, in order. */
    method Dispatch(sender: Chat.Address, message: string, now: Chat.Moment) returns (out: seq<Chat.Outgoing>)
      requires Valid()
      modifies this
      ensures (room, out) == Chat.Step(old(room), sender, message, now)
      ensures Valid()
    {
      Chat.StepValid(room, sender, message, now);
      if !Chat.IsClientInRoom(sender, room) && Chat.IsConnectCommand(message) {
        var username := Chat.CatchUsername(message);
        var notices := Chat.NotifyEveryClient(room, Chat.JoinNotice(username));
        out := [Chat.Outgoing(sender, Chat.ConnectedMessage())] + notices;
        room := Chat.Insert(room, sender, username);
      } else if !Chat.IsClientInRoom(sender, room) && !Chat.IsConnectCommand(message) {
        out := [Chat.Outgoing(sender, Chat.NotConnectedMessage())];
      } else if Chat.IsExitCommand(message) {
        var disconnectedUser := room.names[sender];
        room := Chat.Delete(room, sender);
        var notices := Chat.NotifyEveryClient(room, Chat.LeaveNotice(disconnectedUser));
        out := [Chat.Outgoing(sender, Chat.DisconnectedMessage())] + notices;
      } else {
        var formatted := Chat.FormatMessage(message, sender, room, now);
        out := Chat.NotifyEveryClient(room, formatted);
      }
    }

    /** One turn of the loop: read datagrams until a message is complete,
        then dispatch it. While the message is incomplete, or when a
        datagram cannot be read, nothing is dispatched and the room stays
        as it was. */
    method ServeOnce(inbox: seq<Reassembly.Datagram>, now: Chat.Moment) returns (outcome: Reassembly.Outcome, out: seq<Chat.Outgoing>)
      requires Valid()
      modifies this
      ensures outcome == Reassembly.ReassembleIntended(inbox)
      ensures outcome.Message? ==> (room, out) == Chat.Step(old(room), outcome.sender, outcome.text, now)
      ensures !outcome.Message? ==> room == old(room) && out == []
      ensures Valid()
    {
      outcome := Reassembly.ReceiveIntended(inbox);
      if outcome.Message? {
        out := Dispatch(outcome.sender, outcome.text, now);
      } else {
        out := [];
      }
    }

    /** The same turn with the reassembly loop as written: the server's own
        loop, exits and dispatch included. */
    method ServeOnceAsWritten(inbox: seq<Reassembly.Datagram>, now: Chat.Moment) returns (outcome: Reassembly.Outcome, out: seq<Chat.Outgoing>)
      requires Valid()
      modifies this
      ensures outcome == Reassembly.Reassemble(inbox)
      ensures outcome.Message? ==> (room, out) == Chat.Step(old(room), outcome.sender, outcome.text, now)
      ensures !outcome.Message? ==> room == old(room) && out == []
      ensures Valid()
    {
      outcome := Reassembly.Receive(inbox);
      if outcome.Message? {
        out := Dispatch(outcome.sender, outcome.text, now);
      } else {
        out := [];
      }
    }
  }
}
