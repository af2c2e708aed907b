/** The chat room of the server: the command tests and the texts it sends,
    and one step of its dispatch, the if/elif chain that decides what a
    reassembled message from one address does to the room and who hears
    what. Sending is left to the caller: a step returns the list of
    (address, text) pairs the server hands to send_message, in order. */
module Chat {
  import opened Text

  /** A UDP peer as Python's socket module reports it: (host, port). */
  datatype Address = Address(host: string, port: nat)

  /** One call of send_message: the text and where it goes. */
  datatype Outgoing = Outgoing(to: Address, text: string)

  predicate Distinct<T(==)>(s: seq<T>)
  {
    forall i, j :: 0 <= i < j < |s| ==> s[i] != s[j]
  }

  /** The `clients` dict. A Python dict iterates in insertion order, so the
      room keeps its addresses in that order next to the map of usernames. */
  datatype Room = Room(order: seq<Address>, names: map<Address, string>)
  {
    /** Every key once, in order, and no address that is not a key. */
    ghost predicate Valid()
    {
      Distinct(order) && (forall a :: a in order <==> a in names)
    }
  }

  /** `clients = {}`. */
  function EmptyRoom(): (room: Room)
    ensures room.Valid() && |room.order| == 0
  {
    Room([], map[])
  }

  /** s with every occurrence of a removed, the rest in their order. */
  function Without(s: seq<Address>, a: Address): (r: seq<Address>)
    ensures forall x :: x in r <==> x in s && x != a
    ensures Distinct(s) ==> Distinct(r)
    ensures |r| <= |s|
    decreases |s|
  {
    if |s| == 0 then []
    else if s[0] == a then Without(s[1..], a)
    else
      var rest := Without(s[1..], a);
      assert Distinct(s) ==> s[0] !in s[1..] && Distinct(s[1..]);
      [s[0]] + rest
  }

  /** In a list without repetitions, removing the element at i leaves the
      elements before it and the elements after it. */
  lemma {:induction false} WithoutAt(s: seq<Address>, i: nat)
    requires Distinct(s) && i < |s|
    ensures Without(s, s[i]) == s[..i] + s[i + 1..]
    decreases i
  {
    if i == 0 {
      assert s[0] !in s[1..];
      WithoutAbsent(s[1..], s[0]);
    } else {
      assert Distinct(s[1..]);
      assert s[1..][i - 1] == s[i];
      WithoutAt(s[1..], i - 1);
      assert s[1..][..i - 1] == s[1..i];
      assert s[1..][i..] == s[i + 1..];
      assert [s[0]] + s[1..i] == s[..i];
    }
  }

  /** Removing an address that is not there changes nothing. */
  lemma {:induction false} WithoutAbsent(s: seq<Address>, a: Address)
    requires a !in s
    ensures Without(s, a) == s
    decreases |s|
  {
    if |s| > 0 {
      WithoutAbsent(s[1..], a);
      assert [s[0]] + s[1..] == s;
    }
  }

  /** `clients[a] = name`: a new key goes to the end of the order, an
      existing key keeps its place. */
  function Insert(room: Room, a: Address, name: string): Room
  {
    if a in room.names then Room(room.order, room.names[a := name])
    else Room(room.order + [a], room.names[a := name])
  }

  /** `del clients[a]`. */
  function Delete(room: Room, a: Address): Room
  {
    Room(Without(room.order, a), room.names - {a})
  }

  lemma InsertValid(room: Room, a: Address, name: string)
    requires room.Valid()
    ensures Insert(room, a, name).Valid()
    ensures Insert(room, a, name).names == room.names[a := name]
  {
  }

  lemma DeleteValid(room: Room, a: Address)
    requires room.Valid()
    ensures Delete(room, a).Valid()
    ensures Delete(room, a).names == room.names - {a}
  {
  }

  // ---------------------------------------------------------------------------
  // Commands
  // ---------------------------------------------------------------------------

  const ConnectPrefix: string := "hi, meu nome eh "

  /** message[0:len(prefix)] == prefix. The slice stops at the end of a
      shorter message, which therefore is never a connect command. */
  function IsConnectCommand(message: string): (r: bool)
    ensures r <==> |ConnectPrefix| <= |message| && message[..|ConnectPrefix|] == ConnectPrefix
  {
    Slice(message, 0, |ConnectPrefix|) == ConnectPrefix
  }

  /** message[len(prefix):len(message)]: what follows the prefix, or nothing
      when the message is no longer than the prefix. */
  function CatchUsername(message: string): (name: string)
    ensures |message| <= |ConnectPrefix| ==> name == ""
    ensures |ConnectPrefix| <= |message| ==> message == message[..|ConnectPrefix|] + name
  {
    Slice(message, |ConnectPrefix|, |message|)
  }

  predicate IsExitCommand(message: string)
  {
    message == "bye"
  }

  predicate IsClientInRoom(a: Address, room: Room)
  {
    a in room.names
  }

  /** catch_username undoes the prefix: a connect command carrying any name
      gives back that name. */
  lemma ConnectRoundTrip(name: string)
    ensures IsConnectCommand(ConnectPrefix + name)
    ensures CatchUsername(ConnectPrefix + name) == name
  {
    assert (ConnectPrefix + name)[..|ConnectPrefix|] == ConnectPrefix;
    assert (ConnectPrefix + name)[|ConnectPrefix|..] == name;
  }

  /** A message is a connect command exactly when it is the prefix followed
      by the name catch_username takes from it. */
  lemma ConnectCommandIff(message: string)
    ensures IsConnectCommand(message) <==> message == ConnectPrefix + CatchUsername(message)
  {
    if message == ConnectPrefix + CatchUsername(message) {
      ConnectRoundTrip(CatchUsername(message));
    }
  }

  /** "bye" is not a connect command, and a connect command is never "bye". */
  lemma ExitIsNotConnect(message: string)
    ensures IsExitCommand(message) ==> !IsConnectCommand(message)
  {
  }

  // ---------------------------------------------------------------------------
  // The texts the server sends
  // ---------------------------------------------------------------------------

  function JoinNotice(user: string): string
  {
    "<" + user + "> foi conectado a sala"
  }

  function LeaveNotice(user: string): string
  {
    "<" + user + "> saiu da sala"
  }

  const Connected: string := "conectado"

  /** The instructions, written around the connect command they quote. */
  const NotConnected: string := InstructionsLead + (ConnectPrefix + Placeholder) + "\""

  const InstructionsLead: string := "você não está conectado.\npara conectar digite o seguinte comando: \""

  const Placeholder: string := "<NOME_DE_USUARIO>"

  const Disconnected: string := "você foi desconectado"

  /** connected_message(). */
  function ConnectedMessage(): string
  {
    Connected
  }

  /** not_connected_message(): the instructions an address outside the room gets. */
  function NotConnectedMessage(): string
  {
    NotConnected
  }

  /** disconnected_message(). */
  function DisconnectedMessage(): string
  {
    Disconnected
  }

  /** The instructions quote a connect command: between their last two
      quotation marks stand the prefix and a placeholder name, which
      catch_username would take as the name. */
  lemma InstructionsQuoteCommand()
    ensures var s := NotConnectedMessage();
            |s| == 101 && s[66] == '"' && s[100] == '"'
            && IsConnectCommand(s[67..100]) && CatchUsername(s[67..100]) == Placeholder
  {
    ThreeParts(InstructionsLead, ConnectPrefix + Placeholder, "\"");
    ConnectRoundTrip(Placeholder);
  }

  /** The user's name can be read back from either notice: it sits between
      the opening '<' and the '>' that the fixed tail begins with. */
  lemma NoticesName(user: string)
    ensures var j := JoinNotice(user);
            j[0] == '<' && j[1..|user| + 1] == user && j[|user| + 1..] == "> foi conectado a sala"
    ensures var l := LeaveNotice(user);
            l[0] == '<' && l[1..|user| + 1] == user && l[|user| + 1..] == "> saiu da sala"
  {
  }

  /** The clock reading datetime.now() gives. */
  datatype Moment = Moment(year: nat, month: nat, day: nat, hour: nat, minute: nat, second: nat)
  {
    predicate Valid()
    {
      1 <= year <= 9999 && 1 <= month <= 12 && 1 <= day <= 31
      && hour < 24 && minute < 60 && second < 60
    }
  }

  /** A number below 10^w written with exactly w digits, zero-padded. */
  function Padded(n: nat, w: nat): (s: string)
    ensures |s| == w
    ensures AllDigits(s)
    decreases w
  {
    if w == 0 then "" else Padded(n / 10, w - 1) + [DigitChar(n % 10)]
  }

  /** Reading a padded numeral gives the number back when it fits the width. */
  lemma {:induction false} PaddedInverse(n: nat, w: nat)
    requires n < Pow10(w)
    ensures ParseDecimal(Padded(n, w)) == n
    decreases w
  {
    if w > 0 {
      var s := Padded(n, w);
      assert s[..|s| - 1] == Padded(n / 10, w - 1);
      PaddedInverse(n / 10, w - 1);
    }
  }

  function Pow10(w: nat): nat
  {
    if w == 0 then 1 else 10 * Pow10(w - 1)
  }

  /** strftime("%H:%M:%S %d/%m/%Y"). */
  function Timestamp(now: Moment): string
  {
    Padded(now.hour, 2) + ":" + Padded(now.minute, 2) + ":" + Padded(now.second, 2) + " "
    + Padded(now.day, 2) + "/" + Padded(now.month, 2) + "/" + Padded(now.year, 4)
  }

  /** Where each field of the timestamp sits. */
  lemma TimestampLayout(now: Moment)
    ensures var t := Timestamp(now);
            |t| == 19
            && t[2] == ':' && t[5] == ':' && t[8] == ' ' && t[11] == '/' && t[14] == '/'
            && t[0..2] == Padded(now.hour, 2) && t[3..5] == Padded(now.minute, 2)
            && t[6..8] == Padded(now.second, 2) && t[9..11] == Padded(now.day, 2)
            && t[12..14] == Padded(now.month, 2) && t[15..19] == Padded(now.year, 4)
  {
    var clock := Padded(now.hour, 2) + ":" + Padded(now.minute, 2) + ":" + Padded(now.second, 2);
    var date := Padded(now.day, 2) + "/" + Padded(now.month, 2) + "/" + Padded(now.year, 4);
    assert Timestamp(now) == clock + " " + date;
    ThreeParts(clock, " ", date);
    assert |clock| == 8 && |date| == 10;
    assert clock[0..2] == Padded(now.hour, 2) && clock[3..5] == Padded(now.minute, 2)
           && clock[6..8] == Padded(now.second, 2);
    assert date[0..2] == Padded(now.day, 2) && date[3..5] == Padded(now.month, 2)
           && date[6..10] == Padded(now.year, 4);
  }

  /** The timestamp is 19 characters, and each field reads back as the
      reading of the clock it was written from. */
  lemma TimestampFields(now: Moment)
    requires now.Valid()
    ensures var t := Timestamp(now);
            |t| == 19
            && t[2] == ':' && t[5] == ':' && t[8] == ' ' && t[11] == '/' && t[14] == '/'
            && ParseDecimal(t[0..2]) == now.hour && ParseDecimal(t[3..5]) == now.minute
            && ParseDecimal(t[6..8]) == now.second && ParseDecimal(t[9..11]) == now.day
            && ParseDecimal(t[12..14]) == now.month && ParseDecimal(t[15..19]) == now.year
  {
    TimestampLayout(now);
    assert Pow10(2) == 100 && Pow10(4) == 10000;
    PaddedInverse(now.hour, 2);
    PaddedInverse(now.minute, 2);
    PaddedInverse(now.second, 2);
    PaddedInverse(now.day, 2);
    PaddedInverse(now.month, 2);
    PaddedInverse(now.year, 4);
  }

  /** f"{address[0]}:{address[1]}". */
  function AddressText(a: Address): string
  {
    a.host + ":" + Decimal(a.port)
  }

  /** The sender's address and name, the text itself, and the time. The
      lookup clients[client_address] raises for an address not in the room. */
  function FormatMessage(message: string, sender: Address, room: Room, now: Moment): string
    requires sender in room.names
  {
    AddressText(sender) + "/~" + room.names[sender] + ": " + message + " " + Timestamp(now)
  }

  /** A formatted message is a sender line, then the text unchanged, then a
      blank and the timestamp. */
  lemma FormatMessageParts(message: string, sender: Address, room: Room, now: Moment)
    requires sender in room.names
    ensures var f := FormatMessage(message, sender, room, now);
            var head := AddressText(sender) + "/~" + room.names[sender] + ": ";
            var tail := " " + Timestamp(now);
            |f| == |head| + |message| + |tail|
            && f[..|head|] == head
            && f[|head|..|head| + |message|] == message
            && f[|head| + |message|..] == tail
  {
    var head := AddressText(sender) + "/~" + room.names[sender] + ": ";
    var tail := " " + Timestamp(now);
    assert FormatMessage(message, sender, room, now) == head + message + tail;
    ThreeParts(head, message, tail);
  }

  // ---------------------------------------------------------------------------
  // Fan-out and one step of the room
  // ---------------------------------------------------------------------------

  /** One text for each address, in order. */
  function FanOut(clients: seq<Address>, text: string): (out: seq<Outgoing>)
    ensures |out| == |clients|
    ensures forall i :: 0 <= i < |out| ==> out[i] == Outgoing(clients[i], text)
    decreases |clients|
  {
    if |clients| == 0 then [] else [Outgoing(clients[0], text)] + FanOut(clients[1..], text)
  }

  function Recipients(out: seq<Outgoing>): (r: seq<Address>)
    ensures |r| == |out| && forall i :: 0 <= i < |out| ==> r[i] == out[i].to
  {
    seq(|out|, i requires 0 <= i < |out| => out[i].to)
  }

  /** notify_every_client: a loop over the room in its order. */
  method NotifyEveryClient(room: Room, text: string) returns (out: seq<Outgoing>)
    ensures out == FanOut(room.order, text)
  {
    out := [];
    for i := 0 to |room.order|
      invariant out == FanOut(room.order[..i], text)
    {
      FanOutAppend(room.order[..i], room.order[i], text);
      assert room.order[..i + 1] == room.order[..i] + [room.order[i]];
      out := out + [Outgoing(room.order[i], text)];
    }
    assert room.order[..|room.order|] == room.order;
  }

  lemma FanOutAppend(clients: seq<Address>, a: Address, text: string)
    ensures FanOut(clients + [a], text) == FanOut(clients, text) + [Outgoing(a, text)]
  {
  }

  /** Everybody in the room hears the text, once each, and nobody else does. */
  lemma FanOutReachesRoom(room: Room, text: string)
    requires room.Valid()
    ensures var out := FanOut(room.order, text);
            Recipients(out) == room.order
            && (forall a :: a in Recipients(out) <==> a in room.names)
            && Distinct(Recipients(out))
            && forall o :: o in out ==> o.text == text
  {
  }

  /** The branch a step takes, in the order the if/elif chain tests them. */
  datatype Branch = Join | Refuse | Leave | Broadcast

  function Classify(room: Room, sender: Address, message: string): Branch
  {
    if !IsClientInRoom(sender, room) && IsConnectCommand(message) then Join
    else if !IsClientInRoom(sender, room) && !IsConnectCommand(message) then Refuse
    else if IsExitCommand(message) then Leave
    else Broadcast
  }

  /** One message from sender: the room afterwards and what is sent, in order. */
  function Step(room: Room, sender: Address, message: string, now: Moment): (Room, seq<Outgoing>)
  {
    match Classify(room, sender, message)
    case Join =>
      var username := CatchUsername(message);
      (Insert(room, sender, username),
       [Outgoing(sender, ConnectedMessage())] + FanOut(room.order, JoinNotice(username)))
    case Refuse =>
      (room, [Outgoing(sender, NotConnectedMessage())])
    case Leave =>
      var user := room.names[sender];
      var rest := Delete(room, sender);
      (rest, [Outgoing(sender, DisconnectedMessage())] + FanOut(rest.order, LeaveNotice(user)))
    case Broadcast =>
      (room, FanOut(room.order, FormatMessage(message, sender, room, now)))
  }

  /** Which branch runs: an address outside the room joins with a connect
      command and is refused otherwise; an address in the room leaves with
      "bye" and broadcasts anything else, a second connect command included. */
  lemma ClassifyCases(room: Room, sender: Address, message: string)
    ensures Classify(room, sender, message) == Join
            <==> sender !in room.names && IsConnectCommand(message)
    ensures Classify(room, sender, message) == Refuse
            <==> sender !in room.names && !IsConnectCommand(message)
    ensures Classify(room, sender, message) == Leave
            <==> sender in room.names && message == "bye"
    ensures Classify(room, sender, message) == Broadcast
            <==> sender in room.names && message != "bye"
  {
  }

  /** Every step keeps the room well formed. */
  lemma StepValid(room: Room, sender: Address, message: string, now: Moment)
    requires room.Valid()
    ensures Step(room, sender, message, now).0.Valid()
  {
    match Classify(room, sender, message)
    case Join => InsertValid(room, sender, CatchUsername(message));
    case Refuse =>
    case Leave => DeleteValid(room, sender);
    case Broadcast =>
  }

  /** Connecting: "conectado" to the newcomer first, then the join notice to
      every client already in the room and to nobody else, and only then the
      newcomer is added at the end, every other entry unchanged. */
  lemma JoinStep(room: Room, sender: Address, name: string, now: Moment)
    requires room.Valid() && sender !in room.names
    ensures var (room', out) := Step(room, sender, ConnectPrefix + name, now);
            room'.names == room.names[sender := name]
            && room'.order == room.order + [sender]
            && out[0] == Outgoing(sender, ConnectedMessage())
            && out[1..] == FanOut(room.order, JoinNotice(name))
            && sender !in Recipients(out[1..])
  {
    ConnectRoundTrip(name);
  }

  /** Anything else from outside the room: only the instructions, only to
      the sender, and the room stays as it was. */
  lemma RefuseStep(room: Room, sender: Address, message: string, now: Moment)
    requires sender !in room.names && !IsConnectCommand(message)
    ensures Step(room, sender, message, now) == (room, [Outgoing(sender, NotConnectedMessage())])
  {
  }

  /** "bye" from a client in the room: the lookup of its name succeeds,
      exactly its entry goes, the others keep their order, it hears
      "você foi desconectado", and the notice goes to the rest of the room
      and not to it. */
  lemma LeaveStep(room: Room, sender: Address, i: nat, now: Moment)
    requires room.Valid() && i < |room.order| && room.order[i] == sender
    ensures sender in room.names
    ensures var (room', out) := Step(room, sender, "bye", now);
            room'.names == room.names - {sender}
            && room'.order == room.order[..i] + room.order[i + 1..]
            && out[0] == Outgoing(sender, DisconnectedMessage())
            && out[1..] == FanOut(room'.order, LeaveNotice(room.names[sender]))
            && sender !in Recipients(out[1..])
  {
    WithoutAt(room.order, i);
  }

  /** Any other text from a client in the room, a second connect command
      included, goes to everyone in the room, the sender too, formatted with
      the sender's address and name; the room stays as it was. */
  lemma BroadcastStep(room: Room, sender: Address, message: string, now: Moment)
    requires room.Valid() && sender in room.names && message != "bye"
    ensures var (room', out) := Step(room, sender, message, now);
            room' == room
            && out == FanOut(room.order, FormatMessage(message, sender, room, now))
            && sender in Recipients(out)
  {
    FanOutReachesRoom(room, FormatMessage(message, sender, room, now));
  }

  /** After "bye" the address is outside the room again: its next message,
      unless it connects anew, only brings back the instructions. */
  lemma LeaveThenRefused(room: Room, sender: Address, message: string, now: Moment, later: Moment)
    requires room.Valid() && sender in room.names && !IsConnectCommand(message)
    ensures var room' := Step(room, sender, "bye", now).0;
            Step(room', sender, message, later) == (room', [Outgoing(sender, NotConnectedMessage())])
  {
  }

  /** Reconnecting after "bye" is a fresh join: the name may change, and the
      address goes to the end of the order. */
  lemma LeaveThenRejoin(room: Room, sender: Address, name: string, now: Moment, later: Moment)
    requires room.Valid() && sender in room.names
    ensures var room' := Step(room, sender, "bye", now).0;
            var room'' := Step(room', sender, ConnectPrefix + name, later).0;
            room''.names == (room.names - {sender})[sender := name]
            && room''.order == room'.order + [sender]
  {
    DeleteValid(room, sender);
    JoinStep(Step(room, sender, "bye", now).0, sender, name, later);
  }
}
