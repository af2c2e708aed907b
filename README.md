# UDP chat room: fragmentation, reassembly and room dispatch

This project models the core of a small UDP chat server written in Python,
and proves properties of that model. Three parts are modelled:

- The fragmenter turns a message into datagrams `<id>|<seq>|<total>|<flag>|<chunk>`.
  The message's UTF-8 bytes are cut into chunks of at most 896 bytes, because a
  1024-byte buffer keeps 128 bytes for the header.
- A second version of the fragmenter writes the CRC-32 of header and chunk in
  front of each datagram: `<crc>|<id>|<seq>|<total>|<flag>|<chunk>`.
- The server:
  - reads datagrams until one has a flag other than "0";
  - joins field 4 of each into the message;
  - then applies an if/elif chain to the room of connected clients: join, refuse, leave or broadcast;
  - sends every reply through the fragmenter, to one address or to every client in the room.

Modules:

- `Text` — Python behaviour the code relies on:
  - `str(n)` as `Decimal`;
  - `s.split(d)` as `Split`;
  - slicing as `Slice`;
  - joining a list of pieces as `Flatten`.
- `Utf8` — `str.encode('utf-8')` and strict `bytes.decode()`, as in Table 3-7
  of chapter 3 of the Unicode Standard.
- `Crc32` — the CRC-32 of ISO 3309 (section 8 of RFC 1952), computed bit by bit.
- `Chunking` — the constants 1024, 128 and 896, the packet count, and the chunks.
- `Fragmentation` — the first fragmenter. The server imports this one.
- `ChecksumFragmentation` — the second fragmenter, with its checksum field.
- `Chat` — the `clients` dict, the command tests, the reply texts, the timestamp,
  the fan-out of `notify_every_client`, and one step of the room.
- `Reassembly` — the receive loop of the server:
  - as written;
  - the two inputs it does not read back;
  - the corrected loop, with its round trip proved.
- `Server` — `send_message`, plus a `ChatServer` class that holds the room.
  It performs one turn of the `while True` loop: receive, then dispatch.

The fragmenters' `Fragment` methods are proved equal to the specification
functions `Packets`. The server's methods are proved equal to `Chat.Step`, and
the receive loops to `Reassembly.Reassemble` (as written) and
`Reassembly.ReassembleIntended` (corrected). The properties of those functions are proved
as lemmas.

External inputs become parameters:

- the file content (the fragmenter's input);
- the UUID, as an `id` string;
- `datetime.now()`, as a `Moment`;
- `zlib.crc32`, as `crc` in `ChecksumFragmentation`;
- the socket, as the list of datagrams still to be read and the list of
  `(address, text)` pairs a step sends.

## Model

In the table, "a bar" is the delimiter character, the vertical line (byte 0x7C).

| member | source | states |
|---|---|---|
| Chunking.RangeLength | Fragmentation.py:49 | defines how many values `range(start, stop, step)` yields: none when start is at or past stop, else one more than from start + step |
| Chunking.Chunk | Fragmentation.py:52 | defines chunk k as the slice `data[k*896 : k*896 + 896]`, cut short at the end of the data as Python's slice is |
| Chunking.Chunks | Fragmentation.py:49-52 | defines the chunks as chunk 0 to the last, one per packet, in loop order |
| Chunking.PacketCount | Fragmentation.py:36 | `math.ceil(file_size / 896)`: the least count of 896-byte chunks that holds the bytes; zero exactly when there are no bytes |
| Chunking.IterationBound | Fragmentation.py:49 | the k-th index of `range(0, file_size, 896)` lies inside the data exactly when k is below the packet count |
| Chunking.LoopRunsPacketCount | Fragmentation.py:49 | the for loop over `range(0, file_size, 896)` runs exactly packet-count times |
| Chunking.ChunkSizes | Fragmentation.py:49-52 | every chunk holds 1 to 896 bytes; every chunk but the last holds exactly 896 |
| Chunking.ChunksCover | Fragmentation.py:49-52 | the chunks, concatenated in loop order, are the message bytes |
| Fragmentation.EndFlag | Fragmentation.py:55-60 | defines the end flag: 1 on the packet numbered total - 1, 0 on every other |
| Fragmentation.Header | Fragmentation.py:64 | defines the header as the id, the packet number, the total and the flag, each followed by a bar |
| Fragmentation.Packet | Fragmentation.py:67 | defines a packet as the UTF-8 bytes of its header followed by its chunk |
| Fragmentation.Packets | Fragmentation.py:49-70 | defines the packet list: one packet per chunk, packet k numbered k and carrying chunk k, all under one id and one total |
| Fragmentation.Fragment | Fragmentation.py:26-76 | the loop returns `Packets(id, encode(content))`, one packet per chunk; the empty message gives no packets |
| Fragmentation.PacketsEmpty | Fragmentation.py:31-32 | the packet list is empty exactly when the content is empty |
| Fragmentation.PacketsCount | Fragmentation.py:36-49 | as many packets as `math.ceil(file_size / 896)`, which is also the number of loop iterations |
| Fragmentation.PacketLayout | Fragmentation.py:64-67 | packet k is exactly the encoded header with the common id, sequence number k, the common total and its flag, followed by chunk k |
| Fragmentation.PayloadSizes | Fragmentation.py:49-52 | what follows each header is 1 to 896 bytes, and exactly 896 on every packet but the last |
| Fragmentation.PayloadsCover | Fragmentation.py:49-67 | the payloads, concatenated in packet order, are the message bytes |
| Fragmentation.HeaderFields | Fragmentation.py:64 | for an id without a bar, splitting a header on a bar gives back id, sequence number, total, flag and the empty field before the chunk |
| Fragmentation.PacketFlagField | Fragmentation.py:55-64 | for an id without a bar, the header of packet k splits into the id, k, the total, and a flag field that is "1" exactly on the last packet and "0" on every other |
| Fragmentation.HeaderLength | Fragmentation.py:64-67 | the encoded header is the encoded id, the two numerals at one byte per digit, and five more bytes: four delimiters and the one-digit flag |
| Fragmentation.PacketsFitBuffer | Fragmentation.py:12-14 | when id and numerals fit the 128-byte reserve, every packet fits one 1024-byte datagram |
| Crc32.Checksum | segunda_entrega/Fragmentation.py:51 | the checksum is an unsigned 32-bit number |
| Crc32.CheckValue | segunda_entrega/Fragmentation.py:51 | the CRC-32 of ASCII "123456789" is the standard check value 0xCBF43926 |
| ChecksumFragmentation.ChecksumFits | segunda_entrega/Fragmentation.py:51 | the bitwise CRC-32 meets the 32-bit bound the packet lemmas require of their checksum parameter |
| ChecksumFragmentation.PacketChecksum | segunda_entrega/Fragmentation.py:48-51 | defines the checksum as the CRC of the encoded header, without the checksum field, followed by the chunk |
| ChecksumFragmentation.Packet | segunda_entrega/Fragmentation.py:53-54 | defines a packet as the encoding of the checksum's numeral, a bar and the header, followed by the chunk |
| ChecksumFragmentation.Packets | segunda_entrega/Fragmentation.py:43-55 | defines the packet list: one checksummed packet per chunk, packet k numbered k and carrying chunk k |
| ChecksumFragmentation.Fragment | segunda_entrega/Fragmentation.py:28-57 | the loop returns the checksummed packet list, one packet per chunk, with the same count as the first fragmenter |
| ChecksumFragmentation.PacketsEmpty | segunda_entrega/Fragmentation.py:32-33 | no content gives no packets, and any content gives at least one |
| ChecksumFragmentation.PacketsCount | segunda_entrega/Fragmentation.py:36-43 | as many packets as the first fragmenter makes: `math.ceil(file_size / 896)`, one per loop iteration |
| ChecksumFragmentation.PacketLayout | segunda_entrega/Fragmentation.py:43-54 | packet k is its full header (checksum, the common id, sequence number k, the common total, its flag) followed by exactly chunk k; the flag is 1 only on the last packet |
| ChecksumFragmentation.PacketFlagField | segunda_entrega/Fragmentation.py:46-53 | for an id without a bar, the full header of packet k splits into the checksum's numeral, the id, k, the total, and a flag field that is "1" exactly on the last packet and "0" on every other |
| ChecksumFragmentation.ChecksumPrefix | segunda_entrega/Fragmentation.py:48-54 | packet k is the CRC numeral of P and a bar followed by P, where P is exactly the first fragmenter's packet k |
| ChecksumFragmentation.ChecksumFieldCoversRest | segunda_entrega/Fragmentation.py:51-54 | the first 0x7C ends the checksum field; that field decodes to the numeral of the CRC of everything after it, which parses back to that CRC; what follows it is the header and chunk |
| ChecksumFragmentation.ChecksumNumeralLength | segunda_entrega/Fragmentation.py:53 | a 32-bit checksum's numeral has at most ten digits |
| ChecksumFragmentation.HeaderBound | segunda_entrega/Fragmentation.py:48 | with a short enough id, the first fragmenter's packet leaves eleven bytes for the checksum field |
| ChecksumFragmentation.PacketsFitBuffer | segunda_entrega/Fragmentation.py:19-21 | with a 32-bit checksum and a short enough id, every checksummed packet fits one 1024-byte datagram |
| Text.Slice | server.py:24 | Python's `s[i:j]`: both bounds clamped to the length; an empty result when the start is at or past the stop |
| Text.Decimal | Fragmentation.py:64 | `str(n)` is a non-empty string of digits, one digit exactly below 10, with no leading zero |
| Text.ParseDecimalInverse | Fragmentation.py:64 | reading a numeral back gives the number it was written from |
| Text.DecimalIsZero | server.py:87 | the field test `== "0"` holds exactly for the number zero |
| Text.DecimalLengthMonotone | Fragmentation.py:64 | a larger number never has a shorter numeral |
| Text.Split | server.py:85 | splitting on the bar gives at least one piece, and no piece holds the delimiter |
| Text.JoinSplit | server.py:85 | splitting loses nothing: joining the pieces with the delimiter gives the string back |
| Text.SplitJoin | server.py:85 | pieces without the delimiter are recovered by splitting their join |
| Utf8.Encode | Fragmentation.py:26 | defines `encode('utf-8')` character by character; there are never fewer bytes than characters |
| Utf8.Decode | server.py:84 | defines strict `decode()`: no bytes give the empty string; otherwise the first well-formed character followed by the decoding of the rest; any ill-formed sequence fails |
| Utf8.EncodeChar | Fragmentation.py:26 | one character is 1 to 4 bytes; ASCII is one byte equal to the code point; in a multi-byte sequence the lead byte is C2 to F4 and every later byte is a continuation byte |
| Utf8.EncodeAppend | Fragmentation.py:67 | encoding distributes over concatenation |
| Utf8.BarInEncode | server.py:85 | the byte 0x7C appears in the encoding exactly when a bar appears in the text |
| Utf8.DecodeEncode | server.py:84 | `data.decode()` inverts `encode('utf-8')` on every string |
| Utf8.DecodeAppend | server.py:84 | well-formed text followed by more bytes decodes to the text followed by the decoding of those bytes, and fails when they fail |
| Utf8.DecodeLoneLead | server.py:84 | well-formed bytes followed by a lone multi-byte lead byte do not decode |
| Chat.Insert | server.py:99 | defines `clients[a] = name`: a new address goes to the end of the order, an existing one keeps its place, and a maps to name |
| Chat.Delete | server.py:106 | defines `del clients[a]`: a leaves both the order and the names |
| Chat.EmptyRoom | server.py:11 | `clients = {}` is a well-formed room with nobody in it |
| Chat.Without | server.py:106 | removing an address keeps every other address, drops that one, and adds no repetition; the order is stated by `Chat.WithoutAt` |
| Chat.WithoutAt | server.py:106 | removing the entry at position i leaves the entries before and after it |
| Chat.InsertValid | server.py:99 | `clients[a] = name` keeps the room well formed and maps a to name |
| Chat.DeleteValid | server.py:106 | `del clients[a]` keeps the room well formed and removes exactly a |
| Chat.IsConnectCommand | server.py:23-24 | true exactly when the message is at least as long as "hi, meu nome eh " and starts with it |
| Chat.CatchUsername | server.py:32-33 | what follows the prefix; empty for a message no longer than the prefix |
| Chat.IsExitCommand | server.py:26-27 | defines the exit test: the message is exactly "bye" |
| Chat.IsClientInRoom | server.py:29-30 | defines membership: the address is a key of the room |
| Chat.ConnectRoundTrip | server.py:23-33 | prefix followed by any name is a connect command, and `catch_username` gives back the name |
| Chat.ConnectCommandIff | server.py:23-33 | a connect command is exactly a message equal to the prefix followed by the name taken from it |
| Chat.ExitIsNotConnect | server.py:26-27 | "bye" is never a connect command |
| Chat.JoinNotice | server.py:50-51 | defines the join notice: '<', the name, then the fixed tail "> foi conectado a sala" |
| Chat.LeaveNotice | server.py:53-54 | defines the leave notice: '<', the name, then the fixed tail "> saiu da sala" |
| Chat.ConnectedMessage | server.py:56-57 | defines the reply to a join, "conectado" |
| Chat.NotConnectedMessage | server.py:59-60 | defines the reply to an outsider: the instructions, ending with the connect command in quotes |
| Chat.DisconnectedMessage | server.py:62-63 | defines the reply to "bye", "você foi desconectado" |
| Chat.InstructionsQuoteCommand | server.py:59-60 | the instructions are 101 characters; between the quotes at positions 66 and 100 stands a connect command whose user name is the placeholder `<NOME_DE_USUARIO>` |
| Chat.NoticesName | server.py:50-54 | the join and leave notices carry the user's name between '<' and their fixed tails |
| Chat.Padded | server.py:20 | a strftime field is exactly w digits |
| Chat.PaddedInverse | server.py:20 | a zero-padded field reads back as its number when the number fits the width |
| Chat.Timestamp | server.py:20 | defines `strftime("%H:%M:%S %d/%m/%Y")`: hour, minute and second at two digits each, joined by colons; a blank; day and month at two digits and the year at four, joined by slashes |
| Chat.TimestampLayout | server.py:20 | each field of the timestamp stands at its fixed place in the 19 characters, between fixed separators |
| Chat.TimestampFields | server.py:20 | `%H:%M:%S %d/%m/%Y` is 19 characters with separators at fixed places, and each field reads back as its clock reading |
| Chat.AddressText | server.py:21 | defines the address as written in a broadcast: the host, a colon, and the port's numeral |
| Chat.FormatMessage | server.py:19-21 | defines the broadcast text: the sender's address, "/~", its name, ": ", the message, a blank and the timestamp; the sender must be in the room, as the dict lookup requires |
| Chat.FormatMessageParts | server.py:19-21 | a formatted message is the sender line, then the text unchanged, then a blank and the timestamp |
| Chat.FanOut | server.py:74-76 | one (address, text) pair per client, in dict order |
| Chat.NotifyEveryClient | server.py:74-76 | the loop over the room sends the text to each client in insertion order |
| Chat.FanOutReachesRoom | server.py:74-76 | every client in the room is reached exactly once, nobody outside it is reached, and every pair carries the same text |
| Chat.Classify | server.py:93-111 | defines the branch taken, tested in the order of the if/elif chain: join, refuse, leave, broadcast |
| Chat.Step | server.py:93-113 | defines one message's effect for each branch: the room afterwards, and the `(address, text)` pairs sent, in order |
| Chat.ClassifyCases | server.py:93-111 | the branch taken: an outsider joins with a connect command and is refused otherwise; a member leaves with "bye" and broadcasts anything else |
| Chat.StepValid | server.py:93-113 | every step keeps the room well formed |
| Chat.JoinStep | server.py:93-99 | on joining, the newcomer gets "conectado" first, then the old members get the join notice; the newcomer is added at the end with that name and, until then, does not hear its own notice |
| Chat.RefuseStep | server.py:101-102 | anything else from an outsider gets only the instructions, sent only to the sender; the room is unchanged |
| Chat.LeaveStep | server.py:104-109 | "bye" removes exactly the sender's entry while the others keep their order; the sender gets "você foi desconectado", and the leave notice with its name goes to the rest of the room only |
| Chat.BroadcastStep | server.py:111-113 | any other text from a member, a second connect command included, goes formatted to the whole room, sender included; the room is unchanged |
| Chat.LeaveThenRefused | server.py:93-109 | after "bye", a message from the same address that is not a connect command is refused |
| Chat.LeaveThenRejoin | server.py:93-109 | after "bye", connecting again is a fresh join: possibly under another name, at the end of the order |
| Reassembly.Fields | server.py:83-85 | defines one datagram read: truncated to 1024 bytes, decoded, and split on the bar; nothing when decoding fails |
| Reassembly.ReassembleFrom | server.py:86-92 | defines the loop from datagram i on: Pending when the inbox runs out; a decode error or a missing field at the datagram that raises; reading on after flag "0"; after any other flag, the message collected so far with that datagram's sender |
| Reassembly.Reassemble | server.py:83-92 | defines the loop as written: ReassembleFrom from the first datagram, with nothing collected |
| Reassembly.Truncate | server.py:83 | `recvfrom(1024)` keeps the first 1024 bytes, and keeps all of a datagram that fits |
| Reassembly.Receive | server.py:83-92 | the loop as written returns `Reassemble(inbox)` |
| Reassembly.RunFromIff | server.py:87 | a run is datagrams that keep the loop going (all framed, flag "0"), then one framed datagram whose flag is not "0" |
| Reassembly.PendingCase | server.py:87-88 | the loop waits in `recvfrom` exactly when every datagram left is framed with flag "0" |
| Reassembly.DecodeErrorCase | server.py:84-89 | a decode error stops at the first datagram that fails to decode, and every datagram before it continued the loop |
| Reassembly.MissingFieldCase | server.py:86-91 | a missing field stops at the first datagram with fewer than five fields, and every datagram before it continued the loop |
| Reassembly.MessageCase | server.py:86-92 | a message comes from a run; its text is the fields 4 concatenated, and its sender is the address of the last datagram |
| Reassembly.RunIsMessage | server.py:86-92 | conversely, a run is read as the message of its fields 4, whatever follows it |
| Reassembly.ReassembleMessage | server.py:83-92 | from the start of the inbox, a message of n datagrams occurs exactly when the first n datagrams form a run |
| Reassembly.UnframedIsMissingField | server.py:85-86 | a typed line without a bar, sent bare as client.py sends it, makes the loop fail on `message_info[4]` |
| Reassembly.Delivered | server.py:44 | the packets arrive in the order they were sent, all from one address |
| Reassembly.PacketFields | server.py:85 | a header followed by text free of a bar splits into the four header fields and that text |
| Reassembly.DecodePacket | server.py:83-84 | a packet whose chunk decodes on its own arrives whole and decodes to its header and the chunk's text |
| Reassembly.ReceivedPacket | server.py:84-87 | packet k is framed, its flag is "0" exactly when it is not the last, and its field 4 is the text of chunk k |
| Reassembly.PiecesAreText | Fragmentation.py:52 | when every chunk decodes on its own, the chunks' texts concatenated are the message |
| Reassembly.RoundTrip | server.py:83-92 | text and id without a bar, chunk boundaries between characters, a header that fits: the loop as written reads the packets back as exactly the text, from the sender, at one datagram per packet |
| Reassembly.AsciiAligned | Fragmentation.py:52 | ASCII text never has a chunk boundary inside a character |
| Reassembly.SingleChunkAligned | Fragmentation.py:52 | a message of at most 896 bytes never has one either |
| Reassembly.SinglePacketDecodes | server.py:83-84 | a single-packet message arrives whole and decodes to its header and the text |
| Reassembly.PipeSplit | server.py:85-86 | a single packet carrying before, a bar, after splits into the four header fields, then before, then the pieces of after |
| Reassembly.PipeTruncates | server.py:85-86 | as written, a single-packet message before, a bar, after is read back as "before" alone |
| Reassembly.PipeExample | server.py:85-86 | as written, the text "a", a bar, "b" is read back as "a" |
| Reassembly.SplitCharacterBytes | Fragmentation.py:52 | 895 'a' then 'ê' is 897 bytes in two packets, and the first chunk ends with the lead byte 0xC3 |
| Reassembly.FirstPacketUndecodable | server.py:84 | that first packet cannot be decoded |
| Reassembly.SplitCharacterFails | server.py:84 | as written, that two-packet message fails to decode at its first datagram |
| Reassembly.SplitFields | server.py:85 | gives exactly n fields when it gives any |
| Reassembly.CollectFrom | server.py:86-91 | defines the corrected loop from datagram i on: the four header fields come off at the first four bars and the rest is kept as payload bytes; reading goes on after flag "0" |
| Reassembly.Finish | server.py:84 | defines the corrected decode: the collected bytes are decoded once, into the message or a decode error |
| Reassembly.ReassembleIntended | server.py:83-92 | defines the corrected reassembler: CollectFrom from the first datagram, then Finish |
| Reassembly.ReceiveIntended | server.py:83-92 | the corrected loop returns `ReassembleIntended(inbox)` |
| Reassembly.IntendedFields | server.py:85-86 | the four header fields come off any packet, and the chunk is what is left, whatever it holds, 0x7C included |
| Reassembly.FlagBytes | server.py:87 | the flag field is the bytes of "0" exactly on packets other than the last |
| Reassembly.IntendedPacket | server.py:85-87 | packet k arrives whole; it gives up its header fields and keeps chunk k; its flag is "0" exactly when it is not the last |
| Reassembly.IntendedReadsOn | server.py:87-91 | a datagram with flag "0" adds its chunk, and the corrected loop reads on |
| Reassembly.IntendedStops | server.py:87-91 | a datagram with another flag adds its chunk and ends the loop |
| Reassembly.IntendedCarried | server.py:87-91 | datagrams that carry chunks are read to the last of them, and the collected bytes are those chunks in order |
| Reassembly.PacketsCarryChunks | server.py:87-91 | the first fragmenter's packets, delivered in order, carry its chunks |
| Reassembly.IntendedRoundTrip | server.py:83-92 | for any non-empty text, a bar and characters split across chunks included, the corrected loop reads the packets back as exactly that text, from the sender, at one datagram per packet |
| Server.Transmission | server.py:40-48 | defines one `send_message`: the first fragmenter's packets of the text, in order, each to the one address |
| Server.Transmissions | server.py:93-113 | defines the sends of one turn: each text's transmission, first to last, the i-th under id i |
| Server.TransmissionsSnoc | server.py:93-113 | the sends of the first i + 1 texts are the sends of the first i, followed by those of text i |
| Server.TransmissionsAppend | server.py:93-113 | the sends of two runs of texts are the first run's sends followed by the second's |
| Server.SendMessage | server.py:40-48 | `send_message` sends the text's packets, in order, all to the one address |
| Server.Transmit | server.py:93-113 | the loop sends the texts of one turn from first to last, each fragmented under its own id: exactly `Transmissions` |
| Server.TransmissionsGoToRecipients | server.py:74-76 | every datagram sent goes to an address the room step chose, and a turn with no text sends nothing |
| Server.TransmissionReadBack | server.py:40-48 | what the server sends to one address goes only there, and would be read back by the corrected reassembler as exactly that text coming from the server's address |
| Server.ChatServer.constructor | server.py:11 | the server starts with an empty room |
| Server.ChatServer.Dispatch | server.py:93-113 | the if/elif chain updates the room in place, and returns the replies that `Chat.Step` specifies; the room stays well formed |
| Server.ChatServer.ServeOnce | server.py:82-113 | a turn read by the corrected loop: a complete message is dispatched; a pending or failed read changes nothing and sends nothing |
| Server.ChatServer.ServeOnceAsWritten | server.py:82-113 | a turn read by the loop as written: the outcome is `Reassemble(inbox)`; a complete message is dispatched as `Chat.Step` specifies; a pending or failed read changes nothing and sends nothing; the room stays well formed |

## Left out

- client.py is not part of this model. It sends the bare typed line without
  a header; `Reassembly.UnframedIsMissingField` states what the server makes of that.
- Sockets are replaced by lists: the datagrams still to be read, and the
  `(address, text)` pairs a step sends. There is no concurrency and no packet
  loss, duplication or reordering beyond what the list holds.
- A blocking `recvfrom` with nothing left to read becomes the outcome `Pending`.
- An exception in the receive loop ends the server. It becomes the outcome
  `DecodeError` (from `decode()`) or `MissingField` (an `IndexError` on
  `message_info[4]`, which is read before `message_info[3]` is tested), with
  the number of datagrams read. `Server.ChatServer.ServeOnce` and
  `Server.ChatServer.ServeOnceAsWritten` dispatch nothing after such an outcome.
  It does not model the server stopping.
- `send_message` writes the text to a temporary file, fragments the file, then
  removes it. The model fragments the text directly. It leaves out the file name,
  `os.remove`, the `try/except` that prints errors, and the newline translation
  of reading in text mode.
- The fragmenters' file-reading, `readline` loop and `read()`, is replaced by
  the file's content as a parameter.
- `uuid.uuid4()` is an `id` parameter. `datetime.now()` is a `Moment` parameter.
- Crc32.Checksum: written out bit by bit and checked against the standard
  check value, but not proved equal to zlib's table-driven implementation.
  `ChecksumFragmentation` takes `zlib.crc32` as its parameter `crc`.
- Chunking.PacketCount: exact integer ceiling division. The source's
  `math.ceil` of a float quotient agrees with it for every size below 2^40
  bytes; float rounding is not modelled.
- Chat.TimestampFields: the year is written with four digits. For years below 1000,
  the C library's `%Y` may write fewer.
- `print` and the server-side log texts are not modelled, for they are only
  printed: `server_new_connection_message`, `server_disconnected_user_message`,
  `server_start_message`. `create_server` is the socket set-up and is left out too.
- Server.ChatServer.ServeOnce: uses the corrected reassembler.
  `Server.ChatServer.ServeOnceAsWritten` is the same turn with the loop as
  written, `Reassembly.Receive`; the findings below tie the two together.
- Nothing in the code sends acknowledgements, retransmits after a timeout,
  or checks a checksum on receipt. The server imports the first fragmenter;
  the second one's checksum field is written and never read.

## Findings

| source | as written | input that shows it | evidently intended | confidence | as-written member | corrected member |
|---|---|---|---|---|---|---|
| server.py:85-86 | each datagram is split at every bar, and only field 4 is kept | the message "a", a bar, "b", sent as one packet, is read back as "a" | split off only the four header fields and keep the rest of the datagram as payload | not executed | Reassembly.PipeTruncates, Reassembly.PipeExample | Reassembly.ReassembleIntended, Reassembly.IntendedRoundTrip |
| server.py:84 | each datagram is decoded as UTF-8 on its own, although the fragmenter cuts chunks at byte offsets | 895 'a' followed by 'ê': the first chunk ends with the byte 0xC3, and `decode()` raises on the first datagram | collect the payload bytes of all packets and decode the message once | not executed | Reassembly.SplitCharacterFails, Reassembly.FirstPacketUndecodable | Reassembly.ReassembleIntended, Reassembly.IntendedRoundTrip |
