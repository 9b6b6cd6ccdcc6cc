# A model of the proxy's protocol core

The program is a Minecraft proxy. This project models the parts of it that decide something by
themselves, and proves what they promise:

- **Packet codec** (`VarInts`, `PacketFields`, `PacketCodec`, `PacketVisitors`, `Packets`). A packet is
  any list of fields: short, VarInt, 64-bit word, byte, UUID, string with a limit. One description
  of it drives three visitors, modelled as the classes they are: the size calculator, the writer
  over an array of exactly the counted size, and the cursor reader. Each method is proved against a
  function of `PacketFields`; `PacketCodec` proves that the three functions agree.
- **Framing and connection** (`Framing`, `ClientConnection`). The loop that cuts a received chunk
  back into frames, on whole frames and on any memory at all; the outgoing queue and the switch to
  encryption.
- **Login session** (`LoginSession`, `LoginExchange`, `Players`). The player, its connection and the queue
  of authentication requests as a state machine whose steps are a packet, a drain of the queue and a
  reply; what every run keeps; what server and client make of each other's packets, and which packets
  the server can serialise; the player's class, whose methods take those steps and whose receiving
  loop is a run.
- **UUID text** (`Simd`, `UuidText`, `UuidWire`). The vector pipelines that print and parse a UUID,
  each instruction with its meaning on lanes, refined to plain hex in the form of section 3 of
  RFC 4122; the version and variant digits of section 4.4.
- **Configuration** (`ConfigTree`, `ConfigRoundTrip`, `ConfigVisitors`, `ConfigManager`). A walk over a
  nested value drives a tree-building writer or a tree-consuming reader, both stack machines; both
  are proved against functions on whole values and trees, and those are shown to undo each other.
- **Server hash** (`AuthHash`). A digest as the shortest lower-case hex of its signed value.

Some conventions. A C++ `int` is its 32-bit pattern (`u32`); `IsNegative` tests the sign bit. What
the program does after a read or a store outside its memory, or with a loop that does not end, is
not defined, and the functions say so: `Read`, `ReadAll`, `ReadMessage`, `Parse` and the session's
steps give `None`, `NextFrame` gives `Undefined`. The methods require that they do not. All else that
the program does, such as serialising a packet whose count has failed, is a step like any other. The
host is little-endian.

Where the code does not do what one would expect, the model follows the code and the exact condition
is proved:

- A VarInt is ORed into its destination, and a string's *old* contents are held against the limit
  (src/Common/Packets/PacketReader.cpp:27, src/Common/Packets/PacketReader.cpp:48):
  `PacketCodec.ReadUndoesWire` says for which destinations a field arrives.
- `SerializePacket` does not look at `Success()` (src/Common/PacketUtils.h:10-16). The size counted is
  a frame's if and only if no string is over its limit (`PacketCodec.SizingIsExact`). Whether the
  writer's stores stay inside the buffer with one that is, depends on what comes after it:
  `PacketCodec.StoresStayInside` has the exact condition. For a LoginSuccess they do for names of at
  most 16 bytes and of 128 or more; in between the last store is one byte past the buffer
  (`LoginSession.OnLoginStart` gives None there, `LoginExchange.LoginSuccessFits`). A LoginStart with
  such a name is read and its name kept (`LoginExchange.LoginStartReceived`).
- The sizing loop ends exactly on values that are not negative (`VarInts.EndsIffNotNegative`), and so
  the receiving loop ends exactly if no size on its way is negative (`Framing.EndsIffNoNegativeSize`);
  `Framing.NegativeSizeHangs` is a chunk of five bytes on which it does not.
- A frame is held against the whole chunk and not against what is left of it
  (src/Network/ClientConnection.cpp:34): `Framing.StaysInChunk`, `Framing.FrameBeyondChunk`.
- The size of a frame's header is computed from the value read (src/Network/ClientConnection.cpp:99-104):
  a length prefix longer than it need be cuts the frame short (`Framing.LongPrefixCutsShort`).
- UUIDs with upper-case digits are not parsed as such (src/Common/Uuid.h:104-107): for hex text of
  either case, `UuidText.ParsingIsPlain` gives the condition.
- The verify token is never reset (src/Core/MCPlayer.cpp:282-283). From the 512th login on the request
  for it is still queued, but holds no token (`LoginExchange.TokenRunsOut`). In the same way a
  LoginSuccess for a name of 128 bytes or more holds no name (`LoginExchange.LongNameIsDropped`).
- The comment at src/Network/Encryption/AuthHash.cpp:62 says that the last zero is kept; the loop
  strips it, so the digest of zeros has the empty text (`AuthHash.TextTellsDigest`).

## Model

| member | source | states |
|---|---|---|
| VarInts.ParseEncode | src/Common/Packets/PacketReader.cpp:19-38 | reading what the writer wrote gives the value and takes exactly its bytes, whatever follows |
| VarInts.RoundTrip | src/Common/Packets/PacketWriter.cpp:22-37 | for all 32-bit patterns, negatives included, a zero destination ends with the value; any other destination does exactly if it holds no bit the value lacks |
| VarInts.EncodeIsShortest | src/Common/Packets/PacketWriter.cpp:22-37 | no byte string from which the reader takes a value is shorter than what the writer emits for that value |
| VarInts.EncodeIsPrefixFree | src/Common/Packets/PacketWriter.cpp:22-37 | two byte streams that begin with encodings and are equal begin with the same value and continue the same |
| VarInts.NegativeNeverEnds | src/Common/Packets/PacketSizeCalc.cpp:13-25 | from a negative value, after any number of turns the sizing loop holds a negative value and is not at its exit |
| VarInts.EndsIffNotNegative | src/Common/Packets/PacketSizeCalc.cpp:13-25 | the sizing loop comes to its exit if and only if the value is not negative |
| VarInts.GatherTurn | src/Common/Packets/PacketReader.cpp:23-37 | one turn of the reading loop keeps its invariant; at its exits the destination holds old OR decoded, or 0 after five continuation bytes |
| VarInts.EncodedByte | src/Common/Packets/PacketWriter.cpp:22-37 | the i-th byte written holds bits 7i to 7i + 6 of the value, and the high bit unless it is the last |
| VarInts.ReadsAnyBytes | src/Common/Packets/PacketReader.cpp:19-38 | on any five bytes the reader takes up to the first without the high bit and ORs the groups' sum, below bit 32, into the destination; five with the high bit leave 0 |
| PacketFields.CountIsWire | src/Common/Packets/PacketSizeCalc.cpp:3-75 | with every string within its limit, the count grows by exactly the number of bytes the writer emits for the fields |
| PacketFields.SuccessIsWithinLimits | src/Common/Packets/PacketSizeCalc.cpp:37-52 | the success flag falls, for good, exactly if some string is over its limit |
| PacketFields.ReadKeepsShapes | src/Common/Packets/PacketReader.cpp:5-74 | reading never changes the kind of a field or the limit of a string |
| PacketCodec.ReadUndoesWire | src/Common/Packets/PacketReader.cpp:5-74 | for every field and whatever follows, the written value arrives and exactly its bytes are taken, if and only if the destination can receive it |
| PacketCodec.ShortOnTheWire | src/Common/Packets/PacketWriter.cpp:10-20 | a short leaves highest byte first, and two bytes are read so |
| PacketCodec.ULongOnTheWire | src/Common/Packets/PacketWriter.cpp:39-44 | of a 64-bit word, byte i on the wire holds bits 8i to 8i + 7, written and read |
| PacketCodec.ReadAllUndoesWireAll | src/Common/Packets/IPacket.h:28-33 | the same for every list of fields |
| PacketCodec.FrameRoundTrip | src/Common/Packets/IPacket.h:50-61 | reading a frame, followed by anything, into a fresh packet restores size, id and all fields and stops at the end of the frame |
| PacketCodec.SizingIsExact | src/Common/PacketUtils.h:10-16 | counting the length last and writing it first, the full size is a length prefix and as many bytes as it announces if and only if no string is over its limit, which is when the count succeeds; then the buffer is the frame, filled exactly |
| PacketCodec.StoresStayInside | src/Common/PacketUtils.h:10-21 | every store of the writer is inside the buffer if and only if no string is over its limit, or what is written behind the first that is, with the packet's own size, is no more than what was counted from there on: that string's length prefix and sixteen for every UUID |
| PacketCodec.ReadPastWireAll | src/Common/Packets/IPacket.h:28-33 | from what was written for some fields and anything behind it, exactly those fields are read, and further fields from what is behind |
| PacketVisitors.PacketSizeCalc.OnVarInt | src/Common/Packets/PacketSizeCalc.cpp:3-26 | the loop adds the number of bytes of the encoding; after the last field it sizes the size itself and records the prefix |
| PacketVisitors.PacketSizeCalc.OnString | src/Common/Packets/PacketSizeCalc.cpp:37-52 | prefix and contents are added; an over-long string adds its prefix only and fails the count |
| PacketVisitors.PacketSizeCalc.OnUUID | src/Common/Packets/PacketSizeCalc.cpp:63-66 | sixteen are added, even after a failure |
| Packets.SizeField | src/Common/Packets/PacketSizeCalc.cpp:3-75 | whatever the kind of field, its visit by the calculator adds the bytes the field takes unless the count has failed |
| PacketVisitors.PacketWriter.OnVarInt | src/Common/Packets/PacketWriter.cpp:22-37 | the loop appends the encoding to what is written, and every store is inside the buffer |
| PacketVisitors.PacketWriter.OnString | src/Common/Packets/PacketWriter.cpp:46-55 | length and contents are appended, or nothing for an over-long string |
| PacketVisitors.PacketWriter.OnUUID | src/Common/Packets/PacketWriter.cpp:63-68 | the two words loaded from the object's bytes leave as those bytes, in order |
| Packets.WriteField | src/Common/Packets/PacketWriter.cpp:10-68 | whatever the kind of field, its visit by the writer appends its bytes, inside the buffer, and leaves the rest of the buffer zero |
| PacketVisitors.PacketReader.OnVarInt | src/Common/Packets/PacketReader.cpp:19-38 | on any bytes, the loop of shifts and ORs leaves what the group-by-group definition says and advances by the bytes taken, at most five |
| PacketVisitors.PacketReader.OnString | src/Common/Packets/PacketReader.cpp:46-57 | takes length and contents, or nothing if the old contents are not below the limit |
| PacketVisitors.PacketReader.OnUUID | src/Common/Packets/PacketReader.cpp:65-74 | the word read first goes to the low lane, so that the sixteen bytes are stored in order |
| Packets.ReadField | src/Common/Packets/PacketReader.cpp:5-74 | whatever the kind of field, its visit by the reader leaves what is read from the bytes ahead and moves past exactly those |
| Packets.Packet.SizePass | src/Common/Packets/IPacket.h:50-61 | the description run by the calculator, id first and size last, counts the message |
| Packets.Packet.WritePass | src/Common/Packets/IPacket.h:50-61 | the description run by the writer appends the frame and stays inside the buffer |
| Packets.Packet.ReadPass | src/Common/Packets/IPacket.h:50-61 | the description run by the reader leaves the message read in the packet's members |
| Packets.SerializePacket | src/Common/PacketUtils.h:8-24 | whenever sizing ends and the writer stays inside, the payload is what was written, with zeros behind it up to the size counted; with no string over its limit it is the frame |
| Packets.SerializeThenRead | src/Tests/PacketSerializationTests.cpp:8-46 | what the two round-trip tests check for two packets, for every packet and every fresh destination, with anything following |
| Framing.DeliveryIsBounded | src/Network/ClientConnection.cpp:33-54 | on any memory, until the loop ends or comes to a turn that does not, it hands over at most one frame per byte of the chunk and moves its offset to less than twice the chunk's size |
| Framing.EndsIffNoNegativeSize | src/Network/ClientConnection.cpp:33-54 | with memory for two chunk lengths and nine bytes, the loop ends if and only if no size read on its way is negative |
| Framing.NegativeSizeHangs | src/Network/ClientConnection.cpp:96-100 | a chunk of five bytes that announces the size -1, on which the loop does not end whatever the handler says |
| Framing.StaysInChunk | src/Network/ClientConnection.cpp:111-112 | the loop ends within the chunk if and only if every frame would also have passed the test against what was left |
| Framing.FrameBeyondChunk | src/Network/ClientConnection.cpp:34 | a chunk of three bytes of which the loop takes five |
| Framing.NextIsFrame | src/Network/ClientConnection.cpp:91-118 | looking at a serialised packet, followed by anything, finds exactly its bytes, its id and its size |
| Framing.WholeFramesFromHere | src/Network/ClientConnection.cpp:33-54 | from any offset at which only whole frames are left, the loop delivers what is expected of them |
| Framing.WholeFramesAreDelivered | src/Network/ClientConnection.cpp:33-54 | a chunk made of serialised packets: all are handed over in order, byte for byte, and the loop ends at the chunk's end; if one is refused, exactly those up to it were, and the socket is stopped |
| Framing.LongPrefixCutsShort | src/Network/ClientConnection.cpp:99-104 | the frame ends where its header says if and only if the length prefix is the shortest for its value; otherwise it is cut short by the difference |
| Framing.LongPrefix | src/Network/ClientConnection.cpp:99-104 | a frame of three bytes with a long prefix, of which two are taken |
| ClientConnection.ReadUnencryptedPacket | src/Network/ClientConnection.cpp:91-118 | reader and calculator together find the next frame, or nothing if it is larger than the chunk |
| ClientConnection.ClientConnection.HandOn | src/Network/ClientConnection.cpp:34-53 | the frame found goes to the handler, whose refusal stops the socket |
| ClientConnection.ClientConnection.RecvPackets | src/Network/ClientConnection.cpp:14-58 | if what was received is a chunk of serialised packets, in clear, or enciphered while encryption is on, exactly these are handed over, up to the first refused, which stops the socket; on other bytes handler, offset and socket end as the loop on sequences says |
| ClientConnection.ClientConnection.SendQueuedPackets | src/Network/ClientConnection.cpp:66-89 | what is taken off is a prefix of the queue, in order, each as many bytes from its memory as its size says, enciphered exactly if encryption is on; it is the whole queue unless the socket failed, and then nothing after the failure |
| ClientConnection.PingOnWire | src/Network/ClientConnection.cpp:74-81 | a reply whose size is two more than its bytes leaves with two bytes of the memory behind |
| ClientConnection.ClientConnection.QueuePacket | src/Network/ClientConnection.cpp:60-64 | appends to the queue and changes nothing else |
| LoginSession.EveryRun | src/Core/MCPlayer.cpp:130-210 | in every run: LoginSuccess packets made and authentication requests outstanding are the EncryptionResponses accepted (and offline the logins); online no LoginSuccess was sent in clear; encryption is on exactly when there is a key; the token is 64 characters per online login |
| LoginSession.RunKeepsInv | src/Core/MCPlayer.cpp:33-291 | the invariant, once it holds, holds at the end of every run |
| LoginSession.EveryoneIsAnswered | src/Core/MCPlayer.cpp:130-210 | in every run, by name: those answered and those waiting are, as multisets, those whose responses were accepted (and offline those who logged in); the LoginSuccess packets sent or queued are exactly the ones made for those answered, in order; and packets leave in the order in which they were made, none lost or changed |
| LoginSession.RunKeepsAnswers | src/Core/MCPlayer.cpp:130-210 | the same from any session in which it holds |
| LoginSession.ReplyTakesOne | src/Core/MCPlayer.cpp:168-204 | a reply takes just the request it answers off the list |
| LoginSession.TokenCharacters | src/Core/MCPlayer.cpp:276-283 | tokens are drawn from the 62 letters and digits |
| LoginSession.StepFollows | src/Core/MCPlayer.cpp:37-54 | no step switches encryption off or drops the key, token and sent record only grow, and the state moves only from Handshake to Status or Login and from Login to Configuration |
| LoginSession.RunFollows | src/Core/MCPlayer.cpp:33-57 | the same over whole runs |
| LoginSession.RunSplits | src/Core/MCPlayer.cpp:24-31 | every prefix of a run is a run and the rest continues it, so what holds of runs holds at each of their steps |
| LoginSession.HandedIsRun | src/Network/ClientConnection.cpp:46-53 | handing packets to the player, up to the first it refuses, is a run of as many steps as it answered |
| LoginSession.ChunkIsRun | src/Network/ClientConnection.cpp:33-54 | the receiving loop on a chunk of serialised packets takes the session through the run over exactly the packets it hands over |
| LoginSession.TickIsRun | src/Core/MCPlayer.cpp:24-31 | on any memory on which loop and steps are defined: with the player as handler, the loop hands over the frames that it would with the player's answers known beforehand, and the session goes through the run over exactly those |
| LoginSession.TickOfWholeFrames | src/Core/MCPlayer.cpp:24-31 | on memory that starts with serialised packets the player is handed exactly these, up to the first it refuses |
| LoginExchange.LoginSuccessFits | src/Common/Packets/Login/LoginSuccess.h:10-21 | a LoginSuccess is serialised inside its buffer exactly for names of at most 16 bytes or at least 128; over the limit 19 bytes are written, and 17 and the name's length prefix counted |
| LoginExchange.LongNameIsDropped | src/Common/Packets/Login/LoginSuccess.h:10-21 | with a name of 128 bytes or more the packet is not readable as one, or, from 16384 bytes on, reads with an empty name |
| LoginExchange.StatusResponseFits | src/Common/Packets/Status/StatusResponse.h:11-14 | a StatusResponse is serialised inside its buffer with every body of less than 2 GiB, over its limit as well |
| LoginExchange.EncryptionRequestFits | src/Common/Packets/Login/EncryptionRequest.h:10-14 | with a key within its limit, an EncryptionRequest is serialised inside its buffer with every token of less than 2 GiB, over the limit as well; with a longer key, exactly if next to nothing is written behind it |
| LoginExchange.LongTokenIsDropped | src/Common/Packets/Login/EncryptionRequest.h:10-14 | with a token over its limit the packet is not readable as one, or reads with an empty token, and exactly when which |
| LoginExchange.TokenRunsOut | src/Core/MCPlayer.cpp:282-288 | the next request is queued exactly as long as the token is shorter than 2 GiB; a client reads the token from it if and only if fewer than 511 logins came before, and otherwise nothing or an empty token |
| LoginExchange.ReadFreshUndoesSerialized | src/Common/PacketUtils.h:8-24 | what one side serialises, with no string over its limit, the other reads into a fresh packet of the same type |
| LoginExchange.HandshakeReceived | src/Core/MCPlayer.cpp:69-93 | a serialised handshake moves the session to the state it names if it has version 772, and is refused otherwise |
| LoginExchange.AnyNameArrives | src/Common/Packets/Login/LoginStart.h:11-14 | the reader of LoginStart takes names of any length, whatever the sender's limit |
| LoginExchange.LoginStartReceived | src/Core/MCPlayer.cpp:99-128 | a packet of id 0 with a name of any length leaves name and UUID in the session; online it queues a packet of id 1 with the key and the longer token; offline one of id 2 with UUID and name, except for names of 17 to 127 bytes, where the writer leaves its buffer |
| LoginExchange.EncryptionResponseReceived | src/Core/MCPlayer.cpp:130-210 | a serialised EncryptionResponse is accepted exactly if its token deciphers to the whole token; then the deciphered secret is the key and the name is to be authenticated |
| LoginExchange.StatusAnswered | src/Core/MCPlayer.cpp:228-256 | in state Status a packet of id 0 is accepted and one packet of id 0 queued, from whose bytes a client reads the status as it was given, or an empty one if that is over its limit |
| LoginExchange.OtherPackets | src/Core/MCPlayer.cpp:37-56 | id 3 moves Login to Configuration; a ping is queued with two added to its size; all packets of other ids, and all in Configuration and Play, are accepted and change nothing |
| LoginExchange.ReplyReadsBack | src/Core/MCPlayer.cpp:169-204 | a reply queues one packet of id 2 except for names of 17 to 127 bytes; with a name of at most 16 it reads back, into a destination of id 0, as id 2, the name that asked and a UUID whose text is the id with its dashes, and with a longer one not at all or without the name |
| LoginExchange.OnlineLogin | src/Core/MCPlayer.cpp:69-210 | a whole online login is a possible run: the request leaves in clear, the LoginSuccess enciphered, and nothing stays outstanding |
| Players.MCPlayer.ProcessPacket | src/Core/MCPlayer.cpp:33-57 | the methods take the session's step for the packet and give its answer |
| Players.MCPlayer.HandleHandshake | src/Core/MCPlayer.cpp:69-93 | the step on a handshake |
| Players.MCPlayer.HandleLogin | src/Core/MCPlayer.cpp:95-222 | the step on a packet in the login state |
| Players.MCPlayer.HandleStatus | src/Core/MCPlayer.cpp:224-264 | the step on a packet in the status state |
| Players.MCPlayer.SendEncryptionRequest | src/Core/MCPlayer.cpp:266-291 | the loop appends the characters drawn to the token there was, and the request for the whole token is queued |
| Players.MCPlayer.OnAuthenticated | src/Core/MCPlayer.cpp:169-204 | the callback takes the session's step for a reply |
| Players.MCPlayer.Drain | src/Network/ClientConnection.cpp:66-89 | a drain of the connection's queue is a step of the session, of the whole queue if it succeeds |
| Players.MCPlayer.NetworkTick | src/Core/MCPlayer.cpp:24-31 | if what was received is a chunk of serialised packets, in clear, or enciphered while encryption is on, the player takes exactly these, up to the first it refuses, which stops the socket; on other bytes session, frames and answers end as the loop on sequences says |
| Players.MCPlayer.HandOnAll | src/Network/ClientConnection.cpp:33-54 | the receiving loop with the player itself as handler takes the session where the loop on sequences does |
| UuidText.DigitsAreNibbles | src/Common/Uuid.h:54-59 | unpacking, shifting and masking put the nibbles of the value, high one first, in consecutive lanes, whatever the register's upper half held |
| UuidText.CharsOfDigitsAreHex | src/Common/Uuid.h:54-62 | the pipeline up to the addition of the offsets yields the 32 lower-case hex digits |
| UuidText.M128ToText | src/Common/Uuid.h:44-75 | the shuffle and three overlapping stores leave exactly the plain 36 characters in memory and touch nothing after them |
| UuidText.LoadDigitsUndashes | src/Common/Uuid.h:83-88 | load, shuffle and two insertions yield the 32 characters without the dashes |
| UuidText.PackedLaneIsPlain | src/Common/Uuid.h:104-111 | in each lane, the values found, shifted and added are 16 times the high and once the low digit for every byte, if and only if the eight digits are lower-case |
| UuidText.ParsingIsPlain | src/Common/Uuid.h:81-114 | for hex text of either case the pipeline is the plain parser if and only if no digit is upper-case |
| UuidText.OvershotShows | src/Common/Uuid.h:104-110 | digits that come out seven too large never cancel in a lane's sum |
| UuidText.ParseUndoesPrint | src/Common/Uuid.h:81-114 | parsing the text of any 128-bit value gives the value |
| UuidText.PrintUndoesParse | src/Common/Uuid.h:44-75 | printing what a canonical lower-case text parses to gives the text |
| UuidText.PrintedCharacter | src/Common/Uuid.h:44-75 | character by character: dashes (0x2D) at 8, 13, 18 and 23, and else the digits of the bytes in order, high digit first, as 0 to 9 and a to f |
| UuidText.ConvertSlimToFullUUID | src/Common/Uuid.h:21-38 | the id with its dashes, or nothing for any other length |
| UuidText.SlimRoundTrip | src/Common/Uuid.h:151-157 | the UUID made from a lower-case id prints as its full form, and without the dashes as the id |
| UuidText.RandomUuidDigits | src/Common/Uuid.h:266-274 | version digit 4, variant bits 10, and the other 122 bits are the random ones |
| UuidText.RandomUuidText | src/Common/Uuid.h:266-274 | the text has 4 at position 14 and one of 8, 9, a, b at position 19, and is otherwise that of the random value |
| UuidWire.TextOnTheWire | src/Common/Packets/PacketWriter.cpp:63-68 | the sixteen bytes sent for a canonical text are its hex digits in order, and the reader rebuilds an equal UUID from them |
| ConfigRoundTrip.LoadSucceedsIffConforms | src/System/ConfigurationManager.cpp:80-139 | reading a value from any tree succeeds if and only if the tree conforms to the value's type |
| ConfigRoundTrip.MisfitIsKept | src/System/ConfigurationManager.cpp:126-139 | a node of the wrong kind fails the reading and leaves scalar, vector or struct as it was |
| ConfigRoundTrip.ScalarIsTaken | src/System/ConfigurationManager.cpp:74-78 | a scalar takes over what a node of its kind holds, of an integer that no int can hold the low 32 bits |
| ConfigRoundTrip.ResizedAt | src/Common/IConfigurationManager.h:156-157 | resizing keeps the elements there are and fills up with new ones |
| ConfigRoundTrip.ItemIsWritten | src/System/ConfigurationManager.cpp:30-37 | every element of a vector is written at its place |
| ConfigRoundTrip.FieldIsWritten | src/System/ConfigurationManager.cpp:30-37 | every member of a struct is written under its name, of two with one name the later |
| ConfigRoundTrip.LoadIgnoresDestination | src/System/ConfigurationManager.cpp:126-139 | a reading that succeeds leaves the same in every destination of the type |
| ConfigRoundTrip.ReadUndoesWrite | src/Common/IConfigurationManager.h:149-181 | reading the tree written for a value with distinct member names succeeds and yields the value, whatever the destination held |
| ConfigRoundTrip.FirstFailureFreezesTheRest | src/System/ConfigurationManager.cpp:126-139 | a failed reading of a struct leaves the members before the first bad one as read, that one as its own reading leaves it, and those after it untouched |
| ConfigRoundTrip.FirstBadElementFreezesTheRest | src/Common/IConfigurationManager.h:158-159 | a failed reading of a resized vector leaves every element up to the first bad one as its own reading leaves it, and those after it untouched |
| ConfigVisitors.FindReplaced | src/System/ConfigurationManager.cpp:30-37 | a node put at an address is found there, and putting a second one there is as if only that had been put |
| ConfigVisitors.ReplaceChild | src/System/ConfigurationManager.cpp:39-63 | a child put into the container on top is found at the address pushed, and what is done to it there is as if it had been put in so |
| ConfigVisitors.PutKeeps | src/System/ConfigurationManager.cpp:30-37 | what the writer puts into the container on top leaves every node that is not on the way to it or below it as it was |
| ConfigVisitors.DefaultWriter.Begin | src/System/ConfigurationManager.cpp:39-63 | an empty container goes into the parent and its address on the stack |
| ConfigVisitors.WriteValue | src/Common/IConfigurationManager.h:149-181 | the walk with the writer adds exactly the value's tree to the container on top and restores the stack |
| ConfigVisitors.WriteItems | src/Common/IConfigurationManager.h:158-159 | the loop over a vector appends the elements' trees in order |
| ConfigVisitors.WriteFields | src/Common/IConfigurationManager.h:165-168 | the members of a struct are put in under their names |
| ConfigVisitors.ConfigReader.ReadScalar | src/System/ConfigurationManager.cpp:126-139 | a scalar is replaced exactly if nothing failed before and the node has its kind; otherwise the flag is down and the value is the one there was |
| ConfigVisitors.ConfigReader.Begin | src/System/ConfigurationManager.cpp:80-108 | a node of the wanted kind becomes the top of the stack; otherwise the flag falls |
| ConfigVisitors.ConfigReader.End | src/System/ConfigurationManager.cpp:94-109 | the stack is popped unless something failed |
| ConfigVisitors.ReadValue | src/Common/IConfigurationManager.h:149-181 | the walk with the reader leaves value and flag as reading the fetched node as a whole does, with the stack at its old height if all went well, and nothing changed if the flag had fallen |
| ConfigVisitors.ReadItems | src/Common/IConfigurationManager.h:158-159 | the loop over a resized vector reads the elements in order and stops changing them at the first failure |
| ConfigVisitors.ReadFields | src/Common/IConfigurationManager.h:165-168 | the same for the members of a struct |
| ConfigManager.GroupStored | src/System/ConfigurationManager.cpp:169-178 | the group's table is found where it was put; every other path keeps its node |
| ConfigManager.GroupIsFound | src/System/ConfigurationManager.cpp:169-178 | the group's table is the one under its name in its namespace; anything else there counts as an empty one |
| ConfigManager.VariablesAgree | src/System/ConfigurationManager.cpp:180-201 | every variable ends with what reading its node in the resulting table makes of it |
| ConfigManager.MisfitKeepsDefault | src/System/ConfigurationManager.cpp:197-200 | a scalar variable for which the table holds a node of the wrong kind keeps its default, and the table the node |
| ConfigManager.RegisterKeeps | src/System/ConfigurationManager.cpp:180-201 | registration keeps every key of the group with its node and adds exactly the missing non-null variables; the file is written exactly if one was missing |
| ConfigManager.RegisterAgain | src/System/ConfigurationManager.cpp:180-201 | registering the same defaults against any table that holds the result changes nothing and gives every variable the value it got first |
| ConfigManager.RegistrationIsIdempotent | src/System/ConfigurationManager.cpp:160-212 | the same for the whole configuration and a fresh copy of the group |
| ConfigManager.ConfigurationManager.RegisterConfigGroup | src/System/ConfigurationManager.cpp:160-212 | the loop over the mappings leaves table, variables and file as registration says, and scalar variables with a node of the wrong kind as they were; a second group of one type changes nothing |
| ConfigManager.WriteDefault | src/System/ConfigurationManager.cpp:189-195 | a fresh writer adds the variable's tree under its name and nothing else |
| ConfigManager.ReadExisting | src/System/ConfigurationManager.cpp:197-200 | a fresh reader leaves what reading the variable's node leaves, and a scalar as it was if the node has the wrong kind |
| AuthHash.ComplementPlusOne | src/Network/Encryption/AuthHash.cpp:48-56 | for every byte string, complementing each byte and adding one gives 256^n less the value |
| AuthHash.ComplementInPlace | src/Network/Encryption/AuthHash.cpp:51 | every byte of the array is complemented |
| AuthHash.BytesRoundTrip | src/Network/Encryption/AuthHash.cpp:49-50 | a number made of bytes without a leading zero is turned back into those bytes, so the vector has the digest's length |
| AuthHash.BitOfTopByte | src/Network/Encryption/AuthHash.cpp:43-44 | bit 159 is the sign of the 20-byte digest |
| AuthHash.StrippedIsHex | src/Network/Encryption/AuthHash.cpp:59-74 | the library's hex, stripped and lowered, is the hex without leading zeros, for zero the empty text |
| AuthHash.HexRoundTrip | src/Network/Encryption/AuthHash.cpp:59-65 | the hex has the number as its value and holds no minus sign |
| AuthHash.HexIsShortest | src/Network/Encryption/AuthHash.cpp:62-65 | no digits of the same value are shorter |
| AuthHash.Finalise | src/Network/Encryption/AuthHash.cpp:26-77 | the text of every 20-byte digest is the shortest lower-case hex of its signed value |
| AuthHash.TextForm | src/Network/Encryption/AuthHash.cpp:43-74 | a minus sign exactly if the top bit is set, then digits 0 to 9 and a to f without a zero in front, whose value is the digest's, or 256^n less it |
| AuthHash.HighestFirst | src/Network/Encryption/AuthHash.cpp:38 | a digest's first byte has the highest weight |
| AuthHash.TextTellsDigest | src/Network/Encryption/AuthHash.cpp:26-77 | two digests have one text exactly if they are equal, and the empty text belongs to zero alone |

## Left out

- Sockets, name lookup, accepting, threads, locks and sleeps: a chunk and the socket's answers are
  arguments, and the steps of a session are taken one at a time.
- Key generation, RSA, SHA-1 and AES: decryption and encryption are functions of their inputs, and
  nothing is said of a continuous cipher stream, since each call restarts the cipher's context. The
  big-number calls have their arithmetic meaning.
- HTTP, JSON, TOML files, logging and profiling: replies are well formed with an id of 32 characters,
  and the configuration file holds the table that was last written to it.
- LoginExchange.OnlineLogin: one order of steps, that of an orderly client; what holds of other orders
  is what LoginSession.EveryRun and LoginSession.RunFollows say.
- Players.MCPlayer.HandleStatus: the ping reply claims two bytes more than the frame it was made
  from; the size is modelled as the code sets it, and so is that two bytes of the memory behind are
  sent with it. That the reply echoes the frame is not claimed.
- ClientConnection.ClientConnection.RecvPackets: the handler's answers are fixed beforehand, because a
  handler behind an interface is not modelled; with a player as handler the loop is
  Players.MCPlayer.NetworkTick.
- Packets.SerializePacket: strings of 2 GiB and more, for which the sizing loop is entered with a
  truncated length, are not modelled unless the count has failed before.
- UuidText.M128ToText: bytes only; byte order conversions are for a little-endian host.
- ConfigVisitors.ReadValue: values are handed in and out where the program changes them in place, and
  float and double are both real numbers without rounding; a vector of bool is not set apart.
- ConfigManager.ConfigurationManager.RegisterConfigGroup: the group's table is taken out, changed and
  put back where the program works on it in place; a registered group read again when the file is
  loaded, the destructor and the registry are not modelled.
- Packets.Packet.ReadPass: a packet's members are one list of fields; the array macros, whose only use is
  commented out, are not modelled, nor are the properties in a LoginSuccess.
- The handler of EncryptionResponse deciphers each string while reading it; the model deciphers both
  after reading, which differs in nothing that can be observed.
- A default UUID object is uninitialised memory; the model starts it at zero, and no result depends
  on it.
- What the program does after reading or writing outside its memory, or in a loop that does not end,
  is not modelled.
- Frames split across chunks are not put together again by the program, and nothing is claimed of them.
- Ownership and release of payloads and the decrypted chunk; ordering and hash of UUIDs; big-endian hosts.
