# MobileAtlas: a verified model

This project models the parts of MobileAtlas that carry state machines, codecs
or reconciliation loops, and proves what they promise over all inputs and all
runs.

| file | models |
|---|---|
| Bytes.dfy | byte strings and big-endian integers |
| Codec.dfy, Streams.dfy, Clients.dfy, Connections.dfy | the SIM tunnel protocol: messages, buffered streams, handshakes, whole connections |
| T1Block.dfy, T1Chain.dfy, T1Reassembly.dfy, T1Answers.dfy, T1Session.dfy | protocol T=1 of the Pico SIM emulator (section 11 of ISO/IEC 7816-3) |
| ApduCase.dfy, T0Relay.dfy | the T=0 relay (section 10.3) |
| Atr.dfy | the answer to reset (section 8.2) |
| ProbeTimeline.dfy, StatusStatistics.dfy | the availability timeline of a probe, its alerts and statistics |
| SimRegistration.dfy | reconciliation of registered SIM cards |
| TokenLifecycle.dfy | registration, activation and revocation of management tokens |
| VethRefCount.dfy | nested use counts of bridge and gateway under two locks |
| Download.dfy | the adaptive download loop |

## How the source is represented

- A socket is the sequence of chunks that its `recv(1024)` will return, each of
  1 to 1024 bytes; a serial line is the bytes that will arrive and the bytes
  sent. All theorems hold for every such sequence.
- Objects that the source updates in place are classes. Each method is proved
  against a function of the old state, and the theorems are about runs of these
  functions.
- Database tables are maps or sequences. A transaction runs without interruption
  and a raised exception restores the state before it.
- Times are integers in microseconds, percentages exact rationals. A registration
  happens at one instant, while the code reads the clock again for each provider
  that it tests for expiry.
- External decisions (the provider's callback, the answers of a card, failures of
  the Wireguard daemon, replies of the network, the clock) are parameters.

## Where the code does not do what one might expect

The model follows the code.

- The protocol description (mobileatlas/tunnel/Protocol.md, AuthResponse) gives
  status 2 to NotRegistered; the code uses 3 (`Codec.AuthStatusOf`).
- `t1_write_complete_buffer` documents the parity of the blocks as its result but
  computes `pcb && 0x40` (`T1Reassembly.ReturnedParityIff` says when they agree).
- A chain whose first block has sequence bit 1 repeats that bit in its second
  block, and `prot_t1` starts with the running number 1
  (`T1Session.FirstLongAnswerRepeatsBit`). A confirmed IFS or abort request between
  two commands moves the running number, and a resynchronisation sets it to 0, so
  two answers of one block can carry the same number
  (`T1Session.RequestBetweenAnswersRepeatsBit`). `T1Session.SequenceAlternatesIff`
  and `T1Session.NextAnswerInStepIff` give the exact condition for a session
  without errors.
- An error report after the last block of an answer is answered from the response
  struct, whose field is never filled in (`T1Session.ResendIsLastIff`,
  `T1Session.ResendIsEmpty`).
- A command whose pcb has a reserved bit set makes the card count an even number
  of blocks as odd (`T1Session.ReservedBitMiscounts`).
- Whether a block repeated after an error report keeps its sequence number depends
  on what the peer answered before (`T1Answers.RepeatIsSameIff`); with earlier
  blocks acknowledged at once it does not, except a first block with number 1.
- The number of blocks is fixed before the loop although a supervisory request can
  change the field size in mid-chain, so the tail can be lost or empty blocks can
  follow (`T1Answers.InOrderIff`).
- An IFS request with the value 0 is confirmed, and the next command divides by it
  (`T1Session.DividesByZeroIff`, `T1Session.ZeroSizeIsReachable`).
- The length of the response cache has eight bits, so a response of more than 255
  bytes that is longer than expected is lost (`T0Relay.RelayPreservesIff`).
- The response cache is not emptied when it is read. A further GET RESPONSE, as it
  follows on data with 61yy, is served the old response and never reaches the card
  (`T0Relay.AlwaysServedIff`, `T0Relay.RunPreservesIff`; an input is
  `T0Relay.ContinuationIsLost`).
- `SimTunnel.run` calls `write_all` on its connection, which an ApduStream does not
  have, so on an ApduStream it raises before `maintain_connection`;
  `Connections.MaintainConnection` is about that loop.
- parse_ATR judges a group behind TD2 by the protocol of the TD byte that follows
  the group, and later groups replace earlier ones; sections 11.4.2 and 11.4.3 of
  ISO/IEC 7816-3 mean the first TA and TB for T=1 (`Atr.ParametersAreMeantIff`,
  with `Atr.LaterGroupWins` and `Atr.GlobalBytesHideT1`).
- `register_provider` also removes rows of other providers that merely have the
  same local id (`SimRegistration.LiveRowStaysIff`, `SameLocalIdRemovesRow`).
- `SimId` and `SimIndex` accept ids that cannot be encoded (`Codec.EncodableIff`,
  `SixtyFourBitsAreTooFew`).

Preconditions that the source puts on its callers: an answer to reset whose
announced bytes are present, a polling interval that is not negative, threads that
release only what they hold, a registration request without duplicate cards (the
REST model rejects others). `t1_write_complete_buffer` divides by the field size
it is given, so the model of this function requires at least 1; its caller does
not ensure it, which the model of the caller reports as an outcome.

## Model

| member | source | states |
|---|---|---|
| Codec.ApduPacketCodec | mobileatlas/tunnel/src/moatt_types/src/moatt_types/connect.py:74-102 | decode(encode(p)) = p for every packet, every accepted byte string re-encodes to itself; on each proper prefix of a packet the decoder asks for at least one byte and for none beyond the packet; it never asks a third time, whatever the bytes |
| Codec.AuthRequestCodec | mobileatlas/tunnel/src/moatt_types/src/moatt_types/connect.py:307-336 | the same four promises for authentication requests with tokens below 65536 bytes |
| Codec.AuthResponseCodec | mobileatlas/tunnel/src/moatt_types/src/moatt_types/connect.py:339-361 | the same for authentication responses |
| Codec.ConnectRequestCodec | mobileatlas/tunnel/src/moatt_types/src/moatt_types/connect.py:370-409 | the same for connection requests, through the four nested identifier decoders and NUL-padded IMSI and ICCID |
| Codec.ConnectResponseCodec | mobileatlas/tunnel/src/moatt_types/src/moatt_types/connect.py:412-434 | the same for connection responses |
| Codec.EncodingIsInjective | mobileatlas/tunnel/src/moatt_types/src/moatt_types/connect.py:403-409 | two messages with one encoding are equal, so requests with different identifier kinds never share an encoding |
| Codec.DigitsRoundTrip | mobileatlas/tunnel/src/moatt_types/src/moatt_types/connect.py:141-159 | padding digits with NUL and stripping it again gives the digits back |
| Codec.DigitsCanonical | mobileatlas/tunnel/src/moatt_types/src/moatt_types/connect.py:191-209 | an accepted padded field is the padding of what it decodes to |
| Codec.IdentifierRoundTrip | mobileatlas/tunnel/src/moatt_types/src/moatt_types/connect.py:133-255 | every encodable identifier decodes under its own kind byte to itself |
| Codec.IdentifierCanonical | mobileatlas/tunnel/src/moatt_types/src/moatt_types/connect.py:390-399 | an identifier accepted under a kind byte has that kind and encodes to the accepted bytes |
| Codec.EncodableIff | mobileatlas/tunnel/src/moatt_types/src/moatt_types/connect.py:215-255 | a request can be encoded iff its id fits into 64 bits, although the constructor admits ids below 2^192 |
| Codec.SixtyFourBitsAreTooFew | mobileatlas/tunnel/src/moatt_types/src/moatt_types/connect.py:215-255 | the id 2^64 is admitted and cannot be encoded |
| Bytes.PackAt | mobileatlas/tunnel/src/moatt_types/src/moatt_types/connect.py:89-102 | struct.pack in network order: byte i counts for 256 to the power width - 1 - i |
| Codec.ApduLayout | mobileatlas/tunnel/Protocol.md:56-82 | byte by byte: version 1, opcode 0 or 1, the length in four bytes with the highest first, payload |
| Codec.AuthRequestLayout | mobileatlas/tunnel/Protocol.md:84-106 | byte by byte: version 1, type 1 or 2, the length in two bytes, token |
| Codec.ResponseLayout | mobileatlas/tunnel/src/moatt_types/src/moatt_types/connect.py:53-66 | the bytes of every authentication and connection status |
| Codec.ConnectRequestLayout | mobileatlas/tunnel/Protocol.md:125-148 | byte by byte: version 1, flag 1 for "do not wait", kind 0 to 3, identifier with eight-byte numbers or NUL-padded digits |
| Streams.Socket.Recv | mobileatlas/tunnel/src/moatt_clients/src/moatt_clients/streams.py:64-71 | one chunk per call, in order; the empty result means end of stream |
| Streams.RawStream.FillBuf | mobileatlas/tunnel/src/moatt_clients/src/moatt_clients/streams.py:64-71 | a refill moves one chunk into the buffer and changes nothing about the bytes still to come |
| Streams.RawStream.ReadExactly | mobileatlas/tunnel/src/moatt_clients/src/moatt_clients/streams.py:41-49 | exactly the next n bytes are taken, or the end-of-file error is raised and nothing is lost, for every chunking |
| Streams.RawStream.Read | mobileatlas/tunnel/src/moatt_clients/src/moatt_clients/streams.py:51-62 | a non-empty prefix of the bytes still to come is taken unless there are none, and never more than n |
| Streams.RawStream.ReadMessage | mobileatlas/tunnel/src/moatt_clients/src/moatt_clients/streams.py:27-39 | the result and the remaining bytes are a function of the bytes still to come, so chunk boundaries do not matter |
| Streams.ApduStream.Send | mobileatlas/tunnel/src/moatt_clients/src/moatt_clients/streams.py:102-110 | the bytes written are the encoding of the packet |
| Streams.ApduStream.Recv | mobileatlas/tunnel/src/moatt_clients/src/moatt_clients/streams.py:112-145 | the result and the remaining bytes are a function of the bytes still to come |
| Streams.ReceivedAsSent | mobileatlas/tunnel/src/moatt_clients/src/moatt_clients/streams.py:112-160 | for every packet sequence and every cut inside a further packet: the packets arrive in order, then end of stream, or the error for a partial packet |
| Streams.CleanEndIff | mobileatlas/tunnel/src/moatt_clients/src/moatt_clients/streams.py:112-160 | a receiver sees these packets and a clean end iff exactly their encodings were sent |
| Streams.RecvConsumesAnEncoding | mobileatlas/tunnel/src/moatt_clients/src/moatt_clients/streams.py:129-145 | what a returned packet takes from the stream is its encoding |
| Streams.ReadMessageIff | mobileatlas/tunnel/src/moatt_clients/src/moatt_clients/streams.py:27-49 | a reader gets message m and stops at a rest iff the peer sent the encoding of m followed by that rest: no byte of the next message is read |
| Streams.ReadMessageTruncated | mobileatlas/tunnel/src/moatt_clients/src/moatt_clients/streams.py:27-49 | a message that breaks off anywhere is reported as the end of the stream |
| Streams.AtMostTwoRefills | mobileatlas/tunnel/src/moatt_clients/src/moatt_clients/streams.py:27-39 | reading a message takes at most two refills, for any bytes |
| Streams.RecvAgreesWithReadMessage | mobileatlas/tunnel/src/moatt_clients/src/moatt_clients/streams.py:27-160 | the two read loops return the same packet and leave the same rest, on every stream |
| Clients.Client.Authenticate | mobileatlas/tunnel/src/moatt_clients/src/moatt_clients/client.py:32-46 | outcome and remaining bytes as specified; exactly the authentication request is written |
| Clients.Client.ConnectProbe | mobileatlas/tunnel/src/moatt_clients/src/moatt_clients/probe_client.py:89-113 | outcome and remaining bytes as specified; the connection request, with version 1, the flag for no_wait, the kind and the identifier, is written only after authentication succeeded |
| Clients.ProbeRequestIsDecoded | mobileatlas/tunnel/src/moatt_clients/src/moatt_clients/probe_client.py:96-100 | the other side decodes from these bytes the identifier asked for and the flag given |
| Clients.RequestFailedIff | mobileatlas/tunnel/src/moatt_clients/src/moatt_clients/probe_client.py:102-113 | a refused connection reports exactly the status that was sent |
| Clients.NotEncodableIff | mobileatlas/tunnel/src/moatt_clients/src/moatt_clients/probe_client.py:92-100 | an id that does not fit into 64 bits is noticed exactly once the probe is authenticated |
| Clients.AuthBrokenIff | mobileatlas/tunnel/src/moatt_clients/src/moatt_clients/client.py:36-46 | anything but the three authentication responses is a broken message |
| Clients.AuthFailedIff | mobileatlas/tunnel/src/moatt_clients/src/moatt_clients/client.py:36-46 | an authentication that fails reports exactly the status that was sent |
| Clients.Client.WaitForConnection | mobileatlas/tunnel/src/moatt_clients/src/moatt_clients/provider_client.py:147-173 | outcome and remaining bytes as specified; the callback's status is written once a request has come in |
| Clients.ProviderAnswersIff | mobileatlas/tunnel/src/moatt_clients/src/moatt_clients/provider_client.py:156-173 | the answer to a request is version 1 and the status of the callback, and decides the outcome |
| Clients.ProbeConnectedIff | mobileatlas/tunnel/src/moatt_clients/src/moatt_clients/probe_client.py:89-113 | a probe gets its APDU stream iff the peer sent the two success responses, and the stream begins right behind them |
| Clients.ProviderConnectedIff | mobileatlas/tunnel/src/moatt_clients/src/moatt_clients/provider_client.py:147-173 | a provider gets its stream iff it was authenticated and accepts the request that follows; the identifier is the one the probe asked for |
| Clients.ProbeReceivesAllPackets | mobileatlas/tunnel/src/moatt_clients/src/moatt_clients/probe_client.py:92-113 | handshake bytes followed by packets, cut anywhere: the probe connects and receives exactly the packets |
| Clients.ProviderReceivesAllPackets | mobileatlas/tunnel/src/moatt_clients/src/moatt_clients/provider_client.py:151-173 | the same for the provider |
| Connections.MaintainConnection | mobileatlas/simprovider/tunnel/sim_tunnel.py:34-67 | the loop of a provider receives exactly the packets still to come and sends exactly the responses of the card to them |
| Connections.ForwardAll | mobileatlas/probe/tunnel/modem_tunnel.py:204-214 | one command out and one response in, for as long as responses come |
| Connections.ServeProbe | mobileatlas/tunnel/src/moatt_clients/src/moatt_clients/provider_client.py:115-173 | a provider over any socket, from the first chunk to the last: identifier, packets received and bytes sent by handshake and loop do not depend on how the stream is cut |
| Connections.ConnectAndForward | mobileatlas/tunnel/src/moatt_clients/src/moatt_clients/probe_client.py:89-113 | a probe over any socket and any bytes of the server: outcome, responses and bytes sent do not depend on the chunks |
| Connections.RunProbe | mobileatlas/tunnel/src/moatt_clients/src/moatt_clients/probe_client.py:89-113 | where the server accepts: connected, given exactly the responses that were sent, in order, and sending exactly its requests and one command more than it got responses for |
| Connections.ResponsesAt | mobileatlas/simprovider/tunnel/sim_tunnel.py:55-67 | a provider sends one APDU for each packet received, in order: the answer of the card to it |
| T1Block.LrcNoticesOneByte | pico-tunnel/util/util.c:371-402 | changing one byte changes the exclusive or of all bytes |
| T1Block.XorAt | pico-tunnel/util/util.c:389-389 | each bit of the exclusive or is set iff it is set in just one operand |
| T1Block.FrameChecksToZero | pico-tunnel/util/util.c:371-402 | all bytes of a block on the line, the checksum included, cancel out |
| T1Block.T1Write | pico-tunnel/util/util.c:368-403 | the block goes out as prologue, information field and checksum |
| T1Block.T1ReadIntoTpdu | pico-tunnel/util/util.c:663-680 | the struct holds the block, and its check byte is the byte with which the block ends on the line |
| T1Block.T1Read | pico-tunnel/util/util.c:595-650 | code, struct and consumed bytes for every input: timeouts, parameter exchange, checksum mismatch, completion |
| T1Block.AcceptedMeansFramed | pico-tunnel/util/util.c:595-650 | an accepted block means the line carried exactly the frame that would be written for it, with NAD other than FF |
| T1Block.ReadInvertsWrite | pico-tunnel/util/util.c:368-650 | reading a written block gives back all its fields and takes len + 4 bytes |
| T1Block.ReadNoticesOneByte | pico-tunnel/util/util.c:634-650 | any changed NAD, PCB, information or checksum byte is reported as a mismatch |
| T1Block.TruncatedBlock | pico-tunnel/util/util.c:595-650 | a block that breaks off anywhere is a timeout, behind the prologue a blocking read |
| T1Block.KindsByBits | pico-tunnel/util/util.c:198-208 | I-, R- and S-blocks by the two highest bits |
| T1Block.ErrorsByBits | pico-tunnel/util/util.c:275-293 | which R-blocks report no error and which report one, by their bits |
| T1Chain.SupervisoryReply | pico-tunnel/util/util.c:225-265 | exactly the three requests are answered; the peer reads back an S-block of the same type with the response bit, and the field size it confirms is the one in force; any other S-block changes nothing (HandleSBlock is proved against the function this is about) |
| T1Chain.HandleResponseFromWrite | pico-tunnel/util/util.c:421-449 | the answer to an intermediate block is handled as specified, with every resend on an error report |
| T1Chain.ResponseCodes | pico-tunnel/util/util.c:405-420 | the result names the kind of block that ended the exchange |
| T1Chain.WriteCompleteBuffer | pico-tunnel/util/util.c:466-534 | bytes sent, bytes consumed and return value for every buffer and every input, also with errors and with a field size changed in mid-chain |
| T1Reassembly.BlockCount | pico-tunnel/util/util.c:472-475 | the number of blocks fixed before the loop is max(1, ceil(n / size)) |
| T1Reassembly.ErrorFreeChain | pico-tunnel/util/util.c:467-534 | with every intermediate block acknowledged, exactly the chain of I-blocks goes out and exactly the acknowledgements are consumed |
| T1Reassembly.ChainingBits | pico-tunnel/util/util.c:498-505 | the chaining bit is set on all blocks but the last |
| T1Reassembly.SequenceBits | pico-tunnel/util/util.c:510-517 | the first block carries the bit it was given; from the second on the bits are 1, 0, 1, ... |
| T1Reassembly.OnlyLastPieceIsShort | pico-tunnel/util/util.c:489-493 | every block but the last is full |
| T1Reassembly.ReturnedParityIff | pico-tunnel/util/util.c:463-533 | for the chain on an acknowledged line: the value returned is the parity of the blocks sent iff the other pcb bits are clear or the number is odd (the code returns a logical, not a bitwise, and) |
| T1Reassembly.ChainRoundTrip | pico-tunnel/util/util.c:467-534 | a peer that reads blocks until one has no chaining bit gets exactly the buffer back |
| T1Answers.AnsweredChain | pico-tunnel/util/util.c:421-534 | whatever intact answers come (error reports, acknowledgements, supervisory requests, others), exactly the specified blocks, repetitions and replies go out and exactly the answers are consumed |
| T1Answers.InOrderIff | pico-tunnel/util/util.c:472-524 | the fields sent are a prefix of the buffer, as long as the field sizes in force allow; the chain is in order iff these sizes fit the number of blocks fixed before the loop |
| T1Answers.LoweredSizeLosesTail | pico-tunnel/util/util.c:472-529 | a size lowered in mid-chain: the last byte is never sent |
| T1Answers.RaisedSizeAppendsBlock | pico-tunnel/util/util.c:472-529 | a size raised in mid-chain: an empty block follows the end of the buffer |
| T1Answers.RepeatIsSameIff | pico-tunnel/util/util.c:440-517 | a repeated block is the block first sent iff it is the first and carries 1, or the answer before it held an odd number of error reports and confirmed requests, or was a resynchronisation met on an even counter |
| T1Answers.SecondRepeatIsSame | pico-tunnel/util/util.c:440-517 | one error report per block: the first block is repeated under another number, the second as it was |
| T1Answers.NumbersAlternateIff | pico-tunnel/util/util.c:508-517 | neighbouring blocks of a chain carry different numbers iff the first would not be repeated unchanged |
| T1Session.Card.HandleCommand | pico-tunnel/pico_poc.c:410-489 | one pass of the command loop: state, bytes and forwarded APDU for every input |
| T1Session.DamagedBlockIsReported | pico-tunnel/pico_poc.c:422-432 | a damaged block is not forwarded; the peer reads back one R-block for a checksum error with the running number as N(R), which then moves |
| T1Session.RepeatedCommandIsForwardedOnce | pico-tunnel/pico_poc.c:422-482 | a command damaged once and repeated is forwarded once and answered once |
| T1Session.IntactCommandIsAnswered | pico-tunnel/pico_poc.c:451-482 | an intact command is forwarded and answered with an I-block, never with an error report |
| T1Session.ErrorReportIsAnswered | pico-tunnel/pico_poc.c:441-450 | an intact error report is answered from the response struct, and the running number moves |
| T1Session.SilenceAndPps | pico-tunnel/pico_poc.c:413-421 | a silent line and a parameter exchange leave number and field size alone |
| T1Session.OneExchange | pico-tunnel/pico_poc.c:451-482 | an acknowledged exchange forwards the information field and answers with the chain; the running number moves by one iff the number of blocks is odd or a reserved pcb bit is set |
| T1Session.SessionSends | pico-tunnel/pico_poc.c:409-490 | the bytes of a whole error-free session, with supervisory requests between the commands, are the chains of all answers in the field size then in force, and the replies |
| T1Session.SessionAnswers | pico-tunnel/pico_poc.c:409-490 | a terminal that reassembles answer after answer gets back all answers of such a session, in order |
| T1Session.SequenceAlternatesIff | pico-tunnel/pico_poc.c:409-490 | over such a session the sequence bits on the line alternate iff no answer of several blocks begins on an odd running number and each answer begins on the number to which the blocks of the answer before it lead |
| T1Session.NextAnswerInStepIff | pico-tunnel/util/util.c:225-249 | in numbers of requests: the next answer is in step iff the IFS and abort requests in between and a miscounted answer add up to an even number; after a resynchronisation iff the requests since then lead to the number due |
| T1Session.FirstLongAnswerRepeatsBit | pico-tunnel/pico_poc.c:409-482 | an answer of two blocks in the first exchange carries the bit 1 twice |
| T1Session.RequestBetweenAnswersRepeatsBit | pico-tunnel/pico_poc.c:434-440 | two answers of one block with an IFS request in between both carry the number 1 |
| T1Session.ReservedBitMiscounts | pico-tunnel/pico_poc.c:477-482 | a command with a reserved pcb bit: two blocks are counted as one |
| T1Session.ResendIsLastIff | pico-tunnel/pico_poc.c:441-450 | an error report after the last block brings back that block iff the response struct, whose field is never filled in, happens to hold its field, the command had no chaining bit, and the numbers agree, which takes two blocks or more |
| T1Session.ResendIsEmpty | pico-tunnel/pico_poc.c:441-450 | with a struct of zeros the second block of an answer is not brought back |
| T1Session.DividesByZeroIff | pico-tunnel/pico_poc.c:451-482 | the division by the field size fails iff the size is zero and the line carries an intact I-block |
| T1Session.ZeroSizeIsReachable | pico-tunnel/util/util.c:235-239 | a terminal that requests the size 0 gets it confirmed, and the next command divides |
| ApduCase.DetermineApduCase | pico-tunnel/util/iso7816_t0/class_tables.c:362-398 | the first entry that applies and lists the instruction settles the case, then the discovery table |
| ApduCase.UiccSimCaseIff | pico-tunnel/util/iso7816_t0/class_tables.c:288-398 | every header has exactly one case under the profile used |
| ApduCase.UiccSimHelpersPresent | pico-tunnel/util/iso7816_t0/class_tables.c:136-341 | every table entry that defers to a helper function has one, so no null pointer is called |
| ApduCase.CaseInRange | pico-tunnel/util/iso7816_t0/class_tables.c:362-398 | the case is one of 0 to 4 |
| ApduCase.GetResponseHasNoCommandData | pico-tunnel/util/iso7816_t0/class_tables.c:362-398 | GET RESPONSE never has command data, whatever the class byte |
| ApduCase.CaseIgnoresP3 | pico-tunnel/util/iso7816_t0/class_tables.c:136-398 | a command issued again with another P3 has the same case |
| ApduCase.CaseSets | pico-tunnel/util/iso7816_t0/class_tables.c:77-360 | for every header: each case holds for exactly its set of class, instruction, P1 and P2 |
| T0Relay.Relay.HandleCommand | pico-tunnel/pico_poc.c:265-338 | one pass of the relay loop: bytes to the terminal and cache; header and data of the command are forwarded, or nothing where the cache answers |
| T0Relay.CardGetsCommands | pico-tunnel/pico_poc.c:270-308 | over a run the card gets header and data of each command that the cache does not answer, whole and in order |
| T0Relay.LengthsByCase | pico-tunnel/pico_poc.c:277-295 | which commands carry P3 bytes of data and which expect P3 or 256 bytes, by class and instruction |
| T0Relay.Relay.DeliverResponse | pico-tunnel/pico_poc.c:317-333 | status words and responses of the expected length pass, any other response is kept and announced |
| T0Relay.StatusPasses | pico-tunnel/pico_poc.c:317-318 | a bare status word of the card reaches the terminal unchanged |
| T0Relay.CacheHidesCard | pico-tunnel/pico_poc.c:297-301 | GET RESPONSE while the cache is filled never reaches the card, and changes nothing: the old response is served again |
| T0Relay.RelayPreserves | pico-tunnel/pico_poc.c:265-333 | for a deliverable response, a terminal that follows 61xx with GET RESPONSE and 6Cxx with the command again ends up with the card's data and status word iff the command does not read a cache that holds anything else |
| T0Relay.RelayPreservesIff | pico-tunnel/pico_poc.c:264-333 | this holds with every card iff the length is 2, the expected one, longer but at most 255, or shorter (for GET RESPONSE itself: and not 257); for GET RESPONSE on a filled cache iff the cache holds that very response in the length asked for |
| T0Relay.AlwaysServedIff | pico-tunnel/pico_poc.c:297-301 | a command gets every deliverable response of the card iff it is not GET RESPONSE on a filled cache |
| T0Relay.CardsOwnFollowUpIff | pico-tunnel/pico_poc.c:265-333 | a bare 61xx or 6Cxx of the card itself: the follow-up reaches the card, and its response passes iff it is a status word or has the length asked for |
| T0Relay.RunPreservesIff | pico-tunnel/pico_poc.c:265-338 | over any run of commands the outcomes are the card's iff no GET RESPONSE meets a cached response other than the one the card would give |
| T0Relay.NoStaleFetch | pico-tunnel/pico_poc.c:265-338 | from reset on that is so if no GET RESPONSE follows directly on a command whose response has stayed in the cache |
| T0Relay.ContinuedIff | pico-tunnel/pico_poc.c:297-333 | data behind which the card announces more with 61yy: the rest can be fetched iff the first response has not stayed in the cache |
| T0Relay.ContinuationIsLost | pico-tunnel/pico_poc.c:297-333 | after reset: one byte and the announcement of five more, and the terminal is served the one byte again |
| T0Relay.ShortResponsesAreDeliverable | pico-tunnel/pico_poc.c:264-333 | every length from 2 to 255 and every expected length is among them |
| Atr.AnswerToReset.ParseDirect | pico-tunnel/util/util.c:840-930 | the walk ends at index 2 plus the number of announced interface bytes, in bounds, and sets F, D, protocol and the T=1 parameters as specified |
| Atr.AnswerToReset.ParseAtr | pico-tunnel/util/util.c:823-930 | the same for both conventions; any other first byte changes nothing |
| Atr.EndIsTotal | pico-tunnel/util/util.c:852-930 | the end of the walk is its start plus all bits announced by T0 and the TD bytes |
| Atr.LineParametersByBytes | pico-tunnel/util/util.c:851-880 | which TD1 gives which protocol, and when TA1 gives F and D |
| Atr.Td1Position | pico-tunnel/util/util.c:858-880 | TD1 lies behind T0 and the TA1, TB1 and TC1 that T0 announces |
| Atr.TablesOfTa1 | pico-tunnel/util/util.c:757-813 | F and D for every TA1 |
| Atr.ComplementedByBytes | pico-tunnel/util/util.c:825-836 | the inverse convention complements every byte but the first |
| Atr.ParametersComeFromUsed | pico-tunnel/util/util.c:898-930 | for every answer to reset the walk ends with TA and TB of one group: the last, when it announces bytes and is for protocol 0 or 1, otherwise the one before the last TD byte for these protocols |
| Atr.ParametersAreMeantIff | pico-tunnel/util/util.c:898-930 | IFSC, BWI and CWI are those of the first TA and TB for T=1, for all answers with these TD bytes, iff that group is the one used |
| Atr.LaterGroupWins | pico-tunnel/util/util.c:916-922 | two groups for T=1: the second TA replaces the first |
| Atr.GlobalBytesHideT1 | pico-tunnel/util/util.c:916-922 | a group for T=1 followed by TD3 for T=15: its TA and TB are dropped |
| Atr.GroupForT0IsUsed | pico-tunnel/util/util.c:916-928 | the TA3 of a group for T=0 is taken for IFSC |
| Atr.SwitchesEarlyIff | pico-tunnel/pico_poc.c:392-407 | the offset of prot_t1 is the index of TD1 in the walk, so it switches early iff F or D is not the default and a TA2 is announced |
| ProbeTimeline.PollTouchesLast | mobileatlas/management/src/moat_management/probe_routes.py:71-105 | an online status that ended less than two intervals ago is prolonged to now; any other is closed now and followed by an online one of a millisecond |
| ProbeTimeline.PollAddsStatusIff | mobileatlas/management/src/moat_management/probe_routes.py:71-105 | on every reachable timeline: a poll within two intervals of the last one of an online probe adds no status, a later one or one of an offline probe adds one |
| ProbeTimeline.CheckTouchesLast | mobileatlas/management/src/moat_management/routes.py:129-149 | an online status that ended more than two intervals ago is closed at its end and followed by an offline one of a millisecond; an offline one is prolonged to now, and reported when that takes it to half an hour |
| ProbeTimeline.CheckExpiresIff | mobileatlas/management/src/moat_management/routes.py:129-149 | on every reachable timeline: online for two intervals after the last poll, offline from two intervals and a millisecond on |
| ProbeTimeline.StepKeepsInvariant | mobileatlas/management/src/moat_management/routes.py:118-149 | each poll and each check keeps the whole invariant |
| ProbeTimeline.EveryRunIsWellFormed | mobileatlas/management/src/moat_management/probe_routes.py:67-110 | any interleaving with a clock that does not go back: exactly the newest status is active, statuses are contiguous, begin <= end, no offline after offline, no poll strictly inside an offline interval |
| ProbeTimeline.ClosedStatusesNeverChange | mobileatlas/management/src/moat_management/routes.py:129-149 | later events leave closed statuses as they are, and kind and beginning of the newest |
| ProbeTimeline.PollingMeansOnline | mobileatlas/management/src/moat_management/models.py:195-204 | while is_polling is true the active status is online, in every reachable state |
| ProbeTimeline.ReportedExactlyOnce | mobileatlas/management/src/moat_management/routes.py:126-147 | a status is reported exactly once if some check sees it offline for half an hour, and never otherwise, however far apart the checks are |
| ProbeTimeline.SeenOldIff | mobileatlas/management/src/moat_management/routes.py:140-147 | the recorded set is exactly the statuses that some check of the run has seen at that age |
| ProbeTimeline.ManagementDb.ProbePoll | mobileatlas/management/src/moat_management/probe_routes.py:63-110 | the poll acts on the timeline of its probe as specified and on no other |
| ProbeTimeline.ManagementDb.CheckProbeStatuses | mobileatlas/management/src/moat_management/routes.py:112-149 | one pass over the table acts on the timeline of every probe as specified, and reports accordingly |
| StatusStatistics.GetStatusStatistics | mobileatlas/management/src/moat_management/models.py:230-260 | durations by kind, time known and time before the first poll; each percentage is 100 times its duration by the time known, or 0 |
| StatusStatistics.TotalOfOne | mobileatlas/management/src/moat_management/models.py:244-246 | a status counts for its own kind with end minus begin |
| StatusStatistics.ListingEnds | mobileatlas/management/src/moat_management/models.py:166-170 | in the order of the relationship the first status is the newest and the last began with the first poll, however ties are resolved |
| StatusStatistics.DurationsTelescope | mobileatlas/management/src/moat_management/models.py:245-246 | the durations of contiguous statuses sum to the span of the timeline |
| StatusStatistics.TotalOfPermutation | mobileatlas/management/src/moat_management/models.py:244-246 | the totals do not depend on the order of the rows |
| StatusStatistics.StatisticsConserveTime | mobileatlas/management/src/moat_management/models.py:230-260 | on every reachable timeline online, offline and pre-registration time add up to known_for, and the percentages to 100 when it is positive |
| SimRegistration.Session.RegisterProvider | mobileatlas/tunnel/src/moatt_server/src/moatt_server/auth.py:73-157 | the transaction has exactly the specified outcome, with a rollback on refusal, and no insertion violates a constraint |
| SimRegistration.Session.MarkRows | mobileatlas/tunnel/src/moatt_server/src/moatt_server/auth.py:119-140 | the loop over matching rows deletes exactly the specified rows and providers |
| SimRegistration.RowsEqualRequest | mobileatlas/tunnel/src/moatt_server/src/moatt_server/auth.py:84-157 | on success the provider's rows are exactly the request, also with swapped cards, and unchanged rows keep in_use |
| SimRegistration.OthersIff | mobileatlas/tunnel/src/moatt_server/src/moatt_server/auth.py:107-140 | a row of another provider stays, unchanged, iff it shares no id, ICCID or IMSI with the request and its provider was not expired and in the way |
| SimRegistration.LiveRowStaysIff | mobileatlas/tunnel/src/moatt_server/src/moatt_server/auth.py:107-140 | a row of a live provider that shares no card number with the request stays iff its local id is not in the request |
| SimRegistration.SameLocalIdRemovesRow | mobileatlas/tunnel/src/moatt_server/src/moatt_server/auth.py:107-140 | two providers, two cards, one local id: the first provider loses its row |
| SimRegistration.ProvidersAfter | mobileatlas/tunnel/src/moatt_server/src/moatt_server/auth.py:75-82 | a provider is removed iff it is another, has expired and one of its rows matched |
| SimRegistration.ProviderStaysIff | mobileatlas/tunnel/src/moatt_server/src/moatt_server/models.py:44-51 | in columns: another provider stays iff no life time is set, its last activity is unknown or recent enough, or none of its rows shares an id, ICCID or IMSI with the request |
| SimRegistration.OwnProvider | mobileatlas/tunnel/src/moatt_server/src/moatt_server/auth.py:78-82 | a new provider is active from now on and allows re-registration; a known one is unchanged |
| SimRegistration.RowsAreNewOrOld | mobileatlas/tunnel/src/moatt_server/src/moatt_server/auth.py:147-155 | rows put in are not in use; all others are the old ones |
| SimRegistration.ConsistencyKept | mobileatlas/tunnel/src/moatt_server/src/moatt_server/models.py:16-27 | ICCID and IMSI stay unique table-wide and every row has its provider |
| SimRegistration.RefusedIff | mobileatlas/tunnel/src/moatt_server/src/moatt_server/auth.py:135-140 | a request is refused iff a live provider without re-registration would lose a row |
| SimRegistration.AuthErrorIff | mobileatlas/tunnel/src/moatt_server/src/moatt_server/auth.py:135-140 | the same in columns, with the life time spelled out |
| SimRegistration.ModifiedIff | mobileatlas/tunnel/src/moatt_server/src/moatt_server/auth.py:75-157 | the result is True iff the provider is new or its cards changed |
| SimRegistration.RegisterAgain | mobileatlas/tunnel/src/moatt_server/src/moatt_server/auth.py:84-157 | registering the same cards again changes nothing and returns False |
| TokenLifecycle.Server.TokenActivate | mobileatlas/management/src/moat_management/token_routes.py:112-169 | activation has exactly the specified effect, or none |
| TokenLifecycle.Server.ActivateFound | mobileatlas/management/src/moat_management/token_routes.py:137-169 | scope check, rows of the token, commit and rollback as specified |
| TokenLifecycle.Server.TokenRegister | mobileatlas/management/src/moat_management/token_routes.py:74-89 | a candidate is added, or nothing changes |
| TokenLifecycle.Server.AddTokenCandidate | mobileatlas/management/src/moat_management/token_routes.py:229-244 | the flush tells whether the candidate is new |
| TokenLifecycle.Server.DeleteToken | mobileatlas/management/src/moat_management/token_routes.py:190-215 | all tokens with the value go with their configuration and probe, or nothing does when the daemon refuses |
| TokenLifecycle.Server.Revoke | mobileatlas/management/src/moat_management/token_routes.py:97-109 | only a bearer can revoke, and then as by deletion |
| TokenLifecycle.Server.WireguardRegister | mobileatlas/management/src/moat_management/wireguard_routes.py:94-160 | registration of a key as specified, with the branch that drops the token |
| TokenLifecycle.Server.CheckToken | mobileatlas/management/src/moat_management/auth.py:98-110 | a token is returned only if it has the value and its scope covers what is needed, and none only if there is no such token or its scope does not |
| TokenLifecycle.Server.ChangeProbeName | mobileatlas/management/src/moat_management/routes.py:283-297 | a probe is renamed, or nothing changes when there is no such probe or the name is taken |
| TokenLifecycle.RenameEffect | mobileatlas/management/src/moat_management/routes.py:283-297 | renamed iff the probe exists and no other has the name |
| TokenLifecycle.RegistrationEffect | mobileatlas/management/src/moat_management/token_routes.py:74-89 | a new candidate is not active and has scope and address as sent; refused iff the candidate exists |
| TokenLifecycle.ActivationEffect | mobileatlas/management/src/moat_management/token_routes.py:120-169 | after activation: active with its candidate as value, open configuration with the address given, probe with the name given |
| TokenLifecycle.ActivationResult | mobileatlas/management/src/moat_management/token_routes.py:112-169 | an activation that fails changes nothing; a token is created exactly where none had the candidate |
| TokenLifecycle.DeactivationEffect | mobileatlas/management/src/moat_management/token_routes.py:190-215 | exactly the tokens with the value go, unless the daemon refuses |
| TokenLifecycle.RevocationEffect | mobileatlas/management/src/moat_management/token_routes.py:97-109 | refused iff no active token has the value |
| TokenLifecycle.KeyRegisteredIff | mobileatlas/management/src/moat_management/wireguard_routes.py:121-160 | a key is stored iff scope, open configuration and daemon allow it; the configuration is then closed, and the device address kept if unknown |
| TokenLifecycle.OneKeyPerActivation | mobileatlas/management/src/moat_management/wireguard_routes.py:129-160 | after one registration a further one is forbidden, whatever happens, until the next activation |
| TokenLifecycle.StepKeepsInvariant | mobileatlas/management/src/moat_management/models.py:90-128 | each action keeps: token is None or equals token_candidate; a configuration iff active with Wireguard scope; a probe iff active with probe scope; uniqueness |
| TokenLifecycle.TokenIsNeverDropped | mobileatlas/management/src/moat_management/wireguard_routes.py:121-128 | after any run the branch that should not happen is not reached |
| TokenLifecycle.PollFindsProbe | mobileatlas/management/src/moat_management/probe_routes.py:63-69 | after any run the bearer of a token with probe scope has a probe, and it is the only bearer |
| TokenLifecycle.ActivationSucceedsIff | mobileatlas/management/src/moat_management/token_routes.py:120-169 | activation goes through iff scope, name and address fit and the token has no probe yet |
| TokenLifecycle.OthersUntouched | mobileatlas/management/src/moat_management/token_routes.py:120-169 | activation leaves all rows of other tokens alone |
| TokenLifecycle.DeactivationClears | mobileatlas/management/src/moat_management/token_routes.py:172-215 | deactivation removes every row of the token, and its value can be registered anew |
| TokenLifecycle.NewTokenUniqueIff | mobileatlas/management/src/moat_management/token_routes.py:229-244 | a candidate can be added iff no token has it |
| VethRefCount.Mediator.EnableVethBridge | mobileatlas/probe/measurement/mediator/mobile_atlas_mediator.py:368-372 | count up, link up |
| VethRefCount.Mediator.DisableVethBridge | mobileatlas/probe/measurement/mediator/mobile_atlas_mediator.py:374-379 | count down to zero at least, link down at zero |
| VethRefCount.Mediator.EnableVethGateway | mobileatlas/probe/measurement/mediator/mobile_atlas_mediator.py:381-386 | bridge and gateway are both counted and brought up |
| VethRefCount.Mediator.DisableVethGateway | mobileatlas/probe/measurement/mediator/mobile_atlas_mediator.py:388-394 | both are released |
| VethRefCount.StepKeepsInvariant | mobileatlas/probe/measurement/mediator/mobile_atlas_mediator.py:368-394 | every statement of every thread keeps the invariant of locks, counts and links |
| VethRefCount.QuiescentState | mobileatlas/probe/measurement/mediator/mobile_atlas_mediator.py:368-394 | whenever no lock is held: each link is up iff its count is positive, the bridge is counted once per direct and once per gateway hold, gateway up implies bridge up |
| VethRefCount.NoDeadlock | mobileatlas/probe/measurement/mediator/mobile_atlas_mediator.py:381-394 | while some thread is inside an operation some thread can go on |
| VethRefCount.OperationsReturn | mobileatlas/probe/measurement/mediator/mobile_atlas_mediator.py:368-394 | no schedule needs more than eight statements per operation under way |
| VethRefCount.AloneIsMethod | mobileatlas/probe/measurement/mediator/mobile_atlas_mediator.py:368-394 | an operation that is not interrupted does what the method of that name does |
| Download.WebPayload.GetRequestSize | mobileatlas/probe/measurement/payload/payload_network_web.py:125-134 | without a preset: 10240 * 2^j bytes with j <= 10, at most max(missing, 10240), more than half of missing unless it is the cap |
| Download.RequestSizeIsUnique | mobileatlas/probe/measurement/payload/payload_network_web.py:125-134 | these three conditions leave one size only |
| Download.WebPayload.SendPayload | mobileatlas/probe/measurement/payload/payload_network_web.py:78-103 | requests, failures and traffic over any sequence of replies; it gives up exactly at the fourth failure in a row and goes on after the third; without a preset, on a network whose successes move what was asked for, it ends within 4 (missing / 10 MB + 12) replies |
| Download.FourFailuresIff | mobileatlas/probe/measurement/payload/payload_network_web.py:85-102 | the counter passes its limit exactly with the fourth failure in a row |
| Download.TrafficAdds | mobileatlas/probe/measurement/payload/payload_network_base.py:45-59 | the traffic of every request counts, failed or not |
| Download.RequestsBounded | mobileatlas/probe/measurement/payload/payload_network_web.py:82-103 | at most four requests per success, and four more |
| Download.SuccessesBounded | mobileatlas/probe/measurement/payload/payload_network_base.py:53-59 | each success uses up part of a bound of missing / 10 MB + 11 |
| Download.LoopIsBounded | mobileatlas/probe/measurement/payload/payload_network_web.py:78-139 | if every success moves at least what it asked for, the loop makes at most 4 (successes + 1) requests with at most missing / 10 MB + 11 successes |

## Left out

- Real sockets, TLS, closing of streams, UART and USB timing, GPIO, alarms, waiting time extension blocks, multicore launch and PPS baud rates.
- A pause longer than the read timeout between two bytes of a T=1 block: a byte is late only where no further byte arrives.
- The relay code of the tunnel server: one endpoint and the bytes of its peer are modelled.
- For answers to a block of a chain that are damaged on the way, and IFS requests without a value, only the exact behaviour (`T1Chain.WriteCompleteBuffer`), not the theorems of T1Answers.dfy.
- Encoding of the payload exchanged with the modem and the card, and the answer to reset that `SimTunnel.run` means to send first.
- Sessions of T=1 in which errors or supervisory requests come in the middle of an answer: T1Answers.dfy is about one such answer.
- An infinite resend on a silent T=1 line: the model stops and reports it (`stalled`).
- The other APDU profiles of class_tables.c, which the emulator does not use.
- T=0 terminals that issue GET RESPONSE with a length other than the announced one, and card answers of fewer than two bytes to a terminal's command.
- Floating-point waiting times, the dangling pointer of the inverse-convention branch and the clock measurement of parse_ATR.
- Two transactions of the management server on the same probe at the same moment: polls and checks are atomic.
- The access log, password and permission checks, `prune_candidates`, peers of the Wireguard daemon, and deletion of rows that other tables refer to.
- Authorisation by the auth handler in `register_provider`: the provider id of an authorised token is a parameter.
- Changes of link state by other programs than the mediator.
- The first request of the variant with an IP check, DNS bindings, and interface counters that go back.
- Credit checkers, dashboard, modem and network watchers, wg-daemon: input and output, scraping or user interface.
