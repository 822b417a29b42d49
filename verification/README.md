# Modbus gateway: a verified model

The gateway accepts Modbus/TCP requests on TCP and Unix sockets, routes them by rules, forwards them to a
serial (RTU) or TCP backend, and hands the answers back to the clients that asked. This project models the
parts in which bytes, order or identity could go wrong, and proves what the gateway promises about them.

* **CRC and RTU framing** (`BitwiseXor`, `BitStrings`, `CrcRegister`, `CrcPolynomial`, `CrcPeriod`, `RtuFrame`,
  `RtuReader`, `CrcErrors`). The two CRC loops compute one function, which is the remainder of GF(2) polynomial division by
  x^16 + x^15 + x^2 + 1 with the 0xFFFF preset. A frame is valid exactly when it drives the register to zero, so
  error detection is a question about the error pattern alone: it passes exactly when the generator divides it. Bursts
  of up to 16 bits and odd numbers of errors are always caught, two errors are missed exactly at distances divisible
  by 32767, up to three errors are caught in any frame of up to 4095 bytes, and a burst of 17 bits with four flips is
  missed anywhere in any frame, so these bounds are tight. The byte-at-a-time readers return the shortest valid
  prefix; they cut a frame short exactly when its last byte is zero or the generator divides a later end of it.
* **The codec** (`Coils`, `Pdu`, `PduLaws`, `PduLayout`, `PduObject`). A message survives encoding and decoding exactly when it
  is canonical (fields in range, kind agreeing with its function code), everything that decodes is canonical, and
  decode-then-encode neither fails, nor grows, nor changes the meaning. `PduLayout` states the wire
  in plain numbers, in both directions: which messages encode and which bytes are accepted, the function codes,
  and every field, coil and register at its position.
* **MBAP** (`Mbap`, `TransactionId`, `TcpClient`). Three encoders and a parser agree; the frontend's stream decoder
  gives the same requests under any chunking, one for every decodable frame of protocol 0 in order, and never loses
  alignment; transaction ids repeat after exactly 65535.
* **Routing** (`Router`). First match, as a characterisation in both directions in terms of the request's own fields, which rules can be deleted, over all
  queries and over the requests that can arrive, and which rule tables a received request can make raise.
* **Backends** (`SerialSession`, `SerialBackend`, `TcpReply`, `TcpPool`, `PoolSteps`, `PoolWaiting`). The inter-frame gap in timed
  runs, the retry loop, the reading of a reply off the byte stream, and the connection pool as a step machine over
  any number of concurrent submits, with its step boundaries at the awaits: its safety, what each step does, and exactly when a submit waits and when nothing will end the wait.
* **The pipeline** (`Bus`, `Frontend`, `Pipeline`, `PipelineSafety`, `PipelineGuarantees`, `PipelineQueues`,
  `PipelineProgress`, `PipelineBound`, `PipelineReuse`, `PipelineDelivery`, `PipelineCrash`, `Gateway`). Client handlers, pending tables, two bounded queues,
  dispatcher and responder as a step machine in which every `await` is a step boundary; the invariant and what follows
  from it for every run, back-pressure from the bounded queues included. `Gateway` and the classes in `Bus` and `Frontend` are the same steps as objects updated in
  place, tied to the step functions by their contracts.
* **End to end** (`EndToEnd`). A client's bytes in any chunks to the frames written back, a client's request to the
  frames written on a serial line or upstream, and a device's reply on a serial line or a pooled connection to the
  response the client reads.

## How to read the model

Bytes are a newtype over 0..255, the CRC register is a natural number with bitwise XOR defined by recursion on
halves, and 16-bit masking is written out as `% 0x1_0000`. Python exceptions are `Result` or `Option` values.
Times are reals.

Classes model the objects that the source updates in place. A class method's contract equates the new state with a
pure function of the old one (`View() == Accept(old(View()))`); the laws are then lemmas about that function. Step
machines have `Next(..., state, action)`, which is `None` when the action is not enabled, and `Run` over a sequence
of actions. History fields (`sent`, `arrived`, `handled`, `written`, and a job's `serial` and `since`) are recorded
and never branched on.

In the pipeline `Config.answer` stands for the backends: any function from a request occurrence, the backend's name
and the rewritten request to a response or a failure. No two requests of a run are the same job, so quantifying over
this function covers every behaviour of the backends, however nondeterministic.

Where the code does something other than its annotations suggest, the model follows the code:

* The `register` attribute of a raw request is a bound class method, not `None` (modbusgw/core/messages.py:70-73 hides
  the property at 37-39). Comparing it with a rule's register bound raises, and the dispatcher task ends. `Router`
  states exactly when, and for which rule tables; `PipelineCrash` states what follows: one such request stops the
  gateway from answering anybody.
* A submit that waits for a pooled connection is not woken when a connection is retired
  (modbusgw/backends/tcp.py:122-131). With one submit more than the pool is large, it can be left waiting on an empty
  pool; `PoolWaiting` gives the exact condition, on the number of submits and on the state.
* `with_unit` copies the cached raw bytes of the original; only the next `to_adu` refreshes them.
* A pending table entry is dropped before it is known whether there is anything to write, so an error response uses it
  up without writing a frame.
* A zero MBAP length field makes the frontend lose one byte of alignment.
* The first retry waits `backoff_min` even when that exceeds `backoff_max`.
* The blocking TCP client closes its socket on a malformed frame or a socket error, but leaves it open after a
  transaction mismatch, an undecodable response, or the peer's close.

## Model

| member | source | states |
|---|---|---|
| CrcRegister.ClientCrc16 | modbusgw_client/codecs.py:8-18 | the client's nested loop computes the CRC function `Crc` |
| CrcRegister.GatewayCrc16 | modbusgw/utils/crc.py:5-15 | the gateway's other form of the loop computes the same `Crc` |
| CrcRegister.StepLinear | modbusgw_client/codecs.py:13-17 | one bit step is linear over XOR |
| CrcRegister.StepsReachZero | modbusgw_client/codecs.py:13-17 | shifting loses nothing: the register becomes zero only from zero |
| CrcRegister.StepsInjective | modbusgw_client/codecs.py:13-17 | any number of bit steps is injective |
| CrcRegister.FeedIsFeedBits | modbusgw_client/codecs.py:11-17 | XORing in whole bytes equals feeding the message bit by bit, least significant bit first |
| CrcRegister.FeedAppend | modbusgw_client/codecs.py:10-17 | the loop over a concatenation continues from where the first part left the register |
| CrcRegister.FeedBitsSuperpose | modbusgw_client/codecs.py:8-18 | errors superpose: the register of message plus error is the XOR of the two registers |
| CrcRegister.BitsClearRegister | modbusgw_client/codecs.py:10-17 | sixteen bits clear the register exactly when they are its content |
| CrcRegister.FeedBitsParity | modbusgw_client/codecs.py:8-18 | the register's parity is the preset's parity plus the number of ones fed |
| CrcPolynomial.DivideRecomposes | modbusgw_client/codecs.py:8-18 | the reference division is right: quotient times generator plus remainder is the dividend |
| CrcPolynomial.DivisionUnique | modbusgw_client/codecs.py:8-18 | quotient and 16-bit remainder are determined by the dividend, so the division is the division |
| CrcPolynomial.GeneratorIsFeedback | modbusgw_client/codecs.py:17-17 | 0xA001 is the generator x^16+x^15+x^2+1 in reflected form |
| CrcPolynomial.CrcIsPolynomialRemainder | modbusgw_client/codecs.py:8-18 | for every byte string the CRC is the remainder of the preset, LSB-first message times x^16 |
| CrcPeriod.ReturnsAfterPeriod | modbusgw_client/codecs.py:13-17 | every 16-bit register value returns after 32767 shifts |
| CrcPeriod.NoShortPeriod | modbusgw_client/codecs.py:13-17 | none of the maximal proper divisors of 32767 is a period |
| CrcPeriod.UnitPeriod | modbusgw_client/codecs.py:13-17 | the polynomial's order: x^d leaves remainder 1 exactly when 32767 divides d |
| RtuFrame.ValidCrcIsZeroResidue | modbusgw_client/codecs.py:27-35 | the trailer comparison succeeds exactly when the whole frame drives the register to zero |
| RtuFrame.TrailerClears | modbusgw_client/codecs.py:21-24 | appending the CRC low byte first clears the register, and no other two bytes do |
| RtuFrame.StripInvertsBuild | modbusgw_client/codecs.py:21-35 | stripping a built frame gives the ADU back, or "too short" below two bytes |
| RtuFrame.StripAcceptsOnlyBuilt | modbusgw_client/codecs.py:21-35 | a frame is accepted as an ADU exactly when it is that ADU's built frame |
| RtuFrame.CorruptedAccepted | modbusgw_client/codecs.py:21-35 | whether a corrupted frame is accepted depends only on the error pattern's own residue |
| RtuFrame.BurstDetected | modbusgw_client/codecs.py:8-35 | any non-empty error within 16 consecutive transmitted bits is rejected, trailer included |
| RtuFrame.BuiltFrameParity | modbusgw_client/codecs.py:8-24 | every built frame has an even number of one bits |
| RtuFrame.OddErrorsDetected | modbusgw_client/codecs.py:8-35 | an odd number of flipped bits is always rejected |
| RtuFrame.TwoBitErrors | modbusgw_client/codecs.py:8-35 | two flipped bits go unnoticed exactly when 32767 divides their distance, in frames of any length |
| RtuFrame.UpToThreeErrorsDetected | modbusgw_client/codecs.py:8-35 | one to three flipped bits are always rejected in frames of up to 4095 bytes |
| CrcErrors.ZeroResidueIffMultiple | modbusgw_client/codecs.py:8-18 | a bit string leaves a zero register at zero exactly when the generator divides it |
| CrcErrors.UnnoticedIffMultiple | modbusgw_client/codecs.py:8-35 | an error goes unnoticed exactly when the generator divides its pattern |
| CrcErrors.DetectionIsTight | modbusgw_client/codecs.py:8-35 | at any place in any frame there is a 17-bit burst of four flips that is accepted |
| RtuReader.SerialLine.ReadByte | modbusgw/backends/serial.py:79-79 | one byte that arrives in time is taken off the line, or the read gives up; later bytes stay on the line |
| RtuReader.GatewayReadResponse | modbusgw/backends/serial.py:75-88 | the loop returns the shortest valid prefix of 4 to 256 bytes, with the right error otherwise, and leaves the rest of the line unread |
| RtuReader.ClientReadFrame | modbusgw_client/serial_client.py:84-98 | the client's loop, whose limit check comes after the CRC check, does the same up to 257 bytes |
| RtuReader.ShortestFrame | modbusgw/backends/serial.py:85-88 | the prefix found is valid, within the limit, and no shorter one is valid; none is found only if there is none |
| RtuReader.RunningRegisterFindsFrame | modbusgw/backends/serial.py:85-95 | recomputing the CRC for every prefix equals one register run along the stream |
| RtuReader.PrefixValidExactly | modbusgw/backends/serial.py:85-95 | a prefix of a valid frame is valid exactly when the rest of the frame has a residue of zero |
| RtuReader.ShortByOne | modbusgw/backends/serial.py:87-95 | a valid frame without its last byte is still valid exactly when that byte is zero |
| RtuReader.ShortByTwo | modbusgw/backends/serial.py:87-95 | without its last two bytes exactly when both are zero |
| RtuReader.WholeFrameReturned | modbusgw/backends/serial.py:75-88 | a valid frame is returned whole exactly when no shorter prefix is valid; something is returned in any case |
| RtuReader.FrameReturnedExactly | modbusgw/backends/serial.py:75-88 | that is, for frames of 4 to 256 bytes: exactly when no end of it from the fifth byte on has a residue of zero |
| CrcErrors.StopsEarlyAtMultiple | modbusgw/backends/serial.py:75-88 | in terms of the bytes: exactly when the last one is not zero and the generator divides no end from the fifth byte on |
| RtuReader.ShortFrameReturned | modbusgw/backends/serial.py:75-88 | for five- and six-byte frames this comes down to the last byte not being zero |
| RtuReader.ReadersDiffer | modbusgw_client/serial_client.py:95-98 | the two readers differ in one case only: a 257-byte frame, which the client accepts |
| Coils.PackCoilsLoop | modbusgw/core/messages.py:478-485 | the in-place loop packs eight coils to a byte, least significant bit first |
| Coils.UnpackCoilsLoop | modbusgw/core/messages.py:488-496 | the loop reads the bits back and stops at the end of the data |
| Coils.UnpackInvertsPack | modbusgw/core/messages.py:478-496 | unpacking what was packed gives the coils back |
| Coils.PackAfterUnpack | modbusgw/core/messages.py:478-496 | packing what was unpacked keeps the announced bits and clears the padding |
| Pdu.EncodeRegistersLoop | modbusgw/core/messages.py:268-273 | the loop appends every register masked to 16 bits, high byte first |
| Pdu.RegistersRoundTrip | modbusgw/core/messages.py:268-288 | reading registers back gives the values modulo 2^16 |
| PduLaws.RequestSurvives | modbusgw/core/messages.py:123-290 | every encodable request comes back with its wire values (a coil flag as 0xFF00 or 0, words modulo 2^16) |
| PduLaws.RequestRoundTrip | modbusgw/core/messages.py:41-79 | a request encodes and comes back unchanged exactly when it is canonical |
| PduLaws.DecodedRequestCanonical | modbusgw/core/messages.py:75-79 | whatever decodes is canonical |
| PduLaws.RequestReencodes | modbusgw/core/messages.py:44-79 | what decodes also encodes, to no more bytes than came in, and decodes to the same request |
| PduLaws.ReceivableExactly | modbusgw/core/messages.py:75-79 | a request is what some ADU of a possible length decodes to exactly when it is canonical and, if raw, fits the length field |
| PduLaws.WithUnitChangesFirstByte | modbusgw/core/messages.py:51-56 | a rewritten unit changes the first byte of the encoding and nothing else, or fails out of range |
| PduLaws.ResponseSurvives | modbusgw/core/messages.py:293-476 | the same for every encodable response, exceptions and raw ones included |
| PduLaws.ResponseRoundTrip | modbusgw/core/messages.py:93-109 | a response comes back unchanged exactly when it is canonical |
| PduLaws.DecodedResponseCanonical | modbusgw/core/messages.py:103-109 | whatever decodes is canonical |
| PduLaws.ResponseReencodes | modbusgw/core/messages.py:44-109 | decode-then-encode of a response succeeds, does not grow and keeps the meaning |
| PduLayout.RequestEncodesExactly | modbusgw/core/messages.py:44-49 | a request encodes exactly when unit and code fit a byte, address and quantity a word, and a multiple write has at most 2040 coils or 127 registers |
| PduLayout.RequestCodes | modbusgw/core/messages.py:123-290 | the second byte is 1, 2, 3, 4, 5, 6, 15 or 16 exactly for the request class of that code, and a raw request's own code, followed by its payload |
| PduLayout.RequestLayout | modbusgw/core/messages.py:44-49 | address and second word of every registered request at their positions, high byte first, and a right byte count |
| PduLayout.SingleCoilLayout | modbusgw/core/messages.py:188-200 | a coil is switched on by FF 00 and off by 00 00; a number goes out modulo 2^16 |
| PduLayout.CoilsLayout | modbusgw/core/messages.py:241-243 | coil i of a multiple write is bit i of the data, least significant bit of each byte first |
| PduLayout.RegistersLayout | modbusgw/core/messages.py:268-273 | register i of a multiple write is the i-th word of the data |
| PduLayout.RequestAcceptedExactly | modbusgw/core/messages.py:58-79 | bytes are accepted as a request exactly when they are as many as the code needs, announced register data included; more do no harm |
| PduLayout.DecodedRequestCodes | modbusgw/core/messages.py:75-79 | the class of an accepted request is that of its code byte; every other code gives a raw request with all its bytes |
| PduLayout.DecodedRequestLayout | modbusgw/core/messages.py:138-232 | address, quantity and value of an accepted request are the words at their positions |
| PduLayout.DecodedCoils | modbusgw/core/messages.py:250-260 | coil i is bit i of the data; there are as many as asked for, announced and present, whichever is least |
| PduLayout.DecodedRegisters | modbusgw/core/messages.py:280-290 | register i is the i-th word of the data, for as many as the quantity says |
| PduLayout.ResponseEncodesExactly | modbusgw/core/messages.py:293-448 | a response encodes exactly when its fields fit: unit and codes a byte, address and quantity a word, at most 255 bytes of data |
| PduLayout.ResponseCodes | modbusgw/core/messages.py:293-448 | the second byte is the class's code, or has the top bit set exactly for an exception, whose base code is below it |
| PduLayout.ResponseLayout | modbusgw/core/messages.py:293-448 | the fields of bit and write responses at their positions |
| PduLayout.RegistersReadLayout | modbusgw/core/messages.py:328-332 | register i of a read response is the i-th word after the byte count |
| PduLayout.ResponseAcceptedExactly | modbusgw/core/messages.py:103-109 | bytes are accepted as a response exactly when they are as many as the code needs and register data are whole words |
| PduLayout.DecodedResponseCodes | modbusgw/core/messages.py:103-109 | the class of an accepted response is that of its code byte; a set top bit makes it an exception |
| PduLayout.DecodedResponseLayout | modbusgw/core/messages.py:307-447 | fields of an accepted response are read from their positions; bits stop at the byte count or the end |
| PduLayout.DecodedRegistersRead | modbusgw/core/messages.py:335-345 | register i is the i-th word after the byte count |
| PduObject.RequestObject.ToAdu | modbusgw/core/messages.py:44-49 | encodes and caches the payload, then the whole frame; a failure leaves the older cache |
| PduObject.RequestObject.WithUnit | modbusgw/core/messages.py:51-56 | a fresh copy with the new unit and the original's cached bytes; the original is untouched |
| PduObject.Forward | modbusgw/core/dispatcher.py:78-80 | decode, rewrite unit, encode: succeeds exactly for accepted requests and byte units, does not grow, and means the same but for the unit |
| Mbap.EncodersAgree | modbusgw/frontends/tcp_modbus.py:202-208 | frontend, TCP backend and client write the same bytes for protocol 0 and fail on the same inputs |
| Mbap.FrameLayout | modbusgw_client/codecs.py:38-51 | id, zero protocol id and length as plain bytes, high byte first, in front of the ADU; a frame exists exactly when id and length fit |
| Mbap.ParseInvertsBuild | modbusgw_client/codecs.py:38-66 | the parser returns an id and ADU exactly for the frame built from them |
| Mbap.StreamHandler.ReadNext | modbusgw/frontends/tcp_modbus.py:126-144 | one exact read and what follows it: a header sets id, protocol, unit and length for the payload, a payload adds its request if the protocol is 0 and it decodes; with too few bytes nothing changes |
| Mbap.StreamHandler.Feed | modbusgw/frontends/tcp_modbus.py:126-144 | one chunk through the handler's read loop is the decoder function `Receive` |
| Mbap.ChunkingIrrelevant | modbusgw/frontends/tcp_modbus.py:126-144 | only the concatenation of the chunks matters |
| Mbap.FrameDrains | modbusgw/frontends/tcp_modbus.py:126-144 | a frame in front adds its own request under its own id if its protocol is 0 and its ADU decodes, nothing otherwise, and is consumed whole |
| Mbap.StreamDecoded | modbusgw/frontends/tcp_modbus.py:126-144 | for any frames with length at least 1 in any chunks, the requests handed on map one for one, in order, to all the frames with protocol id 0 whose ADU decodes, each with that frame's id and request, and the decoder ends aligned |
| Mbap.PartialStreamDecoded | modbusgw/frontends/tcp_modbus.py:126-144 | a prefix of such a stream yields a prefix of those requests |
| Mbap.ZeroLengthEatsOneByte | modbusgw/frontends/tcp_modbus.py:127-134 | a zero length field swallows the byte after the header, whatever it is |
| TransactionId.BackendIds.Next | modbusgw/backends/tcp.py:158-162 | the n-th id of the wrapping counter is `NthId(n)`, and one call moves the counter to `NextId` |
| TransactionId.ClientIds.Next | modbusgw_client/tcp_client.py:122-126 | the n-th id of the unbounded, masked counter is the same `NthId(n)` |
| TransactionId.ConsecutiveIdsDistinct | modbusgw/backends/tcp.py:158-162 | the ids count up from 1; any 65535 consecutive ones are distinct, and the next repeats the first |
| TcpClient.Socket.Receive | modbusgw_client/tcp_client.py:116-116 | some of the pending bytes, at most as many as asked; an exception or the empty string exactly when none are left |
| TcpClient.ReadExact | modbusgw_client/tcp_client.py:110-120 | returns the next bytes of the stream however they are chunked; fails exactly when the stream ends or breaks first |
| TcpClient.AwaitReply | modbusgw_client/tcp_client.py:72-81 | the outcome as a function of the byte stream and of how it ends; the socket is closed exactly after a malformed frame or a socket error |
| TcpClient.ReplyInExactly | modbusgw_client/tcp_client.py:72-81 | which byte streams are a response, a mismatch, an undecodable response, a malformed frame or too short, in terms of their bytes |
| TcpClient.RequestFramed | modbusgw_client/tcp_client.py:68-71 | a request that encodes has a frame up to 65535 bytes, with the given id, protocol 0, the right length and the request's ADU |
| TcpClient.Execute | modbusgw_client/tcp_client.py:65-81 | the same for a whole exchange: not connected, unencodable, failed to send, or as `AwaitReply`; the id used is the next one, the frame sent is the request's, and nothing is sent when it does not encode or frame |
| TcpClient.ReplyUnderstood | modbusgw_client/tcp_client.py:65-81 | a reply framed by the gateway is read back as the same response, or refused for another request's id |
| Router.RouterTable.Lookup | modbusgw/core/router.py:35-41 | the loop over the rules computes `Resolve` |
| Router.RouterTable.AddRule | modbusgw/core/router.py:29-30 | the rule goes to the end of the list |
| Router.RouterTable.Clear | modbusgw/core/router.py:32-33 | no rule is left |
| Router.RoutedIffFirstMatch | modbusgw/core/router.py:35-55 | for any query, a plan is returned exactly when it is the plan of the first rule that does not fail to match, and that rule matches |
| Router.ResolveUnrouted | modbusgw/core/router.py:35-41 | no plan exactly when no rule matches |
| Router.RoutedExactly | modbusgw/core/router.py:35-90 | a request is routed exactly by the least rule with its frontend, its unit and code listed or a wildcard or no list, an operation that covers its code, and bounds that hold its address inclusively; the plan has that rule, its backend and its unit or else the request's; a raw request only if that rule sets no bound |
| Router.UnroutedExactly | modbusgw/core/router.py:35-90 | it is unrouted exactly when no rule is of that kind |
| Router.RaisesExactly | modbusgw/core/router.py:83-90 | the lookup raises exactly for a raw request whose first rule not ruled out otherwise has a register bound |
| Router.RawRequestRaises | modbusgw/core/messages.py:70-73 | a concrete rule and raw request for which it does |
| Router.ExposedExactly | modbusgw/core/router.py:35-90 | some request that can arrive on a frontend makes the lookup raise exactly when, for some unit and unregistered function code, the first rule of that frontend without operations to list both bounds the register |
| Router.ResolveAppend | modbusgw/core/router.py:29-41 | appending rules changes no existing plan |
| Router.ShadowedRuleRemovable | modbusgw/core/router.py:35-41 | deleting a rule whose every match is covered by earlier ones changes no result |
| Router.UnshadowedRuleMatters | modbusgw/core/router.py:35-41 | a last rule that is not so covered changes the result of some query |
| Router.RemovableExactly | modbusgw/core/router.py:35-41 | a rule anywhere in the list can be deleted without changing any result exactly when, wherever no earlier rule decides, the later rules give what it gives |
| Router.RemovableForRequestsExactly | modbusgw/core/router.py:35-41 | the same over the requests that can arrive only, on any frontend |
| SerialSession.GapTimer.EnforceInterFrameGap | modbusgw/backends/serial.py:103-109 | the sleep is long enough: measured from the last frame's end the minimum gap has passed |
| SerialSession.GapTimer.FrameEnded | modbusgw/backends/serial.py:67-67 | the end of a successful exchange is remembered |
| SerialSession.CharTimeExactly | modbusgw/backends/serial.py:98-101 | a character is 9 bits plus parity bit plus stop bits, over the baud rate |
| SerialSession.MinGapExactly | modbusgw/backends/serial.py:57-59 | the minimum gap is the larger of 3.5 character times and the configured milliseconds |
| SerialSession.ExchangesSpaced | modbusgw/backends/serial.py:56-68 | in every timed run exchanges never overlap, and none starts within 3.5 character times or the configured gap after a successful one |
| SerialSession.GapExactlyAfterSuccess | modbusgw/backends/serial.py:61-68 | in every reachable state the next to take the lock is held back exactly when the exchange succeeded less than the minimum gap ago, and until that gap has passed |
| SerialSession.NoGapAfterFailure | modbusgw/backends/serial.py:61-68 | in every reachable state the next exchange may start the instant a failed one ends |
| SerialBackend.Backend.TryOnce | modbusgw/backends/serial.py:134-151 | one attempt opens a session if there is none, writes, decodes; a session remains exactly after success |
| SerialBackend.Backend.Attempts | modbusgw/backends/serial.py:133-156 | stops at the first success; every frame written is the same payload; the first sleep is backoff_min, sleep k is backoff_min times 2^k, or backoff_max where that is more |
| SerialBackend.Backend.Submit | modbusgw/backends/serial.py:127-156 | as `Attempts`, on the framed request, and the result is `SubmitResult`; a request that does not encode is never sent |
| SerialBackend.FirstSuccess | modbusgw/backends/serial.py:133-156 | the attempt found succeeds and no earlier one does |
| SerialBackend.SubmitExactly | modbusgw/backends/serial.py:133-168 | a submit returns the response of the first attempt that has a session and a reply that is a valid frame of a decodable response, and is out of retries exactly when there is none |
| SerialBackend.BackoffClosedForm | modbusgw/backends/serial.py:131-155 | wait k is backoff_min for k = 0, else backoff_min times 2^k, or backoff_max where that is more |
| SerialBackend.FailsExactlyWhenAllFail | modbusgw/backends/serial.py:133-156 | submit fails exactly when every attempt fails |
| SerialBackend.FramedResponseDecodes | modbusgw/backends/serial.py:158-168 | a framed canonical response is decoded to itself |
| TcpPool.ConnectionPool.TakeAvailable | modbusgw/backends/tcp.py:112-115 | takes the oldest idle connection, if there is one |
| TcpPool.ConnectionPool.AddConnection | modbusgw/backends/tcp.py:118-121 | a new connection joins the set and the count, and is not idle |
| TcpPool.ConnectionPool.ReleaseConnection | modbusgw/backends/tcp.py:124-125 | the connection goes to the end of the idle queue |
| TcpPool.ConnectionPool.RetireConnection | modbusgw/backends/tcp.py:127-131 | a member leaves set and count; a non-member changes nothing |
| TcpReply.DeviceStream.ReadExactly | modbusgw/backends/tcp.py:77-77 | the next bytes, or nothing when fewer arrive in time |
| TcpReply.ReadResponse | modbusgw/backends/tcp.py:77-86 | header, unit and payload reads with their checks give `Reading`, and take exactly the bytes it says |
| TcpReply.ReadingExactly | modbusgw/backends/tcp.py:77-86 | accepted are exactly the bytes with the right id, a positive length, as many bytes as announced, and a decodable response in them; the protocol id is not looked at |
| TcpReply.WellFramedReplyRead | modbusgw/backends/tcp.py:77-86 | a reply whose length field is right is accepted or refused on its own bytes, whatever follows, and taken whole |
| TcpReply.AlignedExactly | modbusgw/backends/tcp.py:81-85 | an accepted reply leaves the stream aligned exactly when its length field is right |
| TcpPool.NextKeepsInvariant | modbusgw/backends/tcp.py:47-131 | every step of every submit keeps the pool and wire invariants |
| TcpPool.PoolIsSafe | modbusgw/backends/tcp.py:111-131 | in every run the count is the set's size and at most pool_size, idle connections are distinct members nobody holds, and no connection has two holders |
| TcpPool.RepliesMatchRequests | modbusgw/backends/tcp.py:47-86 | with a device that answers in order, at most once and with right length fields, idle connections owe nothing and every reply returned answers its own request |
| PoolSteps.StartExactly | modbusgw/backends/tcp.py:47-122 | a submit takes the oldest idle connection if there is one; else it queues at the lock, or creates a connection if there are fewer than pool_size, or waits; having got one it writes under the next id |
| PoolSteps.LockExactly | modbusgw/backends/tcp.py:116-122 | whoever gets the lock creates a connection if there are fewer than pool_size, else takes the oldest idle one, else waits |
| PoolSteps.WakeExactly | modbusgw/backends/tcp.py:122-122 | a waiter goes on exactly when a connection is idle, with the oldest |
| PoolSteps.CreatedExactly | modbusgw/backends/tcp.py:118-121 | a created connection is counted and goes to its maker; if the maker's request does not encode it leaves the pool again |
| PoolSteps.ReadExactly | modbusgw/backends/tcp.py:47-86 | a submit succeeds, and its connection joins the end of the idle queue, exactly when the reply has its id and decodes; else the connection leaves the pool |
| PoolSteps.ReadFailedExactly | modbusgw/backends/tcp.py:51-53 | a time-out or broken connection retires the connection |
| PoolSteps.FailuresEnd | modbusgw/backends/tcp.py:51-53 | a failed connect and the close after a retirement end the submit and change nothing in the pool |
| TcpPool.ReadStepReadsBytes | modbusgw/backends/tcp.py:77-86 | in every run, reading the bytes on the wire accepts what the step accepts and then leaves exactly the bytes of the unread replies |
| PoolWaiting.WaitingNeedsFullPool | modbusgw/backends/tcp.py:116-122 | a submit is made to wait only when more than pool_size submits are under way |
| PoolWaiting.NoWaiting | modbusgw/backends/tcp.py:111-122 | with at most pool_size submits under way, none is ever made to wait |
| PoolWaiting.SequentialNeverWaits | modbusgw/core/dispatcher.py:37-45 | the dispatcher, one submit at a time, never reaches the blocking wait |
| PoolWaiting.WaitingExactly | modbusgw/backends/tcp.py:111-131 | for every pool size and limit: runs with at most that many submits at a time never make one wait, and never strand one, exactly when the limit is at most the pool size |
| PoolWaiting.RetirementStrandsWaiter | modbusgw/backends/tcp.py:127-131 | for every pool size n, a run in which n submits write and time out and one more, which had to wait, is left waiting on an empty pool |
| PoolWaiting.StrandedStays | modbusgw/backends/tcp.py:122-131 | a stranded waiter stays stranded through every step but a new submit |
| PoolWaiting.ServedUnlessStranded | modbusgw/backends/tcp.py:111-131 | in every reachable state some steps without a new submit give a waiter a connection exactly unless it is stranded: nothing idle, nobody creating or about to, every holder with a refused reply already on the wire |
| Bus.GatewayBus.constructor | modbusgw/core/bus.py:13-19 | four empty topics, all with the configured limit |
| Bus.GatewayBus.Publish | modbusgw/core/bus.py:31-34 | puts at the tail exactly when the queue holds fewer than queue_size messages or queue_size is zero, else the publisher waits; other topics untouched |
| Bus.GatewayBus.Get | modbusgw/core/bus.py:44-46 | takes the head, or waits; other topics untouched |
| Frontend.RequestIdInjective | modbusgw/frontends/tcp_modbus.py:113-145 | within a frontend a request id determines client and transaction id |
| Frontend.DecimalReads | modbusgw/frontends/tcp_modbus.py:113-145 | the numbers in a request id are plain decimal without leading zeros |
| Frontend.FrontendTable.AcceptClient | modbusgw/frontends/unix_modbus_tcp.py:86-94 | numbers the client and counts it, or refuses at the limit with nothing changed |
| Frontend.FrontendTable.RejectClient | modbusgw/frontends/tcp_modbus.py:112-121 | a client turned away for its certificate has used up a number and left nothing else |
| Frontend.RefusesExactly | modbusgw/frontends/unix_modbus_tcp.py:86-92 | a client is refused exactly on a Unix socket with max_clients handlers |
| Frontend.FrontendTable.RecordRequest | modbusgw/frontends/tcp_modbus.py:145-165 | the entry is stored under client and transaction id, replacing an older one |
| Frontend.FrontendTable.TakePending | modbusgw/frontends/tcp_modbus.py:85-91 | returns and removes the entry, if any |
| Frontend.FrontendTable.HangUp | modbusgw/frontends/tcp_modbus.py:169-173 | collecting the client's ids and removing them one by one drops exactly its entries |
| Frontend.FrontendTable.ClientClosed | modbusgw/frontends/unix_modbus_tcp.py:145-150 | the handler leaves and the count goes down |
| Frontend.AcceptKeeps | modbusgw/frontends/unix_modbus_tcp.py:86-94 | a new client's number is unused, and the count still equals the handlers and is within the limit |
| Frontend.RequestKeeps | modbusgw/frontends/tcp_modbus.py:145-165 | entries still belong to live clients under their own keys |
| Frontend.HangUpKeeps | modbusgw/frontends/tcp_modbus.py:169-173 | no entry of a client that hung up remains |
| Frontend.ClosedKeeps | modbusgw/frontends/unix_modbus_tcp.py:150-150 | the invariant survives a handler's end and the clamp at zero never acts |
| Gateway.DispatcherTask.RunOnce | modbusgw/core/dispatcher.py:41-78 | the object's run is the pipeline's `Take` step, or waiting when the queue is empty |
| Gateway.DispatcherTask.SubmitDone | modbusgw/core/dispatcher.py:79-95 | the backend's return or exception is the pipeline's `SubmitDone` step |
| Gateway.DispatcherTask.Deliver | modbusgw/core/dispatcher.py:82-95 | publishing into a queue that was full is the pipeline's `Deliver` step |
| Gateway.HandleResponse | modbusgw/frontends/tcp_modbus.py:84-101 | pops the entry, and writes the frame the pipeline's `DeliveryFor` says, to the client it says |
| Gateway.ResponderTask.RunOnce | modbusgw/core/responder.py:40-52 | one message from the bus to its frontend is the pipeline's `Respond` step on bus and tables |
| PipelineSafety.NextKeepsInvariant | modbusgw/core/dispatcher.py:41-95 | every step of handlers, dispatcher and responder keeps conservation, labelling, matching and the tables' invariants |
| PipelineSafety.RunKeepsInvariant | modbusgw/core/dispatcher.py:37-95 | so does every run |
| PipelineSafety.DeliveryIsAnswer | modbusgw/frontends/tcp_modbus.py:84-101 | what is written for a message goes to the client of the message's own request, as the answer to that request |
| PipelineGuarantees.OneMessagePerRequest | modbusgw/core/dispatcher.py:41-95 | the published messages answer the arrived requests one for one, in arrival order: no route when no rule takes the request, no backend when the plan's is unknown, else the backend's answer to the rewritten request or its failure; the rest are in hand or queued, and no request is duplicated |
| PipelineGuarantees.FramesMatchRequests | modbusgw/frontends/tcp_modbus.py:84-101 | in every run a client's frames map injectively and in order to the requests it sent, each carrying the answer to that request, even when ids are reused |
| PipelineGuarantees.AnswerReadsBack | modbusgw/core/dispatcher.py:47-95 | a request is answered only if its first matching rule leads to a configured backend that answers the request rewritten for the rule's unit; the client's parser reads from the frame the request's own transaction id and that answer |
| PipelineGuarantees.AnsweredExactly | modbusgw/core/dispatcher.py:47-95 | a request has a frame exactly when it is routed to a configured backend whose response encodes in at most 65535 bytes |
| PipelineGuarantees.HangUpGone | modbusgw/frontends/tcp_modbus.py:167-173 | a client that hangs up is gone |
| PipelineGuarantees.NothingAfterHangUp | modbusgw/frontends/tcp_modbus.py:112-113 | once gone, a client is never written to, sends nothing, and its number is never given out again |
| PipelineGuarantees.TablesStayRight | modbusgw/frontends/unix_modbus_tcp.py:119-150 | in every run entries belong to live clients under their own keys and the Unix count equals the handlers, within the limit |
| PipelineGuarantees.ArrivedReceivable | modbusgw/frontends/tcp_modbus.py:136-144 | in every run each request that arrived is what some ADU of a possible length decodes to |
| PipelineQueues.QueuesBounded | modbusgw/core/bus.py:13-34 | in every run neither queue holds more than queue_size items |
| PipelineQueues.ArriveBlocksExactly | modbusgw/frontends/tcp_modbus.py:157-166 | in every reachable state a handler is made to wait with its request exactly when the requests queue is full |
| PipelineQueues.PutWaitsForRoom | modbusgw/core/bus.py:31-34 | it can go on exactly when the queue is not full |
| PipelineQueues.AnswerBlocksExactly | modbusgw/core/dispatcher.py:79-95 | in every reachable state the dispatcher is left with the answer in hand exactly when the responses queue is full, and until it is not |
| PipelineQueues.RefusalBlocksExactly | modbusgw/core/dispatcher.py:48-77 | the same for an answer it gives without a backend |
| PipelineQueues.OneFrameAtATime | modbusgw/core/responder.py:40-52 | the responder takes no message until the frame it wrote has been drained |
| PipelineQueues.ClientStepsEnabled | modbusgw/frontends/unix_modbus_tcp.py:86-140 | in every reachable state a client can connect exactly below the limit, and send or hang up exactly while its handler reads |
| PipelineProgress.InternalStepShrinks | modbusgw/core/bus.py:31-46 | every step the gateway takes by itself lowers a weighted count of the items in flight |
| PipelineProgress.InternalRunsAreShort | modbusgw/core/responder.py:40-52 | so a run of such steps is no longer than the weight |
| PipelineProgress.EnabledUntilSettled | modbusgw/core/dispatcher.py:37-95 | such a step is possible exactly until nothing is in flight, or all is that can go round a dead dispatcher |
| PipelineProgress.Drains | modbusgw/core/dispatcher.py:37-95 | from every reachable state the gateway can settle by itself within that many steps |
| PipelineProgress.CrashedByLookup | modbusgw/core/dispatcher.py:48-48 | the dispatcher dies only on a request that arrived and whose lookup raises |
| PipelineProgress.SettledAnsweredAll | modbusgw/core/dispatcher.py:41-95 | a settled gateway has handled every request of every client exactly when no lookup raised |
| PipelineBound.ServingStepServes | modbusgw/core/dispatcher.py:41-95 | every step the gateway takes by itself, other than letting a waiting handler queue, lowers the weight of what is ahead of an unpublished answer |
| PipelineBound.ServingEnabled | modbusgw/core/dispatcher.py:37-95 | until it is published, or the dispatcher dies, there is such a step to take |
| PipelineBound.PublishedWithin | modbusgw/core/dispatcher.py:37-95 | in every run an arrived request's answer is published before the gateway has taken more such steps than that weight, whatever clients do and however many requests arrive behind it |
| PipelineBound.HandledWithin | modbusgw/core/responder.py:40-52 | in every run the responder has handled a position within twice as many of its steps as there are messages up to it |
| PipelineCrash.CrashedForever | modbusgw/core/dispatcher.py:37-48 | in every run after a lookup raised, the dispatcher stays dead and no message is published any more |
| PipelineCrash.UnansweredForever | modbusgw/core/dispatcher.py:37-48 | a client without a published answer by then is never written to, whatever it sends |
| PipelineCrash.OneRequestCrashes | modbusgw/core/dispatcher.py:41-48 | from a fresh gateway, one request that can arrive and whose lookup raises, sent by the first client, is enough |
| PipelineCrash.RawRequestCrashes | modbusgw/core/router.py:83-90 | a concrete rule table that one raw request which can arrive brings down |
| PipelineCrash.CrashReachableExactly | modbusgw/core/dispatcher.py:41-48 | some run kills the dispatcher exactly when the rule table is exposed for some frontend: for some unit and unregistered function code, the first rule of that frontend without operations to list both bounds the register |
| PipelineReuse.NextExact | modbusgw/frontends/tcp_modbus.py:84-101 | every step keeps: a client has an entry under an id exactly when it sent that id since a message under it was last handled |
| PipelineReuse.WrittenExactly | modbusgw/frontends/tcp_modbus.py:88-91 | in every run, with ids reused in any way, a handled request of a connected client got a frame exactly when it has an answer and its id was sent since a message under that id was last handled; any other answer is dropped |
| PipelineDelivery.AllAnswersDelivered | modbusgw/frontends/tcp_modbus.py:84-101 | a connected client that sends an id again only after the earlier request under it was handled has been sent exactly the answers to its handled requests, in the order sent |
| PipelineDelivery.SettledDeliveredAll | modbusgw/core/responder.py:40-52 | once the gateway has settled, and no lookup raised, that is the answers to all its requests |
| EndToEnd.StreamAnswered | modbusgw/frontends/tcp_modbus.py:84-166 | a patient client's bytes, in any chunks, are answered with exactly the frames for all the frames of protocol 0 among them whose ADU decodes, in order |
| EndToEnd.SubmitSerial | modbusgw/backends/serial.py:127-156 | every frame a serial backend writes for a handled request strips to an ADU that decodes to the client's request with the plan's unit; with a unit out of range nothing is written |
| EndToEnd.RequestReachesUpstream | modbusgw/backends/tcp.py:68-75 | a TCP backend's frame for a handled request is read by a frontend at the other end as the client's request with the plan's unit, under the backend's id |
| EndToEnd.SerialReplyReachesClient | modbusgw/backends/serial.py:127-168 | a device's RTU reply, with anything after it on the line, is read by the client as the response the device gave, under the request's own id |
| EndToEnd.PooledReplyReachesClient | modbusgw/backends/tcp.py:47-109 | in every run of the pool, an answered request's frame is read by the client as the reply the device gave to that very request |

## Left out

- Task cancellation, `stop`, `close` and configuration reload: every run is one in which no task is cancelled.
- `TcpModbusBackend.close` racing with live submits (modbusgw/backends/tcp.py:58-66).
- The serial RTU frontend (modbusgw/frontends/serial_rtu.py): pseudo-terminal and timer work around a CRC check already modelled.
- The client's own PDU module (modbusgw_client/pdu.py): it mirrors the PDU half of modbusgw/core/messages.py.
- TLS, certificates, DN and CIDR rules: a policy decision is the `Deny` action; a CIDR refusal changes nothing.
- Sockets, pyserial and the operating system: streams are byte sequences, timeouts and failures are choices of the environment.
- Bus tracers and request metadata: nothing modelled reads them.
- Rule fields that no code reads, `mirror_to_mqtt`, logging, command line, PID files and signal handling.
- Connection errors while reading: they end a handler as the end of the stream does (`HangUp`).
- Unit ids seen by the client: the response's unit id is not mapped back (modbusgw/frontends/tcp_modbus.py:92-96), and the model does not map it either.
- Reply frames for `no_route`, `backend_not_found` and `backend_error`: the code writes none.
- Fair scheduling: progress is stated as enabledness, a strictly falling weight and the existence of a settling run.
- Floating point: backoff, gap and clock values are reals, so rounding is not modelled.
- MBAP frames with a zero length field are outside the alignment theorem; what they do is stated separately.
- RtuReader.SerialLine.ReadByte: time is not measured; which bytes arrive before the timeout is the environment's choice.
- RtuReader.GatewayReadResponse: likewise; bytes after the first timeout stay on the line unread.
- RtuReader.ClientReadFrame: likewise for the overall deadline.
- TcpPool.RepliesMatchRequests: rests on the stated assumptions about the device, which no code enforces; what a wrong length field does is stated by `TcpReply.AlignedExactly`.
- EndToEnd.SerialReplyReachesClient: the attempts of a submit and the session found are given, not produced by a device model.
- EndToEnd.PooledReplyReachesClient: that submit `t` of the pool's run carries this job's request is given; what its frame says is `EndToEnd.RequestReachesUpstream`.
- The order in which tasks waiting for the pool's lock or for an idle connection are woken: the model lets any of them go first.
- Bus.GatewayBus.Publish: waiting publishers are not objects; the pipeline keeps them in `blocked` and lets any of them go first.
