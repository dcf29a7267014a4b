# Verified model of xmmrpc

xmmrpc is a userspace driver for the RPC protocol of the Intel XMM7360 modem.
This project models its four layers in Dafny and proves what each of them
promises, with every layer resting on the one below.

1. **The field codec** (`Codec`, `Cursor`, `DecodingLaws`, `PackingLaws`).
   `Codec` says what a payload means and what bytes a format string and its
   arguments stand for. `Cursor` holds the reader and the loops, proved equal to
   those functions. Payloads concatenate; the two decoders agree; packing is
   field-by-field encoding and fails exactly at the first misfit. A packed payload
   decodes if and only if every string's element count reads the same in both byte
   orders: the encoder writes long counts most significant byte first
   (src/codec.rs:228-236) and the decoder reads them least significant byte first
   (src/codec.rs:317-322). The encoder's comment calls the count big-endian and
   nothing calls it little-endian; the model follows the code, and `RoundTripFails`
   gives the smallest failing element count, 256.
2. **Framing and messages** (`Framing`, `Messages`). An arbitrarily chunked
   stream becomes frames. The frames returned do not depend on the chunking, no
   byte is lost or invented, and the buffer stays bounded. Every request within
   the size limit survives the whole stack.
3. **The session** (`Transport`, `Session`, `Debts`). `Transport.Rpc` is the object of
   the driver, with a ghost history; its validity ties port, buffer and history to
   the operations performed on the port as it was opened, and the packets written
   to the requests in the history. `Session` is the protocol between host and
   firmware. Responses carry no request number. `Debts` counts, from the outcomes
   of the calls alone, the requests outstanding since the last reopening: with none
   outstanding a success is the request's own response, on every run; against a
   firmware whose answers can be read and come in order, it is so if and only if
   none is outstanding. Reopening after each failed request keeps the count at zero.
4. **The bring-up** (`Requests`, `Apn`, `Bringup`, `Endings`, `Modem`, `Pairing`,
   `Runs`, `Shifted`, `Reached`).
   `Bringup` is an automaton over the history of the port; `Modem` proves that every
   phase of the driver, and the whole run, follows it, whatever the port, the
   firmware and the clocks do. The lemmas of `Bringup` say what every such history
   has in common. `Endings` says how a run ends: the phase and the last act decide the
   outcome, every error has its reason there, and a run on which every reply leads on
   succeeds; `Reached` is such a run. `Pairing` reads a run of the driver as a run of
   the session: every reply that moves a phase answers that phase's request, up to a
   failed version query, after which src/main.rs:52-55 goes on without reopening.
   `Shifted` follows such a run from the probe on, to an attach granted by the reply
   to the APN configuration.

Bytes and 32-bit words are subset types of `int`; wrap-around (`as u32`, the
widths of `B` and `H`) is written out. Bit operations are written as the
arithmetic they amount to: `valid & 0x80 != 0` as `valid >= 128`, `& 0x0f` as
`% 16`, an or of disjoint bits as a sum. The outside world is data: a `Port`
lists what the open file delivers (chunks, faults, quiet spells), whether each
write succeeds and what each reopening yields; a run is given the opened port, or
none; deadlines are lists of answers of the clock; the outcome of configuring the
network is a parameter; the answer to an FCC challenge is a function parameter. A
list that runs out means end of file, failure, or a deadline passed, and the
properties hold for every list. Request payloads that no reply has a part in are
computed before the run (`BodiesFor`); those that can fail are reported where the
driver computes them.

The documentation of src/apn.rs:5-8 counts 203 specifiers; the format string has
203 characters and 131 specifiers, and the model has 131. Its format string is
written block by block.

## Model

| member | source | states |
|---|---|---|
| ByteSeqs.FromBeOfBe32 | src/codec.rs:72-73 | reading the big-endian bytes of a word, or its low one or two bytes, gives back the word or its low part |
| ByteSeqs.MirrorFixedIffPalindromic | src/codec.rs:228-236 | a count written in one byte order and read in the other keeps its value exactly when its numeral is a palindrome |
| ByteSeqs.SmallPalindromes | src/codec.rs:225-236 | counts below 256, and 257, read the same in both byte orders |
| Codec.IntField | src/codec.rs:289-303 | an integer field takes at least 3 bytes of input |
| Codec.StringField | src/codec.rs:306-339 | a string field takes at least 8 bytes and its payload |
| Cursor.Reader.constructor | src/codec.rs:253-255 | a new reader has all its input unread |
| Cursor.Reader.PeekU8 | src/codec.rs:263-268 | the next byte without consuming it, or end of input |
| Cursor.Reader.TakeU8 | src/codec.rs:271-275 | consumes exactly the next byte; at the end reports it and stays |
| Cursor.Reader.Take | src/codec.rs:278-286 | consumes exactly `n` bytes, or none when there are fewer |
| Cursor.Reader.TakeAsnInt | src/codec.rs:289-303 | reads the integer field in front, value, rest and error as specified |
| Cursor.Reader.TakeLength | src/codec.rs:315-323 | reads the element count in front, little-endian when extended |
| Cursor.Reader.TakeBody | src/codec.rs:326-338 | checks the two counts, returns the payload and skips the padding |
| Cursor.Reader.TakeString | src/codec.rs:306-339 | reads the string field in front, padding stripped, with every error |
| Cursor.Reader.TakeValue | src/codec.rs:347-353 | reads the field its tag announces |
| Cursor.Reader.TakeKind | src/codec.rs:363-367 | reads the field a format character asks for |
| Cursor.DecodeValues | src/codec.rs:343-356 | decodes a payload to the end, terminating on every input |
| Cursor.Unpack | src/codec.rs:359-370 | decodes as many fields as the format has characters |
| Cursor.LengthBytes | src/codec.rs:225-237 | the digit loop yields one byte below 128, else a count and the digits, highest first |
| Cursor.TakeDigits | src/codec.rs:192-195 | splits a format behind its leading decimal digits |
| Cursor.PushString | src/codec.rs:216-241 | appends one whole string field to the output |
| Cursor.PackString | src/codec.rs:186-243 | encodes one string or fails for the specified reason, and leaves the format behind its digits |
| Cursor.Pack | src/codec.rs:133-184 | encodes any format and arguments, malformed ones included, as specified |
| DecodingLaws.IntFieldExtends | src/codec.rs:289-303 | more input behind an integer changes nothing but running out of input |
| DecodingLaws.StringFieldExtends | src/codec.rs:306-339 | more input behind a string changes nothing but running out of input |
| DecodingLaws.ZeroCountIsUnchecked | src/codec.rs:326-333 | a total count of zero is not held against payload and padding |
| DecodingLaws.OtherCountsAreChecked | src/codec.rs:326-333 | any other total count has to be that of payload and padding |
| DecodingLaws.DecodedConcat | src/codec.rs:343-356 | after a payload that decodes, any other decodes as on its own, errors included; other errors are final |
| DecodingLaws.DecodedProgress | src/codec.rs:343-356 | 3 bytes an integer and 8 bytes and the payload a string fit in the input |
| DecodingLaws.UnpackedShape | src/codec.rs:359-370 | a successful unpack returns one value of the right kind per format character |
| DecodingLaws.UnpackedThenDecoded | src/codec.rs:343-370 | an unpack reads a prefix of what the self-describing decoder reads and leaves it the rest |
| DecodingLaws.UnpackedAllIsDecoded | src/codec.rs:343-370 | an unpack that uses up its input equals the self-describing decoder |
| DecodingLaws.UnpackedAgrees | src/codec.rs:343-370 | on a payload that decodes, an unpack succeeds exactly when its format is a prefix of the shape, and returns that prefix |
| DecodingLaws.IntFieldOfAsnInt | src/codec.rs:71-74 | an encoded integer reads back as itself, whatever follows |
| DecodingLaws.SpliceDecodes | src/modem.rs:252-254 | cutting the last integer off one payload and appending another and an integer concatenates their values |
| PackingLaws.PackedIsEncoded | src/codec.rs:133-184 | on the rendered form of any specifiers, packing is field-by-field encoding |
| PackingLaws.PackedSucceedsIffAllFit | src/codec.rs:133-243 | packing succeeds exactly when counts, types, element multiples and capacities fit; otherwise the first misfit decides the error |
| PackingLaws.EncodedSize | src/codec.rs:133-243 | an integer takes 2 bytes and its width, a string 13, its count code and its capacity |
| PackingLaws.IntegerLayout | src/codec.rs:71-74 | the bytes of an integer of each width |
| PackingLaws.TextLayout | src/codec.rs:216-241 | the parts of a string field and its three tags |
| PackingLaws.LengthCodeIs | src/codec.rs:225-237 | the bytes of every element count below 65536 |
| PackingLaws.FieldDecodes | src/codec.rs:186-243 | one encoded field reads back as its argument, or as the mismatch of its mirrored count |
| PackingLaws.RoundTrip | src/codec.rs:133-356 | decoding a packed payload gives the arguments or the mismatch at the first string that does not survive |
| PackingLaws.SpecsRender | src/codec.rs:133-184 | a well-formed format string is the rendered form of the specifiers read off it |
| PackingLaws.RenderedSpecs | src/codec.rs:133-184 | and of no others |
| PackingLaws.PacksIffFits | src/codec.rs:133-243 | any format string packs exactly when it is well formed and its arguments fit its specifiers one for one |
| PackingLaws.RoundTripIff | src/codec.rs:133-356 | for any format string and arguments that pack, the payload decodes if and only if every element count is palindromic in base 256, and then to the arguments |
| PackingLaws.RoundTripFails | src/codec.rs:228-236 | 256 bytes in a field of 256 pack but do not decode, the count being read as 1 |
| Framing.NextFrameExtends | src/transport.rs:217-226 | more input never changes a decided length |
| Framing.LengthWordDecides | src/transport.rs:217-225 | for every length word, which lengths are rejected and when a frame is whole |
| Framing.CallEndsExactly | src/transport.rs:213-266 | a call ends with an outcome if and only if the first thing that decides it says so: a frame, a bad length, a fault, the end, a quiet spell under a deadline |
| Framing.TimeoutExactly | src/transport.rs:241-266 | a call times out if and only if it has a deadline and a quiet spell comes before anything decides it |
| Framing.QuietIsOutlasted | src/transport.rs:241-244 | without a deadline a call is what it is on the events less every quiet spell |
| Framing.FirstFrame | src/transport.rs:213-238 | a call returns the first frame of the stream, or nothing, and leaves all the rest |
| Framing.Conservation | src/transport.rs:213-238 | no call loses, invents or reorders a byte, on timeouts and errors too |
| Framing.BytesAccounted | src/transport.rs:213-238 | what a call returns and leaves is what was buffered and what it read |
| Framing.EventsConsumedInOrder | src/transport.rs:229-236 | a call uses up the events it has seen and no others |
| Framing.FrameReadLocal | src/transport.rs:213-238 | what a call comes to depends on the events it consumes alone |
| Framing.ChunkingIrrelevant | src/transport.rs:213-238 | for every way of delivering bytes, errors and timeouts in between, the frames returned are those of the stream |
| Framing.FramesSurviveChunking | src/transport.rs:213-238 | any list of frames, cut up in any way, arrives as that list |
| Framing.RunAccounted | src/transport.rs:213-238 | at every point of a run the bytes read are the frames returned and then the buffer, which stays below the limit |
| Framing.BufferStaysBounded | src/transport.rs:216-237 | every call keeps the buffer below the message limit, and a success leaves less than one read |
| Framing.FillingIsBounded | src/transport.rs:231-236 | inside a call the buffer stays below the message limit plus one read |
| Framing.RejectionIsFinal | src/transport.rs:218-223 | once a length is rejected every later call fails the same way without reading |
| Messages.EchoIsSixBytes | src/transport.rs:96-103 | dropping six bytes of body and dropping the echoed id come to the same, and the slice is in range |
| Messages.ParseMessage | src/transport.rs:70-116 | decodes and classifies a frame, with every error |
| Messages.Classify | src/transport.rs:86-115 | the classification by transaction word and code, stripping the echoed id in place |
| Messages.FrameReadsBack | src/transport.rs:70-116 | for every transaction word, code and payload: kind, body and content of the message, or its error |
| Messages.ParsesByItsParts | src/transport.rs:70-85 | only the code, the word at byte 16 and what follows byte 20 matter |
| Messages.RequestWords | src/transport.rs:277-294 | the transaction words of requests, the echo and the place of the command, byte by byte |
| Messages.ContentIsDecodedBody | src/transport.rs:86-115 | the content of every parsed message is what its body decodes to |
| Messages.BuildHeader | src/transport.rs:277-294 | the header of a request, both lengths cut to 32 bits |
| Messages.PacketIsFrame | src/transport.rs:277-294 | a request within the limit is one frame, and both its lengths are its length less 4 |
| Messages.PacketReadsBack | src/transport.rs:70-294 | parsing a request's packet gives its command, body and values; an asynchronous one from 2000 up is an acknowledgement that keeps the echo |
| Messages.WholeStack | src/transport.rs:213-294 | any list of requests survives any chunking and comes back as those requests |
| Transport.LastSettingDecides | src/transport.rs:204-210 | the attach flag is what the last indication or reopening made it |
| Transport.AttachAllowedExactly | src/transport.rs:204-210 | attach is allowed if and only if the last indication 0x06c with an integer third value says so and no reopening came since |
| Transport.SkippedAreNotResponses | src/transport.rs:178-184 | waiting skips only acknowledgements and indications and ends with a response |
| Transport.ReceiveFailsHard | src/transport.rs:193-202 | receiving never reports one of the failures of exit code 2 |
| Transport.ReceiveTimesOut | src/transport.rs:189-202 | only a receive under a deadline times out |
| Transport.AwaitedIsFirstResponse | src/transport.rs:176-185 | the first of successive receives that fails or is a response decides, and those before it are skipped |
| Transport.ReopeningStartsOver | src/transport.rs:142-147 | whatever follows a reopening goes as on a port newly opened on the new file |
| Transport.HistoryIsGenuine | src/transport.rs:193-202 | the content of every message on record is what its body decodes to |
| Transport.AwaitedTakesFrames | src/transport.rs:176-185 | waiting takes frames off the front of the stream: those it skips, then the one its outcome is from |
| Transport.AwaitedLocal | src/transport.rs:176-185 | what waiting comes to depends on the events it consumes alone |
| Transport.BadFrameIsConsumed | src/transport.rs:193-195 | a frame that does not parse is consumed, and the next read starts behind it |
| Transport.Rpc.constructor | src/transport.rs:129-136 | a new port has an empty buffer, no attach allowed and nothing on record |
| Transport.Rpc.Reopen | src/transport.rs:142-147 | reopening yields the events of the new file and discards buffer and flag; when it fails events, buffer and flag stay |
| Transport.Rpc.WriteAll | src/transport.rs:174-174 | the bytes go on the record of packets written, which stays that of the requests issued |
| Transport.Rpc.ReadMessage | src/transport.rs:213-238 | one frame or error, at the event that decides it; no timeout without a deadline; the buffer bounded throughout |
| Transport.Rpc.HandleUnsolicited | src/transport.rs:204-210 | only an attach-allowed indication with an integer third value sets the flag |
| Transport.Rpc.RecvInner | src/transport.rs:193-202 | one message received, recorded, and counted into the attach flag |
| Transport.Rpc.Recv | src/transport.rs:189-191 | one message received, without a deadline and so without a timeout |
| Transport.Rpc.AwaitResponse | src/transport.rs:176-185 | receives until a response or an error, recording what it skips |
| Transport.Rpc.Execute | src/transport.rs:158-160 | one request: the packet written, the whole new state, and the history of what was skipped and how it ended |
| Transport.Rpc.ExecuteWithTimeout | src/transport.rs:163-186 | sends the packet, then returns the awaited response; a failed write reads nothing |
| Session.FramesOfPrefix | src/transport.rs:213-238 | the part of a stream of frames read so far holds a prefix of them |
| Session.ExecuteTakes | src/transport.rs:163-186 | a request takes frames in flight in order and returns the first answer among them |
| Session.ReceiveTakes | src/transport.rs:189-191 | a plain receive takes at most the first frame in flight |
| Session.QuiescentStep | src/transport.rs:142-191 | every disciplined call is correct and leaves nothing owed or in flight |
| Session.Correlation | src/transport.rs:142-191 | over every disciplined run each success is the response to its own request and no plain receive sees a response |
| Session.StaleAnswerIsTaken | src/transport.rs:178-179 | an answer left in flight is what the next success returns |
| Session.TakenFrameIsReturned | src/transport.rs:178-179 | the message a request returns is that of the frame it took |
| Session.AnyStep | src/transport.rs:142-191 | every possible call, disciplined or not, keeps buffer, wire and frames consistent |
| Session.OwnResponseIffClear | src/transport.rs:154-186 | seen from the firmware: with in-order answers a success is the request's own if and only if none was owed or in flight |
| Session.SkippedReopenMiscorrelates | src/transport.rs:138-186 | for any two commands there is a run without the reopening in which the second returns the response to the first |
| Debts.AnswersSettle | src/transport.rs:154-186 | each answer emitted settles one debt |
| Debts.DebtStep | src/transport.rs:142-191 | what a call's outcome adds to the count bounds what it adds to the answers owed and in flight, and equals it when answers can be read |
| Debts.DebtIsOutstanding | src/transport.rs:142-191 | on every run the count is at least the answers owed and in flight, and equals them when answers can be read |
| Debts.NothingOutstandingIsCorrect | src/transport.rs:142-191 | on every run, with nothing outstanding a success is the request's own response and a plain receive returns none |
| Debts.DisciplinedIsSettled | src/transport.rs:138-147 | reopening after each failed request keeps the count at zero |
| Debts.OwnResponseIffNothingOutstanding | src/transport.rs:154-186 | with readable in-order answers a success is the request's own if and only if nothing is outstanding, which the host can tell beforehand |
| Requests.NumericRoundTrip | src/codec.rs:142-155 | formats of integers only always pack, and decode to the integers cut to their widths |
| Requests.NetAttach | src/requests.rs:12-28 | the attach request is the packing of its nine integers, and what the firmware reads in it |
| Requests.GetNegIp | src/requests.rs:31-33 | the address query is the packing of three zeros, and what the firmware reads in it |
| Requests.GetNegDns | src/requests.rs:36-38 | the name-server query is the packing of three zeros, and what the firmware reads in it |
| Requests.PsConnect | src/requests.rs:41-47 | the connect request is the packing of its four integers, and what the firmware reads in it |
| Requests.SysGetInfo | src/requests.rs:58-60 | the information query is the packing of its arguments, the empty string included, and decodes to them |
| Requests.ModeSet | src/modem.rs:139-141 | the mode request packs, and decodes to no transaction, id 15 and the mode |
| Requests.ConnectToDatachannel | src/requests.rs:50-55 | packs the path and its terminator into a field of 24 bytes; fails exactly from 24 bytes of path up |
| Requests.DatachannelPathFits | src/requests.rs:50-55 | a path packs exactly when it is shorter than 24 bytes, and comes back with its terminator |
| Requests.NoArgumentIsMissing | src/requests.rs:63-126 | the missing-argument branches of the two parsers are never taken |
| Requests.NegIpOfDecoded | src/requests.rs:63-79 | over the decoded values: when an address reply parses, and its three candidates byte by byte |
| Requests.DnsReplyHasSlots | src/requests.rs:90-100 | a name-server reply that unpacks has 39 values with a string and a kind in each of 16 slots |
| Requests.DnsFormatIs | src/requests.rs:90-91 | the kind at each of the 39 positions |
| Requests.DnsOfDecoded | src/requests.rs:90-91 | over the decoded values: when a name-server reply unpacks |
| Requests.V4SlotsListed | src/requests.rs:93-114 | the IPv4 servers are all the slots of kind 1 with at least 4 bytes, each once and in order |
| Requests.V6SlotsListed | src/requests.rs:93-114 | the IPv6 servers are all the slots of kind 2 with at least 16 bytes, each once and in order |
| Requests.SlotCount | src/requests.rs:94-114 | the two families of servers together fill no more slots than there are |
| Requests.ParseDns | src/requests.rs:89-116 | the servers are the 16 slots filtered by kind and length, in order, at most 16 |
| Requests.CollectServers | src/requests.rs:93-115 | the loop visits all slots; neither early exit is taken |
| Apn.SpecsRender | src/apn.rs:15-15 | the 131 specifiers render to the format string |
| Apn.SpecsAre | src/apn.rs:15-15 | the format specifier by specifier: widths and capacities at all 131 positions |
| Apn.AttachConfigDecodes | src/apn.rs:18-163 | every APN of at most 101 bytes packs, and the payload decodes back to the arguments |
| Apn.AttachConfigValues | src/apn.rs:26-163 | all 131 values the payload decodes to: the APN at the front of 101 bytes in positions 96 and 128, zeros behind it, the others fixed |
| Apn.AttachConfigSize | src/apn.rs:18-163 | the payload length does not depend on the APN |
| Apn.AttachConfigInjective | src/apn.rs:26-27 | two APNs give equal payloads exactly when they are equal zero-padded |
| Bringup.RequestsInOrder | src/main.rs:42-88 | every history of the driver goes through its steps in the order of the phases |
| Bringup.IssuedAreSteps | src/main.rs:42-88 | the requests issued are those of the steps, one for one |
| Bringup.IssuedOnce | src/main.rs:42-88 | two requests of the same kind are probes, or address or name-server queries, whatever their payloads |
| Bringup.CommandsInOrder | src/modem.rs:19-37 | the commands by number: the first is 0x18e, and which may come right after which, and which are synchronous |
| Bringup.PayloadsByCommand | src/main.rs:42-88 | every request carries the payload of its command |
| Bringup.BodiesDecode | src/requests.rs:12-60 | what each payload decodes to, and when the APN's and the path's fail |
| Bringup.LockDecision | src/modem.rs:105-111 | over the decoded values: the mode next if and only if the third is zero or the second is not, else the challenge |
| Bringup.ChallengeDecision | src/modem.rs:118-124 | the second value is the challenge the next request answers |
| Bringup.VerdictDecision | src/modem.rs:131-134 | unlocked if and only if the first value is 1 |
| Bringup.ModeDecision | src/modem.rs:143-158 | accepted with a first value of 0, set with an indication 0x12d whose first value is 1 |
| Bringup.AttachDecision | src/modem.rs:169-183 | a second value of 0xffffffff refuses, any other grants |
| Bringup.AddressDecision | src/modem.rs:204-209 | an address is there if and only if one of the 12 candidate bytes is not zero |
| Bringup.AnswerIsToChallenge | src/modem.rs:113-130 | the answer sent is the digest of the challenge heard |
| Bringup.SetupIsSpliced | src/modem.rs:247-255 | the setup request carries the connect reply less 6 bytes, then the channel reply, then a zero |
| Bringup.NoDataChannelYet | src/main.rs:57-66 | at a refusal or while no address came no request issued has a data-channel command |
| Bringup.DataChannelIsGuarded | src/modem.rs:165-257 | a phase past the attach comes with a grant in the history, one past the address query with an address |
| Bringup.DataChannelRequestIsGuarded | src/main.rs:57-85 | before any request with a data-channel command a grant and an address were heard |
| Bringup.ModeSetIsUnlocked | src/modem.rs:103-135 | the mode is set, and anything later done, only after a lock reply whose third value is zero or second is not, or a verdict whose first value is 1 |
| Bringup.SecondAttachIsAllowed | src/modem.rs:170-176 | a second attach request comes only after a refusal and with the flag set |
| Bringup.PendingMeansRefused | src/modem.rs:169-171 | an attach is pending only after a refusal was heard |
| Bringup.FailuresReopen | src/modem.rs:66-73 | after a failed request the port is reopened before the next, except after the version query |
| Bringup.SetupPayloadDecodes | src/modem.rs:252-254 | the setup payload decodes to the connect values less the last, the channel values and a zero |
| Endings.OutcomeIsDetermined | src/main.rs:42-88 | the phase and last act of a history leave one outcome |
| Endings.EarlyIsBeforeChannel | src/main.rs:57-85 | no data-channel command was issued at any phase up to the configuration of the network |
| Endings.LeadingRunSucceeds | src/main.rs:46-88 | with every reply leading on, nothing lost but the version, encodable payloads and a configured network, the outcome is success |
| Pairing.SameBuffer | src/transport.rs:142-238 | the driver's operations and the session's calls leave the same buffer |
| Pairing.NothingOutstanding | src/main.rs:46-88 | between the driver's operations nothing is outstanding, unless it gave the port up or a version query failed |
| Pairing.RepliesAnswerTheirPhase | src/main.rs:46-88 | against any firmware that answers once, and up to a failed version query, a reply that moves a phase answers that phase's request |
| Pairing.ReplyIsOwnIffNothingOutstanding | src/main.rs:46-88 | with readable in-order answers a reply to the driver, also after a failed version query, is its request's own if and only if nothing is outstanding |
| Shifted.AttachGrantedByAnotherReply | src/main.rs:52-57 | a run of the driver in which, after a failed version query, the reply to the APN configuration grants the attach |
| Reached.UpIsReached | src/main.rs:46-88 | for every encodable configuration a possible run of the driver ends with the data channel up |
| Modem.Ask | src/transport.rs:158-160 | one request moves the phase as its reply or its failure says, and adds one step |
| Modem.WaitReady | src/modem.rs:53-76 | probes until an answer, reopening after each timeout; times out just when a look at the clock after the last attempt says so, and never retries after such a look |
| Modem.Initialize | src/modem.rs:79-93 | the seven initialisations in order, stopping at the first failure |
| Modem.FccUnlock | src/modem.rs:103-135 | the lock is queried and answered only when the radio is locked |
| Modem.AnswerChallenge | src/modem.rs:113-135 | the challenge is answered with the digest of it, and a rejection ends the run |
| Modem.SendAnswer | src/modem.rs:126-134 | only the verdict 1 unlocks |
| Modem.EnableRadio | src/modem.rs:138-160 | the mode is set, and confirmed by the indication, before the run goes on |
| Modem.AwaitMode | src/modem.rs:149-159 | waits for the mode indication, whatever else arrives |
| Modem.FirmwareVersion | src/modem.rs:96-100 | the version is that of the reply, and its failure does not end the run |
| Modem.AttachStatus | src/modem.rs:181-184 | one attach request and its status |
| Modem.AttachNetwork | src/modem.rs:165-179 | configures, attaches, and attaches again only after a refusal and once allowed |
| Modem.AwaitAttachAllowed | src/modem.rs:172-174 | receives until the flag is set |
| Modem.LastAssigned | src/modem.rs:204-209 | the last candidate address that is not zero |
| Modem.QueryAddress | src/modem.rs:188-193 | the address is the last assigned one of the reply |
| Modem.QueryServers | src/modem.rs:195-200 | the servers are those of the reply |
| Modem.QueryIp | src/modem.rs:187-210 | one poll: address and servers are those of two replies heard during it, the servers asked for even without an address |
| Modem.WaitForIp | src/modem.rs:213-232 | polls until an address or the deadline; the address and servers are those of the last poll, and none is returned only after a look past the deadline |
| Modem.OpenDataChannel | src/modem.rs:235-257 | connect, channel and setup in order |
| Modem.ConnectChannel | src/modem.rs:241-257 | the channel request, and the setup once it is answered |
| Modem.SetUp | src/modem.rs:247-256 | a connect reply of fewer than 6 bytes ends the run; else the spliced payload is sent |
| Modem.Prepare | src/main.rs:47-55 | initialisation, unlocking and mode in order, stopping at the first failure; the version never stops the run |
| Modem.BringUp | src/main.rs:46-88 | the phases in order, over the history of the port: the outcome is the one the history calls for, every error with its reason, and a failed network ends the run before the data channel |
| Modem.ConnectUp | src/main.rs:57-88 | the same for the phases from the attach on |
| Modem.CompletedSays | src/error.rs:56-61 | success comes after a grant and an address, exit code 2 before any data-channel request |
| Modem.Run | src/main.rs:42-88 | every run follows the automaton on the port it was given and ends as its history calls for: success exactly when the channel is up, a failed network configuration as such, exit code 2 and network failures without a data-channel request |
| Modem.LeadingDriverSucceeds | src/main.rs:42-88 | a run on which every reply leads on, with APN and path within their limits and the network configured, succeeds |
| Modem.DriverRepliesAreOwn | src/main.rs:42-88 | on the port the driver holds, a reply that moved a phase answers that phase's request, up to a failed version query |

## Left out

- RoundTrip: string fields of 4 GiB and more, whose 32-bit counts wrap in the encoder; packing itself is modelled for them.
- EnableRadio: the operating mode is 1, the only one the driver asks for.
- Machine overflow of `usize`: an extended count of more than 8 bytes in the reader, and a capacity times its element size in the encoder; the model computes with unbounded integers there. A capacity of 2^64 and more is rejected as in the source.
- The reader's position after an error; no caller in the driver uses a reader that failed.
- Opening, polling, reading and writing the device, clocks and sleeping; they are the data of a `Port` and lists of clock answers.
- Firmware that emits impossible frame lengths or answers a request twice: outside the hypotheses of `Session`, `Debts` and `Pairing`; `Framing.RejectionIsFinal` says what such a length does to the port.
- Partly written requests: after a failed write the firmware has received nothing and owes no answer.
- SHA-256 in the FCC unlock: a function parameter from challenge to answer.
- The warning on differing header lengths, logging, and the wording of error messages; protocol errors are told apart by constructor instead.
- Network configuration and the resolver file (src/net.rs): their outcome is a parameter of `Run`, with exit code 1 on failure.
- Command-line and file settings (src/config.rs), the name tables of src/call_ids.rs and src/unsolicited.rs but for two indication codes, and the conversion of the firmware version to text.
