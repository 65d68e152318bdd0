# Verified model of uhfreader18

This project models the wire protocol library for the UHFReader18 RFID reader and the
HW-VX network module, and proves what its parts promise each other.

* **Checksum, Division, Order, Detection.** The CRC-16 loop of `checksum.py`, as a linear and
  invertible map on 16-bit registers, as polynomial division over GF(2), and as an error detector.
  A bit string lists the bits of each byte least significant first, in byte order: the order in
  which the reflected register takes them, running on through the little-endian trailer.
* **Frame.** The frame builders, the validator and the serializer, as inverse functions.
* **Stream, Server, Link.** `StreamBuffer` as a class with a mutable buffer and the source's loop,
  refined against a pure decoder `Decode`, which in turn is shown to be the only reading of a small
  grammar (`Legal`, `Incomplete`, `Parses`). The class carries two ghost fields, the bytes received
  since the last reset and the log of messages found in them, in order of arrival; `Valid` says that
  one is the decoding of the other. `Link` states the end-to-end results: round trip and damage isolation.
* **Client, ClientRuns.** `RfidClient` as a class with a response queue over a `StreamBuffer`,
  refined against a state machine (`Step`, `Run`). The network is a script of arrivals: chunks, an
  empty chunk for the end of the connection, timeouts and other failures; an exhausted script times
  out for ever. `Outstanding` names the responses that no call has taken yet, wherever they are: in
  the queue, partly received, or still on their way.
* **Text, Config, Transport, Device.** The HW-VX text protocol: decimal numbers and dotted quads,
  typed settings and their wire strings, requests with retries over a script of replies, and the
  command sequences that read and write a whole configuration. `Obey` and `ReplyTo` model a module
  that holds the settings; `Unit` adds the session that login opens and a reboot ends.
* **Vectors.** Fixed inputs with known answers: a published check value, a captured frame.

Errors are datatype constructors, not text. A Python exception is an error value; the network,
its timeouts and connection failures are parameters.

Four places where the code does not meet what its documentation suggests:

* `docs/uhfreader18/PROTOCOL.md` says that only the exact six-byte sequence is a heartbeat. A frame
  with 81 data bytes, zero address, command and status, and two leading zero data bytes begins with
  that sequence and is read as a heartbeat. `Link.RoundTrip` shows that this family is the only
  exception, in both directions, and `Link.RoundTripFails` gives one such frame.
* The client takes responses strictly in order and does not match them to calls. Two things put the
  order out. A written command may end without taking a response, be it by a timeout, a heartbeat, a
  parse error or a failed receive, while its reply arrives after all. Or there may be a response too
  many: a second reader that answers a broadcast, a second message to one command, or a report that
  nobody asked for. Either way the next call takes a response that is not meant for it: it fails if
  the code is not the one it asked for, and otherwise returns the wrong reply. Later calls go on in the
  same way until the connection is closed (`ClientRuns.LateReplyShifts`; `ClientRuns.WrongReplyExamples`
  has five such runs). `ClientRuns.OwnReplyExact` is the exact condition under which a call returns its
  own reply, and `ClientRuns.OwnReplyDropped` the same in terms of what the readers sent: when all
  responses differ, the dropped ones before it must be as many as the calls that missed one and the
  surplus responses together. If there is just one response to each command, a caller can rely on
  getting its own as long as no call has missed one (`ClientRuns.OwnReplyUnlessMissed`).
* Reading a setting sends the command again after every failed receive, so a reply that is merely
  late comes twice, and the surplus one makes the next request fail (`Device.ResentReplyFails`). The
  check token keeps it from being taken for the wrong setting (`Device.GetGenuine`). The module also
  answers the login and set commands of a save, which receives nothing: a reading on the same
  connection finds these replies first and fails (`Device.UnreadReplyFails`), unless one of them
  carries the token that is due; five tokens serve a get and a set command (`Device.SharedTokens`).
* Saving a configuration does not write all of its 22 fields: `mac_address` and `dhcp` keep the
  module's own values. If one of these cannot be carried in a reply, or that `dhcp` is no known
  code, the saved configuration cannot be read back at all (`Device.SaveThenGet`).

Most proofs hide the definitions they do not need (`hide`), so that the solver sees linear algebra
or list structure but not both.

## Model

| member | source | states |
|---|---|---|
| Checksum.Crc16 | src/uhfreader18/checksum.py:8-15 | For every byte string the nested loops return the specified checksum; the register never leaves its 16 low bits, so the final mask changes nothing. |
| Checksum.ShiftPlus | src/uhfreader18/checksum.py:14 | One turn of the inner loop is linear over GF(2). |
| Checksum.ShiftNZero | src/uhfreader18/checksum.py:13-14 | Any number of turns is injective: only the zero register reaches zero. |
| Checksum.FeedUnpack | src/uhfreader18/checksum.py:12-14 | Adding a word and turning n times is the same as feeding its n low bits one at a time. |
| Checksum.UpdateIsFeed | src/uhfreader18/checksum.py:11-14 | The byte loop equals a bit-serial register fed in transmission order. |
| Checksum.CrcXor | src/uhfreader18/checksum.py:8-15 | Flipping the bits of an error pattern changes the checksum by an amount that depends on the pattern alone. |
| Checksum.CrcAffine | src/uhfreader18/checksum.py:10-15 | For strings of equal length the checksum of a three-fold exclusive or is the exclusive or of the checksums. |
| Checksum.Residue | src/uhfreader18/frame.py:95-97 | A string has checksum zero iff its last two bytes are the little-endian checksum of the rest. |
| Checksum.TrailerRoundTrip | src/uhfreader18/frame.py:66 | Reading back the two trailer bytes gives the checksum that was written. |
| Checksum.TrailerOnto | src/uhfreader18/frame.py:95 | Writing the value read from two trailer bytes gives those bytes again. |
| Division.CrcIsRemainder | src/uhfreader18/checksum.py:8-15 | The register, low bit first, is the one and only remainder of the message times x^16, with ones added to its leading 16 coefficients, modulo the generator. |
| Division.TimesAt | src/uhfreader18/constants.py:19 | The multiples of the generator, coefficient by coefficient: it is x^16+x^12+x^5+1. |
| Division.DivisionUnique | src/uhfreader18/constants.py:17-19 | Quotient and remainder by the generator are unique. |
| Division.SyndromeIsRemainder | src/uhfreader18/checksum.py:8-15 | An error pattern leaves the checksum unchanged iff the generator divides it. |
| Division.FeedParity | src/uhfreader18/checksum.py:12-14 | The register's parity changes exactly with the parity of the bits fed to it. |
| Division.CrcParity | src/uhfreader18/checksum.py:8-15 | The checksum has the bit parity of the data. |
| Order.ShiftNIsMul | src/uhfreader18/checksum.py:13-14 | n turns of the loop multiply the register by x^n modulo the generator. |
| Order.OnlyFixedStay | src/uhfreader18/checksum.py:13-14 | Multiplication by a constant c modulo the generator leaves only 0 and 0xF80F alone if some multiple of c + 1 is x + 1. |
| Order.OrderOfX | src/uhfreader18/constants.py:19 | x^n is 1 modulo the generator iff 32767 divides n. |
| Order.ContentRecurs | src/uhfreader18/checksum.py:13-14 | A register content returns after n turns iff it is 0 or 0xF80F, which never change, or 32767 divides n. |
| Detection.BurstNoticed | src/uhfreader18/checksum.py:10-15 | No non-zero error pattern within any 16-bit window leaves the checksum unchanged, wherever it starts. |
| Detection.OddNoticed | src/uhfreader18/checksum.py:10-15 | No error pattern with an odd number of bits leaves the checksum unchanged. |
| Detection.TwoBitErrors | src/uhfreader18/checksum.py:8-15 | Two flipped bits leave the checksum unchanged iff their distance is a multiple of 32767. |
| Detection.SmallErrorsNoticed | src/uhfreader18/checksum.py:8-15 | One, two or three flipped bits in at most 32767 never leave the checksum unchanged. |
| Frame.BuildsIffInRange | src/uhfreader18/builder.py:33-37 | The response builder succeeds iff every field is a byte and there are at most 250 data bytes. |
| Frame.BuildErrorsAre | src/uhfreader18/builder.py:33-37 | A refused response names the first of address, command, status and data that is out of range. |
| Frame.CommandBuildsIff | src/uhfreader18/builder.py:16-23 | The command builder succeeds iff address and command are bytes and there are at most 251 data bytes. |
| Frame.RefusalsAre | src/uhfreader18/frame.py:82-100 | Why a string is refused, in this order: empty, announced length below five, length other than announced, checksum; with the values found. |
| Frame.BuiltIsAccepted | src/uhfreader18/builder.py:38-39 | Every built frame is accepted, yields the fields it was built from, and serializes to itself. |
| Frame.AcceptedIsBuilt | src/uhfreader18/frame.py:82-101 | Every accepted string is the frame built from the fields found in it, and is what the result serializes to. |
| Frame.AcceptedIffBuilt | src/uhfreader18/frame.py:82-101 | The accepted strings are exactly the builder's outputs. |
| Frame.BuildInjective | src/uhfreader18/builder.py:26-39 | Different fields build different frames. |
| Frame.ZeroResidueRule | docs/uhfreader18/PROTOCOL.md:28 | A string is accepted iff its length is the announced one, more than five bytes, and the checksum over all of it is zero. |
| Frame.CommandReadsAsResponse | src/uhfreader18/builder.py:16-23 | A command without data is refused by the response validator as too short; with data it reads as the response whose status is the first data byte. |
| Frame.AmbiguousIffHeartbeat | src/uhfreader18/builder.py:42-51 | A built frame begins with the heartbeat iff it has 81 data bytes, zero address, command and status, and two leading zero data bytes. |
| Frame.DamagedAcceptance | src/uhfreader18/frame.py:86-100 | A damaged frame with an intact length byte is accepted iff the pattern leaves the checksum unchanged, and is otherwise refused for its checksum. |
| Frame.DamagedIsRejected | src/uhfreader18/frame.py:95-100 | One burst of up to 16 bits, or one, two, three or any odd number of flipped bits outside the length byte, gets a frame refused for its checksum. |
| Stream.NextIsLegal | src/uhfreader18/stream.py:36-60 | What the decoder takes from the front is a complete legal message; when it takes nothing, the buffer is the beginning of one. |
| Stream.NextOfLegal | src/uhfreader18/stream.py:36-60 | Legal messages form a prefix code: a buffer that starts with one yields that one. |
| Stream.NextIs | src/uhfreader18/stream.py:36-79 | What is taken from the front: the six heartbeat bytes; one byte that announces less than five; nothing while a frame is incomplete; or a frame with its report, refused for its checksum or its reader or handed out. |
| Stream.ListsAre | src/uhfreader18/stream.py:32-81 | Each message adds to its own list only, in order of arrival. |
| Stream.DecodeIffParse | src/uhfreader18/stream.py:32-81 | A list of messages and a rest are the decoding of a stream iff they concatenate to it, every message is legal with the right report, and the rest is an incomplete message. In particular no byte is lost, and a heartbeat takes six bytes, a bad length byte one, a frame its length byte plus one. |
| Stream.DecodeResumes | src/uhfreader18/stream.py:33-81 | Decoding in two pieces, keeping the undecoded rest in between, gives the same messages and the same rest; messages once reported are never revised. |
| Stream.Quiescent | src/uhfreader18/stream.py:28-59 | What stays buffered is an incomplete message of at most 255 bytes, and decodes no further by itself. |
| Stream.ChunkInvariance | src/uhfreader18/stream.py:32-81 | However a stream is cut into chunks, the messages and the buffered bytes are the same. |
| Stream.AllowlistExact | src/uhfreader18/stream.py:67-70 | For any bytes, an allowlist changes only the reports of responses from readers that are not on it: each becomes an error with the reader's address. |
| Stream.AllowlistFrames | src/uhfreader18/stream.py:67-79 | With an allowlist the frames handed out are just those of the readers on it, in order; each other frame costs one error, and heartbeats are as they were. |
| Stream.StreamBuffer.constructor | src/uhfreader18/stream.py:24-26 | A new buffer is empty and keeps its allowlist. |
| Stream.StreamBuffer.Feed | src/uhfreader18/stream.py:32-81 | Appends the data and reports, in three lists, exactly the new messages of the decoding of everything received since the last reset; at most 255 bytes stay pending, and feeding nothing does nothing. |
| Stream.StreamBuffer.Reset | src/uhfreader18/stream.py:83-84 | Forgets everything received. |
| Server.HandleClient | src/uhfreader18/server.py:37-60 | A connection reports exactly the messages in the bytes received before it ended, for every chunking, and knows how many bytes were left over. |
| Server.UntilEndIs | src/uhfreader18/server.py:40-60 | The chunks that count are those before the first empty one, or all. |
| Link.JudgeBuilt | src/uhfreader18/stream.py:60-79 | A built frame is reported as its own fields, or as an unknown reader if its address is not on the allowlist. |
| Link.ReaderLetThrough | src/uhfreader18/stream.py:67-79 | A built frame that is not ambiguous is handed out without an allowlist; with one, iff its reader is on it, and otherwise its address is reported. |
| Link.DamageIsolation | src/uhfreader18/stream.py:32-81 | A stream of heartbeats, intact frames and frames with any damage outside the length byte is decoded into the right report for each, in order, with nothing left, iff no frame arrives with the heartbeat's bytes in front and no damage leaves the checksum unchanged. |
| Link.NoticeableIsolation | src/uhfreader18/stream.py:32-81 | When the damage is one burst of up to 16 bits, two flipped bits or an odd number of them, that is so iff no frame arrives with the heartbeat's bytes in front. |
| Link.RoundTrip | src/uhfreader18/stream.py:32-81 | Decoding encoded messages gives back exactly those messages iff none is of the ambiguous shape. |
| Link.RoundTripFails | src/uhfreader18/stream.py:36-49 | The frame of an all-zero response with 81 data bytes is reported as a heartbeat first, so it is not read back. |
| Link.DamageCost | src/uhfreader18/stream.py:61-79 | Without an allowlist a stream whose damage is all noticed yields exactly the intact responses in order, every heartbeat, and one error per damaged frame. |
| Client.RfidClient.Create | src/uhfreader18/client.py:159-169 | A client is created iff the port lies in 1 to 65535 and the timeout is positive, with the port checked first; it is unconnected with nothing queued or buffered. |
| Client.RfidClient.Connect | src/uhfreader18/client.py:171-174 | Connecting twice does nothing, a failed connection leaves the client as it was, and neither touches queue or buffer. |
| Client.RfidClient.Close | src/uhfreader18/client.py:176-181 | Closing leaves the state of a new client. |
| Client.RfidClient.SendCommand | src/uhfreader18/client.py:195-226 | One command refines one step of the state machine, for every script of arrivals and whether or not writing works: same new state, same answer or error. |
| Client.RfidClient.Run | src/uhfreader18/client.py:228-235 | The checked command succeeds iff the plain one does and its status is success. |
| Client.TakeRule | src/uhfreader18/client.py:218-226 | The first queued response is taken; it is the answer iff it echoes the command's code or is (0x00, 0xFE), and otherwise both codes are reported. |
| Client.AskRefuses | src/uhfreader18/client.py:195-205 | What is refused before anything is written, in this order: no connection, a bad address, too much data, a failing write; the client stays as it was. |
| Client.AwaitStops | src/uhfreader18/client.py:207-211 | The wait ends at once if a response is queued, and at a timeout, a failure or the end of the connection with the error for each. |
| Client.CommandsAre | src/uhfreader18/constants.py:22-72 | The 36 command codes. |
| ClientRuns.StepSafe | src/uhfreader18/client.py:171-226 | Every operation keeps the invariant that ties buffer, queue and handed-out responses to the decoding of all bytes received. |
| ClientRuns.RunSafety | src/uhfreader18/client.py:195-226 | In every run the responses taken or still queued are exactly those of the chunks that brought neither an error nor a heartbeat, in order; those handed out are a selection of them, and so of the responses in all bytes received. |
| ClientRuns.KeptSelection | src/uhfreader18/client.py:207-216 | The responses of such chunks are an in-order selection, without repeats, of all responses received, and all of them if the bytes hold no error and no heartbeat. |
| ClientRuns.ReturnedIsHanded | src/uhfreader18/client.py:218-226 | The record used by the run results is exactly the list of responses that calls returned since the last close. |
| ClientRuns.CloseForgets | src/uhfreader18/client.py:176-181 | After a close every later outcome is that of a newly created client. |
| ClientRuns.TakesInOrder | src/uhfreader18/client.py:195-226 | Whatever arrives, errors, heartbeats, ends, stalls and failures included: up to a close, the k-th call that takes a response takes the k-th of those kept, the rest of them are queued, and every written command has either taken a response or missed one. |
| ClientRuns.OwnReplyExact | src/uhfreader18/client.py:207-226 | Whatever arrives and whatever response is meant for a call: if it takes a response, it returns its own iff that is the next of those kept; when all those kept differ, iff its own response's place among them and the earlier calls that missed a response make up the number of commands written before. |
| ClientRuns.OwnReplyDropped | src/uhfreader18/client.py:207-226 | In terms of the responses that the readers sent, any number to each command: when all of them differ, a call that takes a response returns its own iff the responses dropped before the one it takes are as many as the earlier calls that missed one and the surplus responses before its own together. |
| ClientRuns.OwnReplyUnlessMissed | src/uhfreader18/client.py:207-226 | Whatever arrives, as long as no earlier call has missed its response, a call that takes one takes, of all responses received, the one at the number of commands written before it; that is its own if what is received is one response to each command, in order. |
| ClientRuns.KeptPlaces | src/uhfreader18/client.py:211-216 | If the responses that arrive undamaged are a selection of those that the readers sent, those kept have places among these, in order. |
| ClientRuns.CleanIffUnspoilt | src/uhfreader18/client.py:211-215 | The bytes received hold nothing but responses iff no call has reported an error or a heartbeat. |
| ClientRuns.NoCommandIsZero | src/uhfreader18/constants.py:22-72 | No command code is zero. |
| ClientRuns.ReplyIsLegal | src/uhfreader18/client.py:219-221 | A frame that echoes a command, or is the (0x00, 0xFE) answer, is accepted as its answer and cannot be taken for a heartbeat. |
| ClientRuns.AwaitReply | src/uhfreader18/client.py:207-216 | However a reply is cut, the receive loop stops right behind it with just that reply queued and an empty buffer. |
| ClientRuns.Lockstep | src/uhfreader18/client.py:195-226 | With one proper reply per command and only after it, every call returns its own reply for every chunking, the command frames go out in order, and queue and buffer are empty between calls. |
| ClientRuns.AwaitOutstanding | src/uhfreader18/client.py:207-216 | On a connection that brings only responses, however cut, merged or delayed, the wait ends with a response in the queue or with a timeout, and neither loses, adds nor reorders what is outstanding; it times out only if the network stalls or nothing is outstanding. |
| ClientRuns.OneCall | src/uhfreader18/client.py:195-226 | On a connection that brings only responses, a call either times out and leaves everything outstanding, or takes the oldest outstanding response: that is its answer if it answers the command, and otherwise an error that names both codes. |
| ClientRuns.CallRule | src/uhfreader18/client.py:218-226 | A call that does not time out returns the oldest outstanding response iff that echoes its code or has code 0 and status 254, and otherwise fails with both codes. |
| ClientRuns.CommandOnWire | src/uhfreader18/client.py:203-205 | A written command goes out as one frame: length, address, code, data and checksum. |
| ClientRuns.Fifo | src/uhfreader18/client.py:195-226 | On such a connection, over any number of calls, every one that does not time out takes the oldest outstanding response, and what they have not taken stays outstanding, in order. |
| ClientRuns.OwnReply | src/uhfreader18/client.py:195-226 | On such a connection, as long as no reply was late when the calls began and none has timed out, each call returns its own reply; and after the calls nothing is outstanding iff no reply was late and no call timed out. |
| ClientRuns.OwnReplyIff | src/uhfreader18/client.py:218-226 | On such a connection, a call that does not time out returns its own reply iff the response at its place in the queue of outstanding ones is that reply; when all replies differ, iff none was late and no call before it timed out. |
| ClientRuns.RepliesAreOutstanding | src/uhfreader18/client.py:207-216 | On a new connection the replies that the network will deliver, cut and delayed in any way, are exactly what is outstanding. |
| ClientRuns.LateReplyShifts | src/uhfreader18/client.py:207-222 | On such a connection, after one timed-out call whose reply comes late, the next call takes that reply and every later call the reply to the call before it, each failing unless what it takes answers its command; one reply is still outstanding afterwards. |
| ClientRuns.WrongReplyExamples | src/uhfreader18/client.py:207-226 | From a new client, a late reply to 0x21 makes a following 0x2F fail, and is returned to a following 0x21 as if it were its own; so it is after a heartbeat without any delay, and, with nothing late or missed, after a second reader's answer or an unasked 0xEE report. |
| Text.SplitInTwo | src/uhfreader18/hwvx/transport.py:82-83 | A text splits into exactly two given parts iff both are free of the separator and it stands between them. |
| Text.PrintParseInt | src/uhfreader18/hwvx/config.py:159-163 | Every integer is read back from its decimal form. |
| Text.ParseIntExact | src/uhfreader18/hwvx/config.py:159-163 | A text is read as n iff it is blanks, an optional sign, digits with single underscores between them, and blanks, that spell n. |
| Text.DigitsValueIs | src/uhfreader18/hwvx/config.py:159-163 | Digits are read in base ten; underscores do not count. |
| Text.PrintIntIs | src/uhfreader18/hwvx/config.py:175-179 | An integer is printed as its digits without a superfluous zero or sign, behind a minus sign if negative. |
| Text.PrintIpIs | src/uhfreader18/hwvx/config.py:175-179 | An address is printed as four decimal numbers with dots between them. |
| Text.ParseIpExact | src/uhfreader18/hwvx/config.py:151-152 | A text is read as an address iff it is that address's printed form. |
| Config.DumpParse | src/uhfreader18/hwvx/config.py:143-179 | Every value of a setting's type is read back from its wire string. |
| Config.FieldReading | src/uhfreader18/hwvx/config.py:140-169 | How each of the 22 fields is read: as it is, as an address, as an integer, or as a code of its enumeration. |
| Config.DefaultsAre | src/uhfreader18/hwvx/config.py:36-68 | What each field is read as when the module does not name it. |
| Config.NamedIsRead | src/uhfreader18/hwvx/config.py:79-92 | A field that the module names is read as what its string says. |
| Config.NumberRefused | src/uhfreader18/hwvx/config.py:82-91 | A number or code with a character that no number has, or without a digit, is refused and its field is named. |
| Config.WireIs | src/uhfreader18/hwvx/config.py:172-179 | Each value's string: a text as it is, an address, number or code printed. |
| Config.FromWire | src/uhfreader18/hwvx/config.py:72-92 | The loop over all fields gives the specified reading: parsed where present, default where missing, or the list of bad fields. |
| Config.ReadingExact | src/uhfreader18/hwvx/config.py:79-92 | Reading fails iff some present field is unparseable, names exactly those fields, and otherwise gives every field a value of its type. |
| Config.Validate | src/uhfreader18/hwvx/config.py:101-137 | The reported problems are exactly those the configuration has. |
| Config.ProblemsAre | src/uhfreader18/hwvx/config.py:112-134 | Each kind of problem, by field and value: delimiter, character from 128 on, port outside 1 to 65535, negative counter. |
| Config.ValidMeans | src/uhfreader18/hwvx/config.py:112-134 | A configuration is valid iff its texts have neither the delimiter nor a character from 128 on, its two ports lie in 1 to 65535 and its four counters are not negative. |
| Config.ToWire | src/uhfreader18/hwvx/config.py:94-97 | Writing succeeds iff the configuration is valid, and otherwise reports exactly its problems. |
| Config.WireRoundTrip | src/uhfreader18/hwvx/config.py:71-97 | A configuration is read back unchanged from its wire strings. |
| Config.ValidIsFramed | src/uhfreader18/hwvx/config.py:120-125 | No wire string of a valid configuration contains the delimiter. |
| Transport.HwVxNetworking.Request | src/uhfreader18/hwvx/transport.py:36-68 | A command that is not ASCII is not sent. Otherwise it is sent once per receive up to the first answer, whose body is returned; the request fails iff the retries bring none, or a datagram that is not ASCII comes first. |
| Transport.MissesFirst | src/uhfreader18/hwvx/transport.py:63-67 | The counted receives neither are answers nor fail, and the next one is an answer or fails, unless the retries ran out. |
| Transport.HwVxNetworking.RequestSingle | src/uhfreader18/hwvx/transport.py:70-85 | The first answer within five sends decides: its value if the check token matches, otherwise an error. |
| Transport.FiveTries | src/uhfreader18/hwvx/transport.py:53-68 | A request gives up, after five sends, iff five receives bring neither an answer nor bytes that are not ASCII. |
| Transport.EndsIs | src/uhfreader18/hwvx/transport.py:39-45 | A receive ends the wait iff it begins with `A` or cannot be decoded. |
| Transport.ValueInExact | src/uhfreader18/hwvx/transport.py:82-85 | A reply yields v iff it is v, the delimiter and the check token with v free of the delimiter. |
| Transport.DelimitedCheckNeverMatches | src/uhfreader18/hwvx/transport.py:82-85 | A check token that contains the delimiter is never matched. |
| Device.SetCommandReadsBack | src/uhfreader18/hwvx/device.py:169-171 | A set command is read by the module as the code, value and check it was built from iff the value is free of the delimiter. |
| Device.CodesDistinct | src/uhfreader18/hwvx/device.py:23-46 | No two settings share a code. |
| Device.OrderCoversWritable | src/uhfreader18/hwvx/device.py:50-71 | The order of set commands contains exactly the fields other than `mac_address` and `dhcp`. |
| Device.OrderHasNoRepeats | src/uhfreader18/hwvx/device.py:48-71 | It has twenty entries, each once, with the address last. |
| Device.GetTable | src/uhfreader18/hwvx/device.py:23-46 | The 22 get commands, with code and token, and their order. |
| Device.SetTable | src/uhfreader18/hwvx/device.py:23-71 | The 20 set commands, with code and token around the value, and their order. |
| Device.PassIs | src/uhfreader18/hwvx/device.py:159-174 | A pass is login, the set commands in order, and reboot, and nothing else. |
| Device.PassIsAscii | src/uhfreader18/hwvx/device.py:165-174 | Every command emitted for a valid configuration is ASCII. |
| Device.PassWrites | src/uhfreader18/hwvx/device.py:145-175 | The emitted commands assign exactly the writable settings and leave the others; running them a second time changes nothing. |
| Device.PassServed | docs/hwvx_module/HWVX.md:24-29 | For a module on which settings are written only in a session and take effect at a reboot: after one pass the written settings are in effect, nothing is pending and no session is open, whatever its state was. |
| Device.EmittedEffect | src/uhfreader18/hwvx/device.py:145-157 | Everything that saving emits, with the select and the second pass or without, has the effect of one pass. |
| Device.EmittedIs | src/uhfreader18/hwvx/device.py:145-157 | A save emits one pass, and, unless it was broadcast, a select with the MAC address and the pass again. |
| Device.SaveTakesEffect | src/uhfreader18/hwvx/device.py:133-175 | On such a module, after everything that saving emits, all settings but `mac_address` and `dhcp` are the configuration's and in effect, these two are as before, nothing is pending and no session is open. |
| Device.GetExact | src/uhfreader18/hwvx/device.py:119-129 | When each setting is answered once, whatever the module holds, all settings are fetched iff no reply is preceded by five or more failed receives and every value is ASCII without the delimiter; then they are just what it holds, with one command sent for each receive. |
| Device.AnswerExact | src/uhfreader18/hwvx/transport.py:70-85 | Over any network a request yields v iff the first receive within five that is an answer or fails is `A`, v, the delimiter and the check token, and v is ASCII without the delimiter. |
| Device.FetchExact | src/uhfreader18/hwvx/device.py:119-129 | Over any network and with any replies, the strings read are exactly those that the answers carry, iff these begin with one for each setting behind its token, in table order, with at most four failed receives before each. |
| Device.GetGenuine | src/uhfreader18/hwvx/device.py:119-129 | If no reply but the module's own to its get commands carries one of their tokens, a reading that succeeds gives every field the module's own value, however late, often or out of order replies come and whatever is between them; it succeeds iff every value is plain and the answers begin with one to each setting, in table order, with at most four failed receives before each. |
| Device.UnreadReplyFails | src/uhfreader18/hwvx/device.py:119-174 | An unread reply without the token that is due, such as one to the login or set commands of a save, fails the reading. |
| Device.SharedTokens | src/uhfreader18/hwvx/device.py:23-46 | Exactly five check tokens belong to a get command and to the set command of another setting. |
| Device.ResentReplyFails | src/uhfreader18/hwvx/transport.py:63-68 | After one failed receive, a reply that arrives for both sends makes the request after it fail. |
| Device.GetReadsBack | src/uhfreader18/hwvx/device.py:119-129 | When each setting is answered once, a module that holds a valid configuration's strings is read back exactly iff no reply is preceded by five or more failed receives, with one command sent for each receive. |
| Device.SaveThenGet | src/uhfreader18/hwvx/device.py:119-175 | Whatever a module held before, after everything that saving emits, and with each setting answered once and no reply to the save left unread, it is read back iff no reply is preceded by five or more failed receives, its own `mac_address` and `dhcp` are ASCII without the delimiter and that `dhcp` is a known code; the result is then the saved configuration with these two in place of its own. |
| Device.SaveThenGetGenuine | src/uhfreader18/hwvx/device.py:119-175 | With replies late, repeated or in any order, and those to the save left unread in front or in between as long as they carry no get command's token, reading after saving gives that configuration or fails; it succeeds iff in addition the answers begin with one to each setting, in order. |
| Device.HwVxDevice.GetConfig | src/uhfreader18/hwvx/device.py:119-129 | Sends the get commands in table order and returns the reading of their answers, or the first failure. |
| Device.GetResultIs | src/uhfreader18/hwvx/device.py:119-129 | A reading fails with the first request that does, or with all the fields that cannot be read. |
| Device.HwVxDevice.SendConfigPass | src/uhfreader18/hwvx/device.py:159-174 | Emits login, the set commands in their order, and reboot, up to the first command that is not ASCII; it completes iff there is none. |
| Device.HwVxDevice.SaveConfig | src/uhfreader18/hwvx/device.py:133-157 | Nothing is sent for an invalid configuration, and exactly its problems are reported. A valid one is sent once, and once more behind a select when the device is not in broadcast mode; the select fails iff the MAC address is not ASCII. |
| Vectors.CheckValue | tests/test_protocol.py:36-39 | The checksum of "123456789" is 0x6F91. |
| Vectors.CommandFrame | tests/test_protocol.py:42-47 | The frame of "get reader info" to address 0, byte for byte. |
| Vectors.CapturedFrame | tests/test_protocol.py:22-33 | A captured tag report is accepted with its fields and its checksum. |
| Vectors.Heartbeats | tests/test_protocol.py:112-127 | The heartbeat is read as one; two bytes of it wait; a byte that announces less than five is an error. |

## Left out

- Sockets, threads, sleeps, argument parsing and logging: the network is a script of chunks or replies.
- Error texts and the display names of commands and statuses (`tag`, `hex_readable`, `command_name`, `status_name`, `status_text`).
- Run-time type checks against annotations (`_require`, `isinstance`): types are static here, so booleans in integer fields do not arise.
- The `set_*` wrappers, `ReaderInfo`, `WorkModeInfo` and `FreqBand.pack`/`unpack`: one range check or a finite table each.
- `frequency_mhz` and the baud-rate tables.
- `search`, `search_targets`, `connect` of the HW-VX device, `change_network`, `set_dhcp` and `reboot`: straight-line sends and one split.
- Recovery after a corrupted length byte: the source does not look for the next frame boundary, so nothing is promised there.
- Client.RfidClient.SendCommand: a frame of which a failing `sendall` wrote only a part counts as not written.
- Text.ParseInt: reads ASCII text only, as replies are decoded as ASCII, and without Python's limit on the number of digits.
- Config.FromWire: keys that are not fields cannot occur in the model; the source ignores them.
- Config.Validate: states which problems are reported, not the order of the messages.
- Transport.HwVxNetworking.Receive: a datagram longer than the receive buffer, which the source would cut, is not modelled, nor are socket errors other than timeouts.
- Device.GetGenuine: the text of a reply to a login, set or select command is not documented, so the model does not say which of these replies carry a get command's token.
