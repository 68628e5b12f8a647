# NetworksProjects in Dafny: the rdt stop-and-wait layer and the caching proxy

This project models two programs from a networking course repository and proves
properties of them.

**Project2/rdt** is a reliable-data-transfer layer over UDP. It uses alternating bits and
stop-and-wait.
- **Codec.** `util.py`, with an earlier draft in `workbench.py`, builds packets and
  checks them. A packet is laid out as:
  - bytes 0-7: the tag `COMPNETW`;
  - bytes 8-9: a 16-bit one's-complement checksum;
  - bytes 10-11: a 16-bit length field, whose value is `4 * length + 2 * ack + seq`;
  - bytes 12 onwards: the payload.
- **Receiver.** The receiver loop in `receiver.py` is the class
  `Receiver.ReceiverLoop`. Its fields are the loop's variables. Each pass is `Step`.
- **Sender.** One call of `Sender.rdt_send` in `sender.py` is the class
  `Sender.RdtSend`. It reacts to timeouts and replies through `Step`.
- **Specification functions.** Each class method is proved against a function on
  values: `Receiver.Next`/`React` and `Sender.Next`/`React`. The properties of the
  protocol are proved as lemmas about those functions.
- **Channel.** The module `Channel` runs one sender call against the receiver over a
  channel that may lose ACKs. It proves:
  - over a lossless channel, every call ends within three exchanges and the message is
    delivered exactly once, whatever sequence number the receiver expects;
  - a lost ACK makes the receiver deliver the same message twice.

**Project1** is a caching HTTP proxy, written twice: synchronously in `proxy.py` and
with asyncio in `Proxy.py`.
- **Modelled parts.** The model covers the request check `validURI`, the parsing of the
  origin server's response, and the dispatch on its status code to the three response
  handlers. For the asyncio version it also covers the `handleClient` dispatch.
- **Outputs.** Socket and stream-writer output becomes a returned list of texts, or of
  writer calls.
- **Inputs.** The cache, the origin server and the cache write's failure are inputs.

Modules:
- `Builtins`: the Python built-ins the code relies on, such as slicing, `format`/`int`
  in base 2, `bin`, `to_bytes`/`from_bytes`, `str.split` and `startswith`.
- `Util` and `Workbench`: the codec and its draft.
- `Sender` and `Receiver`: the two protocol ends.
- `Channel`: the two ends put together.
- `Proxy`: `proxy.py`.
- `AsyncProxy`: `Proxy.py`.

Notes on behaviour the model keeps as written:
- **Checksum carry fold (`util.py`).** The checksum folds the carry of the word sum
  at most once (`util.py:21-26`), where RFC 1071 section 1 folds until no carry is
  left. The two agree exactly when one fold leaves no carry, and differ for example on
  the words `FFFF FFFF 0001`. Both ends use the same function, so the protocol itself
  is not affected.
- **Checksum carry fold (`workbench.py`).** The draft folds unconditionally
  (`workbench.py:25`). It yields the same bytes as `util.py` on every input.
- **Length-field helper.** `receiver.py:125` calls `process_packet_length_section`,
  which is not part of this model's sources. It is modelled as `Sender.process_length`
  applied to the two bytes of the length field, 10-11. On 12-byte packets this is
  exactly `process_length`. On longer packets, reading all bytes from 10 onwards would
  take the numbers from the last payload byte.
- **Sender restart.** The sender starts every call at sequence number 0. It recovers
  from a receiver that expects 1 through the wrong-ACK branch (`sender.py:119-128`).
- **Duplicate delivery.** A lost ACK makes the receiver deliver the message twice
  (`Channel.LostAckDeliversTwice`).
- **Status line.** The status line is the first `\n`-separated line of the header
  block. When header fields follow, it keeps its trailing `\r`.

## Model

| member | source | states |
|---|---|---|
| Builtins.Drop | Project2/rdt/sender.py:40 | `s[n:]` is empty past the end and otherwise the rest after the first `n` elements |
| Builtins.ParseBinSnoc | Project2/rdt/util.py:71-78 | appending the digit of a bit to a binary numeral doubles its value and adds the bit |
| Builtins.ParseBinOfBin | Project2/rdt/util.py:68 | reading back the numeral `format(n, 'b')` gives `n` |
| Builtins.ParseBinLeadingZeros | Project2/rdt/util.py:68 | leading zeros do not change the value `int(s, 2)` reads |
| Builtins.ParseFormatBin | Project2/rdt/util.py:68-78 | `int(format(n, '0<w>b'), 2) == n` for every width `w` |
| Builtins.BinLastDigits | Project2/rdt/sender.py:46-49 | for `n >= 2` the last two digits of the numeral of `n` are bit 0 and bit 1 of `n` |
| Builtins.BinRepr | Project2/rdt/sender.py:46 | `bin(n)` is "0b" followed by the numeral of `n` |
| Builtins.IntOfChar | Project2/rdt/sender.py:48-49 | `int(c)` raises ValueError unless `c` is a decimal digit; '0' and '1' read as 0 and 1 |
| Builtins.ToBytes2 | Project2/rdt/util.py:82 | `to_bytes(2)` raises OverflowError exactly when the value needs more than 16 bits, otherwise gives two bytes whose big-endian value is the input |
| Builtins.FromBytesBE2 | Project2/rdt/sender.py:43 | two big-endian bytes denote a value below 2^16 from which `to_bytes(2)` gives back the same bytes |
| Builtins.SplitOnce | Project1/proxy.py:274 | for a non-empty separator (Python refuses an empty one), unpacking `s.split(sep, 1)` raises ValueError exactly when `sep` does not occur; otherwise `s` is the first part, `sep` and the rest, with no earlier occurrence |
| Builtins.SplitOnceIs | Project1/proxy.py:274 | when `sep` first occurs right after `a`, the split gives `a` and what follows `sep` |
| Builtins.FirstField | Project1/proxy.py:275 | `s.split(c)[0]` is the prefix of `s` holding no `c` that ends at a `c` or at the end |
| Builtins.FirstFieldIs | Project1/proxy.py:275 | such a prefix is unique: any prefix with those properties is `s.split(c)[0]` |
| Builtins.SecondField | Project1/proxy.py:276 | `s.split(c)[1]` raises IndexError exactly when `c` does not occur, otherwise is the text between the first `c` and the next `c` or the end |
| Builtins.SecondFieldIs | Project1/proxy.py:276 | in `w + c + v + rest` with no `c` in `w` or `v` and `rest` empty or starting with `c`, the second field is `v` |
| Util.ChecksumValue | Project2/rdt/util.py:1-29 | the checksum value is below 2^16 |
| Util.Checksum | Project2/rdt/util.py:29-32 | the checksum is two bytes whose big-endian value is the checksum value |
| Util.CreateChecksum | Project2/rdt/util.py:1-32 | the padding, the word-summing loop, the single carry fold and the complement compute `Checksum` |
| Util.ChecksumOfOddLength | Project2/rdt/util.py:12-13 | an odd-length input has the checksum of itself followed by one zero byte |
| Util.ChecksumSingleFold | Project2/rdt/util.py:15-29 | with word sum `s`: `65535 - s` when `s < 65536`, otherwise `65535 - ((s >> 16) + (s & 0xFFFF)) % 65536`; one fold only |
| Util.SingleFoldAgreesWithRfc1071 | Project2/rdt/util.py:21-26 | for word sums below 2^32 the checksum equals the RFC 1071 checksum exactly when one fold leaves no carry |
| Util.SingleFoldDiffersFromRfc1071 | Project2/rdt/util.py:21-26 | on the bytes `FF FF FF FF 00 01` the checksum is `FFFF` where RFC 1071 gives `FFFE` |
| Util.VerifyChecksum | Project2/rdt/util.py:34-52 | false for packets shorter than 10 bytes; otherwise true exactly when bytes 8-9 equal the checksum of the packet with those bytes zeroed |
| Util.LengthFieldDigits | Project2/rdt/util.py:68-74 | the length, ACK and SEQ digits form a binary numeral of at least 16 digits |
| Util.CreatePacketLengthSection | Project2/rdt/util.py:55-84 | succeeds exactly when the length is below 16384, then gives two big-endian bytes of value `4 * length + 2 * ack + seq`; otherwise OverflowError |
| Util.BuildPacket | Project2/rdt/util.py:105-120 | succeeds exactly when `12 + len(data) < 16384` (else OverflowError); the packet is 12 bytes longer than the data, starts with the tag, ends with the data, and its length field holds `4 * len(p) + 2 * ack + seq` |
| Util.Assemble | Project2/rdt/util.py:111-117 | the assembled packet is 12 bytes longer than the data and holds the tag, the length field and the data in place |
| Util.MakePacket | Project2/rdt/util.py:86-141 | builds the packet of the encoded payload, an empty payload for `None` or `""`; fails with OverflowError exactly when the packet length does not fit 14 bits; a falsy payload gives a 12-byte packet |
| Util.AssembleVerifies | Project2/rdt/util.py:111-117 | every assembled packet passes `verify_checksum` |
| Util.MakePacketVerifies | Project2/rdt/util.py:49-52 | round trip: every packet `make_packet` builds passes `verify_checksum` |
| Util.LengthFieldDecodes | Project2/rdt/util.py:105-111 | in a built packet, bytes 10-11 read as `v` with `v / 4` the packet length, `v % 4 == 2 * ack + seq`, bit 1 the ACK and bit 0 the SEQ number |
| Workbench.DraftChecksumValue | Project2/rdt/workbench.py:25-28 | the draft's checksum value is below 2^16 |
| Workbench.DraftChecksum | Project2/rdt/workbench.py:28-30 | the draft's checksum is two bytes whose big-endian value is the draft's checksum value |
| Workbench.CreateChecksum | Project2/rdt/workbench.py:1-30 | the padding, the summing loop, the unconditional fold and the complement compute `DraftChecksum` |
| Workbench.DraftChecksumAgreesWithUtil | Project2/rdt/workbench.py:25 | the unconditional fold gives the same checksum bytes as `util.py`'s conditional fold on every input |
| Workbench.VerifyChecksum | Project2/rdt/workbench.py:64-82 | the draft's check gives the same verdict as `util.py`'s on every datagram |
| Workbench.BuildPacket | Project2/rdt/workbench.py:100-119 | the draft builds the same packet, or raises the same error, as `util.py` |
| Workbench.MakePacket | Project2/rdt/workbench.py:85-140 | the draft's `make_packet` agrees with `util.py`'s on every input |
| Workbench.DraftRoundTrip | Project2/rdt/workbench.py:157-170 | every packet the draft builds for a message that fits passes the draft's `verify_checksum` |
| Workbench.DraftAckPacket | Project2/rdt/workbench.py:122-139 | `make_packet(None, a, s)` is a 12-byte packet starting with the tag that passes the check |
| Sender.BinReprTail | Project2/rdt/sender.py:46-49 | the last two characters of `bin(v)` are bits 1 and 0 of `v` when `v >= 2`; below 2 the second-to-last is 'b' |
| Sender.ProcessLength | Project2/rdt/sender.py:37-51 | with `v` the big-endian value of bytes 10 onwards: succeeds exactly when `v >= 2`, with bit 1 and bit 0 of `v`; otherwise ValueError |
| Sender.ExtractAck | Project2/rdt/sender.py:53-63 | no numbers for a datagram that is not 12 bytes; for 12 bytes, raises ValueError exactly when the length field is below 2 and otherwise returns the `(ack, seq)` bits `process_length` reads |
| Sender.AckPacketDecodes | Project2/rdt/sender.py:53-63 | `make_packet(None, a, s)` is 12 bytes, passes the check and reads back as `(a, s)` |
| Sender.Start | Project2/rdt/sender.py:80-86 | a call starts with all three numbers 0, and is still waiting exactly when the message fits, else failed with OverflowError |
| Sender.Classify | Project2/rdt/sender.py:104-111 | a timeout asks for a resend; a corrupted datagram is resent or ignored; read numbers are bits; an unreadable length field is a ValueError |
| Sender.React | Project2/rdt/sender.py:115-131 | a resend repeats the current packet; the loop ends successfully exactly on the expected `(ack, seq)`; a packet sent becomes the current packet; a failure sends nothing |
| Sender.Next | Project2/rdt/sender.py:98-131 | a timeout resends the current packet unchanged; a packet sent becomes the current packet; a pass fails only with ValueError or OverflowError |
| Sender.FirstTransmission | Project2/rdt/sender.py:80-86 | a call starts with all numbers 0 and the packet `make_packet(msg, 0, 0)`; it fails at once exactly when the message does not fit |
| Sender.ReactPreservesInv | Project2/rdt/sender.py:115-128 | every pass keeps the three numbers equal and the current packet `make_packet(msg, n, n)`; every packet sent is that packet |
| Sender.TimeoutResendsCurrentPacket | Project2/rdt/sender.py:130-131 | a timeout or an empty datagram resends the current packet unchanged and changes nothing |
| Sender.ClassifyReply | Project2/rdt/sender.py:107-111 | a reply reads as numbers exactly when it passes the check, is 12 bytes and its length field is readable; a corrupted or non-12-byte reply is ignored; an unreadable one raises |
| Sender.ClassifyAckPacket | Project2/rdt/sender.py:109-111 | the receiver's ACK packet for `(a, q)` reads as the numbers `(a, q)` |
| Sender.ReactToAck | Project2/rdt/sender.py:115-128 | another SEQ number is ignored; the expected numbers end the loop; the expected SEQ with another ACK switches every number to 1 and sends `make_packet(msg, 1, 1)` |
| Sender.SucceedsOnlyOnExpectedAck | Project2/rdt/sender.py:107-118 | the loop ends successfully exactly on a reply that passes the check, is 12 bytes and carries the expected ACK and SEQ numbers |
| Sender.IgnoresCorruptOrStaleReplies | Project2/rdt/sender.py:107-115 | a corrupted, non-12-byte or other-SEQ reply causes no transmission and no change of state |
| Sender.RdtSend.constructor | Project2/rdt/sender.py:80-96 | a new call holds the message and the start state |
| Sender.RdtSend.Step | Project2/rdt/sender.py:98-131 | one pass on a timeout or reply moves the fields to the next state and returns the packet sent; `done` exactly on success |
| Sender.RdtSend.Act | Project2/rdt/sender.py:115-131 | the branch logic of a pass on what the reply read as, with the same state and output as the specification |
| Receiver.ExtractMessage | Project2/rdt/receiver.py:46-58 | the message is the payload from byte 12 on, empty for a 12-byte or shorter datagram |
| Receiver.ExtractMessageOfPacket | Project2/rdt/receiver.py:55 | the message extracted from a built packet is its payload |
| Receiver.SendPacket | Project2/rdt/receiver.py:60-74 | the ACK datagram is 12 bytes, starts with the tag, passes the check and reads back as its numbers on the sender's side |
| Receiver.ProcessPacketLengthSection | Project2/rdt/receiver.py:125 | reads bits 1 and 0 of the length field, ValueError when its value is below 2 |
| Receiver.ProcessPacketLengthSectionOfPacket | Project2/rdt/receiver.py:125 | a built packet's length field reads back as its ACK and SEQ numbers |
| Receiver.Flip | Project2/rdt/receiver.py:173-182 | flipping a bit gives `1 - b` |
| Receiver.Inspect | Project2/rdt/receiver.py:121-125 | corrupt exactly when the checksum fails; an unreadable length field is a ValueError; read numbers are bits |
| Receiver.React | Project2/rdt/receiver.py:131-187 | raises exactly on an unreadable length field; a delivery hands over the message and acknowledges it; a pass that delivers nothing changes only the packet count, by at most one |
| Receiver.Next | Project2/rdt/receiver.py:121-191 | a datagram failing the check changes nothing; a pass raises only ValueError; a delivered message is `extract_message` of the datagram |
| Receiver.InspectPacket | Project2/rdt/receiver.py:121-125 | a built packet passes the check and carries its own numbers |
| Receiver.CorruptPacketDropped | Project2/rdt/receiver.py:190-191 | a datagram failing the check gets no ACK and no delivery and changes nothing |
| Receiver.UnreadableLengthCrashes | Project2/rdt/receiver.py:125 | a datagram passing the check whose length field is below 2 makes the loop raise ValueError |
| Receiver.ReactKeepsConsistent | Project2/rdt/receiver.py:131-187 | every pass keeps `ack_num == expected_seq_num ==` deliveries mod 2 and `last_correctly_received_ack_num` 0 before the first delivery and `1 - expected_seq_num` after; a pass that delivers nothing changes only `packet_num` |
| Receiver.PacketNumCountsInSequence | Project2/rdt/receiver.py:131-134 | `packet_num` grows by one exactly for in-sequence packets |
| Receiver.MultipleOfSixIsMultipleOfThree | Project2/rdt/receiver.py:143-153 | a multiple of 6 is a multiple of 3, so the two `% 6` branches add no case to the `% 3` one |
| Receiver.DeliveringReaction | Project2/rdt/receiver.py:158-182 | an in-sequence packet not dropped on purpose is delivered, acknowledged with `(ack_num, expected_seq_num)`, and flips both numbers |
| Receiver.SimulatedLoss | Project2/rdt/receiver.py:143-155 | an in-sequence packet whose count is a multiple of 3 gets no ACK and no delivery, and only `packet_num` changes |
| Receiver.Delivery | Project2/rdt/receiver.py:131-182 | a pass delivers exactly for an in-sequence packet not dropped on purpose, delivering the payload and recording the old `ack_num` |
| Receiver.OutOfSequence | Project2/rdt/receiver.py:186-187 | another SEQ number is answered with `(ack_num, last_correctly_received_ack_num)`, with no delivery and no change |
| Receiver.DuplicateNotRedelivered | Project2/rdt/receiver.py:131-187 | a packet resent after its delivery is not delivered again but acknowledged with its own SEQ number |
| Receiver.ReceiverLoop.constructor | Project2/rdt/receiver.py:91-102 | the loop starts with all four variables 0 and nothing delivered |
| Receiver.ReceiverLoop.Step | Project2/rdt/receiver.py:108-191 | one pass on a datagram updates the fields as the specification says, returns the ACK numbers and message, and appends the message to the deliveries |
| Receiver.ReceiverLoop.Act | Project2/rdt/receiver.py:131-187 | the branch logic of a pass on the inspected header, with the same state and output as the specification |
| Channel.StartViewOfStart | Project2/rdt/sender.py:80-86 | the sender's start state has the numbers and status of the packet-free view |
| Channel.ReactViewOfReact | Project2/rdt/sender.py:107-131 | the view after a pass is determined by the view before it, so the composition can follow the numbers alone |
| Channel.ReceiverReadsPacket | Project2/rdt/receiver.py:121-125 | the receiver's pass on the sender's current packet is its reaction to the packet's numbers and the message |
| Channel.SenderReadsAck | Project2/rdt/sender.py:104-111 | the sender's pass on the receiver's ACK datagram, or a timeout when it is lost, is its reaction to the ACK's numbers |
| Channel.DeliveringExchange | Project2/rdt/receiver.py:158-182 | the packet the receiver expects is delivered and its ACK ends the call |
| Channel.LostAckExchange | Project2/rdt/receiver.py:158-182 | when that ACK is lost the receiver has delivered and flipped while the sender still waits |
| Channel.DroppingExchange | Project2/rdt/receiver.py:143-155 | a packet dropped on purpose changes only the receiver's count |
| Channel.ResynchronisingExchange | Project2/rdt/sender.py:119-128 | a first packet reaching a receiver that expects SEQ 1 switches the sender to SEQ 1 |
| Channel.InSequenceCallSucceeds | Project2/rdt/sender.py:98-118 | when the receiver expects the sender's SEQ number, two lossless exchanges end the call with one delivery |
| Channel.DroppedThenDelivered | Project2/rdt/sender.py:130-131 | a packet dropped on purpose is resent after the timeout and then delivered once |
| Channel.ResynchronisedCallSucceeds | Project2/rdt/sender.py:119-128 | a call reaching a receiver that expects SEQ 1 ends within three lossless exchanges with one delivery |
| Channel.LosslessCallDeliversOnce | Project2/rdt/sender.py:66-135 | over a lossless channel every call of a message that fits succeeds and delivers it exactly once, from any consistent receiver state |
| Channel.LostAckRedelivers | Project2/rdt/sender.py:80-86 | with the first ACK lost, the restart at SEQ 0 and the wrong-ACK branch make the receiver deliver the message twice |
| Channel.LostAckDeliversTwice | Project2/rdt/sender.py:80-86 | the first message to a fresh receiver with its first ACK lost succeeds and is delivered twice |
| Proxy.ValidUri | Project1/proxy.py:102-143 | a request is accepted exactly when it has three tokens, GET, an `http://` URL and HTTP/1.1; it is accepted exactly when nothing is sent |
| Proxy.OnlyFirstFailureReported | Project1/proxy.py:121-139 | a rejected request gets only the message of the first check it fails |
| Proxy.RejectionHasFirstFailure | Project1/proxy.py:121-139 | every rejected request fails some check first and gets that check's message |
| Proxy.HttpsRejected | Project1/proxy.py:131-134 | an `https://` URL is refused with the scheme messages |
| Proxy.ParseResponse | Project1/proxy.py:274-276 | ValueError exactly when there is no blank line; IndexError exactly when the first line has no space; otherwise the body follows the first blank line, the status line is the first line and the code its second token |
| Proxy.HeaderEndAfterHeaders | Project1/proxy.py:274 | in a response whose header block has no empty line, the first blank line is the one after the headers |
| Proxy.ParseResponseText | Project1/proxy.py:274-276 | a response with a well-formed status line parses back into its version line, code and body |
| Proxy.BodyText | Project1/proxy.py:322 | the body framed by two newlines on each side, never equal to the fixed 404 or error text |
| Proxy.SuccessReply | Project1/proxy.py:316-322 | the status line with a newline, `Cache-Hit: 0`, then the body framed |
| Proxy.NotFoundReply | Project1/proxy.py:339-343 | the status line with a newline and `Cache-Hit: 0`, and never the success reply of any body |
| Proxy.UnsupportedReply | Project1/proxy.py:361-367 | the status line with a newline and `Cache-Hit: 0`, differing from the success and 404 replies |
| Proxy.CacheReply | Project1/proxy.py:177-183 | the fixed `HTTP/1.1 200 OK` line, a Cache-Hit line other than the miss line, then the cached body framed |
| Proxy.Dispatch | Project1/proxy.py:279-284 | three messages: the status line, `Cache-Hit: 0`, then the framed body exactly for code 200, the fixed 404 text for 404 and the fixed error text for any other code; the body is written to the cache exactly for 200 |
| Proxy.HandleOriginResponse | Project1/proxy.py:257-284 | raises exactly when parsing raises, with the same error; otherwise relays as the dispatch says |
| Proxy.RelaysFoundResponse | Project1/proxy.py:286-324 | a 200 response is stored and relayed with its status line and body |
| Proxy.RelaysNotFoundResponse | Project1/proxy.py:326-345 | a 404 response is not stored and is answered with the fixed 404 text |
| Proxy.RelaysOtherResponse | Project1/proxy.py:347-369 | any other code is not stored and is answered with the fixed error text |
| Proxy.CacheReplaysRelayedBody | Project1/proxy.py:156-185 | a cache hit serves the body stored on a 200 framed as relayed, differs in the Cache-Hit line, and repeats the status line exactly when it was `HTTP/1.1 200 OK` |
| AsyncProxy.Complain | Project1/Proxy.py:100-123 | a failed check drains the writer first, then writes its messages, and answers false |
| AsyncProxy.HandleInvalidRequest | Project1/Proxy.py:129-137 | writes the usage text and closes the writer last |
| AsyncProxy.ValidUri | Project1/Proxy.py:82-127 | accepts exactly the requests the synchronous check accepts and writes the same messages, each failure after a drain |
| AsyncProxy.ReadFromCache | Project1/Proxy.py:139-176 | a readable cache file is written as the synchronous cache reply; a failure closes the writer and writes nothing |
| AsyncProxy.HandleOriginResponse | Project1/Proxy.py:202-315 | raises exactly when the synchronous version does; otherwise writes the same texts; stores the body only for a 200 whose cache write succeeds |
| AsyncProxy.RepliesDespiteCacheFailure | Project1/Proxy.py:244-273 | the client gets the same writes whether or not the cache write raised |
| AsyncProxy.InvalidSession | Project1/Proxy.py:345-349 | an invalid request writes the check's complaint then the invalid-request text, and closes |
| AsyncProxy.CacheSession | Project1/Proxy.py:336-338 | a cache hit writes the cached reply and closes, fetching nothing |
| AsyncProxy.OriginSession | Project1/Proxy.py:339-344 | a cache miss relays the origin's response, or writes nothing when there is none or it fails to parse, and closes |
| AsyncProxy.HandleClient | Project1/Proxy.py:317-349 | the writer is always closed last and never written after closing; the texts written follow the invalid / cached / origin dispatch; an exception escapes, with nothing written, exactly when `extractRequestData` raises or the origin response is unavailable or unparsable |
| AsyncProxy.InvalidRequestIgnoresCacheAndOrigin | Project1/Proxy.py:329-347 | an invalid request is answered the same whatever the cache and the origin hold |
| AsyncProxy.CacheHitIgnoresOrigin | Project1/Proxy.py:336-338 | a cached file is served the same whatever the origin would answer |

## Left out

- Sockets, `settimeout`, `recvfrom`/`sendto` and the `rdt_recv` wrappers are left out. A
  timeout is the event `Timeout` and a datagram is `Reply`. Sends are returned values.
- The sender's socket creation and the `KeyboardInterrupt` exits of both loops are left
  out. They are interactive only.
- `sleep(ADJUST_TIMEOUT)` is left out, because wall-clock timing is not modelled. The
  simulated loss and corruption are kept as a branch that drops the packet.
- UTF-8 `encode`/`decode` is left out. Payloads and messages are byte sequences, and
  response texts are strings.
- `print` and `write_packet_to_log` are left out. They are output only, and the latter
  is not defined in this model's sources.
- `process_packet_length_section` is not part of this model. It is modelled as reading
  bits 1 and 0 of bytes 10-11 (see the note above).
- Receiver.ReceiverLoop.Step: the ACK is returned as the numbers passed to
  `send_packet`. The bytes of that ACK are given by `Receiver.SendPacket`.
- `workbench.py`'s `create_packet_length_section` has the same text as `util.py`'s. It is
  modelled once, by `Util.CreatePacketLengthSection`. Its `__main__` self-test is covered
  by `Workbench.DraftRoundTrip`.
- Channel: only single calls are composed, with ACK losses as the only channel fault.
  A run of several calls, data-packet loss and reordering are not modelled.
- `extractRequestData` is left out. It depends on `urllib.parse` and `pathlib`. The
  model takes whether it returns as the boolean `requestData`; a raise (a URL whose
  port is not a number, `Proxy.py:73`) escapes as `BadRequestData`. It takes the cache
  lookup as the boolean `inCache`.
- Reading and writing cache files and `mkdir` are left out. A cache read is an input
  (`Some(text)` or a failure), and a cache write is the text written or a flag saying it
  raised.
- A partial cache write is not modelled.
- `requestFromOrigin` (both files) is left out, because it is network I/O. The
  response is an input. In `Proxy.py` a failed request either returns an error string
  that `handleOriginResponse` cannot decode, or, when the connection cannot be opened,
  raises UnboundLocalError from its `finally` (`Proxy.py:197-200`). The model records
  both as the escape `OriginUnavailable`.
- The empty-response branch of the synchronous `requestFromOrigin` is not modelled.
- The synchronous server loop and its client dispatch (`proxy.py:371-411`) are left
  out. Only `Proxy.py`'s `handleClient` dispatch is modelled.
- `processClientRequest`, the asyncio server set-up, argument parsing and `test.py` are
  left out.
- Concurrent clients of the asyncio server are not modelled: each client connection
  is modelled on its own.
