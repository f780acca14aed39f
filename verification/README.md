# A verified model of PJON

PJON is a multi-master, multi-hop bus protocol: devices exchange short packets over unreliable media,
switches and routers connect buses, and several transports ("strategies") carry the frames. This
project models the parts of its C++ implementation in which something can go wrong quietly, and proves
what they promise. `dafny verify dfyconfig.toml` checks all of it.

The components, and the files that hold them:

- **LocalFile** (`LocalFileLog`, `LocalFileRuns`, `LocalFile`): processes share one file with a ring of
  N records stamped with 16-bit ids that wrap from 65535 to 1. The ring refines an unbounded log with
  one cursor per reader, across every wrap.
- **Checksums** (`Gf2`, `Crc`, `Crc8Distance`): the bitwise CRC loops compute remainders of polynomial
  division over GF(2); which errors they detect is derived from that.
- **SFSP framing over a serial line** (`SerialFrames`, `SerialRuns`, `ThroughSerial`): byte stuffing and
  a five-state decoder that is polled and may be interrupted between any two bytes. Section "Frame
  transmission" of SFSP v1.0 and section "Synchronous response" of TSDL v3.0.
- **Packets** (`Words`, `Packets`, `PacketCodec`, `PacketTools`, `Layout`): the header bitmap, the layout it
  implies, byte by byte, composing and parsing in place. Sections "Header configuration", "Shared mode",
  "Extended length", "Packet identification" and "Hardware identification" of PJON v4.0.
- **The device** (`Reception`, `Acceptance`, `Integrity`, `LongPackets`, `SendQueue`, `Pjon`, `QueueRuns`,
  `Exchange`, `Numbering`, `Frames`, `Protocol`, `DeviceRuns`): receiving bytes in batches, filtering,
  acknowledging, what damage comes to, packet ids, the send queue with its attempts, the duplicate filter,
  and the retransmission protocol these make up over a lossy medium, for whole runs of two devices.
- **Switches and routers** (`Routing`, `Searching`, `Router`, `Delivery`, `RoutingRuns`, `AckRules`,
  `EndpointLoss`, `Translation`, `Network`): the resumable search and the delivery loop, who is sent a copy
  and who is acknowledged, address translation, learned tables, virtual buses, and whole networks with loops.

Operations that work in place are methods of the classes `ContentFile`, `LocalFile`, `ThroughSerial`,
`PJON` and `Router`, or methods on arrays; each is proved against a specification on plain values, and
the lemmas are about those specifications. What a call hands to the outside (bytes on the wire,
responses, callbacks, forwarded copies) is kept in log fields.

Values the program gets from outside are parameters: how the medium cuts and loses frames, whether it
is free, whether a response arrives, and what the clock says.

## Where the code decides

- `extended_length` is fixed before EXT_LEN may still be added (src/PJONDefines.h:323 and 328-331): a
  payload of at most 255 bytes whose packet is longer than 255 is written with one length byte under a
  header that announces two. `Packets.LatchedExactly` says when; the codec theorems exclude it.
- A packet with EXT_LEN and without CRC32 is composed but never accepted; `Reception.ComposedRead` is an
  if-and-only-if over this and every other filter rule.
- The search of a switch always ends with one lookup that falls to the default gateway, even after
  matches (src/PJONSimpleSwitch.h:227-238); `Routing.Visits` does the same.
- A forward over the hop limit leaves the foreign endpoint on the bus (src/PJON.h:503-506), and the
  router has acknowledged the packet by then: `RoutingRuns.ReceivedOverLimit`. Attached buses keep their
  endpoints exactly under the condition of `RoutingRuns.EndpointsKept`; in `EndpointLoss.EndpointLost` a
  bus that loses its endpoint can no longer be reached.
- The hop count is a byte: a packet that arrives with 255 hops leaves with 0 (`Network.HopLimit`), and
  local packets do not carry it at all (`Network.LocalHopsLost`).
- A fresh LocalFile reader whose ring straddles the wrap of the ids starts one record late, because the
  N ids before the last one are counted over 65536 values, not 65535 (`LocalFileLog.FirstPoll`).
- A reader behind by so much that the oldest retained id looks 0x8FFF or more ahead gets nothing
  although N records are unread (`LocalFileLog.StalledReader`); `LocalFileLog.PollReadsNext` is the
  exact condition.
- The comment on the CRC8 names its polynomial 0x97 in implicit +1 notation. The loop shifts right, so
  what it divides by is the reciprocal, x^8 + x^7 + x^6 + x^5 + x^3 + 1 (`Crc8.PolynomialShape`). Up to
  three flipped bits are always detected in packets of up to 15 bytes and in none longer
  (`Crc8Distance.FifteenBytesIsTheLimit`), which is where the code switches to CRC32.
- The text and the figure of specification/SFSP-frame-separation-specification-v1.0.md give the escape
  flag as decimal 76; its list of flags and the code use 187.
- The serial decoder looks for room in the buffer before it looks for the end flag, so payloads up to
  the maximum length less 2 pass. It stores an escaped byte without looking for room
  (src/strategies/ThroughSerial/ThroughSerial.h:208 and 233): a frame whose payload has a flag where the
  buffer is full and another one just before runs over it, and no other frame does
  (`SerialFrames.FrameStaysInRoom`; `SerialFrames.FlagsOverflow` is one such frame). The model stops there
  and says so in `overran`.
- A frame shorter than the response makes `prepare_response` read what lies in memory before it
  (src/strategies/ThroughSerial/ThroughSerial.h:283); that is a parameter.
- `new_packet_id` gives 1 for the seeds 0 and 65535 (`PacketTools.PacketIdsDistinct`), so two packets in a
  row get the id 1 when the seed wraps: `PacketTools.AutomaticIdsDistinct` says how long a run of distinct
  ids is.
- The header says which CRC to check, and damage to it is checked by what it then says: three flipped bits
  of a packet protected by CRC8 can turn on EXT_LEN and CRC32 and clear the high length byte, and be
  accepted (`Integrity.DamageGetsThrough`).
- A poll of the serial port with room for one byte takes the frame of a payload of one byte behind flags
  alone, and hands it over without that byte (`SerialFrames.SingleFrame`).
- A response is the end of a frame with each flag lowered by one, so a frame that ends with the bytes below
  the flags has the same response (`SerialFrames.SameResponse`).
- The search position of a router is a byte that runs over attached buses and table entries together
  (src/PJONRouter.h:62-65). A matching entry that puts it at 255 ends the delivery loop before the default
  gateway (`Searching.PositionEnds`); one that puts it past 255 starts the search again, without end
  (`Searching.PositionRestarts`). `Searching.LoopCompletes` is the exact condition for the loop to make all
  its visits.

## Model

| member | source | states |
|---|---|---|
| LocalFile.LocalFile.FindReusablePosition | src/strategies/LocalFile/LocalFile.h:175-190 | the running-maximum scan returns the first unused position, else the first one whose id lies furthest behind the last, else none |
| LocalFile.LocalFile.FindNextUnreadPosition | src/strategies/LocalFile/LocalFile.h:192-212 | the running-minimum scan returns the first candidate closest after the last id read, after a new reader was set N ids back |
| LocalFile.ContentFile.UpdateIndex | src/strategies/LocalFile/LocalFile.h:95-101 | last id and one index entry change, the records do not |
| LocalFile.LocalFile.WritePacketToFile | src/strategies/LocalFile/LocalFile.h:111-148 | one locked write is a step of the ring: id and record are stored at the same reusable position |
| LocalFile.LocalFile.ReadNextPacketFromFile | src/strategies/LocalFile/LocalFile.h:150-173 | one locked poll returns the record at the next unread position and moves the reader to its id |
| LocalFile.LocalFile.SendFrame | src/strategies/LocalFile/LocalFile.h:263-269 | the response a sender will see is ACK if and only if the record was stored |
| LocalFile.LocalFile.ReceiveFrame | src/strategies/LocalFile/LocalFile.h:245-255 | a poll, cut to the room of the caller |
| LocalFileLog.WriterEvictsOldest | src/strategies/LocalFile/LocalFile.h:175-190 | in every ring state the largest wrapped difference is the oldest record, and it alone is evicted |
| LocalFileLog.WriteAppends | src/strategies/LocalFile/LocalFile.h:111-148 | a write to a ring of the log is a ring of the log with the record appended, and succeeds |
| LocalFileLog.SelfCheckSilent | src/strategies/LocalFile/LocalFile.h:119-132 | the counter check is silent exactly from the N-th write on, wraps included |
| LocalFileLog.LoneSlotNeverReused | src/strategies/LocalFile/LocalFile.h:179-189 | with N = 1 the slot is never written again: N >= 2 is needed |
| LocalFileLog.PollReadsNext | src/strategies/LocalFile/LocalFile.h:192-212 | a poll returns the next record, or the oldest retained one if that is gone, if and only if its wrapped difference is below 0x8FFF |
| LocalFileLog.LagBound | src/strategies/LocalFile/LocalFile.h:205-208 | a reader fewer than 0x8FFE + N - 1 records behind is always within that bound |
| LocalFileLog.StalledReader | src/strategies/LocalFile/LocalFile.h:205-208 | the lags at which a poll reports nothing although N records are unread |
| LocalFileLog.FirstPoll | src/strategies/LocalFile/LocalFile.h:197-212 | what a reader that never read gets first: the oldest retained record, or the second oldest when the ring straddles the wrap |
| LocalFileRuns.RingOfLog | src/strategies/LocalFile/LocalFile.h:111-212 | in every reachable state the file is the ring of the whole log: the last min(k, N) records, each beside its own id |
| LocalFileRuns.RingRefinesLog | src/strategies/LocalFile/LocalFile.h:111-212 | over any interleaving, every poll of a reader in range returns what a cursor over the unbounded log returns |
| LocalFileRuns.NothingLostNothingRepeated | src/strategies/LocalFile/LocalFile.h:150-212 | a reader never more than N behind has been given one gapless stretch of the log, in order, up to its cursor |
| LocalFileRuns.EarlyReaderGetsAll | src/strategies/LocalFile/LocalFile.h:192-212 | and that stretch starts with the first record if it polled before any was overwritten |
| Crc8.Roll | src/utils/crc/PJON_CRC8.h:14-21 | the shifting loop is eight zero-input steps of the register on the xor of byte and register |
| Crc8.Compute | src/utils/crc/PJON_CRC8.h:24-29 | the loop over a buffer computes the CRC of its first bytes |
| Crc8.OfBits | src/utils/crc/PJON_CRC8.h:14-29 | the CRC is the register after all message bits, least significant first |
| Crc8.PolynomialShape | src/utils/crc/PJON_CRC8.h:7-18 | the polynomial the constant encodes, and that it is divisible by x + 1 |
| Crc8.CrcIsRemainder | src/utils/crc/PJON_CRC8.h:14-29 | the CRC is the remainder of the shifted message by that polynomial: if and only if dividend and remainder differ by a multiple |
| Crc8.ChecksIsZeroSyndrome | src/PJON.h:344-356 | the trailing CRC8 test accepts exactly the strings with zero syndrome |
| Crc8.CrcParity | src/utils/crc/PJON_CRC8.h:14-29 | the CRC has the parity of the message |
| Crc8.Undetected | src/PJON.h:355-356 | damage to an accepted string goes unnoticed if and only if the damage pattern alone has zero syndrome |
| Crc8.OddErrorsDetected | src/PJON.h:355-356 | every odd number of flipped bits is detected, in the CRC byte too |
| Crc8.BurstsDetected | src/PJON.h:355-356 | every error within 8 consecutive bits is detected, for any length |
| Crc8Distance.FullTurn | src/utils/crc/PJON_CRC8.h:14-21 | the zero-input step returns to its start after 127 steps |
| Crc8Distance.NoShorterTurn | src/utils/crc/PJON_CRC8.h:14-21 | and after no fewer |
| Crc8Distance.PairSyndrome | src/utils/crc/PJON_CRC8.h:14-21 | two flipped bits go unnoticed if and only if their distance is a full turn |
| Crc8Distance.ShortErrorsDetected | src/PJON.h:355-356 | in up to 15 bytes every error of one to three bits is detected |
| Crc8Distance.LongPacketsFail | src/PJON.h:320 | in 16 or more bytes there are two bits whose loss is not |
| Crc8Distance.FifteenBytesIsTheLimit | src/PJON.h:320 | so 15 bytes is exactly where CRC8 stops detecting all errors of up to three bits, the limit past which the code requires CRC32 |
| Crc32.Compute | src/utils/crc/PJON_CRC32.h:16-33 | the nested loops compute the CRC of a buffer, from a previous CRC |
| Crc32.Coefficients | src/utils/crc/PJON_CRC32.h:6-12 | the constant encodes the polynomial of clause 3.2.9 of IEEE Std 802.3, coefficient by coefficient |
| Crc32.RegisterIsRun | src/utils/crc/PJON_CRC32.h:22-31 | the byte-wise loop is the bit-serial register over the message bits |
| Crc32.Chaining | src/utils/crc/PJON_CRC32.h:16-22 | chaining through the previous CRC over a, then b, is the CRC of a followed by b |
| Crc32.CrcIsRemainder | src/utils/crc/PJON_CRC32.h:16-33 | the complement of the CRC is the remainder of the message, its register preset to ones |
| Crc32.KnownAnswer | src/utils/crc/PJON_CRC32.h:16-33 | the CRC32 of the letter a is 0xE8B7BE43 |
| Crc32.DifferenceIsSyndrome | src/utils/crc/PJON_CRC32.h:16-33 | the CRCs of two messages of one length differ by the syndrome of their difference |
| Crc32.BurstsDetected | src/utils/crc/PJON_CRC32.h:16-33 | every error within 32 consecutive data bits changes the CRC, for any length |
| Crc32.Compare | src/utils/crc/PJON_CRC32.h:36-46 | the byte-wise comparison accepts exactly the big-endian image of the CRC |
| Crc32.BigEndianInjective | src/PJONDefines.h:379-388 | no two CRCs are stored as the same four bytes |
| Gf2.RunLinear | src/utils/crc/PJON_CRC8.h:14-29 | the register is linear in its start and its input |
| Gf2.StepInjective | src/utils/crc/PJON_CRC8.h:15-19 | the zero-input step is injective |
| Gf2.StepSurjective | src/utils/crc/PJON_CRC8.h:15-19 | and surjective |
| Gf2.ShiftIn | src/utils/crc/PJON_CRC32.h:22-31 | xoring a word into the register and shifting is feeding the bits one by one |
| Gf2.RegisterDivides | src/utils/crc/PJON_CRC8.h:14-29 | shifted message = quotient times polynomial plus register |
| Gf2.RegisterIsRemainder | src/utils/crc/PJON_CRC8.h:14-29 | the register is the only short string that differs from the shifted message by a multiple of the polynomial |
| Gf2.BurstSyndrome | src/utils/crc/PJON_CRC32.h:16-33 | a short burst anywhere in a message has a nonzero syndrome |
| ThroughSerial.ThroughSerial.SendFrame | src/strategies/ThroughSerial/ThroughSerial.h:308-340 | the line carries what the port took of start flag, stuffed payload, end flag, cut before the payload byte after a refused one, and the response expected is prepared from the end of a frame offered whole |
| ThroughSerial.ReachedLeast | src/strategies/ThroughSerial/ThroughSerial.h:312-313 | the payload is offered up to the first byte before which something was refused |
| ThroughSerial.ThroughSerial.PrepareResponse | src/strategies/ThroughSerial/ThroughSerial.h:280-288 | the last bytes of the frame, and of what lies before a short one, flags lowered by one |
| ThroughSerial.ThroughSerial.SendResponse | src/strategies/ThroughSerial/ThroughSerial.h:293-303 | each byte of the prepared response the port takes goes out, for an acknowledgement only, and a refused one is noted |
| ThroughSerial.ThroughSerial.ReceiveResponse | src/strategies/ThroughSerial/ThroughSerial.h:140-158 | ACK if and only if the bytes that arrive in time begin with the expected response |
| ThroughSerial.ThroughSerial.ReceiveFrame | src/strategies/ThroughSerial/ThroughSerial.h:163-258 | one poll, on any pending bytes: it takes some of them as the byte-at-a-time automaton would and hands over a finished payload, or runs over its buffer, exactly if what it took does not stay in room |
| ThroughSerial.ThroughSerial.ReceiveBody | src/strategies/ThroughSerial/ThroughSerial.h:192-221 | the same for the receiving state, with its inline escape path |
| ThroughSerial.ThroughSerial.AwaitEscaped | src/strategies/ThroughSerial/ThroughSerial.h:223-237 | the path of an escape cut off by the end of a poll comes to the same |
| ThroughSerial.ThroughSerial.Store | src/strategies/ThroughSerial/ThroughSerial.h:208-233 | an escaped byte stored with the buffer full is the one thing that runs over it |
| ThroughSerial.Answer | src/strategies/ThroughSerial/ThroughSerial.h:140-303 | the sender takes a receiver's answer for an acknowledgement if and only if it is one, it arrived whole, and the frame handed over ends like the frame sent |
| SerialFrames.StuffedHasNoFlags | src/strategies/ThroughSerial/ThroughSerial.h:314-326 | a stuffed payload holds no start or end flag |
| SerialFrames.FrameDecodes | src/strategies/ThroughSerial/ThroughSerial.h:192-221 | a waiting decoder is handed the payload of the next frame if and only if it leaves two bytes of the buffer free |
| SerialFrames.FrameResynchronises | src/strategies/ThroughSerial/ThroughSerial.h:192-247 | in any other state a frame is lost and leaves the decoder waiting |
| SerialFrames.AtMostOneFrameLost | src/strategies/ThroughSerial/ThroughSerial.h:180-257 | so of a stream of intact frames at most the first is lost, whatever came before |
| SerialFrames.ResponsesAreInert | src/strategies/ThroughSerial/ThroughSerial.h:280-288 | responses hold no flag and leave a waiting listener as it was |
| SerialFrames.FrameStaysInRoom | src/strategies/ThroughSerial/ThroughSerial.h:196-218 | a frame stays within the buffer if and only if its payload does not have flags at both the last place that fits and the next |
| SerialFrames.FlagsOverflow | src/strategies/ThroughSerial/ThroughSerial.h:208 | a frame of 51 start flags runs over a buffer of 50 bytes |
| SerialFrames.FramesStayInRoom | src/strategies/ThroughSerial/ThroughSerial.h:180-257 | a stream of frames does, in any state, if and only if every frame received does |
| SerialFrames.SameResponse | src/strategies/ThroughSerial/ThroughSerial.h:280-288 | two frames have one response if and only if their last bytes are equal or a flag and the byte below it |
| SerialFrames.SingleFrame | src/strategies/ThroughSerial/ThroughSerial.h:192-221 | with room for one byte a frame is handed over if and only if its payload is one byte behind flags alone, and without that byte |
| SerialRuns.PollingRefinesAutomaton | src/strategies/ThroughSerial/ThroughSerial.h:163-258 | however bytes, polls and timeouts interleave, what was delivered and what is pending add up to what the automaton, fed byte by byte and made to wait at each timeout, delivers |
| SerialRuns.PollsMakeProgress | src/strategies/ThroughSerial/ThroughSerial.h:180-257 | a poll with something to do leaves less to do |
| SerialRuns.StreamCut | src/strategies/ThroughSerial/ThroughSerial.h:171-178 | a cut in a stream of frames costs at most one frame |
| SerialRuns.AnyCutDecodes | src/strategies/ThroughSerial/ThroughSerial.h:163-258 | a stream of frames is delivered in order, all but at most one frame per timeout and one for a busy start; exactly all of it, or all but the first, without timeouts |
| SerialRuns.CutStreamStaysInRoom | src/strategies/ThroughSerial/ThroughSerial.h:180-257 | a stream of frames none of which overflows stays within the buffer wherever it is cut and whatever state it began in |
| SerialRuns.PollsStayInRoom | src/strategies/ThroughSerial/ThroughSerial.h:163-258 | so whatever the next poll of a run on such a stream takes stays in room |
| Packets.FinalHeaderBits | src/PJONDefines.h:315-331 | the final header has CRC32 above 15 bytes, no acknowledgement bit on a broadcast, the port bit exactly with a port, extended length exactly when asked for or above 255 bytes, and every other option as asked |
| Packets.LatchedExactly | src/PJONDefines.h:322-331 | exactly when the number of length bytes disagrees with the header |
| Packets.LatchedInput | src/PJONDefines.h:322-331 | a payload of 250 bytes under the default header is such a packet |
| PacketCodec.PacketLengthExact | src/PJONDefines.h:308-392 | the payload starts at overhead less CRC size and all bytes add up to the stored length, one byte short when latched |
| PacketCodec.FieldsLie | src/PJONDefines.h:343-434 | every optional field lies where the overhead of those before it says |
| PacketCodec.ParseInvertsCompose | src/PJONDefines.h:308-434 | parsing a buffer that begins with a composed packet gives back every field its header includes, and the payload where the receiver looks for it |
| Layout.HeaderMasks | src/PJONDefines.h:98-120 | the eight options are the bits of the header from the lowest up |
| Layout.ComposedWire | src/PJONDefines.h:308-392 | every byte of a composed packet by position: receiver, header, length, bus ids, hops, sender, packet id, port, MAC addresses, payload, numbers with the high byte first |
| LongPackets.ComposedCrcs | src/PJONDefines.h:368-391 | a packet ends with the CRC32 or CRC8 of all bytes before it, and its header with a CRC8 of its own, stale bytes of a latched packet included |
| LongPackets.ComposedSealed | src/PJONDefines.h:377-391 | so do the bytes composing leaves in a buffer |
| PacketTools.NewPacketId | src/PJONDefines.h:282-285 | the id after the seed on a circle that leaves out 0 |
| PacketTools.PacketIdsDistinct | src/PJONDefines.h:282-285 | two seeds give one id if and only if they are equal or the two around the wrap |
| PacketTools.AutomaticIdsDistinct | src/PJON.h:161-162 | n packets in a row get distinct ids if and only if the seed does not wrap on the way, nor get from 0 to 65535 |
| PacketTools.IdEquality | src/PJONDefines.h:295-304 | the loop decides equality of the first bytes |
| PacketTools.SettleHeader | src/PJONDefines.h:315-331 | header, length and number of length bytes before anything is written |
| PacketTools.ComposePacket | src/PJONDefines.h:308-392 | the buffer holds the packet at its front and its old contents behind it, or is untouched if the packet does not fit |
| PacketTools.ComposedIntoPrefix | src/PJONDefines.h:377-391 | unless latched, no stale byte gets between payload and CRC |
| PacketTools.ParseHeader | src/PJONDefines.h:396-434 | the advancing index reads each field where the layout puts it |
| Reception.ComposedRead | src/PJON.h:280-342 | a device reads any stream that begins with a composed packet to its end if and only if the addressing rules let it, and gives up otherwise |
| Reception.ComposedAccepted | src/PJON.h:344-367 | an addressed composed packet passes both CRC tests and the MAC test |
| Reception.ComposedJudged | src/PJON.h:344-394 | it is acknowledged exactly when asked, parsed to the fields composed and handed over with exactly its payload, unless it is a duplicate or for another port |
| Reception.ComposedOtherMac | src/PJON.h:358-367 | a packet for another MAC address is dropped without acknowledgement or trace |
| Reception.ReactionIs | src/PJON.h:275-395 | bytes that are not accepted leave no trace; what is accepted is concluded by the info parsed from it |
| Acceptance.ReadIff | src/PJON.h:276-342 | a frame is read to its end if and only if receiver id, header, length and bus id obey the rules, by header masks, and it is as long as it says |
| Acceptance.AcceptedIff | src/PJON.h:275-367 | bytes are taken for a packet if and only if they are read to the end, both CRCs hold over all bytes in front of them, and the MAC address fits, whatever the buffer held |
| Integrity.DamagedShortPacketRefused | src/PJON.h:280-356 | one to three flipped bits in a packet protected by CRC8, whatever follows it, never get past the receiver, unless they turn on both EXT_LEN and CRC32 and leave a length that fits the buffer |
| Integrity.DamageGetsThrough | src/PJON.h:280-356 | three flipped bits that do, in an eight-byte packet, are accepted and hand over other bytes |
| LongPackets.TrailerMeans | src/PJON.h:344-356 | the test at the end of a frame accepts it if and only if it ends with the CRC of all bytes before |
| LongPackets.DamagedLongPacketRefused | src/PJON.h:344-356 | damage within 32 bits behind the header of a packet under CRC32 gives NAK, or BUSY where it is not read to the end, and leaves no trace |
| LongPackets.DamagedTailRefused | src/PJON.h:344-356 | so does any damage to its last four bytes |
| LongPackets.UnnoticedIff | src/PJON.h:344-356 | any damage behind the header leaves the CRC32 intact if and only if the flips in the last four bytes are the remainder of the flips in the data |
| LongPackets.NoticedRefused | src/PJON.h:344-356 | and is refused like that otherwise |
| LongPackets.DamagedHeaderRefused | src/PJON.h:344-348 | one to three flipped bits in the header of any packet are refused unless they change the extended length bit |
| Pjon.PJON.constructor | src/PJON.h:110-113 | a new local device: free slots, half duplex, sender information and acknowledgement on |
| Pjon.PJON.OnSharedBus | src/PJON.h:119-124 | the same with a bus id and the mode bit |
| Pjon.PJON.WithMac | src/PJON.h:132-136 | the same with a MAC address and its bit |
| Pjon.PJON.ReadFrame | src/PJON.h:276-342 | the reading loop comes to the same whatever batches the bytes come in |
| Pjon.PJON.RejectsHeader | src/PJON.h:288-309 | the filter on receiver id and header |
| Pjon.PJON.RejectsBus | src/PJON.h:332-341 | the filter on the bytes of the bus id |
| Pjon.PJON.ChecksCrc | src/PJON.h:344-356 | both CRC tests hold |
| Pjon.PJON.ChecksMac | src/PJON.h:358-367 | the MAC test holds |
| Pjon.PJON.Receive | src/PJON.h:275-395 | code, response, records, info and callback after any stream, cut in any way |
| Pjon.PJON.SavePacketId | src/PJON.h:874-885 | the records move one place back and the newest goes to the front |
| Pjon.PJON.KnownPacketId | src/PJON.h:849-870 | known exactly if a record has the same id, sender and, in shared mode, bus; recorded otherwise |
| Pjon.PJON.Compose | src/PJON.h:152-182 | the packet of the prepared info, or 0 and an error if it does not fit |
| Numbering.PreparedFilled | src/PJON.h:158-178 | what a composed packet carries of the device: its id, the port given or the default one, sender and header |
| Numbering.IdInRun | src/PJON.h:160-163 | over a run of packets an id given is kept and the others get the automatic ids in turn |
| Numbering.RunIdsDistinct | src/PJON.h:160-163 | the packets the device numbers in a run have distinct ids if and only if the seed does not wrap over them, nor get from 0 to 65535 |
| Numbering.ComposeRun | src/PJON.h:152-182 | the same for the ids on the wire of packets a device composes one after the other |
| Pjon.PJON.Dispatch | src/PJON.h:188-209 | the first free slot, or the one given, gets the packet; no other slot changes, and without an index no occupied one; a full queue or a long packet is reported; the queue stays in order |
| Pjon.PJON.SendPacket | src/PJON.h:557-566 | what goes on the wire and what code comes back |
| Pjon.PJON.Remove | src/PJON.h:412-419 | one slot is freed |
| Pjon.PJON.RemoveAllPackets | src/PJON.h:425-430 | exactly the slots for a device are freed, or all |
| Pjon.PJON.ResetPacket | src/PJON.h:434-446 | one-shot packets are freed, repeated ones start over |
| Pjon.PJON.Update | src/PJON.h:808-842 | every slot is visited once, transmissions and lost connections come in slot order, the result is the number of occupied slots left, and with automatic deletion the queue stays in order |
| Frames.DispatchedHolds | src/PJON.h:188-209 | a slot a packet was dispatched to holds that packet |
| Frames.GoingExact | src/PJON.h:808-842 | the slots that go are exactly the occupied ones that are due and may start, in order |
| Frames.SentPackets | src/PJON.h:815-823 | one update sends exactly the packets of the slots that go, each once and whole, in the order of the slots |
| Frames.UpdateSends | src/PJON.h:808-842 | so does a device |
| Frames.VisitOutcome | src/PJON.h:808-842 | a visit ends the exchange if the packet went and was acknowledged or needs no acknowledgement, or with the last attempt; a one-shot packet then goes, a repeated one starts over |
| Frames.RepeatedStays | src/PJON.h:434-446 | a repeated packet stays queued whatever becomes of it |
| Pjon.PJON.GetPacketsCount | src/PJON.h:221-235 | the number of occupied slots, or of those for one device |
| Pjon.PJON.Forward | src/PJON.h:498-511 | within the hop limit the packet is dispatched one hop further under the foreign endpoint, which is put back; over it, it is not, and the endpoint stays |
| Pjon.PJON.Reply | src/PJON.h:452-461 | the answer is dispatched to the sender of the last packet, hops at 0 |
| Pjon.SweptQueueOk | src/PJON.h:808-842 | after an update of the whole queue free slots have no attempts and occupied ones no more than the maximum |
| SendQueue.OneShotFate | src/PJON.h:808-842 | over any updates a one-shot packet leaves with one acknowledgement or one lost connection, never both, and is lost only after all attempts |
| SendQueue.OneShotEnds | src/PJON.h:808-842 | it leaves within maximum + 1 visits that find it due |
| SendQueue.OneShotOutcome | src/PJON.h:808-842 | it is acknowledged if and only if one of the attempts left to it is, and lost if and only if all of them were made and none is |
| SendQueue.FreeStaysFree | src/PJON.h:811 | a free slot stays free and silent |
| SendQueue.CountsChange | src/PJON.h:812-839 | the number of occupied slots changes with the slot updated |
| QueueRuns.SlotRan | src/PJON.h:808-842 | over any updates of the whole queue each slot goes through its own visits, and each loss is reported once, under its index |
| QueueRuns.QueuedFate | src/PJON.h:808-842 | a queued one-shot packet is reported lost once if all attempts left to it failed and never otherwise, and stays queued exactly until it is acknowledged or lost |
| QueueRuns.Updates | src/PJON.h:808-842 | a device updated again and again reports exactly those errors and is left with exactly those slots |
| Exchange.AwaitedDelivered | src/PJON.h:275-395 | a packet a device awaits and has no record of is read completely, acknowledged as asked and delivered, whatever the buffer held |
| Exchange.AddressedTaken | src/PJON.h:275-395 | every packet addressed to a device is acknowledged as asked, handed over if and only if it is for the device's port and not on record, put on record, and BUSY if it is new and for another port |
| Exchange.StrangerIgnored | src/PJON.h:280-367 | a packet for somebody else comes to BUSY and leaves no trace |
| Exchange.CutFails | src/PJON.h:276-285 | one whose end is missing comes to FAIL and leaves no trace |
| Exchange.ReceiveAddressed | src/PJON.h:275-395 | the same for a device, in whatever batches the bytes come |
| Exchange.ComposeStream | src/PJON.h:152-182 | a device composes the bytes the protocol prescribes |
| Exchange.ReceiveStream | src/PJON.h:275-395 | a device that awaits a packet calls its receiver once, with exactly the payload and fields composed, in whatever batches the bytes come |
| Exchange.Transmit | src/PJON.h:152-395 | the same from one device's compose to another's callback |
| Protocol.SameConclusion | src/PJON.h:369-394 | every reception of a composed packet has the same effect on filter and delivery |
| Protocol.DispatchedIsJob | src/PJON.h:188-209 | every slot a packet was dispatched to takes part in the protocol |
| Protocol.AttemptArrives | src/PJON.h:557-566 | the bytes of a queued slot, when not lost, are read, accepted, acknowledged and judged as the fields composed |
| Protocol.ArriveIs | src/PJON.h:275-395 | any other bytes change records and log only by the info accepted from them |
| Protocol.FilterStep | src/PJON.h:849-885 | a key lies in the records exactly as many places back as packets were recorded since |
| Protocol.ArriveLogs | src/PJON.h:369-394 | so every accepted packet keeps that, and each copy of a key is handed over if and only if it is taken for new |
| Protocol.AtMostOnce | src/PJON.h:375-381 | a packet whose copies stay within the window of records is delivered at most once |
| Protocol.RunHolds | src/PJON.h:808-885 | the invariant of sender, medium and receiver over every run |
| Protocol.RecordedIsDelivered | src/PJON.h:375-394 | a packet whose key was recorded was delivered |
| Protocol.LossyDelivery | src/PJON.h:808-885 | over any run of bytes sent and lost, acknowledgements lost, and other bytes, intact or damaged: what the sender saw acknowledged was delivered, and within the window of records nothing is delivered twice |
| DeviceRuns.VisitIsStep | src/PJON.h:808-842 | the visit of a slot by an update is an attempt of the protocol |
| DeviceRuns.UpdateHeard | src/PJON.h:808-842 | an update of a device whose frames another hears or not is a run of attempts, and of other bytes where its slots hold packets for others |
| DeviceRuns.RunEnds | src/PJON.h:808-885 | what such a run comes to for one packet |
| DeviceRuns.RunDevices | src/PJON.h:808-885 | over any updates of a device, frames and acknowledgements lost, and any other bytes: a one-shot packet that left the queue without a loss reported was handed to the callback of the receiver, with its payload, and within the window of records only once |
| Routing.AttachedVisitsExact | src/PJONSimpleSwitch.h:90-103 | the search finds exactly the attached buses with the id, in order |
| Routing.MatchingExact | src/PJONRouter.h:57-71 | the table search meets exactly the entries with the id, in order |
| Routing.TableVisitsExact | src/PJONRouter.h:57-95 | and goes where they lead, up to the first that leads nowhere |
| RouterClass.Router.constructor | src/PJONSimpleSwitch.h:70-88 | as many of the given buses as there is room for, an empty table, no device known |
| RouterClass.Router.FindAttachedBusWithId | src/PJONSimpleSwitch.h:90-103 | the first attached match from a position on, and where to resume |
| RouterClass.Router.FindBusInTable | src/PJONRouter.h:57-71 | the same for the table |
| RouterClass.Router.FindBusWithId | src/PJONRouter.h:73-95 | the same for both in turn: one lookup at a byte position, for buses and tables of any size |
| RouterClass.Router.Translate | src/PJONSimpleSwitch.h:126-147 | address translation |
| RouterClass.Router.Forward | src/PJON.h:498-511 | what forwarding does to the endpoint of an attached bus |
| RouterClass.Router.SendAcknowledged | src/PJONSimpleSwitch.h:108-167 | at most one acknowledgement, then a translated forward, the current bus put back |
| RouterClass.Router.SendPacket | src/PJONVirtualBusRouter.h:118-142 | the same without acknowledgement where the receiver's place on the virtual bus is unknown |
| RouterClass.Router.ForwardPacket | src/PJONSimpleSwitch.h:169-187 | nothing is sent nowhere or back to the sender |
| Searching.LookupSplits | src/PJONRouter.h:57-95 | what a lookup finds and what remains behind it make up what remained before |
| Searching.LoopCompletes | src/PJONSimpleSwitch.h:208-238 | the delivery loop makes exactly its visits if and only if the position behind every entry it can reach is below 255 |
| Searching.EndsEarly | src/PJONRouter.h:62-66 | at 255 it ends short of the gateway |
| Searching.NeverEnds | src/PJONRouter.h:62-66 | past 255 it never ends |
| Searching.PositionEnds | src/PJONRouter.h:65 | one bus and an entry after 253 others: no gateway |
| Searching.PositionRestarts | src/PJONRouter.h:65 | one bus and an entry after 254 others: no end |
| RouterClass.Router.Deliver | src/PJONSimpleSwitch.h:203-239 | under that condition the delivery loop ends and sends along exactly the visits of the search |
| RouterClass.Router.Add | src/PJONRouter.h:105-111 | an entry is appended while there is room |
| RouterClass.Router.AddSenderToRoutingTable | src/PJONDynamicRouter.h:50-63 | the sender's bus is added unless found |
| RouterClass.Router.RoutePacket | src/PJONDynamicRouter.h:65-73 | a dynamic router learns, then delivers |
| RouterClass.Router.FindVbusWithDevice | src/PJONVirtualBusRouter.h:86-96 | the part of the virtual bus a device was seen on |
| RouterClass.Router.RegisterDeviceOnVbus | src/PJONVirtualBusRouter.h:103-116 | one device position changes |
| RouterClass.Router.HandleSendError | src/PJONVirtualBusRouter.h:144-171 | a device is forgotten exactly if it was lost on the bus it was registered on |
| RouterClass.Router.ReceiverFunction | src/PJONVirtualBusRouter.h:173-194 | register the sender, then point or flood |
| RouterClass.Router.Loop | src/PJONSimpleSwitch.h:283-294 | one pass listens to each bus in turn until one stops it, then updates each queue |
| RouterClass.HeardExact | src/PJONSimpleSwitch.h:283-290 | a pass hears exactly the packets waiting on the buses it gets to, in their order |
| RouterClass.LossesExact | src/PJONSimpleSwitch.h:291-292 | and reports exactly what each queue gives up, bus by bus |
| Delivery.TargetsExact | src/PJONSimpleSwitch.h:177-178 | the targets are the visited buses other than the sender |
| Delivery.DeliveredWithinLimit | src/PJONSimpleSwitch.h:203-239 | one copy per visited bus, in order, endpoints unchanged, one acknowledgement if and only if requested, not broadcast, and some copy forwarded in the ordinary way |
| Delivery.DeliveredOverLimit | src/PJONSimpleSwitch.h:203-239 | over the hop limit no copy, every target left with the sender's endpoint, the acknowledgement by the usual rule |
| RoutingRuns.ReceivedOverLimit | src/PJON.h:503-506 | the same for a packet received by any switch or router, with its known or unknown receiver |
| RoutingRuns.EndpointsKept | src/PJON.h:503-506 | attached buses keep their endpoints if and only if the packet is within the limit or every bus it is handed to has its sender's endpoint already |
| EndpointLoss.EndpointLost | src/PJON.h:503-506 | a packet of 15 hops leaves the bus it should go to with its sender's id, and the next packet to that bus, forwarded before, goes nowhere |
| Delivery.AtMostOneAck | src/PJONSimpleSwitch.h:111-119 | never more than one acknowledgement per packet, and none unasked |
| AckRules.HandedExact | src/PJONSimpleSwitch.h:203-239 | a packet for a device not known on the virtual bus is handed to the gateway, the buses with the id it names and those the table leads to, but not back |
| AckRules.HandedCount | src/PJONSimpleSwitch.h:203-239 | once for each of these reasons |
| AckRules.HandedKnown | src/PJONVirtualBusRouter.h:181-188 | one for a known device is handed to its bus alone |
| AckRules.TranslatedIs | src/PJONSimpleSwitch.h:126-147 | translation changes the two bus ids under its two conditions and nothing else |
| AckRules.AckRule | src/PJONVirtualBusRouter.h:118-142 | within the hop limit each bus gets its copy, without its acknowledgement request exactly where the receiver is not known and the bus has the id of the virtual one; the source is acknowledged once if it asks and some bus is served otherwise |
| AckRules.AckRulePlain | src/PJONSimpleSwitch.h:111-119 | without a virtual bus it is acknowledged exactly if it asks and the packet goes anywhere, and copies keep the header |
| AckRules.AckRuleOver | src/PJON.h:503-506 | over the limit the same, on the endpoints left behind so far |
| Delivery.CopyCarries | src/PJONVirtualBusRouter.h:123-136 | what a copy carries, and that it asks for an acknowledgement exactly if the packet does and the receiver's place is known |
| RoutingRuns.FoundIff | src/PJONRouter.h:73-95 | a bus is found if and only if it is attached or in the table |
| RoutingRuns.DynamicTable | src/PJONDynamicRouter.h:50-73 | after any run within the hop limit the table is the record of first sightings, cut at its size; on a virtual bus, of those packets whose receiver's place was not known |
| RoutingRuns.AllUndirected | src/PJONDynamicRouter.h:65-73 | without a virtual bus those are all |
| RoutingRuns.FirstSeenDistinct | src/PJONDynamicRouter.h:54-62 | no bus twice, none attached |
| RoutingRuns.FirstSeenOrigins | src/PJONDynamicRouter.h:54-62 | each entry tells where the first packet from its bus came from |
| RoutingRuns.FirstSeenCovers | src/PJONDynamicRouter.h:54-62 | every sender's bus that is not attached has one |
| RoutingRuns.DevicePositions | src/PJONVirtualBusRouter.h:86-194 | after any run within the hop limit each device is on the bus of its latest packet, unless a connection was lost there since |
| RoutingRuns.RoutedCopies | src/PJONSimpleSwitch.h:203-239 | a packet is copied to every visited bus, all matching attached ones among them |
| RoutingRuns.KnownDevice | src/PJONVirtualBusRouter.h:181-188 | a packet for a device whose place is known goes only there, nowhere if it came from there |
| RoutingRuns.UnknownDevice | src/PJONVirtualBusRouter.h:189-193 | any other is flooded to every matching bus but its source, after the sender was learned |
| Translation.CopyReceived | src/PJONSimpleSwitch.h:203-239 | a router makes a copy of a packet within the hop limit for each bus the packet is handed to |
| Translation.NamedIsHanded | src/PJONVirtualBusRouter.h:173-194 | it is handed to every other bus with the id it names, unless its device is known elsewhere |
| Translation.RequestLeaves | src/PJONSimpleSwitch.h:126-147 | a request from a translated local bus is copied to the bus it is handed to, under the public id, to the endpoint asked for |
| Translation.ReplyReturns | src/PJONSimpleSwitch.h:126-147 | a reply to the public id is copied to the local bus and passes the filter of the device it names, as 0.0.0.0 |
| Translation.RequestAndReply | src/PJONSimpleSwitch.h:126-147 | a request within the hop limit is copied to the remote bus, and in every later state of the router the reply is copied back and comes to the device as 0.0.0.0, from the remote endpoint, which is the one it first addressed, past its bus id filter |
| Network.RouterForwards | src/PJONSimpleSwitch.h:203-239 | whatever a router has learned, each copy is one hop further, and there are at most as many as buses, table entries and the gateway |
| Network.HopLimit | src/PJON.h:505 | dropped exactly from 15 hops on, except at 255 where the count wraps |
| Network.HopsOnWire | src/PJONDefines.h:344-352 | shared packets carry their hop count |
| Network.LocalHopsLost | src/PJONDefines.h:404-414 | local packets do not: the limit never stops them |
| Network.StepLosesWeight | src/PJON.h:498-511 | every reception by a router takes at least one from the weighted sum over packets in flight |
| Network.FinitelyManyReceptions | src/PJON.h:498-511 | so in any network, loops and gateways included, receptions are bounded by that sum |
| Network.CopiesPerReception | src/PJONSimpleSwitch.h:203-239 | and forwards by the fan-out times receptions |
| Network.FinitelyManyForwards | src/PJON.h:498-511 | the bound for one packet, as a power of the spread of a router |

## Left out

- Physical strategies (SoftwareBitBang, OverSampling, LoRa): pin timing and sampling.
- AnalogSampling: its decoder tests the escaped byte before undoing the escape, so its frames do not survive a round trip.
- UDP, TCP, ESP-NOW and MQTT strategies: dominated by sockets and external libraries.
- Interfaces, file opening and locking: a locked section of LocalFile is one atomic step.
- Timeouts and clocks: what a timeout decides is a parameter (`early` and `late` of a serial poll, `due` of a queue slot).
- `receive_byte` returning -1 while bytes are reported available.
- PacketTools.ComposePacket: requires that length plus overhead does not wrap 16 bits; past that the source copies more than its buffer holds.
- LongPackets.DamagedLongPacketRefused: excludes latched packets too, and bursts that reach into the last four bytes, for which LongPackets.UnnoticedIff is the condition.
- DeviceRuns.RunDevices: nothing is dispatched while it runs, and both devices are half duplex, the sender deleting automatically.
- PacketCodec.ParseInvertsCompose: excludes packets whose number of length bytes was latched; Packets.LatchedExactly says which.
- Pjon.PJON.Forward: the queued path; `forward_blocking` and `send_packet_blocking` recompose on each retry, so an automatic packet id changes.
- RouterClass.Router.Forward: the queue of the attached bus is not part of the router; a copy handed to a full queue counts as forwarded.
- RouterClass.Router.SendAcknowledged: the error callback during a forward reports a full queue only, which no router acts on.
- RouterClass.Router.Loop: the whole router, and the runs built on it, with buses and table capacity together below 255, where Searching.LoopCompletes applies to every search.
- Integrity.DamagedShortPacketRefused: excludes damage that turns both the extended length and the CRC32 bit on and leaves a length that fits the buffer; Integrity.DamageGetsThrough shows some of it getting through.
- Translation.RequestAndReply: the remote device is not behind further translation.
- Virtual bus route timeouts: compiled out, since the macro they depend on is never defined.
- PJONLocal and PJONInteractiveRouter: the same logic with fewer features.
- User callbacks and their context argument, random seeds and delays.
