# modbus_pp: a model and its properties

modbus_pp is a Modbus library. Its protocol core is modelled here in Dafny: checksums and framing,
the extended PDU format, batches of register reads, the pipelined transactions, the client/server
cycle, publish/subscribe, and the typed register map over a flat buffer.

Code that loops or updates fields in the source is a method or a class here, and its contract equates
the result or the new state with a specification function. The theorems are lemmas about those
functions, and the files on layout, replies, steps, groups and terms say what each of them computes
without the help of the others: in bytes, numbers and clock readings. Bytes, 16-bit words and 64-bit times are integer subset types, and every cast,
wrap-around and truncation of the source is written out.

| file | models |
|---|---|
| `Bytes.dfy` | fixed-width integers, registers as bytes, big-endian integers |
| `Crc16.dfy` | the CRC of section 6.2.2 of the MODBUS over Serial Line Specification V1.02 |
| `PduCodec.dfy` | standard and extended PDUs, timestamps |
| `FrameCodec.dfy`, `TwoBitErrors.dfy` | TCP (MBAP) and RTU framing, error detection |
| `WireLayout.dfy`, `PayloadLayout.dfy` | where every field stands on the wire, and which bytes are refused |
| `BatchRequest.dfy`, `BatchOptimizer.dfy`, `BatchOrders.dfy`, `BatchGroups.dfy`, `BatchResponse.dfy` | merging of ranges, batch wire formats |
| `Endian.dfy`, `TypeCodec.dfy`, `RegisterMap.dfy` | byte orders, strings, the typed store |
| `LoopbackTransport.dfy`, `TcpTransport.dfy` | message queues, the byte stream |
| `ClientServer.dfy`, `ServerReplies.dfy`, `RegisterArray.dfy` | the request cycle, its bytes, and its refinement to a plain array |
| `Pipeline.dfy`, `PipelineSteps.dfy`, `PipelineProtocol.dfy`, `PipelineCollisions.dfy` | correlation ids, the request queue, single steps, all interleavings, why ids must be free |
| `Publisher.dfy`, `Subscriber.dfy`, `PubSub.dfy`, `SubscriptionTerms.dfy`, `SubscriptionRuns.dfy` | change detection, delivery, who is told what in every scan, rates and drift over whole runs |

Where the code and its documentation disagree the model follows the code:

- the dead band is compared with the previous scan (`src/pubsub/publisher.cpp:145`), not with the last
  notification (`ARCHITECTURE.md:252`); `DocumentedDecisionIff` says exactly when that makes no difference;
- the checksum is bitwise, not table-driven (`README.md:1086` of the repository); `TableDriven` shows the results equal;
- "the next unique correlation ID" (`include/modbus_pp/pipeline/correlation_id.hpp:16`) is unique only as
  long as `FreshIff` says, and `FreshNecessary` shows what goes wrong otherwise.

Other behaviour that a reader may not expect and that the lemmas state: write errors are acknowledged,
the client ignores the transaction id of a reply, an overflowed request is on the wire but untracked,
expiry runs only after a matched reply, and ranges that end at address 65535 have a 16-bit end of 0.

## Model

| member | source | states |
|---|---|---|
| `Crc16.ComputeCrc16` | `src/transport/frame_codec.cpp:133-148` | The two nested loops compute `Crc`, the register fed byte by byte from 0xFFFF. |
| `Crc16.ShiftIsTapShift` | `src/transport/frame_codec.cpp:139-143` | One turn of the inner loop is the reflected polynomial x^16 + x^15 + x^2 + 1: a carry flips bits 15, 13 and 0 and nothing else. |
| `Crc16.TableDriven` | `README.md:1086` | The table-driven form that the documentation describes computes the same checksum as the bitwise loop, for every start value and every data. |
| `Crc16.CrcFeeds` | `src/transport/frame_codec.cpp:136-145` | The byte-wise register is a serial machine fed one bit at a time, least significant bit first. |
| `Crc16.ShiftInjective` | `src/transport/frame_codec.cpp:138-144` | The one-bit step loses nothing: different registers stay different. |
| `Crc16.WindowSeparates` | `src/transport/frame_codec.cpp:136-145` | Two different windows of sixteen bits leave one register in different states. |
| `Crc16.ResidueZero` | `src/transport/frame_codec.cpp:90-120` | Feeding the two checksum bytes clears the register if and only if they are the checksum. |
| `Crc16.BurstChangesRegister` | `src/transport/frame_codec.cpp:133-148` | A burst of at most sixteen bits changes the checksum register, wherever it lies and however long the frame is. |
| `Crc16.ShiftParity` | `src/transport/frame_codec.cpp:139-143` | The one-bit step keeps the parity of the register. |
| `Crc16.ResidueZeroIsEven` | `src/transport/frame_codec.cpp:133-148` | A frame that leaves a zero residue has an even number of one bits. |
| `FrameCodec.WrapTcp` | `src/transport/frame_codec.cpp:9-40` | The appending code builds exactly the MBAP frame `TcpFrame`, with the length cast to 16 bits. |
| `FrameCodec.UnwrapTcp` | `src/transport/frame_codec.cpp:42-75` | The parser computes `TcpUnwrap`: size, protocol id, length field, then the PDU; a frame that is too short, of another protocol, or shorter than it announces is InvalidFrame. |
| `FrameCodec.UnwrapWrapped` | `src/transport/frame_codec.cpp:9-75` | The receiver of a wrapped PDU parses as many bytes as its 16-bit length field announces, whatever the PDU. |
| `FrameCodec.TcpRoundTripIff` | `src/transport/frame_codec.cpp:9-75` | Any PDU survives TCP framing with unit and transaction id intact if and only if it is well formed and shorter than 65535 bytes. |
| `FrameCodec.WrappedHasUnitByte` | `src/transport/frame_codec.cpp:16-17` | The length field that is written is 0 if and only if the PDU has 65535 bytes modulo 65536. |
| `FrameCodec.WrapRtu` | `src/transport/frame_codec.cpp:81-97` | The appending code builds `RtuFrame`: unit, PDU, checksum low byte first. |
| `FrameCodec.UnwrapRtu` | `src/transport/frame_codec.cpp:99-127` | The parser computes `RtuUnwrap`: too short, checksum mismatch, PDU error, or unit and PDU. |
| `FrameCodec.RtuRoundTripIff` | `src/transport/frame_codec.cpp:81-127` | A PDU survives RTU framing if and only if it is well formed. |
| `FrameCodec.ChecksumIsResidue` | `src/transport/frame_codec.cpp:106-116` | The comparison of the two checksums is the same test as a zero residue over the whole frame. |
| `FrameCodec.BurstDetected` | `src/transport/frame_codec.cpp:99-127` | Every non-zero corruption confined to sixteen consecutive bits on the line, across data and checksum or not, is reported as CrcMismatch. |
| `FrameCodec.OddErrorsDetected` | `src/transport/frame_codec.cpp:99-127` | Every odd number of flipped bits anywhere in a frame of any length is reported as CrcMismatch. |
| `FrameCodec.SentFramesProtected` | `src/transport/frame_codec.cpp:81-127` | Both detection results hold for everything that `wrap_rtu` sends. |
| `WireLayout.TcpOnWire` | `src/transport/frame_codec.cpp:9-40` | Transaction id, two zero bytes, the size of what follows modulo 65536, unit and PDU stand at their places. |
| `WireLayout.MalformedRejected` | `src/transport/frame_codec.cpp:44-63` | Every frame below eight bytes, with a protocol id other than 0, or with fewer bytes than it announces is InvalidFrame. |
| `WireLayout.WellMadeUnwrapped` | `src/transport/frame_codec.cpp:65-75` | Any other frame yields what its announced bytes parse to, with its sixth byte as unit and its first two as transaction id. |
| `WireLayout.CutFrameRejected` | `src/transport/frame_codec.cpp:61-63` | Every proper prefix of a wrapped PDU shorter than 65535 bytes is InvalidFrame, standard PDUs included. |
| `WireLayout.RtuOnWire` | `src/transport/frame_codec.cpp:81-97` | Unit, PDU, and the checksum of both, low byte first. |
| `WireLayout.RtuParsed` | `src/transport/frame_codec.cpp:99-127` | Below four bytes InvalidFrame, with another checksum CrcMismatch, and else what the bytes between parse to. |
| `TwoBitErrors.OutRecurrence` | `src/transport/frame_codec.cpp:138-144` | What the register shifts out obeys the recurrence of its polynomial, from every start. |
| `TwoBitErrors.LeastPeriod` | `src/transport/frame_codec.cpp:138-144` | A sequence with the recurrence of the degree-15 factor repeats after 32767 positions at the earliest. |
| `TwoBitErrors.BitReturns` | `src/transport/frame_codec.cpp:138-144` | A single bit in the register is not back before the 32767th shift. |
| `TwoBitErrors.TwoErrorsDetected` | `src/transport/frame_codec.cpp:99-127` | Any two flipped bits fewer than 32767 positions apart, in a frame of any length, are reported as CrcMismatch. |
| `TwoBitErrors.ThreeErrorsDetected` | `src/transport/frame_codec.cpp:99-127` | In frames of up to 4095 bytes up to three flipped bits anywhere are always reported. |
| `PduCodec.Serialize` | `src/core/pdu.cpp:37-92` | Appending part after part yields the wire format `Encode`, optional parts present exactly when flag and value are. |
| `PduCodec.Deserialize` | `src/core/pdu.cpp:94-174` | The offset-advancing parser computes `Decode`, with the same error code in every branch. |
| `PduCodec.RoundTripIff` | `src/core/pdu.cpp:37-174` | Parsing what was serialised gives the PDU back if and only if it is well formed. |
| `PduCodec.DecodeEncodeExtended` | `src/core/pdu.cpp:37-174` | The extended format is self-delimiting: trailing bytes never change what is parsed. |
| `PduCodec.ProperPrefixRejected` | `src/core/pdu.cpp:94-174` | Every proper prefix of a well-formed extended PDU is rejected with InvalidFrame, for all combinations of timestamp and digest. |
| `PduCodec.EncodeDecode` | `src/core/pdu.cpp:37-174` | Serialising what was parsed gives back the bytes read up to the end of the PDU, except that a 0x6F frame is written as 0x6E. |
| `PduCodec.DecodeShortened` | `src/core/pdu.cpp:94-174` | A length field below the real payload size cuts the payload and nothing else. |
| `PduCodec.StandardPrefixAccepted` | `src/core/pdu.cpp:101-105` | A standard PDU carries no length: every non-empty prefix is accepted as a shorter PDU. |
| `WireLayout.HeaderOnWire` | `src/core/pdu.cpp:58-68` | The first six bytes of an extended PDU: 0x6E, version, flags and correlation id. |
| `WireLayout.BodyOnWire` | `src/core/pdu.cpp:70-91` | Behind them, or behind the eight bytes of the time, stand function code, length, payload and digest; the last two optional parts are there if bits 0 and 1 of the flags say so. |
| `WireLayout.TimestampOnWire` | `include/modbus_pp/core/timestamp.hpp:57-65` | The eight bytes of a time are the number, or its two's complement below zero. |
| `WireLayout.ExtendedParsedIff` | `src/core/pdu.cpp:107-166` | Bytes that begin with 0x6E or 0x6F are accepted if and only if the version is 1 and all announced parts are there; UnsupportedVersion and InvalidFrame tell the other cases apart. |
| `WireLayout.ExtendedParsed` | `src/core/pdu.cpp:113-174` | Every field of an accepted PDU is taken from its own place. |
| `WireLayout.MadeExtended` | `src/core/pdu.cpp:14-29` | `make_extended` sets function code and length, raises the flags of the parts that are present, and changes nothing else. |
| `PduCodec.MakeExtendedWellFormed` | `src/core/pdu.cpp:14-29` | `make_extended` yields a well-formed frame if and only if the version is 1, the payload fits 16 bits and no flag was raised for a part that is missing. |
| `PduCodec.SerializeTimestamp` | `include/modbus_pp/core/timestamp.hpp:57-65` | The backward loop writes the 8-byte big-endian two's complement. |
| `PduCodec.DeserializeTimestamp` | `include/modbus_pp/core/timestamp.hpp:68-76` | The forward loop reads it. |
| `PduCodec.TimestampRoundTrip` | `include/modbus_pp/core/timestamp.hpp:57-76` | Every signed 64-bit time comes back. |
| `PduCodec.TimestampBytesRoundTrip` | `include/modbus_pp/core/timestamp.hpp:57-76` | Every eight bytes are the encoding of the time they decode to. |
| `BatchRequests.BatchRequest.Optimized` | `include/modbus_pp/register_map/batch_request.hpp:46-75` | The merge loop that rewrites the last range computes `Optimize`, for whatever order `std::sort` returned. |
| `BatchRequests.SortExists` | `include/modbus_pp/register_map/batch_request.hpp:49-53` | A sorted permutation always exists, so nothing about `Optimized` holds vacuously. |
| `BatchRequests.BatchRequest.TotalRegisters` | `include/modbus_pp/register_map/batch_request.hpp:81-85` | The running total is the sum of the counts modulo 65536. |
| `BatchOptimizer.ItemsServed` | `include/modbus_pp/register_map/batch_request.hpp:46-75` | For every register file each original item's values are a slice of one optimised range of the same byte order, whatever the sort did. |
| `BatchOptimizer.CoverageUnchanged` | `include/modbus_pp/register_map/batch_request.hpp:46-75` | The addresses read per byte order are the same before and after. |
| `BatchOptimizer.Canonical` | `include/modbus_pp/register_map/batch_request.hpp:46-75` | Two batches of one byte order and positive counts that read the same addresses are optimised to the same ranges in the same order. |
| `BatchOptimizer.SeparatedUnique` | `include/modbus_pp/register_map/batch_request.hpp:46-75` | A set of addresses has one list of separated ranges only. |
| `BatchOptimizer.Idempotent` | `include/modbus_pp/register_map/batch_request.hpp:46-75` | Optimising an optimised batch of one byte order and positive counts changes nothing. |
| `BatchOptimizer.TotalIsDistinctAddresses` | `include/modbus_pp/register_map/batch_request.hpp:46-85` | For one byte order and positive counts the 16-bit total of the optimised batch is the number of distinct addresses read. |
| `BatchOptimizer.TopAddressExact` | `include/modbus_pp/register_map/batch_request.hpp:63-70` | For one byte order, with ranges up to address 65535 allowed: the addresses are kept if and only if the first range ending there is not touched by one sorted before it. |
| `BatchOptimizer.TopAddressLost` | `include/modbus_pp/register_map/batch_request.hpp:63-70` | A concrete batch whose top address is lost. |
| `BatchOptimizer.MixedOrdersNotMinimal` | `include/modbus_pp/register_map/batch_request.hpp:62-72` | A concrete batch of two byte orders whose result is not the shortest. |
| `BatchOrders.ShortestIff` | `include/modbus_pp/register_map/batch_request.hpp:46-75` | For any byte orders and positive counts: the result reads the same, and no list that reads the same is shorter, if and only if in the sorted batch whatever touches an earlier item of its own byte order directly follows one. |
| `BatchOrders.AllCalmIsGrouped` | `include/modbus_pp/register_map/batch_request.hpp:62-71` | That condition can be checked item by item. |
| `BatchOrders.Minimal` | `include/modbus_pp/register_map/batch_request.hpp:46-75` | In particular the result for a batch of one byte order is never longer than any list that reads the same. |
| `BatchOrders.CanonicalMixed` | `include/modbus_pp/register_map/batch_request.hpp:46-75` | Two batches that meet the condition and read the same have the same ranges. |
| `BatchOrders.TotalIsDistinctReads` | `include/modbus_pp/register_map/batch_request.hpp:46-85` | For a batch that meets the condition the total of the result is the number of distinct reads (address and byte order) modulo 65536. |
| `BatchOrders.UnchangedIff` | `include/modbus_pp/register_map/batch_request.hpp:46-75` | Optimising any batch leaves its items as they are if and only if no two neighbours of the sorted batch merge. |
| `BatchOrders.OptimizedAgain` | `include/modbus_pp/register_map/batch_request.hpp:46-75` | The result for a batch that meets the condition keeps its items when it is optimised again, whatever the second sort does with equal starts. |
| `BatchOrders.MixedOrdersNotIdempotent` | `include/modbus_pp/register_map/batch_request.hpp:46-75` | A concrete batch of two byte orders that is left alone under one sort and merged under another. |
| `BatchGroups.OptimizedIff` | `include/modbus_pp/register_map/batch_request.hpp:46-75` | Any batch, with any byte orders and up to any address: the result is the one list whose ranges stand for the groups of the sorted items. A group is cut where the next item does not touch what came before in it; its range has the first start, the latest 16-bit end, and the type of a single item or UInt16. |
| `BatchGroups.RangesAreGroups` | `include/modbus_pp/register_map/batch_request.hpp:46-75` | The result has that form, whatever the sort returned. |
| `BatchGroups.GroupsUnique` | `include/modbus_pp/register_map/batch_request.hpp:62-72` | No other list has that form. |
| `BatchRequests.BatchRequest.Serialize` | `include/modbus_pp/register_map/batch_request.hpp:88-105` | The loop writes `EncodeRequest`. |
| `BatchRequests.BatchRequest.Deserialize` | `include/modbus_pp/register_map/batch_request.hpp:108-134` | The loop reads `DecodeRequest`, including both length checks. |
| `BatchRequests.RequestRoundTripIff` | `include/modbus_pp/register_map/batch_request.hpp:88-134` | A request survives, trailing bytes or not, if and only if it has at most 65535 items. |
| `BatchRequests.CutRequestRejected` | `include/modbus_pp/register_map/batch_request.hpp:88-134` | A request cut anywhere is rejected. |
| `PayloadLayout.RequestOnWire` | `include/modbus_pp/register_map/batch_request.hpp:88-105` | Two bytes of count modulo 65536, then start, count, type and byte order of each item at six bytes an item. |
| `PayloadLayout.RequestParsedAt` | `include/modbus_pp/register_map/batch_request.hpp:108-134` | Each item of a long enough request is read from where it stands. |
| `BatchResponses.BatchResponse.Serialize` | `include/modbus_pp/register_map/batch_request.hpp:172-194` | The nested loops write `EncodeResponse`. |
| `BatchResponses.BatchResponse.Deserialize` | `include/modbus_pp/register_map/batch_request.hpp:197-236` | The nested loops read `DecodeResponse`, stopping at the first item that does not fit. |
| `BatchResponses.ResponseRoundTripIff` | `include/modbus_pp/register_map/batch_request.hpp:172-236` | A response survives, trailing bytes or not, if and only if it has at most 65535 items of at most 65535 registers with a status in 0..255. |
| `BatchResponses.CutResponseRejected` | `include/modbus_pp/register_map/batch_request.hpp:172-236` | A response cut anywhere, inside an item or between two, is rejected. |
| `PayloadLayout.ResponseOnWire` | `include/modbus_pp/register_map/batch_request.hpp:172-194` | The count, then the items one behind the other, each at the sum of the sizes before it. |
| `PayloadLayout.ResultOnWire` | `include/modbus_pp/register_map/batch_request.hpp:178-191` | An item is address, status modulo 256, count modulo 65536, and the registers high byte first. |
| `PayloadLayout.ResponseParsedIff` | `include/modbus_pp/register_map/batch_request.hpp:197-236` | Bytes are accepted if and only if they begin with the encoding of some response that fits the format. |
| `PayloadLayout.ResponseReencodes` | `include/modbus_pp/register_map/batch_request.hpp:197-236` | What was read encodes to the bytes it was read from. |
| `Endian.OrdersAt` | `include/modbus_pp/core/endian.hpp:36-63` | ABCD keeps the bytes in place, DCBA reverses them, BADC swaps the bytes of each register, CDAB reverses whole registers. |
| `Endian.ReorderInvolution` | `include/modbus_pp/core/endian.hpp:36-63` | Applying an order twice gives the bytes back. |
| `Endian.ToBigEndianBytes` | `include/modbus_pp/core/endian.hpp:67-76` | The shifting loop writes the big-endian digits. |
| `Endian.FromBigEndianBytes` | `include/modbus_pp/core/endian.hpp:92-99` | The or-ing loop is their positional value. |
| `Endian.EncodeToRegisters` | `include/modbus_pp/core/endian.hpp:237-261` | Bytes, reordered, read pairwise into two or four registers; under ABCD the upper half of a 32-bit number comes first. |
| `Endian.DecodeFromRegisters` | `include/modbus_pp/core/endian.hpp:244-272` | Registers split into bytes, reordered, read as one number; under ABCD the first of two registers is the upper half. |
| `Endian.RegsRoundTrip` | `include/modbus_pp/core/endian.hpp:218-272` | Every 32-bit or 64-bit pattern comes back under every byte order. |
| `Endian.RegsInjective` | `include/modbus_pp/core/endian.hpp:226-272` | No two register contents decode to the same number. |
| `Endian.RegsSurjective` | `include/modbus_pp/core/endian.hpp:226-272` | Every register contents is the encoding of the number it decodes to. |
| `Endian.DecodedPair` | `include/modbus_pp/core/endian.hpp:244-252` | What two registers stand for in numbers, under each byte order. |
| `Endian.DecodedQuad` | `include/modbus_pp/core/endian.hpp:263-272` | What four registers stand for, in terms of pairs. |
| `Endian.EncodedPair` | `include/modbus_pp/core/endian.hpp:237-242` | The two registers of a 32-bit number under each byte order. |
| `Endian.EncodedHalves` | `include/modbus_pp/core/endian.hpp:237-242` | Under ABCD they are the number divided by 65536 and the remainder. |
| `Endian.EncodedQuad` | `include/modbus_pp/core/endian.hpp:255-261` | The four registers of a 64-bit number under each byte order. |
| `TypeCodec.EncodeStringRegs` | `include/modbus_pp/register_map/type_codec.hpp:89-102` | The loop over a buffer of registers computes `EncodeString`, sign extension of negative characters included. |
| `TypeCodec.DecodeStringRegs` | `include/modbus_pp/register_map/type_codec.hpp:105-117` | The loop with its two exits computes `DecodeString`. |
| `TypeCodec.StringRoundTripIff` | `include/modbus_pp/register_map/type_codec.hpp:89-117` | A string comes back, cut to what fits, if and only if the kept part has no NUL and no negative character in a low half whose left neighbour is not -1. |
| `TypeCodec.PlainStringsStorable` | `include/modbus_pp/register_map/type_codec.hpp:89-117` | Strings of characters 1..127 always come back, cut to what fits. |
| `TypeCodec.DecodedStringShape` | `include/modbus_pp/register_map/type_codec.hpp:105-117` | Any n registers decode to at most 2n characters, none of them NUL. |
| `TypeCodec.DecodedTextAt` | `include/modbus_pp/register_map/type_codec.hpp:105-117` | Character i is byte i of the registers, high half first, as a signed number. |
| `TypeCodec.DecodedTextEnds` | `include/modbus_pp/register_map/type_codec.hpp:105-117` | The text ends at the first zero byte or with the registers. |
| `TypeCodec.PlainTextAt` | `include/modbus_pp/register_map/type_codec.hpp:89-102` | Without negative characters byte i of the registers is character i, or zero beyond the end. |
| `TypeCodec.NegativeCharacterClobbers` | `include/modbus_pp/register_map/type_codec.hpp:92-100` | A concrete accented letter destroys its left neighbour. |
| `RegisterMaps.EncodeRegister` | `include/modbus_pp/register_map/register_map.hpp:81-108` | The branch over the register types yields the registers of the value. |
| `RegisterMaps.ValueInRegisters` | `include/modbus_pp/register_map/register_map.hpp:81-108` | The registers of a value of each type: 16-bit values and two's complements as they are, wider ones as registers that stand for the pattern, plain texts byte by byte. |
| `RegisterMaps.NoOverlapsIsPairwise` | `include/modbus_pp/register_map/register_map.hpp:34-50` | The template recursion looks at every pair. |
| `RegisterMaps.NoOverlapsExact` | `include/modbus_pp/register_map/register_map.hpp:27-50` | The static assertion holds if and only if all pairs of ranges that end below the top address share no address. |
| `RegisterMaps.TopOverlapMissed` | `include/modbus_pp/register_map/register_map.hpp:27-32` | A concrete overlap at address 65535 that is not found. |
| `RegisterMaps.TotalFits` | `include/modbus_pp/register_map/register_map.hpp:110-127` | Disjoint ranges below the top address leave no room for the 16-bit offsets to wrap. |
| `RegisterMaps.SlotsDisjoint` | `include/modbus_pp/register_map/register_map.hpp:116-127` | The slots given by the prefix sums do not touch and lie within the total. |
| `RegisterMaps.Encode` | `include/modbus_pp/register_map/register_map.hpp:81-108` | The element-wise stores into the caller's array overwrite the slot with the encoded value and leave every other register alone. |
| `RegisterMaps.Decode` | `include/modbus_pp/register_map/register_map.hpp:56-79` | Reading a slot gives the decoded value. |
| `RegisterMaps.ValueRoundTrip` | `include/modbus_pp/register_map/register_map.hpp:56-108` | A value of every type under every byte order comes back if and only if it is representable (texts storable, all others always). |
| `RegisterMaps.WriteIsLocal` | `include/modbus_pp/register_map/register_map.hpp:162-173` | When no slot but the last is shorter than its type, writing one descriptor is invisible through all others. |
| `RegisterMaps.LastWriteWins` | `include/modbus_pp/register_map/register_map.hpp:162-173` | Then after any sequence of writes a descriptor reads as the last value written to it, or as before if there was none. |
| `RegisterMaps.TypedStoreIff` | `include/modbus_pp/register_map/register_map.hpp:56-173` | Every descriptor reads back after all sequences of writes to all buffers if and only if no slot but the last is shorter than its type. |
| `RegisterMaps.OutsideUntouched` | `include/modbus_pp/register_map/register_map.hpp:162-173` | Registers outside the slots written keep their contents. |
| `RegisterMaps.ShortCountClobbers` | `include/modbus_pp/register_map/register_map.hpp:81-108` | A count below the width of the type passes the assertions and a write then runs into the next slot. |
| `Loopback.LoopbackTransport.CreatePair` | `src/transport/loopback_transport.cpp:12-23` | What one endpoint sends the other receives. |
| `Loopback.LoopbackTransport.Send` | `src/transport/loopback_transport.cpp:25-61` | Appends to the peer's queue, or reports disconnection or one injected error. |
| `Loopback.LoopbackTransport.Receive` | `src/transport/loopback_transport.cpp:63-77` | Takes the oldest message, or reports disconnection or a timeout. |
| `TcpTransports.TcpTransport.Send` | `src/transport/tcp_transport.cpp:98-112` | However the writes split the frame all of it goes out; a failing write leaves a proper prefix on the wire and takes the connection down. |
| `TcpTransports.TcpTransport.Receive` | `src/transport/tcp_transport.cpp:114-163` | However the reads are split, a successful receive takes exactly the next frame off the stream; over a healthy socket the result is a function of the stream alone. |
| `TcpTransports.Reassembly` | `src/transport/tcp_transport.cpp:128-162` | Repeated receives return exactly the sent frames, in order and byte for byte. |
| `TcpTransports.CutStreamNoticed` | `src/transport/tcp_transport.cpp:128-162` | A stream that ends inside a frame is reported as a disconnection. |
| `WireLayout.ReceivedExactly` | `src/transport/tcp_transport.cpp:128-162` | A receive takes as many bytes as the header announces, or finds the stream ended. |
| `WireLayout.EmptyHeaderSkipped` | `src/transport/tcp_transport.cpp:139-145` | A header that announces nothing costs its seven bytes and leaves the connection up. |
| `TcpTransports.EndToEnd` | `src/transport/tcp_transport.cpp:98-162` | Every sequence of units that fit is received frame by frame and unwraps to the units sent. |
| `ClientServer.Server.ProcessOne` | `src/client/server.cpp:18-32` | One received frame is handled as `Serve` says: store, reply on the queue, and whether it counted. `ServerReplies` says what that is byte by byte. |
| `ClientServer.Server.HandleRequest` | `src/client/server.cpp:34-107` | The branches over function codes and handlers compute `Handle`: the new register array and the reply, if one is sent. |
| `ServerReplies.ReplyOnWire` | `src/client/server.cpp:49-104` | The reply repeats the transaction id of the request, names the server's unit, and its length field is the size of what follows. |
| `ServerReplies.HandledIff` | `src/client/server.cpp:19-32` | A frame counts if and only if it unwraps and names the server's unit or 0; any other changes nothing and is not answered. |
| `ServerReplies.ReadAnswered` | `src/client/server.cpp:38-67` | A read is answered with byte count and registers from the address on, or with exception 2 if they are not all there. |
| `ServerReplies.WriteAnswered` | `src/client/server.cpp:68-106` | A write is answered with its first four bytes; its registers stand at the address afterwards if there is room for all, and every other register is as before. |
| `ServerReplies.AnsweredIff` | `src/client/server.cpp:38-107` | Which requests are answered: the rest has no effect. |
| `ClientServer.ReadPairs` | `src/client/client.cpp:58-63` | The loop over register pairs reads them high byte first and drops an odd last byte. |
| `ClientServer.Client.Transact` | `src/client/client.cpp:12-38` | A transaction between idle endpoints leaves both queues empty and returns `Transaction`. |
| `ClientServer.Client.SendRequest` | `src/client/client.cpp:13-17` | Every request goes out under the next transaction id, which moves on modulo 65536. |
| `ClientServer.Client.ReadHoldingRegisters` | `src/client/client.cpp:40-66` | The call leaves the endpoints idle and returns the registers of the reply or its error. |
| `ClientServer.Client.WriteSingleRegister` | `src/client/client.cpp:68-78` | The call leaves the endpoints idle and returns the acknowledgement or error. |
| `ClientServer.Client.WriteMultipleRegisters` | `src/client/client.cpp:80-102` | The same for many registers, with the casts of count and byte count. |
| `ServerReplies.WriteMultipleRequestOnWire` | `src/client/client.cpp:80-97` | Address, count modulo 65536, byte count modulo 256 and the registers stand at their places. |
| `ServerReplies.ReadRequestOnWire` | `src/client/client.cpp:40-46` | Function code, address and count stand at their places. |
| `ServerReplies.WriteSingleRequestOnWire` | `src/client/client.cpp:68-74` | Function code, address and value stand at their places. |
| `ServerReplies.RegistersRead` | `src/client/client.cpp:48-65` | A read fails if its reply does or is shorter than its byte count says; else it returns all complete registers behind the byte count. |
| `ServerReplies.ExceptionReported` | `src/client/client.cpp:26-35` | A reply with the high bit set is the error in its first byte, or InvalidFrame if it is empty. |
| `ClientServer.RepliesAreSafe` | `src/client/server.cpp:34-107` | No reply of the server carries a length field of 0, whatever the request. |
| `RegisterArray.ReadExact` | `src/client/client.cpp:40-66` | A read over the wire returns what the array holds, or IllegalDataAddress, if and only if it is out of range or its reply fits the MBAP length; it never changes the array. |
| `RegisterArray.TransactionIdIgnored` | `src/client/client.cpp:22-37` | What the client makes of a reply does not depend on its transaction id. |
| `RegisterArray.WriteOneOnWire` | `src/client/client.cpp:68-78` | A single write over the wire is a write to the plain array. |
| `RegisterArray.WriteManyOnWire` | `src/client/client.cpp:80-102` | So is a write of up to 32764 registers. |
| `RegisterArray.WriteManyExact` | `src/client/client.cpp:80-102` | What a write of any number of registers, in range or not, does: the registers that the 16-bit length lets through are written and acknowledged, or nothing arrives and the call times out. |
| `RegisterArray.WriteManyIff` | `src/client/client.cpp:80-102` | A write is what it is on the plain array, whatever that holds, if and only if it has at most 32764 registers. |
| `RegisterArray.LongWriteLosesLast` | `src/client/client.cpp:80-102` | A longer write in range never reaches its last register. |
| `RegisterArray.RunRefines` | `src/client/server.cpp:34-107` | Every run of reads and writes that fit has the outcomes and the final contents of the same run on a plain register array. |
| `RegisterArray.AcknowledgedWrite` | `src/client/server.cpp:68-106` | A write whose request arrives is acknowledged; the registers that arrived are in the array if and only if their range lies inside it. |
| `Pipelines.CorrelationIdGenerator.Next` | `include/modbus_pp/pipeline/correlation_id.hpp:17-19` | Returns the counter and moves it on modulo 65536. |
| `Pipelines.RequestQueue.Insert` | `include/modbus_pp/pipeline/request_queue.hpp:32-40` | Refuses when full; an entry with the same id is not overwritten. |
| `Pipelines.RequestQueue.Remove` | `include/modbus_pp/pipeline/request_queue.hpp:43-50` | Takes out and returns the entry, if there is one. |
| `Pipelines.RequestQueue.RemoveExpired` | `include/modbus_pp/pipeline/request_queue.hpp:53-69` | Whatever order the map is walked in, exactly the entries older than their timeouts are returned, once each, and the others stay. |
| `Pipelines.ExpiryPartitions` | `include/modbus_pp/pipeline/request_queue.hpp:53-69` | Expired and remaining entries partition the map. |
| `Pipelines.RequestQueue.Cancel` | `include/modbus_pp/pipeline/request_queue.hpp:72-75` | Erases the entry and reports whether there was one. |
| `Pipelines.Pipeline.Submit` | `src/pipeline/pipeline.cpp:12-63` | The id is used up and the frame sent before the capacity is looked at; the whole new state, the queue and the result or error are given, and a new entry waits as long as the caller asked, or the default for 0. |
| `Pipelines.Pipeline.Wrap` | `src/pipeline/pipeline.cpp:23-44` | Tags an extended request with the id, or carries any other as the payload of a PipelineBegin frame. |
| `Pipelines.Pipeline.NotifyExpired` | `src/pipeline/pipeline.cpp:133-139` | The callbacks of the expired requests are called in the order they were met. |
| `Pipelines.Pipeline.Poll` | `src/pipeline/pipeline.cpp:100-140` | One received frame is processed as `AfterPoll` says for some order of the expired entries; without a frame nothing changes. |
| `Pipelines.Pipeline.Cancel` | `src/pipeline/pipeline.cpp:142-144` | Removes the entry and reports whether there was one. |
| `Pipelines.NestedFraming` | `src/pipeline/pipeline.cpp:21-48` | A standard request arrives as an extended frame with its id if and only if it fits the payload length, and its payload parses to the request if and only if that is well formed. |
| `Pipelines.ExtendedKept` | `src/pipeline/pipeline.cpp:29-37` | An extended request keeps everything but the id. |
| `Pipelines.CollisionMisdelivers` | `src/pipeline/pipeline.cpp:21-62` | An id that is still pending: success is reported, the new request is dropped, and its reply goes to the old callback. |
| `Pipelines.StandardFrameMatchesZero` | `src/pipeline/pipeline.cpp:111-120` | Any standard frame completes a request that is pending under id 0. |
| `PipelineSteps.SubmitTracks` | `src/pipeline/pipeline.cpp:17-60` | A submit that is sent, with room and under a free id, adds one entry under the id: the timeout it was given or the default for 0, the time, the callback, and the id on the wire; all other entries stay. |
| `PipelineSteps.SubmitDrops` | `src/pipeline/pipeline.cpp:53-60` | A submit that fails, finds the queue full or an entry under its id adds none. |
| `PipelineSteps.PollTakesOut` | `src/pipeline/pipeline.cpp:118-133` | A poll that answers an entry takes out that one and all that are overdue, and keeps the others. |
| `PipelineSteps.PollCallsBack` | `src/pipeline/pipeline.cpp:122-131` | It first calls the callback of the entry with the reply, |
| `PipelineSteps.PollCallsOverdue` | `src/pipeline/pipeline.cpp:133-139` | and then every overdue callback with TimeoutExpired. |
| `PipelineSteps.PollCounts` | `src/pipeline/pipeline.cpp:122-126` | The statistics go up by one and by the time since the submit, modulo 2^64. |
| `PipelineSteps.PollIgnores` | `src/pipeline/pipeline.cpp:105-120` | A frame that does not parse or answers nothing changes nothing. |
| `PipelineProtocol.StepKeeps` | `src/pipeline/pipeline.cpp:12-144` | Every step - submit (failing or overflowing too), answer in any order, loss, any other frame whose id is not pending, poll, cancel, clock - keeps the invariant. |
| `PipelineProtocol.ResponsesMatch` | `src/pipeline/pipeline.cpp:12-140` | In every run, across wrap-around, a callback fires at most once, for an accepted request that was not cancelled, with the reply to that request, or with TimeoutExpired after the timeout that its own submit was given. |
| `PipelineSteps.TimeoutsDelivered` | `src/pipeline/pipeline.cpp:100-140` | In every run a poll that answers a request tells everybody else TimeoutExpired whose submit lies further back than its timeout, and nobody else; those stay. |
| `PipelineProtocol.Conservation` | `src/pipeline/pipeline.cpp:50-159` | In every run accepted = replied + timed out + cancelled + pending, the capacity is respected, and the statistics are the 64-bit count and sum over the replies. |
| `PipelineProtocol.RunNumbered` | `include/modbus_pp/pipeline/correlation_id.hpp:17-19` | Ids are handed out in sequence from 1 modulo 65536. |
| `PipelineProtocol.FreshIff` | `include/modbus_pp/pipeline/correlation_id.hpp:17-19` | The next id is free if and only if no request still around lies a multiple of 65536 behind and no other message carries it. |
| `PipelineCollisions.FreshNecessary` | `src/pipeline/pipeline.cpp:19-140` | From every state in which the next id is not free (pending, on the wire, or in an unread message) and there is capacity left, some continuation loses a request or tells a callback the wrong thing. |
| `PipelineCollisions.PendingCollision` | `src/pipeline/pipeline.cpp:19-62` | When the id is pending, a submit reports success for a request that is then lost. |
| `PipelineCollisions.UnreadCollision` | `src/pipeline/pipeline.cpp:19-140` | When the first unread message carries the id, the new request is told what it says. |
| `PipelineCollisions.WireCollision` | `src/pipeline/pipeline.cpp:19-140` | When a request on the wire has the id, its late reply goes to the new request. |
| `Publishers.ShouldNotifyLoop` | `src/pubsub/publisher.cpp:39-72` | The three triggers decide as `ShouldNotify` says: thresholds and the interval as comparisons, and the on-change loop finds a moved register if there is one. |
| `Publishers.Publisher.AcceptSubscription` | `src/pubsub/publisher.cpp:19-26` | Appends the subscription under the next 32-bit id. |
| `Publishers.Publisher.RemoveSubscription` | `src/pubsub/publisher.cpp:28-37` | Removes every subscription with that id, or reports that there was none. |
| `Publishers.Publisher.ScanAndNotify` | `src/pubsub/publisher.cpp:74-150` | The nested loops compute `Scan`: new subscriptions, new baselines, the count, and what was put on the transport. `SubscriptionTerms` says whom that tells what. |
| `Publishers.EncodeEvent` | `src/pubsub/publisher.cpp:114-136` | The appending code builds the notification frame. |
| `Publishers.EmitsEverything` | `src/pubsub/publisher.cpp:112-138` | Over a connected, error-free transport every notification is sent, in order. |
| `SubscriptionTerms.EmitsTheRest` | `src/pubsub/publisher.cpp:112-138` | An injected error costs the first notification only; without a connection nothing is sent. |
| `SubscriptionTerms.RemovedOne` | `src/pubsub/publisher.cpp:28-37` | Removing takes out the subscription with the id and leaves the others in order. |
| `PayloadLayout.EventOnWire` | `src/pubsub/publisher.cpp:114-136` | The frame of a notification: version 1, a timestamp, correlation id 0, extended function 5. |
| `PayloadLayout.EventPayloadOnWire` | `src/pubsub/publisher.cpp:118-132` | Id, start, count modulo 65536 and the registers stand at their places. |
| `Subscribers.Subscriber.Poll` | `src/pubsub/subscriber.cpp:20-76` | Draining the queue processes the frames as `PollAll` says: count, and handler calls in order. |
| `Subscribers.ParseEvent` | `src/pubsub/subscriber.cpp:28-66` | A frame is taken for an event, or skipped, as `DecodeEvent` says. |
| `PayloadLayout.EventParsedIff` | `src/pubsub/subscriber.cpp:28-38` | A frame is an event if and only if it parses, has an extended header with function code 5, and carries eight bytes or more. |
| `PayloadLayout.EventParsed` | `src/pubsub/subscriber.cpp:40-64` | Id, start, time and registers are taken from their places; registers as far as count and payload reach. |
| `SubscriptionTerms.PollOneMore` | `src/pubsub/subscriber.cpp:28-72` | An event counts and calls the handler of its id, if there is one; any other frame is skipped. |
| `PubSub.EventRoundTripIff` | `src/pubsub/subscriber.cpp:28-66` | A notification arrives with the same id, address, values and time if and only if it has at most 32763 registers. |
| `PubSub.ScanDelivered` | `src/pubsub/publisher.cpp:104-142` | The next poll processes exactly as many events as the scan counted and calls the handlers in sending order with the same id, address, values and time. |
| `PubSub.ScanView` | `src/pubsub/publisher.cpp:79-143` | What a scan does to one subscription depends on that subscription alone, among any others and over any number of sources. |
| `SubscriptionRuns.PeriodicRate` | `src/pubsub/publisher.cpp:45-51` | In any run with a clock that does not go back a periodic subscription is notified at most floor(T / I) times in the time T after acceptance. |
| `SubscriptionRuns.ToldIffMoved` | `src/pubsub/publisher.cpp:53-61` | A scan notifies an on-change subscription if and only if a register of its slice moved by more than the dead band since the previous scan. |
| `SubscriptionTerms.ToldIffBeyond` | `src/pubsub/publisher.cpp:63-69` | A threshold subscription with one source is told in scan k if and only if its first register, as read in scan k, lies above the high or below the low limit. |
| `SubscriptionTerms.ToldIffApart` | `src/pubsub/publisher.cpp:53-61` | An on-change subscription with one source is told in scan k if and only if nothing was read of its range before or a register differs by more than the dead band, up or down, from the reading before. |
| `SubscriptionTerms.ToldIffDue` | `src/pubsub/publisher.cpp:45-51` | A periodic subscription is told in scan k if and only if its interval is over since the last scan that told it, counted by the clock alone: once, or by every source with its address if the interval is not positive. |
| `SubscriptionTerms.UnservedNeverTold` | `src/pubsub/publisher.cpp:84-88` | A subscription outside all sources, or a periodic one without an interval, is never told. |
| `SubscriptionTerms.ScanDescribes` | `src/pubsub/publisher.cpp:90-110` | Every notification of a scan carries id and address of a subscription, the time of the scan, the registers asked for as just read from a source, and as that source was read before. |
| `SubscriptionRuns.DriftBound` | `src/pubsub/publisher.cpp:145-146` | After m silent scans every register is within m times the dead band of what it was. |
| `SubscriptionRuns.TimesIsProduct` | `src/pubsub/publisher.cpp:145-146` | The bound `Times(m, band)` is the product. |
| `SubscriptionRuns.CreepIsSilent` | `src/pubsub/publisher.cpp:145-146` | The bound is reached: over a run of scans in which a register creeps up by the dead band each time its subscription is never told. |
| `SubscriptionRuns.DocumentedDecisionIff` | `ARCHITECTURE.md:252` | The documented comparison with the last notification and the actual one with the previous scan agree on every reading if and only if the two agree register by register, or the dead band covers the whole range. |
| `Bytes.UnpackPack` | `src/client/client.cpp:59-64` | Registers packed high byte first are read back pairwise. |
| `Bytes.PackUnpack` | `src/client/client.cpp:59-64` | Packing what was read from an even number of bytes gives the bytes back. |
| `Bytes.UnpackCut` | `src/client/server.cpp:92-97` | Reading a packing cut anywhere gives the registers that are complete. |

## Left out

- Sockets, serial ports, `poll(2)`, connecting, and the whole RTU transport: foreign calls. The TCP chunk loops take an oracle for the chunk sizes and the result of the poll call.
- OpenSSL HMAC, nonces, `Session`, `Client::authenticate`: external cryptography. Digests are opaque 32-byte values.
- `Client::batch_read` and `Client::discover`: the first only combines the batch codecs with `Transact`, the second is the scanner.
- Mutexes, condition variables and threads: a locked operation is one atomic step. The client's wait is the interleaving in which the server processes one request before it ends.
- `Server::run` and `stop`: the loop that alternates `process_one` and `scan_and_notify`; the run of requests has no subscriptions.
- Setters and getters of one line have no row above.
- Simulated latency and the random error rate of the loopback transport; its injected single error is modelled.
- `submit_sync`: waiting on the wall clock, and callbacks that call back into the pipeline.
- Clocks: a parameter, read once per call. The source reads its clock several times within one poll and one scan.
- The callbacks of the pipeline and the handlers of the subscriber are numbers; calling one appends to a log.
- The meaning of floating point: `float` and `double` registers are bit patterns, dead bands and thresholds are reals.
- `Result`, `StrongType`, spans, error messages, capability flags, the scanner, examples, benchmarks.
- The plain `char` of the string codec is taken to be signed, as on the usual targets.
- UnwrapTcp: requires the length field of a frame with a valid header to be at least 1; with 0 the source computes a size of -1 for the PDU.
- ProcessOne: requires the same of the frames in the server's queue. `RepliesAreSafe` shows it of every reply.
- UnwrapWrapped: excludes PDUs whose size is 65535 modulo 65536, whose length field is 0 (`WrappedHasUnitByte`) and which the source then cannot unwrap.
- ScanAndNotify: requires readings that reach the first register of every subscription watching their source; beyond that the source forms an iterator past the end.
- Canonical: stated for one byte order, where even the order of the ranges is fixed; `CanonicalMixed` and `ShortestIff` are about any. Ranges without registers are left out of these: an empty range can stay in the result.
- ItemsServed: requires ranges that stop short of address 65535; `TopAddressExact` says, for one byte order, what happens to the ones that reach it.
- TopAddressExact: one byte order only. With several, a swallowed range may be covered again by a later one of its order.
- ResponsesMatch: each request gets at most one extended reply, and any other frame that arrives does not carry an id that is pending; `StandardFrameMatchesZero` says what one that does would do. A submit presumes that its id is free; `FreshIff` says when that is, `FreshNecessary` that it cannot be dropped. Every submit has a callback.
- LastWriteWins: requires offsets that fit 16 bits, which `TotalFits` derives from the static assertion, and no slot but the last shorter than its type, which `TypedStoreIff` shows to be necessary.
- Transact: starts with empty queues, and the reply arrives in time. A reply that comes late would be taken for the answer to the next request, since its transaction id is not looked at (`TransactionIdIgnored`).
- HandleRequest: the two handlers are those of a plain register array. A handler of the source is any function.
- FromBigEndianBytes: the bitwise or of the source is an addition, since the bits are still clear.
- ToldIffBeyond: one source has the first register of the subscription; with several each decides on its own reading.
- ToldIffApart: the same. A scan of a source that reads nothing of the range is included.
