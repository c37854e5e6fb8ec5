# PRAHARI edge node: a verified model

A pod with sensors reports to a head node, over a polled RS-485 bus (mode W) or scheduled LoRa slots
(mode R). In the head node a microcontroller keeps time, polls the pods and talks MessagePack-RPC
over a UART to a Linux side, which decides alerts and how often the whole runs. The project models
the logic of these parts and proves what each is for.

| modules | what is modelled |
|---|---|
| `MsgPack`, `MsgPackIo`, `MsgPackFormats` | the MessagePack writers, readers, skipper and boundary scanner, and the formats tag by tag |
| `BridgeStream` | the accumulator that cuts a UART stream into messages |
| `BridgeMessages`, `BridgeContract`, `BridgeForeign`, `BridgeLink` | the thirteen messages, their encoders and decoder, what a peer with formats of its own may send, and all of it end to end |
| `CrcRegister`, `Crc16`, `Crc8`, `CrcCheck` | the two checksums, as shift registers over binary digits and as loops over machine words |
| `Rs485`, `BusMaster`, `BusTiming` | the frame parser, the slave, and the polling master, also in true time |
| `WireReport`, `WireRadio`, `WireLayout` | the pod report in C and in Python, the beacon and the uplink, and where each field stands |
| `Pps`, `PpsTime`, `LoraSlot`, `Tdma` | the disciplined clock, the pod's slots, the head node's, and that they agree |
| `Power`, `PowerTiming`, `Sampler`, `SamplerRuns` | the switched rails, and acquisition on top of them, both also in true time and over whole runs |
| `ZGate`, `Calib` | integer square root and anomaly gate, calibration and its table |
| `FlowAccumulation` | D8 receivers and flow accumulation of a terrain patch |
| `Alerts`, `DutyCycle` | alert hysteresis, and the duty cycle it drives |
| `Bytes`, `Arith`, `Params`, `Errno` | octets, fixed-width numbers, the machine's division, shared numbers |

Code that updates state is a class or a method over arrays here too. Its contract ties the new state
to a function of the old one, and the theorems are about that function, over every input or every run.
Integers are unbounded in Dafny; every width that matters is written out (`ToU32`, `ToI32`, `ToU64`, the
types of `Bytes`). Clocks, the UART, the bus driver, the radio, the rails' backend and the sensor
drivers are injected: their answers are parameters, quantified over.

## Where code and documentation disagree

The model follows the code, and states exactly when the promise holds.

- `mprpc.h:33-39` promises that a put that overflows leaves the offset alone. A put of several parts
  does so exactly when its first part has no room (`MsgPackIo.OverflowKeepsOffset`).
- `main.c:202-203` says a corrupted byte must not wedge the bridge. A bad tag inside an array, or a
  length that can never arrive, wedges it for good (`BridgeStream.WedgedExactly`,
  `BridgeStream.NestedBadByteWedges`).
- `pps.c:40-45` measures a gap on a counter of 32 bits. UTC stays right over gaps of up to 60 s; a
  longer one is refused, or, once the counter has wrapped, misread (`Pps.GenuineEdge`, `Pps.LongGapMisread`).
- `lora_slot.h:6-8` says a pod that lost the beacon goes on reporting. After 2^31 ms it falls silent for
  as long again (`LoraSlot.NextAfterExactly`, `LoraSlot.HoldoverGoesSilent`).
- `tdma.c:49-59` gives the least instant for offsets inside a superframe, which those of a layout that
  fits all are; `tdma_next_mesh_tx` does not look at whether it fits.
- `zgate.c:62-66` and `calib.c:120-127` do 64-bit arithmetic unguarded: `ZGate.FitsExactly` gives the
  bound on the samples, `Calib.FitsForEveryReading` the entries with which no reading overflows.
- `alerts.py:5-8` can be read as hysteresis for each tier. The code keeps it for the held level only;
  `Alerts.AdvisoryLostExactly` says when an advisory is lost early that way.

## Model

| member | source | states |
|---|---|---|
| MsgPackIo.Writer.PutInt | edge-device/code_b_head_node/mcu/src/mprpc.c:88-100 | a 64-bit integer is appended as its one encoding, or the put fails for lack of room with the offset where the parts stopped |
| MsgPackIo.Writer.PutStr | edge-device/code_b_head_node/mcu/src/mprpc.c:102-117 | appends the shortest str header and the octets; refuses more than 65535 without touching anything |
| MsgPackIo.Writer.PutBin | edge-device/code_b_head_node/mcu/src/mprpc.c:119-130 | appends the bin header and the octets; refuses more than 65535 |
| MsgPackIo.Writer.PutHeader | edge-device/code_b_head_node/mcu/src/mprpc.c:132-152 | appends an array or map header for up to 65535 items |
| MsgPackIo.PutAllMeaning | edge-device/code_b_head_node/mcu/src/mprpc.c:33-76 | a put of several parts succeeds exactly when the room suffices for all, and then has appended exactly the encoding |
| MsgPackIo.OverflowKeepsOffset | edge-device/code_b_head_node/mcu/include/hn/mprpc.h:33-39 | the header promises an unchanged offset on overflow: an overflowing put keeps it if and only if already its first part has no room |
| MsgPackIo.OverflowMovesOffset | edge-device/code_b_head_node/mcu/src/mprpc.c:88-100 | the input on which the header's promise fails: 1000 into one free octet fails and consumes it |
| MsgPackIo.Reader.GetInt | edge-device/code_b_head_node/mcu/src/mprpc.c:204-249 | reads an integer of any format and width, or leaves the reader where it was |
| MsgPackIo.Reader.GetStr | edge-device/code_b_head_node/mcu/src/mprpc.c:251-284 | reads a str of any width that lies within the buffer, or leaves the reader where it was |
| MsgPackIo.Reader.GetBin | edge-device/code_b_head_node/mcu/src/mprpc.c:286-316 | the same for bin |
| MsgPackIo.Reader.GetHeader | edge-device/code_b_head_node/mcu/src/mprpc.c:318-350 | the same for array and map headers |
| MsgPackIo.Reader.SkipValue | edge-device/code_b_head_node/mcu/src/mprpc.c:352-403 | consumes exactly one value, containers included, and fails exactly when there is none, then standing before the first value it cannot read; terminates by the octets remaining |
| MsgPackIo.ScanValue | edge-device/code_b_head_node/mcu/src/mprpc.c:441-462 | the boundary scanner: OK with the length of the first value, NEED_MORE, or ERROR |
| MsgPack.GetIntRoundTrip | edge-device/code_b_head_node/mcu/src/mprpc.c:88-249 | every 64-bit integer put is read back, using exactly its encoding, whatever follows |
| MsgPack.GetStrRoundTrip | edge-device/code_b_head_node/mcu/src/mprpc.c:102-284 | the same for strings |
| MsgPack.GetBinRoundTrip | edge-device/code_b_head_node/mcu/src/mprpc.c:119-316 | the same for binary blocks |
| MsgPack.GetHeaderRoundTrip | edge-device/code_b_head_node/mcu/src/mprpc.c:132-350 | the same for container headers |
| MsgPack.SkipExtends | edge-device/code_b_head_node/mcu/src/mprpc.c:352-403 | octets behind a complete value never change where it ends |
| MsgPack.SkipRestricts | edge-device/code_b_head_node/mcu/src/mprpc.c:352-403 | a value depends on no octet behind its end |
| MsgPack.PrefixFree | edge-device/code_b_head_node/mcu/src/mprpc.c:352-462 | no complete value is a proper prefix of another: a stream splits into values in one way only |
| MsgPack.ScanWhole | edge-device/code_b_head_node/mcu/src/mprpc.c:441-462 | a complete value of up to 4096 octets scans OK with its own length whatever follows, and a longer one never does |
| MsgPack.ScanPrefix | edge-device/code_b_head_node/mcu/src/mprpc.c:441-462 | every proper prefix of a complete value asks for more and is never an error |
| MsgPack.EncComplete | edge-device/code_b_head_node/mcu/src/mprpc.c:78-152 | every nested nil, bool, int, str, bin, array and map value the puts can emit is complete in itself, by structural induction |
| MsgPackFormats.BigEndian | edge-device/code_b_head_node/mcu/src/mprpc.c:53-76 | the octets of a number are its digits to the base 256, the most significant first |
| MsgPackFormats.FixintFormats | edge-device/code_b_head_node/mcu/src/mprpc.c:204-218 | an octet up to 0x7f, or from 0xe0 on, is read, skipped and scanned as that integer, whatever follows |
| MsgPackFormats.UnsignedFormats | edge-device/code_b_head_node/mcu/src/mprpc.c:219-249 | tags 0xcc to 0xcf with 1, 2, 4 and 8 octets of any number are read as it in 2, 3, 5 and 9 octets, a number of 2^63 or more as its signed twin; skipping and scanning take the same length |
| MsgPackFormats.SignedFormats | edge-device/code_b_head_node/mcu/src/mprpc.c:219-249 | so are tags 0xd0 to 0xd3 with the two's complement of any integer of 8, 16, 32 and 64 bits |
| MsgPackFormats.IntegersExactly | edge-device/code_b_head_node/mcu/src/mprpc.c:204-249 | an integer is read if and only if the lead octet is one of these and enough octets follow |
| MsgPackFormats.NilAndBoolFormats | edge-device/code_b_head_node/mcu/src/mprpc.c:181-202 | 0xc0, 0xc2 and 0xc3 |
| MsgPackFormats.StrFormats | edge-device/code_b_head_node/mcu/src/mprpc.c:251-284 | fixstr, str 8 and str 16 of any octets are read as them, also in a format longer than they need |
| MsgPackFormats.BinFormats | edge-device/code_b_head_node/mcu/src/mprpc.c:286-316 | the same for bin 8 and bin 16 |
| MsgPackFormats.HeaderFormats | edge-device/code_b_head_node/mcu/src/mprpc.c:318-350 | the same for array and map headers |
| MsgPackFormats.WriterFormats | edge-device/code_b_head_node/mcu/src/mprpc.c:78-152 | the format each put chooses, tag by tag |
| MsgPackFormats.DroppedOctets | edge-device/code_b_head_node/mcu/src/mprpc.c:420-439 | the octets the bridge drops as noise, by number |
| MsgPackFormats.LeadOctetExactly | edge-device/code_b_head_node/mcu/src/mprpc.c:420-439 | an octet is dropped if and only if no value whatever begins with it |
| BridgeStream.Bridge.PollBridge | edge-device/code_b_head_node/mcu/src/main.c:184-216 | one call does what the specification of a poll says: reads until the UART is dry or the accumulator is full, then hands out every value in it |
| BridgeStream.PollOnTrack | edge-device/code_b_head_node/mcu/src/main.c:184-216 | one poll delivers the next values of the stream and leaves a proper prefix of the value after them |
| BridgeStream.PollProgress | edge-device/code_b_head_node/mcu/src/main.c:184-216 | a poll with octets pending takes some of them: a full accumulator never blocks the stream |
| BridgeStream.Segmentation | edge-device/code_b_head_node/mcu/src/main.c:184-216 | however a stream of values, with any octets between them that no value begins with, is cut into chunks over however many polls, exactly those values come out in order, none lost or repeated, at every moment of the run |
| BridgeStream.Delivery | edge-device/code_b_head_node/mcu/src/main.c:184-216 | once the whole stream has arrived exactly its values are delivered, the stray octets between them dropped, and nothing is left over |
| BridgeStream.NoiseDropped | edge-device/code_b_head_node/mcu/src/main.c:201-206 | polling over stray octets followed by anything gives exactly what polling over that alone gives |
| BridgeStream.CleanStream | edge-device/code_b_head_node/mcu/src/main.c:184-216 | a stream of values alone is such a stream, and all of it is its values |
| BridgeStream.ZerosComplete | edge-device/code_b_head_node/mcu/src/mprpc.c:352-403 | padding with zero octets completes a value whenever anything does, and no later |
| BridgeStream.WedgedExactly | edge-device/code_b_head_node/mcu/src/main.c:202-207 | the comment says a corrupted octet must not wedge the channel: a pending accumulator can ever deliver again if and only if, padded with zeros to its size, it scans OK |
| BridgeStream.NestedBadByteWedges | edge-device/code_b_head_node/mcu/src/main.c:202-207 | the two octets on which that promise fails: an array holding an invalid tag silences the bridge for every future traffic |
| BridgeContract.EncodePodReport | edge-device/code_b_head_node/mcu/src/bridge_contract.c:39-53 | fills the buffer with the encoding of a pod report of up to 200 octets, or returns -1 exactly when there is no room or the argument is over the encoder's limit |
| BridgeContract.EncodePodMissing | edge-device/code_b_head_node/mcu/src/bridge_contract.c:55-63 | fills the buffer with the encoding of a missing pod, or returns -1 exactly when there is no room or the argument is over the encoder's limit |
| BridgeContract.EncodeSweepDone | edge-device/code_b_head_node/mcu/src/bridge_contract.c:65-77 | fills the buffer with the encoding of the end of a sweep, or returns -1 exactly when there is no room or the argument is over the encoder's limit |
| BridgeContract.EncodeNeighbourPacket | edge-device/code_b_head_node/mcu/src/bridge_contract.c:79-87 | fills the buffer with the encoding of a mesh packet, or returns -1 exactly when there is no room or the argument is over the encoder's limit |
| BridgeContract.EncodeTimeSync | edge-device/code_b_head_node/mcu/src/bridge_contract.c:89-100 | fills the buffer with the encoding of the time, full 64-bit milliseconds, or returns -1 exactly when there is no room or the argument is over the encoder's limit |
| BridgeContract.EncodeNodeStatus | edge-device/code_b_head_node/mcu/src/bridge_contract.c:102-110 | fills the buffer with the encoding of the status map, or returns -1 exactly when there is no room or the argument is over the encoder's limit |
| BridgeContract.EncodeGetStatusResponse | edge-device/code_b_head_node/mcu/src/bridge_contract.c:112-121 | fills the buffer with the encoding of the answer to a status call, or returns -1 exactly when there is no room or the argument is over the encoder's limit |
| BridgeContract.EncodeSetAlert | edge-device/code_b_head_node/mcu/src/bridge_contract.c:124-135 | fills the buffer with the encoding of the siren command, or returns -1 exactly when there is no room or the argument is over the encoder's limit |
| BridgeContract.EncodeSetCadence | edge-device/code_b_head_node/mcu/src/bridge_contract.c:137-145 | fills the buffer with the encoding of the cadence, or returns -1 exactly when there is no room or the argument is over the encoder's limit |
| BridgeContract.EncodeSetPods | edge-device/code_b_head_node/mcu/src/bridge_contract.c:147-163 | fills the buffer with the encoding of the poll list, or returns -1 exactly when there is no room or the argument is over the encoder's limit |
| BridgeContract.EncodeSetArmed | edge-device/code_b_head_node/mcu/src/bridge_contract.c:165-173 | fills the buffer with the encoding of the arm command, or returns -1 exactly when there is no room or the argument is over the encoder's limit |
| BridgeContract.EncodeSetEmbedding | edge-device/code_b_head_node/mcu/src/bridge_contract.c:175-183 | fills the buffer with the encoding of the embedding, or returns -1 exactly when there is no room or the argument is over the encoder's limit |
| BridgeContract.EncodeGetStatusCall | edge-device/code_b_head_node/mcu/src/bridge_contract.c:185-194 | fills the buffer with the encoding of the status call, or returns -1 exactly when there is no room or the argument is over the encoder's limit |
| BridgeContract.DecodeStatusMap | edge-device/code_b_head_node/mcu/src/bridge_contract.c:202-242 | reads a status map entry by entry, skipping unknown keys; agrees with the specification on every input |
| BridgeContract.BcDecode | edge-device/code_b_head_node/mcu/src/bridge_contract.c:363-432 | the decoder agrees with its specification on every octet string, malformed ones included |
| BridgeMessages.StatusMapMeaning | edge-device/code_b_head_node/mcu/src/bridge_contract.c:202-242 | a status map means its entries applied in order to the zero status, the last of equal keys winning |
| BridgeMessages.UnknownKeyIgnored | edge-device/code_b_head_node/mcu/src/bridge_contract.c:202-242 | an unknown key, wherever it stands and whatever its value, changes nothing |
| BridgeMessages.StatusRoundTrip | edge-device/code_b_head_node/mcu/src/bridge_contract.c:28-242 | every status decodes to itself, whatever follows its map |
| BridgeMessages.DecodeInvertsEncode | edge-device/code_b_head_node/mcu/src/bridge_contract.c:39-432 | the decoder recovers every message any encoder emits, up to the decoder's own limits on the clock state, the poll list and the embedding |
| BridgeMessages.DeliverableExactly | edge-device/code_b_head_node/mcu/src/bridge_contract.c:244-361 | a message arrives unchanged if and only if its state has at most 15 octets, its list at most 16 pods, its embedding at most 32 octets |
| BridgeMessages.WireInjective | edge-device/code_b_head_node/mcu/src/bridge_contract.c:39-194 | no two distinct messages that the encoders produce share an encoding, those beyond the decoder's limits included |
| BridgeForeign.UnsignedAsInt | edge-device/code_b_head_node/mcu/src/mprpc.c:204-249 | a peer may send a number in any unsigned format that holds it |
| BridgeForeign.SignedAsInt | edge-device/code_b_head_node/mcu/src/mprpc.c:204-249 | or in any signed one |
| BridgeForeign.Notified | edge-device/code_b_head_node/mcu/src/bridge_contract.c:363-382 | in whatever formats a peer sends a notification, its name, its count and its parameters alone decide what is decoded |
| BridgeForeign.IntCalls | edge-device/code_b_head_node/mcu/src/bridge_contract.c:265-322 | calls with integers, of any size in any format: each is cut to the width of its field |
| BridgeForeign.BlobCalls | edge-device/code_b_head_node/mcu/src/bridge_contract.c:252-352 | calls with octets: a report of more than 200 and an embedding of more than 32 are refused, a mesh packet of any length is taken |
| BridgeForeign.OtherCalls | edge-device/code_b_head_node/mcu/src/bridge_contract.c:291-342 | the time modulo 2^64 with the first 15 octets of its state, and the arm order |
| BridgeForeign.PodsCall | edge-device/code_b_head_node/mcu/src/bridge_contract.c:323-334 | a poll list of at most 16 addresses, each cut to an octet; a longer one is refused |
| BridgeForeign.OtherCall | edge-device/code_b_head_node/mcu/src/bridge_contract.c:353-360 | an unknown name or count is passed over if as many whole values follow as announced, and refused otherwise |
| BridgeForeign.Requested | edge-device/code_b_head_node/mcu/src/bridge_contract.c:383-407 | get_status without parameters is a status call with its number modulo 2^32, every other request is passed over |
| BridgeForeign.Responded | edge-device/code_b_head_node/mcu/src/bridge_contract.c:408-430 | after nil the status follows; anything else there is an error, if it and the result are whole |
| BridgeForeign.OtherType | edge-device/code_b_head_node/mcu/src/bridge_contract.c:370-431 | any other type, or one with the wrong length of message, is refused |
| BridgeForeign.EntrySets | edge-device/code_b_head_node/mcu/src/bridge_contract.c:212-239 | what each key of a status map sets: integers cut to 32 bits, the drift signed, the state cut to 15 octets |
| BridgeLink.WireComplete | edge-device/code_b_head_node/mcu/src/bridge_contract.c:39-194 | every message is exactly one self-delimiting value |
| BridgeLink.EndToEnd | edge-device/code_b_head_node/mcu/src/main.c:184-216 | encoders, stream and decoder together: whatever messages one side sends, with whatever stray octets between them and however the UART cuts them, the other side decodes exactly those messages in that order |
| BridgeLink.CleanlyCarried | edge-device/code_b_head_node/mcu/src/main.c:184-216 | messages sent without stray octets are carried so |
| BridgeLink.PodReportFits | edge-device/code_b_head_node/mcu/src/main.c:124-129 | a report fits the 216-octet buffer if and only if it has at most 199 octets for addresses up to 127, at most 195 above |
| BridgeLink.NeighbourPacketFits | edge-device/code_b_head_node/mcu/src/main.c:322-324 | a raw mesh packet of up to 256 octets fits its 272-octet buffer if and only if it has at most 250 |
| Crc16.WireCrc16 | edge-device/code_a_pod_firmware/app/src/wire.c:6-17 | the loop computes the register the message's binary digits leave |
| CrcRegister.FeedLinear | edge-device/code_a_pod_firmware/app/src/wire.c:6-17 | the register is linear over XOR of messages and start values |
| CrcRegister.FeedInjective | edge-device/code_a_pod_firmware/app/src/wire.c:6-17 | every message permutes the register's values |
| CrcRegister.BurstDetected | edge-device/code_a_pod_firmware/app/src/wire.c:6-17 | messages of one length, of any length, that differ within 16 consecutive digits leave different registers |
| Crc16.BurstChangesCrc | edge-device/code_a_pod_firmware/app/src/wire.c:6-17 | such messages have different CRCs |
| Crc16.AdjacentOctetsChangeCrc | edge-device/code_a_pod_firmware/app/src/wire.c:6-17 | so do messages that differ within two adjacent octets |
| CrcCheck.CrcIsTheLoop | edge-device/code_a_pod_firmware/app/src/wire.c:6-17 | of every message the CRC is what the C loop leaves in its 16-bit word, with start value 0xFFFF, shifts, and 0x1021 |
| CrcCheck.CheckValue16 | edge-device/code_a_pod_firmware/app/src/wire.c:6-17 | the CRC of 123456789 is 0x29B1 |
| CrcCheck.Crc8IsTheLoop | edge-device/code_a_pod_firmware/app/src/pod_position.c:6-17 | the same for the CRC-8, with start value 0 and 0x07 |
| CrcCheck.CheckValue8 | edge-device/code_a_pod_firmware/app/src/pod_position.c:6-17 | the CRC-8 of 123456789 is 0xF4 |
| Rs485.FrameEncode | edge-device/code_a_pod_firmware/app/src/rs485.c:12-29 | writes exactly the frame's encoding and nothing else, or refuses with the error code and writes nothing |
| WireLayout.FrameLayout | edge-device/code_a_pod_firmware/app/src/rs485.c:12-29 | the frame octet by octet: 0x7E, address, command, length, payload, and the CRC of all but the first, low octet first |
| Rs485.Parser.Byte | edge-device/code_a_pod_firmware/app/src/rs485.c:43-100 | one octet moves the parser as its state machine says, with the frame, the CRC and both counters; the payload index stays within the array |
| Rs485.Parser.Idle | edge-device/code_a_pod_firmware/app/src/rs485.c:102-107 | a gap longer than allowed, on a wrapping clock, drops the partial frame and nothing else |
| Rs485.EncodingParses | edge-device/code_a_pod_firmware/app/src/rs485.c:12-100 | an encoded frame, with start-of-frame octets inside it or not, is reported once, on its last octet and no earlier |
| Rs485.StreamParses | edge-device/code_a_pod_firmware/app/src/rs485.c:43-100 | frames sent back to back come out one by one |
| Rs485.InSync | edge-device/code_a_pod_firmware/app/src/rs485.c:43-100 | on any stream, idle gaps included, the octets the parser holds are the last ones received without a gap, and began when it was between frames |
| Rs485.AcceptsExactly | edge-device/code_a_pod_firmware/app/src/rs485.c:43-100 | on any stream, idle gaps included, a frame is reported at an octet if and only if the stream so far ends with that frame's encoding, without a gap and begun between frames |
| Rs485.GapResynchronises | edge-device/code_a_pod_firmware/app/src/rs485.c:102-107 | after an idle gap, whatever came before it, the next frame parses |
| Rs485.DamagedFrameRejected | edge-device/code_a_pod_firmware/app/src/rs485.c:43-100 | a frame damaged under its CRC within 16 consecutive digits yields no frame and leaves the parser ready |
| Rs485.SlaveHandle | edge-device/code_a_pod_firmware/app/src/rs485.c:109-168 | the slave's answer and its call of the arm hook are as specified for every request |
| Rs485.AnswerSendable | edge-device/code_a_pod_firmware/app/src/rs485.c:12-168 | what a slave answers can be encoded if and only if it is not a poll for a report longer than a frame holds |
| Rs485.NoCollision | edge-device/code_a_pod_firmware/app/src/rs485.c:109-168 | no request makes two slaves of different addresses talk, no broadcast makes any, and no reply makes anyone talk |
| Rs485.AnswerExactly | edge-device/code_a_pod_firmware/app/src/rs485.c:109-168 | which requests a pod answers, and with which octets: 0x81 and the report, 0x82, 0x83 with position and version, 0xFE with the command refused |
| Rs485.ArmExactly | edge-device/code_a_pod_firmware/app/src/rs485.c:139-149 | the arm hook is called if and only if a command 0x02 with a payload comes, to the pod or to all, and is told whether its first octet is set |
| Rs485.ArmReaches | edge-device/code_b_head_node/mcu/src/bus_master.c:134-149 | the arm order on the wire is parsed by every pod; broadcast it arms every pod and none answers, to one address exactly that pod, which alone answers |
| BusMaster.Bus.Init | edge-device/code_b_head_node/mcu/src/bus_master.c:6-25 | takes the pods or refuses: more than the maximum leaves the master as it was, a bad address leaves it idle and empty |
| BusMaster.Bus.PollPod | edge-device/code_b_head_node/mcu/src/bus_master.c:27-42 | sends exactly the poll frame of the current pod and starts waiting |
| BusMaster.Bus.SweepStart | edge-device/code_b_head_node/mcu/src/bus_master.c:44-54 | starts a sweep from idle with pods, sending exactly the first pod's poll; otherwise refuses and sends nothing |
| BusMaster.Bus.RxFrame | edge-device/code_b_head_node/mcu/src/bus_master.c:64-98 | takes a reply only from the pod being polled, stores its report and moves on |
| BusMaster.Bus.BusTick | edge-device/code_b_head_node/mcu/src/bus_master.c:100-132 | times out, ends a turnaround, ends a sweep; sends a poll exactly when it starts to wait |
| BusMaster.Bus.SendArm | edge-device/code_b_head_node/mcu/src/bus_master.c:134-149 | sends exactly the arm order, and never in the middle of a sweep |
| BusMaster.SweepsAreCompleteAndOrdered | edge-device/code_b_head_node/mcu/src/bus_master.c:44-132 | for every interleaving of calls, with replies lost, late, foreign or repeated: each sweep yields one REPORT or MISSING per pod in table order, then SWEEP_DONE, and the open sweep is a prefix of that |
| BusMaster.PollsConserved | edge-device/code_b_head_node/mcu/src/bus_master.c:27-132 | for every pod after every call, polls = replies + timeouts + outstanding, modulo the counter width |
| BusMaster.SweepIsBounded | edge-device/code_b_head_node/mcu/src/bus_master.c:151-154 | a sweep is over within the worst case bus_sweep_worst_case_ms states plus twice the tick slack per pod, whatever is lost |
| BusTiming.EveryStepInItsTime | edge-device/code_b_head_node/mcu/src/bus_master.c:44-132 | over every run, in true time: a pod is MISSING if and only if a tick finds it waited for since the reply timeout or longer, the next one is polled and the sweep ends if and only if a tick finds the turnaround gap over, and a REPORT comes if and only if the pod asked sends one |
| BusTiming.SweepTakesAtLeast | edge-device/code_b_head_node/mcu/src/bus_master.c:44-132 | a sweep takes at least a turnaround gap for every pod and a reply timeout for every one missing |
| BusTiming.PollsGoRound | edge-device/code_b_head_node/mcu/src/bus_master.c:27-54 | over every run the k-th poll sent goes to pod k modulo the number of pods and is numbered k beyond the first, modulo 256 |
| BusTiming.TableTellsTheEvents | edge-device/code_b_head_node/mcu/src/bus_master.c:64-132 | over every run a pod is present if its last event was a report, its misses are those in a row since, at most 255, and its replies and timeouts are those counted |
| BusTiming.EntryAfter | edge-device/code_b_head_node/mcu/src/bus_master.c:64-132 | what else a call writes: the report and its time, the count of answers of the wrong kind, the count of sweeps |
| BusMaster.PollAnswered | edge-device/code_a_pod_firmware/app/src/rs485.c:109-168 | one poll without loss: parsed by its pod, answered by it alone, and the report stored byte for byte in that pod's entry only |
| BusMaster.AnswersAreTrusted | edge-device/code_a_pod_firmware/app/src/rs485.c:109-168 | no pod of the table ever sends a report under another pod's address, so the frames a sweep hears from them are trusted |
| BusMaster.SweepIsFaithful | edge-device/code_b_head_node/mcu/src/bus_master.c:44-132 | a whole sweep, with any losses and foreign frames in between: every pod with a REPORT has its own report in the table, byte for byte, and every MISSING one is marked absent and keeps its old report |
| BusMaster.LosslessSweep | edge-device/code_b_head_node/mcu/src/bus_master.c:44-132 | when every answer comes before its timeout, the sweep ends with every entry present and equal to its pod's report |
| WireReport.WireDecodeReport | edge-device/code_a_pod_firmware/app/src/wire.c:103-152 | the firmware's decoder accepts exactly what parses, with equal fields, and its error code tells a wrong version from the rest |
| WireReport.DecodeReport | edge-device/code_b_head_node/linux/prahari_hn/wire.py:66-93 | the head node's Python decoder accepts exactly the same strings with the same fields |
| WireReport.EncodeReport | edge-device/code_b_head_node/linux/prahari_hn/wire.py:96-105 | the Python encoder prints the format, or raises for counts over an octet |
| WireReport.ParseExactly | edge-device/code_b_head_node/linux/prahari_hn/wire.py:66-105 | a string is accepted as a report if and only if the report is well formed and the string is its encoding: decode and encode are inverse both ways |
| WireLayout.ReportLayout | edge-device/code_a_pod_firmware/app/src/wire.c:43-101 | the report octet by octet: version, position, flags, five 16-bit fields, and twice a count with so many channels of identifier, flags and 32-bit value |
| WireLayout.SentExactly | edge-device/code_a_pod_firmware/app/src/wire.c:43-101 | what of a processed report is sent: the two flag bits, the low 16 bits of the cycle, no voltage below zero, exactly the populated parameters, and exactly the valid derived values under 13, 14, 15, 16 and 21 |
| WireReport.WireEncodeReport | edge-device/code_a_pod_firmware/app/src/wire.c:43-101 | prints what goes on the wire, and nothing behind it, if the buffer holds it and has 16 octets or more; otherwise -ENOSPC, with as many channels as fitted and their counts left in the buffer |
| WireReport.PopulatedExactly | edge-device/code_a_pod_firmware/app/src/wire.c:66-80 | a channel travels if and only if its parameter is populated, with its flags and value |
| WireReport.PopulatedIncreasing | edge-device/code_a_pod_firmware/app/src/wire.c:68-80 | in increasing order of the parameters |
| WireReport.ReportArrives | edge-device/code_a_pod_firmware/app/src/wire.c:43-152 | every processed report decodes to exactly what went on the wire |
| WireReport.SentReportsFit | edge-device/code_b_head_node/mcu/src/main.c:124-129 | every report of at most 200 octets that the encoder can print fits the head node's message for every address, with nothing to spare for the largest |
| WireRadio.WireEncodeBeacon | edge-device/code_a_pod_firmware/app/src/wire.c:154-167 | writes exactly the sealed beacon, or -ENOSPC and nothing |
| WireRadio.WireDecodeBeacon | edge-device/code_a_pod_firmware/app/src/wire.c:169-180 | decodes as specified on every string |
| WireRadio.BeaconExactly | edge-device/code_a_pod_firmware/app/src/wire.c:154-180 | accepted with these fields if and only if it is that beacon's encoding |
| WireLayout.BeaconLayout | edge-device/code_a_pod_firmware/app/src/wire.c:154-167 | the beacon octet by octet |
| WireRadio.WireEncodeLoraUplink | edge-device/code_a_pod_firmware/app/src/wire.c:182-194 | writes exactly the sealed uplink, or -ENOSPC and nothing |
| WireRadio.WireDecodeLoraUplink | edge-device/code_a_pod_firmware/app/src/wire.c:196-207 | decodes as specified on every string |
| WireRadio.UplinkExactly | edge-device/code_a_pod_firmware/app/src/wire.c:182-207 | accepted with these fields if and only if it is that uplink's encoding, also beyond the encoder's length limit |
| WireLayout.UplinkLayout | edge-device/code_a_pod_firmware/app/src/wire.c:182-194 | the uplink octet by octet |
| WireRadio.DamageRejected | edge-device/code_a_pod_firmware/app/src/wire.c:154-207 | damage of covered octets within two adjacent ones, the CRC intact, is rejected by both decoders at any length |
| WireRadio.BurstRejected | edge-device/code_a_pod_firmware/app/src/wire.c:154-207 | so is any burst within 16 consecutive digits |
| Pps.PpsDisc.PpsEdge | edge-device/code_b_head_node/mcu/src/pps.c:20-76 | an edge is classified and applied as specified: first, late, in tolerance, or glitch |
| Pps.PpsDisc.PpsSetUtc | edge-device/code_b_head_node/mcu/src/pps.c:78-85 | the second is set, valid only after an edge |
| Pps.PpsDisc.PpsTick | edge-device/code_b_head_node/mcu/src/pps.c:87-95 | holdover by a wrapping clock |
| Pps.AcceptedEdge | edge-device/code_b_head_node/mcu/src/pps.c:20-76 | a true second boundary of up to 60 s after the last is accepted and adds exactly those seconds |
| Pps.AcceptedAdds | edge-device/code_b_head_node/mcu/src/pps.c:30-76 | any accepted edge after the first adds 1 to 60 seconds |
| Pps.GenuineEdge | edge-device/code_b_head_node/mcu/src/pps.c:20-76 | a true second boundary within tolerance is accepted for gaps of up to 60 s; an accepted one keeps UTC right if and only if the gap was at most 60 s |
| Pps.LongGapMisread | edge-device/code_b_head_node/mcu/src/pps.c:40-45 | after a gap over which the counter wraps, a true edge is accepted and the second is wrong |
| Pps.UtcStaysExact | edge-device/code_b_head_node/mcu/src/pps.c:20-85 | over any run with missed pulses, rejected glitches and clock wraps, the second kept is the true one of the last edge |
| Pps.PeriodStaysInBand | edge-device/code_b_head_node/mcu/src/pps.c:55-63 | the period estimate stays within its tolerance band for ever, whatever the inputs |
| Pps.ErrorShrinks | edge-device/code_b_head_node/mcu/src/pps.c:55-63 | under a constant interval the error strictly shrinks towards 0..7 units and never changes sign |
| Pps.FilterConverges | edge-device/code_b_head_node/mcu/src/pps.c:55-63 | over any run whose pulses come a constant interval apart, whatever comes between them, the period ends 0..7 units above that interval |
| Pps.SteadyRun | edge-device/code_b_head_node/mcu/src/pps.c:20-95 | over such a run the period is the filter applied once per pulse, and every pulse is accepted |
| Pps.ConversionMonotone | edge-device/code_b_head_node/mcu/src/pps.c:97-112 | local to UTC is monotone between edges and overflows nothing; which time it gives is PpsTime.ConversionExact |
| Pps.StepAtGoodEdge | edge-device/code_b_head_node/mcu/src/pps.c:20-112 | just after a good edge pps_local_to_utc_ms gives the whole second, and what it gave just before differs by at most ceil(2000 tol / (nominal - tol)) ms |
| PpsTime.ConversionExact | edge-device/code_b_head_node/mcu/src/pps.c:97-112 | every instant, before or after the edge, becomes the edge's second and so many milliseconds that, at the estimated period, they fall short of the local time passed by less than one |
| PpsTime.ConversionAccurate | edge-device/code_b_head_node/mcu/src/pps.c:97-112 | in true time: with the oscillator's rate within a given distance of the estimate, the conversion is within 1 ms, and that distance over the milliseconds converted, of true UTC |
| PpsTime.SteadyConversion | edge-device/code_b_head_node/mcu/src/pps.c:20-112 | end to end: after enough pulses a constant interval apart, whatever glitches and ticks come between, every instant within reach of the 32-bit clock is converted to within 2 ms of true UTC |
| PpsTime.EdgeAcceptedExactly | edge-device/code_b_head_node/mcu/src/pps.c:20-76 | an edge is accepted if and only if it is the first or lies 1 to 60 seconds after the last, give or take the tolerance for each; what it counts for, and what a rejected one costs |
| PpsTime.LockExactly | edge-device/code_b_head_node/mcu/src/pps.c:65-95 | the lock is won if and only if, with UTC known, a good pulse or the receiver's time comes after enough good pulses in a row, and lost if and only if a tick finds the holdover time over |
| PpsTime.LockOverRuns | edge-device/code_b_head_node/mcu/src/pps.c:65-95 | so over every run from the start |
| PpsTime.StartsUnlocked | edge-device/code_b_head_node/mcu/src/pps.c:8-18 | a discipline just initialised: unlocked, without edge or UTC, at the nominal period |
| LoraSlot.SlotSched.Init | edge-device/code_a_pod_firmware/app/src/lora_slot.c:6-24 | accepts exactly the possible geometries, in 32-bit arithmetic that cannot wrap; refuses without a change |
| LoraSlot.SlotSched.Sync | edge-device/code_a_pod_firmware/app/src/lora_slot.c:26-32 | the epoch is the beacon's reception less its airtime |
| LoraSlot.SlotSched.StartFreeRunning | edge-device/code_a_pod_firmware/app/src/lora_slot.c:34-42 | only where there is no epoch |
| LoraSlot.SlotSched.Update | edge-device/code_a_pod_firmware/app/src/lora_slot.c:77-83 | the synchronised flag after a refresh |
| LoraSlot.SlotSched.NextTx | edge-device/code_a_pod_firmware/app/src/lora_slot.c:59-66 | -EAGAIN exactly without an epoch; else, in true time, the least start of the own slot not before now + guard while that is less than 2^31 ms after the first one, and the first one beyond |
| LoraSlot.SlotSched.NextBeacon | edge-device/code_a_pod_firmware/app/src/lora_slot.c:68-75 | the same for the starts of superframes |
| LoraSlot.LeastInstant | edge-device/code_a_pod_firmware/app/src/lora_slot.c:44-57 | the instant meant: the least of base + k period, k >= 0, not before the target |
| LoraSlot.NextAfterExactly | edge-device/code_a_pod_firmware/app/src/lora_slot.c:45-57 | next_after returns that instant modulo 2^32 if and only if the target is less than 2^31 ms after the first one; no intermediate overflow |
| LoraSlot.HoldoverGoesSilent | edge-device/code_a_pod_firmware/app/include/prahari/lora_slot.h:6-8 | the header says losing the beacon never stops a pod reporting: 2^31 ms after its first slot the slot it is given is never due until the clock has come round |
| LoraSlot.HoldoverExactly | edge-device/code_a_pod_firmware/app/src/lora_slot.c:77-83 | synchronised exactly while no more than the holdover has passed, within one turn of the clock |
| LoraSlot.ScheduleExactly | edge-device/code_a_pod_firmware/app/src/lora_slot.c:26-83 | over every run the superframes are counted from the last beacon's start, or until there is one from the first start without; later starts change nothing; the schedule counts as synchronised if and only if it is within the holdover time of the last beacon |
| LoraSlot.SlotAfterRun | edge-device/code_a_pod_firmware/app/src/lora_slot.c:26-66 | so after any run the slot given is the least one of that epoch not before now + guard |
| Tdma.LayoutOf | edge-device/code_b_head_node/mcu/src/tdma.c:5-21 | a layout exists exactly when the regions fit, and then they are in order inside the superframe |
| Tdma.NextAtOffsetExactly | edge-device/code_b_head_node/mcu/src/tdma.c:49-59 | next_at_offset is the least instant at the offset not before now + guard if and only if the offset is below the superframe plus the target's own offset, or the target lies in the first superframe |
| Tdma.PodSlotAtExactly | edge-device/code_b_head_node/mcu/src/tdma.c:79-88 | an instant is in pod slot i if and only if its offset lies in the i-th stretch |
| Tdma.MeshSlotAtExactly | edge-device/code_b_head_node/mcu/src/tdma.c:90-99 | the same for mesh slots |
| Tdma.RegionsDisjoint | edge-device/code_b_head_node/mcu/src/tdma.c:79-99 | no instant is in a pod slot and a mesh slot |
| Tdma.NextPodSlotIsOwn | edge-device/code_b_head_node/mcu/src/tdma.c:66-88 | the next start of a slot is the least one, and looking it up gives that slot |
| Tdma.NextMeshSlotIsOwn | edge-device/code_b_head_node/mcu/src/tdma.c:71-99 | the same for mesh slots |
| Tdma.SyncedPodTransmits | edge-device/code_a_pod_firmware/app/src/lora_slot.c:26-66 | a pod that heard a beacon transmits, on its own wrapping clock, at the least of its slot instants not before now + guard |
| Tdma.HeardInOwnSlot | edge-device/code_b_head_node/mcu/src/tdma.c:79-88 | the head finds that transmission in the pod's own slot if and only if the pod's epoch is late by 0 up to less than a slot |
| Tdma.CollisionFreeExactly | edge-device/code_a_pod_firmware/app/src/lora_slot.c:6-24 | no two pods of a superframe in different slots are ever on the air at once, at whichever instants their schedules give, if and only if airtime plus twice the synchronisation error fits the slot |
| Tdma.NeighboursCollide | edge-device/code_a_pod_firmware/app/src/lora_slot.c:6-24 | otherwise two pods in neighbouring slots do meet |
| Tdma.SyncedPodsNeverCollide | edge-device/code_a_pod_firmware/app/src/lora_slot.c:26-66 | head, pods and air together: two pods in different slots that each heard some beacon, on wrapping clocks of their own, are given instants that never overlap |
| Power.PwrCtl.SwitchRailOn | edge-device/code_a_pod_firmware/app/src/power.c:21-40 | the new state and result are as specified: budget, backend, settling and the READY event |
| Power.PwrCtl.SwitchRailOff | edge-device/code_a_pod_firmware/app/src/power.c:42-50 | the new state and result are as specified: off, references dropped, event |
| Power.PwrCtl.PwrAcquire | edge-device/code_a_pod_firmware/app/src/power.c:86-124 | the new state and result are as specified: by policy, with the error codes |
| Power.PwrCtl.PwrRelease | edge-device/code_a_pod_firmware/app/src/power.c:126-144 | the new state and result are as specified: the last release of a per-read rail switches it off |
| Power.PwrCtl.PwrArm | edge-device/code_a_pod_firmware/app/src/power.c:179-201 | the new state and result are as specified: arming brings up, disarming takes down |
| Power.PwrCtl.PwrIsReady | edge-device/code_a_pod_firmware/app/src/power.c:146-161 | the new state and result are as specified: on, or settled in time |
| Power.PwrCtl.PwrSettleRemainingMs | edge-device/code_a_pod_firmware/app/src/power.c:163-177 | the new state and result are as specified: what remains of the settling time |
| Power.PwrCtl.PwrTickDomain | edge-device/code_a_pod_firmware/app/src/power.c:203-244 | the new state and result are as specified: settling, windows, on-time caps; what that means in time is PowerTiming.SettlesExactly |
| Power.PwrCtl.PwrTick | edge-device/code_a_pod_firmware/app/src/power.c:246-251 | the new state and result are as specified: every rail in turn |
| Power.PwrCtl.LoadMa | edge-device/code_a_pod_firmware/app/src/power.c:253-263 | the new state and result are as specified: the sum over rails that are up |
| Power.AlwaysSafe | edge-device/code_a_pod_firmware/app/src/power.c:21-263 | over every sequence of calls: load within a nonzero budget, a held rail is up, an armed-policy rail that is up is armed, the physical rails are as the controller thinks |
| Power.AcquireExactly | edge-device/code_a_pod_firmware/app/src/power.c:86-124 | a rail is granted if and only if its policy, its state, the budget, the backend and the reference count allow; a refusal changes nothing |
| Power.ReleaseExactly | edge-device/code_a_pod_firmware/app/src/power.c:126-144 | only the last release of a per-read rail takes it down, and no other rail is touched |
| Power.WindowOpensExactly | edge-device/code_a_pod_firmware/app/src/power.c:220-236 | a periodic window opens if and only if it is due, affordable and granted; a due one that cannot open stays due |
| Power.TickEnforcesCaps | edge-device/code_a_pod_firmware/app/src/power.c:233-251 | a tick of all rails takes exactly those down whose time is up on the clock |
| Power.CapsHold | edge-device/code_a_pod_firmware/app/src/power.c:203-251 | over every run, in true time and across clock wraps: with ticks no further apart than a clock turn less the cap, a capped rail is never up after a tick at or past its on_ms, other than a window this tick opened |
| Power.TickInTrueTime | edge-device/code_a_pod_firmware/app/src/power.c:233-251 | however late a tick comes, it takes a rail down if and only if the time up, less whole turns of the clock, has reached the cap |
| Power.TickFromCaps | edge-device/code_a_pod_firmware/app/src/power.c:203-251 | a tick takes a rail down if and only if its time is up, leaves its switch-on time otherwise, and brings up a periodic rail only |
| Power.WindowsApart | edge-device/code_a_pod_firmware/app/src/power.c:220-236 | windows of a periodic rail open at least a period of true time apart over every run, across clock wraps |
| PowerTiming.OnMeansSettled | edge-device/code_a_pod_firmware/app/src/power.c:21-251 | over every run, in true time and whatever ticks come when: a rail that reads ON has been up for at least its settling time |
| PowerTiming.SettlesExactly | edge-device/code_a_pod_firmware/app/src/power.c:21-251 | a settling rail that stays up becomes ON if and only if a tick finds its settling time over, and one that comes up is ON at once if and only if it needs none |
| PowerTiming.ReadyExactly | edge-device/code_a_pod_firmware/app/src/power.c:146-161 | readiness in true time |
| PowerTiming.RemainingExactly | edge-device/code_a_pod_firmware/app/src/power.c:163-177 | slept for, the settling time remaining leaves the rail ready, and not a millisecond sooner |
| PowerTiming.CallTells | edge-device/code_a_pod_firmware/app/src/power.c:14-251 | whatever call is made, the event callback hears exactly this of every rail: READY when its settling time is found over or it needs none, OFF whenever it goes down, TIMEOUT when a tick takes down one that is not periodic, DEFERRED when a due window could not open |
| PowerTiming.ArmExactly | edge-device/code_a_pod_firmware/app/src/power.c:179-201 | arming brings the rail up if and only if it is up or the budget and the backend allow, and leaves it armed either way; disarming takes it down; the error codes |
| PowerTiming.FirstTick | edge-device/code_a_pod_firmware/app/src/power.c:52-244 | after initialisation every rail is down, dark, unheld and unarmed, and the first tick opens exactly the periodic windows that can be afforded |
| Sampler.Acquisition.MaskParams | edge-device/code_a_pod_firmware/app/src/sampler.c:22-31 | as specified: the transducer's parameters get these flags, no other entry changes |
| Sampler.Acquisition.SleepAndTick | edge-device/code_a_pod_firmware/app/src/sampler.c:69-73 | as specified: one round of the settle loop |
| Sampler.Acquisition.AwaitSettled | edge-device/code_a_pod_firmware/app/src/sampler.c:67-78 | as specified: the settle loop ends, on a rail that is ready or down |
| Sampler.Acquisition.PowerUp | edge-device/code_a_pod_firmware/app/src/sampler.c:51-79 | as specified: everything before the driver's call |
| Sampler.Acquisition.Keep | edge-device/code_a_pod_firmware/app/src/sampler.c:92-101 | as specified: the samples kept |
| Sampler.Acquisition.ReadTransducer | edge-device/code_a_pod_firmware/app/src/sampler.c:48-103 | as specified: one reading on every way out |
| Sampler.Acquisition.MarkStale | edge-device/code_a_pod_firmware/app/src/sampler.c:113-122 | as specified: a valid entry carried over is marked stale |
| Sampler.Acquisition.SamplerCycle | edge-device/code_a_pod_firmware/app/src/sampler.c:105-129 | as specified: one cycle over the selection, with its count of errors |
| Sampler.Acquisition.OnDomainReady | edge-device/code_a_pod_firmware/app/src/sampler.c:131-140 | as specified: the readings of a rail that became ready |
| Sampler.RoundsEnd | edge-device/code_a_pod_firmware/app/src/sampler.c:67-78 | every round of the settle loop that does not end it brings its end nearer, whenever a sleep advances the clock |
| Sampler.BringUpMeans | edge-device/code_a_pod_firmware/app/src/sampler.c:48-79 | an error leaves a rail that was off off and every parameter NOPOWER; success leaves a settled, lit rail held once more |
| Sampler.RailLeftOff | edge-device/code_a_pod_firmware/app/src/sampler.c:48-103 | on every way out a per-read rail that started off ends off, and no other rail is touched |
| Sampler.NeverImputes | edge-device/code_a_pod_firmware/app/src/sampler.c:48-103 | a parameter is valid after a reading only with a value this very reading returned; it is NOPOWER exactly without a driver call and FAULT on a failed one; parameters of other transducers are left alone; the driver ran on a lit, settled rail |
| Sampler.StoreAllFrom | edge-device/code_a_pod_firmware/app/src/sampler.c:92-101 | a masked parameter that is valid after the loop holds a value the samples gave it, and a valid sample for a reported parameter makes it valid |
| Sampler.StoreAllIs | edge-device/code_a_pod_firmware/app/src/sampler.c:92-101 | after the loop an entry holds the last sample that counts for it, not stale, or what it held before |
| Sampler.NothingLeftEnergisedNothingImputed | edge-device/code_a_pod_firmware/app/src/sampler.c:48-140 | over every run of cycles, ready events, ticks, arming and waiting: no per-read rail is on between calls, and every valid frame entry is a value some driver call returned |
| SamplerRuns.OnlySettledRailsAreRead | edge-device/code_a_pod_firmware/app/src/sampler.c:48-140 | over every run: whenever a driver was called its rail was lit and had been up, in true milliseconds since the switch-on, for at least its settling time |
| SamplerRuns.CycleExactly | edge-device/code_a_pod_firmware/app/src/sampler.c:105-129 | a cycle calls the drivers of exactly the transducers not on a periodic rail whose rail, if any, came up, in the order of the selection; the error count is that of the refusals and failures; every frame entry is what the last of them left, and what is passed over is stale |
| SamplerRuns.OnReadyExactly | edge-device/code_a_pod_firmware/app/src/sampler.c:131-140 | a ready event reads exactly the transducers of its rail, in order, and leaves every other entry alone |
| SamplerRuns.ReadDescExactly | edge-device/code_a_pod_firmware/app/src/sampler.c:48-103 | one reading: refused or the driver's answer, the error code, and its entries by the last valid sample for each |
| ZGate.ISqrt64 | edge-device/code_a_pod_firmware/app/src/zgate.c:16-33 | the bitwise root of every 64-bit number is exact, nothing leaves 64 bits, the loops end |
| ZGate.RootUnique | edge-device/code_a_pod_firmware/app/src/zgate.c:16-33 | there is only one such root |
| ZGate.Gate.Push | edge-device/code_a_pod_firmware/app/src/zgate.c:35-42 | the ring holds the last twelve samples in order |
| ZGate.Gate.Update | edge-device/code_a_pod_firmware/app/src/zgate.c:44-89 | verdict and score of a sample against the window before it, in 64-bit arithmetic, then the sample enters |
| ZGate.OnlyTheLastTwelve | edge-device/code_a_pod_firmware/app/src/zgate.c:44-89 | after any two runs with the same last twelve samples in whatever order every sample gets the same verdict and score |
| ZGate.VerdictExactly | edge-device/code_a_pod_firmware/app/src/zgate.c:76-86 | anomalous if and only if the deviation times 100 reaches the threshold times the spread: the truncating division and the clamp never decide |
| ZGate.StatisticsExactly | edge-device/code_a_pod_firmware/app/src/zgate.c:54-74 | the statistics in numbers: the mean is the sum of the twelve over twelve, truncated; the spread is the root of the mean square deviation, rounded down, or the floor of permille thousandths of the mean, at least 1, whichever is more |
| ZGate.ScoreExactly | edge-device/code_a_pod_firmware/app/src/zgate.c:47-84 | the score is the deviation in hundredths of the spread, truncated and held within 32 bits; -EAGAIN before twelve samples |
| ZGate.ConstantWindow | edge-device/code_a_pod_firmware/app/src/zgate.c:54-88 | on a window of one value that value scores zero, is anomalous only for a threshold of zero, and the spread is the floor |
| ZGate.FitsExactly | edge-device/code_a_pod_firmware/app/src/zgate.c:62-66 | the square sums of all windows within a bound stay in 64 bits if and only if the bound is at most 876706528 |
| Calib.CalibApply | edge-device/code_a_pod_firmware/app/src/calib.c:111-133 | the code computes the specified value and errors, with every intermediate in 64 bits, the last sum included |
| Calib.FitsForEveryReading | edge-device/code_a_pod_firmware/app/src/calib.c:111-133 | no reading whatever takes the code out of 64 bits if and only if the entry is degenerate or its sums fit at the least and the greatest reading |
| Calib.RoundedIsNearest | edge-device/code_a_pod_firmware/app/src/calib.c:121-126 | the rounded quotient is the nearest integer, halves away from zero, for all sign combinations of truncating division, and is the only one |
| Calib.ApplyExactly | edge-device/code_a_pod_firmware/app/src/calib.c:111-133 | the answer is the integer nearest to the line through both reference points, halves away from the lower one; -ERANGE if that has not 32 bits, -EINVAL without a line |
| Calib.ReferencePointsExact | edge-device/code_a_pod_firmware/app/src/calib.c:111-133 | both reference points map exactly |
| Calib.ApplyMonotone | edge-device/code_a_pod_firmware/app/src/calib.c:111-133 | the value follows the raw reading in the direction of the slope |
| Calib.FitsUpTo62 | edge-device/code_a_pod_firmware/app/src/calib.c:118-126 | a numerator of up to 2^62 overflows nothing |
| Calib.ExtremesOverflow | edge-device/code_a_pod_firmware/app/src/calib.c:120 | entries on which the product, and on which only the final addition of ref_lo, leaves 64 bits |
| Calib.CalibTableEncode | edge-device/code_a_pod_firmware/app/src/calib.c:24-53 | writes exactly the image and nothing behind it, or the error code; for a parameter out of range the entries before it are written and nothing else |
| Calib.CalibTableDecode | edge-device/code_a_pod_firmware/app/src/calib.c:55-96 | decodes as specified on every string |
| Calib.AcceptsExactly | edge-device/code_a_pod_firmware/app/src/calib.c:24-96 | a table is decoded if and only if the string starts with that table's image: encode and decode are inverse both ways |
| WireLayout.TableLayout | edge-device/code_a_pod_firmware/app/src/calib.c:24-53 | the table octet by octet |
| Calib.OneOctetRefused | edge-device/code_a_pod_firmware/app/src/calib.c:78-80 | an image damaged in one octet is refused, except exactly where a smaller count makes an octet inside the entries the checksum of those before it |
| Crc8.PodConfigCrc8 | edge-device/code_a_pod_firmware/app/src/pod_position.c:6-17 | the loop computes the register of the octets |
| Crc8.OneOctetChangesCrc | edge-device/code_a_pod_firmware/app/src/pod_position.c:6-17 | changing one octet of a message of any length changes its CRC |
| FlowAccumulation.FindReceiver | edge-device/code_b_head_node/training_pipeline/prahari_train/features.py:201-210 | the receiver is the first steepest downhill neighbour, or none if none is lower |
| FlowAccumulation.ReceiverExactly | edge-device/code_b_head_node/training_pipeline/prahari_train/features.py:197-210 | by coordinates: there is none if and only if no other cell within one row and one column is lower; else it is such a cell, and its fall per distance, the cell size or that times math.hypot(1, 1), is at least that of every other |
| FlowAccumulation.ReceiverUnique | edge-device/code_b_head_node/training_pipeline/prahari_train/features.py:201-210 | that describes one receiver only |
| FlowAccumulation.FillReceivers | edge-device/code_b_head_node/training_pipeline/prahari_train/features.py:198-210 | for every cell of the grid |
| FlowAccumulation.SortedCells | edge-device/code_b_head_node/training_pipeline/prahari_train/features.py:212 | every cell once, from high to low, ties by row and column, descending |
| FlowAccumulation.Accumulate | edge-device/code_b_head_node/training_pipeline/prahari_train/features.py:211-216 | the accumulation of each cell is the number of other cells whose receiver chain passes through it |
| FlowAccumulation.TerrainFlow | edge-device/code_b_head_node/training_pipeline/prahari_train/features.py:180-216 | the whole of it, with the shapes that are refused |
| FlowAccumulation.Acyclic | edge-device/code_b_head_node/training_pipeline/prahari_train/features.py:195-210 | the receiver graph has no cycle |
| FlowAccumulation.ReachesByLast | edge-device/code_b_head_node/training_pipeline/prahari_train/features.py:213-216 | a cell drains through c exactly by way of a cell whose receiver is c |
| FlowAccumulation.BasinsDisjoint | edge-device/code_b_head_node/training_pipeline/prahari_train/features.py:213-216 | cells with one receiver share no upstream cell, so nothing is counted twice |
| FlowAccumulation.SinksHoldTheGrid | edge-device/code_b_head_node/training_pipeline/prahari_train/features.py:195-216 | over the cells without receiver, accumulation plus one adds up to the number of cells |
| Alerts.AlertEngine.BestOf | edge-device/code_b_head_node/linux/prahari_hn/alerts.py:82-88 | the inner loop finds the tier and the horizon that drives it |
| Alerts.Driver | edge-device/code_b_head_node/linux/prahari_hn/alerts.py:82-88 | the driving horizon: beaten by none, and beating all before it |
| Alerts.BestIsHighest | edge-device/code_b_head_node/linux/prahari_hn/alerts.py:82-88 | the best tier is the highest any horizon crosses |
| Alerts.BestExactly | edge-device/code_b_head_node/linux/prahari_hn/alerts.py:84-88 | the best tier is warning if and only if some output reaches its warning threshold, and none if and only if none reaches any |
| Alerts.AlertsExactly | edge-device/code_b_head_node/linux/prahari_hn/alerts.py:98-105 | the alerts of a cycle: in order one for each head whose level changed and for no other, with the levels before and after, and truthful: at warning its probability reaches the warning threshold given, at advisory the advisory one and not the other, cleared neither, and no output of the head reaches more |
| Alerts.AlertEngine.Decide | edge-device/code_b_head_node/linux/prahari_hn/alerts.py:75-106 | the new level of every head, and an alert with tier, output and threshold for every level that changed |
| Alerts.AlertEngine.AnyWarning | edge-device/code_b_head_node/linux/prahari_hn/alerts.py:72-73 | true if and only if some head is at warning |
| Alerts.LevelCoversBest | edge-device/code_b_head_node/linux/prahari_hn/alerts.py:89-105 | a level is never below the present best tier |
| Alerts.StreakCounts | edge-device/code_b_head_node/linux/prahari_hn/alerts.py:89-105 | the streak is the number of last cycles below the held level, and the cycle before them was at it |
| Alerts.DropsExactly | edge-device/code_b_head_node/linux/prahari_hn/alerts.py:89-105 | a level falls if and only if this and the clear_cycles - 1 cycles before were all below it, and then to the present tier |
| Alerts.AdvisoryLostExactly | edge-device/code_b_head_node/linux/prahari_hn/alerts.py:89-105 | a head is clear although it crossed the advisory tier within the clear_cycles - 1 cycles before, if and only if it was held at warning, those cycles were all below warning and one of them at advisory, and it crosses nothing now |
| Alerts.WarningExactly | edge-device/code_b_head_node/linux/prahari_hn/alerts.py:89-105 | a head is at warning if and only if it crossed that tier in the last clear_cycles cycles |
| Alerts.FallsPastAdvisory | edge-device/code_b_head_node/linux/prahari_hn/alerts.py:5-8 | such a run, with three cycles of hysteresis |
| Alerts.HeadsApart | edge-device/code_b_head_node/linux/prahari_hn/alerts.py:78-106 | over any run every trained head follows its own tiers alone, and untrained ones stay clear |
| Alerts.AnyWarningExactly | edge-device/code_b_head_node/linux/prahari_hn/alerts.py:72-106 | a warning stands if and only if some trained head crossed its threshold in the last clear_cycles cycles |
| Alerts.ExportedImported | edge-device/code_b_head_node/linux/prahari_hn/alerts.py:61-67 | exported and imported, the state is what it was |
| DutyCycle.DutyCycle.Update | edge-device/code_b_head_node/linux/prahari_hn/duty_cycle.py:30-39 | one step of the mode, and whether the cadence changed |
| DutyCycle.ElevatedExactly | edge-device/code_b_head_node/linux/prahari_hn/duty_cycle.py:30-39 | elevated if and only if a warning stood in the last cooldown_cycles cycles |
| DutyCycle.RunCycle | edge-device/code_b_head_node/linux/prahari_hn/node.py:182-194 | alerts first, then the duty cycle on whether any warning stands, then the cadence message if it changed |
| DutyCycle.CadenceExactly | edge-device/code_b_head_node/linux/prahari_hn/node.py:182-194 | after any run the cadence is elevated if and only if some head crossed its warning threshold in the last clear_cycles + cooldown_cycles - 1 cycles |
| DutyCycle.ToldExactly | edge-device/code_b_head_node/linux/prahari_hn/node.py:89-194 | in seconds: what the controller was last told is the elevated cadence if and only if a crossing lies in that window, and the baseline one otherwise |
| DutyCycle.MessageExactly | edge-device/code_b_head_node/linux/prahari_hn/node.py:190-192 | and it is told at a cycle if and only if that changes |
| DutyCycle.RestartUnnoticed | edge-device/code_b_head_node/linux/prahari_hn/node.py:182-194 | saving and restoring between any two cycles leaves the rest of any run unchanged |
| MsgPackIo.Writer.PutNil | edge-device/code_b_head_node/mcu/src/mprpc.c:78-81 | appends the one octet of nil, or fails for lack of room |
| MsgPackIo.Writer.PutBool | edge-device/code_b_head_node/mcu/src/mprpc.c:83-86 | appends the one octet of the truth value, or fails for lack of room |
| MsgPackIo.Reader.GetNil | edge-device/code_b_head_node/mcu/src/mprpc.c:181-190 | consumes a nil exactly when one is next |
| MsgPackIo.Reader.GetBool | edge-device/code_b_head_node/mcu/src/mprpc.c:192-202 | reads a truth value exactly when one is next |
| MsgPackIo.Reader.Be | edge-device/code_b_head_node/mcu/src/mprpc.c:171-179 | a big-endian number of any width, octet by octet |
| BridgeContract.NotifyHeader | edge-device/code_b_head_node/mcu/src/bridge_contract.c:14-26 | the head every notification starts with |
| BridgeContract.EncodeStatusMap | edge-device/code_b_head_node/mcu/src/bridge_contract.c:28-36 | header and five entries, appended whole exactly when there is room |
| BridgeContract.DecodeAddrs | edge-device/code_b_head_node/mcu/src/bridge_contract.c:244-361 | the integers of the poll list, each cut to an octet |
| BridgeContract.DecodeNotificationParams | edge-device/code_b_head_node/mcu/src/bridge_contract.c:244-361 | the parameters of every notification by its method name; unknown names and malformed parameters are refused as specified |
| Rs485.Parser.constructor | edge-device/code_a_pod_firmware/app/src/rs485.c:31-35 | a parser between frames, its counters at zero |
| ZGate.Gate.constructor | edge-device/code_a_pod_firmware/app/src/zgate.c:5-9 | an empty window |
| Pps.PpsDisc.constructor | edge-device/code_b_head_node/mcu/src/pps.c:8-18 | unlocked, at the nominal period, with at least one pulse to lock |
| Power.PwrCtl.constructor | edge-device/code_a_pod_firmware/app/src/power.c:52-78 | every rail off, every periodic window due |
| Power.InitSafe | edge-device/code_a_pod_firmware/app/src/power.c:52-78 | a controller just initialised is safe |
| Sampler.Acquisition.constructor | edge-device/code_a_pod_firmware/app/src/sampler.c:11-20 | a frame with every entry masked |
| Alerts.AlertEngine.constructor | edge-device/code_b_head_node/linux/prahari_hn/alerts.py:56-58 | every head clear |
| Alerts.AlertEngine.ExportState | edge-device/code_b_head_node/linux/prahari_hn/alerts.py:61-62 | an entry for every head, with its level and streak; importing them gives any engine of these heads this state |
| Alerts.AlertEngine.ImportState | edge-device/code_b_head_node/linux/prahari_hn/alerts.py:64-67 | every head saved that the engine has gets the level and streak saved; the others stay, and nothing saved changes nothing |
| DutyCycle.DutyCycle.ExportState | edge-device/code_b_head_node/linux/prahari_hn/duty_cycle.py:41-42 | whatever the duty cycle that restores it was at, it then is where this one is |
| DutyCycle.DutyCycle.ImportState | edge-device/code_b_head_node/linux/prahari_hn/duty_cycle.py:44-46 | mode and streak as saved, if the code knows the mode; otherwise nothing changes |

## Left out

- Device drivers, interrupt handlers, the UART ring, devicetree tables and console output: device input and output.
- Octets that arrive while a poll is running: they count as arriving before or after it.
- Octets the UART ring drops when it overflows: the stream claims are about octets that arrive.
- BridgeMessages.DecodeInvertsEncode: strings are octets without embedded NUL, which C strings cannot hold.
- BridgeContract.BcDecode: what a failed decode leaves in the message is not stated; its callers do not look.
- BusMaster.SweepIsBounded: needs a tick at least every `slack` ms; without ticks no sweep ends.
- The statistics of the console: one branch each.
- Calib.CalibApply: inputs whose arithmetic leaves 64 bits have no defined value in C.
- Rs485.SlaveHandle: a report longer than a payload is answered as it is; the C frame has no room for it, and the encoder refuses the frame.
- `calib_find` and `pps_drift_ppm`: a linear search and a quotient.
- PpsTime.SteadyConversion: the true second is that of the pulses, a constant number of local microseconds apart.
- ZGate.Gate.Update: windows whose squares leave 64 bits have no defined value in C; the window is the default of twelve.
- Power.AlwaysSafe: the backend never fails to switch off, as the code ignores its answer.
- Power.PwrCtl.PwrTickDomain: event callbacks are recorded, not run; a callback that calls back into the controller is not modelled.
- Sampler.NothingLeftEnergisedNothingImputed: nobody else holds a per-read rail between the pod's calls, and a sleep moves the clock by at least 1 ms and less than 2^32 - 2^16 ms.
- Tdma.SyncedPodTransmits: pod and head clocks differ by a constant; drift within a superframe is part of the error.
- Tdma.NextMeshTx: only for a layout that fits; otherwise the code reads an uninitialised one.
- The hash that assigns mesh slots: the code does not keep two nodes from sharing one.
- `lora_time_on_air_ms`: a formula without a second description to hold it against.
- FlowAccumulation.TerrainFlow: elevations are reals without NaN, the cell size and what math.hypot(1, 1) returns are any positive numbers, quotients are not rounded, and counts are naturals.
- Slope, aspect, contributing area and channel distance: floating point.
- Alerts.AlertEngine.Decide: probabilities and thresholds are reals without NaN, present for every output, and the text of the CAP message is left out.
- DutyCycle.RunCycle: inference, storage, siren and uplink are left out.
- Neural inference, training, synthetic data, HTTP, SQLite, model hashing: libraries, or no exact claim.
