# Switch route manager: verified model

The repository is a switch route manager. A client watches kernel routes, mirrors them to a route server over
remote calls, and talks to a local daemon over a UNIX-domain socket through four nested protocols. This project
models that logic in Dafny and proves what the layers promise each other.

## What is modelled

- **The wire stack.** Byte stuffing and framing in the style of section 4.2 of RFC 1662, a 16-bit cyclic
  checksum, messages, checked exchange blocks, commands with fields, and the route and VRF payloads. Each
  encoder and decoder is a method written as the source writes it, proved equal to a function; the lemmas then
  relate the functions. Almost all are equivalences: bytes decode to a value if and only if the value encodes
  to those bytes. Modules `Bytes`, `Crc`, `CrcMachine`, `CrcErrors`, `UdProto`, `UdStream`, `UdErrors`,
  `UdAmbiguity`, `UdWire`, `RouteProto`, `CmdProto`, `RouteParams`, `RoutePayloads`, `RouteRequests`, `RouteList`,
  `RouteStatus`, `Handlers`.
- **The transfer loops.** The operating system is an arbitrary script of poll, send and receive answers, so a
  result for every script covers every way the kernel may split, delay or break a transfer. Modules `Net`,
  `VrfClient`. The main result is end to end: a request frame is understood through all layers exactly when
  the request is in range, however it is cut up on the way.
- **The route server and its watchers.** The table, its event log and the hand-off to a stream as a state
  machine over interleaved steps; and calls that change the table and notify in separate steps. Modules
  `RouteManager`, `WatchRoutes`, `NotifyOrder`.
- **The mirror.** The netlink callback run against the route server, with every pattern of lost requests and
  replies, and against the kernel's own routes. Modules `Mirror`, `MirrorKernel`.
- **The request processor.** Submitters, worker, takers and stoppers as interleaved steps, down to the worker's
  test and its sleep. Module `GrpcProc`.
- **Route messages to the kernel.** The in-place message builders against the readers, as bytes, single
  messages and whole dumps, nexthop lists included. Modules `Netlink`, `Routing`.
- **The nexthop index and the one's-complement checksum** (section 1 of RFC 1071). Modules `VrfTable`,
  `Checksum`.

Bytes and machine words are bounded naturals and every narrowing cast is written out. A function named with a
past participle (`Stuffed`, `DecodedPacket`) is the specification of the method named with the verb.

What such a function computes is also stated without it: lemmas named `Layout` or `Bytes` spell an encoding byte by
byte, `Refused` and the contracts of the decoders say which input is refused with which error, `AddsUp` and `Grows`
say what one more element contributes, and the methods of the stateful classes promise each field's new value.

## Where code and documentation disagree

The model follows the code.

- unix_domain/lib/ud_proto.hpp:123-131 calls the checksum CRC-16/IBM with reflection. The code shifts right but
  applies the unreflected constant 0x8005; `CrcMachine.NotTheCatalogueValue` has an input on which the two
  differ. The properties proved here are those of the code's own step.
- unix_domain/lib/cmd_proto.hpp:547 promises a check that a route-add payload has 5 + 5 N bytes for some N. The
  decoder has no such check, the layout is another one, and trailing bytes are ignored.
  `RouteRequests.InterfacesCodec` states what is accepted.
- unix_domain/lib/route_proto.hpp:120 calls the first exchange field the number of commands; the encoder
  ignores the given number and writes the byte count, which is what the decoder checks.
- client/include/client/grpc_proc.hpp:353 says that stopping abandons pending requests; the worker drains them.
  `GrpcProc.ExitAfterDraining` states it.

## What fails, and exactly when

Each of these has a lemma with an input and a lemma with the exact condition.

- A burst across the edge of the checksum field: 8 bits are always noticed, 9 not (`CrcErrors.NineBitExample`,
  `CrcErrors.SealedAfterError`).
- The decoder accepts bare delimiters (`UdErrors.BareDelimiterExample`, `UdProto.FrameCanonical`).
- One flipped bit on the wire can turn a frame into another valid one, first at 1932670 bytes
  (`UdAmbiguity.UnsafeExample`, `UdErrors.OneFlippedBit`).
- A watcher misses what happens between the initial listing and its registration
  (`WatchRoutes.AdditionInGapMissed`, `WatchRoutes.ListingWatcherReconstructs`).
- The mirror leaves server routes behind (`Mirror.OrphanExample`, `Mirror.ExactMirror`). With two kernel routes
  under one key all may still be well (`MirrorKernel.SharedButServed`), until a route is taken back of which
  such a forgotten copy is left (`MirrorKernel.SharedKeyExample`, `MirrorKernel.RunServes`).
- Notifications are made outside the table's lock, so an observer may learn of a removal before the addition and
  keep the route (`NotifyOrder.OvertakenExample`, `NotifyOrder.OrderMatters`).
- Stopping the request processor can hang, because the flag is cleared and the notification sent without the
  lock (`GrpcProc.HangExample`, `GrpcProc.HangsWhenMissed`).
- The one's-complement checksum is wrong on very long buffers (`Checksum.WrapExample`,
  `Checksum.ChecksumCongruent`). The program never meets this: the only caller, client/src/main.cpp:2536, passes
  a header of 8 bytes, which `Checksum.NoWrap` covers.

## Model

| member | source | states |
|---|---|---|
| `Crc.FeedByte` | unix_domain/lib/ud_proto.cpp:117-128 | The inner bit loop is eight shifts of the register after the byte is mixed in |
| `Crc.ComputeCrc16` | unix_domain/lib/ud_proto.cpp:112-132 | The nested loops compute the register model that all properties below are about |
| `Crc.ShiftInjective` | unix_domain/lib/ud_proto.cpp:119-126 | The shift step loses nothing: bit 15 of the result reveals the dropped bit |
| `Crc.ShiftLinear` | unix_domain/lib/ud_proto.cpp:119-126 | The shift step distributes over exclusive or |
| `Crc.ShiftKeepsParity` | unix_domain/lib/ud_proto.cpp:119-126 | The shift step keeps the parity of the register |
| `Crc.FeedIsSerial` | unix_domain/lib/ud_proto.cpp:112-132 | Bytewise feeding is the bit-serial machine on the least-significant-first bit stream |
| `Crc.SerialLinear` | unix_domain/lib/ud_proto.cpp:112-132 | The whole machine is linear over exclusive or, in register and message together |
| `Crc.SerialInjective` | unix_domain/lib/ud_proto.cpp:112-132 | For a fixed message the final register is equal if and only if the initial one is |
| `Crc.DetectionDependsOnErrorOnly` | unix_domain/lib/ud_proto.cpp:112-132 | Whether two messages of equal length collide depends only on their difference |
| `Crc.BlockDetected` | unix_domain/lib/ud_proto.cpp:112-132 | From one register, two different blocks of at most 16 bits never lead to the same register |
| `Crc.BurstDetected` | unix_domain/lib/ud_proto.cpp:112-132 | Messages that differ only inside one window of 16 bits have equal checksums if and only if they are equal |
| `Crc.SerialParity` | unix_domain/lib/ud_proto.cpp:112-132 | Parity of the final register is the parity of the initial one and the message together |
| `Crc.ChecksumParity` | unix_domain/lib/ud_proto.cpp:112-132 | The appended checksum has the parity of the data |
| `Crc.SealedSplit` | unix_domain/lib/ud_proto.cpp:404-411 | Splitting off and checking the last two bytes accepts exactly data followed by its checksum |
| `Crc.OddErrorsDetected` | unix_domain/lib/ud_proto.cpp:404-411 | Any odd number of bit flips anywhere, checksum included, breaks a valid payload |
| `Crc.SealedBurstDetected` | unix_domain/lib/ud_proto.cpp:404-411 | A burst of up to 16 bits before an intact checksum breaks a valid payload |
| `CrcMachine.MachineRefines` | unix_domain/lib/ud_proto.cpp:112-132 | The checksum computed on 16-bit machine words, as the source does, is that of the bit model for every input |
| `CrcMachine.NotTheCatalogueValue` | unix_domain/lib/ud_proto.cpp:112-132 | On the message 01 the code gives 9705 and the reflected catalogue polynomial C0C1 |
| `CrcErrors.SealedAfterError` | unix_domain/lib/ud_proto.cpp:404-411 | Any corruption of a sealed block, checksum included, passes if and only if the register of the body's flipped bits is the flipped bits of the field |
| `CrcErrors.TopBitsReveal` | unix_domain/lib/ud_proto.cpp:119-126 | If the top k bits of a register are clear after k shifts, nothing fell out and the register only moved down |
| `CrcErrors.ShortBurstDetected` | unix_domain/lib/ud_proto.cpp:404-411 | A burst of at most 8 bits anywhere, across the edge of the checksum included, passes only if nothing changed |
| `CrcErrors.NineBitsUnnoticed` | unix_domain/lib/ud_proto.cpp:404-411 | One burst of 9 bits across the edge passes in every sealed block, so 8 is the best bound |
| `CrcErrors.NineBitPartner` | unix_domain/lib/ud_proto.cpp:404-411 | Every block with a body has that burst |
| `CrcErrors.NineBitExample` | unix_domain/lib/ud_proto.cpp:404-411 | The shortest input with that burst |
| `UdProto.Stuff` | unix_domain/lib/ud_proto.cpp:190-212 | The append loop produces the stuffed form of every byte string |
| `UdProto.Destuff` | unix_domain/lib/ud_proto.cpp:224-262 | The loop with the escape flag equals unstuffing by one byte of lookahead, errors included |
| `UdProto.StuffedDelimFree` | unix_domain/lib/ud_proto.cpp:190-212 | Stuffed data never contains the delimiter |
| `UdProto.DestuffedStuffed` | unix_domain/lib/ud_proto.cpp:224-262 | Unstuffing undoes stuffing on every byte string |
| `UdProto.StuffedDestuffed` | unix_domain/lib/ud_proto.cpp:224-262 | Stuffing undoes a successful unstuffing exactly when the input had no bare delimiter, which the loop accepts |
| `UdProto.StuffingTable` | unix_domain/lib/ud_proto.cpp:190-212 | Appending 7E, 7D or any other byte appends 7D 5E, 7D 5D or that byte to the stuffed form |
| `UdProto.DestuffRefuses` | unix_domain/lib/ud_proto.cpp:224-262 | Unstuffing fails with an invalid frame if and only if, behind complete stuffed data, an escape byte ends the input or is followed by anything but 5E and 5D |
| `UdProto.BuildRequestPayload` | unix_domain/lib/ud_proto.cpp:277-295 | Header, data and checksum in their documented order |
| `UdProto.PayloadFields` | unix_domain/lib/ud_proto.cpp:384-421 | A byte string is the payload of some fields if and only if it is long enough, its header reads as them and its checksum holds |
| `UdProto.Frame` | unix_domain/lib/ud_proto.cpp:298-307 | Stuffed payload between two delimiters |
| `UdProto.EncodePacket` | unix_domain/lib/ud_proto.cpp:316-340 | The encoder, including its trust in a non-zero caller length |
| `UdProto.PacketLayout` | unix_domain/lib/ud_proto.cpp:277-340 | Every byte of an encoded packet: the four fields highest byte first, data, checksum, stuffing, delimiters 7E; a length of zero filled in |
| `UdProto.EncodeResponse` | unix_domain/lib/ud_proto.cpp:343-369 | The response frame is the packet frame with the same fields and the status as its only data byte |
| `UdProto.ExtractPayload` | unix_domain/lib/ud_proto.cpp:384-421 | A missing delimiter or a bad escape is an invalid frame, and everything else is judged by the payload checks |
| `UdProto.CheckPayload` | unix_domain/lib/ud_proto.cpp:398-420 | Fewer than 12 bytes, then a checksum that does not match, then a length field that is not the size: which error each gives, and success otherwise |
| `UdProto.DecodePacket` | unix_domain/lib/ud_proto.cpp:430-463 | Decoding as a function of the frame, with its errors |
| `UdProto.DecodeResponse` | unix_domain/lib/ud_proto.cpp:466-504 | Decoding as a function of the frame, with its errors |
| `UdProto.PacketRoundTrip` | unix_domain/lib/ud_proto.cpp:316-463 | Decode after encode returns the packet with its length filled in exactly when the given length was zero or right, otherwise a length error |
| `UdProto.ResponseIsPacket` | unix_domain/lib/ud_proto.cpp:466-504 | The response decoder accepts exactly packets with one data byte |
| `UdProto.ResponseRoundTrip` | unix_domain/lib/ud_proto.cpp:343-504 | The same round trip for responses |
| `UdProto.FrameCanonical` | unix_domain/lib/ud_proto.cpp:430-463 | A decodable frame re-encodes to the identical bytes if and only if it is what the scanner returns: delimiters at the ends only |
| `UdProto.ResponseCanonical` | unix_domain/lib/ud_proto.cpp:466-504 | The same for responses |
| `UdProto.OddCorruptionRejected` | unix_domain/lib/ud_proto.cpp:404-411 | An odd number of bit errors in a valid payload always yields a checksum error |
| `UdProto.BurstCorruptionRejected` | unix_domain/lib/ud_proto.cpp:404-411 | A burst of up to 16 bits in header and data, checksum intact, always yields a checksum error |
| `UdErrors.CorruptionJudged` | unix_domain/lib/ud_proto.cpp:384-421 | For any corruption of an accepted payload that keeps its size, which error is reported or that it is accepted |
| `UdErrors.ShortBurstRejected` | unix_domain/lib/ud_proto.cpp:404-411 | A burst of at most 8 bits anywhere in a valid payload always yields a checksum error |
| `UdErrors.NineBitsAccepted` | unix_domain/lib/ud_proto.cpp:404-411 | Every accepted payload has a 9-bit burst after which it is accepted as something else |
| `UdErrors.BareDelimitersAccepted` | unix_domain/lib/ud_proto.cpp:252-255 | Every accepted payload decodes with its delimiters left bare as well, and that frame is canonical if and only if it has none |
| `UdErrors.BareDelimiterExample` | unix_domain/lib/ud_proto.cpp:252-255 | A frame that decodes and is not what the encoder emits |
| `UdErrors.MisreadRight` | unix_domain/lib/ud_proto.cpp:224-262 | What unstuffing makes of one flipped bit: a changed byte, an escape forged, lost or spoiled |
| `UdErrors.LengthsAgree` | unix_domain/lib/ud_proto.cpp:413-420 | Reading two bytes as an escape, or an escape as two bytes, keeps the length field right in one case only |
| `UdErrors.OneFlippedBit` | unix_domain/lib/ud_proto.cpp:384-421 | One flipped bit anywhere in the stuffed form of a valid payload is rejected, but for one position and one condition on the length bytes |
| `UdAmbiguity.AmbiguousLengths` | unix_domain/lib/ud_proto.cpp:112-132 | Below 16 MiB that condition holds for four values of the length's middle bytes and no other |
| `UdAmbiguity.OneFlippedBitBySize` | unix_domain/lib/ud_proto.cpp:384-421 | Below 16 MiB one flipped bit passes if and only if the packet has one of eight sizes and the flip strikes the low length byte as said |
| `UdAmbiguity.SmallPacketsSafe` | unix_domain/lib/ud_proto.cpp:384-421 | Every one-bit error in a packet of fewer than 1932670 bytes is rejected |
| `UdAmbiguity.FirstUnsafeSize` | unix_domain/lib/ud_proto.cpp:384-421 | In every packet of exactly that size there is a one-bit error that is accepted |
| `UdAmbiguity.UnsafeExample` | unix_domain/lib/ud_proto.cpp:384-421 | There are two valid payloads whose frames are one bit apart |
| `UdWire.FramesAfterFlip` | unix_domain/lib/ud_proto.cpp:511-547 | The frames found after one flip: none if an end is struck, the cut frame if a delimiter is forged, otherwise the frame itself |
| `UdWire.OneFlippedFrameBit` | unix_domain/lib/ud_proto.cpp:384-547 | Of the frames found after one flipped bit anywhere, delimiters included, none is accepted, but for the one flip that the decoder alone lets through |
| `UdStream.FindFrame` | unix_domain/lib/ud_proto.cpp:511-547 | The cursor loops find the first delimited span |
| `UdStream.FoundFrame` | unix_domain/lib/ud_proto.cpp:511-547 | The span found is delimited, has no delimiter before it, and nothing is found only with fewer than two delimiters present |
| `UdStream.FoundFrameStable` | unix_domain/lib/ud_proto.cpp:511-547 | A found frame stays the same whatever arrives later |
| `UdStream.FoundAfterNoise` | unix_domain/lib/ud_proto.cpp:511-547 | A delimited frame behind delimiter-free noise is found exactly |
| `UdStream.FramesSplit` | unix_domain/lib/ud_proto.cpp:511-547 | Repeated scanning splits at any point before which the number of delimiters is even |
| `UdStream.EncodedDelimited` | unix_domain/lib/ud_proto.cpp:316-340 | An encoded packet has delimiters at its two ends and nowhere else |
| `UdStream.Resynchronises` | unix_domain/lib/ud_proto.cpp:511-547 | Repeated scanning of packets between arbitrary delimiter-free noise yields exactly those packets in order |
| `UdStream.StrayDelimiters` | unix_domain/lib/ud_proto.cpp:511-547 | After arbitrary bytes a packet is found if the delimiters before it are even in number; otherwise its ends belong to two bogus frames |
| `RouteProto.EncodeMessage` | unix_domain/lib/route_proto.cpp:282-302 | Type code 01, 02, 10, 11 or FF, flags, identifier highest byte first, payload |
| `RouteProto.DecodeMessage` | unix_domain/lib/route_proto.cpp:310-346 | Fewer than four bytes and any other type code are refused with their errors, all else is accepted |
| `RouteProto.MessageCodec` | unix_domain/lib/route_proto.cpp:282-346 | Bytes decode to a message if and only if they are its encoding |
| `RouteProto.EncodeExchange` | unix_domain/lib/route_proto.cpp:354-379 | Byte count, total size and checksum, each cut to 16 bits and highest byte first, around the commands; the given command count is ignored |
| `RouteProto.DecodeExchange` | unix_domain/lib/route_proto.cpp:383-424 | Size, length field, checksum and count are checked in this order, each with its error, and the fields are returned otherwise |
| `RouteProto.ExchangeCodec` | unix_domain/lib/route_proto.cpp:354-424 | A block decodes to given data if and only if it is its encoding, the count is the byte count and everything fits the length field |
| `RouteProto.ExchangeRoundTrip` | unix_domain/lib/route_proto.cpp:354-424 | The round trip holds up to 65529 command bytes; beyond that the decoder always reports a length mismatch |
| `RouteProto.OddExchangeRejected` | unix_domain/lib/route_proto.cpp:383-424 | An odd number of bit errors in an accepted block is always rejected |
| `RouteProto.BurstExchangeRejected` | unix_domain/lib/route_proto.cpp:383-424 | A burst of up to 16 bits before an intact checksum is always rejected |
| `RouteProto.ExchangeCorruptionJudged` | unix_domain/lib/route_proto.cpp:383-424 | Any corruption of an accepted block, checksum included, is accepted if and only if it leaves the header alone and meets the checksum's condition |
| `RouteProto.ShortBurstExchangeRejected` | unix_domain/lib/route_proto.cpp:383-424 | A burst of at most 8 bits anywhere is rejected |
| `RouteProto.NineBitsExchangeAccepted` | unix_domain/lib/route_proto.cpp:383-424 | Every block with commands has a 9-bit burst after which it is accepted |
| `CmdProto.EncodeCommand` | unix_domain/lib/cmd_proto.cpp:229-295 | Code 1, 2 or 3, the size cut to 16 bits, and the raw payload or else the fields |
| `CmdProto.FieldLayout` | unix_domain/lib/cmd_proto.cpp:263-292 | Each field is written as its identifier, the low byte of its length and its data, one after the other |
| `CmdProto.ParseFields` | unix_domain/lib/cmd_proto.cpp:340-370 | The cursor loop collects all complete fields and stops at the first truncated one |
| `CmdProto.DecodeCommand` | unix_domain/lib/cmd_proto.cpp:299-379 | A short header, an unknown code and a payload that is cut off are refused with their errors; otherwise the payload is the announced bytes and the fields are those found in it |
| `CmdProto.BestEffort` | unix_domain/lib/cmd_proto.cpp:340-370 | For any payload whatever, the parsed fields re-serialise to a prefix of it and what is left is a truncated entry |
| `CmdProto.ParsedSerialized` | unix_domain/lib/cmd_proto.cpp:340-370 | Small fields followed by a truncated entry parse back to exactly those fields and that remainder |
| `CmdProto.FieldsRoundTrip` | unix_domain/lib/cmd_proto.cpp:340-370 | Fields survive serialisation if and only if each has at most 255 bytes |
| `CmdProto.CommandRoundTrip` | unix_domain/lib/cmd_proto.cpp:229-379 | Encoding then decoding, with anything behind, gives the command as received if and only if its payload fits 16 bits |
| `CmdProto.CommandCanonical` | unix_domain/lib/cmd_proto.cpp:229-379 | A decoded command re-encodes to exactly the bytes it was decoded from |
| `CmdProto.DecodeCommands` | unix_domain/lib/cmd_proto.cpp:383-407 | The loop decodes commands until the input is used up or one fails |
| `CmdProto.CommandsRoundTrip` | unix_domain/lib/cmd_proto.cpp:383-407 | The concatenation of any in-bounds commands decodes to those commands in order |
| `CmdProto.CommandsRefused` | unix_domain/lib/cmd_proto.cpp:383-407 | A part that is refused behind any acceptable commands refuses the whole sequence with its own error |
| `CmdProto.CommandsCanonical` | unix_domain/lib/cmd_proto.cpp:383-407 | Whatever decodes re-encodes and concatenates to the input |
| `CmdProto.CommandsCodec` | unix_domain/lib/cmd_proto.cpp:383-407 | Bytes decode to a list if and only if the list is canonical and its encoding is those bytes |
| `RouteParams.FindField` | unix_domain/lib/cmd_proto.cpp:175-183 | The search loop returns the first field of that identifier |
| `RouteParams.FoundField` | unix_domain/lib/cmd_proto.cpp:175-183 | A result is the data of some field of that identifier, and none is reported only if there is none |
| `RouteParams.ParseRouteAdd` | unix_domain/lib/cmd_proto.cpp:517-565 | The five look-ups by identifier 1 to 5 in order: what each missing or misshapen field reports, and the parameters otherwise |
| `RouteParams.ParseRouteDel` | unix_domain/lib/cmd_proto.cpp:569-600 | The same for deletion, where a missing gateway is 0.0.0.0 |
| `RouteParams.FieldAt` | unix_domain/lib/cmd_proto.cpp:175-183 | The first field with an identifier is the one that a look-up finds |
| `RouteParams.MadeRouteAdd` | unix_domain/lib/cmd_proto.cpp:414-463 | Parsing a made command gives its parameters exactly when prefix length and name are in range, else an invalid field |
| `RouteParams.MadeRouteDel` | unix_domain/lib/cmd_proto.cpp:466-500 | Parsing a made command gives its parameters exactly when the prefix length is in range |
| `RouteParams.RouteAddLayout` | unix_domain/lib/cmd_proto.cpp:414-463 | Every byte of an encoded addition: code, size, the fields 1 to 4 in order, and field 5 unless the metric is zero |
| `RouteParams.RouteDelLayout` | unix_domain/lib/cmd_proto.cpp:466-500 | Every byte of an encoded deletion, with and without a gateway |
| `RouteParams.RouteAddRoundTrip` | unix_domain/lib/cmd_proto.cpp:414-565 | Make, encode, decode, parse returns the parameters, omitted metric and gateway included, if and only if the prefix length is at most 32 and the name has 1 to 255 bytes |
| `RouteParams.RouteDelRoundTrip` | unix_domain/lib/cmd_proto.cpp:466-600 | The same for deletion, for all parameters |
| `RoutePayloads.AppendPrefixes` | unix_domain/lib/cmd_proto.cpp:1116-1130 | The loop appends five bytes a prefix or stops at a mask beyond 32 |
| `RoutePayloads.DecodePrefixes` | unix_domain/lib/cmd_proto.cpp:1205-1227 | The counted loop reads prefixes and fails with an invalid field if and only if some mask byte exceeds 32 |
| `RoutePayloads.PrefixesCodec` | unix_domain/lib/cmd_proto.cpp:1116-1227 | Bytes decode to given prefixes if and only if they are valid and their encoding is a prefix of the bytes |
| `RoutePayloads.PrefixLayout` | unix_domain/lib/cmd_proto.cpp:1116-1130 | Each prefix is four address bytes and one mask byte, in order |
| `RoutePayloads.AppendInterface` | unix_domain/lib/cmd_proto.cpp:813-841 | One interface with its counted prefixes, or the range error |
| `RoutePayloads.DecodeInterface` | unix_domain/lib/cmd_proto.cpp:863-915 | One interface and the position behind it; missing prefix bytes are an invalid command, a mask beyond 32 is an invalid field |
| `RoutePayloads.InterfaceCodec` | unix_domain/lib/cmd_proto.cpp:813-915 | Bytes decode to an interface if and only if it is encodable and its encoding is a prefix of the bytes |
| `RoutePayloads.InterfaceLayout` | unix_domain/lib/cmd_proto.cpp:813-841 | Every byte of an interface entry: name, next hop, identifier and prefix count highest byte first, prefixes |
| `RouteRequests.EncodeVrfs` | unix_domain/lib/cmd_proto.cpp:1076-1137 | Kind 1 and the entries, or an invalid field if and only if some entry has more than 65535 prefixes or a mask beyond 32 |
| `RouteRequests.VrfLayout` | unix_domain/lib/cmd_proto.cpp:1076-1137 | Each entry is the VRF name and then what an interface entry has; entries follow in order |
| `RouteRequests.DecodeVrf` | unix_domain/lib/cmd_proto.cpp:1158-1238 | One VRF entry at a position; fewer than 58 bytes or missing prefixes are an invalid command, all other failures an invalid field |
| `RouteRequests.DecodeVrfs` | unix_domain/lib/cmd_proto.cpp:1141-1244 | Another kind than 1 is an invalid command; the nested loops decode entries until the input is used up |
| `RouteRequests.EntriesRefused` | unix_domain/lib/cmd_proto.cpp:1141-1244 | An entry that is refused behind any good ones refuses the request with its own error |
| `RouteRequests.VrfsCodec` | unix_domain/lib/cmd_proto.cpp:1076-1244 | Bytes decode to a VRF list if and only if the encoder produces those bytes from it |
| `RouteRequests.EncodeInterfaces` | unix_domain/lib/cmd_proto.cpp:799-844 | Kind 2, the count in two bytes and the entries, or an invalid field if and only if a count or a mask is out of range |
| `RouteRequests.InterfacesInOrder` | unix_domain/lib/cmd_proto.cpp:799-844 | Entries follow each other in order |
| `RouteRequests.DecodeInterfaces` | unix_domain/lib/cmd_proto.cpp:848-922 | Another kind than 2 is an invalid command; the counted loop ignores bytes behind the last entry |
| `RouteRequests.CountedRefused` | unix_domain/lib/cmd_proto.cpp:848-922 | An entry that is refused behind any good ones refuses the request with its own error |
| `RouteRequests.InterfacesCodec` | unix_domain/lib/cmd_proto.cpp:799-922 | Bytes decode to an interface list if and only if the list is encodable and its encoding is a prefix of the bytes |
| `RouteList.EncodeRouteList` | unix_domain/lib/cmd_proto.cpp:608-625 | The listing encoder with its truncated name length |
| `RouteList.EntryLayout` | unix_domain/lib/cmd_proto.cpp:608-625 | Every byte of an entry: destination, prefix length, gateway, metric highest byte first, the low byte of the name length, name |
| `RouteList.DecodeRouteList` | unix_domain/lib/cmd_proto.cpp:629-679 | The cursor loop with its truncation errors |
| `RouteList.RoutesRefused` | unix_domain/lib/cmd_proto.cpp:629-679 | A cut-off entry behind any good ones refuses the listing |
| `RouteList.RouteListCodec` | unix_domain/lib/cmd_proto.cpp:608-679 | Bytes decode to a listing if and only if they are its encoding and all names have at most 255 bytes |
| `RouteStatus.EncodeBinaryResponse` | unix_domain/lib/cmd_proto.cpp:926-962 | The packing loops over bytes and bits |
| `RouteStatus.OctetLayout` | unix_domain/lib/cmd_proto.cpp:926-962 | Eight flags in one byte: the first weighs 1, the last 128 |
| `RouteStatus.PackedInOrder` | unix_domain/lib/cmd_proto.cpp:926-962 | Octets follow in order, and the flags missing in the last one count as false |
| `RouteStatus.DecodeBinaryResponse` | unix_domain/lib/cmd_proto.cpp:966-980 | An empty input is refused; otherwise the first byte is the status and every other byte gives eight flags by shifting and masking |
| `RouteStatus.Unpacked` | unix_domain/lib/cmd_proto.cpp:926-980 | Unpacking packed statuses gives the statuses followed by false padding only |
| `RouteStatus.Repacked` | unix_domain/lib/cmd_proto.cpp:926-980 | Packing unpacked bytes gives the bytes |
| `RouteStatus.BinaryResponseCodec` | unix_domain/lib/cmd_proto.cpp:926-980 | Size 1 + ceil(N/8), decode after encode up to padding, and encode after decode exact on every non-empty input |
| `RouteStatus.EncodeVrfsResponse` | unix_domain/lib/cmd_proto.cpp:1248-1267 | The per-VRF answers behind the overall status |
| `RouteStatus.AnswerLayout` | unix_domain/lib/cmd_proto.cpp:1248-1267 | Each answer is a 16-byte name and a byte 0 or 1, in order |
| `RouteStatus.DecodeVrfsResponse` | unix_domain/lib/cmd_proto.cpp:1271-1297 | Accepted if and only if the size is one more than a multiple of 17; the status is the first byte, and the k-th answer is read at 1 + 17 k, only bit 0 of its last byte counting |
| `RouteStatus.VrfsResponseCodec` | unix_domain/lib/cmd_proto.cpp:1248-1297 | Decode after encode is the identity; a decodable input re-encodes to itself exactly when its status bytes are 0 or 1 |
| `Handlers.InstallPrefixes` | unix_domain/lib/cmd_proto.cpp:1008-1040 | Earlier attempts are kept and one is added for each prefix, in order: to its address and mask by way of the next hop and interface of the entry; each status bit is that attempt's answer |
| `Handlers.HandleInterfaces` | unix_domain/lib/cmd_proto.cpp:984-1054 | The attempt for prefix j of entry k stands at the sum of the earlier counts plus j, with that prefix and next hop, whatever fails; overall status 0 exactly when all succeeded |
| `Handlers.HandleVrfs` | unix_domain/lib/cmd_proto.cpp:1301-1369 | The same placing of attempts, one answer for each VRF under its name, true exactly when its own attempts succeeded, and the overall status |
| `Handlers.VrfStatusIsConjunction` | unix_domain/lib/cmd_proto.cpp:1301-1369 | The overall VRF status is 0 exactly when every single kernel call succeeded |
| `Net.Socket.SendData` | unix_domain/lib/net.cpp:350-366 | One call accepts a prefix of the data, which is what reaches the wire |
| `Net.Socket.RecvData` | unix_domain/lib/net.cpp:377-404 | One call takes at most the room offered from what is waiting; an empty read is a closed connection |
| `Net.SendAll` | unix_domain/lib/net.cpp:413-431 | It succeeds exactly when the leading partial writes sum up to the size; the wire gains what they sum up to, and a failure is that of the first call that takes nothing |
| `Net.CapacityAddsUp` | unix_domain/lib/net.cpp:413-431 | What can be sent is the sum of the writes up to the first call that is none, and that call is the failure |
| `Net.RecvExact` | unix_domain/lib/net.cpp:441-455 | It succeeds exactly when n bytes arrive, returns the first n however they are cut, and takes no byte more |
| `Net.WaitingAddsUp` | unix_domain/lib/net.cpp:441-455 | What waits is the chunks in order up to the first call that delivers none |
| `VrfClient.NbSendAll` | client/src/vrf_udp_client.cpp:58-82 | The same with a ready poll before every call and blocked calls retried |
| `VrfClient.NbCapacityAddsUp` | client/src/vrf_udp_client.cpp:58-82 | What each poll with the call behind it contributes, and which failure ends the transfer |
| `VrfClient.PollsLeft` | client/src/vrf_udp_client.cpp:58-82 | A transfer that succeeds leaves the polls behind the first ones whose calls take all bytes |
| `VrfClient.NbRecvFrame` | client/src/vrf_udp_client.cpp:92-124 | The frame received is the first frame of all incoming bytes, else the fatal error |
| `VrfClient.IncomingAddsUp` | client/src/vrf_udp_client.cpp:92-124 | What each poll with the read behind it contributes to the incoming bytes, and which failure ends them |
| `VrfClient.ScheduleIndependence` | client/src/vrf_udp_client.cpp:92-124 | Once a stream holds a frame, every partition into reads, with any retries and anything behind, yields that frame |
| `VrfClient.BuildRequest` | client/src/vrf_udp_client.cpp:264-313 | The four-layer pipeline produces the request frame |
| `VrfClient.RequestHeaders` | client/src/vrf_udp_client.cpp:264-313 | What the packet and message headers of any request say, the identifier in both |
| `VrfClient.RequestBytes` | client/src/vrf_udp_client.cpp:264-313 | Every byte of a request frame through all layers: request kind 1, command 1, block, message 10, packet 1 of 1, with sizes and both checksums |
| `VrfClient.RequestUnderstood` | client/src/vrf_udp_client.cpp:264-313 | Decoding through packet, message, exchange, command and VRF request returns the request and message identifier if and only if masks and sizes are in range and the payload has at most 65526 bytes |
| `VrfClient.DeliveredRequest` | client/src/vrf_udp_client.cpp:92-124 | The same end to end over the wire, for every way the bytes are cut, delayed or followed by more |
| `VrfClient.EndToEnd` | client/src/vrf_udp_client.cpp:58-124 | From partial sends to the understood request: the far end finds a frame exactly when the sender could send all of it, and makes the original request of it exactly when that was in range |
| `VrfClient.DecodeReply` | client/src/vrf_udp_client.cpp:374-421 | The reply decoding pipeline, with nothing in place of a malformed reply |
| `VrfClient.ReplyUnderstood` | client/src/vrf_udp_client.cpp:374-421 | A reply in the documented layout delivers its acknowledgement and response |
| `VrfClient.ReplyDelivered` | client/src/vrf_udp_client.cpp:320-451 | If the whole request is taken and a reply in that layout comes behind noise, however cut, the outcome is its acknowledgement and response |
| `VrfClient.Client.ProcessRequest` | client/src/vrf_udp_client.cpp:239-451 | The identifier grows by one modulo 65536 and is used up even if the socket cannot be set up; the wire gains the part of the frame there is room for; a reply is returned only as carried by a received frame, and the outcome is what the scripts determine |
| `VrfClient.OutcomeExplained` | client/src/vrf_udp_client.cpp:320-451 | Each outcome if and only if: the send fails, no frame comes, the frame carries exactly this acknowledgement and response, or it carries none |
| `RouteManager.Manager.AddRoute` | server/src/route_manager.cpp:54-101 | Each field of the new route, stored unless the identifier is taken, and the addition of that route behind every observer log; logs that reproduce the table go on doing so if the identifier is fresh |
| `RouteManager.Manager.RemoveRoute` | server/src/route_manager.cpp:104-128 | Only that identifier disappears, every observer log gains the removal of the stored route, and nothing happens if there is none |
| `RouteManager.Manager.GetRoute` | server/src/route_manager.cpp:131-140 | The stored route or not found |
| `RouteManager.Manager.ListRoutes` | server/src/route_manager.cpp:143-182 | The stored routes that match family, protocol and activity as written out, by metric and then identifier |
| `RouteManager.Manager.RegisterObserver` | server/src/route_manager.cpp:188-194 | A new handle with an empty log, based on the table of now |
| `RouteManager.Manager.UnregisterObserver` | server/src/route_manager.cpp:196-200 | Only that handle disappears |
| `RouteManager.Manager.Notify` | server/src/route_manager.cpp:202-218 | Every registered observer receives the event once, in whatever order they are visited |
| `RouteManager.Sort` | server/src/route_manager.cpp:172-179 | Sorted by metric, then identifier, with the same members |
| `RouteManager.LexLessMeans` | server/src/route_manager.cpp:172-179 | One identifier is less than another if and only if at their first difference it ends or has the smaller character |
| `RouteManager.SortedUnique` | server/src/route_manager.cpp:172-179 | Two sorted lists with the same members are equal, so any correct sort agrees with this one |
| `RouteManager.ListingUnique` | server/src/route_manager.cpp:143-182 | The listing is a function of table and request, independent of hash order |
| `RouteManager.ReplayStep` | server/src/route_manager.cpp:54-128 | One call's events turn the old table into the new one if and only if the identifier was fresh |
| `RouteManager.ReplayRun` | server/src/route_manager.cpp:54-128 | Over any run with fresh identifiers, replaying all events onto the starting table gives the final one |
| `RouteManager.FamilyReplayRun` | server/src/service_impl.cpp:268-273 | The same for the events and table of one address family |
| `NotifyOrder.StepKeepsInv` | server/src/route_manager.cpp:80-125 | With the table changed inside the lock and the observer called outside of it, each step keeps the table equal to the replay of all changes made |
| `NotifyOrder.OrderMatters` | server/src/route_manager.cpp:80-125 | In every interleaving, once all notifications are in, an observer's replay gives the table if and only if no removal was notified before the addition of its identifier |
| `NotifyOrder.OvertakenExample` | server/src/route_manager.cpp:80-125 | Two calls after which the observer keeps a route that the table does not have |
| `WatchRoutes.Stream.constructor` | server/src/service_impl.cpp:220-239 | The initial listing of the server object is written as additions, and replayed onto nothing it is the watched part of the table |
| `WatchRoutes.Stream.OnEvent` | server/src/service_impl.cpp:247-252 | The event is appended to what is pending, and nothing else changes |
| `WatchRoutes.Stream.SwapBatch` | server/src/service_impl.cpp:257-264 | The batch becomes what was pending, and nothing is pending |
| `WatchRoutes.Stream.WriteNext` | server/src/service_impl.cpp:266-282 | The front event leaves the batch and is written exactly if the family filter lets it through |
| `WatchRoutes.StepAccounts` | server/src/service_impl.cpp:247-282 | Each step keeps written plus filtered batch plus filtered pending equal to what was notified |
| `WatchRoutes.RunAccounts` | server/src/service_impl.cpp:247-282 | In every interleaving nothing is lost, duplicated or reordered |
| `WatchRoutes.DrainEmpties` | server/src/service_impl.cpp:257-282 | From every state, writing the batch, one swap and writing what was pending leaves nothing and writes exactly the wanted events of both |
| `WatchRoutes.EveryRunDrains` | server/src/service_impl.cpp:247-282 | Every run from an empty stream extends to one with the same notifications in which exactly the wanted ones have been written, in order |
| `WatchRoutes.DrainedWatcherReconstructs` | server/src/service_impl.cpp:247-282 | A drained stream replayed onto the table at registration gives the current table of the family |
| `WatchRoutes.ListingReplays` | server/src/service_impl.cpp:220-239 | A sorted listing read as additions reproduces the watched part of the table it lists |
| `WatchRoutes.ReplayForgets` | server/src/service_impl.cpp:220-282 | A replay makes two tables equal if and only if every identifier on which they differ occurs in it |
| `WatchRoutes.ListingWatcherReconstructs` | server/src/service_impl.cpp:220-282 | With an initial listing, calls in the gap before registration and a drained stream, the watcher rebuilds the final table if and only if every watched route that changed in the gap is named by a later event |
| `WatchRoutes.NoGapReconstructs` | server/src/service_impl.cpp:220-282 | With no call in the gap it always does |
| `WatchRoutes.AdditionInGapMissed` | server/src/service_impl.cpp:220-252 | One addition in the gap, never mentioned later, is never seen |
| `Mirror.KeyInjective` | client/src/main.cpp:938 | Routes with different destination, gateway or interface have different keys |
| `Mirror.WatchCtx.CallAdd` | client/src/route_client.cpp:136-165 | The stored identifier is the given one only if a reply arrives and the destination is not empty; the server table for every fate of the call |
| `Mirror.WatchCtx.CallRemove` | client/src/route_client.cpp:171-190 | The server table for every fate of the remote call |
| `Mirror.WatchCtx.DropStale` | client/src/main.cpp:1022-1046 | The erase loop withdraws exactly the entries of the destination, in whatever order they are visited |
| `Mirror.WatchCtx.NlWatchCb` | client/src/main.cpp:895-1123 | For every kind and every fate of the calls, which keys are tracked with which fields, ADDED without a reply included, and which server routes stay, go or come; and it is the step the invariants below are about |
| `Mirror.StepTracks` | client/src/main.cpp:934-1115 | After ADDED or CHANGED the key is tracked with the reported fields whatever becomes of the call; ADDED touches no other key, REMOVED drops only that key, CHANGED drops the others of its destination, and other protocols change nothing |
| `Mirror.StepServed` | client/src/main.cpp:934-1115 | An event's server table: each withdrawn identifier goes unless that call is lost, the new route comes if the call arrives, all others stay as they are |
| `Mirror.TrackingIndependent` | client/src/main.cpp:934-1115 | Two runs whose events differ only in what becomes of the remote calls track the same keys with the same fields, server identifiers aside |
| `Mirror.StepMirrors` | client/src/main.cpp:934-1115 | Each event keeps tracked identifiers distinct, live and naming the tracked route |
| `Mirror.RunMirrors` | client/src/main.cpp:934-1115 | The same over every run of events with any pattern of lost requests and replies |
| `Mirror.ChangedReplaces` | client/src/main.cpp:1020-1077 | After CHANGED exactly the reported entry has that destination and all other entries are untouched |
| `Mirror.StepOrphans` | client/src/main.cpp:934-1115 | Each event abandons exactly the routes of lost replies, lost removals and repeated additions of a key |
| `Mirror.RunOrphans` | client/src/main.cpp:934-1115 | Over every run the unnamed live routes are exactly the union of what the events abandoned |
| `Mirror.ExactMirror` | client/src/main.cpp:934-1115 | From empty, live identifiers equal tracked ones at the end if and only if no event abandoned a route |
| `Mirror.OrphanExample` | client/src/main.cpp:941-1018 | A key reported ADDED twice: the first server route is left behind |
| `MirrorKernel.StepInSync` | client/src/main.cpp:934-1115 | A truthful event keeps one entry for each kernel route while no two kernel routes share a key |
| `MirrorKernel.RunInSync` | client/src/main.cpp:934-1115 | Throughout a run the client has one entry for each kernel route if and only if no two kernel routes ever share destination, gateway and interface |
| `MirrorKernel.InSyncServes` | client/src/main.cpp:934-1115 | One entry for each kernel route means that the server serves exactly the kernel's routes |
| `MirrorKernel.StepServes` | client/src/main.cpp:934-1115 | A truthful event leaves the server serving exactly the kernel's routes if and only if no forgotten copy serves a route it takes back, and no entry it withdraws is of a route the kernel still has, unless a forgotten copy serves that |
| `MirrorKernel.RunServes` | client/src/main.cpp:934-1115 | Throughout a run the server serves exactly the kernel's routes if and only if no event takes back a route of which a forgotten copy is live, or withdraws a route the kernel still has and no forgotten copy serves |
| `MirrorKernel.FromNothing` | client/src/main.cpp:934-1115 | Both results from an empty start; sharing no key is enough for serving exactly |
| `MirrorKernel.SharedButServed` | client/src/main.cpp:936-938 | It is not necessary: two routes under one key, added, are both served |
| `MirrorKernel.SharedKeyExample` | client/src/main.cpp:936-938 | The first of those two removed: the server serves the removed one and nothing else |
| `GrpcProc.Dispatch` | client/src/grpc_proc.cpp:184-252 | The response alternative has the index of the request alternative and carries the remote result |
| `GrpcProc.Processor.AllocateId` | client/src/grpc_proc.cpp:70-72 | The atomic increment as a step |
| `GrpcProc.Processor.PushRequest` | client/src/grpc_proc.cpp:73-76 | The locked push as a step |
| `GrpcProc.Processor.NotifySubmitted` | client/src/grpc_proc.cpp:77 | The notification after the lock as a step of its own |
| `GrpcProc.Processor.WorkerLooks` | client/src/grpc_proc.cpp:143-158 | The worker inside its lock: leave, take the front request, or find nothing to do |
| `GrpcProc.Processor.FallAsleep` | client/src/grpc_proc.cpp:146-149 | Going to sleep, after the test, as a step of its own |
| `GrpcProc.Processor.StoreResponse` | client/src/grpc_proc.cpp:163-171 | The locked store as a step |
| `GrpcProc.Processor.TryGetResponse` | client/src/grpc_proc.cpp:85-115 | Taking: found exactly when stored and never taken before, and it answers the given request |
| `GrpcProc.Processor.StartThread` | client/src/grpc_proc.cpp:39-46 | Starting, the error of starting a running processor, or the end of the program if the old thread was not joined |
| `GrpcProc.Processor.RequestStop` | client/src/grpc_proc.cpp:48-53 | The flag half of stop, and whether this call goes on |
| `GrpcProc.Processor.NotifyStopped` | client/src/grpc_proc.cpp:54 | The notification, sent without the lock, as a step of its own: a sleeping worker wakes, any other is as before |
| `GrpcProc.Processor.JoinThread` | client/src/grpc_proc.cpp:55-58 | The join half of stop |
| `GrpcProc.StepKeepsInv` | client/src/grpc_proc.cpp:70-174 | Each step of any party keeps the accounting of identifiers, order and responses |
| `GrpcProc.RunKeepsInv` | client/src/grpc_proc.cpp:70-174 | Every interleaving does |
| `GrpcProc.Conservation` | client/src/grpc_proc.cpp:70-174 | In every reachable state each identifier handed out is in exactly one of five places, and no other number is anywhere |
| `GrpcProc.TakenOnce` | client/src/grpc_proc.cpp:85-115 | A stored response answers its request and can be taken only once |
| `GrpcProc.NoCollision` | client/src/grpc_proc.cpp:162-170 | Storing never meets an older entry |
| `GrpcProc.StoredInPushOrder` | client/src/grpc_proc.cpp:137-174 | Responses are stored in the order requests were pushed |
| `GrpcProc.ExitAfterDraining` | client/src/grpc_proc.cpp:146-154 | The worker leaves only when stopped and every pushed request has been answered |
| `GrpcProc.WorkerServes` | client/src/grpc_proc.cpp:70-79 | A running processor has a live worker, and a queued request never finds it idle without a notification to come |
| `GrpcProc.CanServeAll` | client/src/grpc_proc.cpp:137-174 | From every state with a live worker there is a continuation that answers everything pushed |
| `GrpcProc.CanStop` | client/src/grpc_proc.cpp:48-59 | Told to stop and not missed, a live worker has a continuation in which it answers everything pushed and leaves |
| `GrpcProc.HangsWhenMissed` | client/src/grpc_proc.cpp:48-59 | A sleeping worker with no notification to come has been told to stop if and only if the notification fell between its test and its sleep |
| `GrpcProc.NotificationWakes` | client/src/grpc_proc.cpp:54 | Either notification wakes a sleeping worker |
| `GrpcProc.NoHangWhenWellTimed` | client/src/grpc_proc.cpp:48-59 | In no run in which every stop notification is sent while the worker is not between its test and its sleep does stopping hang |
| `GrpcProc.HangExample` | client/src/grpc_proc.cpp:48-59 | A run of five steps after which that is so |
| `GrpcProc.HangsForever` | client/src/grpc_proc.cpp:48-59 | Then, until something is submitted, no step of anyone wakes it and the join does not return |
| `Netlink.Align4Formula` | unix_domain/lib/netlink.cpp:278-290 | Alignment is rounding up to a multiple of four |
| `Netlink.NlMsg.constructor` | unix_domain/lib/netlink.cpp:245-270 | A zeroed buffer with all header fields, the fixed route header and no attributes |
| `Netlink.NlMsg.AddAttr` | unix_domain/lib/netlink.cpp:278-290 | Appending in place extends the attribute list, stores the new aligned length in the header and leaves all other earlier bytes alone |
| `Netlink.NlMsg.AddRtAttr` | client/src/routing.cpp:70-94 | The bounded append succeeds exactly when the attribute fits, otherwise nothing changes |
| `Netlink.ExtendChain` | unix_domain/lib/netlink.cpp:278-290 | Attribute bytes written behind a chain extend it, whatever the padding holds |
| `Netlink.WalkChain` | unix_domain/lib/netlink.cpp:473-480 | Walking a chain visits exactly its attributes in order |
| `Netlink.WalkStops` | unix_domain/lib/netlink.cpp:473-480 | What follows the chain is not looked at unless it starts with a complete attribute |
| `Netlink.WholeMessage` | unix_domain/lib/netlink.cpp:245-290 | Through whatever appends and refusals, the bytes up to the length are one whole message |
| `Netlink.MessageParts` | unix_domain/lib/netlink.cpp:473-480 | Those bytes read back as their length, kind, fixed header and exactly the accepted attributes |
| `Netlink.HeaderLayout` | unix_domain/lib/netlink.cpp:245-270 | Every byte of the header: length, kind, flags, sequence number and a zero port, lowest byte first |
| `Netlink.ParseAttrs` | unix_domain/lib/netlink.cpp:473-480 | The walk over any region fills the map in which the last attribute of a kind wins |
| `Netlink.LastOfKindWins` | unix_domain/lib/netlink.cpp:473-480 | An attribute with no later one of its kind is what the map has |
| `Netlink.AttrData` | unix_domain/lib/netlink.cpp:491-499 | Data is returned only at the expected size |
| `Netlink.BuildRouteNew` | unix_domain/lib/netlink.cpp:554-612 | The bytes of the installing message, up to sending; it always fits the buffer |
| `Netlink.RouteLayout` | unix_domain/lib/netlink.cpp:554-612 | Every byte of the installing message behind the header: the fixed part with its literal codes and the attributes 1, 5, 4, 6 and 15 that are present |
| `Netlink.ReadMessage` | unix_domain/lib/netlink.cpp:739-803 | The reader of one message, any bytes: nothing unless kind 24, family 2 and the wanted table, otherwise the fields where they stand, a table attribute before the short field |
| `Netlink.RouteRoundTrip` | unix_domain/lib/netlink.cpp:554-612 | Reading the bytes of an installing message recovers every parameter for all 32-bit tables, and a listing has it exactly when it asks for that table or for all |
| `Netlink.WriteAndRead` | unix_domain/lib/netlink.cpp:554-612 | Builder and reader run one after the other return the route that went in, field by field |
| `Netlink.ListRoutes` | unix_domain/lib/netlink.cpp:736-806 | The loop over a dump collects what each message announces |
| `Netlink.DumpRoundTrip` | unix_domain/lib/netlink.cpp:736-806 | A dump of any number of route messages lists exactly the routes of the wanted table, in order |
| `Routing.BuildRouteRequest` | client/src/routing.cpp:721-840 | Building succeeds exactly when all attributes fit the capacity, and then the bytes are that message |
| `Routing.RequestLayout` | client/src/routing.cpp:721-840 | Every byte of the request behind the header: scope 0 sent as 253 with an interface and no gateway, table 252 above 255, addresses of 16 or 4 bytes, attributes 1, 5, 4, 6 and 15 |
| `Routing.RequestFits` | client/src/routing.cpp:769 | No request overflows the reserved buffer, so the overflow errors cannot occur |
| `Routing.WalkAttrs` | client/src/routing.cpp:585-670 | The in-place walk of a region collects the route and the nexthops its attributes describe |
| `Routing.LastAttrSettles` | client/src/routing.cpp:585-670 | The last attribute of a kind settles its field |
| `Routing.WalkHops` | client/src/routing.cpp:633-665 | The nested walk of a nexthop list, the last gateway of each way counting |
| `Routing.LastGatewayWins` | client/src/routing.cpp:633-665 | The last gateway inside a nexthop is its gateway |
| `Routing.ReadKernelRoutes` | client/src/routing.cpp:559-706 | What one message adds to the list: nothing, the route, or one route for each nexthop, all with the header fields where they stand and of the wanted table |
| `Routing.RequestReadBack` | client/src/routing.cpp:721-840 | Reading the bytes of a built request recovers every parameter in either family, with the scope as promoted and tables above 255 whole |
| `Routing.WriteAndRead` | client/src/routing.cpp:721-840 | Builder and reader run one after the other return the requested route field by field, with the promoted scope |
| `Routing.HopsReadBack` | client/src/routing.cpp:633-665 | A nexthop list of any length in the kernel's layout is read back in order |
| `Routing.HopLayout` | client/src/routing.cpp:633-665 | Every byte of a nexthop as read back there |
| `Routing.MultipathSpread` | client/src/routing.cpp:680-706 | A route announced with several ways is listed once for each, everything else shared |
| `VrfTable.ExtendIndexes` | client/src/vrf_table.cpp:20-26 | Pushing a route and recording its position keeps the index equal to the plain filter |
| `VrfTable.Table.Load` | client/src/vrf_table.cpp:14-40 | Routes are replaced and the index agrees with them |
| `VrfTable.Table.Clear` | client/src/vrf_table.cpp:42-49 | Both are emptied |
| `VrfTable.Table.HasNexthop` | client/src/vrf_table.cpp:63-67 | True exactly for a non-empty address some stored route has |
| `VrfTable.Table.FindByNexthop` | client/src/vrf_table.cpp:70-81 | All stored routes with that next hop, each as often as stored and in their order, and nothing for the empty address |
| `VrfTable.WithNexthopSnoc` | client/src/vrf_table.cpp:70-81 | Loading one more route puts it behind the others of its next hop |
| `Checksum.IcmpChecksum` | client/src/main.cpp:2504-2513 | The loop and folds compute the specified value, the 32-bit accumulator wrapping around, for buffers of any length |
| `Checksum.TotalGrows` | client/src/main.cpp:2504-2509 | The exact sum grows by each word and by an odd last byte as a word of its own |
| `Checksum.FoldedCongruent` | client/src/main.cpp:2510-2511 | Two folds keep the sum modulo 65535, and only zero folds to zero |
| `Checksum.ChecksumCongruent` | client/src/main.cpp:2504-2513 | The complement of the checksum is congruent to the exact sum modulo 65535 if and only if the accumulator wraps a multiple of 65535 times |
| `Checksum.NoWrap` | client/src/main.cpp:2504-2513 | Up to 65537 words it does not wrap |
| `Checksum.WrapExample` | client/src/main.cpp:2504-2513 | With one word more the checksum can be wrong |
| `Checksum.VerifiesToZero` | client/src/main.cpp:2504-2513 | Storing the checksum in a zeroed word makes recomputation give 0, however often the accumulator wraps |
| `Checksum.WordChangeDetected` | client/src/main.cpp:2504-2513 | Replacing one word goes unnoticed exactly when the change is congruent to the change in wraps and the accumulator does not become or cease to be zero |

## Left out

- Crc.SealedBurstDetected: needs the checksum field intact, because it is false otherwise; `CrcErrors.SealedAfterError` is the exact condition for all corruptions.
- UdProto.BurstCorruptionRejected: the same; `UdErrors.CorruptionJudged` is exact.
- RouteProto.BurstExchangeRejected: the same; `RouteProto.ExchangeCorruptionJudged` is exact.
- UdWire.OneFlippedFrameBit: for packets below 4 GiB, beyond which the 32-bit length field wraps; frames that follow the struck one are not considered.
- GrpcProc.HangsForever: spurious wake-ups of the condition variable are not modelled; one would end the hang.
- GrpcProc.Processor.AllocateId: identifiers do not wrap at 64 bits.
- GrpcProc.Processor.TryGetResponse: timeouts and response timestamps are outside the model; a wait ends as a take.
- WatchRoutes.DrainedWatcherReconstructs: starts from the table at registration; `WatchRoutes.ListingWatcherReconstructs` starts from the initial listing.
- WatchRoutes.Stream.WriteNext: a client that disconnects ends the stream, which is not modelled.
- RouteManager.Sort: an insertion sort stands for the library sort; `RouteManager.SortedUnique` makes the result the same.
- RouteManager.ReplayRun: calls are atomic here; `NotifyOrder.OrderMatters` takes them apart.
- Mirror.RunMirrors: assumes that generated identifiers are new and not empty, and that printed addresses contain no bar character.
- MirrorKernel.RunServes: takes CHANGED to mean that the kernel replaced all routes to the destination in whatever table, as the source's comment does.
- Netlink.NlMsg.AddAttr: needs room in the buffer, which the source takes for granted; `Netlink.BuildRouteNew` shows that it is there.
- Netlink.RouteRoundTrip: resolution between interface names and indexes is outside the model, so an interface is its index.
- Netlink.ReadMessage: a route message shorter than its fixed header, which the kernel does not send, is excluded.
- Netlink.ListRoutes: dumps whose last message is not padded in full, which the kernel does not send, are excluded; the source reads on behind them.
- Routing.ReadKernelRoutes: attributes are taken to have at least the sizes the kernel gives them; the source reads past shorter ones.
- VrfClient.Client.ProcessRequest: creating, configuring and connecting the socket is one outcome, given from outside.
- Sockets, polling and threads as operating-system objects, remote-call channels and message serialisation by the remote-call library.
- Logging, formatting, printing and publishing of tables, command-line handling, configuration loading and daemon life cycle.
- Generation of identifiers and times: they are parameters.
- The descriptive columns of the client's watch table, such as the kernel table and the interface index.
- The ping, pong, error and acknowledgement message constructors, the empty route-list command and the single-route handlers: straight-line code.
- The request queue of the VRF client: one worker takes requests in order.
- Interface names are kept with their padding; cutting them at the first zero byte before the kernel call is not modelled.
- Command and message codes outside the enumerations cannot be given to the encoders.
