# A verified model of the bit-packed protocol

The repository is a C++ game server library and a C# Unity client that exchange
bit-packed messages over UDP. This project models the parts where a wrong bit,
an off-by-one or a wrapped counter would matter, and proves what they guarantee.
`dafny verify dfyconfig.toml` checks everything.

The reference model of a message is a sequence of bits, low bit first, and of a
memory block the bits of its bytes in order (`Bits`, `Memory`). Everything else is
shown to refine it.

* **Packing.** `BitWriter` and `BitReader` (C++, over a byte buffer with
  little-endian word stores) and their C# counterparts (over word arrays) move 1 to
  32 bits at a time through a 64-bit scratch register, and blocks through a
  head / word-copy / tail fast path. They are classes with the source's fields; a
  ghost bit string says what has been written or may be read. `ScratchRegister`
  holds the register arithmetic, stated once for both languages.
* **Streams and schemas.** `Schema` says what a list of serialize calls means in
  bits, both ways; `Streams` runs such a list over the C++ writer, reader and
  measurer, `CsStreams` and `SerializationExtension` over the C# ones.
  `CrossLanguage` sets the two sides against each other. `StringField` and
  `CsStringField` add strings, whose length is itself on the wire.
* **Framing.** `Crc32` relates the table-driven checksum to the bitwise CRC-32 of
  section 8 of RFC 1952 and proves its injectivity; `Packets` has the factory's
  packet types and `PacketLayouts` their wire layout, field by field; `Framing` says
  which bytes a packet becomes and what any bytes are read as, `FrameLayout` describes
  a frame byte for byte, `ErrorCodes` when each error is reported, and
  `FrameCanonical` which accepted bytes are frames and which types get in;
  `Network` and `PacketProcessing` are the procedures, with the checksum patched into
  the buffer in place.
* **Sessions and the handshake.** `SessionTable` and `SessionSteps` have the two-map
  session table as a value and its runs, `Sessions` the objects; `Handshake` and
  `HandshakeRuns` describe the server from datagrams in to datagrams out;
  `ServerLoop` and `GameProtocol` are the server's and the client's procedures over
  their own streams.
* **Queues.** `SocketQueues` is the socket interface as a state machine, with the
  packet processor as a parameter, `QueueRuns` what its steps and runs amount to;
  `SocketInterfaces` is the object; `Delivery` and `FramedDelivery` connect two of
  them through a network and through framed packets.

Words used below: the *image* of a bit string over a buffer is the string in whole
little-endian words, zero-padded, followed by what the buffer held; the *message*
is the string in whole bytes.

Where the code does less than its interface suggests, the code is modelled as it is
and the exact condition is proved.

* Session ids wrap at 16 bits (`SafeIffRenewed`, `SafeIffReleased`, `LookupsExact`,
  `LongRunUnsafe`).
* The C# integer reader does not check its range and returns zero when the field does
  not fit, so its result is in range for every input only if the range fills its width
  and contains zero (`DeserializedInRange`, `AlwaysInRange`).
* With a single packet type only packets of type 0 read back (`FramedRoundTrip`).
* The packet type's range is not checked on reading: types beyond the configured
  number are kept out only if they are too large for the field's bits, as they are
  with 106 types and would not be with 102 (`TypesBelowIff`).
* The overflow of a raw datagram shorter than its prefix is never reported as one: its
  header, type or fields fail first (`CodesExact`, `ShortRawDatagram`).
* An accepted datagram is the frame of what was read only if nothing but zero bits
  follow its body (`AcceptedIsFrame`).
* Strings re-serialize only without embedded NULs (`StringCanonicalIff`), differ
  between the languages (`StringFormsAgree`), and in C# lose what needs more than one
  byte a character (`ClientStringRoundTrip`).
* A start request shorter than 11 bytes is served for an uninitialized user id
  (`UidServed`).
* A failed padding check, and only that, leaves a read stream's bit count behind its
  reader's, in both languages (`Streams.ReadRun`, `SerializationExtension.DeserializeAll`).
  The streams' overflow check before an alignment never fires, since the input is
  whole bytes.

For one failure only a sufficient condition is proved, with an input that shows it
cannot be dropped: a frame cut short by a smaller buffer can be misread under another
protocol with other packet types (`ForeignProtocol`, `CutFrameAccepted`).

Preconditions are the source's assertions: widths of 1 to 32 bits, room in the
buffer, values in range, a nonzero protocol id. Reading a packet also needs the
datagram to reach the end of the checksum field, since the source subtracts the
two lengths without a check, and a reader's store to be rounded up to a whole
word, as the source asks.

## Model

| member | source | states |
|---|---|---|
| ScratchRegister.InsertStep | svr/library/networking/BitWriter.h:32-36 | masking, shifting and or-ing a value into the scratch register appends exactly its low `bits` bits to what the packer holds; nothing is lost off the top |
| ScratchRegister.SpillStep | svr/library/networking/BitWriter.h:38-45 | storing the low word and shifting the register right moves the oldest 32 written bits to the next word of memory and keeps the invariant scratchBits = bitsWritten - 32*wordIndex, scratch < 2^scratchBits |
| ScratchRegister.FlushStep | svr/library/networking/BitWriter.h:102-112 | flushing a partial word leaves memory equal to the message padded with zero bits to a word, followed by the untouched rest |
| ScratchRegister.FlushNone | svr/library/networking/BitWriter.h:102-112 | with an empty register memory already is that image, so the flush inside WriteBytes is a no-op |
| ScratchRegister.CopyStep | svr/library/networking/BitWriter.h:79-87 | copying whole words from a word boundary appends all their bits |
| ScratchRegister.RegisterInsert | svr/library/networking/BitWriter.h:32-34 | masking a value, shifting it above the register's contents and or-ing it in, in 64 bits, is the concatenation of the register's bits and the value's low bits |
| ScratchRegister.LoadStep | svr/library/networking/BitReader.h:45-53 | loading a word into the register appends its 32 bits after the unread ones |
| ScratchRegister.TakeStep | svr/library/networking/BitReader.h:57-60 | masking yields the next `bits` bits of the stream, and shifting leaves the ones after them |
| BitPacker.BitWriter.WriteBits | svr/library/networking/BitWriter.h:26-48 | the written bit string grows by exactly the value's low `bits` bits, low bit first; the word store stays inside the buffer |
| BitPacker.BitWriter.WriteAlign | svr/library/networking/BitWriter.h:50-59 | zero bits are appended up to the next byte boundary, none if aligned |
| BitPacker.BitWriter.WriteBytes | svr/library/networking/BitWriter.h:61-100 | head loop, word copy and tail loop together append the block's bits, as the byte loop alone does |
| BitPacker.BitWriter.FlushBits | svr/library/networking/BitWriter.h:102-112 | the buffer is the image of everything written: low-bit-first message, zero padding to a word, untouched words after it; with an empty register nothing changes, otherwise scratchBits is left negative |
| BitPacker.BitWriter.StoreWord | svr/library/networking/BitWriter.h:41 | a word store writes the four little-endian bytes of the word and nothing else |
| BitPacker.StateDetermined | svr/library/networking/BitWriter.h:61-112 | the bits written and the initial buffer determine every field and every byte, so the block fast path and the byte-at-a-time loop are indistinguishable |
| BitPacker.BlockIsLoop | svr/library/networking/BitWriter.h:61-100 | WriteBytes on one writer and a call of WriteBits(., 8) a byte on an equal one leave equal registers, counters and buffers |
| Memory.ImagePrefix | svr/library/networking/BitWriter.h:102-137 | the bytes the writer reports as written are the message zero-padded to a byte, whatever the buffer held |
| BitUnpacker.BitReader.ReadBits | svr/library/networking/BitReader.h:35-63 | returns the number spelled by the next `bits` bits of the store; the word loaded always lies below (bytes+3)/4 |
| BitUnpacker.BitReader.ReadAlign | svr/library/networking/BitReader.h:65-76 | moves to the byte boundary and returns true iff every skipped bit is zero |
| BitUnpacker.BitReader.ReadBytes | svr/library/networking/BitReader.h:78-115 | the destination receives exactly the next bytes of the stream, elsewhere it is unchanged; the register the word copy does not clear is already zero |
| BitUnpacker.StateDetermined | svr/library/networking/BitReader.h:78-115 | the number of bits consumed determines the whole reader state, so the block read and the byte loop are indistinguishable |
| BitUnpacker.BlockIsLoop | svr/library/networking/BitReader.h:78-115 | ReadBytes on one reader and a call of ReadBits(8) a byte on an equal one leave equal registers, counters and outputs |
| Width.WidthIsMinimal | svr/library/networking/NetworkUtil.h:102-105 | the width is the least that holds every offset of the range: 2^(bits-1) <= max-min < 2^bits, for all int32 bounds under wrapping subtraction |
| Width.OffsetRoundTrip | svr/library/networking/Serialization.h:51-60 | every in-range value survives the wrapping offset and back, even over spans above 2^31 |
| Width.AcceptedOffsets | svr/library/networking/Serialization.h:400-419 | after the wrapping addition the range check accepts a 32-bit wire word iff it is at most max-min |
| Width.PopCountCounts | udp/Assets/Script/Network/NetworkUtil.cs:56-65 | the parallel population count of every 32-bit word is the number of its one bits |
| Width.Log2IsFloorLog | udp/Assets/Script/Network/NetworkUtil.cs:67-76 | the smear-and-count Log2 is the floor of the base-2 logarithm of every nonzero word |
| Width.WidthsAgree | udp/Assets/Script/Network/NetworkUtil.cs:51-54 | the C# width equals the C++ `32 - clz` width for every min < max |
| Schema.RoundTrip | svr/library/networking/Serialization.h:400-541 | one serialize call read back, at any position and with anything around it, returns the value (bit fields masked to their width) and consumes exactly its bits |
| Schema.RoundTripAll | svr/library/networking/Serialization.h:400-541 | the same for every list of int, bits, bool, uint64, bytes and align calls |
| Schema.WireExact | svr/library/networking/Serialization.h:421-434 | values that fit their fields come back unchanged |
| Schema.FieldNumber | svr/library/networking/Serialization.h:400-541 | what each call's bits spell, lowest first: an integer's distance from its minimum in the bit length of the span, the masked bit field, one bit for a flag, the whole 64-bit value, zeros up to a byte boundary, the block's own bytes |
| Schema.Canonical | svr/library/networking/Serialization.h:400-419 | on arbitrary bits: if one call reads successfully, writing its value again reproduces the consumed bits; this needs the range check and the zero-padding check |
| Schema.CanonicalAll | svr/library/networking/Serialization.h:158-223 | the same for every list of calls: one wire form per value list |
| Schema.PrefixFree | svr/library/networking/Serialization.h:400-541 | under one schema no wire form is a proper prefix of another, and equal wire forms mean equal values |
| Schema.DecodeAllLocal | svr/library/networking/Serialization.h:158-223 | reading depends only on the bits from the current position on, never moves backwards and never past the end |
| Schema.RunCounts | svr/library/networking/Serialization.h:197-223 | a run of calls counts every bit it reads iff none of them fails its padding check |
| Schema.MeasureBounds | svr/library/networking/Serialization.h:291-341 | measured bits M and written bits W satisfy 0 <= M - W <= 7 times the number of alignments, counting the one inside each bytes call |
| Streams.WriteStream.SerializeInteger | svr/library/networking/Serialization.h:51-60 | appends the wrapped offset in the minimal width |
| Streams.WriteStream.SerializeBytes | svr/library/networking/Serialization.h:70-78 | appends alignment and then the block |
| Streams.WriteStream.SerializeAll | svr/library/networking/Serialization.h:37-84 | running a schema over the packer appends exactly its encoding |
| Streams.WriteStream.Flush | svr/library/networking/Serialization.h:101-104 | the caller's buffer is the image of everything serialized |
| Streams.ReadStream.SerializeBits | svr/library/networking/Serialization.h:182-195 | from any state, also after failed calls: succeeds iff the field fits the input, sets the overflow error otherwise, and counts exactly what the reader consumes |
| Streams.ReadStream.SerializeInteger | svr/library/networking/Serialization.h:167-180 | the same for a ranged integer; the value is the wrapped sum, not yet range checked |
| Streams.ReadStream.SerializeAlign | svr/library/networking/Serialization.h:211-223 | succeeds iff the padding is zero, and never sets an error, since whole bytes always hold their padding; a bad padding moves the reader but is not counted, so the counts agree afterwards iff they did and the padding was zero |
| Streams.ReadStream.SerializeBytes | svr/library/networking/Serialization.h:197-209 | every outcome with position, error, destination (untouched on failure) and the exact lag of the stream's count; the counts agree afterwards iff they did and the padding was zero |
| Streams.ReadStream.Deserialize | svr/library/networking/Serialization.h:400-541 | one macro on arbitrary bytes, from any state: value, position whatever the outcome, error; the counts agree afterwards iff they did and no padding was bad |
| Streams.ReadStream.DeserializeAll | svr/library/networking/Serialization.h:400-541 | a schema on arbitrary bytes, from any state: stops at the first failure, with values, the position reached and the error; the counts agree afterwards iff they did and no padding was bad |
| Streams.ReadRun | svr/library/networking/Serialization.h:158-289 | any sequence of read calls, each made whatever became of the ones before, over any input: the reader stays in bounds, every call's success and the final position are determined, and the stream's count equals the reader's iff no call failed its padding check |
| Streams.MeasureStream.SerializeMeasure | svr/library/networking/Serialization.h:300-341 | a call adds its width, with 7 bits for every alignment |
| Streams.MeasureStream.SerializeAll | svr/library/networking/Serialization.h:291-341 | a schema adds up its calls |
| StringField.StringRoundTrip | svr/library/networking/Serialization.h:543-556 | a string read back is the string written, and as a C string too when it holds no NUL |
| StringField.StringCanonicalIff | svr/library/networking/Serialization.h:543-556 | on arbitrary bits: writing the string read again reproduces the bits iff there is no NUL among its characters and it leaves the two bytes of room the writer demands |
| StringField.NulIsLost | svr/library/networking/Serialization.h:543-556 | an input on which it does not: a string of one NUL is read as one character and written again as none |
| StringField.StringFormsAgree | udp/Assets/Script/Network/Serialization/SerializationExtension.cs:126-133 | the C++ and C# wire forms of a string are equal iff the two length fields, of different widths, are padded to the same byte |
| StringField.StringFormsDiffer | udp/Assets/Script/Network/Serialization/SerializationExtension.cs:126-133 | they differ for a server buffer of 101 bytes at the start of a message |
| CsStringField.SerializeString | udp/Assets/Script/Network/Serialization/SerializationExtension.cs:126-133 | the C# procedure writes the wire form with a 31-bit length, of as many encoded bytes as the string has characters |
| CsStringField.DeserializeString | udp/Assets/Script/Network/Serialization/SerializationExtension.cs:135-143 | on arbitrary bytes: a length, never negative, then that many bytes, or zeros when they cannot be read |
| CsStringField.ClientStringRoundTrip | udp/Assets/Script/Network/Serialization/SerializationExtension.cs:126-143 | a C# string read back is as much of the encoded text as it has characters: all of it iff every character takes one byte |
| CsStringField.StrictStringIsLenient | udp/Assets/Script/Network/Serialization/SerializationExtension.cs:135-143 | what C++ reads with a 31-bit length C# reads to the same bytes |
| CsStringField.ZeroString | udp/Assets/Script/Network/Serialization/SerializationExtension.cs:134-143 | a string C++ would reject comes back as zero bytes, as many as its length field says, none when that is missing |
| StringField.SerializeString | svr/library/networking/Serialization.h:543-556 | writes the characters before the NUL, with their count ranged by the buffer size |
| StringField.DeserializeString | svr/library/networking/Serialization.h:543-556 | on arbitrary bytes: the length is checked before use, the characters and the NUL land inside the buffer; position, error and count in every outcome |
| Crc32.TableIsStep8 | svr/library/networking/NetworkUtil.cpp:3-37 | every table entry is eight bitwise steps of its index under polynomial 0xEDB88320 (section 8 of RFC 1952) |
| Crc32.LookupIsFeed | svr/library/networking/NetworkUtil.cpp:42-43 | one table lookup is eight bitwise steps with the byte's bits, low bit first |
| Crc32.CalculateCrc32 | svr/library/networking/NetworkUtil.cpp:39-45 | the table-driven loop is the bitwise CRC-32 for every buffer and seed |
| Crc32.CheckValue | svr/library/networking/NetworkUtil.cpp:39-45 | the checksum of the nine digits "123456789" is 0xCBF43926, the check value of CRC-32 |
| Crc32.CrcChains | svr/library/networking/NetworkUtil.cpp:39-45 | crc(a+b, seed) = crc(b, crc(a, seed)) |
| Crc32.ShortInjective | svr/library/networking/NetworkUtil.cpp:39-45 | at most 32 bits enter the register injectively |
| Crc32.FeedInjective | svr/library/networking/NetworkUtil.cpp:39-45 | feeding any bits keeps different registers different |
| Crc32.BurstDetected | svr/library/networking/NetworkUtil.cpp:39-45 | changing bits only inside a window of 32 changes the register for good, whatever follows |
| Packets.FieldsFit | svr/library/networking/PacketFactory.h:44-195 | every in-range packet's fields fit its schema, cross the wire unchanged and rebuild the packet; `PacketLayouts.PacketLayout` says which bits they are |
| Packets.DecodedInRange | svr/library/networking/PacketFactory.h:44-195 | whatever a packet schema decodes is an in-range packet of that type with exactly those fields, so the narrowing assignments lose nothing |
| PacketLayouts.PacketLayout | svr/library/networking/PacketFactory.h:14-195 | every packet has its own type number (0, 1, 2, 101 to 105) and, wherever they stand, its fields are serialized in declared order: test packets as offsets in 5, 6 and 6, in 4 and 4, and in 16 times 8 bits, the others as whole bytes, low byte first |
| PacketLayouts.PacketBytes | svr/library/networking/PacketFactory.h:44-195 | alone they are these bytes: heartbeat and start reply [cmd, sid low, sid high], stop packets a reason byte more, start request eight bytes of uid more, test packets one number of 17 or 8 bits or their data |
| FrameLayout.FrameIff | svr/library/networking/Network.cpp:5-62 | a datagram is the frame of a packet iff: its prefix bytes are zero; its field is the CRC-32 of protocol id, four zero bytes and the rest; and the rest is the header, the type number in the bit length of the largest type when there is more than one, the packet's fields as laid out, and zero bits up to a byte |
| FrameLayout.FrameMeets | svr/library/networking/Network.cpp:5-62 | what is written meets that description |
| Framing.FrameFacts | svr/library/networking/Network.cpp:23-62 | a written datagram passes its own checksum, and its body stands in the bits right after the checksum field |
| Framing.ChecksumAgrees | svr/library/networking/Network.cpp:56-104 | the checksum computed over the zero field and stored at a byte offset is the one the reader computes with four zero bytes in its place and reads through the bit reader |
| Framing.FrameSize | svr/library/networking/Network.cpp:64-67 | the reported length is the stream's in whole bytes |
| Framing.FramedRoundTrip | svr/library/networking/Network.cpp:6-165 | for every factory packet in range, every protocol id, prefix length and optional header, raw or not: reading exactly the written bytes yields the packet and header, if and only if there is more than one packet type or the packet's type is 0 |
| Framing.WrongProtocolRejected | svr/library/networking/Network.cpp:93-112 | a packet written under one protocol id is rejected with CRC32_MISMATCH under every other, for all bodies and headers |
| Framing.BurstRejected | svr/library/networking/Network.cpp:93-112 | any change of an accepted datagram confined to 32 consecutive bits after the checksum field is rejected with CRC32_MISMATCH |
| Framing.FieldCorruptionRejected | svr/library/networking/Network.cpp:93-112 | any change of the checksum field alone (the prefix may change too) is rejected with CRC32_MISMATCH |
| Framing.PrefixIsFree | svr/library/networking/Network.cpp:87-91 | the prefix bytes do not influence the outcome |
| Framing.AcceptedIsCanonical | svr/library/networking/Network.cpp:114-164 | on arbitrary bytes: an accepted packet is in range, and writing it again under the decoded header, with enough packet types for it, reproduces exactly the body bits read |
| FrameCanonical.AcceptedIsFrame | svr/library/networking/Network.cpp:70-165 | on arbitrary bytes: an accepted packet is in range, and with enough packet types for it (the reader's number, if that covers the types) the datagram is, apart from the prefix, the frame of what was read iff its body is followed only by the zero bits completing its last byte |
| FrameCanonical.TypesBelowIff | svr/library/networking/Network.cpp:130-146 | the type field's range is not checked: over all datagrams no packet of a type at or above the number n of types is accepted iff there is one type, or every known type from n on is too large for the type field's bits |
| FrameCanonical.ConfiguredTypesCovered | svr/service/first/first.cpp:14 | the number of types the program sets meets that condition |
| FrameCanonical.FewerTypesNotCovered | svr/library/networking/Network.cpp:130-146 | 102 types do not: the datagram of a heartbeat, type 105, is accepted |
| FrameCanonical.UncoveredAccepted | svr/library/networking/Network.cpp:130-146 | every type that the condition leaves out is accepted on some datagram |
| FrameCanonical.TrailingBytesAccepted | svr/library/networking/Network.cpp:70-165 | without a checksum, a frame followed by any bytes is accepted as the frame is, so the iff of AcceptedIsFrame can fail |
| FrameCanonical.CutFrameRejected | svr/library/networking/Network.cpp:70-165 | a frame cut short by any number of bytes is rejected, under its own protocol id and every other, even if the checksum happens to agree |
| Network.WritePacket | svr/library/networking/Network.cpp:6-68 | the stream, the zero field, the in-place patch: the first returned bytes of the buffer are the frame, and the whole new buffer is determined |
| Network.WrittenIsFrame | svr/library/networking/Network.cpp:56-67 | the frame does not depend on what the buffer held before |
| Network.CheckCrc | svr/library/networking/Network.cpp:96-111 | accepts iff the field read through the bit reader is the checksum of everything after it |
| Network.ReadPacket | svr/library/networking/Network.cpp:70-165 | on arbitrary bytes of at least prefix and checksum length: the packet or the error code the reference reading gives; the error code of every rejection is exact, as in CodesExact |
| ErrorCodes.CodesExact | svr/library/networking/Network.cpp:70-165 | for every datagram, header and number of types, the exact condition of each result: checksum mismatch iff the field is not the CRC-32 of the rest; header failure iff the header does not decode; invalid type iff the type field does not fit; create failure iff no packet has the number it spells; field failure iff the fields do not decode; accepted iff all do, as the packet of that type with those fields; an overflow is never reported |
| ErrorCodes.ShortRawDatagram | svr/library/networking/Network.cpp:86-90 | a raw datagram shorter than its prefix, whose overflow the source means to report, fails earlier: with the header code if the header needs a bit, else the invalid-type code, or with one packet type the field code |
| ErrorCodes.UnknownTypeReported | svr/library/networking/Network.cpp:140-146 | an input for it: with 106 types, a datagram of one byte below 128 that is no packet's type is reported as a create failure |
| Network.ChecksummedInside | svr/library/networking/Network.cpp:102 | the bytes checksummed after the field, their length converted to an unsigned size, lie inside the datagram iff it reaches the end of the checksum field |
| PacketProcessing.PacketProcessor.constructor | svr/library/networking/PacketProcessor.cpp:6-23 | the packet size is rounded up to a word and still fits the allocated buffer |
| PacketProcessing.PacketProcessor.WritePacket | svr/library/networking/PacketProcessor.cpp:35-55 | the buffer holds the one-prefix-byte frame, within the maximum packet size, which is what the queues' writer gives |
| PacketProcessing.PacketProcessor.ReadPacket | svr/library/networking/PacketProcessor.cpp:57-81 | the one-prefix-byte reading, which is what the queues' reader gives; an error is left iff the packet was rejected |
| WordArrays.ByteArrayToUIntArray | udp/Assets/Script/Network/NetworkUtil.cs:30-41 | the words are the bytes read little-endian; converting back gives the bytes |
| WordArrays.WordsReplaced | udp/Assets/Script/Network/BitWriter.cs:89-99 | replacing words of an array replaces exactly their bytes |
| WordArrays.WordAt | udp/Assets/Script/Network/BitReader.cs:45-51 | a word of the array is the little-endian number in its four bytes |
| CsBitPacker.BitWriter.WriteBits | udp/Assets/Script/Network/BitWriter.cs:28-50 | as the C++ writer, over a word array |
| CsBitPacker.BitWriter.WriteAlign | udp/Assets/Script/Network/BitWriter.cs:52-61 | as the C++ writer, over a word array |
| CsBitPacker.BitWriter.WriteBytes | udp/Assets/Script/Network/BitWriter.cs:63-115 | head loop, converted and copied words, tail loop append the block's bits |
| CsBitPacker.BitWriter.FlushBits | udp/Assets/Script/Network/BitWriter.cs:117-127 | the words' bytes are the image of everything written; scratchBits is reset to zero |
| CsBitUnpacker.BitReader.ReadBits | udp/Assets/Script/Network/BitReader.cs:35-61 | as the C++ reader, over a word array; the index stays below (bytes+3)/4 |
| CsBitUnpacker.BitReader.ReadAlign | udp/Assets/Script/Network/BitReader.cs:63-75 | true iff the skipped bits are zero |
| CsBitUnpacker.BitReader.ReadBytes | udp/Assets/Script/Network/BitReader.cs:82-128 | the destination receives exactly the next bytes of the stream |
| CsStreams.WriteStream.SerializeInteger | udp/Assets/Script/Network/WriteStream.cs:18-27 | the C# width computation writes the same field as C++ |
| CsStreams.WriteStream.Flush | udp/Assets/Script/Network/WriteStream.cs:68-76 | the bytes handed out are the image of everything serialized over a copy of the caller's buffer |
| CsStreams.ReadStream.SerializeInteger | udp/Assets/Script/Network/ReadStream.cs:22-35 | overflow leaves the caller's variable alone and sets the error |
| CsStreams.ReadStream.SerializeAlign | udp/Assets/Script/Network/ReadStream.cs:66-78 | as in C++: never sets an error; a bad padding moves the reader but is not counted, so the counts agree afterwards iff they did and the padding was zero |
| CsStreams.ReadStream.SerializeBytes | udp/Assets/Script/Network/ReadStream.cs:52-64 | three outcomes on arbitrary bytes, with what each leaves in the destination, the error and the position; the counts agree afterwards iff they did and the padding was zero |
| SerializationExtension.OneCallAgrees | udp/Assets/Script/Network/Serialization/SerializationExtension.cs:16-38 | on arbitrary bits, call by call: what C++ accepts C# returns, overflow is the same event in both, and the only other leniency is bad padding and out-of-range integers |
| SerializationExtension.ZeroOnFailure | udp/Assets/Script/Network/Serialization/SerializationExtension.cs:16-124 | what a call returns when its bits are not there: 0, false, zero for a missing word of a 64-bit value, zero bytes for a block that cannot be read or whose padding is bad |
| SerializationExtension.StrictIsLenient | udp/Assets/Script/Network/Serialization/SerializationExtension.cs:16-123 | a schema C++ reads successfully C# reads to the same values, position and no error |
| SerializationExtension.LenientIsStrict | udp/Assets/Script/Network/Serialization/SerializationExtension.cs:32-101 | on schemas of bit fields, flags and 64-bit values, as the handshake's are, C# has no error iff C++ accepts |
| SerializationExtension.AcceptedIffAllIntact | udp/Assets/Script/Network/Serialization/SerializationExtension.cs:16-123 | on arbitrary bits and any schema: C++ accepts iff, in the C# reading, nothing overflows, every integer is in range and every padding is zero |
| SerializationExtension.DeserializedInRange | udp/Assets/Script/Network/Serialization/SerializationExtension.cs:16-22 | on a given input the unchecked result of DeserializeInt is in its range iff the wire word is at most max-min or, when the field does not fit and zero is returned, zero is in the range |
| SerializationExtension.AlwaysInRange | udp/Assets/Script/Network/Serialization/SerializationExtension.cs:16-22 | it is in range on every input iff max-min is exactly 2^bits - 1 and the range contains zero |
| SerializationExtension.EscapesByWord | udp/Assets/Script/Network/Serialization/SerializationExtension.cs:16-22 | one input on which it is not: the first wire word above the range, which C++ rejects |
| SerializationExtension.EscapesByOverflow | udp/Assets/Script/Network/ReadStream.cs:26-30 | the other: an empty input, returned as zero, which C++ reports as an overflow |
| SerializationExtension.SerializeUInt64 | udp/Assets/Script/Network/Serialization/SerializationExtension.cs:84-92 | low word first, through a signed parameter that loses nothing |
| SerializationExtension.SerializeAll | udp/Assets/Script/Network/Serialization/SerializationExtension.cs:7-119 | running a schema over the C# writer appends exactly the C++ encoding |
| SerializationExtension.Deserialize | udp/Assets/Script/Network/Serialization/SerializationExtension.cs:16-124 | one extension call on arbitrary bytes: value, position and error, whatever happens; the counts agree afterwards iff they did and no padding was bad |
| SerializationExtension.DeserializeAll | udp/Assets/Script/Network/Serialization/SerializationExtension.cs:16-124 | a schema on arbitrary bytes: every call is made, whatever the earlier ones did; the counts agree afterwards iff they did and no padding was bad |
| CrossLanguage.Exchange | udp/Assets/Script/Network/BitWriter.cs:28-127 | for every schema and every initial buffer the two writers leave identical bytes and report the same length, and each side reads the other's message as the values written |
| CrossLanguage.ReadOnBoth | udp/Assets/Script/Network/BitReader.cs:35-128 | on arbitrary bytes, whatever the C++ reader accepts the C# reader returns, without an error |
| CrossLanguage.MessageReadsBack | svr/library/networking/BitWriter.h:26-112 | both readers decode the first reported bytes of a flushed buffer to the values written |
| SessionTable.FindFindsUser | svr/library/networking/Session.cpp:78-87 | while the maps are inverse, lookup by uid finds a session of that user, and finds one iff there is one |
| SessionTable.DestroyKeepsInverse | svr/library/networking/Session.cpp:55-66 | destroying keeps the maps inverse and removes the user's id |
| SessionTable.ProduceKeepsInverse | svr/library/networking/Session.cpp:37-53 | producing keeps the maps inverse iff the truncated next id is not held by another user's live session |
| SessionTable.ProduceRegisters | svr/library/networking/Session.cpp:37-53 | then the new session is found for its user and every other user's session is kept untouched |
| SessionTable.CollisionMisdirects | svr/library/networking/Session.cpp:37-53 | otherwise the displaced user's lookup returns the other user's session |
| SessionTable.StepsKeepInverse | svr/library/networking/Session.cpp:37-66 | any interleaving of destructions with at most 65536 productions keeps the maps inverse |
| SessionSteps.SafeIffReleased | svr/library/networking/Session.cpp:37-66 | an interleaving of productions and destructions of any length keeps the maps inverse throughout iff every session whose id comes round again has been renewed by its user, or destroyed, by then |
| SessionTable.SafeIffRenewed | svr/library/networking/Session.cpp:37-53 | a run of productions of any length keeps the maps inverse throughout iff every user produces again within the next 65536 productions |
| SessionTable.UnsafeMisdirects | svr/library/networking/Session.cpp:44-51 | the production that makes a run unsafe makes some user's lookup find another's session |
| SessionTable.ShortRunsSafe | svr/library/networking/Session.cpp:37-53 | so every run of at most 65536 does |
| SessionTable.LongRunUnsafe | svr/library/networking/Session.cpp:44-51 | and 65537 do not: a user followed by 65536 productions of others is looked up as the last of them |
| Sessions.SessionManager.GetSession | svr/library/networking/Session.cpp:68-76 | the session object stored under the id, or none |
| Sessions.SessionManager.GetSessionByUid | svr/library/networking/Session.cpp:78-87 | the object the two lookups lead to, or none |
| Sessions.SessionManager.DestroySession | svr/library/networking/Session.cpp:55-66 | the objects' table changes as the pure table's destruction |
| Sessions.SessionManager.ProduceSession | svr/library/networking/Session.cpp:37-53 | the objects' table changes as the pure table's production; a new object is stored under its own id |
| Sessions.SessionManager.SetPeer | svr/library/networking/Session.h:20 | only that session's peer changes |
| Handshake.WireForms | udp/Assets/Script/Game/Protocol/GameProtocol.cs:19-51 | a request is command, session id and user id in 11 bytes, a reply command and session id in 3, low byte first |
| Handshake.PlainReadsBack | svr/library/networking/Server.cpp:71-77 | a packet's fields read back from the front of any longer buffer, by either side |
| Handshake.DispatchAgrees | svr/library/networking/Server.cpp:28-41 | the byte dispatched on is the decoded command |
| Handshake.RequestReceived | svr/library/networking/Server.cpp:25-41 | a client's request, whatever follows it and however the receive buffer cuts it, is a start request for its user |
| Handshake.UidServed | svr/library/networking/Server.cpp:71-77 | on arbitrary bytes: the user served is bytes 3 to 10 of the datagram, or, when it is shorter than 11 bytes, whatever the uid field happened to hold, since the result of reading is ignored |
| Handshake.StartRequests | svr/library/networking/Server.cpp:19-41 | which arrivals are served, in literal bytes: those whose first byte is 101, however short, in order, each for its bytes 3 to 10 or for the stale value |
| HandshakeRuns.ServeIsRun | svr/library/networking/Server.cpp:19-117 | whatever arrives, the table is that of a run of productions, one per start request, and there is one reply per request |
| HandshakeRuns.Replies | svr/library/networking/Server.cpp:102-114 | the i-th reply goes to the i-th requester and carries the id of production i+1 |
| HandshakeRuns.PeersAreLast | svr/library/networking/Server.cpp:98-99 | each user's session has the last requester as its peer |
| HandshakeRuns.HandshakeRun | svr/library/networking/Server.cpp:19-117 | after any run of datagrams in which every user starts again before 65536 later starts have passed: inverse maps, sessions for exactly the users who asked, last sender as peer, and the last reply, sent there, decodes on the client as the live session id whatever follows it |
| HandshakeRuns.HandshakeRunExact | svr/library/networking/Server.cpp:19-117 | the condition is exact: without it some table on the way is not inverse |
| HandshakeRuns.LookupsExact | svr/library/networking/Server.cpp:19-117 | exact for lookups too: in every table on the way each lookup by user id that finds a session finds that user's, iff the condition holds |
| HandshakeRuns.ShortHandshakeRun | svr/library/networking/Server.cpp:19-117 | any run of at most 65536 start requests qualifies |
| HandshakeRuns.ClientsServed | udp/Assets/Script/Game/Protocol/GameProtocol.cs:19-25 | requests made by clients are all served, for the users and from the senders that made them |
| HandshakeRuns.ServeConcat | svr/library/networking/Server.cpp:66-69 | serving over several ticks is serving at once |
| ServerLoop.Server.ReceivePackets | svr/library/networking/Server.cpp:19-64 | handles the datagrams before the first empty one, cut to 500 bytes, and leaves the rest |
| ServerLoop.Server.ProcessStart | svr/library/networking/Server.cpp:71-117 | from the request's bytes to the new table and the reply's bytes |
| ServerLoop.Server.ReadUid | svr/library/networking/Server.cpp:73-75 | the uid decoded by the C++ read stream, or what it was before |
| ServerLoop.Server.WriteReply | svr/library/networking/Server.cpp:102-114 | the bytes sent are the reply's, whatever the stack buffer held |
| GameProtocol.WriteStartRequest | udp/Assets/Script/TestUDP.cs:36-52 | the client's 1024-byte buffer starts with the request |
| GameProtocol.ReadStartResponse | udp/Assets/Script/Game/Protocol/GameProtocol.cs:53-58 | command and session id as the lenient reader decodes them, with nothing lost in the narrowing casts |
| GameProtocol.StartSession | svr/library/networking/Server.cpp:19-117 | one handshake, bytes to bytes, against a server in any state: the id the client decodes is the id under which the server now holds that user's session, with the client as peer |
| GameProtocol.StartSessions | svr/library/networking/Server.cpp:19-117 | a whole client program's run against a new server |
| SocketQueues.RunKeeps | svr/library/networking/SocketInterface.cpp:117-265 | after every run of sends, writes, reads, receives and arrivals: queue bounds, the counter laws, and both queues' contents as exact functions of the history |
| SocketQueues.Conservation | svr/library/networking/SocketInterface.cpp:117-265 | SENT = queued + WRITTEN + WRITE_FAILURES; READ = queued + RECEIVED; datagrams taken = READ + READ_FAILURES + RECEIVE_OVERFLOW; neither queue exceeds its limit |
| SocketQueues.WritesFollowSends | svr/library/networking/SocketInterface.cpp:167-208 | socket writes are an in-order subsequence of the accepted sends |
| SocketQueues.WriteKeeps | svr/library/networking/SocketInterface.cpp:167-208 | writing empties the send queue and keeps the laws |
| SocketQueues.ReadKeeps | svr/library/networking/SocketInterface.cpp:210-265 | reading keeps the laws, including the break that loses a datagram already taken |
| SocketQueues.SendKeeps | svr/library/networking/SocketInterface.cpp:117-143 | sending keeps the laws, on a socket error and on overflow too |
| SocketQueues.ReceiveKeeps | svr/library/networking/SocketInterface.cpp:145-165 | receiving keeps the laws |
| QueueRuns.ReadOutcome | svr/library/networking/SocketInterface.cpp:210-265 | after a read either the socket holds what follows its first empty datagram, or the receive queue is full and one more overflow is counted; the second iff the datagrams before the last one waiting suffice to fill the queue |
| QueueRuns.ReadStops | svr/library/networking/SocketInterface.cpp:210-265 | the whole state after a read: which datagrams were taken, in order, which were handed to the packet processor, what was queued and counted |
| QueueRuns.WriteOutcome | svr/library/networking/SocketInterface.cpp:167-208 | the whole state after a write |
| QueueRuns.SendsAccepted | svr/library/networking/SocketInterface.cpp:117-143 | over any run without a socket error, between two writes the first sendLimit packets offered are accepted and exactly the others overflow; every send is counted as one or the other |
| QueueRuns.NothingSkipped | svr/library/networking/SocketInterface.cpp:210-265 | over any run, the datagrams taken and those still waiting are those that arrived, in order, but for empty ones |
| SocketInterfaces.SocketInterface.SendPacket | svr/library/networking/SocketInterface.cpp:117-143 | below the limit the packet joins the queue and is counted as sent, at the limit only the overflow is counted, on a socket error nothing happens |
| SocketInterfaces.SocketInterface.ReceivePacket | svr/library/networking/SocketInterface.cpp:145-165 | the oldest queued packet and its sender, which leave the queue and are counted, or none on an error or an empty queue |
| SocketInterfaces.SocketInterface.WritePackets | svr/library/networking/SocketInterface.cpp:167-208 | the queue is emptied: the socket gets a datagram for each packet that can be written, in order, and the others are counted as failures |
| SocketInterfaces.SocketInterface.ReadPackets | svr/library/networking/SocketInterface.cpp:210-265 | the datagrams before the first empty one are read in order, unreadable ones counted and passed over, until they are used up or the queue is full when one more arrives, which is lost; nothing else changes |
| SocketInterfaces.Drive | svr/library/networking/SocketInterface.cpp:117-265 | any program driving the object leaves it in the state of the corresponding run, with the laws holding, and is handed exactly the packets delivered |
| Delivery.InOrderDelivery | svr/library/networking/SocketInterface.cpp:167-265 | two interfaces over a network that neither loses nor reorders: without overflow and write failures the receiver gets the packets sent, in order |
| Delivery.InOrderWithLoss | svr/library/networking/SocketInterface.cpp:167-265 | over a network that may lose but keeps the order, with failures, overflow and cutting: the packets delivered and queued are an in-order subsequence of those accepted for sending |
| Delivery.NoForgery | svr/library/networking/SocketInterface.cpp:167-265 | over a network that may lose, repeat and reorder, and a receive buffer that may cut: every packet received was sent |
| Delivery.NoneMisread | svr/library/networking/SocketInterface.cpp:210-265 | and if the receive buffer is large enough, no datagram is a read failure |
| Delivery.SameProtocol | svr/library/networking/PacketProcessor.cpp:35-81 | the framed packet processors of one protocol and buffer size read back whatever they write, as in-order delivery asks |
| Delivery.OneProtocol | svr/library/networking/SocketInterface.cpp:167-265 | between two interfaces of one protocol, over a network that may lose, repeat and reorder: every packet received was sent, and no datagram is a read failure |
| Delivery.SameTypesFaithful | svr/library/networking/PacketProcessor.cpp:35-81 | processors that know the same packet types never misread each other, whatever their protocol ids and buffer sizes, as the no-forgery result asks; a datagram cut below 5 bytes counts as unreadable, where the source reads past it |
| Delivery.ForeignProtocol | svr/library/networking/SocketInterface.cpp:210-265 | between different protocol ids nothing is ever received and every datagram read counts as a failure (one below 5 bytes too, where the source reads past it), if nothing sent is longer than the receiver's buffer or both know the same packet types |
| Delivery.LargerBufferCutsNothing | svr/library/networking/SocketInterface.cpp:210-222 | a receiver whose buffer is at least the sender's maximum packet size meets the first of these conditions |
| FramedDelivery.WritesIffWritable | svr/library/networking/PacketProcessor.cpp:35-55 | a processor with room for 25 bytes writes exactly the packets that meet the source's assertions, as frames |
| FramedDelivery.NoWriteFailures | svr/library/networking/SocketInterface.cpp:167-208 | so sending only such packets never counts a write failure |
| FramedDelivery.FramedInOrder | svr/library/networking/SocketInterface.cpp:117-265 | between two interfaces of one protocol with room for 25 bytes, over a network that neither loses nor reorders, without receive overflow: packets in range arrive in order and no read or write fails |
| CutWitness.CutFrameAccepted | svr/library/networking/Network.cpp:70-165 | without that condition it fails: a 10-byte frame cut to 8 bytes passes the checksum of another protocol with one packet type and is accepted as a packet nobody sent |

## Left out

- Sockets, threads, Unity scripts and logging: a socket is a sequence of datagrams in and a sequence out, and the network between two of them a condition on those sequences.
- The uninitialized stack of the server: what the request's uid field holds before it is read is a parameter of each arrival.
- Address parsing and printing: an address is an opaque value.
- The big-endian build: host order is little-endian, as on every supported processor.
- Machine integers for sizes, positions and counters: these are unbounded here, so buffers must stay below 2^28 bytes; the values packed, the offsets of ranged integers, the scratch registers and the session ids are modelled with their widths. The session counter's signed overflow after 2^31 productions is not modelled.
- Signed overflow in `serialize_int`'s arithmetic, which the C++ standard leaves undefined: it wraps here, as C# arithmetic does.
- Writing after a final flush: C++ leaves `m_scratchBits` negative, so a message is flushed once.
- `serialize_enum`: its reading branch assigns the variable to itself, so nothing round-trips.
- Floats and doubles: they are 32- and 64-bit patterns, that is, a bit field of width 32 and a `UInt64`; their conversion is not modelled.
- `serialize_object`, `read_*` and `write_*` macros: they repeat the calls modelled here.
- `SerializeCheck` (compiled out), hashes, zig-zag conversion, and sequence-number comparison, which nothing else uses.
- The C# text encoding: a string is its number of characters and its encoded bytes, of which there are at least as many.
- The C# measure stream, checksum and sockets, which repeat the C++ ones or are plumbing.
- Object lifetime: packets are values, so the references used after `pop` and the packet that a failed write does not destroy are not visible.
- The packet processor inside the socket interface is a pair of functions; its buffer, the entry's sequence number and the encryption counters, which stay zero, are not part of `SocketQueues`. `Delivery.SameProtocol` instantiates the pair with the framed reading and writing.
- The allowed-packet-types list of `PacketInfo`, which `ReadPacket` does not consult.
- Checksum bursts that straddle the end of the checksum field.
- Network.ReadPacket: takes only datagrams that reach the end of the checksum field, because on shorter ones the range the source checksums is not inside the datagram (`Network.ChecksummedInside`); raw datagrams may have any length.
- PacketProcessing.PacketProcessor.ReadPacket: takes only datagrams of 5 bytes or more, for the same reason.
- Network.WritePacket: asks for room for the whole stream, which the source asserts bit by bit.
- Delivery.SameProtocol: asks for more than one packet type, because with one only packets of type 0 read back (`FramedRoundTrip` has both directions).
- GameProtocol.StartSession: starts from a server with nothing waiting, so that the client's request is the one served; `HandshakeRuns.HandshakeRun` covers any arrivals.
- StringField.StringFormsAgree: compares text of one byte a character; longer encodings are cut by the C# writer, as `CsStringField.ClientStringRoundTrip` says.
- Delivery.ForeignProtocol: says nothing when frames are cut and the packet types differ; `CutWitness.CutFrameAccepted` shows that there it can fail.
- Datagrams below 5 bytes in `Delivery`: the packet processor there counts them as unreadable, where the source's checksum range leaves the datagram.
