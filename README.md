# libairx core, modelled in Dafny

libairx shares clipboard text and files between machines on a local
network. Its core is a hand-rolled binary wire protocol and the small
decision rules around it. This project models that core and proves what
its code promises:

- **Integer codecs.** The little-endian `to_bytes`/`from_bytes` of
  `UnifiedEndian` and `UniversalEndian`, and the IPv4 to `u32` conversion.
- **Packets.**
  - the `DataPacket` envelope;
  - the typed payloads (`TextPacket`, `FileComingPacket`,
    `FileReceiveResponsePacket`, `FilePartPacket`, `FilePartResponsePacket`);
  - the 12-byte `DiscoveryPacket`;
  - the older text and file-coming formats;
  - the `MagicNumbers` and `FileSendingStatus` codes.

  Each serializer has a round-trip lemma. Each decoder's ordered error
  checks are proved, and so are the inputs on which the code indexes past
  the end (a `Panic` result, not an invented error).
- **Framing.** `DataTransmission`'s 4-byte length prefix and its retry
  counting, and the two `TextTransmission`s with their 65535-byte ceiling.
  All of them run over a `Socket` class, which holds the pending input, the
  buffers written and a script of call outcomes.
- **Discovery.**
  - the broadcast-address arithmetic `ip | !mask`;
  - the TTL peer list, a `seq` updated in place by upsert and sweep;
  - the `handle_new_peer` filter over a peer set keyed by host;
  - the receive loop and its interrupt polling.
- **Services and handlers.**
  - the `SYNC:` text filter and the fan-out to subscribers;
  - the `DataService` dispatch by magic number, and the timeout counter
    that gates interrupt polling;
  - the `ConnectionControl` every handler returns;
  - the sender-side file-chunk loop and its status reports.

Text is Dafny's `string` (a sequence of Unicode scalar values). A UTF-8
encoder and decoder are written out, with strict and lossy decoding, and
proved inverse. Rust's fixed-width integers are subset types of `int`,
with wrap-around and `as` casts written out. Panics (an index past the
end, a `usize` underflow) are a `Panic` outcome.

Loops in the source are methods with `while` or `for` loops. Each method
is proved against a function that specifies its whole result.

## Model

| member | source | states |
|---|---|---|
| UnifiedEndian.ToLe | src/compatibility/unified_endian.rs:12-14 | the little-endian encoding of a number below 256^width has exactly width bytes |
| UnifiedEndian.FromLe | src/compatibility/unified_endian.rs:15-17 | the number read from b little-endian is below 256^\|b\|, so it fits the type of that size |
| UnifiedEndian.FromLeToLe | src/compatibility/unified_endian.rs:12-17 | reading back the little-endian encoding of n in any width that holds n gives n |
| UnifiedEndian.ToLeFromLe | src/compatibility/unified_endian.rs:12-17 | encoding the number read from b in \|b\| bytes gives b again, so each width's encoding is a bijection |
| UnifiedEndian.ToLeInjective | src/compatibility/unified_endian.rs:12-14 | two numbers of the same width with the same bytes are equal |
| UnifiedEndian.Unsigned | src/compatibility/unified_endian.rs:13 | the two's complement bit pattern of a value of a signed or unsigned type is below 256^size |
| UnifiedEndian.ToBytes | src/compatibility/unified_endian.rs:11-14 | `to_bytes` of every macro instance gives exactly `size_of::<T>()` bytes |
| UnifiedEndian.FromBytes | src/compatibility/unified_endian.rs:15-17 | `from_bytes` of `size_of::<T>()` bytes gives a value of type T |
| UnifiedEndian.FromBytesToBytes | src/compatibility/unified_endian.rs:12-17 | `T::from_bytes(v.to_bytes()) == v` for every instance type and every value |
| UnifiedEndian.ToBytesFromBytes | src/compatibility/unified_endian.rs:12-17 | `T::from_bytes(b).to_bytes() == b` for every byte array of the type's size |
| UnifiedEndian.LittleEndianExamples | tests/test_unified_endian.rs:7-18 | u16 0x1234 encodes as [0x34, 0x12] and u32 0x12345678 as [0x78, 0x56, 0x34, 0x12] |
| UnifiedEndian.TwosComplementExamples | tests/test_unified_endian.rs:20-32 | i16 -0x1234 encodes as [0xcc, 0xed] and i32 -0x12345678 as [0x88, 0xa9, 0xcb, 0xed] |
| BytesEndian.ToBytes | src/compatibility/bytes_endian.rs:16-18 | `to_bytes` of an integer instance has `size_of::<T>()` bytes (byte i is `(n >> 8i) & 0xFF`) |
| BytesEndian.FromBytes | src/compatibility/bytes_endian.rs:20-22 | `from_bytes` gives a value of type T |
| BytesEndian.ToLeByte | src/compatibility/bytes_endian.rs:17 | byte i of the little-endian encoding is `(n / 256^i) % 256`, i.e. `(n >> 8i) & 0xFF` |
| BytesEndian.WeightedSumIsFromLe | src/compatibility/bytes_endian.rs:21 | the byte-weighted sum equals the little-endian reading of the bytes |
| BytesEndian.ToBytesAgree | src/compatibility/bytes_endian.rs:16-18 | for every shared integer type, `UniversalEndian::to_bytes` gives the same bytes as `UnifiedEndian::to_bytes` |
| BytesEndian.FromBytesAgree | src/compatibility/bytes_endian.rs:20-22 | for every shared integer type, both traits read the same value from the same bytes |
| BytesEndian.RoundTrip | src/compatibility/bytes_endian.rs:16-22 | `from_bytes(to_bytes(v)) == v` for the integer instances |
| Wire.Le16 | src/compatibility/unified_endian.rs:12-14 | a u16 field is 2 bytes |
| Wire.Le32 | src/compatibility/unified_endian.rs:12-14 | a u32 field is 4 bytes |
| Wire.Le64 | src/compatibility/unified_endian.rs:12-14 | a u64 field is 8 bytes |
| Wire.Read16Le16 | src/compatibility/unified_endian.rs:12-17 | a u16 written at any position of a buffer reads back from that position, whatever surrounds it |
| Wire.Read32Le32 | src/compatibility/unified_endian.rs:12-17 | the same for a u32 field |
| Wire.Read64Le64 | src/compatibility/unified_endian.rs:12-17 | the same for a u64 field |
| Wire.Le16Read16 | src/compatibility/unified_endian.rs:12-17 | the u16 read at position i, written again, gives the two bytes it was read from |
| Wire.Le32Read32 | src/compatibility/unified_endian.rs:12-17 | the same for the four bytes of a u32 field |
| Wire.Le64Read64 | src/compatibility/unified_endian.rs:12-17 | the same for the eight bytes of a u64 field |
| Wire.Le16IsToBytes | src/compatibility/unified_endian.rs:12-14 | the packet codecs' u16 field is `UnifiedEndian::to_bytes` of the u16 |
| Wire.Le32IsToBytes | src/compatibility/unified_endian.rs:12-14 | the packet codecs' u32 field is `UnifiedEndian::to_bytes` of the u32 |
| Wire.Le64IsToBytes | src/compatibility/unified_endian.rs:12-14 | the packet codecs' u64 field is `UnifiedEndian::to_bytes` of the u64 |
| Wire.Read16IsFromBytes | src/compatibility/unified_endian.rs:15-17 | the packet codecs' u16 read is `u16::from_bytes` of the two bytes |
| Wire.Read32IsFromBytes | src/compatibility/unified_endian.rs:15-17 | the packet codecs' u32 read is `u32::from_bytes` of the four bytes |
| Wire.Read64IsFromBytes | src/compatibility/unified_endian.rs:15-17 | the packet codecs' u64 read is `u64::from_bytes` of the eight bytes |
| Utf8.EncodeChar | src/packet/data/text_packet.rs:70 | each character of `as_bytes` takes 1 to 4 bytes |
| Utf8.Encode | src/packet/data/text_packet.rs:70 | `as_bytes` has at least as many bytes as the text has characters |
| Utf8.DecodeStep | src/packet/data/text_packet.rs:86-87 | one UTF-8 decoding step consumes between 1 and 4 bytes of the input |
| Utf8.StepEncodeChar | src/packet/data/text_packet.rs:70-86 | decoding the encoding of a character, whatever follows, gives that character and its byte length |
| Utf8.StepScalarIsEncoding | src/packet/data/text_packet.rs:86 | a decoded scalar value re-encodes to exactly the bytes it was decoded from |
| Utf8.FromUtf8Encode | src/packet/data/text_packet.rs:70-86 | `String::from_utf8(s.as_bytes())` is `Ok(s)` |
| Utf8.FromUtf8IsInverse | src/packet/data/text_packet.rs:86 | every text `from_utf8` accepts encodes back to exactly the input bytes |
| Utf8.FromUtf8Iff | src/packet/data/text_packet.rs:70-86 | `from_utf8(b)` yields s if and only if b is the encoding of s |
| Utf8.EncodeInjective | src/packet/data/text_packet.rs:70 | two texts with the same bytes are the same text |
| Utf8.LossyOfValid | src/packet/data/file_receive_response_packet.rs:119 | on well-formed UTF-8, `from_utf8_lossy` returns what `from_utf8` does |
| Utf8.LossyEncode | src/packet/data/file_receive_response_packet.rs:119 | `from_utf8_lossy(s.as_bytes())` is s |
| Utf8.EncodeAppend | src/network/text_service.rs:50 | the bytes of a concatenation are the concatenated bytes, so a prefix stays a byte prefix |
| TextHashing.TextHash | src/packet/data/text_packet.rs:54-60 | the loop's `ret` ends as the wrapping sum of `(i * c) as u16` over the text, from the seed |
| TextHashing.SeedValue | src/packet/data/text_packet.rs:55 | the seed `u16::MAX ^ 0x12 ^ 0x13 ^ 0x8` is 0xFFF6 |
| TextHashing.WeightsFromSnoc | src/packet/data/text_packet.rs:56-57 | one more character adds its index-weighted code point to the sum |
| TextHashing.HashIsSum | src/packet/data/text_packet.rs:54-60 | the checksum is the seed plus the sum of all `(i * c) mod 2^16`, reduced mod 2^16 |
| TextHashing.FirstCharIgnored | src/packet/data/text_packet.rs:56-57 | character index 0 has weight 0, so the first character never changes the checksum |
| TextPackets.New | src/packet/data/text_packet.rs:102-107 | `new` fails with `StringTooLong` exactly when the UTF-8 length exceeds 0xffff; otherwise it keeps the text and sets `text_length` to its byte length |
| TextPackets.Serialized | src/packet/data/text_packet.rs:10-76 | the serialisation is 6 + N bytes: u32 length, text bytes, `text_hash` |
| TextPackets.Serialize | src/packet/data/text_packet.rs:69-76 | the bytes appended to the Vec are exactly that layout |
| TextPackets.RoundTrip | src/packet/data/text_packet.rs:68-98 | `deserialize(serialize(new(t)))` is `new(t)`, whatever bytes follow the hash |
| TextPackets.DeserializeInverse | src/packet/data/text_packet.rs:78-98 | every successful decode is `new` of its text and read exactly its own serialisation from the front of the input |
| TextPackets.DeserializeChecks | src/packet/data/text_packet.rs:81-97 | under 6 bytes gives `InvalidData`; invalid UTF-8 gives `InvalidData`; a checksum mismatch gives `InvalidHash` |
| TextPackets.PanicCases | src/packet/data/text_packet.rs:85-88 | a length field past the end, and a text that leaves no room for the hash, reach an out-of-bounds slice (Rust panics) |
| DataPackets.Serialized | src/packet/data_packet.rs:6-76 | the envelope is 8 + N bytes: magic (u16), N as u32, payload, `(N / 2) as u16` |
| DataPackets.Serialize | src/packet/data_packet.rs:68-76 | the successive `extend_from_slice` calls build exactly that layout |
| DataPackets.RoundTrip | src/packet/data_packet.rs:67-103 | every packet with N < 2^32 decodes back to itself, whatever its magic number |
| DataPackets.DeserializeInverse | src/packet/data_packet.rs:78-103 | whatever decodes is exactly the serialisation of the decoded packet, so no two inputs decode alike |
| DataPackets.DecodedFields | src/packet/data_packet.rs:84-100 | a successful decode has length 8 + N for the declared N, takes its payload from bytes 6..6+N and carries checksum `(N / 2) as u16` |
| DataPackets.DeserializeChecks | src/packet/data_packet.rs:80-100 | under 8 bytes gives `InvalidMagicNumber`; a declared length other than total − 8 gives `CorruptedData` before any slicing; a checksum other than N/2 gives `InvalidHash` |
| DataPackets.PayloadNotCovered | src/packet/data_packet.rs:63-100 | changing payload bytes keeps a packet decodable, with the changed payload: the checksum depends on the length only |
| FileComingPackets.New | src/packet/data/file_coming_packet.rs:23-32 | `new` stores size and name verbatim and sets `file_name_length` to the name's UTF-8 byte length |
| FileComingPackets.PacketHashLowBits | src/packet/data/file_coming_packet.rs:97-99 | with the u32 addition taken as wrapping, the checksum is `(file_size + file_name_length) mod 2^16`: only the low 16 bits of each matter |
| FileComingPackets.EqOfNew | src/packet/data/file_coming_packet.rs:52-61 | on packets built by `new`, `eq` (size and name only) coincides with equality of all three fields |
| FileComingPackets.Serialized | src/packet/data/file_coming_packet.rs:8-115 | the serialisation is 14 + N bytes: u64 size, u32 name length, name, u16 checksum |
| FileComingPackets.Serialize | src/packet/data/file_coming_packet.rs:108-115 | the successive `extend_from_slice` calls build exactly that layout |
| FileComingPackets.LayoutHeader | src/packet/data/file_coming_packet.rs:122-123 | the size and the name length read back from bytes 0..8 and 8..12 |
| FileComingPackets.Layout | src/packet/data/file_coming_packet.rs:122-132 | every field of the layout reads back from the position `deserialize` takes it from |
| FileComingPackets.RoundTrip | src/packet/data/file_coming_packet.rs:107-145 | `deserialize(serialize(new(s, n)))` is `new(s, n)`, whatever bytes follow the checksum (so it is `eq` to the original) |
| FileComingPackets.DecodeOfLayout | src/packet/data/file_coming_packet.rs:117-144 | a well-formed layout decodes to the packet `new` makes of its size and name |
| FileComingPackets.DeserializeInverse | src/packet/data/file_coming_packet.rs:117-144 | a successful decode read exactly the serialisation of its result from the front of the input |
| FileComingPackets.DeserializeChecks | src/packet/data/file_coming_packet.rs:118-141 | under 12 bytes gives `CorruptedPacket`; an ill-formed name gives `FileNameTooLong`; a checksum mismatch gives `InvalidHash` |
| FileComingPackets.PanicCases | src/packet/data/file_coming_packet.rs:122-132 | a name length past the end, and a name that leaves no room for the checksum, reach an out-of-bounds slice (Rust panics) |
| FileReceiveResponsePackets.New | src/packet/data/file_receive_response_packet.rs:24-37 | `new` stores id, size, name and accepted verbatim and sets `file_name_length` to the name's UTF-8 byte length |
| FileReceiveResponsePackets.Serialized | src/packet/data/file_receive_response_packet.rs:14-107 | the serialisation is 14 + N bytes: id, u64 size, u32 name length, name, accepted as 1 or 0 |
| FileReceiveResponsePackets.Serialize | src/packet/data/file_receive_response_packet.rs:99-107 | the `push` / `extend_from_slice` calls build exactly that layout |
| FileReceiveResponsePackets.DeserializeSucceedsIff | src/packet/data/file_receive_response_packet.rs:109-128 | decoding fails (with `CorruptedData`) exactly when the input is under 14 bytes or under 14 + its declared name length, so every later index is in bounds and bad UTF-8 never fails |
| FileReceiveResponsePackets.Layout | src/packet/data/file_receive_response_packet.rs:113-120 | every field of the layout reads back from the position `deserialize` takes it from |
| FileReceiveResponsePackets.RoundTrip | src/packet/data/file_receive_response_packet.rs:98-128 | `deserialize(serialize(new(...)))` is the packet itself (hence `eq` to it), whatever bytes follow the accepted byte |
| FileReceiveResponsePackets.DecodedFields | src/packet/data/file_receive_response_packet.rs:113-127 | a decoded packet has the id of byte 0, the size of bytes 1..9, the lossy decoding of the name bytes, and accepted iff the byte after the name is not 0 |
| FilePartPackets.Serialized | src/packet/data/file_part_packet.rs:13-103 | the serialisation is 17 + \|data\| bytes: id, u64 offset, u64 length field, data |
| FilePartPackets.Serialize | src/packet/data/file_part_packet.rs:96-103 | the `push` / `extend_from_slice` calls build exactly that layout, writing the length field and not `data.len()` |
| FilePartPackets.Deserialize | src/packet/data/file_part_packet.rs:105-144 | whatever decodes has a length field equal to its data size, and the input is 17 + that size bytes |
| FilePartPackets.Layout | src/packet/data/file_part_packet.rs:110-136 | id, offset, length and data read back from the positions `deserialize` takes them from |
| FilePartPackets.RoundTripIff | src/packet/data/file_part_packet.rs:95-144 | `deserialize(serialize(p)) == p` exactly when `length == data.len()`; otherwise decoding fails with `CorruptedData` |
| FilePartPackets.DeserializeInverse | src/packet/data/file_part_packet.rs:105-144 | whatever decodes is exactly the serialisation of the decoded packet |
| FilePartPackets.DeserializeChecks | src/packet/data/file_part_packet.rs:106-134 | under 17 bytes, or a total length other than 17 + the declared length, fails with `CorruptedData` |
| FilePartResponsePackets.KindCode | src/packet/data/file_part_response_packet.rs:5-8 | the discriminant of a response kind is 1 (StopSending) or 2 (StopReceiving) |
| FilePartResponsePackets.New | src/packet/data/file_part_response_packet.rs:22-30 | `new` stores the file id and the kind's discriminant |
| FilePartResponsePackets.Kind | src/packet/data/file_part_response_packet.rs:36-42 | `response_kind()` is defined on bytes 1 and 2 only (any other byte panics) and returns the kind whose discriminant is the stored byte |
| FilePartResponsePackets.KindOfNew | src/packet/data/file_part_response_packet.rs:22-42 | the kind given to `new` comes back from `response_kind()` |
| FilePartResponsePackets.Serialized | src/packet/data/file_part_response_packet.rs:15-77 | the serialisation is exactly `[file_id, kind]`, 2 bytes |
| FilePartResponsePackets.Serialize | src/packet/data/file_part_response_packet.rs:72-77 | the two `push` calls build exactly `[file_id, kind]` |
| FilePartResponsePackets.Deserialize | src/packet/data/file_part_response_packet.rs:79-91 | decoding succeeds if and only if the input has exactly 2 bytes, then yields the packet those bytes serialise; otherwise `CorruptedData` |
| FilePartResponsePackets.RoundTrip | src/packet/data/file_part_response_packet.rs:71-91 | `deserialize(serialize(p)) == p` for every packet, even one with an invalid kind byte |
| FilePartResponsePackets.UncheckedKind | src/packet/data/file_part_response_packet.rs:84-90 | a kind byte that `response_kind()` would panic on (3) still decodes |
| MagicNumbers.Value | src/packet/data/magic_numbers.rs:6-11 | `value` is 0x3939 for FileComing and 0x3940 for Text |
| MagicNumbers.From | src/packet/data/magic_numbers.rs:13-19 | `from(v)` is `None` exactly for the u16 values other than 0x3939 and 0x3940, and otherwise the tag whose value is v |
| MagicNumbers.FromValue | src/packet/data/magic_numbers.rs:6-19 | `from(value(m)) == Some(m)` for both tags |
| MagicNumbers.ValueInjective | src/packet/data/magic_numbers.rs:7-10 | two tags have the same value if and only if they are the same tag |
| FileSending.ToU8 | src/packet/data/local/file_sending_packet.rs:41-52 | every status has a code in 1..8 |
| FileSending.FromU8 | src/packet/data/local/file_sending_packet.rs:54-66 | `from_u8(v)` succeeds exactly for v in 1..8, with the status whose code is v; 0 and 9..255 give `InvalidStatus` |
| FileSending.FromU8ToU8 | src/packet/data/local/file_sending_packet.rs:41-66 | `from_u8(to_u8(s)) == Ok(s)` |
| FileSending.ToU8Injective | src/packet/data/local/file_sending_packet.rs:41-52 | distinct statuses have distinct codes |
| FileSending.FileSendingPacket.constructor | src/packet/data/local/file_sending_packet.rs:77-89 | `new` stores id, progress, total and status as given |
| FileSending.FileSendingPacket.SetStatus | src/packet/data/local/file_sending_packet.rs:107-109 | `set_status` replaces the status; id, progress and total are unchanged |
| DiscoveryPackets.PacketHashIsSum | src/packet/discovery_packet.rs:61-70 | the chain of `wrapping_add`s is `(o0 + o1 + o2 + o3 + port + gid) mod 2^16`, then divided by 3 |
| DiscoveryPackets.New | src/packet/discovery_packet.rs:123-136 | `new` sets the magic number to 0x8964 and stores address, port, group and flag |
| DiscoveryPackets.Serialized | src/packet/discovery_packet.rs:9-90 | the datagram is exactly 12 bytes: magic, 4 octets, port, group, flag 1 or 0, hash |
| DiscoveryPackets.Serialize | src/packet/discovery_packet.rs:80-90 | the `copy_from_slice` calls and byte stores fill a fresh 12-byte array with exactly that layout |
| DiscoveryPackets.Deserialize | src/packet/discovery_packet.rs:92-119 | a wrong magic gives `InvalidMagicNumber`, checked before the hash; with the right magic a hash mismatch gives `InvalidHash`; otherwise the packet has the decoded fields and `need_response` iff byte 9 is exactly 1 |
| DiscoveryPackets.Layout | src/packet/discovery_packet.rs:80-102 | every field of `serialize`'s output reads back from the offset `deserialize` takes it from |
| DiscoveryPackets.RoundTrip | src/packet/discovery_packet.rs:79-136 | decoding `serialize(new(a, p, g, r))` gives back `new(a, p, g, r)` |
| DiscoveryPackets.DeserializeInverse | src/packet/discovery_packet.rs:92-119 | a datagram that decodes is the serialisation of its result, except that a flag byte other than 0 and 1 reads as 0 |
| DiscoveryPackets.FlagNotHashed | src/packet/discovery_packet.rs:61-108 | rewriting byte 9 never breaks a decode, and `need_response` is set exactly by the value 1 |
| DiscoveryPackets.Example | tests/test_discovery_packet.rs:7-19 | the test's datagram (114.51.41.91, port 9818, group 0, response wanted) decodes with port 9818 |
| LegacyTextPackets.New | src/packet/text_packet.rs:91-97 | the older `new` fails with `StringTooLong` exactly when the UTF-8 length is 0xFFFF or more, and otherwise keeps the text |
| LegacyTextPackets.Serialized | src/packet/text_packet.rs:60-67 | the older serialisation is the text bytes followed by the 2-byte `text_hash`, N + 2 bytes |
| LegacyTextPackets.Serialize | src/packet/text_packet.rs:61-67 | the two `extend_from_slice` calls build exactly that layout |
| LegacyTextPackets.RoundTrip | src/packet/text_packet.rs:60-89 | `deserialize(serialize(p))` gives back p for every non-empty text |
| LegacyTextPackets.EmptyText | src/packet/text_packet.rs:69-74 | the serialised empty text (2 bytes) fails with `InvalidData`; inputs under 2 bytes underflow `len - 2` and panic |
| LegacyTextPackets.DeserializeInverse | src/packet/text_packet.rs:69-89 | a successful decode is exactly the serialisation of its result: no trailing bytes are possible |
| LegacyTextPackets.DeserializeChecks | src/packet/text_packet.rs:76-88 | invalid UTF-8 and a checksum mismatch both fail with `InvalidHash` |
| LegacyFileComingPackets.New | src/packet/file_coming_packet.rs:35-51 | the older `new` sets magic 0x3939, stores the other fields verbatim and sets the name length to the name's byte length |
| LegacyFileComingPackets.PacketHashIsSum | src/packet/file_coming_packet.rs:138-148 | the checksum is `(o0 + o1 + o2 + o3 + port + gid + file_size) mod 2^16`, divided by 7, the size entering through its low 16 bits |
| LegacyFileComingPackets.NameNotHashed | src/packet/file_coming_packet.rs:138-148 | the checksum does not depend on the file name or its length |
| LegacyFileComingPackets.Header | src/packet/file_coming_packet.rs:10-175 | the fixed header is 17 bytes: magic, octets, port, group, u32 size, u32 name length |
| LegacyFileComingPackets.Serialized | src/packet/file_coming_packet.rs:10-179 | the serialisation is 19 + N bytes: header, name, u16 checksum |
| LegacyFileComingPackets.Serialize | src/packet/file_coming_packet.rs:168-179 | the `extend_from_slice` / `push` calls build exactly that layout |
| LegacyFileComingPackets.Deserialize | src/packet/file_coming_packet.rs:181-237 | under 19 bytes gives `CorruptedPacket`; what decodes has the magic 0x3939 and exactly 19 + N bytes |
| LegacyFileComingPackets.LayoutHeader | src/packet/file_coming_packet.rs:191-200 | every header field reads back from the offset `deserialize` takes it from |
| LegacyFileComingPackets.RoundTrip | src/packet/file_coming_packet.rs:167-237 | `deserialize(serialize(p)) == p` for every packet with the magic number and a truthful name length |
| LegacyFileComingPackets.RoundTripNew | src/packet/file_coming_packet.rs:35-237 | every packet `new` builds round-trips |
| LegacyFileComingPackets.HeaderOfDecoded | src/packet/file_coming_packet.rs:191-200 | the header fields `deserialize` reads, written again, are the first 17 input bytes |
| LegacyFileComingPackets.DecodedShape | src/packet/file_coming_packet.rs:203-236 | a decoded packet has 19 + N input bytes, a name that is the UTF-8 decoding of bytes 17..17+N, the header fields, and a matching checksum |
| LegacyFileComingPackets.DeserializeInverse | src/packet/file_coming_packet.rs:181-237 | whatever decodes is exactly the serialisation of the decoded packet |
| LegacyFileComingPackets.DeserializeChecks | src/packet/file_coming_packet.rs:187-234 | in order: a wrong magic gives `InvalidMagicNumber`, a length other than 19 + N gives `CorruptedPacket` before any slicing, an ill-formed name gives `FileNameTooLong`, a checksum mismatch gives `InvalidHash` |
| IpToU32.Octets | src/extension/ip_to_u32.rs:18-24 | octet i of `from_u32(v)` is `(v >> 8*(3-i)) & 0xFF` |
| IpToU32.PartialBound | src/extension/ip_to_u32.rs:11-14 | every partial sum of the `to_u32` loop is at most the final one, which is the big-endian value of the octets and below 2^32 |
| IpToU32.ToU32 | src/extension/ip_to_u32.rs:9-16 | `to_u32` is big-endian, octet 0 most significant, and its `+=` never overflows |
| IpToU32.FromU32 | src/extension/ip_to_u32.rs:18-24 | the loop fills the array with exactly those octets |
| IpToU32.FromToU32 | src/extension/ip_to_u32.rs:9-24 | `from_u32(to_u32(ip)) == ip` |
| IpToU32.ToFromU32 | src/extension/ip_to_u32.rs:9-24 | `to_u32(from_u32(v)) == v` |
| NetTypes.HostStringExample | tests/test_socket_addr_tostring.rs:5-7 | the IPv4 `to_string` the peer registry keys on gives dotted decimal, "10.10.10.9" |
| Peers.New | src/network/peer.rs:41-46 | `new` stores the given host and port |
| Peers.From | src/network/peer.rs:34-39 | `from` takes the textual IP as host and the socket's port |
| Peers.EqIffSameHost | src/network/peer.rs:23-27 | two peers are equal if and only if their hosts are; changing a port never changes equality |
| Peers.HashAgreesWithEq | src/network/peer.rs:11-21 | equal peers hash alike and display alike: hash and `Display` use the host only |
| Peers.EqIsEquivalence | src/network/peer.rs:23-31 | `eq` is reflexive, symmetric and transitive, and `ne` is its negation |
| Peers.SameHostDifferentPort | tests/test_peer.rs:5-11 | the test's peers: the same host with different ports are equal, different hosts are not |
| Broadcast.ToBroadcastAddr | src/network/discovery_service.rs:40-59 | the loop `ip_octets[i] \|= !mask_octets[i]` yields octet i as `ip[i] \| !mask[i]`, with 255.255.255.255 standing in for a non-IPv4 address or netmask |
| Broadcast.OrNotMask | src/network/discovery_service.rs:55 | on one byte, `ip \| !mask` keeps the bits the mask sets and sets all the others |
| Broadcast.OctetBits | src/network/discovery_service.rs:55 | the same for one octet of the result |
| Broadcast.BroadcastBits | src/network/discovery_service.rs:51-58 | in every octet of the broadcast address the network bits are the address's and the host bits are all 1 |
| Broadcast.OctetAllOnesMask | src/network/discovery_service.rs:41-55 | an all-ones mask octet leaves the address octet unchanged, and an all-ones address octet stays 255 |
| Broadcast.Fallbacks | src/network/discovery_service.rs:41-49 | a non-IPv4 address gives 255.255.255.255; a missing or non-IPv4 netmask gives the address itself |
| Broadcast.Example | src/network/discovery_service.rs:51-58 | 192.168.1.23 with netmask 255.255.255.0 broadcasts to 192.168.1.255 |
| NetworkDiscovery.BroadcastAddresses | src/network/discovery_service.rs:62-77 | one target per interface, in order: the reported IPv4 broadcast, 255.255.255.255 for a non-IPv4 one or no address, else the computed one |
| NetworkDiscovery.AcceptsIff | src/network/discovery_service.rs:96-113 | a datagram is accepted if and only if its sender IP differs from the local one and its payload is exactly the UTF-8 bytes of `HANDSHAKE_MESSAGE` |
| NetworkDiscovery.FindPeer | src/network/discovery_service.rs:116-118 | `find` returns the first entry matching both host and port; no earlier entry matches |
| NetworkDiscovery.UpsertSpec | src/network/discovery_service.rs:115-127 | if an entry matches host and port its TTL grows by one and nothing else changes, the length included; otherwise exactly one peer with TTL 3 is appended |
| NetworkDiscovery.Decremented | src/network/discovery_service.rs:141-143 | every entry's TTL is one less, nothing else changes |
| NetworkDiscovery.RetainedSpec | src/network/discovery_service.rs:144 | `retain(is_alive)` keeps exactly the alive entries and never grows the list |
| NetworkDiscovery.RetainedAppend | src/network/discovery_service.rs:144 | `retain` keeps relative order: what it keeps of a + b is what it keeps of a followed by what it keeps of b |
| NetworkDiscovery.FreshPeerLifetime | src/network/discovery_service.rs:15-145 | a new peer never heard from again survives two sweeps (TTL 2, then 1) and is dropped by the third |
| NetworkDiscovery.PeerList.constructor | src/network/discovery_service.rs:235 | the peer list starts empty |
| NetworkDiscovery.PeerList.Upsert | src/network/discovery_service.rs:115-127 | the `find` over `iter_mut` then `increment_ttl` or `push` leaves the list upserted as above |
| NetworkDiscovery.PeerList.Receive | src/network/discovery_service.rs:96-127 | one received datagram upserts its sender if it is accepted, and leaves the list unchanged otherwise |
| NetworkDiscovery.PeerList.ServerRoutine | src/network/discovery_service.rs:79-130 | `server_routine` applies each received datagram in turn and returns at the first failed receive |
| NetworkDiscovery.PeerList.Sweep | src/network/discovery_service.rs:140-145 | one round of `peer_ttl_decrement` decrements every TTL in place, then keeps the alive entries in order |
| NetworkDiscovery.PeerList.GetPeerList | src/network/discovery_service.rs:308-317 | `get_peer_list` returns the current list and changes nothing |
| NetworkDiscovery.FindIsFirst | src/network/discovery_service.rs:116-118 | the first index that matches, with none before it, is what `find` returns |
| ServiceDiscovery.ScanLocalMembers | src/service/discovery_service.rs:62-70 | an address is among the scanned local addresses if and only if it is private and some interface has it as its IPv4 address |
| ServiceDiscovery.ScanBroadcastMembers | src/service/discovery_service.rs:72-88 | an address is among the scanned broadcast addresses if and only if it is not loopback and is some interface's broadcast target (reported, fallback or computed) |
| ServiceDiscovery.DiscoveryRequestsDecode | src/service/discovery_service.rs:194-210 | every request goes to a broadcast address at the server port, is 12 bytes long and decodes as a request for a response from one of the local addresses, with the given port and group |
| ServiceDiscovery.DiscoveryRequestsComplete | src/service/discovery_service.rs:194-210 | conversely, every pair of a broadcast address and a local address gets a request sent to that broadcast address at the server port, decoding as a request for a response from that local address |
| ServiceDiscovery.HandleNewPeerProperties | src/service/discovery_service.rs:119-169 | a malformed, self-sent or other-group datagram leaves the set alone; an accepted one adds exactly the sender's host as a key, stores a new host with the packet's server port, keeps every existing entry, sends no reply to a non-request, and to a request sends for every local address a reply to the sender's address at its server port that decodes as a non-request from that address, and no reply that is not one of these |
| ServiceDiscovery.RecvInto | src/service/discovery_service.rs:252-257 | receiving into the reused 12-byte buffer leaves byte i holding the datagram's byte i where the datagram reaches it and the previous contents elsewhere, so a longer datagram is cut to 12 bytes |
| ServiceDiscovery.RunSpecStops | src/service/discovery_service.rs:256-283 | the receive loop runs up to and including the first error other than a timeout, or the first timeout whose poll says to stop, and no earlier result stops it |
| ServiceDiscovery.RunSpecPolls | src/service/discovery_service.rs:269-277 | `should_interrupt` is called exactly once per timeout the loop consumes |
| ServiceDiscovery.PeerSet.constructor | src/service/discovery_service.rs:95-99 | the peer set starts empty |
| ServiceDiscovery.PeerSet.HandleNewPeer | src/service/discovery_service.rs:119-169 | the result and the new set are those of the `handle_new_peer` rules above: decode, self check, group check, replies, then insert unless the host is already present |
| ServiceDiscovery.PeerSet.Run | src/service/discovery_service.rs:252-283 | the loop over the zero-initialised buffer consumes, polls and leaves the peer set as the specification of the loop says |
| ServiceDiscovery.SendReplies | src/service/discovery_service.rs:141-158 | the loop over the local addresses builds exactly one reply per local address |
| Sockets.ReadStepTakesPrefix | src/network/socket.rs:41-51 | `read_exact(n)` succeeds if and only if the call does not fail and at least n bytes are pending; it then returns exactly the next n bytes of the stream and removes them, and it never writes |
| Sockets.Socket.constructor | src/network/socket.rs:8-12 | a socket over a stream starts with the given pending bytes and outcome script and nothing sent |
| Sockets.Socket.Send | src/network/socket.rs:28-39 | a failing call writes nothing and returns the error; a successful one writes the whole buffer and returns its length |
| Sockets.Socket.ReadExact | src/network/socket.rs:41-51 | the socket changes as one `read_exact` step says: the error, an early end of stream, or exactly n bytes taken |
| Sockets.CopyInto | src/packet/data_transmission.rs:37-38 | `buf[at..at + len].copy_from_slice(src)` puts src at that offset and leaves every other byte of the buffer unchanged |
| DataTransmissions.Frame | src/packet/data_transmission.rs:13-38 | a frame is 4 + N bytes long and carries the data after the 4-byte length |
| DataTransmissions.SendRetrySpec | src/packet/data_transmission.rs:40-55 | sending succeeds if and only if one of the first `PACKET_TRY_TIMES` calls succeeds; a success writes the frame exactly once and returns its length, a failure writes nothing; no more outcomes are used than attempts |
| DataTransmissions.SendDataWithRetry | src/packet/data_transmission.rs:32-56 | the method builds the frame in a buffer and leaves the socket and result as up to 5 sends of that frame, starting from the error "Failed to send data." |
| DataTransmissions.ReadDataWithRetry | src/packet/data_transmission.rs:61-91 | the method's result and the socket it leaves are those of up to 5 read attempts of prefix then body |
| DataTransmissions.ReadFrame | src/packet/data_transmission.rs:66-79 | a stream that starts with a frame of data, with no fault on the two reads, yields exactly that data and leaves exactly what followed the frame |
| DataTransmissions.PrefixFailureIsFinal | src/packet/data_transmission.rs:68-70 | a failing 4-byte prefix read returns that error at once without a retry, having used one outcome |
| DataTransmissions.SendThenRead | src/packet/data_transmission.rs:32-91 | what `send_data_with_retry` frames is what `read_data_with_retry` reads back |
| PacketTexts.MessageMaxSize | src/packet/text.rs:9-10 | `(2 << (LENGTH_PRESERVE_SIZE - 1)) - 1` is 65535 |
| PacketTexts.SendText | src/packet/text.rs:25-49 | a rejected packet or one of at least `MESSAGE_MAX_SIZE` bytes returns an error and sends nothing; otherwise the 8-byte length followed by the packet is sent once |
| PacketTexts.TextFrameSpec | src/packet/text.rs:27-46 | a message is framed if and only if its UTF-8 form plus the 2-byte hash is shorter than 65535 bytes, and the frame is the usize length, the UTF-8 bytes and the little-endian hash |
| PacketTexts.ReadText | src/packet/text.rs:53-66 | the 8-byte length, that many bytes, then the legacy decoder; read errors pass through, decoder errors become `InvalidData`, and a decoder panic stays a panic |
| PacketTexts.ReadFrame | src/packet/text.rs:53-66 | a fault-free stream that starts with a length-prefixed packet yields that packet's decoding and leaves exactly what followed |
| PacketTexts.SendThenRead | src/packet/text.rs:25-66 | `read_text` returns what `send_text` sent, for every non-empty message it accepts |
| PacketTexts.EmptyMessage | src/packet/text.rs:27-64 | the empty message is framed and sent, but the reader rejects it with `InvalidData` |
| TransmissionTexts.MessageMaxSize | src/transmission/text.rs:5-6 | `(2 << (LENGTH_PRESERVE_SIZE - 1)) - 1` is 65535 |
| TransmissionTexts.TextFrame | src/transmission/text.rs:21-35 | a message is framed if and only if its UTF-8 form is shorter than 65535 bytes; the frame is 8 + N bytes long and carries the UTF-8 bytes after the length |
| TransmissionTexts.SendText | src/transmission/text.rs:19-38 | a too-long message returns an error and sends nothing; otherwise the frame is sent once |
| TransmissionTexts.ReadText | src/transmission/text.rs:42-58 | the 8-byte length, that many bytes, then strict UTF-8 decoding; read errors pass through and invalid UTF-8 is an error |
| TransmissionTexts.SendThenRead | src/transmission/text.rs:18-58 | reading a frame `send_text(m)` produced returns m and leaves exactly what followed the frame |
| TransmissionTexts.InvalidBody | src/transmission/text.rs:51-56 | a body that is not valid UTF-8 is read as an error, whatever produced it |
| NetworkTextService.Split | src/network/text_service.rs:20 | `str::split` on one character always yields at least one piece |
| NetworkTextService.SplitPiecesFree | src/network/text_service.rs:20 | no piece of a split contains the separator |
| NetworkTextService.JoinSplit | src/network/text_service.rs:20 | joining the pieces of a split with the same separator gives the string back |
| NetworkTextService.SplitAfterWord | src/network/text_service.rs:20 | a separator-free word followed by the separator splits into that word followed by the pieces of the rest |
| NetworkTextService.StripSync | src/network/text_service.rs:17-20 | for a `SYNC:` message, dropping the first piece and rejoining with ':' removes exactly the prefix, so every ':' in the payload survives |
| NetworkTextService.StripKeepsColons | src/network/text_service.rs:20 | `SYNC:a:b::c` is delivered as `a:b::c` |
| NetworkTextService.ReceivedSpec | src/network/text_service.rs:14-22 | a connection is delivered if and only if it reads a `SYNC:` message, and then the text handed to `on_receive` is that message without its prefix, with the peer's address |
| NetworkTextService.ServerRoutineStops | src/network/text_service.rs:13 | the accept loop ends at the first failed accept: nothing after it is read |
| NetworkTextService.Receive | src/network/text_service.rs:14-22 | one accepted connection delivers exactly what the specification of a connection says |
| NetworkTextService.ServerRoutine | src/network/text_service.rs:11-25 | the deliveries, in order, are those of every accepted connection before the first accept error |
| NetworkTextService.Send | src/network/text_service.rs:41-53 | starting from an already connected stream, the socket receives the frame of the text with the `SYNC:` prefix, or the length error is returned |
| NetworkTextService.SendThenReceive | src/network/text_service.rs:16-50 | a connection that carries what `send` wrote delivers the original text |
| ServiceTextService.Fanout | src/service/text_service.rs:80-84 | one call per subscriber |
| ServiceTextService.TurnProperties | src/service/text_service.rs:65-98 | the calls one incoming item makes go to registered subscribers, from the stream's peer address, with text that followed `SYNC:` in the message read there; they are either none or one per subscriber; only `WouldBlock` asks `should_interrupt`, at most once |
| ServiceTextService.RunCallsTraced | src/service/text_service.rs:65-99 | every callback call of `run` goes to a registered subscriber, with text that followed the prefix of a message read on some stream from the call's source |
| ServiceTextService.RunCallsRounds | src/service/text_service.rs:79-84 | calls come in whole rounds of all subscribers |
| ServiceTextService.RoundsAppend | src/service/text_service.rs:79-84 | a round followed by whole rounds is whole rounds |
| ServiceTextService.RunPollsBound | src/service/text_service.rs:87-94 | `should_interrupt` is asked at most once per `WouldBlock` |
| ServiceTextService.SendThenRun | src/service/text_service.rs:43-84 | a stream that carries what `send` wrote reaches every subscriber, in order, with the original text, and the loop goes on with the next item |
| ServiceTextService.TextService.constructor | src/service/text_service.rs:26-30 | a new service has no subscribers |
| ServiceTextService.TextService.Subscribe | src/service/text_service.rs:32-36 | the callback is added after all earlier ones |
| ServiceTextService.TextService.Send | src/service/text_service.rs:43-55 | starting from an already connected stream, the socket receives the packet frame of the text with the `SYNC:` prefix, or the error is returned and nothing is sent |
| ServiceTextService.TextService.Run | src/service/text_service.rs:57-103 | the calls made, the polls and whether a decoder panic ended it are exactly those of `run` over the incoming items |
| ServiceTextService.RunCons | src/service/text_service.rs:65-99 | a run is its first item followed, unless that item stops the loop, by the run of the rest |
| ServiceTextService.RunTurn | src/service/text_service.rs:66-98 | one item of the loop does what the specification of one item says |
| ServiceTextService.Serve | src/service/text_service.rs:68-85 | a stream with a peer address panics exactly when the decoder does, and otherwise calls every subscriber with the text after `SYNC:` if the message has that prefix, and none if not |
| ServiceTextService.Notify | src/service/text_service.rs:81-83 | the subscriber loop calls every subscriber in order with the same text and source |
| DataService.SendData | src/service/data_service.rs:36-55 | the payload is wrapped in a `DataPacket` under the magic number's tag, serialized and sent framed with up to 5 attempts |
| DataService.DispatchSpec | src/service/data_service.rs:58-79 | the text callback fires if and only if the tag is 0x3940 and the payload decodes as a text packet, the file-coming callback if and only if the tag is 0x3939 and the payload decodes as a file-coming packet; each gets the decoded packet and the sender, and an unknown tag fires nothing |
| DataService.HandlePeer | src/service/data_service.rs:81-109 | no peer address, a failed read or a malformed `DataPacket` fires nothing; otherwise the packet read is dispatched |
| DataService.SendThenHandle | src/service/data_service.rs:36-109 | the listener dispatches exactly the packet `send_data` wrapped |
| DataService.SendTextThenHandle | src/service/data_service.rs:47-67 | a text packet sent with `send_data` reaches the text callback decoded, with the sender's address |
| DataService.QuietTimeouts | src/service/data_service.rs:121-135 | while the counter stays at or below 100, timeouts only count up and `should_interrupt` is not asked |
| DataService.FirstPoll | src/service/data_service.rs:114-135 | from a fresh counter the first 101 timeouts never stop the service, and the 102nd asks `should_interrupt` and stops if told to |
| DataService.RunCallsFromConnections | src/service/data_service.rs:116-120 | every callback call of `run` comes from a connection that fired it |
| DataService.StopsOnAcceptError | src/service/data_service.rs:137-139 | an accept error other than a timeout ends the run with nothing more |
| DataService.Run | src/service/data_service.rs:112-144 | the calls made, the polls and whether a payload decoder panicked are exactly those of `run` over the incoming items, from a zero counter |
| Handlers.HandleText | src/service/handler/text_packet_handler.rs:6-19 | the connection is closed whatever the payload; the text callback is called exactly when the payload decodes, with that packet and the connection's socket address; a decoder panic stays a panic |
| Handlers.HandleTextOfNew | src/service/handler/text_packet_handler.rs:7-16 | a text packet made by `new` reaches the callback unchanged, with the connection's address |
| Handlers.SenderPeer | src/service/handler/file_coming_packet_handler.rs:16-23 | `peer_lookup`'s peer when it has one, otherwise a peer with the connection's host string and port |
| Handlers.HandleFileComing | src/service/handler/file_coming_packet_handler.rs:7-29 | the connection is closed on every path; the callback is called exactly when the payload decodes, with the decoded packet and the sender peer |
| Handlers.HandleFileComingOfNew | src/service/handler/file_coming_packet_handler.rs:8-26 | a file-coming packet made by `new` reaches the callback, with a peer built from the connection when the lookup knows none |
| Handlers.HandleFilePart | src/service/handler/file_part_packet_handler.rs:6-23 | a malformed part keeps the connection and calls nothing; a decoded part reaches the callback, and the callback's `true` closes the connection |
| Handlers.HandleFilePartOfPacket | src/service/handler/file_part_packet_handler.rs:7-20 | a part whose length matches its data reaches the callback unchanged |
| Handlers.HandleFilePartResponse | src/service/handler/file_part_response_packet_handler.rs:6-20 | no callback is called; a well-formed response closes the connection, a malformed one keeps it, and a kind byte other than 1 or 2 panics in `response_kind` |
| Handlers.HandleFilePartResponseOfNew | src/service/handler/file_part_response_packet_handler.rs:17-19 | a response made by `new` closes the connection, whichever its kind |
| FileReceiveResponseHandler.Chunks | src/service/handler/file_receive_response_packet_handler.rs:80-94 | the chunks sent are the non-empty reads before the first empty or failed one, each of at most 1024 bytes |
| FileReceiveResponseHandler.Parts | src/service/handler/file_receive_response_packet_handler.rs:96-120 | one part per chunk, each carrying the file id, its chunk and the chunk's length |
| FileReceiveResponseHandler.PartsContiguous | src/service/handler/file_receive_response_packet_handler.rs:75-120 | part k starts at the total length of the chunks before it, modulo 2^32, as `offset += bytes_read as u32` gives |
| FileReceiveResponseHandler.ChunkLoopShape | src/service/handler/file_receive_response_packet_handler.rs:79-122 | the session loop sends the frames of a prefix of the parts, in order and nothing else, never reads its input, reports one `InProgress` per sent part with the offset before that part, and then either stops cleanly after the last part or reports one `Error` |
| FileReceiveResponseHandler.ChunkLoopNames | src/service/handler/file_receive_response_packet_handler.rs:34-119 | every report of the loop names the file and its size |
| FileReceiveResponseHandler.HandleProperties | src/service/handler/file_receive_response_packet_handler.rs:21-131 | a bad payload reports nothing; otherwise the first report is `Requested` and every report names the file and its size; an IPv6 sender gets `Error` and a rejection `Rejected`, both sending nothing; an acceptance reports `Accepted`, and a session that runs always ends with `Completed`, even after an `Error` inside the loop |
| FileReceiveResponseHandler.LoopStep | src/service/handler/file_receive_response_packet_handler.rs:80-121 | one turn of the loop: a failed read reports `Error` and leaves it, an empty read leaves it silently, and a chunk is sent and, if that fails, reports `Error`, otherwise reports `InProgress` and goes on at the next offset |
| FileReceiveResponseHandler.SendPart | src/service/handler/file_receive_response_packet_handler.rs:101-105 | one part is serialized, wrapped under the file-part tag and sent framed with up to 5 attempts |
| FileReceiveResponseHandler.SendChunks | src/service/handler/file_receive_response_packet_handler.rs:74-122 | the loop's reports and the session socket it leaves are those of the chunk loop from offset 0 |
| FileReceiveResponseHandler.ChunkTurn | src/service/handler/file_receive_response_packet_handler.rs:80-120 | one turn does what one step of the chunk loop says, and hands the next offset to the rest |
| FileReceiveResponseHandler.Handle | src/service/handler/file_receive_response_packet_handler.rs:21-131 | the reports made and the session socket left are exactly those the handler's rules give for the payload, the sender, the file and the session |

## Left out

- FFI, JNI, clipboard and UI glue (`lib*.rs`, `bridge.h`, `clipboard_service.rs`, `airx_service.rs`, `main.rs`): raw pointers, global state and thread orchestration.
- Concurrency: mutexes, `Arc` sharing, thread pools, sleeps and the reconnect loop of the network discovery service. Shared sets and lists are plain state owned by one class, and a lock never fails.
- OS calls become inputs:
  - binding, connecting, accepting and closing sockets;
  - interface scans, the hostname and `should_interrupt`;
  - file opening and reading;
  - `peer_lookup`.

  A socket is a script of call outcomes over a byte stream, a file is a list of read results, and an interface list is a sequence.
- Sockets.Socket.Send: a successful send writes the whole buffer. The partial writes of `write` and the retries of `send_with_retry` are not modelled, because the socket wrapper that makes the call is not part of this model.
- `data_session` is not part of this model. The file handler takes whether the session connects as an input and runs the chunk loop on the session's socket.
- The f32/f64 instances of `UniversalEndian`: floating point.
- Native-endian `to_ne_bytes`/`from_ne_bytes` are taken as little-endian, and `usize`/`isize` as 8 bytes (a 64-bit little-endian target).
- The allocation of a body buffer of any size from an unchecked length prefix. The model reads the declared number of bytes, or fails with `UnexpectedEof`.
- IpToU32.PartialBound: proves that the `+=` accumulation of `to_u32` never overflows and equals the big-endian sum. It does not prove that the sum equals the OR of the shifted octets.
- NetTypes.HostString: the IPv4 `to_string` is dotted decimal. IPv6 is written as eight hexadecimal groups, without the `::` compression of Rust's `Display`.
- NetworkDiscovery: the TTL is an unbounded integer. The peer type of this version, with its `i8` TTL and `increment_ttl`, is not part of this model.
- NetworkDiscovery.PeerList.ServerRoutine: left out of this method:
  - the `should_reconnect` check at the top of the loop;
  - cutting a datagram at the 512-byte buffer;
  - the `local_addr` call failing.

  A datagram is its sender and whole payload.
- `client_routine` of the network discovery service, which broadcasts the handshake and sleeps: socket I/O only.
- ServiceDiscovery: `DiscoveryPacket::new` takes four parameters in the packet file and five (with a hostname) in this service. The model uses the packet file's four-parameter form, and the peer inserted carries host and port only.
- Peers.Peer: the model's peer has a host and a port and no hostname field. So the announced hostname stored by `handle_new_peer` and the `None` hostname of the fallback peer in the file-coming handler (`Handlers.SenderPeer`) are both not modelled.
- ServiceDiscovery.SendReplies and ServiceDiscovery.DiscoveryRequests: the replies and requests are sets of datagrams. The order of `HashSet` iteration and the outcome of each `send_to` are not modelled.
- DataTransmissions.SendDataWithRetry: requires a payload below 2^32 bytes. Beyond that, `data.len() as u32` truncates and the copy into the frame buffer panics.
- FileComingPackets.PacketHash: `(file_size as u32 + file_name_length) as u16` is modelled as a wrapping addition, as in a release build; a debug build panics once the truncated size plus the name length reaches 2^32.
- NetworkTextService.Send and ServiceTextService.TextService.Send: both start from an already connected stream. `Socket::connect`, the closing `socket.close()` and their errors are OS calls and are not modelled.
- DataService.SendData: requires `8 + |data| < 2^32`, so that the wrapped packet can be framed.
- FileReceiveResponseHandler: `MagicNumbers` has no `FilePart` variant in this version, so the file-part tag is a parameter.
- FileReceiveResponseHandler: `offset += bytes_read as u32` makes the offset a `u32`. It wraps at 2^32, as in a release build; a debug build panics instead. `FilePartPacket::new` in this version takes `u64` fields, so the part stores the `u32` offset and length widened.
- TextHashing: `(i * c as usize) as u16` is the low 16 bits of the product. A `usize` overflow of the product, which needs a string of more than 2^43 characters, would panic in a debug build.
- Helper functions (the integer-width helpers, `Size`, `Decimal`, `Hex`, `Tick`, `Somes`, `Frames`) and the bookkeeping lemmas of loop proofs have no row.
