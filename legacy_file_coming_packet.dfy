/** The older `FileComingPacket` format, which carries the sender's address:
    2 bytes magic 0x3939, 4 address octets, 2 bytes server port, 1 byte group
    identity, 4 bytes file size, 4 bytes name length N, N bytes of UTF-8 name,
    2 bytes hash; 19 + N bytes, little-endian. */
module LegacyFileComingPackets {
  import opened Ints
  import opened Wrappers
  import opened Wire
  import opened Utf8
  import opened NetTypes

  const BASE_PACKET_SIZE: nat := 19
  const MAGIC_NUMBER: u16 := 0x3939

  datatype FileComingPacket = FileComingPacket(
    magic_number: u16,
    address: Ipv4Addr,
    server_port: u16,
    group_identity: u8,
    file_size: u32,
    file_name_length: u32,
    file_name: string)

  datatype FileComingPacketError =
    InvalidMagicNumber | InvalidHash | CorruptedPacket | FileNameTooLong | FileTooLarge

  /** `new`: the name length is `file_name.len() as u32`. */
  function New(address: Ipv4Addr, port: u16, group: u8, fileSize: u32, fileName: string): (p: FileComingPacket)
    ensures p.magic_number == MAGIC_NUMBER && p.address == address && p.server_port == port
    ensures p.group_identity == group && p.file_size == fileSize && p.file_name == fileName
    ensures |Encode(fileName)| < U32_MODULUS ==> p.file_name_length == |Encode(fileName)|
  {
    FileComingPacket(MAGIC_NUMBER, address, port, group, fileSize, AsU32(|Encode(fileName)|), fileName)
  }

  /** `eq`: every field but the name length. */
  predicate Eq(p: FileComingPacket, q: FileComingPacket) {
    p.magic_number == q.magic_number && p.address == q.address && p.server_port == q.server_port
    && p.group_identity == q.group_identity && p.file_size == q.file_size && p.file_name == q.file_name
  }

  /** `packet_hash`: the wrapping u16 sum of the octets, the port, the group
      and `file_size as u16`, divided by 7. The name is not covered. */
  function PacketHash(p: FileComingPacket): u16
  {
    WrappingAdd16(WrappingAdd16(WrappingAdd16(WrappingAdd16(WrappingAdd16(WrappingAdd16(
      p.address[0], p.address[1]), p.address[2]), p.address[3]), p.server_port), p.group_identity),
      AsU16(p.file_size)) / 7
  }

  lemma PacketHashIsSum(p: FileComingPacket)
    ensures PacketHash(p) == ((p.address[0] + p.address[1] + p.address[2] + p.address[3]
      + p.server_port + p.group_identity + p.file_size) % U16_MODULUS) / 7
  {
    var a := p.address;
    var s1 := a[0] as int + a[1];
    var s2 := s1 + a[2];
    var s3 := s2 + a[3];
    var s4 := s3 + p.server_port;
    var s5 := s4 + p.group_identity;
    var w1 := WrappingAdd16(a[0], a[1]);
    var w2 := WrappingAdd16(w1, a[2]);
    assert w2 == s2 % U16_MODULUS by { ModAddLeft(s1, a[2]); }
    var w3 := WrappingAdd16(w2, a[3]);
    assert w3 == s3 % U16_MODULUS by { ModAddLeft(s2, a[3]); }
    var w4 := WrappingAdd16(w3, p.server_port);
    assert w4 == s4 % U16_MODULUS by { ModAddLeft(s3, p.server_port); }
    var w5 := WrappingAdd16(w4, p.group_identity);
    assert w5 == s5 % U16_MODULUS by { ModAddLeft(s4, p.group_identity); }
    var w6 := WrappingAdd16(w5, AsU16(p.file_size));
    assert w6 == (s5 + p.file_size) % U16_MODULUS by {
      ModAddLeft(s5, AsU16(p.file_size));
      ModAddLeft(p.file_size, s5);
    }
    assert PacketHash(p) == w6 / 7;
  }

  /** Packets that agree outside the name and its length hash alike. */
  lemma NameNotHashed(p: FileComingPacket, name: string, len: u32)
    ensures PacketHash(p.(file_name := name, file_name_length := len)) == PacketHash(p)
  {
  }

  function Header(p: FileComingPacket): (r: Bytes)
    ensures |r| == 17
  {
    Le16(p.magic_number) + p.address + Le16(p.server_port) + [p.group_identity]
      + Le32(p.file_size) + Le32(p.file_name_length)
  }

  function Serialized(p: FileComingPacket): (r: Bytes)
    ensures |r| == BASE_PACKET_SIZE + |Encode(p.file_name)|
  {
    Header(p) + Encode(p.file_name) + Le16(PacketHash(p))
  }

  method Serialize(p: FileComingPacket) returns (bytes: Bytes)
    ensures bytes == Serialized(p)
  {
    bytes := [];
    bytes := bytes + Le16(p.magic_number);
    bytes := bytes + p.address;
    bytes := bytes + Le16(p.server_port);
    bytes := bytes + [p.group_identity];
    bytes := bytes + Le32(p.file_size);
    bytes := bytes + Le32(p.file_name_length);
    bytes := bytes + Encode(p.file_name);
    bytes := bytes + Le16(PacketHash(p));
  }

  /** `deserialize`: both length checks come before any slicing, so every
      index is in bounds. */
  function Deserialize(data: Bytes): (r: Result<FileComingPacket, FileComingPacketError>)
    ensures |data| < BASE_PACKET_SIZE ==> r == Err(CorruptedPacket)
    ensures r.Ok? ==> |data| == BASE_PACKET_SIZE + r.value.file_name_length
    ensures r.Ok? ==> r.value.magic_number == MAGIC_NUMBER
  {
    if |data| < BASE_PACKET_SIZE then Err(CorruptedPacket)
    else
      var magic := Read16(data, 0);
      if magic != MAGIC_NUMBER then Err(InvalidMagicNumber)
      else
        var nameLen := Read32(data, 13);
        if |data| != BASE_PACKET_SIZE + nameLen then Err(CorruptedPacket)
        else
          match FromUtf8(data[17..17 + nameLen])
          case None => Err(FileNameTooLong)
          case Some(fileName) =>
            var ret := FileComingPacket(magic, data[2..6], Read16(data, 6), data[8],
                                        Read32(data, 9), nameLen, fileName);
            if Read16(data, 17 + nameLen) != PacketHash(ret) then Err(InvalidHash)
            else Ok(ret)
  }

  /** Where each header field reads back from. */
  lemma LayoutHeader(p: FileComingPacket, tail: Bytes)
    ensures var s := Header(p) + tail;
      Read16(s, 0) == p.magic_number && s[2..6] == p.address && Read16(s, 6) == p.server_port
      && s[8] == p.group_identity && Read32(s, 9) == p.file_size && Read32(s, 13) == p.file_name_length
  {
    var s := Header(p) + tail;
    assert s == [] + Le16(p.magic_number) + s[2..];
    Read16Le16([], p.magic_number, s[2..]);
    assert s == s[..6] + Le16(p.server_port) + s[8..];
    Read16Le16(s[..6], p.server_port, s[8..]);
    assert s == s[..9] + Le32(p.file_size) + s[13..];
    Read32Le32(s[..9], p.file_size, s[13..]);
    assert s == s[..13] + Le32(p.file_name_length) + tail;
    Read32Le32(s[..13], p.file_name_length, tail);
  }

  /** `deserialize(serialize(p)) == p` for a packet with the magic number and
      a truthful name length, such as every packet `new` builds. */
  lemma RoundTrip(p: FileComingPacket)
    requires p.magic_number == MAGIC_NUMBER && p.file_name_length == |Encode(p.file_name)|
    ensures Deserialize(Serialized(p)) == Ok(p)
  {
    var e := Encode(p.file_name);
    var s := Serialized(p);
    var h := PacketHash(p);
    LayoutHeader(p, e + Le16(h));
    assert s == Header(p) + (e + Le16(h));
    assert s[17..17 + |e|] == e;
    FromUtf8Encode(p.file_name);
    assert s == (Header(p) + e) + Le16(h) + [];
    Read16Le16(Header(p) + e, h, []);
  }

  lemma RoundTripNew(address: Ipv4Addr, port: u16, group: u8, fileSize: u32, fileName: string)
    requires |Encode(fileName)| < U32_MODULUS
    ensures Deserialize(Serialized(New(address, port, group, fileSize, fileName)))
         == Ok(New(address, port, group, fileSize, fileName))
  {
    RoundTrip(New(address, port, group, fileSize, fileName));
  }

  /** The header of a packet decoded from `data` is the first 17 bytes. */
  lemma HeaderOfDecoded(data: Bytes, name: string)
    requires |data| >= 17
    ensures Header(FileComingPacket(Read16(data, 0), data[2..6], Read16(data, 6), data[8],
                                    Read32(data, 9), Read32(data, 13), name)) == data[..17]
  {
    Le16Read16(data, 0);
    Le16Read16(data, 6);
    Le32Read32(data, 9);
    Le32Read32(data, 13);
    assert data[..17] == data[0..2] + data[2..6] + data[6..8] + [data[8]] + data[9..13] + data[13..17];
  }

  lemma DecodedShape(data: Bytes)
    requires Deserialize(data).Ok?
    ensures var p := Deserialize(data).value;
      |data| == p.file_name_length as int + 19
      && FromUtf8(data[17..17 + p.file_name_length]) == Some(p.file_name)
      && p == FileComingPacket(Read16(data, 0), data[2..6], Read16(data, 6), data[8],
                               Read32(data, 9), Read32(data, 13), p.file_name)
      && Read16(data, 17 + p.file_name_length) == PacketHash(p)
  {
  }

  /** A successful decode read exactly the serialisation of its result. */
  lemma DeserializeInverse(data: Bytes)
    requires Deserialize(data).Ok?
    ensures Serialized(Deserialize(data).value) == data
  {
    var p := Deserialize(data).value;
    var n := p.file_name_length;
    DecodedShape(data);
    assert Encode(p.file_name) == data[17..17 + n as int] by {
      FromUtf8IsInverse(data[17..17 + n as int]);
    }
    HeaderOfDecoded(data, p.file_name);
    assert Le16(PacketHash(p)) == data[17 + n as int..19 + n as int] by {
      Le16Read16(data, 17 + n as int);
    }
    assert data == data[..17] + data[17..17 + n as int] + data[17 + n as int..19 + n as int];
  }

  /** The ordered checks after the first length check, and the error each one raises. */
  lemma DeserializeChecks(data: Bytes)
    ensures |data| >= 19 && Read16(data, 0) != MAGIC_NUMBER ==> Deserialize(data) == Err(InvalidMagicNumber)
    ensures |data| >= 19 && Read16(data, 0) == MAGIC_NUMBER && |data| != 19 + Read32(data, 13)
            ==> Deserialize(data) == Err(CorruptedPacket)
    ensures (|data| >= 19 && Read16(data, 0) == MAGIC_NUMBER && |data| == 19 + Read32(data, 13)
             && !IsValid(data[17..17 + Read32(data, 13)])) ==> Deserialize(data) == Err(FileNameTooLong)
    ensures (|data| >= 19 && Read16(data, 0) == MAGIC_NUMBER && |data| == 19 + Read32(data, 13)
             && IsValid(data[17..17 + Read32(data, 13)])
             && Read16(data, 17 + Read32(data, 13))
                != PacketHash(FileComingPacket(MAGIC_NUMBER, data[2..6], Read16(data, 6), data[8], Read32(data, 9),
                                               Read32(data, 13), FromUtf8(data[17..17 + Read32(data, 13)]).value)))
            ==> Deserialize(data) == Err(InvalidHash)
  {
  }
}
