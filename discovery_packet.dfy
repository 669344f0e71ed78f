/** `DiscoveryPacket`, the UDP datagram of peer discovery: 2 bytes magic
    0x8964, 4 address octets, 2 bytes server port, 1 byte group identity,
    1 byte "need response" flag, 2 bytes hash; 12 bytes, little-endian. */
module DiscoveryPackets {
  import opened Ints
  import opened Wrappers
  import opened Wire
  import opened NetTypes
  import opened Sockets

  const PACKET_SIZE: nat := 12
  const MAGIC_NUMBER: u16 := 0x8964

  datatype DiscoveryPacket = DiscoveryPacket(
    magic_number: u16,
    sender_address: Ipv4Addr,
    server_port: u16,
    group_identity: u8,
    need_response: bool)

  datatype DiscoveryPacketError = InvalidMagicNumber | InvalidHash

  /** `packet_hash`: the wrapping u16 sum of the octets, the port and the group,
      divided by 3. The flag is not covered. */
  function PacketHash(address: Ipv4Addr, port: u16, group: u8): u16
  {
    WrappingAdd16(WrappingAdd16(WrappingAdd16(WrappingAdd16(WrappingAdd16(
      address[0], address[1]), address[2]), address[3]), port), group) / 3
  }

  /** The chain of wrapping additions is one sum taken modulo 2^16. */
  lemma PacketHashIsSum(address: Ipv4Addr, port: u16, group: u8)
    ensures PacketHash(address, port, group)
         == ((address[0] + address[1] + address[2] + address[3] + port + group) % U16_MODULUS) / 3
  {
    var a0, a1, a2, a3 := address[0], address[1], address[2], address[3];
    ModAddLeft(a0 + a1, a2);
    ModAddLeft(a0 + a1 + a2, a3);
    ModAddLeft(a0 + a1 + a2 + a3, port);
    ModAddLeft(a0 + a1 + a2 + a3 + port, group);
  }

  function New(address: Ipv4Addr, port: u16, group: u8, needResponse: bool): (p: DiscoveryPacket)
    ensures p.magic_number == MAGIC_NUMBER && p.sender_address == address
    ensures p.server_port == port && p.group_identity == group && p.need_response == needResponse
  {
    DiscoveryPacket(MAGIC_NUMBER, address, port, group, needResponse)
  }

  function FlagByte(b: bool): u8 {
    if b then 1 else 0
  }

  function Serialized(p: DiscoveryPacket): (r: Bytes)
    ensures |r| == PACKET_SIZE
  {
    Le16(p.magic_number) + p.sender_address + Le16(p.server_port)
      + [p.group_identity, FlagByte(p.need_response)]
      + Le16(PacketHash(p.sender_address, p.server_port, p.group_identity))
  }

  /** `serialize`: fills a zeroed 12-byte array field by field. */
  method Serialize(p: DiscoveryPacket) returns (bytes: array<u8>)
    ensures fresh(bytes) && bytes[..] == Serialized(p)
  {
    bytes := new u8[PACKET_SIZE](_ => 0);
    CopyInto(bytes, 0, Le16(p.magic_number));
    CopyInto(bytes, 2, p.sender_address);
    CopyInto(bytes, 6, Le16(p.server_port));
    ghost var front := bytes[..8];
    assert front == Le16(p.magic_number) + p.sender_address + Le16(p.server_port);
    bytes[8] := p.group_identity;
    bytes[9] := if p.need_response then 1 else 0;
    CopyInto(bytes, 10, Le16(PacketHash(p.sender_address, p.server_port, p.group_identity)));
    assert bytes[..10] == front + [p.group_identity, FlagByte(p.need_response)];
  }

  function Address(data: Bytes): Ipv4Addr
    requires |data| == PACKET_SIZE
  {
    data[2..6]
  }

  /** `deserialize` of a 12-byte array: the magic is checked first, then the hash. */
  function Deserialize(data: Bytes): (r: Result<DiscoveryPacket, DiscoveryPacketError>)
    requires |data| == PACKET_SIZE
    ensures r == Err(InvalidMagicNumber) <==> Read16(data, 0) != MAGIC_NUMBER
    ensures r == Err(InvalidHash) <==>
              (Read16(data, 0) == MAGIC_NUMBER
               && Read16(data, 10) != PacketHash(Address(data), Read16(data, 6), data[8]))
    ensures r.Ok? ==> r.value == New(Address(data), Read16(data, 6), data[8], data[9] == 1)
  {
    var magic := Read16(data, 0);
    if magic != MAGIC_NUMBER then Err(InvalidMagicNumber)
    else
      var address := Address(data);
      var port := Read16(data, 6);
      var group := data[8];
      var hash := Read16(data, 10);
      if hash != PacketHash(address, port, group) then Err(InvalidHash)
      else Ok(DiscoveryPacket(magic, address, port, group, data[9] == 1))
  }

  /** The fields of `serialize`'s output read back from their offsets. */
  lemma Layout(p: DiscoveryPacket)
    ensures Read16(Serialized(p), 0) == p.magic_number
    ensures Address(Serialized(p)) == p.sender_address
    ensures Read16(Serialized(p), 6) == p.server_port
    ensures Serialized(p)[8] == p.group_identity && Serialized(p)[9] == FlagByte(p.need_response)
    ensures Read16(Serialized(p), 10) == PacketHash(p.sender_address, p.server_port, p.group_identity)
  {
    var s := Serialized(p);
    var h := PacketHash(p.sender_address, p.server_port, p.group_identity);
    Read16Le16([], p.magic_number, s[2..]);
    assert s == [] + Le16(p.magic_number) + s[2..];
    Read16Le16(s[..6], p.server_port, s[8..]);
    assert s == s[..6] + Le16(p.server_port) + s[8..];
    Read16Le16(s[..10], h, []);
    assert s == s[..10] + Le16(h) + [];
  }

  /** Decoding `serialize(new(a, p, g, r))` recovers every field. */
  lemma RoundTrip(address: Ipv4Addr, port: u16, group: u8, needResponse: bool)
    ensures Deserialize(Serialized(New(address, port, group, needResponse)))
         == Ok(New(address, port, group, needResponse))
  {
    Layout(New(address, port, group, needResponse));
  }

  /** A successful decode came from the serialisation of its result, up to the
      flag byte, of which only the value 1 is told apart from the rest. */
  lemma DeserializeInverse(data: Bytes)
    requires |data| == PACKET_SIZE && Deserialize(data).Ok?
    ensures Serialized(Deserialize(data).value) == data[9 := FlagByte(data[9] == 1)]
  {
    var p := Deserialize(data).value;
    Le16Read16(data, 0);
    Le16Read16(data, 6);
    Le16Read16(data, 10);
    assert data[9 := FlagByte(data[9] == 1)] == data[0..2] + data[2..6] + data[6..8]
      + [data[8], FlagByte(data[9] == 1)] + data[10..12];
  }

  /** The flag is outside the hash: rewriting byte 9 never breaks a decode, and
      `need_response` is set exactly by the value 1. */
  lemma FlagNotHashed(data: Bytes, b: u8)
    requires |data| == PACKET_SIZE && Deserialize(data).Ok?
    ensures Deserialize(data[9 := b]).Ok?
    ensures Deserialize(data[9 := b]).value.need_response <==> b == 1
  {
    var d := data[9 := b];
    assert Address(d) == Address(data);
  }

  /** The datagram of the source's test. */
  lemma Example()
    ensures Deserialize(Serialized(New([114, 51, 41, 91], 9818, 0, true))).Ok?
    ensures Deserialize(Serialized(New([114, 51, 41, 91], 9818, 0, true))).value.server_port == 9818
  {
    RoundTrip([114, 51, 41, 91], 9818, 0, true);
  }
}
