/** `DataPacket`, the envelope of every message on a data connection:
    2 bytes magic number, 4 bytes payload length N, N bytes payload,
    2 bytes checksum `(N / 2) as u16`, all little-endian; 8 + N bytes. */
module DataPackets {
  import opened Ints
  import opened Wrappers
  import opened Wire

  const BASE_PACKET_SIZE: nat := 8

  /** `DataPacket::new(magic_number, data)` is this constructor. */
  datatype DataPacket = DataPacket(magic_number: u16, data: Bytes)

  datatype DataPacketError = InvalidMagicNumber | InvalidHash | CorruptedData

  /** `packet_hash`: depends on the payload length only. */
  function PacketHash(p: DataPacket): u16 {
    AsU16(|p.data| / 2)
  }

  /** The bytes `serialize` produces. */
  function Serialized(p: DataPacket): (r: Bytes)
    ensures |r| == BASE_PACKET_SIZE + |p.data|
  {
    Le16(p.magic_number) + Le32(AsU32(|p.data|)) + p.data + Le16(PacketHash(p))
  }

  /** `serialize`: successive `extend_from_slice` calls on one buffer. */
  method Serialize(p: DataPacket) returns (bytes: Bytes)
    ensures bytes == Serialized(p)
  {
    var dataLen := |p.data|;
    bytes := [];
    bytes := bytes + Le16(p.magic_number);
    bytes := bytes + Le32(AsU32(dataLen));
    bytes := bytes + p.data;
    bytes := bytes + Le16(PacketHash(p));
  }

  /** `deserialize`: length, then declared length, then checksum. */
  function Deserialize(data: Bytes): (r: Result<DataPacket, DataPacketError>)
  {
    if |data| < BASE_PACKET_SIZE then Err(InvalidMagicNumber)
    else
      var magicNumber := Read16(data, 0);
      var actualDataLen := Read32(data, 2);
      if |data| != BASE_PACKET_SIZE + actualDataLen then Err(CorruptedData)
      else
        var hash := Read16(data, 6 + actualDataLen);
        var ret := DataPacket(magicNumber, data[6..6 + actualDataLen]);
        if hash != PacketHash(ret) then Err(InvalidHash) else Ok(ret)
  }

  /** Every packet whose payload length fits the u32 field decodes back to
      itself, whatever its magic number. */
  lemma RoundTrip(p: DataPacket)
    requires |p.data| < U32_MODULUS
    ensures Deserialize(Serialized(p)) == Ok(p)
  {
    var n := |p.data|;
    assert AsU32(n) == n;
    var a, b, h := Le16(p.magic_number), Le32(n), Le16(PacketHash(p));
    var s := Serialized(p);
    assert s == a + b + p.data + h;
    assert s == [] + a + (b + p.data + h);
    Read16Le16([], p.magic_number, b + p.data + h);
    assert s == a + b + (p.data + h);
    Read32Le32(a, n, p.data + h);
    assert s == (a + b + p.data) + h + [];
    Read16Le16(a + b + p.data, PacketHash(p), []);
    assert s[6..6 + n] == p.data;
    assert Read16(s, 0) == p.magic_number && Read32(s, 2) == n && Read16(s, 6 + n) == PacketHash(p);
  }

  /** Whatever decodes is exactly the serialisation of the decoded packet. */
  lemma DeserializeInverse(data: Bytes)
    requires Deserialize(data).Ok?
    ensures Serialized(Deserialize(data).value) == data
  {
    var n := DecodedFields(data);
    var p := Deserialize(data).value;
    assert AsU32(|p.data|) == n;
    Le16Read16(data, 0);
    Le32Read32(data, 2);
    Le16Read16(data, 6 + n);
    Quarters(data, n);
  }

  /** What a successful decode has checked, field by field. */
  lemma DecodedFields(data: Bytes) returns (n: nat)
    requires Deserialize(data).Ok?
    ensures |data| == 8 + n && n == Read32(data, 2)
    ensures Deserialize(data).value == DataPacket(Read16(data, 0), data[6..6 + n])
    ensures Read16(data, 6 + n) == AsU16(n / 2)
  {
    n := |data| - 8;
  }

  lemma Quarters(data: Bytes, n: nat)
    requires |data| == 8 + n
    ensures data == data[0..2] + data[2..6] + data[6..6 + n] + data[6 + n..8 + n]
  {
  }

  /** The ordered checks and the error each one raises. */
  lemma DeserializeChecks(data: Bytes)
    ensures |data| < 8 ==> Deserialize(data) == Err(InvalidMagicNumber)
    ensures |data| >= 8 && |data| != 8 + Read32(data, 2) ==> Deserialize(data) == Err(CorruptedData)
    ensures
      |data| >= 8 && |data| == 8 + Read32(data, 2) && Read16(data, |data| - 2) != AsU16(Read32(data, 2) / 2)
      ==> Deserialize(data) == Err(InvalidHash)
  {
  }

  /** The checksum does not cover the payload: changing payload bytes keeps a
      packet decodable, and the decoded payload is the changed one. */
  lemma PayloadNotCovered(data: Bytes, other: Bytes)
    requires Deserialize(data).Ok?
    requires |other| == |data| && other[..6] == data[..6] && other[|data| - 2..] == data[|data| - 2..]
    ensures Deserialize(other) == Ok(DataPacket(Deserialize(data).value.magic_number, other[6..|other| - 2]))
  {
    assert other[0..2] == data[0..2] && other[2..6] == data[2..6];
    assert other[|data| - 2..|data|] == data[|data| - 2..|data|];
  }
}
