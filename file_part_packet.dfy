/** `FilePartPacket`, one chunk of a file: 1 byte file id, 8 bytes offset
    (u64), 8 bytes length L (u64), then the data; 17 + |data| bytes. */
module FilePartPackets {
  import opened Ints
  import opened Wrappers
  import opened Wire

  const BASE_PACKET_SIZE: nat := 17

  /** `FilePartPacket::new` is this constructor, and its `eq` compares every
      field, so it is the equality of the datatype. */
  datatype FilePartPacket = FilePartPacket(file_id: u8, offset: u64, length: u64, data: Bytes)

  datatype FilePartPacketError = CorruptedData

  /** The bytes `serialize` produces: the length field is `length`, not `|data|`. */
  function Serialized(p: FilePartPacket): (r: Bytes)
    ensures |r| == BASE_PACKET_SIZE + |p.data|
  {
    [p.file_id] + Le64(p.offset) + Le64(p.length) + p.data
  }

  method Serialize(p: FilePartPacket) returns (serialized: Bytes)
    ensures serialized == Serialized(p)
  {
    serialized := [];
    serialized := serialized + [p.file_id];
    serialized := serialized + Le64(p.offset);
    serialized := serialized + Le64(p.length);
    serialized := serialized + p.data;
  }

  /** `deserialize`. Whatever decodes has a length field equal to its data size. */
  function Deserialize(serialized: Bytes): (r: Result<FilePartPacket, FilePartPacketError>)
    ensures r.Ok? ==> r.value.length == |r.value.data| && |serialized| == BASE_PACKET_SIZE + |r.value.data|
  {
    if |serialized| < BASE_PACKET_SIZE then Err(CorruptedData)
    else
      var length := Read64(serialized, 9);
      if |serialized| != BASE_PACKET_SIZE + length then Err(CorruptedData)
      else Ok(FilePartPacket(serialized[0], Read64(serialized, 1), length, serialized[17..17 + length]))
  }

  lemma Layout(id: u8, offset: u64, length: u64, data: Bytes)
    ensures var s := [id] + Le64(offset) + Le64(length) + data;
      |s| >= 17 && s[0] == id && Read64(s, 1) == offset && Read64(s, 9) == length && s[17..] == data
  {
    var s := [id] + Le64(offset) + Le64(length) + data;
    assert s == [id] + Le64(offset) + (Le64(length) + data);
    Read64Le64([id], offset, Le64(length) + data);
    assert s == [id] + Le64(offset) + Le64(length) + data + [];
    Read64Le64([id] + Le64(offset), length, data + []);
  }

  /** A packet round-trips exactly when its length field is its data size;
      otherwise decoding its serialisation fails with `CorruptedData`. */
  lemma RoundTripIff(p: FilePartPacket)
    ensures Deserialize(Serialized(p)) == Ok(p) <==> p.length == |p.data|
    ensures p.length != |p.data| ==> Deserialize(Serialized(p)) == Err(CorruptedData)
  {
    Layout(p.file_id, p.offset, p.length, p.data);
    var s := Serialized(p);
    if p.length == |p.data| {
      assert s[17..17 + p.length] == s[17..] == p.data;
    }
  }

  /** Whatever decodes is exactly the serialisation of the decoded packet. */
  lemma DeserializeInverse(serialized: Bytes)
    requires Deserialize(serialized).Ok?
    ensures Serialized(Deserialize(serialized).value) == serialized
  {
    var p := Deserialize(serialized).value;
    assert Le64(p.offset) == serialized[1..9] by {
      Le64Read64(serialized, 1);
    }
    assert Le64(p.length) == serialized[9..17] by {
      Le64Read64(serialized, 9);
    }
    assert serialized == [serialized[0]] + serialized[1..9] + serialized[9..17] + serialized[17..];
  }

  /** The ordered checks. */
  lemma DeserializeChecks(serialized: Bytes)
    ensures |serialized| < 17 ==> Deserialize(serialized) == Err(CorruptedData)
    ensures |serialized| >= 17 && |serialized| != 17 + Read64(serialized, 9) ==> Deserialize(serialized) == Err(CorruptedData)
  {
  }
}
