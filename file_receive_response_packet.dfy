/** `FileReceiveResponsePacket`, the receiver's answer to a file offer:
    1 byte file id, 8 bytes file size (u64), 4 bytes name length N (u32),
    N bytes of UTF-8 name, 1 byte accepted (1 or 0); 14 + N bytes. */
module FileReceiveResponsePackets {
  import opened Ints
  import opened Wrappers
  import opened Wire
  import opened Utf8

  const BASE_PACKET_SIZE: nat := 14

  datatype FileReceiveResponsePacket = FileReceiveResponsePacket(
    file_id: u8, file_size: u64, file_name_length: u32, file_name: string, accepted: bool)

  datatype FileReceiveResponsePacketError = CorruptedData

  /** `new`: the name length is `file_name.len() as u32`. */
  function New(fileId: u8, fileSize: u64, fileName: string, accepted: bool): (p: FileReceiveResponsePacket)
    ensures p.file_id == fileId && p.file_size == fileSize && p.file_name == fileName && p.accepted == accepted
    ensures |Encode(fileName)| < U32_MODULUS ==> p.file_name_length == |Encode(fileName)|
  {
    FileReceiveResponsePacket(fileId, fileSize, AsU32(|Encode(fileName)|), fileName, accepted)
  }

  /** `eq`: every field but the stored name length. */
  predicate Eq(p: FileReceiveResponsePacket, q: FileReceiveResponsePacket) {
    p.file_id == q.file_id && p.file_size == q.file_size && p.file_name == q.file_name && p.accepted == q.accepted
  }

  function AcceptedByte(accepted: bool): u8 {
    if accepted then 1 else 0
  }

  /** The bytes `serialize` produces; the length field is the stored one. */
  function Serialized(p: FileReceiveResponsePacket): (r: Bytes)
    ensures |r| == BASE_PACKET_SIZE + |Encode(p.file_name)|
  {
    [p.file_id] + Le64(p.file_size) + Le32(p.file_name_length) + Encode(p.file_name) + [AcceptedByte(p.accepted)]
  }

  method Serialize(p: FileReceiveResponsePacket) returns (data: Bytes)
    ensures data == Serialized(p)
  {
    data := [];
    data := data + [p.file_id];
    data := data + Le64(p.file_size);
    data := data + Le32(p.file_name_length);
    data := data + Encode(p.file_name);
    data := data + [AcceptedByte(p.accepted)];
  }

  /** `deserialize`: both length checks come before any slicing, the name is
      decoded lossily and the accepted flag is "byte is not 0". */
  function Deserialize(data: Bytes): (r: Result<FileReceiveResponsePacket, FileReceiveResponsePacketError>)
  {
    if |data| < BASE_PACKET_SIZE then Err(CorruptedData)
    else
      var fileNameLength := Read32(data, 9);
      if |data| < BASE_PACKET_SIZE + fileNameLength then Err(CorruptedData)
      else
        Ok(FileReceiveResponsePacket(
          data[0], Read64(data, 1), fileNameLength,
          FromUtf8Lossy(data[13..13 + fileNameLength]), data[13 + fileNameLength] != 0))
  }

  /** Decoding fails exactly when the input is too short for its own length
      field: malformed UTF-8 in the name never makes it fail. */
  lemma DeserializeSucceedsIff(data: Bytes)
    ensures Deserialize(data).Ok? <==> |data| >= BASE_PACKET_SIZE && |data| >= BASE_PACKET_SIZE + Read32(data, 9)
  {
  }

  lemma Layout(id: u8, size: u64, nameLen: u32, name: Bytes, flag: u8, rest: Bytes)
    requires |name| == nameLen
    ensures var s := [id] + Le64(size) + Le32(nameLen) + name + [flag] + rest;
      |s| >= 14 + nameLen && s[0] == id && Read64(s, 1) == size && Read32(s, 9) == nameLen
      && s[13..13 + nameLen] == name && s[13 + nameLen] == flag
  {
    var s := [id] + Le64(size) + Le32(nameLen) + name + [flag] + rest;
    assert s == [id] + Le64(size) + (Le32(nameLen) + name + [flag] + rest);
    Read64Le64([id], size, Le32(nameLen) + name + [flag] + rest);
    assert s == [id] + Le64(size) + Le32(nameLen) + (name + [flag] + rest);
    Read32Le32([id] + Le64(size), nameLen, name + [flag] + rest);
  }

  /** `deserialize(serialize(new(...)))` gives back the packet; bytes after
      the accepted flag are ignored. */
  lemma RoundTrip(fileId: u8, fileSize: u64, fileName: string, accepted: bool, rest: Bytes)
    requires |Encode(fileName)| < U32_MODULUS
    ensures Deserialize(Serialized(New(fileId, fileSize, fileName, accepted)) + rest)
            == Ok(New(fileId, fileSize, fileName, accepted))
  {
    var p := New(fileId, fileSize, fileName, accepted);
    var e := Encode(fileName);
    Layout(fileId, fileSize, p.file_name_length, e, AcceptedByte(accepted), rest);
    LossyEncode(fileName);
  }

  /** Any length field the input can hold is accepted, and the decoded name
      is the lossy decoding of exactly that many bytes. */
  lemma DecodedFields(data: Bytes)
    requires Deserialize(data).Ok?
    ensures var p := Deserialize(data).value;
      p.file_id == data[0] && p.file_size == Read64(data, 1)
      && p.file_name == FromUtf8Lossy(data[13..13 + p.file_name_length])
      && (p.accepted <==> data[13 + p.file_name_length] != 0)
  {
  }
}
