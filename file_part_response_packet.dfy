/** `FilePartResponsePacket`, a request to stop a transfer: 1 byte file id,
    1 byte response kind; 2 bytes. */
module FilePartResponsePackets {
  import opened Ints
  import opened Wrappers

  const BASE_PACKET_SIZE: nat := 2

  datatype ResponseKind = StopSending | StopReceiving

  /** The discriminant `response_kind as u8`. */
  function KindCode(k: ResponseKind): (v: u8)
    ensures v == 1 || v == 2
  {
    match k
    case StopSending => 1
    case StopReceiving => 2
  }

  /** The kind byte is stored raw: `deserialize` does not check it. */
  datatype FilePartResponsePacket = FilePartResponsePacket(file_id: u8, response_kind: u8)

  function New(fileId: u8, kind: ResponseKind): (p: FilePartResponsePacket)
    ensures p.file_id == fileId && p.response_kind == KindCode(kind)
  {
    FilePartResponsePacket(fileId, KindCode(kind))
  }

  /** `response_kind()`. It panics on any byte but 1 and 2; here that is the precondition. */
  function Kind(p: FilePartResponsePacket): (k: ResponseKind)
    requires p.response_kind == 1 || p.response_kind == 2
    ensures KindCode(k) == p.response_kind
  {
    if p.response_kind == 1 then StopSending else StopReceiving
  }

  lemma KindOfNew(fileId: u8, kind: ResponseKind)
    ensures Kind(New(fileId, kind)) == kind
  {
  }

  function Serialized(p: FilePartResponsePacket): (r: Bytes)
    ensures |r| == BASE_PACKET_SIZE
  {
    [p.file_id, p.response_kind]
  }

  method Serialize(p: FilePartResponsePacket) returns (data: Bytes)
    ensures data == Serialized(p)
  {
    data := [];
    data := data + [p.file_id];
    data := data + [p.response_kind];
  }

  /** `deserialize` succeeds exactly on 2-byte inputs, and then gives back the
      packet those bytes serialise. */
  function Deserialize(data: Bytes): (r: Result<FilePartResponsePacket, FilePartResponsePacketError>)
    ensures r.Ok? <==> |data| == BASE_PACKET_SIZE
    ensures r.Ok? ==> Serialized(r.value) == data
    ensures r.Err? ==> r.error == CorruptedData
  {
    if |data| != BASE_PACKET_SIZE then Err(CorruptedData)
    else Ok(FilePartResponsePacket(data[0], data[1]))
  }

  datatype FilePartResponsePacketError = CorruptedData

  lemma RoundTrip(p: FilePartResponsePacket)
    ensures Deserialize(Serialized(p)) == Ok(p)
  {
  }

  /** A kind byte that `response_kind()` would panic on still decodes. */
  lemma UncheckedKind()
    ensures Deserialize([7, 3]) == Ok(FilePartResponsePacket(7, 3))
  {
  }
}
