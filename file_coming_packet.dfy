/** The current `FileComingPacket` payload: 8 bytes file size (u64), 4 bytes
    name length N (u32), N bytes of UTF-8 name, 2 bytes checksum, all
    little-endian; 14 + N bytes. */
module FileComingPackets {
  import opened Ints
  import opened Wrappers
  import opened Wire
  import opened Utf8

  const BASE_PACKET_SIZE: nat := 12

  datatype FileComingPacket = FileComingPacket(file_size: u64, file_name_length: u32, file_name: string)

  datatype FileComingPacketError = InvalidHash | CorruptedPacket | FileNameTooLong | FileTooLarge

  /** `FileComingPacket::new`: the name length is `file_name.len() as u32`. */
  function New(fileSize: u64, fileName: string): (p: FileComingPacket)
    ensures p.file_size == fileSize && p.file_name == fileName
    ensures |Encode(fileName)| < U32_MODULUS ==> p.file_name_length == |Encode(fileName)|
  {
    FileComingPacket(fileSize, AsU32(|Encode(fileName)|), fileName)
  }

  /** `packet_hash`: `(file_size as u32 + file_name_length) as u16`, the u32
      addition taken as wrapping. */
  function PacketHash(p: FileComingPacket): u16 {
    AsU16(AsU32(AsU32(p.file_size) + p.file_name_length))
  }

  /** Only the low 16 bits of size and length matter to the checksum. */
  lemma PacketHashLowBits(p: FileComingPacket)
    ensures PacketHash(p) == (p.file_size + p.file_name_length) % U16_MODULUS
  {
    var s := p.file_size;
    var l := p.file_name_length;
    var q1, q2 := s / U32_MODULUS, (s % U32_MODULUS + l) / U32_MODULUS;
    assert s % U32_MODULUS + l == q2 * U32_MODULUS + AsU32(AsU32(s) + l);
    assert s + l == (q1 + q2) * U32_MODULUS + AsU32(AsU32(s) + l);
    assert U32_MODULUS == 0x1_0000 * U16_MODULUS;
    ModOfMultiple((q1 + q2) * 0x1_0000, AsU32(AsU32(s) + l));
  }

  lemma ModOfMultiple(k: int, r: nat)
    ensures (k * U16_MODULUS + r) % U16_MODULUS == r % U16_MODULUS
  {
  }

  /** `eq`: file size and file name; the stored name length is not compared. */
  predicate Eq(p: FileComingPacket, q: FileComingPacket) {
    p.file_size == q.file_size && p.file_name == q.file_name
  }

  /** On packets made by `new`, `eq` is plain equality. */
  lemma EqOfNew(s1: u64, n1: string, s2: u64, n2: string)
    ensures Eq(New(s1, n1), New(s2, n2)) <==> New(s1, n1) == New(s2, n2)
  {
  }

  function Serialized(p: FileComingPacket): (r: Bytes)
    ensures |r| == BASE_PACKET_SIZE + |Encode(p.file_name)| + 2
  {
    Le64(p.file_size) + Le32(p.file_name_length) + Encode(p.file_name) + Le16(PacketHash(p))
  }

  method Serialize(p: FileComingPacket) returns (bytes: Bytes)
    ensures bytes == Serialized(p)
  {
    bytes := [];
    bytes := bytes + Le64(p.file_size);
    bytes := bytes + Le32(p.file_name_length);
    bytes := bytes + Encode(p.file_name);
    bytes := bytes + Le16(PacketHash(p));
  }

  /** `deserialize`. The name slice and the hash bytes are not guarded by a
      length check: past the end Rust panics. */
  function Deserialize(data: Bytes): Panicking<FileComingPacket, FileComingPacketError>
  {
    if |data| < BASE_PACKET_SIZE then Done(Err(CorruptedPacket))
    else
      var fileSize := Read64(data, 0);
      var nameLen := Read32(data, 8);
      if 12 + nameLen > |data| then Panic
      else
        match FromUtf8(data[12..12 + nameLen])
        case None => Done(Err(FileNameTooLong))
        case Some(fileName) =>
          if 12 + nameLen + 2 > |data| then Panic
          else
            var ret := New(fileSize, fileName);
            if Read16(data, 12 + nameLen) != PacketHash(ret) then Done(Err(InvalidHash))
            else Done(Ok(ret))
  }

  /** Where each field of the layout reads back from. */
  lemma LayoutHeader(fileSize: u64, nameLen: u32, tail: Bytes)
    ensures |Le64(fileSize) + Le32(nameLen) + tail| >= 12
    ensures Read64(Le64(fileSize) + Le32(nameLen) + tail, 0) == fileSize
    ensures Read32(Le64(fileSize) + Le32(nameLen) + tail, 8) == nameLen
  {
    var s := Le64(fileSize) + Le32(nameLen) + tail;
    assert Read64(s, 0) == fileSize by {
      assert s == Le64(fileSize) + (Le32(nameLen) + tail);
      Front64(fileSize, Le32(nameLen) + tail);
    }
    Read32Le32(Le64(fileSize), nameLen, tail);
  }

  lemma Layout(fileSize: u64, nameLen: u32, name: Bytes, hash: u16, rest: Bytes)
    requires |name| == nameLen
    ensures var s := Le64(fileSize) + Le32(nameLen) + name + Le16(hash) + rest;
      |s| >= 14 + nameLen && Read64(s, 0) == fileSize && Read32(s, 8) == nameLen
      && s[12..12 + nameLen] == name && Read16(s, 12 + nameLen) == hash
  {
    var s := Le64(fileSize) + Le32(nameLen) + name + Le16(hash) + rest;
    assert s == Le64(fileSize) + Le32(nameLen) + (name + Le16(hash) + rest);
    LayoutHeader(fileSize, nameLen, name + Le16(hash) + rest);
    Read16Le16(Le64(fileSize) + Le32(nameLen) + name, hash, rest);
  }

  /** `deserialize(serialize(new(s, n)))` gives back the packet (so it is `eq`
      to it), and bytes after the hash are ignored. */
  lemma RoundTrip(fileSize: u64, fileName: string, rest: Bytes)
    requires |Encode(fileName)| < U32_MODULUS
    ensures Deserialize(Serialized(New(fileSize, fileName)) + rest) == Done(Ok(New(fileSize, fileName)))
  {
    var p := New(fileSize, fileName);
    var e := Encode(fileName);
    FromUtf8Encode(fileName);
    DecodeOfLayout(fileSize, e, fileName, rest);
    assert Serialized(p) + rest == Le64(fileSize) + Le32(|e|) + e + Le16(PacketHash(p)) + rest;
  }

  /** A well-formed layout decodes to the packet `new` makes of its fields. */
  lemma DecodeOfLayout(fileSize: u64, name: Bytes, fileName: string, rest: Bytes)
    requires |name| < U32_MODULUS && FromUtf8(name) == Some(fileName)
    ensures Deserialize(Le64(fileSize) + Le32(|name|) + name + Le16(PacketHash(New(fileSize, fileName))) + rest)
         == Done(Ok(New(fileSize, fileName)))
  {
    Layout(fileSize, |name|, name, PacketHash(New(fileSize, fileName)), rest);
  }

  /** A successful decode read exactly the serialisation of its result. */
  lemma DeserializeInverse(data: Bytes)
    requires Deserialize(data).Done? && Deserialize(data).result.Ok?
    ensures Serialized(Deserialize(data).result.value) <= data
  {
    var p := Deserialize(data).result.value;
    var n := Read32(data, 8);
    var t := FromUtf8(data[12..12 + n]);
    assert 12 + n + 2 <= |data| && t.Some?;
    assert p == New(Read64(data, 0), t.value) && Read16(data, 12 + n) == PacketHash(p);
    assert Encode(p.file_name) == data[12..12 + n] by {
      FromUtf8IsInverse(data[12..12 + n]);
    }
    assert Le64(p.file_size) == data[0..8] by {
      Le64Read64(data, 0);
    }
    assert Le32(p.file_name_length) == data[8..12] by {
      Le32Read32(data, 8);
    }
    assert Le16(PacketHash(p)) == data[12 + n..14 + n] by {
      Le16Read16(data, 12 + n);
    }
    assert data[..14 + n] == data[0..8] + data[8..12] + data[12..12 + n] + data[12 + n..14 + n];
  }

  /** The ordered checks and the error each one raises. */
  lemma DeserializeChecks(data: Bytes)
    ensures |data| < 12 ==> Deserialize(data) == Done(Err(CorruptedPacket))
    ensures |data| >= 12 && 12 + Read32(data, 8) <= |data| && !IsValid(data[12..12 + Read32(data, 8)])
            ==> Deserialize(data) == Done(Err(FileNameTooLong))
    ensures |data| >= 12 && 14 + Read32(data, 8) <= |data| && IsValid(data[12..12 + Read32(data, 8)])
            && Read16(data, 12 + Read32(data, 8))
               != PacketHash(New(Read64(data, 0), FromUtf8(data[12..12 + Read32(data, 8)]).value))
            ==> Deserialize(data) == Done(Err(InvalidHash))
  {
  }

  /** Inputs the source does not guard against. */
  lemma PanicCases()
    ensures Deserialize([0, 0, 0, 0, 0, 0, 0, 0, 1, 0, 0, 0]) == Panic
    ensures Deserialize([0, 0, 0, 0, 0, 0, 0, 0, 0, 0, 0, 0]) == Panic
  {
    PowValues();
  }
}
