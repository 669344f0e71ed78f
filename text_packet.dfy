/** The current `TextPacket` payload: 4 bytes text length N (u32), N bytes of
    UTF-8 text, 2 bytes `text_hash`, all little-endian; 6 + N bytes. */
module TextPackets {
  import opened Ints
  import opened Wrappers
  import opened Wire
  import opened Utf8
  import opened TextHashing

  const STRING_LENGTH_MAX: nat := 0xffff
  const BASE_PACKET_SIZE: nat := 6

  datatype TextPacket = TextPacket(text_length: u32, text: string)

  datatype TextPacketError = InvalidData | InvalidHash | StringTooLong

  /** `TextPacket::new`: texts of more than 0xffff UTF-8 bytes are refused. */
  function New(text: string): (r: Result<TextPacket, TextPacketError>)
    ensures r.Ok? <==> |Encode(text)| <= STRING_LENGTH_MAX
    ensures r.Ok? ==> r.value.text == text && r.value.text_length == |Encode(text)|
    ensures r.Err? ==> r.error == StringTooLong
  {
    if |Encode(text)| > STRING_LENGTH_MAX then Err(StringTooLong)
    else Ok(TextPacket(|Encode(text)|, text))
  }

  /** The bytes `serialize` produces; the length field is `text_length` as stored. */
  function Serialized(p: TextPacket): (r: Bytes)
    ensures |r| == BASE_PACKET_SIZE + |Encode(p.text)|
  {
    Le32(p.text_length) + Encode(p.text) + Le16(HashOf(p.text))
  }

  method Serialize(p: TextPacket) returns (ret: Bytes)
    ensures ret == Serialized(p)
  {
    ret := [];
    ret := ret + Le32(p.text_length);
    ret := ret + Encode(p.text);
    var hash := TextHash(p.text);
    ret := ret + Le16(hash);
  }

  /** `deserialize`. Slicing `data[4..4 + N]` and indexing the hash are not
      guarded by a length check: past the end Rust panics. */
  function Deserialize(data: Bytes): Panicking<TextPacket, TextPacketError>
  {
    if |data| < BASE_PACKET_SIZE then Done(Err(InvalidData))
    else
      var textLen := Read32(data, 0);
      if 4 + textLen > |data| then Panic
      else
        match FromUtf8(data[4..4 + textLen])
        case None => Done(Err(InvalidData))
        case Some(text) =>
          if 4 + textLen + 2 > |data| then Panic
          else if HashOf(text) == Read16(data, 4 + textLen) then
            match New(text)
            case Ok(x) => Done(Ok(x))
            case Err(_) => Done(Err(InvalidData))
          else Done(Err(InvalidHash))
  }

  /** `deserialize(serialize(new(t)))` gives back the packet, and bytes after
      the hash are ignored. */
  lemma RoundTrip(text: string, rest: Bytes)
    requires New(text).Ok?
    ensures Deserialize(Serialized(New(text).value) + rest) == Done(New(text))
  {
    var p := New(text).value;
    var n := p.text_length;
    var e := Encode(text);
    var h := Le16(HashOf(text));
    var s := Serialized(p) + rest;
    assert s == [] + Le32(n) + (e + h + rest);
    Read32Le32([], n, e + h + rest);
    assert s == (Le32(n) + e) + h + rest;
    Read16Le16(Le32(n) + e, HashOf(text), rest);
    assert s[4..4 + n] == e;
    FromUtf8Encode(text);
  }

  /** A successful decode read exactly the serialisation of its result, and
      that result is what `new` makes of its text. */
  lemma DeserializeInverse(data: Bytes)
    requires Deserialize(data).Done? && Deserialize(data).result.Ok?
    ensures New(Deserialize(data).result.value.text) == Deserialize(data).result
    ensures Serialized(Deserialize(data).result.value) <= data
  {
    var p := Deserialize(data).result.value;
    var n := Read32(data, 0);
    var t := FromUtf8(data[4..4 + n]);
    assert 4 + n + 2 <= |data| && t.Some?;
    assert HashOf(t.value) == Read16(data, 4 + n) && New(t.value) == Ok(p);
    assert Encode(p.text) == data[4..4 + n] by {
      FromUtf8IsInverse(data[4..4 + n]);
    }
    assert Le32(p.text_length) == data[0..4] by {
      Le32Read32(data, 0);
    }
    assert Le16(HashOf(p.text)) == data[4 + n..6 + n] by {
      Le16Read16(data, 4 + n);
    }
    assert data[..6 + n] == data[0..4] + data[4..4 + n] + data[4 + n..6 + n];
  }

  /** The ordered checks: too short, then bad UTF-8, then checksum, then `new`. */
  lemma DeserializeChecks(data: Bytes)
    ensures |data| < 6 ==> Deserialize(data) == Done(Err(InvalidData))
    ensures |data| >= 6 && 4 + Read32(data, 0) <= |data| && !IsValid(data[4..4 + Read32(data, 0)])
            ==> Deserialize(data) == Done(Err(InvalidData))
    ensures |data| >= 6 && 6 + Read32(data, 0) <= |data| && IsValid(data[4..4 + Read32(data, 0)])
            && HashOf(FromUtf8(data[4..4 + Read32(data, 0)]).value) != Read16(data, 4 + Read32(data, 0))
            ==> Deserialize(data) == Done(Err(InvalidHash))
  {
  }

  /** Two inputs the source does not guard against: a length field past the
      end, and a text that leaves no room for the hash. */
  lemma PanicCases()
    ensures Deserialize([0xff, 0xff, 0xff, 0xff, 0, 0]) == Panic
    ensures Deserialize([1, 0, 0, 0, 0x41, 0]) == Panic
  {
    assert [0x41 as u8][1..] == [];
    PowValues();
  }
}
