/** The older `TextPacket` format: N bytes of UTF-8 text followed by the
    2-byte little-endian `text_hash`; N + 2 bytes, no length field. */
module LegacyTextPackets {
  import opened Ints
  import opened Wrappers
  import opened Wire
  import opened Utf8
  import opened TextHashing

  /** `StringLenType::MAX`: `new` refuses texts of this many bytes or more. */
  const STRING_LENGTH_LIMIT: nat := 0xffff
  const HASH_SIZE: nat := 2

  datatype TextPacket = TextPacket(text: string)

  datatype TextPacketError = InvalidData | InvalidHash | StringTooLong

  function New(text: string): (r: Result<TextPacket, TextPacketError>)
    ensures r.Ok? <==> |Encode(text)| < STRING_LENGTH_LIMIT
    ensures r.Ok? ==> r.value.text == text
    ensures r.Err? ==> r.error == StringTooLong
  {
    if |Encode(text)| >= STRING_LENGTH_LIMIT then Err(StringTooLong)
    else Ok(TextPacket(text))
  }

  function Serialized(p: TextPacket): (r: Bytes)
    ensures |r| == |Encode(p.text)| + HASH_SIZE
  {
    Encode(p.text) + Le16(HashOf(p.text))
  }

  method Serialize(p: TextPacket) returns (ret: Bytes)
    ensures ret == Serialized(p)
  {
    ret := [];
    ret := ret + Encode(p.text);
    var hash := TextHash(p.text);
    ret := ret + Le16(hash);
  }

  /** `deserialize`. `data.len() - 2` underflows on inputs shorter than 2
      bytes, which panics. Invalid UTF-8 is reported as `InvalidHash`. */
  function Deserialize(data: Bytes): Panicking<TextPacket, TextPacketError>
  {
    if |data| < HASH_SIZE then Panic
    else
      var textLen := |data| - HASH_SIZE;
      if textLen == 0 then Done(Err(InvalidData))
      else
        match FromUtf8(data[..textLen])
        case None => Done(Err(InvalidHash))
        case Some(text) =>
          if HashOf(text) == Read16(data, textLen) then Done(Ok(TextPacket(text)))
          else Done(Err(InvalidHash))
  }

  /** `deserialize(serialize(p))` gives back p for a non-empty text. */
  lemma RoundTrip(p: TextPacket)
    requires p.text != []
    ensures Deserialize(Serialized(p)) == Done(Ok(p))
  {
    var e := Encode(p.text);
    var s := Serialized(p);
    assert |e| >= |p.text| > 0;
    assert s[..|e|] == e;
    FromUtf8Encode(p.text);
    Read16Le16(e, HashOf(p.text), []);
    assert s == e + Le16(HashOf(p.text)) + [];
  }

  /** The serialisation of the empty text is refused, and shorter inputs panic. */
  lemma EmptyText()
    ensures Deserialize(Serialized(TextPacket(""))) == Done(Err(InvalidData))
    ensures Deserialize([]) == Panic && Deserialize([0x41]) == Panic
  {
  }

  /** A successful decode read exactly the serialisation of its result: no
      trailing bytes are possible. */
  lemma DeserializeInverse(data: Bytes)
    requires Deserialize(data).Done? && Deserialize(data).result.Ok?
    ensures Serialized(Deserialize(data).result.value) == data
  {
    var p := Deserialize(data).result.value;
    var n := |data| - HASH_SIZE;
    assert FromUtf8(data[..n]) == Some(p.text);
    assert Encode(p.text) == data[..n] by {
      FromUtf8IsInverse(data[..n]);
    }
    assert Le16(HashOf(p.text)) == data[n..n + 2] by {
      Le16Read16(data, n);
    }
    assert data == data[..n] + data[n..n + 2];
  }

  /** The ordered checks: bad UTF-8, then checksum, both as `InvalidHash`. */
  lemma DeserializeChecks(data: Bytes)
    ensures |data| > HASH_SIZE && !IsValid(data[..|data| - HASH_SIZE])
            ==> Deserialize(data) == Done(Err(InvalidHash))
    ensures |data| > HASH_SIZE && IsValid(data[..|data| - HASH_SIZE])
            && HashOf(FromUtf8(data[..|data| - HASH_SIZE]).value) != Read16(data, |data| - HASH_SIZE)
            ==> Deserialize(data) == Done(Err(InvalidHash))
  {
  }
}
