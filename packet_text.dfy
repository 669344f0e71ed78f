/** `TextTransmission` of the packet layer: a legacy `TextPacket` behind an
    8-byte (usize) little-endian length. */
module PacketTexts {
  import opened Ints
  import opened Wrappers
  import opened Wire
  import opened Utf8
  import opened TextHashing
  import opened Sockets
  import LT = LegacyTextPackets

  const LENGTH_PRESERVE_SIZE: nat := 16
  /** `(2 << (LENGTH_PRESERVE_SIZE - 1)) - 1`. */
  const MESSAGE_MAX_SIZE: nat := ((2 as bv32) << (LENGTH_PRESERVE_SIZE - 1)) as int - 1
  const USIZE_SIZE: nat := 8

  lemma MessageMaxSize()
    ensures MESSAGE_MAX_SIZE == 65535
  {
  }

  /** The buffer `send_text` passes to the socket, or the error it returns
      before sending. */
  function TextFrame(message: string): Result<Bytes, IoError>
  {
    match LT.New(message)
    case Err(_) => Err(Other)
    case Ok(packet) =>
      var bytes := LT.Serialized(packet);
      if |bytes| >= MESSAGE_MAX_SIZE then Err(Other)
      else Ok(Le64(|bytes|) + bytes)
  }

  function SendTextSpec(st: SocketState, message: string): (Result<nat, IoError>, SocketState)
  {
    match TextFrame(message)
    case Err(e) => (Err(e), st)
    case Ok(frame) => SendStep(st, frame)
  }

  /** `send_text`: builds the frame in a buffer and sends it once. */
  method SendText(socket: Socket, message: string) returns (r: Result<nat, IoError>)
    modifies socket
    ensures (r, socket.State()) == SendTextSpec(old(socket.State()), message)
  {
    var packet := LT.New(message);
    if packet.Err? {
      return Err(Other);
    }
    var bytes := LT.Serialize(packet.value);
    var len := |bytes|;
    if len >= MESSAGE_MAX_SIZE {
      return Err(Other);
    }
    var buf := new u8[USIZE_SIZE + len](_ => 0);
    CopyInto(buf, 0, Le64(len));
    CopyInto(buf, USIZE_SIZE, bytes);
    assert buf[..] == Le64(len) + bytes;
    r := socket.Send(buf[..]);
  }

  /** Both limits together: a message is framed iff its UTF-8 form is shorter
      than 65533 bytes (the packet adds 2), and the frame is the usize length
      of the packet followed by the packet. */
  lemma TextFrameSpec(message: string)
    ensures TextFrame(message).Ok? <==> |Encode(message)| + 2 < MESSAGE_MAX_SIZE
    ensures TextFrame(message).Ok? ==>
              TextFrame(message).value == Le64(|Encode(message)| + 2) + Encode(message) + Le16(HashOf(message))
  {
  }

  /** `read_text`: the length, that many bytes, then the legacy decoder, whose
      errors become `InvalidData` and whose panics stay panics. */
  function ReadTextSpec(st: SocketState): (Panicking<string, IoError>, SocketState)
  {
    var (r1, st1) := ReadStep(st, USIZE_SIZE);
    if r1.Err? then (Done(Err(r1.error)), st1)
    else
      assert |r1.value| == USIZE_SIZE by { ReadStepTakesPrefix(st, USIZE_SIZE); }
      var (r2, st2) := ReadStep(st1, Read64(r1.value, 0));
      if r2.Err? then (Done(Err(r2.error)), st2)
      else
        match LT.Deserialize(r2.value)
        case Panic => (Panic, st2)
        case Done(Ok(p)) => (Done(Ok(p.text)), st2)
        case Done(Err(_)) => (Done(Err(InvalidData)), st2)
  }

  method ReadText(socket: Socket) returns (r: Panicking<string, IoError>)
    modifies socket
    ensures (r, socket.State()) == ReadTextSpec(old(socket.State()))
  {
    ghost var st := socket.State();
    var sizeBuf := socket.ReadExact(USIZE_SIZE);
    if sizeBuf.Err? {
      return Done(Err(sizeBuf.error));
    }
    ReadStepTakesPrefix(st, USIZE_SIZE);
    var size := Read64(sizeBuf.value, 0);
    var buf := socket.ReadExact(size);
    if buf.Err? {
      return Done(Err(buf.error));
    }
    match LT.Deserialize(buf.value)
    case Panic => r := Panic;
    case Done(Ok(p)) => r := Done(Ok(p.text));
    case Done(Err(_)) => r := Done(Err(InvalidData));
  }

  /** Reading a stream that starts with `send_text(m)`'s frame: a fault-free
      read returns the legacy decoding of the packet and leaves what followed. */
  lemma ReadFrame(st: SocketState, frame: Bytes, packet: Bytes, rest: Bytes)
    requires |packet| < U64_MODULUS && frame == Le64(|packet|) + packet
    requires st.input == frame + rest && st.outcomes == []
    ensures ReadTextSpec(st).1.input == rest
    ensures ReadTextSpec(st).0 == match LT.Deserialize(packet)
      case Panic => Panic
      case Done(Ok(p)) => Done(Ok(p.text))
      case Done(Err(_)) => Done(Err(InvalidData))
  {
    var s := st.input;
    assert s[..USIZE_SIZE] == Le64(|packet|);
    Read64Le64([], |packet|, []);
    assert Le64(|packet|) == [] + Le64(|packet|) + [];
    assert s[USIZE_SIZE..] == packet + rest;
    assert (packet + rest)[..|packet|] == packet;
    assert (packet + rest)[|packet|..] == rest;
  }

  /** `read_text` returns what `send_text` sent, for every non-empty message it
      accepts. */
  lemma SendThenRead(message: string, rest: Bytes)
    requires TextFrame(message).Ok? && message != ""
    ensures ReadTextSpec(SocketState(TextFrame(message).value + rest, [], [])).0 == Done(Ok(message))
  {
    var p := LT.New(message).value;
    var packet := LT.Serialized(p);
    ReadFrame(SocketState(TextFrame(message).value + rest, [], []), TextFrame(message).value, packet, rest);
    LT.RoundTrip(p);
  }

  /** The empty message is sent but read back as an error. */
  lemma EmptyMessage()
    ensures TextFrame("").Ok?
    ensures ReadTextSpec(SocketState(TextFrame("").value, [], [])).0 == Done(Err(InvalidData))
  {
    var packet := LT.Serialized(LT.TextPacket(""));
    ReadFrame(SocketState(TextFrame("").value, [], []), TextFrame("").value, packet, []);
    LT.EmptyText();
    assert TextFrame("").value + [] == TextFrame("").value;
  }
}
