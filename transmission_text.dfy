/** `TextTransmission` of the transmission layer: the UTF-8 bytes of a
    message behind an 8-byte native-endian (here little-endian) length. */
module TransmissionTexts {
  import opened Ints
  import opened Wrappers
  import opened Wire
  import opened Utf8
  import opened Sockets

  const LENGTH_PRESERVE_SIZE: nat := 16
  const MESSAGE_MAX_SIZE: nat := ((2 as bv32) << (LENGTH_PRESERVE_SIZE - 1)) as int - 1
  const LENGTH_SIZE: nat := 8

  lemma MessageMaxSize()
    ensures MESSAGE_MAX_SIZE == 65535
  {
  }

  /** The buffer `send_text` passes to the socket, or the length error. */
  function TextFrame(message: string): (r: Result<Bytes, IoError>)
    ensures r.Ok? <==> |Encode(message)| < MESSAGE_MAX_SIZE
    ensures r.Ok? ==> |r.value| == LENGTH_SIZE + |Encode(message)| && r.value[LENGTH_SIZE..] == Encode(message)
  {
    var bytes := Encode(message);
    if |bytes| >= MESSAGE_MAX_SIZE then Err(Other)
    else Ok(Le64(|bytes|) + bytes)
  }

  function SendTextSpec(st: SocketState, message: string): (Result<nat, IoError>, SocketState)
  {
    match TextFrame(message)
    case Err(e) => (Err(e), st)
    case Ok(frame) => SendStep(st, frame)
  }

  method SendText(socket: Socket, message: string) returns (r: Result<nat, IoError>)
    modifies socket
    ensures (r, socket.State()) == SendTextSpec(old(socket.State()), message)
  {
    var bytes := Encode(message);
    var len := |bytes|;
    if len >= MESSAGE_MAX_SIZE {
      return Err(Other);
    }
    var buf := new u8[LENGTH_SIZE + len](_ => 0);
    CopyInto(buf, 0, Le64(len));
    CopyInto(buf, LENGTH_SIZE, bytes);
    assert buf[..] == Le64(len) + bytes;
    r := socket.Send(buf[..]);
  }

  /** `read_text`: the length, that many bytes, then strict UTF-8 decoding. */
  function ReadTextSpec(st: SocketState): (Result<string, IoError>, SocketState)
  {
    var (r1, st1) := ReadStep(st, LENGTH_SIZE);
    if r1.Err? then (Err(r1.error), st1)
    else
      assert |r1.value| == LENGTH_SIZE by { ReadStepTakesPrefix(st, LENGTH_SIZE); }
      var (r2, st2) := ReadStep(st1, Read64(r1.value, 0));
      if r2.Err? then (Err(r2.error), st2)
      else
        match FromUtf8(r2.value)
        case Some(s) => (Ok(s), st2)
        case None => (Err(Other), st2)
  }

  method ReadText(socket: Socket) returns (r: Result<string, IoError>)
    modifies socket
    ensures (r, socket.State()) == ReadTextSpec(old(socket.State()))
  {
    ghost var st := socket.State();
    var sizeBuf := socket.ReadExact(LENGTH_SIZE);
    if sizeBuf.Err? {
      return Err(sizeBuf.error);
    }
    ReadStepTakesPrefix(st, LENGTH_SIZE);
    var size := Read64(sizeBuf.value, 0);
    var buf := socket.ReadExact(size);
    if buf.Err? {
      return Err(buf.error);
    }
    var text := FromUtf8(buf.value);
    if text.Some? {
      r := Ok(text.value);
    } else {
      r := Err(Other);
    }
  }

  /** Reading a frame produced by `send_text(m)` returns m, and leaves exactly
      what followed the frame. */
  lemma SendThenRead(message: string, rest: Bytes)
    requires TextFrame(message).Ok?
    ensures ReadTextSpec(SocketState(TextFrame(message).value + rest, [], [])).0 == Ok(message)
    ensures ReadTextSpec(SocketState(TextFrame(message).value + rest, [], [])).1.input == rest
  {
    var e := Encode(message);
    var s := TextFrame(message).value + rest;
    assert s[..LENGTH_SIZE] == Le64(|e|);
    Read64Le64([], |e|, []);
    assert Le64(|e|) == [] + Le64(|e|) + [];
    assert s[LENGTH_SIZE..] == e + rest;
    assert (e + rest)[..|e|] == e;
    assert (e + rest)[|e|..] == rest;
    FromUtf8Encode(message);
  }

  /** A fault-free read of a length and a body that is not UTF-8 is an error,
      however the body came about. */
  lemma InvalidBody(body: Bytes, rest: Bytes)
    requires |body| < U64_MODULUS && !IsValid(body)
    ensures ReadTextSpec(SocketState(Le64(|body|) + body + rest, [], [])).0 == Err(Other)
  {
    var s := Le64(|body|) + body + rest;
    assert s[..LENGTH_SIZE] == Le64(|body|);
    Read64Le64([], |body|, []);
    assert Le64(|body|) == [] + Le64(|body|) + [];
    assert s[LENGTH_SIZE..] == body + rest;
    assert (body + rest)[..|body|] == body;
  }
}
