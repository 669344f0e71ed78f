/** `DataTransmission`: frames of a 4-byte little-endian length followed by
    the data, sent and read with at most `PACKET_TRY_TIMES` attempts. */
module DataTransmissions {
  import opened Ints
  import opened Wrappers
  import opened Wire
  import opened Sockets

  const PACKET_TRY_TIMES: nat := 5
  const SIZE_SIZE: nat := 4

  /** The frame `send_data_with_retry` writes. `data.len() as u32` is only
      faithful below 2^32; past it the source's copy into the buffer panics. */
  function Frame(data: Bytes): (r: Bytes)
    requires |data| < U32_MODULUS
    ensures |r| == SIZE_SIZE + |data| && r[SIZE_SIZE..] == data
  {
    Le32(|data|) + data
  }

  /** Up to `tries` sends of the same frame, stopping at the first success and
      otherwise returning the last error. */
  function SendRetry(st: SocketState, frame: Bytes, tries: nat, error: IoError): (Result<nat, IoError>, SocketState)
    decreases tries
  {
    if tries == 0 then (Err(error), st)
    else
      var (r, st') := SendStep(st, frame);
      if r.Ok? then (r, st') else SendRetry(st', frame, tries - 1, r.error)
  }

  /** Outcome i of the script is a failure. */
  predicate FailsAt(outcomes: seq<Outcome>, i: nat) {
    i < |outcomes| && outcomes[i].Some?
  }

  /** Sending succeeds iff one of the first `tries` calls succeeds; it then
      writes the frame exactly once, and otherwise writes nothing. At most
      `tries` outcomes are used. */
  lemma {:induction false} SendRetrySpec(st: SocketState, frame: Bytes, tries: nat, error: IoError)
    ensures var (r, st') := SendRetry(st, frame, tries, error);
      (r.Ok? <==> exists i :: 0 <= i < tries && !FailsAt(st.outcomes, i))
      && (r.Ok? ==> r.value == |frame| && st'.sent == st.sent + [frame])
      && (r.Err? ==> st'.sent == st.sent)
      && st'.input == st.input
      && |st'.outcomes| >= |st.outcomes| - tries
    decreases tries
  {
    if tries > 0 {
      var (r, st1) := SendStep(st, frame);
      if r.Err? {
        SendRetrySpec(st1, frame, tries - 1, r.error);
        assert st1.outcomes == st.outcomes[1..];
        assert FailsAt(st.outcomes, 0);
        forall i | 0 <= i < tries - 1
          ensures FailsAt(st1.outcomes, i) <==> FailsAt(st.outcomes, i + 1)
        {
        }
        var r' := SendRetry(st1, frame, tries - 1, r.error).0;
        if r'.Ok? {
          var i :| 0 <= i < tries - 1 && !FailsAt(st1.outcomes, i);
          assert !FailsAt(st.outcomes, i + 1);
        } else {
          forall i | 0 <= i < tries
            ensures FailsAt(st.outcomes, i)
          {
            if i > 0 {
              assert FailsAt(st1.outcomes, i - 1);
            }
          }
        }
      } else {
        assert !FailsAt(st.outcomes, 0);
      }
    }
  }

  /** `send_data_with_retry`. */
  method SendDataWithRetry(socket: Socket, data: Bytes) returns (r: Result<nat, IoError>)
    requires |data| < U32_MODULUS
    modifies socket
    ensures (r, socket.State()) == SendRetry(old(socket.State()), Frame(data), PACKET_TRY_TIMES, Other)
  {
    var buf := new u8[SIZE_SIZE + |data|](_ => 0);
    CopyInto(buf, 0, Le32(|data|));
    CopyInto(buf, SIZE_SIZE, data);
    assert buf[..] == Frame(data);
    var frame := buf[..];
    var remainingTries: nat := PACKET_TRY_TIMES;
    var error: IoError := Other;
    while remainingTries > 0
      invariant remainingTries <= PACKET_TRY_TIMES
      invariant SendRetry(old(socket.State()), frame, PACKET_TRY_TIMES, Other)
             == SendRetry(socket.State(), frame, remainingTries, error)
      decreases remainingTries
    {
      var sr := socket.Send(frame);
      if sr.Ok? {
        return sr;
      }
      error := sr.error;
      remainingTries := remainingTries - 1;
    }
    r := Err(error);
  }

  /** Up to `tries` attempts to read a frame. A failure on the 4-byte prefix
      returns at once; only a failure on the body uses up an attempt. */
  function ReadRetry(st: SocketState, tries: nat, error: IoError): (Result<Bytes, IoError>, SocketState)
    decreases tries
  {
    if tries == 0 then (Err(error), st)
    else
      var (r1, st1) := ReadStep(st, SIZE_SIZE);
      if r1.Err? then (r1, st1)
      else
        assert |r1.value| == SIZE_SIZE by { ReadStepTakesPrefix(st, SIZE_SIZE); }
        var size := Read32(r1.value, 0);
        var (r2, st2) := ReadStep(st1, size);
        if r2.Ok? then (r2, st2) else ReadRetry(st2, tries - 1, r2.error)
  }

  /** `read_data_with_retry`. */
  method ReadDataWithRetry(socket: Socket) returns (r: Result<Bytes, IoError>)
    modifies socket
    ensures (r, socket.State()) == ReadRetry(old(socket.State()), PACKET_TRY_TIMES, Other)
  {
    var tries: nat := PACKET_TRY_TIMES;
    var error: IoError := Other;
    while tries > 0
      invariant ReadRetry(old(socket.State()), PACKET_TRY_TIMES, Other)
             == ReadRetry(socket.State(), tries, error)
      decreases tries
    {
      ghost var st := socket.State();
      var sizeBuf := socket.ReadExact(SIZE_SIZE);
      if sizeBuf.Err? {
        return sizeBuf;
      }
      ReadStepTakesPrefix(st, SIZE_SIZE);
      var size := Read32(sizeBuf.value, 0);
      var buf := socket.ReadExact(size);
      if buf.Ok? {
        return buf;
      }
      error := buf.error;
      tries := tries - 1;
    }
    r := Err(error);
  }

  /** A stream that starts with `Frame(data)`, with no fault on the first two
      reads, yields data and leaves exactly what followed the frame. */
  lemma ReadFrame(st: SocketState, data: Bytes, rest: Bytes, tries: nat, error: IoError)
    requires |data| < U32_MODULUS && tries > 0
    requires st.input == Frame(data) + rest
    requires NextFault(st).None? && NextFault(Tick(st)).None?
    ensures ReadRetry(st, tries, error).0 == Ok(data)
    ensures ReadRetry(st, tries, error).1.input == rest
  {
    var s := st.input;
    assert s[..SIZE_SIZE] == Le32(|data|);
    Read32Le32([], |data|, []);
    assert Le32(|data|) == [] + Le32(|data|) + [];
    assert s[SIZE_SIZE..] == data + rest;
    assert (data + rest)[..|data|] == data;
    assert (data + rest)[|data|..] == rest;
  }

  /** A failing prefix read ends the attempt at once, with that error and one
      outcome used. */
  lemma PrefixFailureIsFinal(st: SocketState, tries: nat, error: IoError)
    requires tries > 0 && NextFault(st).Some?
    ensures ReadRetry(st, tries, error) == (Err(NextFault(st).value), Tick(st))
  {
  }

  /** What `SendDataWithRetry` writes is what `ReadDataWithRetry` reads back. */
  lemma SendThenRead(data: Bytes, rest: Bytes)
    requires |data| < U32_MODULUS
    ensures ReadRetry(SocketState(Frame(data) + rest, [], []), PACKET_TRY_TIMES, Other).0 == Ok(data)
  {
    ReadFrame(SocketState(Frame(data) + rest, [], []), data, rest, PACKET_TRY_TIMES, Other);
  }
}
