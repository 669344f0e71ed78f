/** The byte-stream socket the framing layers talk to, as a script: the bytes
    the peer will deliver, the buffers written so far, and the outcome of each
    successive call (a failure of some kind, or success). */
module Sockets {
  import opened Ints
  import opened Wrappers

  /** The `io::ErrorKind`s the core tells apart. */
  datatype IoError = Other | InvalidData | UnexpectedEof | WouldBlock | TimedOut | ConnectionReset

  /** One successive call: `None` succeeds, `Some(e)` fails with e. Calls past
      the end of the script succeed. */
  type Outcome = Option<IoError>

  datatype SocketState = SocketState(input: Bytes, sent: seq<Bytes>, outcomes: seq<Outcome>)

  function NextFault(st: SocketState): Outcome {
    if st.outcomes == [] then None else st.outcomes[0]
  }

  function Tick(st: SocketState): (r: SocketState)
    ensures r.input == st.input && r.sent == st.sent
  {
    st.(outcomes := if st.outcomes == [] then [] else st.outcomes[1..])
  }

  /** One `send`: a failure writes nothing; a success writes the whole buffer. */
  function SendStep(st: SocketState, buf: Bytes): (Result<nat, IoError>, SocketState)
  {
    match NextFault(st)
    case Some(e) => (Err(e), Tick(st))
    case None => (Ok(|buf|), Tick(st).(sent := st.sent + [buf]))
  }

  /** One `read_exact` of n bytes: a failure or an early end of stream takes
      nothing and, at the end of stream, leaves nothing; a success takes
      exactly n bytes. */
  function ReadStep(st: SocketState, n: nat): (Result<Bytes, IoError>, SocketState)
  {
    match NextFault(st)
    case Some(e) => (Err(e), Tick(st))
    case None =>
      if |st.input| < n then (Err(UnexpectedEof), Tick(st).(input := []))
      else (Ok(st.input[..n]), Tick(st).(input := st.input[n..]))
  }

  /** A successful read returns n bytes the stream started with, and removes them. */
  lemma ReadStepTakesPrefix(st: SocketState, n: nat)
    ensures var (r, st') := ReadStep(st, n);
      r.Ok? ==> |r.value| == n && st.input == r.value + st'.input
    ensures var (r, st') := ReadStep(st, n);
      r.Ok? <==> NextFault(st).None? && n <= |st.input|
    ensures ReadStep(st, n).1.sent == st.sent
  {
  }

  class Socket {
    var input: Bytes
    var sent: seq<Bytes>
    var outcomes: seq<Outcome>

    constructor (input: Bytes, outcomes: seq<Outcome>)
      ensures this.input == input && sent == [] && this.outcomes == outcomes
    {
      this.input := input;
      this.sent := [];
      this.outcomes := outcomes;
    }

    function State(): SocketState
      reads this
    {
      SocketState(input, sent, outcomes)
    }

    method Send(buf: Bytes) returns (r: Result<nat, IoError>)
      modifies this
      ensures (r, State()) == SendStep(old(State()), buf)
    {
      var fault := if outcomes == [] then None else outcomes[0];
      if outcomes != [] {
        outcomes := outcomes[1..];
      }
      if fault.Some? {
        r := Err(fault.value);
      } else {
        sent := sent + [buf];
        r := Ok(|buf|);
      }
    }

    method ReadExact(n: nat) returns (r: Result<Bytes, IoError>)
      modifies this
      ensures (r, State()) == ReadStep(old(State()), n)
    {
      var fault := if outcomes == [] then None else outcomes[0];
      if outcomes != [] {
        outcomes := outcomes[1..];
      }
      if fault.Some? {
        r := Err(fault.value);
      } else if |input| < n {
        input := [];
        r := Err(UnexpectedEof);
      } else {
        r := Ok(input[..n]);
        input := input[n..];
      }
    }
  }

  /** `buf[at..at + |src|].copy_from_slice(src)`. */
  method CopyInto(buf: array<u8>, at: nat, src: Bytes)
    requires at + |src| <= buf.Length
    modifies buf
    ensures buf[..] == old(buf[..at]) + src + old(buf[at + |src|..])
  {
    for k := 0 to |src|
      invariant buf[..] == old(buf[..at]) + src[..k] + old(buf[at + k..])
    {
      buf[at + k] := src[k];
      assert src[..k + 1] == src[..k] + [src[k]];
    }
  }
}
