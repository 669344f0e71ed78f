/** The data service: `send_data` wraps a payload in a `DataPacket` and sends
    it framed; the listener reads one framed `DataPacket` per connection and
    hands its typed payload to the text or the file-coming callback. */
module DataService {
  import opened Ints
  import opened Wrappers
  import opened NetTypes
  import opened Sockets
  import MN = MagicNumbers
  import DP = DataPackets
  import DT = DataTransmissions
  import TP = TextPackets
  import FCP = FileComingPackets

  const TCP_ACCEPT_TIMEOUT_COUNT: nat := 100

  /** One call of a callback of the service context. */
  datatype Callback =
    | TextCallback(text: TP.TextPacket, source: SocketAddr)
    | FileComingCallback(fileComing: FCP.FileComingPacket, source: SocketAddr)

  /** What a connection leads to: one callback, nothing, or a panic in a
      payload decoder. */
  datatype Dispatch = Fired(call: Callback) | Dropped | Panicked

  /** The `DataPacket` that `send_data` sends. */
  function Wrapped(magic: MN.MagicNumber, data: Bytes): DP.DataPacket
  {
    DP.DataPacket(MN.Value(magic), data)
  }

  /** `send_data` over an already connected socket. */
  method SendData(socket: Socket, magic: MN.MagicNumber, data: Bytes) returns (r: Result<nat, IoError>)
    requires DP.BASE_PACKET_SIZE + |data| < U32_MODULUS
    modifies socket
    ensures (r, socket.State())
         == DT.SendRetry(old(socket.State()), DT.Frame(DP.Serialized(Wrapped(magic, data))), DT.PACKET_TRY_TIMES, Other)
  {
    var bytes := DP.Serialize(Wrapped(magic, data));
    r := DT.SendDataWithRetry(socket, bytes);
  }

  /** `dispatch_data_packet`. */
  function DispatchDataPacket(packet: DP.DataPacket, source: SocketAddr): Dispatch
  {
    match MN.From(packet.magic_number)
    case Some(Text) =>
      (match TP.Deserialize(packet.data)
       case Panic => Panicked
       case Done(Ok(p)) => Fired(TextCallback(p, source))
       case Done(Err(_)) => Dropped)
    case Some(FileComing) =>
      (match FCP.Deserialize(packet.data)
       case Panic => Panicked
       case Done(Ok(p)) => Fired(FileComingCallback(p, source))
       case Done(Err(_)) => Dropped)
    case None => Dropped
  }

  /** The text callback fires exactly for tag 0x3940 with a decodable text
      packet, the file-coming callback exactly for tag 0x3939 with a decodable
      file-coming packet, each with the decoded packet and the sender; an
      unknown tag or a payload error fires nothing. */
  lemma DispatchSpec(packet: DP.DataPacket, source: SocketAddr)
    ensures var d := DispatchDataPacket(packet, source);
      ((d.Fired? && d.call.TextCallback?) <==>
         packet.magic_number == 0x3940 && TP.Deserialize(packet.data) .Done? && TP.Deserialize(packet.data).result.Ok?)
      && ((d.Fired? && d.call.FileComingCallback?) <==>
         packet.magic_number == 0x3939 && FCP.Deserialize(packet.data).Done? && FCP.Deserialize(packet.data).result.Ok?)
      && (d.Fired? && d.call.TextCallback? ==> d.call.text == TP.Deserialize(packet.data).result.value)
      && (d.Fired? && d.call.FileComingCallback? ==> d.call.fileComing == FCP.Deserialize(packet.data).result.value)
      && (d.Fired? ==> d.call.source == source)
      && (packet.magic_number != 0x3940 && packet.magic_number != 0x3939 ==> d == Dropped)
  {
  }

  /** An accepted connection: the outcome of `peer_addr` and the script of
      its socket. */
  datatype Connection = Connection(peer: Option<SocketAddr>, input: Bytes, outcomes: seq<Outcome>)

  /** `handle_peer`: no address, a failed read or a bad `DataPacket` ends the
      connection without dispatching. */
  function HandlePeerSpec(c: Connection): Dispatch
  {
    if c.peer.None? then Dropped
    else
      var raw := DT.ReadRetry(SocketState(c.input, [], c.outcomes), DT.PACKET_TRY_TIMES, Other).0;
      if raw.Err? then Dropped
      else match DP.Deserialize(raw.value)
        case Err(_) => Dropped
        case Ok(p) => DispatchDataPacket(p, c.peer.value)
  }

  method HandlePeer(c: Connection) returns (d: Dispatch)
    ensures d == HandlePeerSpec(c)
  {
    if c.peer.None? {
      return Dropped;
    }
    var socket := new Socket(c.input, c.outcomes);
    var raw := DT.ReadDataWithRetry(socket);
    if raw.Err? {
      return Dropped;
    }
    var packet := DP.Deserialize(raw.value);
    if packet.Err? {
      return Dropped;
    }
    d := DispatchDataPacket(packet.value, c.peer.value);
  }

  /** The listener dispatches exactly the packet `send_data` wrapped. */
  lemma SendThenHandle(peer: SocketAddr, magic: MN.MagicNumber, data: Bytes, rest: Bytes)
    requires DP.BASE_PACKET_SIZE + |data| < U32_MODULUS
    ensures HandlePeerSpec(Connection(Some(peer), DT.Frame(DP.Serialized(Wrapped(magic, data))) + rest, []))
         == DispatchDataPacket(Wrapped(magic, data), peer)
  {
    DT.SendThenRead(DP.Serialized(Wrapped(magic, data)), rest);
    DP.RoundTrip(Wrapped(magic, data));
  }

  /** A text sent with `send_data` reaches the text callback, decoded. */
  lemma SendTextThenHandle(peer: SocketAddr, text: string, rest: Bytes)
    requires TP.New(text).Ok?
    ensures var data := TP.Serialized(TP.New(text).value);
      HandlePeerSpec(Connection(Some(peer), DT.Frame(DP.Serialized(Wrapped(MN.Text, data))) + rest, []))
      == Fired(TextCallback(TP.New(text).value, peer))
  {
    var data := TP.Serialized(TP.New(text).value);
    SendThenHandle(peer, MN.Text, data, rest);
    TP.RoundTrip(text, []);
    assert data + [] == data;
  }

  /** One item of `server_socket.incoming()`: a stream, or an accept error
      together with what `should_interrupt()` would answer if asked. */
  datatype Incoming = Stream(conn: Connection) | AcceptError(error: IoError, interrupt: bool)

  predicate IsTimeout(e: IoError) {
    e == WouldBlock || e == TimedOut
  }

  datatype RunOutcome = RunOutcome(calls: seq<Callback>, polls: nat, panicked: bool)

  /** `run` over a script of incoming items, from a given `timeout_counter`.
      Connections are handled one after the other; a timeout asks
      `should_interrupt` only once the counter has passed 100, and then
      restarts the count. */
  function RunSpec(counter: nat, events: seq<Incoming>): RunOutcome
    decreases |events|
  {
    if events == [] then RunOutcome([], 0, false)
    else match events[0]
      case Stream(c) =>
        (match HandlePeerSpec(c)
         case Panicked => RunOutcome([], 0, true)
         case Dropped => RunSpec(counter, events[1..])
         case Fired(call) =>
           var o := RunSpec(counter, events[1..]);
           RunOutcome([call] + o.calls, o.polls, o.panicked))
      case AcceptError(e, interrupt) =>
        if !IsTimeout(e) then RunOutcome([], 0, false)
        else if counter > TCP_ACCEPT_TIMEOUT_COUNT then
          if interrupt then RunOutcome([], 1, false)
          else
            var o := RunSpec(1, events[1..]);
            RunOutcome(o.calls, o.polls + 1, o.panicked)
        else RunSpec(counter + 1, events[1..])
  }

  predicate AllTimeouts(events: seq<Incoming>) {
    forall k :: 0 <= k < |events| ==> events[k].AcceptError? && IsTimeout(events[k].error)
  }

  /** While the counter stays at or below 100 timeouts only count: whatever
      `should_interrupt` would say is not asked. */
  lemma {:induction false} QuietTimeouts(counter: nat, events: seq<Incoming>, more: seq<Incoming>)
    requires AllTimeouts(events) && counter + |events| <= TCP_ACCEPT_TIMEOUT_COUNT + 1
    ensures RunSpec(counter, events + more) == RunSpec(counter + |events|, more)
    decreases |events|
  {
    if events != [] {
      assert (events + more)[0] == events[0];
      assert events[0].AcceptError? && IsTimeout(events[0].error);
      assert (events + more)[1..] == events[1..] + more;
      assert AllTimeouts(events[1..]) by {
        forall k | 0 <= k < |events[1..]|
          ensures events[1..][k].AcceptError? && IsTimeout(events[1..][k].error)
        {
          assert events[1..][k] == events[k + 1];
        }
      }
      QuietTimeouts(counter + 1, events[1..], more);
      assert counter <= TCP_ACCEPT_TIMEOUT_COUNT;
      assert RunSpec(counter, events + more) == RunSpec(counter + 1, (events + more)[1..]);
    } else {
      assert events + more == more;
    }
  }

  /** From a fresh counter, the first 101 timeouts never stop the service,
      and the 102nd stops it if the caller asks. */
  lemma FirstPoll(timeouts: seq<Incoming>, e: IoError, more: seq<Incoming>)
    requires AllTimeouts(timeouts) && |timeouts| == TCP_ACCEPT_TIMEOUT_COUNT + 1 && IsTimeout(e)
    ensures RunSpec(0, timeouts + [AcceptError(e, true)] + more) == RunOutcome([], 1, false)
  {
    QuietTimeouts(0, timeouts, [AcceptError(e, true)] + more);
    assert timeouts + [AcceptError(e, true)] + more == timeouts + ([AcceptError(e, true)] + more);
  }

  /** Every callback call comes from a connection handled in order, and a
      non-timeout accept error ends the run. */
  lemma {:induction false} RunCallsFromConnections(counter: nat, events: seq<Incoming>)
    ensures forall c | c in RunSpec(counter, events).calls ::
      exists k :: 0 <= k < |events| && events[k].Stream? && HandlePeerSpec(events[k].conn) == Fired(c)
    decreases |events|
  {
    if events != [] {
      var next: nat := match events[0]
        case Stream(_) => counter
        case AcceptError(_, _) => if counter > TCP_ACCEPT_TIMEOUT_COUNT then 1 else counter + 1;
      RunCallsFromConnections(next, events[1..]);
      forall c | c in RunSpec(next, events[1..]).calls
        ensures exists k :: 0 <= k < |events| && events[k].Stream? && HandlePeerSpec(events[k].conn) == Fired(c)
      {
        var k :| 0 <= k < |events[1..]| && events[1..][k].Stream? && HandlePeerSpec(events[1..][k].conn) == Fired(c);
        assert events[k + 1] == events[1..][k];
      }
    }
  }

  lemma StopsOnAcceptError(counter: nat, e: IoError, interrupt: bool, more: seq<Incoming>)
    requires !IsTimeout(e)
    ensures RunSpec(counter, [AcceptError(e, interrupt)] + more) == RunOutcome([], 0, false)
  {
  }

  /** `run` from `timeout_counter = 0`. */
  method Run(events: seq<Incoming>) returns (calls: seq<Callback>, polls: nat, panicked: bool)
    ensures RunSpec(0, events) == RunOutcome(calls, polls, panicked)
  {
    ghost var total := RunSpec(0, events);
    var counter: nat := 0;
    calls, polls, panicked := [], 0, false;
    var i := 0;
    while i < |events|
      invariant i <= |events|
      invariant calls + RunSpec(counter, events[i..]).calls == total.calls
      invariant polls + RunSpec(counter, events[i..]).polls == total.polls
      invariant RunSpec(counter, events[i..]).panicked == total.panicked
      decreases |events| - i
    {
      assert events[i..][1..] == events[i + 1..];
      match events[i] {
        case Stream(c) =>
          var d := HandlePeer(c);
          if d.Panicked? {
            panicked := true;
            return;
          }
          if d.Fired? {
            ghost var rest := RunSpec(counter, events[i + 1..]).calls;
            assert calls + [d.call] + rest == calls + ([d.call] + rest);
            calls := calls + [d.call];
          }
        case AcceptError(e, interrupt) =>
          if !IsTimeout(e) {
            return;
          }
          if counter > TCP_ACCEPT_TIMEOUT_COUNT {
            counter := 0;
            polls := polls + 1;
            if interrupt {
              return;
            }
          }
          counter := counter + 1;
      }
      i := i + 1;
    }
    assert events[i..] == [];
  }
}
