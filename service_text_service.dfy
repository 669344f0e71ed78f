/** The service-layer text service: a list of subscribers, a sender that adds
    the `SYNC:` prefix, and a listener that fans every prefixed message out to
    all subscribers. */
module ServiceTextService {
  import opened Ints
  import opened Wrappers
  import opened NetTypes
  import opened Sockets
  import PT = PacketTexts

  const SYNC_PREFIX: string := "SYNC:"

  /** A subscriber callback, known by its identity. */
  type Subscriber = nat

  /** One call of a subscriber callback. */
  datatype Call = Call(subscriber: Subscriber, text: string, source: SocketAddr)

  /** One item of `server_socket.incoming()`: a stream (with the outcome of
      `peer_addr` and the script of its socket), or an accept error together
      with what `should_interrupt()` would answer if asked. */
  datatype Incoming =
    | Stream(peer: Option<SocketAddr>, input: Bytes, outcomes: seq<Outcome>)
    | AcceptError(error: IoError, interrupt: bool)

  datatype RunOutcome = RunOutcome(calls: seq<Call>, polls: nat, panicked: bool)

  /** Every subscriber, in registration order, with the same text. */
  function Fanout(subs: seq<Subscriber>, text: string, source: SocketAddr): (r: seq<Call>)
    ensures |r| == |subs|
  {
    seq(|subs|, k requires 0 <= k < |subs| => Call(subs[k], text, source))
  }

  /** What `read_text` yields on a stream. */
  function ReadOn(input: Bytes, outcomes: seq<Outcome>): Panicking<string, IoError>
  {
    PT.ReadTextSpec(SocketState(input, [], outcomes)).0
  }

  /** What one item of `run`'s loop does: the calls it makes, how often it
      asks `should_interrupt`, and whether the loop ends there (by a panic or
      not). */
  datatype Step = Step(calls: seq<Call>, polls: nat, stop: bool, panicked: bool)

  /** One incoming item. An accept error other than `WouldBlock` ends the
      loop; `WouldBlock` asks `should_interrupt`; a stream without a peer
      address is skipped; a panic in the decoder ends the listening thread;
      a message with the prefix goes to every subscriber. */
  function Turn(subs: seq<Subscriber>, e: Incoming): Step {
    match e
    case AcceptError(error, interrupt) =>
      if error != WouldBlock then Step([], 0, true, false)
      else Step([], 1, interrupt, false)
    case Stream(peer, input, outcomes) =>
      if peer.None? then Step([], 0, false, false)
      else match ReadOn(input, outcomes)
        case Panic => Step([], 0, true, true)
        case Done(r) =>
          if r.Ok? && SYNC_PREFIX <= r.value then Step(Fanout(subs, r.value[|SYNC_PREFIX|..], peer.value), 0, false, false)
          else Step([], 0, false, false)
  }

  /** `run` over a script of incoming items. */
  function RunSpec(subs: seq<Subscriber>, events: seq<Incoming>): RunOutcome
    decreases |events|
  {
    if events == [] then RunOutcome([], 0, false)
    else
      var t := Turn(subs, events[0]);
      if t.stop then RunOutcome(t.calls, t.polls, t.panicked)
      else
        var o := RunSpec(subs, events[1..]);
        RunOutcome(t.calls + o.calls, t.polls + o.polls, o.panicked)
  }

  function CountWouldBlock(events: seq<Incoming>): nat
    decreases |events|
  {
    if events == [] then 0
    else (if events[0].AcceptError? && events[0].error == WouldBlock then 1 else 0) + CountWouldBlock(events[1..])
  }

  /** One item's calls are a whole round for the message read on that
      stream, and it asks `should_interrupt` only on `WouldBlock`. */
  lemma TurnProperties(subs: seq<Subscriber>, e: Incoming)
    ensures var t := Turn(subs, e);
      (forall c | c in t.calls ::
         (c.subscriber in subs && e.Stream? && e.peer == Some(c.source)
          && ReadOn(e.input, e.outcomes) == Done(Ok(SYNC_PREFIX + c.text))))
      && (t.calls == [] || |t.calls| == |subs|)
      && t.polls <= (if e.AcceptError? && e.error == WouldBlock then 1 else 0)
  {
    if e.Stream? && e.peer.Some? && ReadOn(e.input, e.outcomes).Done? {
      var r := ReadOn(e.input, e.outcomes).result;
      if r.Ok? && SYNC_PREFIX <= r.value {
        var text := r.value[|SYNC_PREFIX|..];
        assert SYNC_PREFIX + text == r.value;
        var f := Fanout(subs, text, e.peer.value);
        forall c | c in f
          ensures c.subscriber in subs && c.text == text && c.source == e.peer.value
        {
          var k :| 0 <= k < |f| && f[k] == c;
        }
      }
    }
  }

  /** Every call goes to a registered subscriber, with text that followed
      the prefix of a message read on some stream from the call's source. */
  lemma {:induction false} RunCallsTraced(subs: seq<Subscriber>, events: seq<Incoming>)
    ensures forall c | c in RunSpec(subs, events).calls ::
      (c.subscriber in subs
       && exists k :: (0 <= k < |events| && events[k].Stream? && events[k].peer == Some(c.source)
            && ReadOn(events[k].input, events[k].outcomes) == Done(Ok(SYNC_PREFIX + c.text))))
    decreases |events|
  {
    if events != [] {
      var t := Turn(subs, events[0]);
      TurnProperties(subs, events[0]);
      forall c | c in t.calls
        ensures exists k :: (0 <= k < |events| && events[k].Stream? && events[k].peer == Some(c.source)
              && ReadOn(events[k].input, events[k].outcomes) == Done(Ok(SYNC_PREFIX + c.text)))
      {
        assert events[0].Stream?;
      }
      if !t.stop {
        var o' := RunSpec(subs, events[1..]);
        RunCallsTraced(subs, events[1..]);
        forall c | c in o'.calls
          ensures exists k :: (0 <= k < |events| && events[k].Stream? && events[k].peer == Some(c.source)
                && ReadOn(events[k].input, events[k].outcomes) == Done(Ok(SYNC_PREFIX + c.text)))
        {
          var k :| 0 <= k < |events[1..]| && events[1..][k].Stream? && events[1..][k].peer == Some(c.source)
                && ReadOn(events[1..][k].input, events[1..][k].outcomes) == Done(Ok(SYNC_PREFIX + c.text));
          assert events[k + 1] == events[1..][k];
        }
      }
    }
  }

  /** Calls come in whole rounds of all subscribers. */
  lemma {:induction false} RunCallsRounds(subs: seq<Subscriber>, events: seq<Incoming>)
    requires |subs| > 0
    ensures |RunSpec(subs, events).calls| % |subs| == 0
    decreases |events|
  {
    if events != [] {
      TurnProperties(subs, events[0]);
      var t := Turn(subs, events[0]);
      if !t.stop {
        RunCallsRounds(subs, events[1..]);
        RoundsAppend(t.calls, RunSpec(subs, events[1..]).calls, |subs|);
      }
    }
  }

  lemma RoundsAppend(a: seq<Call>, b: seq<Call>, m: nat)
    requires m > 0 && (a == [] || |a| == m) && |b| % m == 0
    ensures |a + b| % m == 0
  {
    if a != [] {
      ModShift(|b|, m);
    }
  }

  /** `should_interrupt` is asked at most once per `WouldBlock`. */
  lemma {:induction false} RunPollsBound(subs: seq<Subscriber>, events: seq<Incoming>)
    ensures RunSpec(subs, events).polls <= CountWouldBlock(events)
    decreases |events|
  {
    if events != [] {
      TurnProperties(subs, events[0]);
      RunPollsBound(subs, events[1..]);
    }
  }

  lemma ModShift(a: nat, m: nat)
    requires m > 0 && a % m == 0
    ensures (m + a) % m == 0
  {
    var q := a / m;
    assert a == m * q + a % m;
    assert m * (q + 1) == m * q + m;
    DivModUnique(m + a, m, q + 1, 0);
  }

  /** A stream carrying what `send` wrote reaches every subscriber, in order,
      with the original text. */
  lemma SendThenRun(subs: seq<Subscriber>, peer: SocketAddr, text: string, rest: Bytes, more: seq<Incoming>)
    requires PT.TextFrame(SYNC_PREFIX + text).Ok?
    ensures var o := RunSpec(subs, [Stream(Some(peer), PT.TextFrame(SYNC_PREFIX + text).value + rest, [])] + more);
      o == RunOutcome(Fanout(subs, text, peer) + RunSpec(subs, more).calls, RunSpec(subs, more).polls, RunSpec(subs, more).panicked)
  {
    PT.SendThenRead(SYNC_PREFIX + text, rest);
    var events := [Stream(Some(peer), PT.TextFrame(SYNC_PREFIX + text).value + rest, [])] + more;
    assert events[1..] == more;
    assert (SYNC_PREFIX + text)[|SYNC_PREFIX|..] == text;
    assert Turn(subs, events[0]) == Step(Fanout(subs, text, peer), 0, false, false);
  }

  class TextService {
    var subscribers: seq<Subscriber>

    constructor ()
      ensures subscribers == []
    {
      subscribers := [];
    }

    /** `subscribe`: one more subscriber at the end. */
    method Subscribe(callback: Subscriber)
      modifies this
      ensures subscribers == old(subscribers) + [callback]
    {
      subscribers := subscribers + [callback];
    }

    /** `send` over an already connected socket: the message with its prefix. */
    method Send(socket: Socket, text: string) returns (r: Result<nat, IoError>)
      modifies socket
      ensures (r, socket.State()) == PT.SendTextSpec(old(socket.State()), SYNC_PREFIX + text)
    {
      r := PT.SendText(socket, SYNC_PREFIX + text);
    }

    /** `run` with this service's subscribers. */
    method Run(events: seq<Incoming>) returns (calls: seq<Call>, polls: nat, panicked: bool)
      ensures RunSpec(subscribers, events) == RunOutcome(calls, polls, panicked)
    {
      var subs := subscribers;
      ghost var total := RunSpec(subs, events);
      calls, polls, panicked := [], 0, false;
      var i := 0;
      while i < |events|
        invariant i <= |events|
        invariant calls + RunSpec(subs, events[i..]).calls == total.calls
        invariant polls + RunSpec(subs, events[i..]).polls == total.polls
        invariant RunSpec(subs, events[i..]).panicked == total.panicked
        decreases |events| - i
      {
        var round, poll, stop, panic := RunTurn(subs, events[i]);
        RunCons(subs, events, i);
        RunAdvance(calls, polls, total, Step(round, poll, stop, panic), RunSpec(subs, events[i + 1..]));
        calls, polls := calls + round, polls + poll;
        if stop {
          panicked := panic;
          return;
        }
        i := i + 1;
      }
      assert events[i..] == [] && calls + [] == calls;
    }
  }

  /** The outcome of a run whose first item did `t` and whose remaining
      items give `o`. */
  function Then(t: Step, o: RunOutcome): RunOutcome {
    if t.stop then RunOutcome(t.calls, t.polls, t.panicked)
    else RunOutcome(t.calls + o.calls, t.polls + o.polls, o.panicked)
  }

  lemma RunCons(subs: seq<Subscriber>, events: seq<Incoming>, i: nat)
    requires i < |events|
    ensures RunSpec(subs, events[i..]) == Then(Turn(subs, events[i]), RunSpec(subs, events[i + 1..]))
  {
    assert events[i..][0] == events[i] && events[i..][1..] == events[i + 1..];
  }

  /** The bookkeeping of one turn of `run`'s loop. */
  lemma RunAdvance(calls: seq<Call>, polls: nat, total: RunOutcome, t: Step, rest: RunOutcome)
    requires calls + Then(t, rest).calls == total.calls
    requires polls + Then(t, rest).polls == total.polls
    requires Then(t, rest).panicked == total.panicked
    ensures t.stop ==> calls + t.calls == total.calls && polls + t.polls == total.polls && t.panicked == total.panicked
    ensures !t.stop ==> (calls + t.calls) + rest.calls == total.calls
    ensures !t.stop ==> (polls + t.polls) + rest.polls == total.polls
    ensures !t.stop ==> rest.panicked == total.panicked
  {
    assert calls + t.calls + rest.calls == calls + (t.calls + rest.calls);
  }

  /** One item of `run`'s loop. */
  method RunTurn(subs: seq<Subscriber>, e: Incoming) returns (round: seq<Call>, poll: nat, stop: bool, panicked: bool)
    ensures Step(round, poll, stop, panicked) == Turn(subs, e)
  {
    round, poll, stop, panicked := [], 0, false, false;
    match e {
      case AcceptError(error, interrupt) =>
        if error != WouldBlock {
          stop := true;
        } else {
          poll, stop := 1, interrupt;
        }
      case Stream(peer, input, outcomes) =>
        if peer.Some? {
          round, panicked := Serve(subs, peer.value, input, outcomes);
          stop := panicked;
        }
    }
  }

  /** One accepted stream with a peer address: read a message and, if it
      carries the prefix, call every subscriber with the rest. */
  method Serve(subs: seq<Subscriber>, source: SocketAddr, input: Bytes, outcomes: seq<Outcome>)
    returns (round: seq<Call>, panicked: bool)
    ensures panicked <==> ReadOn(input, outcomes).Panic?
    ensures panicked ==> round == []
    ensures !panicked ==> var r := ReadOn(input, outcomes).result;
      round == if r.Ok? && SYNC_PREFIX <= r.value then Fanout(subs, r.value[|SYNC_PREFIX|..], source) else []
  {
    var socket := new Socket(input, outcomes);
    var r := PT.ReadText(socket);
    if r.Panic? {
      return [], true;
    }
    round := [];
    if r.result.Ok? && SYNC_PREFIX <= r.result.value {
      round := Notify(subs, r.result.value[|SYNC_PREFIX|..], source);
    }
    panicked := false;
  }

  /** The subscriber loop of `run`. */
  method Notify(subs: seq<Subscriber>, text: string, source: SocketAddr) returns (calls: seq<Call>)
    ensures calls == Fanout(subs, text, source)
  {
    calls := [];
    for k := 0 to |subs|
      invariant calls == Fanout(subs[..k], text, source)
    {
      calls := calls + [Call(subs[k], text, source)];
      assert subs[..k + 1] == subs[..k] + [subs[k]];
    }
    assert subs[..|subs|] == subs;
  }
}
