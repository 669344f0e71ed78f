/** The network-layer text service: a TCP listener that hands every
    `SYNC:`-prefixed message to a callback, and a sender that adds the prefix. */
module NetworkTextService {
  import opened Ints
  import opened Wrappers
  import opened NetTypes
  import opened Sockets
  import TT = TransmissionTexts

  const SYNC_PREFIX: string := "SYNC:"

  /** `str::split` on one character: the pieces between separators, always at
      least one (the empty string splits into one empty piece). */
  function Split(s: string, c: char): (parts: seq<string>)
    ensures |parts| >= 1
    decreases |s|
  {
    if s == [] then [""]
    else
      var r := Split(s[1..], c);
      if s[0] == c then [""] + r else [[s[0]] + r[0]] + r[1..]
  }

  /** `join` with one separator character. */
  function Join(parts: seq<string>, c: char): string
    decreases |parts|
  {
    if |parts| == 0 then ""
    else if |parts| == 1 then parts[0]
    else parts[0] + [c] + Join(parts[1..], c)
  }

  /** No piece of a split contains the separator. */
  lemma {:induction false} SplitPiecesFree(s: string, c: char)
    ensures forall k :: 0 <= k < |Split(s, c)| ==> c !in Split(s, c)[k]
    decreases |s|
  {
    if s != [] {
      SplitPiecesFree(s[1..], c);
    }
  }

  /** Joining the pieces of a split gives the string back. */
  lemma {:induction false} JoinSplit(s: string, c: char)
    ensures Join(Split(s, c), c) == s
    decreases |s|
  {
    if s != [] {
      var r := Split(s[1..], c);
      JoinSplit(s[1..], c);
      if s[0] == c {
        assert ([""] + r)[1..] == r;
      } else {
        var parts := [[s[0]] + r[0]] + r[1..];
        assert parts[1..] == r[1..];
        if |r| == 1 {
          assert s[1..] == r[0];
        } else {
          assert Join(r, c) == r[0] + [c] + Join(r[1..], c);
        }
        assert s == [s[0]] + s[1..];
      }
    }
  }

  /** A word free of the separator, then the separator, splits into that word
      followed by the pieces of the rest. */
  lemma {:induction false} SplitAfterWord(w: string, c: char, t: string)
    requires c !in w
    ensures Split(w + [c] + t, c) == [w] + Split(t, c)
    decreases |w|
  {
    if w == [] {
      assert w + [c] + t == [c] + t;
      assert ([c] + t)[1..] == t;
    } else {
      assert (w + [c] + t)[1..] == w[1..] + [c] + t;
      SplitAfterWord(w[1..], c, t);
      assert [w[0]] + w[1..] == w;
    }
  }

  /** What `server_routine` makes of a received string: all pieces but the
      first, rejoined with ':'. */
  function Strip(s: string): string
  {
    Join(Split(s, ':')[1..], ':')
  }

  /** For a `SYNC:` message the split and join drop exactly the prefix, so any
      ':' inside the payload survives. */
  lemma StripSync(s: string)
    requires SYNC_PREFIX <= s
    ensures Strip(s) == s[|SYNC_PREFIX|..]
  {
    var t := s[|SYNC_PREFIX|..];
    assert s == "SYNC" + [':'] + t;
    SplitAfterWord("SYNC", ':', t);
    assert Split(s, ':')[1..] == Split(t, ':');
    JoinSplit(t, ':');
  }

  lemma StripKeepsColons()
    ensures Strip("SYNC:a:b::c") == "a:b::c"
  {
    StripSync("SYNC:a:b::c");
  }

  /** An accepted connection: the peer's address and the script of its socket. */
  datatype Connection = Connection(peer: SocketAddr, input: Bytes, outcomes: seq<Outcome>)

  datatype Delivery = Delivery(text: string, source: SocketAddr)

  /** What one accepted connection hands to `on_receive`, if anything. */
  function Received(c: Connection): Option<Delivery>
  {
    var r := TT.ReadTextSpec(SocketState(c.input, [], c.outcomes)).0;
    if r.Ok? && SYNC_PREFIX <= r.value then Some(Delivery(Strip(r.value), c.peer)) else None
  }

  /** A connection is delivered exactly when it reads a `SYNC:` message, and
      the delivered text is that message without its prefix. */
  lemma ReceivedSpec(c: Connection)
    ensures var r := TT.ReadTextSpec(SocketState(c.input, [], c.outcomes)).0;
      (Received(c).Some? <==> r.Ok? && SYNC_PREFIX <= r.value)
      && (Received(c).Some? ==> Received(c).value == Delivery(r.value[|SYNC_PREFIX|..], c.peer))
  {
    var r := TT.ReadTextSpec(SocketState(c.input, [], c.outcomes)).0;
    if r.Ok? && SYNC_PREFIX <= r.value {
      StripSync(r.value);
    }
  }

  /** The deliveries of one accepted connection, as a sequence. */
  function Delivered(d: Option<Delivery>): seq<Delivery>
  {
    if d.Some? then [d.value] else []
  }

  /** `server_routine` over the accept results: `None` is an accept error,
      which ends the loop. */
  function ServerRoutineSpec(accepts: seq<Option<Connection>>): seq<Delivery>
    decreases |accepts|
  {
    if accepts == [] || accepts[0].None? then []
    else
      Delivered(Received(accepts[0].value)) + ServerRoutineSpec(accepts[1..])
  }

  /** Nothing after the first accept error is read. */
  lemma {:induction false} ServerRoutineStops(accepts: seq<Connection>, more: seq<Option<Connection>>)
    ensures ServerRoutineSpec(Somes(accepts) + [None] + more) == ServerRoutineSpec(Somes(accepts))
    decreases |accepts|
  {
    if accepts == [] {
      assert Somes(accepts) + [None] + more == [None] + more;
    } else {
      var whole := Somes(accepts) + [None] + more;
      assert whole[0] == Some(accepts[0]);
      assert whole[1..] == Somes(accepts[1..]) + [None] + more;
      assert Somes(accepts)[1..] == Somes(accepts[1..]);
      ServerRoutineStops(accepts[1..], more);
    }
  }

  function Somes(cs: seq<Connection>): (r: seq<Option<Connection>>)
    ensures |r| == |cs| && forall k :: 0 <= k < |cs| ==> r[k] == Some(cs[k])
  {
    seq(|cs|, k requires 0 <= k < |cs| => Some(cs[k]))
  }

  /** One iteration of the accept loop of `server_routine`. */
  method Receive(c: Connection) returns (d: Option<Delivery>)
    ensures d == Received(c)
  {
    var socket := new Socket(c.input, c.outcomes);
    var r := TT.ReadText(socket);
    if r.Ok? && SYNC_PREFIX <= r.value {
      d := Some(Delivery(Strip(r.value), c.peer));
    } else {
      d := None;
    }
  }

  /** One accepted connection unfolds the loop's specification by one item. */
  lemma ServerRoutineStep(accepts: seq<Option<Connection>>, i: nat)
    requires i < |accepts| && accepts[i].Some?
    ensures ServerRoutineSpec(accepts[i..]) == Delivered(Received(accepts[i].value)) + ServerRoutineSpec(accepts[i + 1..])
  {
    assert accepts[i..][1..] == accepts[i + 1..];
  }

  method ServerRoutine(accepts: seq<Option<Connection>>) returns (deliveries: seq<Delivery>)
    ensures deliveries == ServerRoutineSpec(accepts)
  {
    deliveries := [];
    var i := 0;
    while i < |accepts|
      invariant i <= |accepts|
      invariant deliveries + ServerRoutineSpec(accepts[i..]) == ServerRoutineSpec(accepts)
    {
      if accepts[i].None? {
        assert deliveries == ServerRoutineSpec(accepts);
        return;
      }
      var d := Receive(accepts[i].value);
      ServerRoutineStep(accepts, i);
      assert deliveries + Delivered(d) + ServerRoutineSpec(accepts[i + 1..])
          == deliveries + (Delivered(d) + ServerRoutineSpec(accepts[i + 1..]));
      deliveries := deliveries + Delivered(d);
      i := i + 1;
    }
    assert accepts[i..] == [];
  }


  /** `send` over an already connected socket: the message with its prefix. */
  method Send(socket: Socket, text: string) returns (r: Result<nat, IoError>)
    modifies socket
    ensures (r, socket.State()) == TT.SendTextSpec(old(socket.State()), SYNC_PREFIX + text)
  {
    r := TT.SendText(socket, SYNC_PREFIX + text);
  }

  /** A connection carrying what `send` wrote delivers the original text. */
  lemma SendThenReceive(peer: SocketAddr, text: string, rest: Bytes)
    requires TT.TextFrame(SYNC_PREFIX + text).Ok?
    ensures Received(Connection(peer, TT.TextFrame(SYNC_PREFIX + text).value + rest, []))
         == Some(Delivery(text, peer))
  {
    TT.SendThenRead(SYNC_PREFIX + text, rest);
    StripSync(SYNC_PREFIX + text);
    assert (SYNC_PREFIX + text)[|SYNC_PREFIX|..] == text;
  }
}
