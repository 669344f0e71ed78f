/** The packet-based discovery of the service layer: interface scans, the
    `handle_new_peer` rules over a set of peers keyed by host, the request
    broadcast and the receive loop with its interrupt polling. */
module ServiceDiscovery {
  import opened Ints
  import opened Wrappers
  import opened NetTypes
  import opened Broadcast
  import opened Peers
  import DP = DiscoveryPackets
  import S = Sockets

  /** `scan_local_addresses`: the private IPv4 addresses of the interfaces. */
  function ScanLocalAddresses(interfaces: seq<NetworkInterface>): set<Ipv4Addr>
    decreases |interfaces|
  {
    if interfaces == [] then {}
    else
      var last := interfaces[|interfaces| - 1];
      ScanLocalAddresses(interfaces[..|interfaces| - 1])
        + (if LocalV4(last).Some? && IsPrivate(LocalV4(last).value) then {LocalV4(last).value} else {})
  }

  lemma {:induction false} ScanLocalMembers(interfaces: seq<NetworkInterface>, a: Ipv4Addr)
    ensures a in ScanLocalAddresses(interfaces)
        <==> IsPrivate(a) && exists k :: 0 <= k < |interfaces| && LocalV4(interfaces[k]) == Some(a)
    decreases |interfaces|
  {
    if interfaces != [] {
      var init := interfaces[..|interfaces| - 1];
      ScanLocalMembers(init, a);
      if a in ScanLocalAddresses(init) {
        var k :| 0 <= k < |init| && LocalV4(init[k]) == Some(a);
        assert interfaces[k] == init[k];
      }
      if exists k :: 0 <= k < |interfaces| && LocalV4(interfaces[k]) == Some(a) {
        var k :| 0 <= k < |interfaces| && LocalV4(interfaces[k]) == Some(a);
        if k < |init| {
          assert init[k] == interfaces[k];
        }
      }
    }
  }

  /** `scan_broadcast_addresses`: the interfaces' broadcast targets, loopback
      ones dropped, duplicates merged. */
  function ScanBroadcastAddresses(interfaces: seq<NetworkInterface>): set<Ipv4Addr>
    decreases |interfaces|
  {
    if interfaces == [] then {}
    else
      var target := BroadcastTarget(interfaces[|interfaces| - 1]);
      ScanBroadcastAddresses(interfaces[..|interfaces| - 1]) + (if IsLoopback(target) then {} else {target})
  }

  lemma {:induction false} ScanBroadcastMembers(interfaces: seq<NetworkInterface>, a: Ipv4Addr)
    ensures a in ScanBroadcastAddresses(interfaces)
        <==> !IsLoopback(a) && exists k :: 0 <= k < |interfaces| && BroadcastTarget(interfaces[k]) == a
    decreases |interfaces|
  {
    if interfaces != [] {
      var init := interfaces[..|interfaces| - 1];
      ScanBroadcastMembers(init, a);
      if a in ScanBroadcastAddresses(init) {
        var k :| 0 <= k < |init| && BroadcastTarget(init[k]) == a;
        assert interfaces[k] == init[k];
      }
      if exists k :: 0 <= k < |interfaces| && BroadcastTarget(interfaces[k]) == a {
        var k :| 0 <= k < |interfaces| && BroadcastTarget(interfaces[k]) == a;
        if k < |init| {
          assert init[k] == interfaces[k];
        }
      }
    }
  }

  /** A datagram sent to `to`. */
  datatype Datagram = Datagram(bytes: Bytes, to: SocketAddr)

  /** `broadcast_discovery_request`: for every broadcast address and every
      local address, a request on behalf of that local address. */
  function DiscoveryRequests(broadcasts: set<Ipv4Addr>, locals: set<Ipv4Addr>, port: u16, group: u8): set<Datagram>
  {
    set b, l | b in broadcasts && l in locals ::
      Datagram(DP.Serialized(DP.New(l, port, group, true)), SocketAddr(V4(b), port))
  }

  /** Every request goes to a broadcast address at the server port and decodes
      as a request for a response from one of the local addresses. */
  lemma DiscoveryRequestsDecode(broadcasts: set<Ipv4Addr>, locals: set<Ipv4Addr>, port: u16, group: u8, d: Datagram)
    requires d in DiscoveryRequests(broadcasts, locals, port, group)
    ensures |d.bytes| == DP.PACKET_SIZE && DP.Deserialize(d.bytes).Ok?
    ensures var p := DP.Deserialize(d.bytes).value;
      p.need_response && p.sender_address in locals && p.server_port == port && p.group_identity == group
    ensures d.to.ip.V4? && d.to.ip.v4 in broadcasts && d.to.port == port
  {
    var b, l :| b in broadcasts && l in locals
      && d == Datagram(DP.Serialized(DP.New(l, port, group, true)), SocketAddr(V4(b), port));
    DP.RoundTrip(l, port, group, true);
  }

  /** Conversely, every pair of a broadcast address and a local address gets
      its request: sent to that broadcast address at the server port and
      decoding as a request for a response from that local address. */
  lemma DiscoveryRequestsComplete(broadcasts: set<Ipv4Addr>, locals: set<Ipv4Addr>, port: u16, group: u8,
                                  b: Ipv4Addr, l: Ipv4Addr)
    requires b in broadcasts && l in locals
    ensures exists d | d in DiscoveryRequests(broadcasts, locals, port, group) ::
      d.to == SocketAddr(V4(b), port) && DP.Deserialize(d.bytes) == Ok(DP.New(l, port, group, true))
  {
    var d := Datagram(DP.Serialized(DP.New(l, port, group, true)), SocketAddr(V4(b), port));
    assert d in DiscoveryRequests(broadcasts, locals, port, group);
    DP.RoundTrip(l, port, group, true);
  }

  /** Why `handle_new_peer` drops a datagram. */
  datatype HandleError = Malformed(error: DP.DiscoveryPacketError) | FromSelf | GroupMismatch

  /** The replies `handle_new_peer` sends: one per local address, each without
      a request for a response, to the sender's address and server port. */
  function Replies(locals: set<Ipv4Addr>, packet: DP.DiscoveryPacket, group: u8): set<Datagram>
  {
    set l | l in locals ::
      Datagram(DP.Serialized(DP.New(l, packet.server_port, group, false)),
               SocketAddr(V4(packet.sender_address), packet.server_port))
  }

  /** `HashSet::insert`: a peer whose host is already present leaves the set as it is. */
  function Insert(peers: map<string, Peer>, p: Peer): map<string, Peer>
  {
    if p.host in peers then peers else peers[p.host := p]
  }

  /** What `handle_new_peer` returns, sends and leaves in the peer set. */
  function HandleNewPeerSpec(peers: map<string, Peer>, locals: set<Ipv4Addr>, buf: Bytes, group: u8)
    : (Result<set<Datagram>, HandleError>, map<string, Peer>)
    requires |buf| == DP.PACKET_SIZE
  {
    match DP.Deserialize(buf)
    case Err(e) => (Err(Malformed(e)), peers)
    case Ok(packet) =>
      if packet.sender_address in locals then (Err(FromSelf), peers)
      else if packet.group_identity != group then (Err(GroupMismatch), peers)
      else
        var replies := if packet.need_response then Replies(locals, packet, group) else {};
        (Ok(replies), Insert(peers, Peers.Peer(HostString(V4(packet.sender_address)), packet.server_port)))
  }

  /** The peer set is keyed by host: each entry is stored under its own host. */
  predicate KeyedByHost(peers: map<string, Peer>) {
    forall h | h in peers :: peers[h].host == h
  }

  /** Rejections leave the set alone. An accepted datagram makes the sender's
      host present, adds at most that one key, stores a new host with the
      packet's server port, and keeps every existing entry. It answers a
      request with a reply on behalf of every local address and with nothing
      else: each reply goes to the sender's address at its server port and
      decodes as a non-request from one of the local addresses. */
  lemma HandleNewPeerProperties(peers: map<string, Peer>, locals: set<Ipv4Addr>, buf: Bytes, group: u8)
    requires |buf| == DP.PACKET_SIZE && KeyedByHost(peers)
    ensures var (r, peers') := HandleNewPeerSpec(peers, locals, buf, group);
      KeyedByHost(peers')
      && (r.Err? ==> peers' == peers)
      && (r.Ok? ==>
            var packet := DP.Deserialize(buf).value;
            var host := HostString(V4(packet.sender_address));
            var dest := SocketAddr(V4(packet.sender_address), packet.server_port);
            packet.sender_address !in locals && packet.group_identity == group
            && peers'.Keys == peers.Keys + {host}
            && (forall h | h in peers :: peers'[h] == peers[h])
            && (host !in peers ==> peers'[host] == Peers.Peer(host, packet.server_port))
            && (!packet.need_response ==> r.value == {})
            && (packet.need_response ==> forall l | l in locals ::
                  exists d | d in r.value ::
                    d.to == dest && DP.Deserialize(d.bytes) == Ok(DP.New(l, packet.server_port, group, false)))
            && (forall d | d in r.value :: d.to == dest && exists l | l in locals ::
                  DP.Deserialize(d.bytes) == Ok(DP.New(l, packet.server_port, group, false))))
  {
    var (r, peers') := HandleNewPeerSpec(peers, locals, buf, group);
    if r.Ok? && DP.Deserialize(buf).value.need_response {
      var packet := DP.Deserialize(buf).value;
      var dest := SocketAddr(V4(packet.sender_address), packet.server_port);
      forall l | l in locals
        ensures exists d | d in r.value ::
          d.to == dest && DP.Deserialize(d.bytes) == Ok(DP.New(l, packet.server_port, group, false))
      {
        var d := Datagram(DP.Serialized(DP.New(l, packet.server_port, group, false)), dest);
        assert d in r.value;
        DP.RoundTrip(l, packet.server_port, group, false);
      }
      forall d | d in r.value
        ensures d.to == dest && exists l | l in locals ::
          DP.Deserialize(d.bytes) == Ok(DP.New(l, packet.server_port, group, false))
      {
        var l :| l in locals && d == Datagram(DP.Serialized(DP.New(l, packet.server_port, group, false)), dest);
        DP.RoundTrip(l, packet.server_port, group, false);
      }
    }
  }

  /** `broadcast_discovery_request` over the outcomes of the two scans: a scan
      failure sends nothing. */
  function BroadcastRequestSpec(broadcasts: Option<set<Ipv4Addr>>, locals: Option<set<Ipv4Addr>>, port: u16, group: u8)
    : set<Datagram>
  {
    if broadcasts.None? || locals.None? then {}
    else DiscoveryRequests(broadcasts.value, locals.value, port, group)
  }

  /** One result of `server_socket.recv` in `run`: a datagram together with
      the outcome of the local-address scan that follows it, a timeout
      together with what `should_interrupt()` would answer, or another error. */
  datatype ReceiveEvent = Received(payload: Bytes, scan: Option<set<Ipv4Addr>>) | TimedOut(interrupt: bool) | ReceiveError

  /** `recv` into the reused 12-byte buffer: a longer datagram is cut, a
      shorter one leaves the tail of the previous contents. */
  function RecvInto(buf: Bytes, payload: Bytes): (r: Bytes)
    requires |buf| == DP.PACKET_SIZE
    ensures |r| == DP.PACKET_SIZE
    ensures forall i | 0 <= i < DP.PACKET_SIZE :: r[i] == (if i < |payload| then payload[i] else buf[i])
  {
    if |payload| >= DP.PACKET_SIZE then payload[..DP.PACKET_SIZE]
    else payload + buf[|payload|..]
  }

  datatype RunOutcome = RunOutcome(consumed: nat, polls: nat, peers: map<string, Peer>)

  /** The receive loop of `run` over a script of receive results: the number
      of results it consumes, how often it calls `should_interrupt`, and the
      peer set it leaves. It stops at an error other than a timeout, or at a
      timeout whose poll says to stop. */
  function RunSpec(peers: map<string, Peer>, buf: Bytes, events: seq<ReceiveEvent>, group: u8): (o: RunOutcome)
    requires |buf| == DP.PACKET_SIZE
    ensures o.consumed <= |events|
    decreases |events|
  {
    if events == [] then RunOutcome(0, 0, peers)
    else match events[0]
      case ReceiveError => RunOutcome(1, 0, peers)
      case TimedOut(interrupt) =>
        if interrupt then RunOutcome(1, 1, peers)
        else
          var o := RunSpec(peers, buf, events[1..], group);
          RunOutcome(o.consumed + 1, o.polls + 1, o.peers)
      case Received(payload, scan) =>
        var buf' := RecvInto(buf, payload);
        var peers' := if scan.Some? then HandleNewPeerSpec(peers, scan.value, buf', group).1 else peers;
        var o := RunSpec(peers', buf', events[1..], group);
        RunOutcome(o.consumed + 1, o.polls, o.peers)
  }

  predicate Stops(e: ReceiveEvent) {
    e.ReceiveError? || (e.TimedOut? && e.interrupt)
  }

  function CountTimeouts(events: seq<ReceiveEvent>): nat
    decreases |events|
  {
    if events == [] then 0 else (if events[0].TimedOut? then 1 else 0) + CountTimeouts(events[1..])
  }

  /** The loop runs up to and including the first stopping result. */
  lemma {:induction false} RunSpecStops(peers: map<string, Peer>, buf: Bytes, events: seq<ReceiveEvent>, group: u8)
    requires |buf| == DP.PACKET_SIZE
    ensures var o := RunSpec(peers, buf, events, group);
      (forall k :: 0 <= k < o.consumed - 1 ==> !Stops(events[k]))
      && (o.consumed < |events| ==> o.consumed > 0 && Stops(events[o.consumed - 1]))
      && (o.consumed == |events| && |events| > 0 ==> forall k :: 0 <= k < |events| - 1 ==> !Stops(events[k]))
    decreases |events|
  {
    if events != [] && !Stops(events[0]) {
      var next := RunTail(peers, buf, events, group);
      RunSpecStops(next.0, next.1, events[1..], group);
    }
  }

  /** It polls `should_interrupt` exactly once per timeout it consumes. */
  lemma {:induction false} RunSpecPolls(peers: map<string, Peer>, buf: Bytes, events: seq<ReceiveEvent>, group: u8)
    requires |buf| == DP.PACKET_SIZE
    ensures var o := RunSpec(peers, buf, events, group);
      o.polls == CountTimeouts(events[..o.consumed])
    decreases |events|
  {
    if events != [] {
      var o := RunSpec(peers, buf, events, group);
      if Stops(events[0]) {
        assert events[..1] == [events[0]] && [events[0]][1..] == [];
      } else {
        var next := RunTail(peers, buf, events, group);
        RunSpecPolls(next.0, next.1, events[1..], group);
        var o' := RunSpec(next.0, next.1, events[1..], group);
        assert events[..o.consumed][1..] == events[1..][..o'.consumed];
      }
    }
  }

  /** A first result that does not stop the loop consumes one result, polls
      once if it timed out, and leaves the rest to run on the updated peers
      and buffer. */
  lemma RunTail(peers: map<string, Peer>, buf: Bytes, events: seq<ReceiveEvent>, group: u8)
    returns (next: (map<string, Peer>, Bytes))
    requires |buf| == DP.PACKET_SIZE && events != [] && !Stops(events[0])
    ensures |next.1| == DP.PACKET_SIZE
    ensures var o := RunSpec(peers, buf, events, group);
      var o' := RunSpec(next.0, next.1, events[1..], group);
      o.consumed == o'.consumed + 1 && o.polls == o'.polls + (if events[0].TimedOut? then 1 else 0)
  {
    match events[0]
    case TimedOut(_) =>
      next := (peers, buf);
    case Received(payload, scan) =>
      var buf' := RecvInto(buf, payload);
      var peers' := if scan.Some? then HandleNewPeerSpec(peers, scan.value, buf', group).1 else peers;
      next := (peers', buf');
  }

  /** The shared set of peers, keyed by host. */
  class PeerSet {
    var peers: map<string, Peer>

    predicate Valid()
      reads this
    {
      KeyedByHost(peers)
    }

    constructor ()
      ensures Valid() && peers == map[]
    {
      peers := map[];
    }

    /** `handle_new_peer`. */
    method HandleNewPeer(locals: set<Ipv4Addr>, buf: Bytes, group: u8) returns (r: Result<set<Datagram>, HandleError>)
      requires |buf| == DP.PACKET_SIZE
      modifies this
      ensures (r, peers) == HandleNewPeerSpec(old(peers), locals, buf, group)
    {
      var decoded := DP.Deserialize(buf);
      if decoded.Err? {
        return Err(Malformed(decoded.error));
      }
      var packet := decoded.value;
      if packet.sender_address in locals {
        return Err(FromSelf);
      }
      if packet.group_identity != group {
        return Err(GroupMismatch);
      }
      var replies: set<Datagram> := {};
      if packet.need_response {
        replies := SendReplies(locals, packet, group);
      }
      var peer := Peers.Peer(HostString(V4(packet.sender_address)), packet.server_port);
      if peer.host !in peers {
        peers := peers[peer.host := peer];
      }
      r := Ok(replies);
    }

    /** The receive loop of `run`, after the initial request broadcast. */
    method Run(events: seq<ReceiveEvent>, group: u8) returns (consumed: nat, polls: nat)
      modifies this
      ensures RunSpec(old(peers), seq(DP.PACKET_SIZE, _ => 0), events, group) == RunOutcome(consumed, polls, peers)
    {
      var buf := new u8[DP.PACKET_SIZE](_ => 0);
      assert buf[..] == seq(DP.PACKET_SIZE, _ => 0);
      ghost var tally := RunSpec(peers, buf[..], events, group);
      consumed, polls := 0, 0;
      while consumed < |events|
        invariant consumed <= |events| && buf.Length == DP.PACKET_SIZE
        invariant RunSpec(peers, buf[..], events[consumed..], group).consumed + consumed == tally.consumed
        invariant RunSpec(peers, buf[..], events[consumed..], group).polls + polls == tally.polls
        invariant RunSpec(peers, buf[..], events[consumed..], group).peers == tally.peers
        decreases |events| - consumed
      {
        var event := events[consumed];
        assert events[consumed..][1..] == events[consumed + 1..];
        match event
        case ReceiveError =>
          consumed := consumed + 1;
          return;
        case TimedOut(interrupt) =>
          polls := polls + 1;
          consumed := consumed + 1;
          if interrupt {
            return;
          }
        case Received(payload, scan) =>
          ghost var before := buf[..];
          var n := if |payload| < DP.PACKET_SIZE then |payload| else DP.PACKET_SIZE;
          S.CopyInto(buf, 0, payload[..n]);
          assert before[..0] + payload[..n] == payload[..n];
          assert buf[..] == RecvInto(before, payload);
          if scan.Some? {
            var _ := HandleNewPeer(scan.value, buf[..], group);
          }
          consumed := consumed + 1;
      }
    }
  }

  /** The reply loop of `handle_new_peer`: one datagram per local address. */
  method SendReplies(locals: set<Ipv4Addr>, packet: DP.DiscoveryPacket, group: u8) returns (replies: set<Datagram>)
    ensures replies == Replies(locals, packet, group)
  {
    replies := {};
    var rest := locals;
    assert Replies(locals - rest, packet, group) == {};
    while rest != {}
      invariant rest <= locals
      invariant replies == Replies(locals - rest, packet, group)
      decreases |rest|
    {
      var l :| l in rest;
      var response := DP.Serialize(DP.New(l, packet.server_port, group, false));
      var d := Datagram(response[..], SocketAddr(V4(packet.sender_address), packet.server_port));
      assert Replies(locals - (rest - {l}), packet, group) == Replies(locals - rest, packet, group) + {d};
      replies := replies + {d};
      rest := rest - {l};
    }
    assert locals - rest == locals;
  }
}
