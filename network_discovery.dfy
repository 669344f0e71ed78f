/** The handshake-based discovery of the network layer: a shared list of
    peers with a time-to-live, refreshed by handshake datagrams and aged by a
    periodic sweep. */
module NetworkDiscovery {
  import opened Ints
  import opened Wrappers
  import opened NetTypes
  import opened Utf8
  import opened Broadcast

  const HANDSHAKE_MESSAGE: string := "Hi There! \U{1F44B} \\^O^/"
  const PEER_INITIAL_TTL: int := 3

  /** A peer of this version of the registry: host, port and time-to-live. */
  datatype TtlPeer = TtlPeer(host: string, port: u16, ttl: int)

  predicate IsAlive(p: TtlPeer) {
    p.ttl > 0
  }

  /** `get_broadcast_addresses`: one target per interface, in order. */
  function BroadcastAddresses(interfaces: seq<NetworkInterface>): (r: seq<Ipv4Addr>)
    ensures |r| == |interfaces|
    ensures forall k :: 0 <= k < |r| ==> r[k] == BroadcastTarget(interfaces[k])
  {
    seq(|interfaces|, k requires 0 <= k < |interfaces| => BroadcastTarget(interfaces[k]))
  }

  /** A datagram changes the registry only if it does not come from the local
      IP and its payload is the handshake text. */
  predicate Accepts(sender: SocketAddr, localIp: IpAddr, payload: Bytes) {
    sender.ip != localIp && FromUtf8(payload) == Some(HANDSHAKE_MESSAGE)
  }

  /** The payload test is byte equality with the handshake's UTF-8 form. */
  lemma AcceptsIff(sender: SocketAddr, localIp: IpAddr, payload: Bytes)
    ensures Accepts(sender, localIp, payload) <==> sender.ip != localIp && payload == Encode(HANDSHAKE_MESSAGE)
  {
    FromUtf8Iff(payload, HANDSHAKE_MESSAGE);
  }

  /** The first index whose entry matches both host and port, or |peers|. */
  function FindPeer(peers: seq<TtlPeer>, host: string, port: u16): (k: nat)
    ensures k <= |peers|
    ensures k < |peers| ==> peers[k].host == host && peers[k].port == port
    ensures forall j :: 0 <= j < k ==> !(peers[j].host == host && peers[j].port == port)
    decreases |peers|
  {
    if peers == [] then 0
    else if peers[0].host == host && peers[0].port == port then 0
    else 1 + FindPeer(peers[1..], host, port)
  }

  /** The registry after a handshake from sender. */
  function Upserted(peers: seq<TtlPeer>, sender: SocketAddr): seq<TtlPeer>
  {
    var host := HostString(sender.ip);
    var k := FindPeer(peers, host, sender.port);
    if k < |peers| then peers[k := peers[k].(ttl := peers[k].ttl + 1)]
    else peers + [TtlPeer(host, sender.port, PEER_INITIAL_TTL)]
  }

  /** A known (host, port) gets one more unit of TTL and the list keeps its
      length; an unknown one is appended with TTL 3. No other entry changes. */
  lemma UpsertSpec(peers: seq<TtlPeer>, sender: SocketAddr)
    ensures var host := HostString(sender.ip);
      var r := Upserted(peers, sender);
      ((exists j :: 0 <= j < |peers| && peers[j].host == host && peers[j].port == sender.port)
        ==> |r| == |peers|
            && var k := FindPeer(peers, host, sender.port);
               r[k] == peers[k].(ttl := peers[k].ttl + 1)
               && forall j :: 0 <= j < |peers| && j != k ==> r[j] == peers[j])
      && (!(exists j :: 0 <= j < |peers| && peers[j].host == host && peers[j].port == sender.port)
        ==> r == peers + [TtlPeer(host, sender.port, PEER_INITIAL_TTL)])
  {
  }

  /** `decrement_ttl` on every entry. */
  function Decremented(peers: seq<TtlPeer>): (r: seq<TtlPeer>)
    ensures |r| == |peers|
    ensures forall k :: 0 <= k < |r| ==> r[k] == peers[k].(ttl := peers[k].ttl - 1)
  {
    seq(|peers|, k requires 0 <= k < |peers| => peers[k].(ttl := peers[k].ttl - 1))
  }

  /** `retain(is_alive)`: the alive entries, in their original order. */
  function Retained(peers: seq<TtlPeer>): seq<TtlPeer>
    decreases |peers|
  {
    if peers == [] then []
    else if IsAlive(peers[0]) then [peers[0]] + Retained(peers[1..])
    else Retained(peers[1..])
  }

  function Swept(peers: seq<TtlPeer>): seq<TtlPeer> {
    Retained(Decremented(peers))
  }

  /** `retain` keeps exactly the alive entries and never grows the list. */
  lemma {:induction false} RetainedSpec(peers: seq<TtlPeer>)
    ensures |Retained(peers)| <= |peers|
    ensures forall p :: p in Retained(peers) <==> p in peers && IsAlive(p)
    decreases |peers|
  {
    if peers != [] {
      RetainedSpec(peers[1..]);
      assert peers == [peers[0]] + peers[1..];
    }
  }

  /** `retain` keeps relative order: what it keeps of `a + b` is what it keeps
      of a followed by what it keeps of b. */
  lemma {:induction false} RetainedAppend(xs: seq<TtlPeer>, ys: seq<TtlPeer>)
    ensures Retained(xs + ys) == Retained(xs) + Retained(ys)
    decreases |xs|
  {
    if xs != [] {
      ConsAppend(xs, ys);
      RetainedAppend(xs[1..], ys);
    } else {
      assert xs + ys == ys;
    }
  }

  lemma ConsAppend(xs: seq<TtlPeer>, ys: seq<TtlPeer>)
    requires xs != []
    ensures (xs + ys)[0] == xs[0] && (xs + ys)[1..] == xs[1..] + ys
  {
  }

  /** A peer that is never heard from again is kept for two sweeps and dropped
      by the third. */
  lemma FreshPeerLifetime(host: string, port: u16)
    ensures var p := TtlPeer(host, port, PEER_INITIAL_TTL);
      Swept([p]) == [p.(ttl := 2)] && Swept(Swept([p])) == [p.(ttl := 1)]
      && Swept(Swept(Swept([p]))) == []
  {
    var p := TtlPeer(host, port, PEER_INITIAL_TTL);
    assert Decremented([p]) == [p.(ttl := 2)];
    assert Retained([p.(ttl := 2)]) == [p.(ttl := 2)] by {
      assert [p.(ttl := 2)][1..] == [];
    }
    assert Decremented([p.(ttl := 2)]) == [p.(ttl := 1)];
    assert Retained([p.(ttl := 1)]) == [p.(ttl := 1)] by {
      assert [p.(ttl := 1)][1..] == [];
    }
    assert Decremented([p.(ttl := 1)]) == [p.(ttl := 0)];
    assert Retained([p.(ttl := 0)]) == [] by {
      assert [p.(ttl := 0)][1..] == [];
    }
  }

  /** One received datagram of `server_routine`. */
  datatype Datagram = Datagram(sender: SocketAddr, payload: Bytes) | ReceiveFailed

  /** What a run of `server_routine` over successive receive results leaves:
      it stops at the first failed receive. */
  function ServerRoutineSpec(peers: seq<TtlPeer>, localIp: IpAddr, datagrams: seq<Datagram>): seq<TtlPeer>
    decreases |datagrams|
  {
    if datagrams == [] then peers
    else match datagrams[0]
      case ReceiveFailed => peers
      case Datagram(sender, payload) =>
        var next := if Accepts(sender, localIp, payload) then Upserted(peers, sender) else peers;
        ServerRoutineSpec(next, localIp, datagrams[1..])
  }

  /** The shared peer list. */
  class PeerList {
    var peers: seq<TtlPeer>

    constructor ()
      ensures peers == []
    {
      peers := [];
    }

    /** The `find` over `iter_mut` followed by `increment_ttl` or `push`. */
    method Upsert(sender: SocketAddr)
      modifies this
      ensures peers == Upserted(old(peers), sender)
    {
      var host := HostString(sender.ip);
      var i := 0;
      while i < |peers| && !(peers[i].host == host && peers[i].port == sender.port)
        invariant 0 <= i <= |peers|
        invariant forall j :: 0 <= j < i ==> !(peers[j].host == host && peers[j].port == sender.port)
      {
        i := i + 1;
      }
      FindIsFirst(peers, host, sender.port, i);
      if i < |peers| {
        peers := peers[i := peers[i].(ttl := peers[i].ttl + 1)];
      } else {
        peers := peers + [TtlPeer(host, sender.port, PEER_INITIAL_TTL)];
      }
    }

    /** One iteration of `server_routine` after a successful receive. */
    method Receive(sender: SocketAddr, localIp: IpAddr, payload: Bytes)
      modifies this
      ensures peers == if Accepts(sender, localIp, payload) then Upserted(old(peers), sender) else old(peers)
    {
      if sender.ip == localIp {
        return;
      }
      var message := FromUtf8(payload);
      if message != Some(HANDSHAKE_MESSAGE) {
        return;
      }
      Upsert(sender);
    }

    /** `server_routine` over a sequence of receive results. */
    method ServerRoutine(localIp: IpAddr, datagrams: seq<Datagram>)
      modifies this
      ensures peers == ServerRoutineSpec(old(peers), localIp, datagrams)
    {
      var i := 0;
      while i < |datagrams|
        invariant 0 <= i <= |datagrams|
        invariant ServerRoutineSpec(old(peers), localIp, datagrams) == ServerRoutineSpec(peers, localIp, datagrams[i..])
      {
        assert datagrams[i..][1..] == datagrams[i + 1..];
        match datagrams[i]
        case ReceiveFailed =>
          return;
        case Datagram(sender, payload) =>
          Receive(sender, localIp, payload);
        i := i + 1;
      }
    }

    /** One round of `peer_ttl_decrement`: decrement every TTL in place, then
        `retain` the alive entries. */
    method Sweep()
      modifies this
      ensures peers == Swept(old(peers))
    {
      var i := 0;
      while i < |peers|
        invariant 0 <= i <= |peers| && |peers| == |old(peers)|
        invariant forall k :: 0 <= k < i ==> peers[k] == old(peers)[k].(ttl := old(peers)[k].ttl - 1)
        invariant forall k :: i <= k < |peers| ==> peers[k] == old(peers)[k]
      {
        peers := peers[i := peers[i].(ttl := peers[i].ttl - 1)];
        i := i + 1;
      }
      var decremented := peers;
      assert decremented == Decremented(old(peers));
      var kept: seq<TtlPeer> := [];
      var j := 0;
      while j < |decremented|
        invariant 0 <= j <= |decremented|
        invariant kept == Retained(decremented[..j])
      {
        RetainedAppend(decremented[..j], [decremented[j]]);
        assert decremented[..j + 1] == decremented[..j] + [decremented[j]];
        assert [decremented[j]][1..] == [];
        if IsAlive(decremented[j]) {
          kept := kept + [decremented[j]];
        }
        j := j + 1;
      }
      assert decremented[..j] == decremented;
      peers := kept;
    }

    /** `get_peer_list`: a copy, the list itself untouched. */
    method GetPeerList() returns (r: seq<TtlPeer>)
      ensures r == peers
    {
      r := peers;
    }
  }

  lemma FindIsFirst(peers: seq<TtlPeer>, host: string, port: u16, i: nat)
    requires i <= |peers|
    requires forall j :: 0 <= j < i ==> !(peers[j].host == host && peers[j].port == port)
    requires i < |peers| ==> peers[i].host == host && peers[i].port == port
    ensures FindPeer(peers, host, port) == i
  {
  }
}
