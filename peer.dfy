/** `Peer`: a host string and a port. Equality, hashing and `Display` look at
    the host only. */
module Peers {
  import opened Ints
  import opened NetTypes

  datatype Peer = Peer(host: string, port: u16)

  /** `PartialEq::eq`. */
  predicate Eq(a: Peer, b: Peer) {
    a.host == b.host
  }

  /** `PartialEq::ne`. */
  predicate Ne(a: Peer, b: Peer) {
    !Eq(a, b)
  }

  /** What `Hash::hash` feeds the hasher: the host alone. */
  function HashInput(p: Peer): string {
    p.host
  }

  /** `Display::fmt`. */
  function Display(p: Peer): string {
    p.host
  }

  /** `Peer::new(host, port)`. */
  function New(host: string, port: u16): (p: Peer)
    ensures p.host == host && p.port == port
  {
    Peer(host, port)
  }

  /** `Peer::from(socket_addr)`: the host is the textual IP. */
  function From(addr: SocketAddr): (p: Peer)
    ensures p.host == HostString(addr.ip) && p.port == addr.port
  {
    Peer(HostString(addr.ip), addr.port)
  }

  /** Two peers are equal exactly when their hosts are; ports do not matter. */
  lemma EqIffSameHost(a: Peer, b: Peer)
    ensures Eq(a, b) <==> a.host == b.host
    ensures Eq(a, b) <==> Eq(a, b.(port := a.port))
  {
  }

  /** Equal peers hash alike, so `Peer` is a sound `HashSet` key. */
  lemma HashAgreesWithEq(a: Peer, b: Peer)
    ensures Eq(a, b) ==> HashInput(a) == HashInput(b)
    ensures Eq(a, b) ==> Display(a) == Display(b)
  {
  }

  /** `eq` is an equivalence and `ne` its negation. */
  lemma EqIsEquivalence(a: Peer, b: Peer, c: Peer)
    ensures Eq(a, a)
    ensures Eq(a, b) ==> Eq(b, a)
    ensures Eq(a, b) && Eq(b, c) ==> Eq(a, c)
    ensures Ne(a, b) <==> !Eq(a, b)
  {
  }

  /** The port-agnostic equality of the source's test. */
  lemma SameHostDifferentPort()
    ensures Eq(New("114.51.41.91", 9818), New("114.51.41.91", 9819))
    ensures Ne(New("114.51.41.91", 9818), New("111.111.11.1", 9819))
  {
  }
}
