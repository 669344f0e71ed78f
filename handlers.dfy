/** The packet handlers of the data service: each decodes the payload of a
    `DataPacket`, calls at most one callback and says whether the connection
    is to be closed. */
module Handlers {
  import opened Ints
  import opened Wrappers
  import opened NetTypes
  import opened Utf8
  import Peers
  import TP = TextPackets
  import FCP = FileComingPackets
  import FPP = FilePartPackets
  import FPRP = FilePartResponsePackets

  /** `ConnectionControl`. */
  datatype ConnectionControl = Default | CloseConnection

  /** What a handler does: the control it returns and the argument of the
      callback it calls, if any; or a panic inside a decoder. */
  datatype Handled<C> = Handled(control: ConnectionControl, callback: Option<C>) | HandlerPanic

  /** The text handler closes the connection whatever the payload, and calls
      the text callback exactly when the payload decodes, with that packet and
      the address of the connection. */
  function HandleText(data: Bytes, source: SocketAddr): (h: Handled<(TP.TextPacket, SocketAddr)>)
    ensures h.HandlerPanic? <==> TP.Deserialize(data).Panic?
    ensures h.Handled? ==> h.control == CloseConnection
    ensures h.Handled? ==> (h.callback.Some? <==> TP.Deserialize(data).result.Ok?)
    ensures h.Handled? && h.callback.Some? ==>
      TP.Deserialize(data) == Done(Ok(h.callback.value.0)) && h.callback.value.1 == source
  {
    match TP.Deserialize(data)
    case Panic => HandlerPanic
    case Done(Err(_)) => Handled(CloseConnection, None)
    case Done(Ok(p)) => Handled(CloseConnection, Some((p, source)))
  }

  /** A text packet made by `new` reaches the callback unchanged, together
      with the connection's address. */
  lemma HandleTextOfNew(text: string, source: SocketAddr)
    requires TP.New(text).Ok?
    ensures HandleText(TP.Serialized(TP.New(text).value), source)
         == Handled(CloseConnection, Some((TP.New(text).value, source)))
  {
    TP.RoundTrip(text, []);
    assert TP.Serialized(TP.New(text).value) + [] == TP.Serialized(TP.New(text).value);
  }

  /** `peer_lookup`'s answer if it has one, otherwise a peer made from the
      address of the connection. */
  function SenderPeer(lookup: Option<Peers.Peer>, source: SocketAddr): (p: Peers.Peer)
    ensures lookup.Some? ==> p == lookup.value
    ensures lookup.None? ==> p.host == HostString(source.ip) && p.port == source.port
  {
    match lookup
    case Some(p) => p
    case None => Peers.New(HostString(source.ip), source.port)
  }

  /** The file-coming handler: the callback gets the decoded packet and the
      sender peer; the connection is closed on every path. */
  function HandleFileComing(data: Bytes, lookup: Option<Peers.Peer>, source: SocketAddr)
    : (h: Handled<(FCP.FileComingPacket, Peers.Peer)>)
    ensures h.HandlerPanic? <==> FCP.Deserialize(data).Panic?
    ensures h.Handled? ==> h.control == CloseConnection
    ensures h.Handled? ==> (h.callback.Some? <==> FCP.Deserialize(data).result.Ok?)
    ensures h.Handled? && h.callback.Some? ==>
      FCP.Deserialize(data) == Done(Ok(h.callback.value.0)) && h.callback.value.1 == SenderPeer(lookup, source)
  {
    match FCP.Deserialize(data)
    case Panic => HandlerPanic
    case Done(Err(_)) => Handled(CloseConnection, None)
    case Done(Ok(p)) => Handled(CloseConnection, Some((p, SenderPeer(lookup, source))))
  }

  /** A file-coming packet made by `new` reaches the callback with a peer
      built from the connection when the lookup knows none. */
  lemma HandleFileComingOfNew(fileSize: u64, fileName: string, source: SocketAddr)
    requires |Encode(fileName)| < U32_MODULUS
    ensures HandleFileComing(FCP.Serialized(FCP.New(fileSize, fileName)), None, source)
         == Handled(CloseConnection, Some((FCP.New(fileSize, fileName), Peers.Peer(HostString(source.ip), source.port))))
  {
    FCP.RoundTrip(fileSize, fileName, []);
    assert FCP.Serialized(FCP.New(fileSize, fileName)) + [] == FCP.Serialized(FCP.New(fileSize, fileName));
  }

  /** The file-part handler, given what the callback answers: the callback
      sees every decoded part, and its `true` closes the connection. */
  function HandleFilePart(data: Bytes, interrupt: bool): (h: Handled<FPP.FilePartPacket>)
    ensures h.Handled?
    ensures h.callback.Some? <==> FPP.Deserialize(data).Ok?
    ensures h.callback.Some? ==> FPP.Deserialize(data) == Ok(h.callback.value)
    ensures h.control == CloseConnection <==> FPP.Deserialize(data).Ok? && interrupt
  {
    match FPP.Deserialize(data)
    case Err(_) => Handled(Default, None)
    case Ok(p) => Handled(if interrupt then CloseConnection else Default, Some(p))
  }

  /** A part made by the sender reaches the callback unchanged. */
  lemma HandleFilePartOfPacket(p: FPP.FilePartPacket, interrupt: bool)
    requires p.length == |p.data|
    ensures HandleFilePart(FPP.Serialized(p), interrupt)
         == Handled(if interrupt then CloseConnection else Default, Some(p))
  {
    FPP.RoundTripIff(p);
  }

  /** The file-part-response handler calls no callback. A well-formed
      response of either kind closes the connection, a malformed one keeps
      it, and a kind byte other than 1 or 2 panics in `response_kind`. */
  function HandleFilePartResponse(data: Bytes): (h: Handled<()>)
    ensures h.HandlerPanic? <==> |data| == FPRP.BASE_PACKET_SIZE && data[1] != 1 && data[1] != 2
    ensures h.Handled? ==> h.callback.None?
    ensures h.Handled? ==> (h.control == CloseConnection <==> |data| == FPRP.BASE_PACKET_SIZE)
  {
    match FPRP.Deserialize(data)
    case Err(_) => Handled(Default, None)
    case Ok(p) =>
      if p.response_kind != 1 && p.response_kind != 2 then HandlerPanic
      else match FPRP.Kind(p)
        case StopReceiving => Handled(CloseConnection, None)
        case StopSending => Handled(CloseConnection, None)
  }

  /** Responses made by `new` close the connection, whichever their kind. */
  lemma HandleFilePartResponseOfNew(fileId: u8, kind: FPRP.ResponseKind)
    ensures HandleFilePartResponse(FPRP.Serialized(FPRP.New(fileId, kind))) == Handled(CloseConnection, None)
  {
  }
}
