/** The sender side of a file transfer: on the receiver's answer, report the
    status to the local callback, and if accepted stream the file as
    `FilePartPacket`s of at most 1024 bytes over a data session. */
module FileReceiveResponseHandler {
  import opened Ints
  import opened Wrappers
  import opened NetTypes
  import opened Sockets
  import opened FileSending
  import DP = DataPackets
  import DT = DataTransmissions
  import FPP = FilePartPackets
  import FRRP = FileReceiveResponsePackets

  const BUFFER_SIZE: nat := 1024

  /** What one `file.read` into the 1024-byte buffer gives. */
  type Chunk = b: Bytes | |b| <= BUFFER_SIZE

  datatype FileRead = ReadOk(bytes: Chunk) | ReadFailed

  /** The fields of the `FileSendingPacket` handed to the status callback. */
  datatype StatusReport = StatusReport(fileId: u8, progress: u64, total: u64, status: FileSendingStatus)

  /** The bytes that go on the session for one part: the part, wrapped in a
      `DataPacket` with the file-part tag, framed. */
  function PartFrame(tag: u16, p: FPP.FilePartPacket): Bytes
    requires |p.data| <= BUFFER_SIZE
  {
    DT.Frame(DP.Serialized(DP.DataPacket(tag, FPP.Serialized(p))))
  }

  /** The chunk loop run inside the data session, from a given offset. A
      read error or a failed send reports `Error` and leaves the loop; a read
      of 0 bytes ends it; every sent part is followed by an `InProgress`
      report carrying the offset before that part. The offset is a `u32`
      advanced by the part length, wrapping. */
  function ChunkLoopSpec(st: SocketState, id: u8, size: u64, tag: u16, tries: nat, fileReads: seq<FileRead>, offset: u32)
    : (seq<StatusReport>, SocketState)
    decreases |fileReads|
  {
    if fileReads == [] then ([], st)
    else match fileReads[0]
      case ReadFailed => ([StatusReport(id, 0, size, Error)], st)
      case ReadOk(b) =>
        if |b| == 0 then ([], st)
        else
          var (r, st1) := DT.SendRetry(st, PartFrame(tag, FPP.FilePartPacket(id, offset, |b|, b)), tries, Other);
          if r.Err? then ([StatusReport(id, 0, size, Error)], st1)
          else
            var (rest, st2) := ChunkLoopSpec(st1, id, size, tag, tries, fileReads[1..], AsU32(offset + |b|));
            ([StatusReport(id, offset, size, InProgress)] + rest, st2)
  }

  /** The non-empty reads before the first empty or failed one. */
  function Chunks(fileReads: seq<FileRead>): (cs: seq<Chunk>)
    ensures |cs| <= |fileReads|
    ensures forall k :: 0 <= k < |cs| ==> 0 < |cs[k]| <= BUFFER_SIZE && fileReads[k] == ReadOk(cs[k])
    decreases |fileReads|
  {
    if fileReads == [] || fileReads[0].ReadFailed? || |fileReads[0].bytes| == 0 then []
    else [fileReads[0].bytes] + Chunks(fileReads[1..])
  }

  /** The parts the file is cut into: each carries its chunk and starts
      where the previous one ended. */
  function Parts(id: u8, chunks: seq<Chunk>, offset: u32): (ps: seq<FPP.FilePartPacket>)
    ensures |ps| == |chunks|
    ensures forall k :: 0 <= k < |ps| ==> ps[k].file_id == id && ps[k].data == chunks[k] && ps[k].length == |chunks[k]|
    decreases |chunks|
  {
    if chunks == [] then []
    else [FPP.FilePartPacket(id, offset, |chunks[0]|, chunks[0])] + Parts(id, chunks[1..], AsU32(offset + |chunks[0]|))
  }

  function TotalLength(chunks: seq<Chunk>): nat
    decreases |chunks|
  {
    if chunks == [] then 0 else |chunks[0]| + TotalLength(chunks[1..])
  }

  function Frames(tag: u16, ps: seq<FPP.FilePartPacket>): (fs: seq<Bytes>)
    requires forall k :: 0 <= k < |ps| ==> |ps[k].data| <= BUFFER_SIZE
    ensures |fs| == |ps|
    decreases |ps|
  {
    if ps == [] then [] else [PartFrame(tag, ps[0])] + Frames(tag, ps[1..])
  }

  /** Part k starts at the total length of the chunks before it, modulo 2^32. */
  lemma {:induction false} PartsContiguous(id: u8, chunks: seq<Chunk>, offset: u32, k: nat)
    requires k < |chunks|
    ensures Parts(id, chunks, offset)[k].offset == (offset + TotalLength(chunks[..k])) % U32_MODULUS
    decreases k
  {
    if k == 0 {
      assert chunks[..0] == [];
    } else {
      var next := AsU32(offset + |chunks[0]|);
      PartsContiguous(id, chunks[1..], next, k - 1);
      assert chunks[1..][..k - 1] == chunks[..k][1..];
      assert TotalLength(chunks[..k]) == |chunks[0]| + TotalLength(chunks[1..][..k - 1]);
      ModAddLeft32(offset + |chunks[0]|, TotalLength(chunks[1..][..k - 1]));
    }
  }

  lemma ModAddLeft32(x: nat, y: nat)
    ensures (x % U32_MODULUS + y) % U32_MODULUS == (x + y) % U32_MODULUS
  {
    var q := x / U32_MODULUS;
    var r := x % U32_MODULUS;
    assert x == U32_MODULUS * q + r;
    assert x + y == U32_MODULUS * q + (r + y);
    var q2 := (r + y) / U32_MODULUS;
    var r2 := (r + y) % U32_MODULUS;
    assert r + y == U32_MODULUS * q2 + r2;
    assert U32_MODULUS * q + U32_MODULUS * q2 == U32_MODULUS * (q + q2);
    DivModUnique(x + y, U32_MODULUS, q + q2, r2);
  }

  /** How many parts the loop sends. */
  function SentCount(st: SocketState, id: u8, tag: u16, tries: nat, fileReads: seq<FileRead>, offset: u32): nat
    decreases |fileReads|
  {
    if fileReads == [] || fileReads[0].ReadFailed? || |fileReads[0].bytes| == 0 then 0
    else
      var b := fileReads[0].bytes;
      var r := DT.SendRetry(st, PartFrame(tag, FPP.FilePartPacket(id, offset, |b|, b)), tries, Other);
      if r.0.Err? then 0 else 1 + SentCount(r.1, id, tag, tries, fileReads[1..], AsU32(offset + |b|))
  }

  /** The loop's reports and sends, against the parts the file is cut into
      and the number it sent: see `Witness`. */
  lemma {:induction false} ChunkLoopShape(st: SocketState, id: u8, size: u64, tag: u16, tries: nat, fileReads: seq<FileRead>, offset: u32)
    ensures Shaped(st, id, size, tag, tries, fileReads, offset)
    decreases |fileReads|
  {
    if fileReads == [] || fileReads[0].ReadFailed? || |fileReads[0].bytes| == 0 {
      ShapeAtEnd(st, id, size, tag, tries, fileReads, offset);
    } else {
      var b := fileReads[0].bytes;
      var r := DT.SendRetry(st, PartFrame(tag, FPP.FilePartPacket(id, offset, |b|, b)), tries, Other);
      if r.0.Err? {
        ShapeSendFailed(st, id, size, tag, tries, fileReads, offset);
      } else {
        ChunkLoopShape(r.1, id, size, tag, tries, fileReads[1..], AsU32(offset + |b|));
        ShapeStep(st, id, size, tag, tries, fileReads, offset);
      }
    }
  }

  predicate Shaped(st: SocketState, id: u8, size: u64, tag: u16, tries: nat, fileReads: seq<FileRead>, offset: u32) {
    Witness(ChunkLoopSpec(st, id, size, tag, tries, fileReads, offset).0,
            ChunkLoopSpec(st, id, size, tag, tries, fileReads, offset).1,
            st, id, size, tag, Parts(id, Chunks(fileReads), offset), SentCount(st, id, tag, tries, fileReads, offset))
  }

  lemma ShapeStep(st: SocketState, id: u8, size: u64, tag: u16, tries: nat, fileReads: seq<FileRead>, offset: u32)
    requires fileReads != [] && fileReads[0].ReadOk? && |fileReads[0].bytes| > 0
    requires var b := fileReads[0].bytes;
      var r := DT.SendRetry(st, PartFrame(tag, FPP.FilePartPacket(id, offset, |b|, b)), tries, Other);
      r.0.Ok? && Shaped(r.1, id, size, tag, tries, fileReads[1..], AsU32(offset + |b|))
    ensures Shaped(st, id, size, tag, tries, fileReads, offset)
  {
    var b := fileReads[0].bytes;
    var p := FPP.FilePartPacket(id, offset, |b|, b);
    var next := AsU32(offset + |b|);
    var st1 := DT.SendRetry(st, PartFrame(tag, p), tries, Other).1;
    var tail := ChunkLoopSpec(st1, id, size, tag, tries, fileReads[1..], next);
    var ps' := Parts(id, Chunks(fileReads[1..]), next);
    var m' := SentCount(st1, id, tag, tries, fileReads[1..], next);
    assert Witness(tail.0, tail.1, st1, id, size, tag, ps', m');
    UnfoldSent(st, id, size, tag, tries, fileReads, offset);
    PartsCons(id, fileReads, offset);
    WitnessCons([StatusReport(id, offset, size, InProgress)] + tail.0, tail.1, st, st1, id, size, tag, p, ps', tail.0, m');
  }

  lemma PartsCons(id: u8, fileReads: seq<FileRead>, offset: u32)
    requires fileReads != [] && fileReads[0].ReadOk? && |fileReads[0].bytes| > 0
    ensures var b := fileReads[0].bytes;
      Parts(id, Chunks(fileReads), offset)
      == [FPP.FilePartPacket(id, offset, |b|, b)] + Parts(id, Chunks(fileReads[1..]), AsU32(offset + |b|))
  {
  }

  lemma ShapeAtEnd(st: SocketState, id: u8, size: u64, tag: u16, tries: nat, fileReads: seq<FileRead>, offset: u32)
    requires fileReads == [] || fileReads[0].ReadFailed? || |fileReads[0].bytes| == 0
    ensures Shaped(st, id, size, tag, tries, fileReads, offset)
  {
    var ps := Parts(id, Chunks(fileReads), offset);
    assert ps == [] && ps[..0] == [];
    assert st.sent + Frames(tag, ps[..0]) == st.sent;
  }

  lemma ShapeSendFailed(st: SocketState, id: u8, size: u64, tag: u16, tries: nat, fileReads: seq<FileRead>, offset: u32)
    requires fileReads != [] && fileReads[0].ReadOk? && |fileReads[0].bytes| > 0
    requires DT.SendRetry(st, PartFrame(tag, FPP.FilePartPacket(id, offset, |fileReads[0].bytes|, fileReads[0].bytes)),
                          tries, Other).0.Err?
    ensures Shaped(st, id, size, tag, tries, fileReads, offset)
  {
    var b := fileReads[0].bytes;
    var frame := PartFrame(tag, FPP.FilePartPacket(id, offset, |b|, b));
    DT.SendRetrySpec(st, frame, tries, Other);
    var ps := Parts(id, Chunks(fileReads), offset);
    assert |ps| > 0 && ps[..0] == [];
    var st1 := DT.SendRetry(st, frame, tries, Other).1;
    assert st1.sent + Frames(tag, ps[..0]) == st1.sent;
  }

  /** One step of the loop that sent a part. */
  lemma UnfoldSent(st: SocketState, id: u8, size: u64, tag: u16, tries: nat, fileReads: seq<FileRead>, offset: u32)
    requires fileReads != [] && fileReads[0].ReadOk? && |fileReads[0].bytes| > 0
    requires var b := fileReads[0].bytes;
      DT.SendRetry(st, PartFrame(tag, FPP.FilePartPacket(id, offset, |b|, b)), tries, Other).0.Ok?
    ensures var b := fileReads[0].bytes;
      var st1 := DT.SendRetry(st, PartFrame(tag, FPP.FilePartPacket(id, offset, |b|, b)), tries, Other).1;
      var tail := ChunkLoopSpec(st1, id, size, tag, tries, fileReads[1..], AsU32(offset + |b|));
      ChunkLoopSpec(st, id, size, tag, tries, fileReads, offset).0 == [StatusReport(id, offset, size, InProgress)] + tail.0
      && ChunkLoopSpec(st, id, size, tag, tries, fileReads, offset).1 == tail.1
      && st1.sent == st.sent + [PartFrame(tag, FPP.FilePartPacket(id, offset, |b|, b))] && st1.input == st.input
      && SentCount(st, id, tag, tries, fileReads, offset) == 1 + SentCount(st1, id, tag, tries, fileReads[1..], AsU32(offset + |b|))
  {
    var b := fileReads[0].bytes;
    DT.SendRetrySpec(st, PartFrame(tag, FPP.FilePartPacket(id, offset, |b|, b)), tries, Other);
  }

  /** A witness for the rest of the loop extends by the part just sent. */
  lemma WitnessCons(statuses: seq<StatusReport>, st': SocketState, st0: SocketState, st1: SocketState,
                    id: u8, size: u64, tag: u16, p: FPP.FilePartPacket, ps': seq<FPP.FilePartPacket>,
                    rest: seq<StatusReport>, m': int)
    requires |p.data| <= BUFFER_SIZE && forall k :: 0 <= k < |ps'| ==> |ps'[k].data| <= BUFFER_SIZE
    requires Witness(rest, st', st1, id, size, tag, ps', m')
    requires statuses == [StatusReport(id, p.offset, size, InProgress)] + rest
    requires st1.sent == st0.sent + [PartFrame(tag, p)] && st1.input == st0.input
    ensures Witness(statuses, st', st0, id, size, tag, [p] + ps', m' + 1)
  {
    var ps := [p] + ps';
    assert ps[..m' + 1] == [p] + ps'[..m'];
    assert Frames(tag, ps[..m' + 1]) == [PartFrame(tag, p)] + Frames(tag, ps'[..m']);
    forall k | 0 <= k < m' + 1
      ensures statuses[k] == StatusReport(id, ps[k].offset, size, InProgress)
    {
      if k > 0 {
        assert statuses[k] == rest[k - 1] && ps[k] == ps'[k - 1];
      }
    }
  }

  /** Every report of the loop names the file and its size. */
  lemma ChunkLoopNames(st: SocketState, id: u8, size: u64, tag: u16, tries: nat, fileReads: seq<FileRead>, offset: u32)
    ensures Named(ChunkLoopSpec(st, id, size, tag, tries, fileReads, offset).0, id, size)
  {
    ChunkLoopShape(st, id, size, tag, tries, fileReads, offset);
    WitnessNamed(ChunkLoopSpec(st, id, size, tag, tries, fileReads, offset).0,
                 ChunkLoopSpec(st, id, size, tag, tries, fileReads, offset).1,
                 st, id, size, tag, Parts(id, Chunks(fileReads), offset), SentCount(st, id, tag, tries, fileReads, offset));
  }

  lemma WitnessNamed(statuses: seq<StatusReport>, st': SocketState, st: SocketState, id: u8, size: u64, tag: u16,
                     ps: seq<FPP.FilePartPacket>, m: int)
    requires forall k :: 0 <= k < |ps| ==> |ps[k].data| <= BUFFER_SIZE
    requires Witness(statuses, st', st, id, size, tag, ps, m)
    ensures Named(statuses, id, size)
  {
  }

  /** The loop's reports against its parts `ps`, of which it sent the first
      m in order: one `InProgress` per sent part with that part's offset,
      then either a clean stop after the last part or one `Error`; the
      session got exactly the frames of the sent parts, and its input is
      never touched. */
  predicate Witness(statuses: seq<StatusReport>, st': SocketState, st: SocketState, id: u8, size: u64, tag: u16,
                    ps: seq<FPP.FilePartPacket>, m: int)
    requires forall k :: 0 <= k < |ps| ==> |ps[k].data| <= BUFFER_SIZE
  {
    0 <= m <= |ps| && |statuses| >= m
    && (forall k :: 0 <= k < m ==> statuses[k] == StatusReport(id, ps[k].offset, size, InProgress))
    && (|statuses| == m || (|statuses| == m + 1 && statuses[m] == StatusReport(id, 0, size, Error)))
    && (m < |ps| ==> |statuses| == m + 1)
    && st'.sent == st.sent + Frames(tag, ps[..m])
    && st'.input == st.input
  }

  /** `handle`, given whether the file opens, what its reads give, whether
      the data session connects, and the session's socket script. */
  function HandleSpec(data: Bytes, source: SocketAddr, tag: u16, fileOpens: bool, fileReads: seq<FileRead>,
                      connects: bool, st: SocketState): (seq<StatusReport>, SocketState)
  {
    match FRRP.Deserialize(data)
    case Err(_) => ([], st)
    case Ok(p) =>
      var requested := StatusReport(p.file_id, 0, p.file_size, Requested);
      if source.ip.V6? then ([requested, StatusReport(p.file_id, 0, p.file_size, Error)], st)
      else if !p.accepted then ([requested, StatusReport(p.file_id, 0, p.file_size, Rejected)], st)
      else
        var accepted := StatusReport(p.file_id, 0, p.file_size, Accepted);
        if !fileOpens || !connects then ([requested, accepted, StatusReport(p.file_id, 0, p.file_size, Error)], st)
        else
          var (inLoop, st') := ChunkLoopSpec(st, p.file_id, p.file_size, tag, DT.PACKET_TRY_TIMES, fileReads, 0);
          ([requested, accepted] + inLoop + [StatusReport(p.file_id, 0, p.file_size, Completed)], st')
  }

  /** A bad payload reports nothing. Otherwise the first report is
      `Requested` and every report names the file and its size; a rejection
      or an IPv6 sender send nothing; and a session that runs always ends
      with `Completed`, even after an `Error` inside the loop. */
  lemma HandleProperties(data: Bytes, source: SocketAddr, tag: u16, fileOpens: bool, fileReads: seq<FileRead>,
                         connects: bool, st: SocketState)
    ensures var h := HandleSpec(data, source, tag, fileOpens, fileReads, connects, st);
      (FRRP.Deserialize(data).Err? ==> h == ([], st))
      && (FRRP.Deserialize(data).Ok? ==>
            var p := FRRP.Deserialize(data).value;
            |h.0| >= 2 && h.0[0].status == Requested && Named(h.0, p.file_id, p.file_size)
            && (source.ip.V6? ==> h.0[1].status == Error && h.1 == st)
            && (source.ip.V4? && !p.accepted ==> h == ([h.0[0], StatusReport(p.file_id, 0, p.file_size, Rejected)], st))
            && (source.ip.V4? && p.accepted ==> h.0[1].status == Accepted)
            && (source.ip.V4? && p.accepted && fileOpens && connects ==> h.0[|h.0| - 1].status == Completed))
  {
    if FRRP.Deserialize(data).Ok? {
      var p := FRRP.Deserialize(data).value;
      var requested := StatusReport(p.file_id, 0, p.file_size, Requested);
      var accepted := StatusReport(p.file_id, 0, p.file_size, Accepted);
      if source.ip.V4? && p.accepted && fileOpens && connects {
        var inLoop := ChunkLoopSpec(st, p.file_id, p.file_size, tag, DT.PACKET_TRY_TIMES, fileReads, 0).0;
        ChunkLoopNames(st, p.file_id, p.file_size, tag, DT.PACKET_TRY_TIMES, fileReads, 0);
        NamedConcat([requested, accepted], inLoop, p.file_id, p.file_size);
        NamedConcat([requested, accepted] + inLoop, [StatusReport(p.file_id, 0, p.file_size, Completed)], p.file_id, p.file_size);
      }
    }
  }

  /** Every report names the given file and size. */
  predicate Named(statuses: seq<StatusReport>, id: u8, size: u64) {
    forall k :: 0 <= k < |statuses| ==> statuses[k].fileId == id && statuses[k].total == size
  }

  lemma NamedConcat(a: seq<StatusReport>, b: seq<StatusReport>, id: u8, size: u64)
    requires Named(a, id, size) && Named(b, id, size)
    ensures Named(a + b, id, size)
  {
    forall k | 0 <= k < |a + b|
      ensures (a + b)[k].fileId == id && (a + b)[k].total == size
    {
      if k >= |a| {
        assert (a + b)[k] == b[k - |a|];
      }
    }
  }

  /** One turn of the chunk loop, for each way it can go. */
  lemma LoopStep(st: SocketState, id: u8, size: u64, tag: u16, tries: nat, fileReads: seq<FileRead>, offset: u32)
    requires fileReads != []
    ensures fileReads[0].ReadFailed? ==> ChunkLoopSpec(st, id, size, tag, tries, fileReads, offset) == ([StatusReport(id, 0, size, Error)], st)
    ensures fileReads[0].ReadOk? && |fileReads[0].bytes| == 0 ==> ChunkLoopSpec(st, id, size, tag, tries, fileReads, offset) == ([], st)
    ensures fileReads[0].ReadOk? && |fileReads[0].bytes| > 0 ==>
      var b := fileReads[0].bytes;
      var r := DT.SendRetry(st, PartFrame(tag, FPP.FilePartPacket(id, offset, |b|, b)), tries, Other);
      var tail := ChunkLoopSpec(r.1, id, size, tag, tries, fileReads[1..], AsU32(offset + |b|));
      ChunkLoopSpec(st, id, size, tag, tries, fileReads, offset)
      == if r.0.Err? then ([StatusReport(id, 0, size, Error)], r.1) else ([StatusReport(id, offset, size, InProgress)] + tail.0, tail.1)
  {
  }

  /** Serialize one part, wrap it with the file-part tag and send it with
      retries. */
  method SendPart(socket: Socket, tag: u16, p: FPP.FilePartPacket) returns (r: Result<nat, IoError>)
    requires |p.data| <= BUFFER_SIZE
    modifies socket
    ensures (r, socket.State()) == DT.SendRetry(old(socket.State()), PartFrame(tag, p), DT.PACKET_TRY_TIMES, Other)
  {
    var filePart := FPP.Serialize(p);
    var dataPacket := DP.Serialize(DP.DataPacket(tag, filePart));
    r := DT.SendDataWithRetry(socket, dataPacket);
  }

  /** The chunk loop over a session socket. */
  method SendChunks(socket: Socket, id: u8, size: u64, tag: u16, fileReads: seq<FileRead>) returns (statuses: seq<StatusReport>)
    modifies socket
    ensures (statuses, socket.State()) == ChunkLoopSpec(old(socket.State()), id, size, tag, DT.PACKET_TRY_TIMES, fileReads, 0)
  {
    ghost var spec := ChunkLoopSpec(socket.State(), id, size, tag, DT.PACKET_TRY_TIMES, fileReads, 0);
    var offset: u32 := 0;
    statuses := [];
    var i := 0;
    assert fileReads[i..] == fileReads;
    while i < |fileReads|
      invariant i <= |fileReads|
      invariant spec.0 == statuses + ChunkLoopSpec(socket.State(), id, size, tag, DT.PACKET_TRY_TIMES, fileReads[i..], offset).0
      invariant spec.1 == ChunkLoopSpec(socket.State(), id, size, tag, DT.PACKET_TRY_TIMES, fileReads[i..], offset).1
      decreases |fileReads| - i
    {
      var done, out, next := ChunkTurn(socket, id, size, tag, fileReads[i..], offset);
      assert fileReads[i..][1..] == fileReads[i + 1..];
      statuses := statuses + out;
      if done {
        return;
      }
      offset := next;
      i := i + 1;
    }
    assert fileReads[i..] == [] && statuses + [] == statuses;
  }

  /** One turn of the chunk loop: read, and either leave the loop or send
      the part and report its progress. */
  method ChunkTurn(socket: Socket, id: u8, size: u64, tag: u16, fileReads: seq<FileRead>, offset: u32)
    returns (done: bool, out: seq<StatusReport>, next: u32)
    requires fileReads != []
    modifies socket
    ensures var spec := ChunkLoopSpec(old(socket.State()), id, size, tag, DT.PACKET_TRY_TIMES, fileReads, offset);
      var tail := ChunkLoopSpec(socket.State(), id, size, tag, DT.PACKET_TRY_TIMES, fileReads[1..], next);
      if done then spec == (out, socket.State()) else spec == (out + tail.0, tail.1)
  {
    LoopStep(socket.State(), id, size, tag, DT.PACKET_TRY_TIMES, fileReads, offset);
    next := offset;
    if fileReads[0].ReadFailed? {
      return true, [StatusReport(id, 0, size, Error)], next;
    }
    var b := fileReads[0].bytes;
    if |b| == 0 {
      return true, [], next;
    }
    var sent := SendPart(socket, tag, FPP.FilePartPacket(id, offset, |b|, b));
    if sent.Err? {
      return true, [StatusReport(id, 0, size, Error)], next;
    }
    return false, [StatusReport(id, offset, size, InProgress)], AsU32(offset + |b|);
  }

  /** `handle` with the session's socket. */
  method Handle(data: Bytes, source: SocketAddr, tag: u16, fileOpens: bool, fileReads: seq<FileRead>,
                connects: bool, socket: Socket) returns (statuses: seq<StatusReport>)
    modifies socket
    ensures (statuses, socket.State()) == HandleSpec(data, source, tag, fileOpens, fileReads, connects, old(socket.State()))
  {
    var decoded := FRRP.Deserialize(data);
    if decoded.Err? {
      return [];
    }
    var p := decoded.value;
    var requested := StatusReport(p.file_id, 0, p.file_size, Requested);
    if source.ip.V6? {
      return [requested, StatusReport(p.file_id, 0, p.file_size, Error)];
    }
    if !p.accepted {
      return [requested, StatusReport(p.file_id, 0, p.file_size, Rejected)];
    }
    var accepted := StatusReport(p.file_id, 0, p.file_size, Accepted);
    if !fileOpens || !connects {
      return [requested, accepted, StatusReport(p.file_id, 0, p.file_size, Error)];
    }
    var inLoop := SendChunks(socket, p.file_id, p.file_size, tag, fileReads);
    statuses := [requested, accepted] + inLoop + [StatusReport(p.file_id, 0, p.file_size, Completed)];
  }
}
