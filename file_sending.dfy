/** The local progress record of an outgoing file: `FileSendingStatus` with
    its one-byte code, and `FileSendingPacket`, whose status is updated in place. */
module FileSending {
  import opened Ints
  import opened Wrappers

  datatype FileSendingStatus =
    | Requested
    | Rejected
    | Accepted
    | InProgress
    | CancelledBySender
    | CancelledByReceiver
    | Completed
    | Error

  datatype FileSendingStatusError = InvalidStatus

  /** `to_u8`: the statuses are numbered 1 to 8 in declaration order. */
  function ToU8(s: FileSendingStatus): (v: u8)
    ensures 1 <= v <= 8
  {
    match s
    case Requested => 1
    case Rejected => 2
    case Accepted => 3
    case InProgress => 4
    case CancelledBySender => 5
    case CancelledByReceiver => 6
    case Completed => 7
    case Error => 8
  }

  /** `from_u8`: the status a code stands for; `InvalidStatus` outside 1..8. */
  function FromU8(v: u8): (r: Result<FileSendingStatus, FileSendingStatusError>)
    ensures r.Ok? <==> 1 <= v <= 8
    ensures r.Ok? ==> ToU8(r.value) == v
    ensures r.Err? ==> r.error == InvalidStatus
  {
    match v
    case 1 => Ok(Requested)
    case 2 => Ok(Rejected)
    case 3 => Ok(Accepted)
    case 4 => Ok(InProgress)
    case 5 => Ok(CancelledBySender)
    case 6 => Ok(CancelledByReceiver)
    case 7 => Ok(Completed)
    case 8 => Ok(Error)
    case _ => Err(InvalidStatus)
  }

  lemma FromU8ToU8(s: FileSendingStatus)
    ensures FromU8(ToU8(s)) == Ok(s)
  {
  }

  /** Distinct statuses have distinct codes. */
  lemma ToU8Injective(s: FileSendingStatus, t: FileSendingStatus)
    requires ToU8(s) == ToU8(t)
    ensures s == t
  {
    FromU8ToU8(s);
    FromU8ToU8(t);
  }

  class FileSendingPacket {
    var fileId: u8
    var progress: u64
    var total: u64
    var status: FileSendingStatus

    /** `FileSendingPacket::new` stores its arguments as given. */
    constructor (fileId: u8, progress: u64, total: u64, status: FileSendingStatus)
      ensures this.fileId == fileId && this.progress == progress
      ensures this.total == total && this.status == status
    {
      this.fileId := fileId;
      this.progress := progress;
      this.total := total;
      this.status := status;
    }

    /** `set_status` replaces the status and nothing else. */
    method SetStatus(status: FileSendingStatus)
      modifies this
      ensures this.status == status
      ensures fileId == old(fileId) && progress == old(progress) && total == old(total)
    {
      this.status := status;
    }
  }
}
