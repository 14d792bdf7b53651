/** A file's byte source: waits for the pieces of a range, then reads it from disk. The verdict of the wait is an input
    of Read, whose contract says what the result means in every run of ReadProtocol that has a reader with this verdict.
    */
module ByteSources {
  import opened Arithmetic
  import opened Results
  import opened TorrentLayout
  import opened ByteRangeMapping
  import opened PieceAvailability
  import opened ReadProtocol
  import opened ReadVerdicts

  type Byte = x: int | 0 <= x < 256

  /** What read_from_disk can get at an offset: up to len bytes, fewer past the end of the file on disk. */
  function DiskSlice(disk: seq<Byte>, offset: nat, len: nat): (r: seq<Byte>)
    ensures |r| == Max(0, Min(len, |disk| - offset))
    ensures forall k :: 0 <= k < |r| ==> r[k] == disk[offset + k]
  {
    if |disk| <= offset then [] else disk[offset..Min(offset + len, |disk|)]
  }

  /** What a read returns after a wait with the given verdict. */
  function Outcome(verdict: Verdict, disk: Option<seq<Byte>>, offset: nat, len: nat): Result<seq<Byte>> {
    match verdict
    case WasCancelled => Err(Cancelled)
    case TimedOut => Err(TimeoutWaitingForPiece)
    case Read =>
      match disk
      case None => Err(IoError)
      case Some(d) => Ok(DiskSlice(d, offset, len))
  }

  /** Every byte of the range is in a piece that is complete in the index and finished by libtorrent. */
  ghost predicate Arrived(s: State, m: ByteRangeMapper, range: ByteRange)
    requires m.Valid()
  {
    forall c: nat :: m.FileOffset() + range.start <= c <= m.FileOffset() + range.end ==>
      ByteComplete(s.bits, m.layout, c) && m.layout.PieceOf(c) in s.finished
  }

  /** Reader r of a range of a file, whose read began at state k, returns at state i. */
  ghost predicate ReadsRange(ss: seq<State>, ts: seq<Step>, r: ReaderId, k: nat, i: nat, m: ByteRangeMapper,
                             range: ByteRange)
    requires m.Valid() && InFile(m, range)
  {
    && IsRun(ss, ts) && k <= i < |ss|
    && r in ss[k].readers && ss[k].readers[r].pc == Entering
    && r in ss[i].readers && ss[i].readers[r].pc.Returned?
    && ss[i].readers[r].first == m.Map(range).first && ss[i].readers[r].last == m.Map(range).last
  }

  /** Reader r began its wait at step k, and step b found piece p missing no earlier than its timeout after that. */
  ghost predicate RanOut(ss: seq<State>, ts: seq<Step>, r: ReaderId, k: nat, b: nat, p: int)
    requires |ss| == |ts| + 1
  {
    && WaitBegan(ss, ts, r, k) && k < b && FoundMissing(ss, ts, r, b, p)
    && r in ss[0].readers && ss[b].now >= ss[k].now + ss[0].readers[r].timeout
  }

  /** A result is justified by the run up to state i: bytes come only from pieces that have arrived, `cancelled` only
      after a cancel, `timeout` only if a piece was found missing when the timeout had passed since the wait began, an
      I/O error only if all was there but the file could not be opened. */
  ghost predicate Justified(result: Result<seq<Byte>>, ss: seq<State>, ts: seq<Step>, r: ReaderId, i: nat,
                            m: ByteRangeMapper, range: ByteRange, disk: Option<seq<Byte>>)
    requires m.Valid() && |ss| == |ts| + 1 && i < |ss|
  {
    && (result.Ok? ==> disk.Some? && Arrived(ss[i], m, range))
    && (result == Err(IoError) ==> disk == None && Arrived(ss[i], m, range))
    && (result == Err(Cancelled) ==> exists j: nat :: j < i && ts[j] == CancelStore)
    && (result == Err(TimeoutWaitingForPiece) ==> exists k: nat, b: nat, p :: RanOut(ss, ts, r, k, b, p) && b < i)
  }

  /** In every run, what a reader's verdict makes of a read is justified, and a read that finds the flag up ends as its
      reader does. */
  lemma ReadTellsTheTruth(ss: seq<State>, ts: seq<Step>, r: ReaderId, k: nat, i: nat, m: ByteRangeMapper,
                          range: ByteRange, disk: Option<seq<Byte>>)
    requires m.Valid() && InFile(m, range) && ReadsRange(ss, ts, r, k, i, m, range)
    ensures var verdict := ss[i].readers[r].pc.verdict;
      && (ss[k].cancelled ==> verdict == WasCancelled)
      && Justified(Outcome(verdict, disk, range.start, range.end - range.start + 1), ss, ts, r, i, m, range, disk)
  {
    if ss[k].cancelled {
      CancelReachesEveryWait(ss, ts, r, k, i);
    }
    match ss[i].readers[r].pc.verdict {
      case Read =>
        ReadsOnlyFinishedBytes(ss, ts, r, i, m, range);
      case WasCancelled =>
        var j := CancelledOnlyAfterCancel(ss, ts, r, i);
      case TimedOut =>
        var began, a, b, c, p := TimeoutMeansMissing(ss, ts, r, i);
        RunIsLater(ss, ts, a, b);
        assert RanOut(ss, ts, r, began, b, p);
    }
  }

  /** The run has a reader of the range that found the flag as given and whose wait ended with the given verdict. */
  ghost predicate WaitsAs(ss: seq<State>, ts: seq<Step>, r: ReaderId, k: nat, i: nat, m: ByteRangeMapper,
                          range: ByteRange, cancelled: bool, verdict: Verdict)
    requires m.Valid() && InFile(m, range)
  {
    ReadsRange(ss, ts, r, k, i, m, range) && ss[k].cancelled == cancelled && ss[i].readers[r].pc.verdict == verdict
  }

  /** Every run with such a reader justifies the result. */
  ghost predicate JustifiedInEveryRun(result: Result<seq<Byte>>, m: ByteRangeMapper, range: ByteRange, cancelled: bool,
                                      verdict: Verdict, disk: Option<seq<Byte>>)
    requires m.Valid() && InFile(m, range)
  {
    forall ss, ts, r, k, i :: WaitsAs(ss, ts, r, k, i, m, range, cancelled, verdict) ==>
      Justified(result, ss, ts, r, i, m, range, disk)
  }

  lemma OutcomeIsJustified(m: ByteRangeMapper, range: ByteRange, cancelled: bool, verdict: Verdict,
                           disk: Option<seq<Byte>>)
    requires m.Valid() && InFile(m, range)
    ensures JustifiedInEveryRun(Outcome(if cancelled then WasCancelled else verdict, disk, range.start,
                                        range.end - range.start + 1),
                                m, range, cancelled, verdict, disk)
  {
    forall ss, ts, r, k, i | WaitsAs(ss, ts, r, k, i, m, range, cancelled, verdict)
      ensures cancelled ==> verdict == WasCancelled
      ensures Justified(Outcome(verdict, disk, range.start, range.end - range.start + 1), ss, ts, r, i, m, range, disk)
    {
      ReadTellsTheTruth(ss, ts, r, k, i, m, range, disk);
    }
  }

  class ByteSource {
    const mapper: ByteRangeMapper
    const avail: PieceAvailabilityIndex
    const disk: Option<seq<Byte>>  // contents of the file, None if it cannot be opened
    var cancelled: bool
    var notifications: nat  // notify_all calls on the condition variable so far

    ghost predicate Valid()
      reads this, avail, avail.completed
    {
      avail.Valid() && mapper.Valid()
    }

    constructor (mapper: ByteRangeMapper, avail: PieceAvailabilityIndex, disk: Option<seq<Byte>>)
      requires avail.Valid() && mapper.Valid()
      ensures Valid() && this.mapper == mapper && this.avail == avail && this.disk == disk
      ensures !cancelled && notifications == 0
    {
      this.mapper := mapper;
      this.avail := avail;
      this.disk := disk;
      cancelled, notifications := false, 0;
    }

    method NotifyPieceComplete()
      modifies this`notifications
      ensures notifications == old(notifications) + 1
    {
      notifications := notifications + 1;
    }

    /** Stores the flag, then notifies. */
    method Cancel()
      modifies this
      ensures cancelled && notifications == old(notifications) + 1
    {
      cancelled := true;
      notifications := notifications + 1;
    }

    function FileSize(): nat
      requires mapper.Valid()
    {
      mapper.FileSize()
    }

    /** A range is available exactly when each of its bytes lies in a complete piece. */
    method IsAvailable(offset: int, len: int) returns (r: bool)
      requires Valid() && InFile(mapper, ByteRange(offset, offset + len - 1))
      ensures r <==> forall c: nat :: mapper.FileOffset() + offset <= c < mapper.FileOffset() + offset + len ==>
                       ByteComplete(avail.Done(), mapper.layout, c)
    {
      var range := ByteRange(offset, offset + len - 1);
      r := avail.IsSpanComplete(mapper.Map(range));
      SpanCompleteIffBytesComplete(avail.Done(), mapper, range);
    }

    method ReadFromDisk(offset: nat, len: nat) returns (r: Result<seq<Byte>>)
      ensures r == match disk case None => Err(IoError) case Some(d) => Ok(DiskSlice(d, offset, len))
    {
      if disk == None {
        return Err(IoError);
      }
      return Ok(DiskSlice(disk.value, offset, len));
    }

    /** The bytes the disk holds of the range, or the reason there are none. */
    method Read(offset: int, len: int, waited: Verdict) returns (r: Result<seq<Byte>>)
      requires Valid() && InFile(mapper, ByteRange(offset, offset + len - 1))
      ensures r == Outcome(if cancelled then WasCancelled else waited, disk, offset, len)
      ensures r.Ok? <==> !cancelled && waited == Verdict.Read && disk.Some?
      ensures r.Ok? ==> r.value == DiskSlice(disk.value, offset, len)
      ensures r == Err(Cancelled) <==> cancelled || waited == WasCancelled
      ensures r == Err(TimeoutWaitingForPiece) <==> !cancelled && waited == TimedOut
      ensures r == Err(IoError) <==> !cancelled && waited == Verdict.Read && disk == None
      ensures JustifiedInEveryRun(r, mapper, ByteRange(offset, offset + len - 1), cancelled, waited, disk)
    {
      OutcomeIsJustified(mapper, ByteRange(offset, offset + len - 1), cancelled, waited, disk);
      if cancelled {
        return Err(Cancelled);
      }
      match waited {
        case WasCancelled => return Err(Cancelled);
        case TimedOut => return Err(TimeoutWaitingForPiece);
        case Read => r := ReadFromDisk(offset, len);
      }
    }
  }
}
