/** The HTTP range path: which response a request gets, and the chunk loop that delivers its body. */
module HttpRangeServer {
  import opened Arithmetic
  import opened Results
  import opened Decimal
  import opened TorrentLayout
  import opened ByteRangeMapping
  import opened PieceAvailability
  import opened ReadProtocol
  import opened ReadVerdicts
  import opened RangeParser
  import opened Rfc7233
  import opened ByteSources

  const CHUNK_SIZE: int := 65536

  datatype HttpMethod = Get | Head | Other

  const NOT_ALLOWED := "Method not allowed"
  const NOT_SATISFIABLE := "Range Not Satisfiable"

  /** What follows the header: nothing, a short text, or a range of the file. */
  datatype Body = NoBody | Text(text: string) | FileRange(offset: int, length: int)

  /** The parts of a response that depend on method and range: status, Content-Length, Content-Range, the range reported
      to the scheduler, and the body. */
  datatype Response = Response(
    status: int,
    contentLength: int,
    contentRange: string,
    notify: Option<ByteRange>,
    body: Body)

  function ContentRange(r: ByteRange, size: nat): string
    requires 0 <= r.start <= r.end
  {
    "bytes " + Print(r.start) + "-" + Print(r.end) + "/" + Print(size)
  }

  /** The answer to a range header that has been parsed. A rejected one is answered with a text, whatever the method. */
  function RespondToRange(verb: HttpMethod, range: Option<ByteRange>, size: nat): Response
    requires range.Some? ==> 0 <= range.value.start <= range.value.end
  {
    match range
    case None => Response(416, |NOT_SATISFIABLE|, "bytes */" + Print(size), None, Text(NOT_SATISFIABLE))
    case Some(r) =>
      var length := r.end - r.start + 1;
      Response(206, length, ContentRange(r, size), Some(r), if verb == Head then NoBody else FileRange(r.start, length))
  }

  /** handle_connection once the stream has been found. */
  function Respond(verb: HttpMethod, rangeHeader: Option<string>, size: nat): Response {
    if verb == Other then Response(405, |NOT_ALLOWED|, "", None, Text(NOT_ALLOWED))
    else if rangeHeader == None then
      Response(200, size, "", Some(ByteRange(0, size - 1)), if verb == Head then NoBody else FileRange(0, size))
    else RespondToRange(verb, Parse(rangeHeader.value, size), size)
  }

  datatype StreamEnd = Finished | ReadFailed(error: Error) | WriteFailed

  /** Reads of 64 KB that bring in `have` bytes of a range of `length`. */
  function ReadsFor(have: nat, length: nat): nat
    requires have <= length
  {
    if have == length then (have + CHUNK_SIZE - 1) / CHUNK_SIZE else have / CHUNK_SIZE + 1
  }

  /** What the disk holds of a range. */
  ghost function HeldOf(disk: Option<seq<Byte>>, start: nat, length: nat): seq<Byte> {
    if disk == None then [] else DiskSlice(disk.value, start, length)
  }

  /** One byte for each character of a text. */
  function TextBytes(text: string): (r: seq<Byte>)
    ensures |r| == |text|
    ensures forall k :: 0 <= k < |text| && text[k] as int < 256 ==> r[k] == text[k] as int
  {
    seq(|text|, i requires 0 <= i < |text| => text[i] as int % 256)
  }

  /** The bytes of a body, as far as the disk has them. */
  ghost function BodyBytes(body: Body, disk: Option<seq<Byte>>): seq<Byte>
    requires body.FileRange? ==> 0 <= body.offset && 0 <= body.length
  {
    match body
    case NoBody => []
    case Text(text) => TextBytes(text)
    case FileRange(offset, length) => HeldOf(disk, offset, length)
  }

  // ----- Streaming

  /** `have` bytes are what so many full chunks bring in, or part of it. */
  ghost predicate Covers(chunks: int, have: int) { have <= chunks * CHUNK_SIZE }

  /** The bytes of the c-th chunk of a range. */
  function ChunkRange(start: nat, length: nat, c: nat): ByteRange {
    ByteRange(start + c * CHUNK_SIZE, start + Min(length, c * CHUNK_SIZE + CHUNK_SIZE) - 1)
  }

  /** A read of a run: its reader, the state it began in and the state it returned in. */
  datatype ReadInRun = ReadInRun(reader: ReaderId, begin: nat, end: nat)

  ghost predicate ChunkWaits(ss: seq<State>, ts: seq<Step>, m: ByteRangeMapper, range: ByteRange, read: ReadInRun,
                             verdict: Verdict)
    requires m.Valid() && InFile(m, range)
  {
    && ReadsRange(ss, ts, read.reader, read.begin, read.end, m, range)
    && ss[read.end].readers[read.reader].pc.verdict == verdict
  }

  /** The outcomes of the waits for the chunks of the first `have` bytes of a range are those of reads of the run. */
  ghost predicate StreamWaits(ss: seq<State>, ts: seq<Step>, m: ByteRangeMapper, start: nat, length: nat, have: nat,
                              waits: nat -> Verdict, done: seq<ReadInRun>)
    requires m.Valid() && have <= length && start + length <= m.FileSize()
  {
    && IsRun(ss, ts)
    && forall c: nat :: c < |done| && c * CHUNK_SIZE < have ==>
         ChunkWaits(ss, ts, m, ChunkRange(start, length, c), done[c], waits(c))
  }

  /** File byte k is in a piece that the index has, and libtorrent has finished, when the run ends. */
  ghost predicate ArrivedByte(ss: seq<State>, ts: seq<Step>, m: ByteRangeMapper, k: nat)
    requires m.Valid() && |ss| == |ts| + 1
  {
    && ByteComplete(ss[|ts|].bits, m.layout, m.FileOffset() + k)
    && m.PieceOfByte(k) in ss[|ts|].finished
  }

  /** In every run whose reads account for the waits, the first `have` bytes of the range lie in finished pieces. */
  ghost predicate ArrivedInEveryRun(m: ByteRangeMapper, start: nat, length: nat, have: nat, waits: nat -> Verdict)
    requires m.Valid() && have <= length && start + length <= m.FileSize()
  {
    forall ss, ts, done ::
      StreamWaits(ss, ts, m, start, length, have, waits, done) && have <= |done| * CHUNK_SIZE ==>
        forall k: nat :: start <= k < start + have ==> ArrivedByte(ss, ts, m, k)
  }

  /** The first waits succeeded. */
  ghost predicate AllWaited(waits: nat -> Verdict, chunks: nat) {
    forall c: nat :: c < chunks ==> waits(c) == Verdict.Read
  }

  lemma ChunkOfByte(start: nat, length: nat, k: nat, m: ByteRangeMapper) returns (c: nat)
    requires m.Valid() && k < length && start + length <= m.FileSize()
    ensures c * CHUNK_SIZE <= k && InFile(m, ChunkRange(start, length, c))
    ensures ChunkRange(start, length, c).start <= start + k <= ChunkRange(start, length, c).end
  {
    c := k / CHUNK_SIZE;
  }

  lemma ChunkArrived(ss: seq<State>, ts: seq<Step>, m: ByteRangeMapper, range: ByteRange, read: ReadInRun, k: nat)
    requires m.Valid() && InFile(m, range) && ChunkWaits(ss, ts, m, range, read, Verdict.Read)
    requires range.start <= k <= range.end
    ensures ArrivedByte(ss, ts, m, k)
  {
    ReadsOnlyFinishedBytes(ss, ts, read.reader, read.end, m, range);
    var b: nat := m.FileOffset() + k;
    assert ByteComplete(ss[read.end].bits, m.layout, b) && m.layout.PieceOf(b) in ss[read.end].finished;
    RunIsLater(ss, ts, read.end, |ts|);
  }

  /** So a stream whose waits succeeded delivers only bytes of finished pieces. */
  lemma StreamedBytesArrived(m: ByteRangeMapper, start: nat, length: nat, have: nat, waits: nat -> Verdict, chunks: nat)
    requires m.Valid() && have <= length && start + length <= m.FileSize()
    requires AllWaited(waits, chunks) && Covers(chunks, have)
    ensures ArrivedInEveryRun(m, start, length, have, waits)
  {
    forall ss, ts, done |
      StreamWaits(ss, ts, m, start, length, have, waits, done) && have <= |done| * CHUNK_SIZE
      ensures forall k: nat :: start <= k < start + have ==> ArrivedByte(ss, ts, m, k)
    {
      forall k: nat | start <= k < start + have ensures ArrivedByte(ss, ts, m, k) {
        var c := ChunkOfByte(start, length, k - start, m);
        assert waits(c) == Verdict.Read;
        ChunkArrived(ss, ts, m, ChunkRange(start, length, c), done[c], k);
      }
    }
  }

  lemma PartOfPrefix(written: seq<Byte>, data: seq<Byte>, sent: nat, goal: seq<Byte>)
    requires written + data <= goal && sent <= |data|
    ensures written + data[..sent] <= goal
  {
    assert written + data[..sent] == (written + data)[..|written| + sent];
  }

  // ----- What a transfer depends on

  /** How the wait of each read ends, whether the peer takes the header, and how many bytes it takes at most of each
      write after it. */
  datatype Transfer = Transfer(waits: nat -> Verdict, headerTaken: bool, takes: nat -> nat)

  /** What the c-th read of a range gets. */
  ghost function ReadOf(cancelled: bool, disk: Option<seq<Byte>>, start: nat, length: nat, t: Transfer, c: nat)
    : Result<seq<Byte>>
    requires c * CHUNK_SIZE < length
  {
    Outcome(if cancelled then WasCancelled else t.waits(c), disk, start + c * CHUNK_SIZE,
            Min(CHUNK_SIZE, length - c * CHUNK_SIZE))
  }

  /** The c-th chunk is read, and the peer takes all of it. */
  ghost predicate Went(cancelled: bool, disk: Option<seq<Byte>>, start: nat, length: nat, t: Transfer, c: nat) {
    c * CHUNK_SIZE < length ==>
      var r := ReadOf(cancelled, disk, start, length, t, c);
      r.Ok? && |r.value| <= t.takes(c)
  }

  /** The first chunks all are. */
  ghost predicate AllWent(cancelled: bool, disk: Option<seq<Byte>>, start: nat, length: nat, t: Transfer, chunks: nat) {
    forall c: nat :: c < chunks ==> Went(cancelled, disk, start, length, t, c)
  }

  /** A stream ends as it does for a reason: it finishes with the header and every chunk taken, fails to write where the
      peer takes too little, and fails to read where a read fails, with that read's error. */
  ghost predicate EndsFor(cancelled: bool, disk: Option<seq<Byte>>, start: nat, length: nat, t: Transfer,
                          chunks: nat, have: nat, end: StreamEnd)
  {
    match end
    case Finished => t.headerTaken && AllWent(cancelled, disk, start, length, t, chunks)
    case WriteFailed =>
      if !t.headerTaken then chunks == 0 && have == 0
      else
        && 0 < chunks && (chunks - 1) * CHUNK_SIZE < length
        && var r := ReadOf(cancelled, disk, start, length, t, chunks - 1);
        && r.Ok? && t.takes(chunks - 1) < |r.value| && have == (chunks - 1) * CHUNK_SIZE + t.takes(chunks - 1)
    case ReadFailed(error) =>
      && t.headerTaken && chunks * CHUNK_SIZE == have < length
      && ReadOf(cancelled, disk, start, length, t, chunks) == Err(error)
  }

  /** All reads it takes to bring in what the disk holds of the range go well. */
  ghost predicate GoesThrough(cancelled: bool, disk: Option<seq<Byte>>, start: nat, length: nat, t: Transfer) {
    && t.headerTaken
    && AllWent(cancelled, disk, start, length, t, ReadsFor(|HeldOf(disk, start, length)|, length))
  }

  lemma HeldIsNoLonger(disk: Option<seq<Byte>>, start: nat, length: nat)
    ensures |HeldOf(disk, start, length)| <= length
  {
  }

  lemma StillToRead(held: nat, length: nat, c: nat)
    requires c * CHUNK_SIZE < length && c * CHUNK_SIZE <= held <= length
    ensures c < ReadsFor(held, length)
  {
  }

  /** Between reads: whole chunks so far, or all of the range in just as many reads as it takes. */
  ghost predicate Counted(have: nat, length: nat, chunks: nat) {
    && have <= length
    && (have < length ==> have == chunks * CHUNK_SIZE)
    && (have == length ==> chunks == ReadsFor(length, length))
  }

  lemma CountedCovers(have: nat, length: nat, chunks: nat)
    requires Counted(have, length, chunks)
    ensures Covers(chunks, have)
  {
  }

  lemma CountOneMore(have: nat, more: nat, length: nat, chunks: nat)
    requires have < length && Counted(have, length, chunks) && more <= Min(CHUNK_SIZE, length - have)
    ensures Covers(chunks + 1, have + more)
    ensures if more == Min(CHUNK_SIZE, length - have) then Counted(have + more, length, chunks + 1)
            else ReadsFor(have + more, length) == chunks + 1
  {
  }

  /** Between reads: what has been written is a prefix of the goal, from waits that succeeded, in whole chunks. */
  ghost predicate Underway(goal: seq<Byte>, length: nat, waits: nat -> Verdict, written: seq<Byte>, chunks: nat) {
    written <= goal && Counted(|written|, length, chunks) && AllWaited(waits, chunks)
  }

  lemma UnderwayOneMore(goal: seq<Byte>, length: nat, waits: nat -> Verdict, written: seq<Byte>, sent: seq<Byte>,
                        chunks: nat)
    requires Underway(goal, length, waits, written, chunks) && |written| < length
    requires waits(chunks) == Verdict.Read && written + sent <= goal && |sent| <= Min(CHUNK_SIZE, length - |written|)
    ensures AllWaited(waits, chunks + 1) && Covers(chunks + 1, |written + sent|)
    ensures if |sent| == Min(CHUNK_SIZE, length - |written|)
            then Underway(goal, length, waits, written + sent, chunks + 1)
            else ReadsFor(|written + sent|, length) == chunks + 1
  {
    CountOneMore(|written|, |sent|, length, chunks);
  }

  lemma OneMoreWent(cancelled: bool, disk: Option<seq<Byte>>, start: nat, length: nat, t: Transfer, chunks: nat)
    requires AllWent(cancelled, disk, start, length, t, chunks) && Went(cancelled, disk, start, length, t, chunks)
    ensures AllWent(cancelled, disk, start, length, t, chunks + 1)
  {
  }

  /** All that is known between reads: what has gone out, and that everything it took went well. */
  ghost predicate OnTheWay(cancelled: bool, disk: Option<seq<Byte>>, start: nat, length: nat, t: Transfer,
                           written: seq<Byte>, chunks: nat)
  {
    && t.headerTaken
    && Underway(HeldOf(disk, start, length), length, t.waits, written, chunks)
    && AllWent(cancelled, disk, start, length, t, chunks)
  }

  /** What a stream has done when it ends. */
  ghost predicate Streamed(cancelled: bool, disk: Option<seq<Byte>>, start: nat, length: nat, t: Transfer,
                           written: seq<Byte>, chunks: nat, end: StreamEnd)
  {
    && |written| <= length
    && written <= HeldOf(disk, start, length)
    && (end == Finished ==> written == HeldOf(disk, start, length) && chunks == ReadsFor(|written|, length))
    && AllWaited(t.waits, chunks) && Covers(chunks, |written|)
    && EndsFor(cancelled, disk, start, length, t, chunks, |written|, end)
  }

  /** One turn of the loop, the read getting r: `sent` goes out, and `stop` says whether and how the stream ends there.
      */
  ghost predicate Turn(r: Result<seq<Byte>>, t: Transfer, chunks: nat, full: nat, sent: seq<Byte>,
                       stop: Option<StreamEnd>)
  {
    match r
    case Err(e) => stop == Some(ReadFailed(e)) && sent == []
    case Ok(data) =>
      && sent == data[..Min(t.takes(chunks), |data|)]
      && stop == if t.takes(chunks) < |data| then Some(WriteFailed) else if |data| < full then Some(Finished) else None
  }

  /** Reads a chunk and writes it as far as the peer takes it. */
  method SendChunk(src: ByteSource, offset: int, chunkLen: int, t: Transfer, chunks: nat, ghost written: seq<Byte>,
                   ghost start: nat, ghost length: nat)
    returns (sent: seq<Byte>, stop: Option<StreamEnd>)
    requires src.Valid() && start + length <= src.mapper.FileSize()
    requires |written| < length && Counted(|written|, length, chunks) && written <= HeldOf(src.disk, start, length)
    requires offset == start + |written| && chunkLen == Min(CHUNK_SIZE, length - |written|)
    ensures Turn(ReadOf(src.cancelled, src.disk, start, length, t, chunks), t, chunks, chunkLen, sent, stop)
  {
    var r := src.Read(offset, chunkLen, t.waits(chunks));
    if r.Err? {
      return [], Some(ReadFailed(r.error));
    }
    var takes := t.takes(chunks);
    if takes < |r.value| {
      return r.value[..takes], Some(WriteFailed);
    }
    return r.value, if |r.value| < chunkLen then Some(Finished) else None;
  }

  /** What a read of the next chunk brings continues what has been written, and is short only where the range ends on
      disk. */
  lemma ReadContinues(cancelled: bool, disk: Option<seq<Byte>>, start: nat, length: nat, t: Transfer,
                      written: seq<Byte>, chunks: nat)
    requires |written| < length && Counted(|written|, length, chunks) && written <= HeldOf(disk, start, length)
    ensures var r, full := ReadOf(cancelled, disk, start, length, t, chunks), Min(CHUNK_SIZE, length - |written|);
      r.Ok? ==>
        && disk.Some? && t.waits(chunks) == Verdict.Read && |r.value| <= full
        && written + r.value <= HeldOf(disk, start, length)
        && (|r.value| < full ==> written + r.value == HeldOf(disk, start, length))
  {
  }

  lemma TurnReadFailed(cancelled: bool, disk: Option<seq<Byte>>, start: nat, length: nat, t: Transfer,
                       written: seq<Byte>, chunks: nat)
    requires OnTheWay(cancelled, disk, start, length, t, written, chunks) && |written| < length
    requires ReadOf(cancelled, disk, start, length, t, chunks).Err?
    ensures Streamed(cancelled, disk, start, length, t, written, chunks,
                     ReadFailed(ReadOf(cancelled, disk, start, length, t, chunks).error))
  {
    CountedCovers(|written|, length, chunks);
  }

  lemma TurnWriteFailed(cancelled: bool, disk: Option<seq<Byte>>, start: nat, length: nat, t: Transfer,
                        written: seq<Byte>, chunks: nat, data: seq<Byte>)
    requires OnTheWay(cancelled, disk, start, length, t, written, chunks) && |written| < length
    requires ReadOf(cancelled, disk, start, length, t, chunks) == Ok(data) && t.takes(chunks) < |data|
    ensures Streamed(cancelled, disk, start, length, t, written + data[..t.takes(chunks)], chunks + 1, WriteFailed)
  {
    var goal, sent := HeldOf(disk, start, length), data[..t.takes(chunks)];
    ReadContinues(cancelled, disk, start, length, t, written, chunks);
    PartOfPrefix(written, data, t.takes(chunks), goal);
    UnderwayOneMore(goal, length, t.waits, written, sent, chunks);
  }

  lemma TurnTaken(cancelled: bool, disk: Option<seq<Byte>>, start: nat, length: nat, t: Transfer,
                  written: seq<Byte>, chunks: nat, data: seq<Byte>)
    requires OnTheWay(cancelled, disk, start, length, t, written, chunks) && |written| < length
    requires ReadOf(cancelled, disk, start, length, t, chunks) == Ok(data) && |data| <= t.takes(chunks)
    ensures if |data| < Min(CHUNK_SIZE, length - |written|)
            then Streamed(cancelled, disk, start, length, t, written + data, chunks + 1, Finished)
            else |written + data| <= length && OnTheWay(cancelled, disk, start, length, t, written + data, chunks + 1)
  {
    ReadContinues(cancelled, disk, start, length, t, written, chunks);
    UnderwayOneMore(HeldOf(disk, start, length), length, t.waits, written, data, chunks);
    OneMoreWent(cancelled, disk, start, length, t, chunks);
  }

  /** After a turn the stream has ended, for a reason, or is still on its way. */
  lemma TurnMeaning(cancelled: bool, disk: Option<seq<Byte>>, start: nat, length: nat, t: Transfer,
                    written: seq<Byte>, chunks: nat, sent: seq<Byte>, stop: Option<StreamEnd>)
    requires OnTheWay(cancelled, disk, start, length, t, written, chunks) && |written| < length
    requires Turn(ReadOf(cancelled, disk, start, length, t, chunks), t, chunks, Min(CHUNK_SIZE, length - |written|),
                  sent, stop)
    ensures match stop
      case None =>
        |written + sent| <= length && OnTheWay(cancelled, disk, start, length, t, written + sent, chunks + 1)
      case Some(end) =>
        Streamed(cancelled, disk, start, length, t, written + sent, if end.ReadFailed? then chunks else chunks + 1, end)
  {
    match ReadOf(cancelled, disk, start, length, t, chunks)
    case Err(_) =>
      assert written + sent == written;
      TurnReadFailed(cancelled, disk, start, length, t, written, chunks);
    case Ok(data) =>
      if t.takes(chunks) < |data| {
        TurnWriteFailed(cancelled, disk, start, length, t, written, chunks, data);
      } else {
        assert sent == data;
        TurnTaken(cancelled, disk, start, length, t, written, chunks, data);
      }
  }

  lemma NothingYet(cancelled: bool, disk: Option<seq<Byte>>, start: nat, length: nat, t: Transfer)
    ensures if t.headerTaken then OnTheWay(cancelled, disk, start, length, t, [], 0)
            else Streamed(cancelled, disk, start, length, t, [], 0, WriteFailed)
  {
  }

  lemma AllSent(cancelled: bool, disk: Option<seq<Byte>>, start: nat, length: nat, t: Transfer, written: seq<Byte>,
                chunks: nat)
    requires OnTheWay(cancelled, disk, start, length, t, written, chunks) && |written| == length
    ensures Streamed(cancelled, disk, start, length, t, written, chunks, Finished)
  {
    CountedCovers(|written|, length, chunks);
    HeldIsNoLonger(disk, start, length);
  }

  /** Streams a range chunk by chunk. What goes out is a prefix of the range and lies in finished pieces; the stream
      ends as it does for a reason, and finishes exactly when every read and write it takes goes well, with all the disk
      holds of the range sent. Every read stays inside the file. */
  method StreamBody(src: ByteSource, start: int, length: int, t: Transfer)
    returns (written: seq<Byte>, chunks: nat, end: StreamEnd)
    requires src.Valid() && 0 <= start && 0 <= length && start + length <= src.mapper.FileSize()
    ensures |written| <= length
    ensures written <= HeldOf(src.disk, start, length)
    ensures end == Finished ==> written == HeldOf(src.disk, start, length) && chunks == ReadsFor(|written|, length)
    ensures AllWaited(t.waits, chunks) && Covers(chunks, |written|)
    ensures EndsFor(src.cancelled, src.disk, start, length, t, chunks, |written|, end)
  {
    written, chunks := [], 0;
    NothingYet(src.cancelled, src.disk, start, length, t);
    if !t.headerTaken {
      return written, chunks, WriteFailed;
    }
    var offset, remaining := start, length;
    while remaining > 0
      invariant 0 <= remaining <= length && offset == start + |written| && |written| == length - remaining
      invariant OnTheWay(src.cancelled, src.disk, start, length, t, written, chunks)
      decreases remaining
    {
      var chunkLen := Min(CHUNK_SIZE, remaining);
      var sent, stop := SendChunk(src, offset, chunkLen, t, chunks, written, start, length);
      TurnMeaning(src.cancelled, src.disk, start, length, t, written, chunks, sent, stop);
      written := written + sent;
      if stop.Some? && stop.value.ReadFailed? {
        return written, chunks, stop.value;
      }
      chunks := chunks + 1;
      if stop.Some? {
        return written, chunks, stop.value;
      }
      remaining := remaining - |sent|;
      offset := offset + |sent|;
    }
    AllSent(src.cancelled, src.disk, start, length, t, written, chunks);
    end := Finished;
  }

  lemma SomethingFailed(cancelled: bool, disk: Option<seq<Byte>>, start: nat, length: nat, t: Transfer,
                        chunks: nat, have: nat, end: StreamEnd)
    requires EndsFor(cancelled, disk, start, length, t, chunks, have, end) && end != Finished
    requires have <= |HeldOf(disk, start, length)|
    ensures !GoesThrough(cancelled, disk, start, length, t)
  {
    HeldIsNoLonger(disk, start, length);
    var held := |HeldOf(disk, start, length)|;
    if t.headerTaken {
      var c := if end == WriteFailed then chunks - 1 else chunks;
      StillToRead(held, length, c);
      assert !Went(cancelled, disk, start, length, t, c);
    }
  }

  // ----- Serving

  /** A short text goes out as far as the peer takes it. */
  method SendText(text: string, t: Transfer) returns (written: seq<Byte>, end: StreamEnd)
    ensures written == if t.headerTaken then TextBytes(text)[..Min(t.takes(0), |text|)] else []
    ensures end == if t.headerTaken && t.takes(0) >= |text| then Finished else WriteFailed
  {
    if !t.headerTaken {
      return [], WriteFailed;
    }
    written := TextBytes(text)[..Min(t.takes(0), |text|)];
    end := if t.takes(0) < |text| then WriteFailed else Finished;
  }

  /** What a response with a file range announces. */
  ghost predicate Announces(resp: Response, size: nat) {
    && resp.body.FileRange? && resp.notify.Some?
    && resp.body.offset == resp.notify.value.start
    && resp.body.length == resp.contentLength == resp.notify.value.end - resp.notify.value.start + 1
    && 0 <= resp.body.offset && 0 <= resp.body.length && resp.body.offset + resp.body.length <= size
    && (if size > 0 then 0 <= resp.notify.value.start <= resp.notify.value.end < size
        else resp.notify.value == ByteRange(0, -1))
  }

  lemma FileRangeIsAnnounced(verb: HttpMethod, rangeHeader: Option<string>, size: nat)
    requires Respond(verb, rangeHeader, size).body.FileRange?
    ensures Announces(Respond(verb, rangeHeader, size), size)
  {
  }

  /** What has gone out when nothing failed: exactly the announced bytes, in so many reads of 65536, when the range ends
      within the file on disk, and fewer when it does not. */
  ghost predicate SentInFull(disk: seq<Byte>, resp: Response, written: seq<Byte>, chunks: nat)
    requires resp.notify.Some? && 0 <= resp.notify.value.start <= resp.notify.value.end
  {
    if resp.notify.value.end < |disk| then
      && written == disk[resp.notify.value.start..resp.notify.value.end + 1] && |written| == resp.contentLength
      && chunks == (resp.contentLength + 65535) / 65536
    else |written| < resp.contentLength
  }

  /** Every wait succeeds and the peer takes all it is sent. */
  ghost predicate Undisturbed(t: Transfer) {
    t.headerTaken && forall c: nat :: t.waits(c) == Verdict.Read && t.takes(c) >= 65536
  }

  /** What has been sent of an announced range is a prefix of it, in finished pieces; and sending ends for a reason. */
  ghost predicate RangeServed(src: ByteSource, resp: Response, t: Transfer, written: seq<Byte>, chunks: nat,
                              end: StreamEnd)
    requires src.mapper.Valid()
    reads src
  {
    && Announces(resp, src.mapper.FileSize())
    && |written| <= resp.contentLength
    && ArrivedInEveryRun(src.mapper, resp.body.offset, resp.contentLength, |written|, t.waits)
    && EndsFor(src.cancelled, src.disk, resp.body.offset, resp.contentLength, t, chunks, |written|, end)
    && (end == Finished <==> GoesThrough(src.cancelled, src.disk, resp.body.offset, resp.contentLength, t))
    && (Undisturbed(t) && !src.cancelled && src.disk.Some? ==> end == Finished)
    && (end == Finished && src.mapper.FileSize() > 0 ==>
          src.disk.Some? && SentInFull(src.disk.value, resp, written, chunks))
  }

  /** All the disk holds of a range, against the range. */
  lemma HeldOfWhole(disk: seq<Byte>, r: ByteRange)
    requires 0 <= r.start <= r.end
    ensures var held := HeldOf(Some(disk), r.start, r.end - r.start + 1);
      && (|held| == r.end - r.start + 1 <==> r.end < |disk|)
      && (r.end < |disk| ==> held == disk[r.start..r.end + 1])
  {
  }

  /** Reads of 65536 bytes, rounded up. */
  lemma ReadsOfWhole(length: nat)
    ensures ReadsFor(length, length) == (length + 65535) / 65536
  {
  }

  /** Without a cancel, with the file there, every wait a success and a peer that takes all, nothing can go wrong. */
  lemma NothingFails(disk: seq<Byte>, start: nat, length: nat, t: Transfer)
    requires Undisturbed(t)
    ensures GoesThrough(false, Some(disk), start, length, t)
  {
    forall c: nat ensures Went(false, Some(disk), start, length, t, c) {
      assert t.waits(c) == Verdict.Read && t.takes(c) >= 65536;
    }
  }

  lemma WentInFull(src: ByteSource, resp: Response, t: Transfer, written: seq<Byte>, chunks: nat)
    requires src.mapper.Valid() && src.mapper.FileSize() > 0 && Announces(resp, src.mapper.FileSize())
    requires AllWent(src.cancelled, src.disk, resp.body.offset, resp.body.length, t, chunks)
    requires written == HeldOf(src.disk, resp.body.offset, resp.body.length)
    requires chunks == ReadsFor(|written|, resp.body.length)
    ensures src.disk.Some? && SentInFull(src.disk.value, resp, written, chunks)
  {
    HeldIsNoLonger(src.disk, resp.body.offset, resp.body.length);
    StillToRead(|written|, resp.body.length, 0);
    assert Went(src.cancelled, src.disk, resp.body.offset, resp.body.length, t, 0);
    HeldOfWhole(src.disk.value, resp.notify.value);
    ReadsOfWhole(resp.body.length);
  }

  /** The body of a response with a file range. */
  method ServeRange(src: ByteSource, resp: Response, t: Transfer)
    returns (written: seq<Byte>, chunks: nat, end: StreamEnd)
    requires src.Valid() && Announces(resp, src.mapper.FileSize())
    ensures RangeServed(src, resp, t, written, chunks, end)
    ensures written <= BodyBytes(resp.body, src.disk)
    ensures end == Finished ==> written == BodyBytes(resp.body, src.disk)
  {
    written, chunks, end := StreamBody(src, resp.body.offset, resp.body.length, t);
    StreamedBytesArrived(src.mapper, resp.body.offset, resp.body.length, |written|, t.waits, chunks);
    if Undisturbed(t) && !src.cancelled && src.disk.Some? {
      NothingFails(src.disk.value, resp.body.offset, resp.body.length, t);
    }
    if end == Finished && src.mapper.FileSize() > 0 {
      WentInFull(src, resp, t, written, chunks);
    }
    if end != Finished {
      SomethingFailed(src.cancelled, src.disk, resp.body.offset, resp.body.length, t, chunks, |written|, end);
    }
  }

  lemma TextIsAnnounced(verb: HttpMethod, rangeHeader: Option<string>, size: nat)
    requires Respond(verb, rangeHeader, size).body.Text?
    ensures Respond(verb, rangeHeader, size).contentLength == |Respond(verb, rangeHeader, size).body.text|
  {
  }

  /** A request from its header to its last byte. What goes out is a prefix of the body, and the whole of it, as far as
      the disk has it, exactly when header, reads and writes all go well. Of a file range that is exactly the announced
      bytes when, and only when, the range ends within the file on disk. An empty file has an empty body, and the range
      reported for it ends at -1. */
  method Serve(src: ByteSource, verb: HttpMethod, rangeHeader: Option<string>, t: Transfer)
    returns (resp: Response, written: seq<Byte>, chunks: nat, end: StreamEnd)
    requires src.Valid()
    ensures resp == Respond(verb, rangeHeader, src.mapper.FileSize())
    ensures resp.status in {200, 206, 405, 416}
    ensures resp.notify.Some? ==> 0 <= resp.notify.value.start
    ensures written <= BodyBytes(resp.body, src.disk)
    ensures end == Finished ==> written == BodyBytes(resp.body, src.disk)
    ensures resp.body.FileRange? ==> RangeServed(src, resp, t, written, chunks, end)
    ensures resp.body.Text? ==> (end == Finished <==> t.headerTaken && t.takes(0) >= resp.contentLength)
    ensures resp.body.NoBody? ==> (end == Finished <==> t.headerTaken)
    ensures end == Finished && resp.body.Text? ==> |written| == resp.contentLength
  {
    resp := Respond(verb, rangeHeader, src.mapper.FileSize());
    written, chunks := [], 0;
    match resp.body {
      case NoBody =>
        end := if t.headerTaken then Finished else WriteFailed;
      case Text(text) =>
        written, end := SendText(text, t);
        TextIsAnnounced(verb, rangeHeader, src.mapper.FileSize());
      case FileRange(_, _) =>
        FileRangeIsAnnounced(verb, rangeHeader, src.mapper.FileSize());
        written, chunks, end := ServeRange(src, resp, t);
    }
  }

  // ----- What a response means

  /** The response to a range header, given what the header parses to. */
  lemma ResponseToParsed(header: string, size: nat, r: Option<ByteRange>)
    requires r == Parse(header, size)
    ensures var resp := Respond(Get, Some(header), size);
      && Respond(Head, Some(header), size) == resp.(body := if r.Some? then NoBody else resp.body)
      && resp.notify == r
      && match r
         case None => resp == Response(416, |NOT_SATISFIABLE|, "bytes */" + Print(size), None, Text(NOT_SATISFIABLE))
         case Some(range) =>
           && resp.status == 206
           && resp.body == FileRange(range.start, resp.contentLength)
           && resp.contentLength == range.end - range.start + 1
           && 0 <= range.start <= range.end
           && resp.contentRange == ContentRange(range, size)
  {
  }

  lemma DropPrefix(prefix: string, a: string, b: string)
    ensures (prefix + a + "-" + b)[|prefix|..] == a + "-" + b
  {
    assert prefix + a + "-" + b == prefix + (a + "-" + b);
  }

  /** Content-Range carries the positions of the range in the very form a Range header would. */
  lemma ContentRangeIsPrintedRange(r: ByteRange, size: nat)
    requires 0 <= r.start <= r.end
    ensures ContentRange(r, size) == "bytes " + Render(ClosedRange(r))[|PREFIX|..] + "/" + Print(size)
  {
    var a, b := Print(r.start), Print(r.end);
    DropPrefix(PREFIX, a, b);
    assert "bytes " + a + "-" + b == "bytes " + (a + "-" + b);
  }

  /** The `length` bytes from `start` on are those the spec denotes. */
  ghost predicate IsDenoted(spec: RangeSpec, size: nat, start: int, length: int)
    requires InGrammar(spec)
  {
    forall b :: start <= b < start + length <==> Denotes(spec, size, b)
  }

  /** For a range of the grammar the response is the one RFC 7233 asks for (sections 4.1, 4.2 and 4.4), except that a
      last number beyond 64 bits is refused: the body is exactly the denoted bytes, and sending the positions of its
      Content-Range back asks for the same range. A HEAD gets the same header, and no body exactly when a GET would get
      a 206; otherwise it gets the text a GET gets, which section 4.3.2 of RFC 7231 rules out. */
  lemma ResponseFollowsRfc(spec: RangeSpec, size: nat, header: string)
    requires InGrammar(spec) && 0 < size <= INT64_MAX && header == Render(spec)
    ensures var resp := Respond(Get, Some(header), size);
      && resp.status == (if ValidSpec(spec) && Satisfiable(spec, size) && LastFits(spec) then 206 else 416)
      && var head := Respond(Head, Some(header), size);
      && head.(body := NoBody) == resp.(body := NoBody)
      && (head.body == NoBody <==> resp.status == 206)
      && (resp.status == 206 ==>
            && resp.notify.Some? && resp.body == FileRange(resp.notify.value.start, resp.contentLength)
            && IsDenoted(spec, size, resp.notify.value.start, resp.contentLength)
            && 0 <= resp.notify.value.start <= resp.notify.value.end
            && resp.contentRange == "bytes " + Render(ClosedRange(resp.notify.value))[|PREFIX|..] + "/" + Print(size)
            && Parse(Render(ClosedRange(resp.notify.value)), size) == resp.notify)
      && (resp.status == 416 ==>
            && resp.body == head.body == Text(NOT_SATISFIABLE) && resp.contentLength == |NOT_SATISFIABLE|
            && resp.notify == None && resp.contentRange == "bytes */" + Print(size))
  {
    var r := Parse(header, size);
    GrammarParsesAsRfc(spec, size);
    ResponseToParsed(header, size, r);
    if r.Some? {
      PrintedRangeParsesBack(r.value, size);
      ContentRangeIsPrintedRange(r.value, size);
    }
  }

  /** A HEAD gets no body exactly when it sends no Range header or one that parses; with any other it gets the body a
      GET gets. */
  lemma HeadIsBodylessIff(rangeHeader: Option<string>, size: nat)
    ensures var head, get := Respond(Head, rangeHeader, size), Respond(Get, rangeHeader, size);
      && (head.body == NoBody <==> rangeHeader == None || Parse(rangeHeader.value, size).Some?)
      && head == if head.body == NoBody then get.(body := NoBody) else get
  {
    if rangeHeader.Some? {
      ResponseToParsed(rangeHeader.value, size, Parse(rangeHeader.value, size));
    }
  }

  /** A HEAD for the bytes from a file's end on is answered with 21 bytes of text. */
  lemma RejectedHeadHasBody(size: nat)
    requires 0 < size <= INT64_MAX
    ensures var head := Respond(Head, Some(Render(OpenEnded(Print(size)))), size);
      && head.status == 416 && head.body == Text(NOT_SATISFIABLE)
      && head.contentLength == |TextBytes(NOT_SATISFIABLE)| == 21
  {
    GrammarParsesAsRfc(OpenEnded(Print(size)), size);
    ResponseToParsed(Render(OpenEnded(Print(size))), size, None);
  }

  /** Without a Range header all of the file is announced, reported and, on a GET, sent; other methods get a 405 of 18
      bytes of text. */
  lemma UnrangedResponses(rangeHeader: Option<string>, size: nat)
    ensures Respond(Get, None, size) == Response(200, size, "", Some(ByteRange(0, size - 1)), FileRange(0, size))
    ensures Respond(Head, None, size) == Response(200, size, "", Some(ByteRange(0, size - 1)), NoBody)
    ensures Respond(Other, rangeHeader, size) == Response(405, 18, "", None, Text("Method not allowed"))
  {
  }

  /** A header in another unit, without a dash, with a comma, or for an empty file gets a 416, and the scheduler hears
      of nothing. */
  lemma OtherHeadersGet416(verb: HttpMethod, header: string, size: nat)
    requires verb != Other
    requires |header| < 6 || header[..6] != "bytes=" || ',' in header[6..] || '-' !in header[6..] || size == 0
    ensures Respond(verb, Some(header), size)
         == Response(416, 21, "bytes */" + Print(size), None, Text("Range Not Satisfiable"))
  {
    if Parse(header, size).Some? {
      AcceptedHasUnit(header, size);
    }
  }

  lemma OnlyRangesGet206(verb: HttpMethod, header: string, size: nat)
    requires Respond(verb, Some(header), size).status == 206
    ensures verb != Other && Parse(header, size).Some?
    ensures Respond(verb, Some(header), size).notify == Parse(header, size)
  {
  }

  /** Asking for the positions a 206 announces gets the very same response, whatever was asked in the first place: a
      suffix, an open end, an end past the file, or text no grammar has. */
  lemma AnnouncedRangeGetsSameResponse(verb: HttpMethod, header: string, size: nat)
    requires size <= INT64_MAX && Respond(verb, Some(header), size).status == 206
    ensures var resp := Respond(verb, Some(header), size);
      && resp.notify.Some? && 0 <= resp.notify.value.start <= resp.notify.value.end < size
      && Respond(verb, Some(Render(ClosedRange(resp.notify.value))), size) == resp
  {
    OnlyRangesGet206(verb, header, size);
    ParsePrintParse(header, size);
  }
}
