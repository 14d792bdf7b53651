/** The engine's state of one selected torrent: what selecting the file builds, and how alerts, requests and ticks act
    on it. Each acts as the matching steps of SchedulerRuns, so what holds of every run holds here. */
module Engine {
  import opened Results
  import opened TorrentLayout
  import opened ByteRangeMapping
  import opened PieceAvailability
  import opened SchedulerModel
  import opened StreamingSchedulers
  import opened SchedulerRuns
  import opened ByteSources

  /** Marks every piece the status snapshot has, and nothing else. */
  method Prepopulate(index: PieceAvailabilityIndex, snapshot: seq<bool>)
    requires index.Valid() && |snapshot| == index.numPieces && index.Done() == seq(|snapshot|, _ => false)
    modifies index`completedCount, index.completed
    ensures index.Valid() && index.Done() == snapshot
  {
    var p := 0;
    while p < |snapshot|
      invariant 0 <= p <= |snapshot| && index.Valid()
      invariant |index.Done()| == |snapshot|
      invariant forall q :: 0 <= q < |snapshot| ==> (index.Done()[q] <==> q < p && snapshot[q])
    {
      if snapshot[p] {
        index.MarkComplete(p);
      }
      p := p + 1;
    }
  }

  method CountComplete(avail: PieceAvailabilityIndex, first: int, end: int) returns (completed: nat)
    requires avail.Valid() && first <= end
    ensures completed == |CompleteIn(avail.Done(), first, end)| <= end - first
  {
    completed := 0;
    var p := first;
    assert CompleteIn(avail.Done(), first, first) == {};
    while p < end
      invariant first <= p <= end
      invariant completed == |CompleteIn(avail.Done(), first, p)| <= p - first
    {
      var complete := avail.IsComplete(p);
      assert CompleteIn(avail.Done(), first, p + 1)
          == CompleteIn(avail.Done(), first, p) + if complete then {p} else {};
      if complete {
        completed := completed + 1;
      }
      p := p + 1;
    }
  }

  lemma FirstBeforeEnd(m: ByteRangeMapper)
    requires m.Valid()
    ensures m.FirstPiece() <= m.EndPiece()
  {
    if 0 < m.FileSize() {
      SpanStaysInFile(m, ByteRange(0, 0));
    }
  }

  lemma {:induction false} AllComplete(done: seq<bool>, first: int, end: int)
    requires first <= end
    ensures |CompleteIn(done, first, end)| == end - first <==> forall p :: first <= p < end ==> Complete(done, p)
    ensures |CompleteIn(done, first, end)| <= end - first
    decreases end - first
  {
    var all := CompleteIn(done, first, end);
    if first == end {
      assert all == {};
    } else {
      AllComplete(done, first, end - 1);
      assert all == CompleteIn(done, first, end - 1) + if Complete(done, end - 1) then {end - 1} else {};
    }
  }

  /** The complete share of some pieces: zero of none, and 1 exactly when there are some and all are complete. */
  ghost predicate IsCompleteShare(done: seq<bool>, first: int, end: int, share: real) {
    && first <= end
    && share == Share(|CompleteIn(done, first, end)|, end - first)
    && (first < end ==> share * (end - first) as real == |CompleteIn(done, first, end)| as real)
    && 0.0 <= share <= 1.0
    && (share == 1.0 <==> first < end && forall p :: first <= p < end ==> Complete(done, p))
  }

  method CompleteShare(avail: PieceAvailabilityIndex, first: int, end: int) returns (share: real)
    requires avail.Valid() && first <= end
    ensures IsCompleteShare(avail.Done(), first, end, share)
  {
    var completed := CountComplete(avail, first, end);
    AllComplete(avail.Done(), first, end);
    ShareBounds(completed, end - first);
    share := if end > first then completed as real / (end - first) as real else 0.0;
  }

  class TorrentState {
    const avail: PieceAvailabilityIndex
    const mapper: ByteRangeMapper
    const source: ByteSource
    const scheduler: StreamingScheduler

    ghost predicate Valid()
      reads this, avail, avail.completed, scheduler, source
    {
      && mapper.Valid()
      && avail.Valid() && FitsLayout(avail.Done(), avail.geometry, mapper.layout)
      && scheduler.avail == avail && scheduler.mapper == mapper
      && source.avail == avail && source.mapper == mapper
    }

    ghost function Ctx(): Context
      reads this, avail, scheduler
    {
      Context(scheduler.config, mapper, avail.geometry)
    }

    /** The state the runs of SchedulerRuns speak of. */
    ghost function View(handle: TorrentHandle): World
      reads this, avail, avail.completed, scheduler, handle
    {
      World(scheduler.State(), avail.Done(), handle.deadlines)
    }

    /** select_file: geometry from the layout, availability from the status snapshot. */
    constructor SelectFile(config: Config, layout: Layout, file: nat, snapshot: seq<bool>, disk: Option<seq<Byte>>,
                           now: int)
      requires layout.Valid() && file < |layout.sizes| && |snapshot| == layout.NumPieces()
      ensures Valid() && fresh(avail) && fresh(avail.completed) && fresh(scheduler) && fresh(source)
      ensures mapper == ByteRangeMapper(layout, file) && scheduler.config == config && source.disk == disk
      ensures Ctx().Valid()
      ensures World(scheduler.State(), avail.Done(), map[]) == Fresh(Ctx(), snapshot, now)
    {
      var numPieces: int := layout.NumPieces();
      var pieceLength: int := layout.pieceLength;
      var lastPieceSize: int := layout.Total() - (numPieces - 1) * pieceLength;
      var index := new PieceAvailabilityIndex(0, Geometry(0, 0));
      index.Reset(numPieces, Geometry(pieceLength, lastPieceSize));
      Prepopulate(index, snapshot);
      var m := ByteRangeMapper(layout, file);
      avail := index;
      mapper := m;
      source := new ByteSource(m, index, disk);
      scheduler := new StreamingScheduler(config, index, m, now);
    }

    /** piece_finished alert: mark, notify the source, tell the scheduler. */
    method PieceFinished(piece: int, ghost handle: TorrentHandle)
      requires Valid() && Ctx().Valid()
      modifies avail`completedCount, avail.completed, scheduler, source`notifications
      ensures Valid() && Ctx() == old(Ctx())
      ensures View(handle) == Step(Ctx(), Step(Ctx(), old(View(handle)), Mark(piece)), PieceComplete(piece))
      ensures source.notifications == old(source.notifications) + 1
    {
      avail.MarkComplete(piece);
      source.NotifyPieceComplete();
      scheduler.OnPieceComplete(piece);
    }

    /** Range callback of the HTTP server. */
    method RangeRequested(range: ByteRange, handle: TorrentHandle, now: int)
      requires Valid() && Ctx().Valid() && ValidEvent(RangeRequest(range, now))
      modifies scheduler, handle
      ensures Valid() && Ctx() == old(Ctx())
      ensures View(handle) == Step(Ctx(), old(View(handle)), RangeRequest(range, now))
    {
      scheduler.OnRangeRequest(range, handle, now);
    }

    /** One torrent's share of on_tick: the scheduler's tick, then the complete share of the selected file's pieces,
        as it is written to the cache. */
    method OnTick(handle: TorrentHandle, now: int, rate: int) returns (progress: real)
      requires Valid() && Ctx().Valid()
      modifies scheduler, handle
      ensures Valid() && Ctx() == old(Ctx())
      ensures View(handle) == Step(Ctx(), old(View(handle)), Tick(now, rate))
      ensures IsCompleteShare(avail.Done(), mapper.FirstPiece(), mapper.EndPiece(), progress)
    {
      scheduler.Tick(handle, now, rate);
      var first, end := mapper.FirstPiece(), mapper.EndPiece();
      FirstBeforeEnd(mapper);
      progress := CompleteShare(avail, first, end);
    }
  }
}
