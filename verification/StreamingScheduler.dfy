/** The piece scheduler: playhead, seek boost, stall counter, three modes and the two-loop deadline allocator. */
module StreamingSchedulers {
  import opened Arithmetic
  import opened TorrentLayout
  import opened ByteRangeMapping
  import opened PieceAvailability
  import opened SchedulerModel

  /** The positions below n have been looked at: the plan so far is placed on the handle and counted. */
  ghost predicate PlacedBelow(was: Deadlines, w: Window, done: seq<bool>, n: nat, count: nat, d: Deadlines) {
    count == |PlanBelow(w, done, n)| && d == Place(was, w, PlanBelow(w, done, n))
  }

  /** Looking at one more position plans it and gives it its deadline if it is wanted. */
  lemma PlacedBelowStep(was: Deadlines, w: Window, done: seq<bool>, n: nat, count: nat, d: Deadlines)
    requires PlacedBelow(was, w, done, n, count, d) && count < w.budget
    ensures if w.Wanted(done, n)
      then PlacedBelow(was, w, done, n + 1, count + 1, d[w.playhead + n := w.DeadlineAt(n)])
      else PlacedBelow(was, w, done, n + 1, count, d)
  {
    var plan := PlanBelow(w, done, n);
    if w.Wanted(done, n) {
      assert PlanBelow(w, done, n + 1) == plan + [n];
      assert (plan + [n])[..|plan|] == plan;
    } else {
      assert WantedBelow(w, done, n + 1) == WantedBelow(w, done, n);
    }
  }

  /** Once the budget is spent, looking further changes nothing. */
  lemma PlanBelowFull(w: Window, done: seq<bool>, i: nat, n: nat)
    requires i <= n && (i == n || |PlanBelow(w, done, i)| >= w.budget)
    ensures PlanBelow(w, done, n) == PlanBelow(w, done, i)
  {
    WantedBelowGrows(w, done, i, n);
  }

  /** The part of libtorrent's torrent_handle the scheduler drives. */
  class TorrentHandle {
    var deadlines: Deadlines

    constructor ()
      ensures deadlines == map[]
    {
      deadlines := map[];
    }

    method SetPieceDeadline(piece: int, ms: int)
      modifies this
      ensures deadlines == old(deadlines)[piece := ms]
    {
      deadlines := deadlines[piece := ms];
    }

    method ClearPieceDeadlines()
      modifies this
      ensures deadlines == map[]
    {
      deadlines := map[];
    }
  }

  class StreamingScheduler {
    const config: Config
    const avail: PieceAvailabilityIndex
    const mapper: ByteRangeMapper
    var mode: StreamMode
    var playhead: int
    var activeDeadlines: int
    var seekBoosting: bool
    var seekBoostStart: int
    var stallCount: int

    ghost predicate Valid()
      reads this, avail, avail.completed
    {
      avail.Valid() && mapper.Valid()
    }

    function State(): Core
      reads this
    {
      Core(mode, playhead, activeDeadlines, seekBoosting, seekBoostStart, stallCount)
    }

    ghost function Ctx(): Context
      reads this, avail
    {
      Context(config, mapper, avail.geometry)
    }

    constructor (config: Config, avail: PieceAvailabilityIndex, mapper: ByteRangeMapper, now: int)
      requires avail.Valid() && mapper.Valid()
      ensures Valid() && this.config == config && this.avail == avail && this.mapper == mapper
      ensures State() == Core(StreamingFirst, mapper.FirstPiece(), 0, false, now, 0)
    {
      this.config := config;
      this.avail := avail;
      this.mapper := mapper;
      mode := StreamingFirst;
      playhead := mapper.FirstPiece();
      activeDeadlines := 0;
      seekBoosting := false;
      seekBoostStart := now;
      stallCount := 0;
    }

    /** First loop: short deadlines from the playhead on. */
    method PlaceHot(handle: TorrentHandle, hotSize: nat, fileFirst: int, fileEnd: int, ghost w: Window)
      returns (deadlineCount: nat)
      requires Valid()
      requires w == Window(playhead, hotSize, w.lookahead, fileFirst, fileEnd, config.deadlineBudget)
      modifies handle
      ensures PlacedBelow(old(handle.deadlines), w, avail.Done(), hotSize, deadlineCount, handle.deadlines)
    {
      deadlineCount := 0;
      var i := 0;
      while i < hotSize && deadlineCount < config.deadlineBudget
        invariant 0 <= i <= hotSize
        invariant PlacedBelow(old(handle.deadlines), w, avail.Done(), i, deadlineCount, handle.deadlines)
      {
        PlacedBelowStep(old(handle.deadlines), w, avail.Done(), i, deadlineCount, handle.deadlines);
        var p := playhead + i;
        i := i + 1;
        if p < fileFirst || p >= fileEnd {
          continue;
        }
        var complete := avail.IsComplete(p);
        if complete {
          continue;
        }
        var deadlineMs := 100 + (i - 1) * 50;
        handle.SetPieceDeadline(p, deadlineMs);
        deadlineCount := deadlineCount + 1;
      }
      PlanBelowFull(w, avail.Done(), i, hotSize);
    }

    /** Second loop: longer deadlines beyond the hot part, from what is left of the budget. */
    method PlaceLookahead(handle: TorrentHandle, hotSize: nat, lookaheadSize: nat, fileFirst: int, fileEnd: int,
                          count: nat, ghost w: Window, ghost was: Deadlines)
      returns (deadlineCount: nat)
      requires Valid()
      requires w == Window(playhead, hotSize, lookaheadSize, fileFirst, fileEnd, config.deadlineBudget)
      requires PlacedBelow(was, w, avail.Done(), hotSize, count, handle.deadlines)
      modifies handle
      ensures deadlineCount == |Plan(w, avail.Done())|
      ensures handle.deadlines == Place(was, w, Plan(w, avail.Done()))
    {
      deadlineCount := count;
      var i := 0;
      ghost var n := hotSize;
      while i < lookaheadSize && deadlineCount < config.deadlineBudget
        invariant 0 <= i <= lookaheadSize && n == hotSize + i
        invariant PlacedBelow(was, w, avail.Done(), n, deadlineCount, handle.deadlines)
      {
        PlacedBelowStep(was, w, avail.Done(), n, deadlineCount, handle.deadlines);
        var p := playhead + hotSize + i;
        i, n := i + 1, n + 1;
        if p < fileFirst || p >= fileEnd {
          continue;
        }
        var complete := avail.IsComplete(p);
        if complete {
          continue;
        }
        var deadlineMs := 2000 + (i - 1) * 200;
        handle.SetPieceDeadline(p, deadlineMs);
        deadlineCount := deadlineCount + 1;
      }
      PlanBelowFull(w, avail.Done(), n, hotSize + lookaheadSize);
    }

    /** The two counting loops place exactly the plan. */
    method SetDeadlines(handle: TorrentHandle)
      requires Valid()
      modifies this`activeDeadlines, handle
      ensures Valid()
      ensures State() == Refresh(Ctx(), old(State()), avail.Done())
      ensures handle.deadlines == Refreshed(Ctx(), old(State()), avail.Done(), old(handle.deadlines))
    {
      var fileFirst := mapper.FirstPiece();
      var fileEnd := mapper.EndPiece();
      var hotSize := config.hotWindowPieces;
      var lookaheadSize := config.lookaheadPieces;
      if seekBoosting {
        hotSize := hotSize + config.seekBoostPieces;
      }
      match mode {
        case StreamingFirst =>
        case DownloadAssist =>
          lookaheadSize := lookaheadSize * 2;
        case DownloadFirst =>
          hotSize := Max(3, hotSize / 2);
          lookaheadSize := hotSize;
      }
      ghost var w := WindowNow(Ctx(), State());
      var deadlineCount := PlaceHot(handle, hotSize, fileFirst, fileEnd, w);
      deadlineCount := PlaceLookahead(handle, hotSize, lookaheadSize, fileFirst, fileEnd, deadlineCount,
                                      w, old(handle.deadlines));
      activeDeadlines := deadlineCount;
    }

    method EvaluateModeSwitch(downloadRate: int)
      requires Valid()
      modifies this`mode, this`stallCount
      ensures Valid()
      ensures mode == NextMode(config, old(mode), old(stallCount), Contiguous(Ctx(), avail.Done(), playhead),
                               downloadRate)
      ensures stallCount == if mode == old(mode) then old(stallCount) else 0
    {
      var prevMode := mode;
      var span := mapper.Map(ByteRange(0, 0));
      var contig := avail.ContiguousBytesFrom(playhead, span.firstOffset);
      match mode {
        case StreamingFirst =>
          if stallCount >= config.stallCountThreshold {
            mode := DownloadAssist;
          }
        case DownloadAssist =>
          if downloadRate as real < config.minSustainedRate && stallCount >= config.stallCountThreshold * 2 {
            mode := DownloadFirst;
          }
          if contig >= config.minContiguousBytes && stallCount == 0 {
            mode := StreamingFirst;
          }
        case DownloadFirst =>
          if contig >= config.minContiguousBytes {
            mode := DownloadAssist;
          }
      }
      if mode != prevMode {
        stallCount := 0;
      }
    }

    /** A seek empties the handle and starts a boost; every request moves the playhead and refreshes the deadlines. */
    method OnRangeRequest(range: ByteRange, handle: TorrentHandle, now: int)
      requires Valid() && 0 <= range.start
      modifies this, handle
      ensures Valid() && avail.Done() == old(avail.Done())
      ensures State() == Refresh(Ctx(), Moved(Ctx(), old(State()), range, now), avail.Done())
      ensures handle.deadlines == Refreshed(Ctx(), Moved(Ctx(), old(State()), range, now), avail.Done(),
                                            if IsSeek(Ctx(), old(State()), range) then map[] else old(handle.deadlines))
    {
      var newPlayhead := mapper.Map(range).first;
      var distance := if newPlayhead < playhead then playhead - newPlayhead else newPlayhead - playhead;
      if distance > config.hotWindowPieces {
        handle.ClearPieceDeadlines();
        seekBoosting := true;
        seekBoostStart := now;
      }
      playhead := newPlayhead;
      SetDeadlines(handle);
    }

    method OnPieceComplete(piece: int)
      requires Valid()
      modifies this
      ensures Valid() && State() == Notified(old(State()), piece)
    {
      if piece >= playhead {
        if activeDeadlines > 0 {
          activeDeadlines := activeDeadlines - 1;
        }
      }
    }

    method Tick(handle: TorrentHandle, now: int, downloadRate: int)
      requires Valid()
      modifies this, handle
      ensures Valid() && avail.Done() == old(avail.Done())
      ensures State() == Refresh(Ctx(), Ticked(Ctx(), old(State()), avail.Done(), now, downloadRate), avail.Done())
      ensures handle.deadlines == Refreshed(Ctx(), Ticked(Ctx(), old(State()), avail.Done(), now, downloadRate),
                                            avail.Done(), old(handle.deadlines))
    {
      if seekBoosting {
        var elapsed := now - seekBoostStart;
        if elapsed >= config.seekBoostDurationMs {
          seekBoosting := false;
        }
      }
      var complete := avail.IsComplete(playhead);
      if !complete {
        stallCount := stallCount + 1;
      } else {
        stallCount := 0;
      }
      EvaluateModeSwitch(downloadRate);
      SetDeadlines(handle);
    }
  }
}
