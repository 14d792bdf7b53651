/** Exactly when some run can take the torrent handle over the deadline budget. With a hot window of zero pieces every
    move of the playhead is a seek, which empties the handle; then it matters how many missing pieces one window can
    hold. */
module SchedulerBudget {
  import opened Arithmetic
  import opened TorrentLayout
  import opened ByteRangeMapping
  import opened PieceAvailability
  import opened SchedulerModel
  import opened SchedulerRuns
  import opened SchedulerHandle

  /** The widest window any mode makes of a hot window of zero pieces, boost included. */
  function WidestWindow(cfg: Config): nat {
    Max(cfg.seekBoostPieces + 2 * cfg.lookaheadPieces, 2 * Max(3, cfg.seekBoostPieces / 2))
  }

  lemma NoWindowIsWider(c: Context, core: Core)
    requires c.Valid() && c.config.hotWindowPieces == 0
    ensures WindowNow(c, core).Size() <= WidestWindow(c.config)
  {
  }

  /** Missing pieces of the file in the widest window at q. */
  ghost function MissingNear(c: Context, done: seq<bool>, q: int): set<int>
    requires c.Valid()
  {
    set p | p in MissingOfFile(c, done) && q <= p < q + WidestWindow(c.config)
  }

  // ----- The handle holds no more than one window

  lemma PlanIsNear(c: Context, w: World)
    requires c.Valid() && c.config.hotWindowPieces == 0
    ensures PlanMade(c, w) <= MissingNear(c, w.done, w.core.playhead)
  {
    PlanBasics(WindowNow(c, w.core), w.done);
    PlanIsMissing(c, w);
    NoWindowIsWider(c, w.core);
  }

  lemma MissingShrinks(c: Context, done: seq<bool>, done': seq<bool>, q: int)
    requires c.Valid() && Grows(done, done')
    ensures MissingNear(c, done', q) <= MissingNear(c, done, q)
  {
  }

  lemma StepStaysNear(c: Context, done: seq<bool>, w: World, e: Event)
    requires c.Valid() && c.config.hotWindowPieces == 0 && ValidEvent(e) && Grows(done, w.done)
    requires w.deadlines.Keys <= MissingNear(c, done, w.core.playhead)
    ensures Step(c, w, e).deadlines.Keys <= MissingNear(c, done, Step(c, w, e).core.playhead)
  {
    var w' := Step(c, w, e);
    match e {
      case RangeRequest(range, now) =>
        RefreshingAdds(c, w, Moved(c, w.core, range, now), if IsSeek(c, w.core, range) then map[] else w.deadlines);
        PlanIsNear(c, w');
        MissingShrinks(c, done, w'.done, w'.core.playhead);
      case Tick(now, rate) =>
        RefreshingAdds(c, w, Ticked(c, w.core, w.done, now, rate), w.deadlines);
        PlanIsNear(c, w');
        MissingShrinks(c, done, w'.done, w'.core.playhead);
      case _ =>
    }
  }

  lemma {:induction false} HandleStaysNear(c: Context, done: seq<bool>, t0: int, evs: seq<Event>)
    requires c.Valid() && c.config.hotWindowPieces == 0 && ValidEvents(evs)
    ensures var w := Run(c, Fresh(c, done, t0), evs); w.deadlines.Keys <= MissingNear(c, done, w.core.playhead)
  {
    if evs != [] {
      var init := evs[..|evs| - 1];
      HandleStaysNear(c, done, t0, init);
      AvailabilityGrows(c, Fresh(c, done, t0), init);
      StepStaysNear(c, done, Run(c, Fresh(c, done, t0), init), evs[|evs| - 1]);
    }
  }

  // ----- Getting to any mode

  lemma OneEvent(c: Context, w: World, e: Event)
    requires c.Valid() && ValidEvent(e)
    ensures ValidEvents([e]) && Run(c, w, [e]) == Step(c, w, e)
  {
    TwoSteps(c, w, e, e);
  }

  /** A scheduler stalled for good: its playhead is past the index. */
  ghost predicate Stranded(w: World, mode: StreamMode, done: seq<bool>, playhead: int) {
    && w.core.mode == mode && 0 <= w.core.stallCount
    && w.done == done && w.core.playhead == playhead >= |done|
  }

  /** A rate below the sustained minimum. */
  function LowRate(cfg: Config): int { cfg.minSustainedRate.Floor - 1 }

  lemma StrandedTick(c: Context, w: World, mode: StreamMode, done: seq<bool>, playhead: int)
    requires c.Valid() && Stranded(w, mode, done, playhead) && mode != DownloadFirst
    ensures var n := if mode == StreamingFirst then c.config.stallCountThreshold else 2 * c.config.stallCountThreshold;
            var w' := Step(c, w, Tick(0, LowRate(c.config)));
      if w.core.stallCount + 1 >= n
      then Stranded(w', if mode == StreamingFirst then DownloadAssist else DownloadFirst, done, playhead)
      else Stranded(w', mode, done, playhead) && w'.core.stallCount == w.core.stallCount + 1
  {
    assert LowRate(c.config) as real < c.config.minSustainedRate;
  }

  lemma {:induction false} NextModeReached(c: Context, w: World, mode: StreamMode, done: seq<bool>, playhead: int)
    returns (evs: seq<Event>)
    requires c.Valid() && Stranded(w, mode, done, playhead) && mode != DownloadFirst
    ensures ValidEvents(evs)
    ensures Stranded(Run(c, w, evs), if mode == StreamingFirst then DownloadAssist else DownloadFirst, done, playhead)
    decreases 2 * Max(0, c.config.stallCountThreshold) - w.core.stallCount
  {
    var tick := Tick(0, LowRate(c.config));
    OneEvent(c, w, tick);
    StrandedTick(c, w, mode, done, playhead);
    evs := [tick];
    var n := if mode == StreamingFirst then c.config.stallCountThreshold else 2 * c.config.stallCountThreshold;
    if w.core.stallCount + 1 < n {
      var more := NextModeReached(c, Step(c, w, tick), mode, done, playhead);
      RunsCompose(c, w, evs, more);
      evs := evs + more;
    }
  }

  lemma ModeReached(c: Context, w: World, mode: StreamMode, done: seq<bool>, playhead: int) returns (evs: seq<Event>)
    requires c.Valid() && Stranded(w, StreamingFirst, done, playhead) && mode != StreamingFirst
    ensures ValidEvents(evs) && Stranded(Run(c, w, evs), mode, done, playhead)
  {
    evs := NextModeReached(c, w, StreamingFirst, done, playhead);
    if mode == DownloadFirst {
      var more := NextModeReached(c, Run(c, w, evs), DownloadAssist, done, playhead);
      RunsCompose(c, w, evs, more);
      evs := evs + more;
    }
  }

  // ----- Filling one window beyond the budget

  function RequestFor(m: ByteRangeMapper, p: int): Event
    requires m.layout.Valid() && m.file < |m.layout.sizes|
  {
    RangeRequest(ByteRange(ByteOf(m, p), ByteOf(m, p)), 0)
  }

  lemma RequestMoves(c: Context, w: World, p: int)
    requires c.Valid() && c.config.hotWindowPieces == 0 && c.mapper.FirstPiece() <= p
    ensures ValidEvent(RequestFor(c.mapper, p))
    ensures var w' := Step(c, w, RequestFor(c.mapper, p));
      && w'.done == w.done && w'.core.playhead == p && w'.core.mode == w.core.mode
      && w'.core.stallCount == w.core.stallCount
      && (p != w.core.playhead ==> w'.core.seekBoosting && w'.deadlines.Keys == PlanMade(c, w'))
      && (p == w.core.playhead ==>
            w'.core.seekBoosting == w.core.seekBoosting && w'.deadlines.Keys == w.deadlines.Keys + PlanMade(c, w'))
  {
    ByteAtPiece(c.mapper, p);
    var range := RequestFor(c.mapper, p).range;
    RefreshingAdds(c, w, Moved(c, w.core, range, 0), if IsSeek(c, w.core, range) then map[] else w.deadlines);
  }

  /** The mode with the widest window. */
  function WidestMode(cfg: Config): StreamMode {
    if cfg.seekBoostPieces + 2 * cfg.lookaheadPieces >= 2 * Max(3, cfg.seekBoostPieces / 2)
    then DownloadAssist else DownloadFirst
  }

  /** At q, boosted, in the mode with the widest window, holding the plan just made. */
  ghost predicate WideOpen(c: Context, w: World, done: seq<bool>, q: int)
    requires c.Valid()
  {
    && w.core.mode == WidestMode(c.config) && w.core.seekBoosting && w.core.playhead == q && w.done == done
    && PlanMade(c, w) <= w.deadlines.Keys
  }

  lemma WideOpenReached(c: Context, done: seq<bool>, t0: int, q: int) returns (evs: seq<Event>)
    requires c.Valid() && c.config.hotWindowPieces == 0 && c.mapper.FirstPiece() <= q
    ensures ValidEvents(evs) && WideOpen(c, Run(c, Fresh(c, done, t0), evs), done, q)
  {
    var w0, far := Fresh(c, done, t0), Max(|done|, q + 1);
    RequestMoves(c, w0, far);
    OneEvent(c, w0, RequestFor(c.mapper, far));
    evs := [RequestFor(c.mapper, far)];
    var more := ModeReached(c, Run(c, w0, evs), WidestMode(c.config), done, far);
    RunsCompose(c, w0, evs, more);
    evs := evs + more;
    var w := Run(c, w0, evs);
    RequestMoves(c, w, q);
    OneEvent(c, w, RequestFor(c.mapper, q));
    RunsCompose(c, w0, evs, [RequestFor(c.mapper, q)]);
    evs := evs + [RequestFor(c.mapper, q)];
  }

  lemma WidestIs(c: Context, w: World)
    requires c.Valid() && c.config.hotWindowPieces == 0 && w.core.mode == WidestMode(c.config) && w.core.seekBoosting
    ensures WindowNow(c, w.core).Size() == WidestWindow(c.config)
  {
  }

  /** With the widest window a plan holds as many of the missing pieces near as the budget allows. */
  lemma WidePlanSize(c: Context, w: World)
    requires c.Valid() && c.config.hotWindowPieces == 0 && w.core.mode == WidestMode(c.config) && w.core.seekBoosting
    ensures |PlanMade(c, w)| == Min(c.config.deadlineBudget, |MissingNear(c, w.done, w.core.playhead)|)
  {
    var win := WindowNow(c, w.core);
    var wanted := WantedBelow(win, w.done, win.Size());
    WidestIs(c, w);
    WantedBelowMeaning(win, w.done, win.Size());
    PlannedCount(win, wanted);
    assert PlannedPieces(win, wanted) == MissingNear(c, w.done, w.core.playhead) by {
      forall p ensures p in PlannedPieces(win, wanted) <==> p in MissingNear(c, w.done, w.core.playhead) {
        PlannedAt(win, wanted, p);
      }
    }
    PlanBasics(win, w.done);
    PlannedCount(win, Plan(win, w.done));
  }

  lemma OneGone(c: Context, done: seq<bool>, q: int, p: int)
    requires c.Valid() && p in MissingNear(c, done, q) && 0 <= p < |done|
    ensures MissingNear(c, Marked(done, p), q) == MissingNear(c, done, q) - {p}
  {
  }

  lemma UnionExceeds(a: set<int>, b: set<int>, p: int)
    requires p in a && p !in b
    ensures |a + b| >= |b| + 1
  {
    SubsetSize(b + {p}, a + b);
  }

  /** Marking a planned piece and asking for the same place again plans one more, while the old deadlines stay. */
  lemma OneMorePlanned(c: Context, w: World, done: seq<bool>, q: int, p: int)
    requires c.Valid() && c.config.hotWindowPieces == 0 && c.mapper.FirstPiece() <= q && WideOpen(c, w, done, q)
    requires c.config.deadlineBudget < |MissingNear(c, done, q)|
    requires p in PlanMade(c, w) && 0 <= p < |done|
    ensures var w' := Step(c, Step(c, w, Mark(p)), RequestFor(c.mapper, q));
      |w'.deadlines| > c.config.deadlineBudget
  {
    var marked := Step(c, w, Mark(p));
    var w' := Step(c, marked, RequestFor(c.mapper, q));
    RequestMoves(c, marked, q);
    PlanIsNear(c, w);
    OneGone(c, done, q, p);
    WidePlanSize(c, w');
    PlanIsMissing(c, w');
    assert p !in PlanMade(c, w');
    UnionExceeds(w.deadlines.Keys, PlanMade(c, w'), p);
    assert |w'.deadlines| == |w'.deadlines.Keys|;
  }

  lemma NearExceeds(c: Context, done: seq<bool>, t0: int, q: int) returns (evs: seq<Event>)
    requires c.Valid() && c.config.hotWindowPieces == 0 && c.mapper.FirstPiece() <= q && c.mapper.EndPiece() <= |done|
    requires 1 <= c.config.deadlineBudget < |MissingNear(c, done, q)|
    ensures Exceeds(c, done, t0, evs)
  {
    evs := WideOpenReached(c, done, t0, q);
    var w0, w := Fresh(c, done, t0), Run(c, Fresh(c, done, t0), evs);
    WidePlanSize(c, w);
    var p :| p in PlanMade(c, w);
    PlanIsMissing(c, w);
    DivMono(0, c.mapper.FileOffset(), c.mapper.layout.pieceLength);
    OneMorePlanned(c, w, done, q, p);
    RequestMoves(c, w, q);
    TwoSteps(c, w, Mark(p), RequestFor(c.mapper, q));
    var more := [Mark(p), RequestFor(c.mapper, q)];
    assert ValidEvents(more);
    RunsCompose(c, w0, evs, more);
    evs := evs + more;
  }

  /** Some window of a hot window of zero pieces holds more missing pieces than the budget allows. */
  ghost predicate SomeWindowHoldsMore(c: Context, done: seq<bool>)
    requires c.Valid()
  {
    exists q :: c.mapper.FirstPiece() <= q && c.config.deadlineBudget < |MissingNear(c, done, q)|
  }

  /** Some run takes the handle over the budget exactly when the budget is positive and the file has more missing pieces
      than it allows; or, if every move is a seek and the index covers the file, when some window has. */
  lemma HandleCanExceedBudgetIff(c: Context, done: seq<bool>, t0: int)
    requires c.Valid() && (c.config.hotWindowPieces >= 1 || c.mapper.EndPiece() <= |done|)
    ensures (exists evs :: Exceeds(c, done, t0, evs))
       <==> 1 <= c.config.deadlineBudget
            && if c.config.hotWindowPieces >= 1 then c.config.deadlineBudget < |MissingOfFile(c, done)|
               else SomeWindowHoldsMore(c, done)
  {
    forall evs | Exceeds(c, done, t0, evs)
      ensures 1 <= c.config.deadlineBudget < |MissingOfFile(c, done)|
      ensures c.config.hotWindowPieces == 0 ==> SomeWindowHoldsMore(c, done)
    {
      ExceedsOnlyIf(c, done, t0, evs);
      if c.config.hotWindowPieces == 0 {
        var w := Run(c, Fresh(c, done, t0), evs);
        HandleStaysNear(c, done, t0, evs);
        EveryRunIsSafe(c, done, t0, evs);
        SubsetSize(w.deadlines.Keys, MissingNear(c, done, w.core.playhead));
        assert |w.deadlines| == |w.deadlines.Keys|;
      }
    }
    if 1 <= c.config.deadlineBudget {
      if c.config.hotWindowPieces >= 1 && c.config.deadlineBudget < |MissingOfFile(c, done)| {
        WalkExceeds(c, done, t0);
      } else if c.config.hotWindowPieces == 0 && SomeWindowHoldsMore(c, done) {
        var q :| c.mapper.FirstPiece() <= q && c.config.deadlineBudget < |MissingNear(c, done, q)|;
        var evs := NearExceeds(c, done, t0, q);
      }
    }
  }
}
