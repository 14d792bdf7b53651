/** What a refresh and a range request do, in figures: the pieces each mode plans, their deadlines, and what a seek is.
    */
module SchedulerFigures {
  import opened Arithmetic
  import opened TorrentLayout
  import opened PieceAvailability
  import opened SchedulerModel
  import opened SchedulerRuns
  import opened SchedulerHandle

  /** Missing pieces of the file from one piece up to, not including, another. */
  ghost function MissingBetween(c: Context, done: seq<bool>, from: int, end: int): set<int>
    requires c.Valid()
  {
    set p | p in MissingOfFile(c, done) && from <= p < end
  }

  /** The first few of them. */
  ghost function FirstMissing(c: Context, done: seq<bool>, from: int, end: int, count: nat): set<int>
    requires c.Valid()
  {
    set p | p in MissingBetween(c, done, from, end) && |MissingBetween(c, done, from, p)| < count
  }

  lemma {:induction false} ShiftedSize(a: set<nat>, b: set<int>, k: int)
    requires b == set i | i in a :: k + i
    ensures |a| == |b|
    decreases |a|
  {
    if a == {} {
      assert b == {};
    } else {
      var i :| i in a;
      var rest := set j | j in a - {i} :: k + j;
      ShiftedSize(a - {i}, rest, k);
      forall p ensures p in b <==> p in rest + {k + i} {
        if p in b {
          var j :| j in a && k + j == p;
          assert j != i ==> j in a - {i};
        }
      }
      assert b == rest + {k + i};
      assert k + i !in rest;
    }
  }

  lemma BeforeIsBetween(c: Context, win: Window, done: seq<bool>, i: nat)
    requires c.Valid() && win.firstPiece == c.mapper.FirstPiece() && win.endPiece == c.mapper.EndPiece()
    ensures |WantedBefore(win, done, i)| == |MissingBetween(c, done, win.playhead, win.playhead + i)|
  {
    var a, b := WantedBefore(win, done, i), MissingBetween(c, done, win.playhead, win.playhead + i);
    var shifted := set j | j in a :: win.playhead + j;
    forall p ensures p in b <==> p in shifted {
      if p in b {
        var j: nat := p - win.playhead;
        assert j in a && win.playhead + j == p;
      }
    }
    assert b == shifted;
    ShiftedSize(a, b, win.playhead);
  }

  lemma PlanHolds(win: Window, done: seq<bool>, i: nat)
    ensures i in Plan(win, done) <==> i < win.Size() && win.Wanted(done, i) && |WantedBefore(win, done, i)| < win.budget
  {
    PlanIsFirstMissing(win, done);
  }

  lemma WantedIff(c: Context, win: Window, done: seq<bool>, i: nat)
    requires c.Valid() && win.firstPiece == c.mapper.FirstPiece() && win.endPiece == c.mapper.EndPiece()
    ensures win.Wanted(done, i) <==> win.playhead + i in MissingOfFile(c, done)
  {
  }

  lemma FirstMissingHolds(c: Context, done: seq<bool>, from: int, end: int, count: nat, p: int)
    requires c.Valid()
    ensures p in FirstMissing(c, done, from, end, count)
       <==> from <= p < end && p in MissingOfFile(c, done) && |MissingBetween(c, done, from, p)| < count
  {
  }

  lemma PlannedIff(c: Context, win: Window, done: seq<bool>, p: int)
    requires c.Valid() && win.firstPiece == c.mapper.FirstPiece() && win.endPiece == c.mapper.EndPiece()
    ensures p in PlannedPieces(win, Plan(win, done))
       <==> p in FirstMissing(c, done, win.playhead, win.playhead + win.Size(), win.budget)
  {
    FirstMissingHolds(c, done, win.playhead, win.playhead + win.Size(), win.budget, p);
    PlannedAt(win, Plan(win, done), p);
    if win.playhead <= p {
      var i: nat := p - win.playhead;
      PlanHolds(win, done, i);
      WantedIff(c, win, done, i);
      BeforeIsBetween(c, win, done, i);
    }
  }

  lemma PlanIsFirstMissingOf(c: Context, win: Window, done: seq<bool>)
    requires c.Valid() && win.firstPiece == c.mapper.FirstPiece() && win.endPiece == c.mapper.EndPiece()
    ensures PlannedPieces(win, Plan(win, done))
         == FirstMissing(c, done, win.playhead, win.playhead + win.Size(), win.budget)
  {
    forall p ensures p in PlannedPieces(win, Plan(win, done))
                <==> p in FirstMissing(c, done, win.playhead, win.playhead + win.Size(), win.budget) {
      PlannedIff(c, win, done, p);
    }
  }

  /** Pieces with short deadlines: the hot window, and the boost when it is on; half of that, but at least three, in
      DownloadFirst. */
  function HotPart(cfg: Config, mode: StreamMode, boosting: bool): nat {
    var hot := if boosting then cfg.hotWindowPieces + cfg.seekBoostPieces else cfg.hotWindowPieces;
    if mode == DownloadFirst then Max(hot / 2, 3) else hot
  }

  /** Pieces with long deadlines: the lookahead, twice the lookahead in DownloadAssist, as many as the hot part in
      DownloadFirst. */
  function Beyond(cfg: Config, mode: StreamMode, boosting: bool): nat {
    match mode
    case StreamingFirst => cfg.lookaheadPieces
    case DownloadAssist => cfg.lookaheadPieces + cfg.lookaheadPieces
    case DownloadFirst => HotPart(cfg, DownloadFirst, boosting)
  }

  lemma WindowInFigures(c: Context, s: Core)
    requires c.Valid()
    ensures WindowNow(c, s)
         == Window(s.playhead, HotPart(c.config, s.mode, s.seekBoosting), Beyond(c.config, s.mode, s.seekBoosting),
                   c.mapper.FirstPiece(), c.mapper.EndPiece(), c.config.deadlineBudget)
  {
  }

  /** Milliseconds within which the k-th piece from the playhead is due. */
  function DueIn(near: nat, k: int): int {
    if k < near then 100 + 50 * k else 2000 + 200 * (k - near)
  }

  /** d' is d with each of the given pieces due in the time of its place. */
  ghost predicate MadeDue(d: Deadlines, pieces: set<int>, near: nat, playhead: int, d': Deadlines) {
    && d'.Keys == d.Keys + pieces
    && forall p :: p in d' ==> d'[p] == if p in pieces then DueIn(near, p - playhead) else d[p]
  }

  lemma PlacedMakesDue(d: Deadlines, win: Window, pieces: set<int>, d': Deadlines)
    requires Placed(d, win, pieces, d')
    ensures MadeDue(d, pieces, win.hot, win.playhead, d')
  {
  }

  lemma PlanMakesDue(c: Context, win: Window, done: seq<bool>, d: Deadlines)
    requires c.Valid() && win.firstPiece == c.mapper.FirstPiece() && win.endPiece == c.mapper.EndPiece()
    ensures var planned := FirstMissing(c, done, win.playhead, win.playhead + win.Size(), win.budget);
      |Plan(win, done)| == |planned| && MadeDue(d, planned, win.hot, win.playhead, Place(d, win, Plan(win, done)))
  {
    var plan := Plan(win, done);
    PlanIsFirstMissingOf(c, win, done);
    PlanBasics(win, done);
    PlannedCount(win, plan);
    PlaceMeaning(d, win, plan);
    PlacedMakesDue(d, win, PlannedPieces(win, plan), Place(d, win, plan));
  }

  /** A refresh, in figures: it plans the first `budget` missing file pieces of the hot part and what lies beyond, from
      the playhead on, makes each due in the time of its place, counts them, and leaves all else as it was. */
  lemma RefreshInFigures(c: Context, s: Core, done: seq<bool>, d: Deadlines)
    requires c.Valid()
    ensures var near := HotPart(c.config, s.mode, s.seekBoosting);
            var end := s.playhead + near + Beyond(c.config, s.mode, s.seekBoosting);
            var planned := FirstMissing(c, done, s.playhead, end, c.config.deadlineBudget);
      && Refresh(c, s, done) == s.(activeDeadlines := |planned|)
      && MadeDue(d, planned, near, s.playhead, Refreshed(c, s, done, d))
  {
    WindowInFigures(c, s);
    PlanMakesDue(c, WindowNow(c, s), done, d);
    var near, beyond := HotPart(c.config, s.mode, s.seekBoosting), Beyond(c.config, s.mode, s.seekBoosting);
    assert s.playhead + near + beyond == s.playhead + (near + beyond);
  }

  /** The world is just as a refresh leaves it that found deadlines d: the first `budget` missing file pieces of the hot
      part and what lies beyond made due and counted, in the mode, at the playhead and with the boost it shows. */
  ghost predicate JustPlanned(c: Context, d: Deadlines, w: World)
    requires c.Valid()
  {
    var near := HotPart(c.config, w.core.mode, w.core.seekBoosting);
    var end := w.core.playhead + near + Beyond(c.config, w.core.mode, w.core.seekBoosting);
    var planned := FirstMissing(c, w.done, w.core.playhead, end, c.config.deadlineBudget);
    w.core.activeDeadlines == |planned| && MadeDue(d, planned, near, w.core.playhead, w.deadlines)
  }

  lemma RefreshingPlans(c: Context, w: World, core: Core, d: Deadlines)
    requires c.Valid()
    ensures JustPlanned(c, d, Refreshing(c, w, core, d))
  {
    RefreshInFigures(c, core, w.done, d);
  }

  lemma MovedInFigures(c: Context, s: Core, range: ByteRange, now: int)
    requires c.Valid() && 0 <= range.start
    ensures var s' := Moved(c, s, range, now);
            var first := (c.mapper.FileOffset() + range.start) / c.mapper.layout.pieceLength;
      && s'.playhead == first && s'.mode == s.mode && s'.stallCount == s.stallCount
      && IsSeek(c, s, range)
         == (first - s.playhead > c.config.hotWindowPieces || s.playhead - first > c.config.hotWindowPieces)
      && (if IsSeek(c, s, range) then s'.seekBoosting && s'.seekBoostStart == now
          else s'.seekBoosting == s.seekBoosting && s'.seekBoostStart == s.seekBoostStart)
  {
  }

  lemma RequestMoves(c: Context, w: World, range: ByteRange, now: int)
    requires c.Valid() && ValidEvent(RangeRequest(range, now))
    ensures var w', moved := Step(c, w, RangeRequest(range, now)), Moved(c, w.core, range, now);
      w'.done == w.done && w'.core == moved.(activeDeadlines := w'.core.activeDeadlines)
    ensures JustPlanned(c, if IsSeek(c, w.core, range) then map[] else w.deadlines,
                        Step(c, w, RangeRequest(range, now)))
  {
    RefreshingPlans(c, w, Moved(c, w.core, range, now), if IsSeek(c, w.core, range) then map[] else w.deadlines);
  }

  /** A range request, in figures. It moves the playhead to the piece of its first byte. If that is more than a hot
      window away, either way, the boost starts anew and the handle holds just the new plan; otherwise boost and
      deadlines stay, and the plan comes on top. */
  lemma RequestInFigures(c: Context, w: World, range: ByteRange, now: int)
    requires c.Valid() && ValidEvent(RangeRequest(range, now))
    ensures var w' := Step(c, w, RangeRequest(range, now));
            var first, was := (c.mapper.FileOffset() + range.start) / c.mapper.layout.pieceLength, w.core.playhead;
      && w'.done == w.done
      && w'.core.playhead == first && w'.core.mode == w.core.mode && w'.core.stallCount == w.core.stallCount
      && (if first - was > c.config.hotWindowPieces || was - first > c.config.hotWindowPieces then
            w'.core.seekBoosting && w'.core.seekBoostStart == now && JustPlanned(c, map[], w')
          else
            && w'.core.seekBoosting == w.core.seekBoosting && w'.core.seekBoostStart == w.core.seekBoostStart
            && JustPlanned(c, w.deadlines, w'))
  {
    RequestMoves(c, w, range, now);
    MovedInFigures(c, w.core, range, now);
  }

  /** A tick, in figures. The playhead stays; the boost stays on while it is young enough; a missing playhead piece
      counts one stall more and a complete one none, as does a change of mode; and the plan of the new mode comes on
      top. */
  lemma TickInFigures(c: Context, w: World, now: int, rate: int)
    requires c.Valid()
    ensures var w' := Step(c, w, Tick(now, rate));
      && w'.done == w.done
      && w'.core.playhead == w.core.playhead && w'.core.seekBoostStart == w.core.seekBoostStart
      && w'.core.seekBoosting
         == (w.core.seekBoosting && now < w.core.seekBoostStart + c.config.seekBoostDurationMs)
      && w'.core.stallCount == (if w'.core.mode != w.core.mode || Complete(w.done, w.core.playhead) then 0
                                else w.core.stallCount + 1)
      && JustPlanned(c, w.deadlines, w')
  {
    RefreshingPlans(c, w, Ticked(c, w.core, w.done, now, rate), w.deadlines);
  }
}
