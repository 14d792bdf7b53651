/** The scheduler makes progress: feeding it the most urgent piece of each plan fills its window front to back. */
module SchedulerProgress {
  import opened Arithmetic
  import opened PieceAvailability
  import opened SchedulerModel
  import opened SchedulerRuns

  /** A tick, then whatever completes and is notified before the next one. */
  datatype Round = Round(now: int, rate: int, arrivals: seq<Event>)

  ghost predicate Arrivals(evs: seq<Event>) {
    forall i :: 0 <= i < |evs| ==> evs[i].Mark? || evs[i].PieceComplete?
  }

  ghost function AtTick(c: Context, w: World, r: Round): World
    requires c.Valid()
  {
    Step(c, w, Tick(r.now, r.rate))
  }

  ghost function AfterRound(c: Context, w: World, r: Round): World
    requires c.Valid() && Arrivals(r.arrivals)
  {
    Run(c, AtTick(c, w, r), r.arrivals)
  }

  ghost function PlanOf(c: Context, w: World): seq<nat>
    requires c.Valid()
  {
    Plan(WindowNow(c, w.core), w.done)
  }

  /** Piece q has the smallest deadline of the plan. */
  ghost predicate MostUrgent(c: Context, w: World, q: int)
    requires c.Valid()
  {
    var pieces := PlannedPieces(WindowNow(c, w.core), PlanOf(c, w));
    && q in pieces && q in w.deadlines
    && forall p :: p in pieces && p in w.deadlines ==> w.deadlines[q] <= w.deadlines[p]
  }

  /** If anything is planned, its most urgent piece is complete once the arrivals are in. */
  ghost predicate Feeds(c: Context, t: World, arrivals: seq<Event>)
    requires c.Valid()
  {
    && Arrivals(arrivals)
    && (PlanOf(c, t) != [] ==> exists q :: MostUrgent(c, t, q) && Complete(Run(c, t, arrivals).done, q))
  }

  ghost predicate Fed(c: Context, w: World, r: Round)
    requires c.Valid()
  {
    Feeds(c, AtTick(c, w, r), r.arrivals)
  }

  /** Every file piece of the current window is complete. */
  ghost predicate WindowComplete(c: Context, w: World)
    requires c.Valid()
  {
    forall i: nat :: i < WindowNow(c, w.core).Size() ==> !WindowNow(c, w.core).Wanted(w.done, i)
  }

  /** Configurations under which deadlines rise along the window and every window and plan has room. */
  ghost predicate Orderly(cfg: Config) {
    cfg.hotWindowPieces + cfg.seekBoostPieces <= 38 && cfg.hotWindowPieces >= 1 && cfg.deadlineBudget >= 1
  }

  lemma PlanEmptyIffWindowComplete(c: Context, w: World)
    requires c.Valid() && c.config.deadlineBudget >= 1
    ensures PlanOf(c, w) == [] <==> WindowComplete(c, w)
  {
    var win := WindowNow(c, w.core);
    WantedBelowMeaning(win, w.done, win.Size());
    var s := WantedBelow(win, w.done, win.Size());
    assert s != [] ==> s[0] < win.Size() && win.Wanted(w.done, s[0]);
  }

  /** The first wanted position is where the run of complete pieces from the playhead ends. */
  lemma FirstWantedEndsRun(w: Window, done: seq<bool>, i: nat)
    requires w.firstPiece <= w.playhead && w.Wanted(done, i)
    requires forall j: nat :: j < i ==> !w.Wanted(done, j)
    ensures RunOfPieces(done, w.playhead) == i
  {
    RunEndsAtGap(done, w.playhead);
    var r := RunOfPieces(done, w.playhead);
    assert r < i ==> w.Wanted(done, r);
    assert i < r ==> Complete(done, w.playhead + i);
  }

  lemma PlanStartsAtFirstWanted(w: Window, done: seq<bool>)
    requires Plan(w, done) != []
    ensures w.Wanted(done, Plan(w, done)[0])
    ensures forall j: nat :: j < Plan(w, done)[0] ==> !w.Wanted(done, j)
    ensures Plan(w, done)[0] < w.Size()
  {
    var s := WantedBelow(w, done, w.Size());
    WantedBelowMeaning(w, done, w.Size());
    assert Plan(w, done)[0] == s[0];
    assert forall k :: 0 <= k < |s| ==> s[0] <= s[k];
    forall j: nat | j < s[0] ensures !w.Wanted(done, j) {
      assert w.Wanted(done, j) ==> j in s;
    }
  }

  lemma PlacedAt(d: Deadlines, win: Window, plan: seq<nat>, p: int)
    requires Ascending(plan) && p in PlannedPieces(win, plan)
    ensures p in Place(d, win, plan) && Place(d, win, plan)[p] == win.DeadlineAt(p - win.playhead)
  {
    PlaceMeaning(d, win, plan);
  }

  /** With rising deadlines, only the first planned piece has one as small as the first. */
  lemma SmallestDeadlineIsFirst(win: Window, plan: seq<nat>, d: Deadlines, q: int)
    requires win.hot <= 38 && Ascending(plan) && q in PlannedPieces(win, plan)
    requires var d', first := Place(d, win, plan), win.playhead + plan[0];
      q in d' && (first in d' ==> d'[q] <= d'[first])
    ensures q == win.playhead + plan[0]
  {
    assert plan[0] in plan;
    PlacedAt(d, win, plan, q);
    PlacedAt(d, win, plan, win.playhead + plan[0]);
    var k :| 0 <= k < |plan| && plan[k] == q - win.playhead;
  }

  lemma FirstIsPlanned(win: Window, plan: seq<nat>, q: int)
    requires q in PlannedPieces(win, plan)
    ensures plan != [] && win.playhead + plan[0] in PlannedPieces(win, plan)
  {
    assert q - win.playhead in plan;
    assert plan[0] in plan && win.playhead + plan[0] - win.playhead == plan[0];
  }

  lemma UrgentPieceOf(win: Window, done: seq<bool>, d: Deadlines, q: int)
    requires win.hot <= 38 && win.firstPiece <= win.playhead && Ascending(Plan(win, done))
    requires var d', pieces := Place(d, win, Plan(win, done)), PlannedPieces(win, Plan(win, done));
      q in pieces && q in d' && forall p :: p in pieces && p in d' ==> d'[q] <= d'[p]
    ensures q == win.playhead + RunOfPieces(done, win.playhead) < win.endPiece && !Complete(done, q)
  {
    var plan := Plan(win, done);
    FirstIsPlanned(win, plan, q);
    SmallestDeadlineIsFirst(win, plan, d, q);
    PlanStartsAtFirstWanted(win, done);
    FirstWantedEndsRun(win, done, plan[0]);
  }

  /** What a tick plans, and where. */
  lemma PlanAtTick(c: Context, w: World, r: Round)
    requires c.Valid() && Orderly(c.config) && Safe(c, w)
    ensures var t := AtTick(c, w, r);
      && WindowNow(c, t.core).hot <= 38
      && Ascending(PlanOf(c, t))
      && t.deadlines == Place(w.deadlines, WindowNow(c, t.core), PlanOf(c, t))
      && t.done == w.done && t.core.playhead == w.core.playhead
  {
    var t := AtTick(c, w, r);
    HotPartIsBounded(c, t.core.mode, t.core.playhead, t.core.seekBoosting);
    PlanBasics(WindowNow(c, t.core), w.done);
  }

  /** The most urgent piece of a plan just placed is the piece right after the run of complete pieces. */
  lemma MostUrgentExtendsRun(c: Context, w: World, r: Round, q: int)
    requires c.Valid() && Orderly(c.config) && Safe(c, w)
    requires MostUrgent(c, AtTick(c, w, r), q)
    ensures q == w.core.playhead + RunOfPieces(w.done, w.core.playhead) < c.mapper.EndPiece()
    ensures !Complete(w.done, q)
  {
    PlanAtTick(c, w, r);
    UrgentPieceOf(WindowNow(c, AtTick(c, w, r).core), w.done, w.deadlines, q);
  }

  lemma {:induction false} ArrivalsKeepPlayhead(c: Context, w: World, evs: seq<Event>)
    requires c.Valid() && Arrivals(evs) && Safe(c, w)
    ensures Run(c, w, evs).core.playhead == w.core.playhead && Safe(c, Run(c, w, evs))
  {
    if evs != [] {
      ArrivalsKeepPlayhead(c, w, evs[..|evs| - 1]);
      StepIsSafe(c, Run(c, w, evs[..|evs| - 1]), evs[|evs| - 1]);
    }
  }

  lemma RoundKeeps(c: Context, w: World, r: Round)
    requires c.Valid() && Safe(c, w) && Arrivals(r.arrivals)
    ensures var w' := AfterRound(c, w, r);
      Safe(c, w') && w'.core.playhead == w.core.playhead && Grows(w.done, w'.done)
  {
    var t := AtTick(c, w, r);
    StepIsSafe(c, w, Tick(r.now, r.rate));
    ArrivalsKeepPlayhead(c, t, r.arrivals);
    AvailabilityGrows(c, t, r.arrivals);
  }

  /** A run that reaches a complete piece passes it. */
  lemma RunPasses(done: seq<bool>, p: int, q: int)
    requires q <= p + RunOfPieces(done, p) && Complete(done, q)
    ensures q < p + RunOfPieces(done, p)
  {
    RunEndsAtGap(done, p);
  }

  /** Each fed round either finds its whole window complete or lengthens the run of complete pieces from the playhead.
      */
  lemma FedRoundGrows(c: Context, w: World, r: Round)
    requires c.Valid() && Orderly(c.config) && Safe(c, w) && Fed(c, w, r)
    requires 0 <= c.geometry.pieceLength && 0 <= c.geometry.lastPieceLength
    ensures var w' := AfterRound(c, w, r);
      && Safe(c, w') && w'.core.playhead == w.core.playhead
      && (WindowComplete(c, AtTick(c, w, r)) ||
            (&& RunOfPieces(w.done, w.core.playhead) < RunOfPieces(w'.done, w.core.playhead)
             && w.core.playhead + RunOfPieces(w.done, w.core.playhead) < c.mapper.EndPiece()))
      && RunOfPieces(w.done, w.core.playhead) <= RunOfPieces(w'.done, w.core.playhead)
  {
    var t, w', p := AtTick(c, w, r), AfterRound(c, w, r), w.core.playhead;
    RoundKeeps(c, w, r);
    RunsGrow(w.done, w'.done, c.geometry, p);
    PlanEmptyIffWindowComplete(c, t);
    if !WindowComplete(c, t) {
      var q :| MostUrgent(c, t, q) && Complete(w'.done, q);
      MostUrgentExtendsRun(c, w, r, q);
      RunPasses(w'.done, p, q);
    }
  }

  lemma FirstPlannedIsMostUrgent(c: Context, t: World, d: Deadlines)
    requires c.Valid() && WindowNow(c, t.core).hot <= 38 && Ascending(PlanOf(c, t)) && PlanOf(c, t) != []
    requires t.deadlines == Place(d, WindowNow(c, t.core), PlanOf(c, t))
    ensures MostUrgent(c, t, WindowNow(c, t.core).playhead + PlanOf(c, t)[0])
  {
    var win, plan := WindowNow(c, t.core), PlanOf(c, t);
    var q, pieces := win.playhead + plan[0], PlannedPieces(win, plan);
    assert plan[0] in plan && q - win.playhead == plan[0];
    PlacedAt(d, win, plan, q);
    forall p | p in pieces && p in t.deadlines
      ensures t.deadlines[q] <= t.deadlines[p]
    {
      PlacedAt(d, win, plan, p);
      var k :| 0 <= k < |plan| && plan[k] == p - win.playhead;
    }
  }

  lemma FirstPlannedInFile(c: Context, t: World)
    requires c.Valid() && c.mapper.FirstPiece() <= t.core.playhead && PlanOf(c, t) != []
    ensures 0 <= t.core.playhead + PlanOf(c, t)[0] < c.mapper.EndPiece()
  {
    PlanStartsAtFirstWanted(WindowNow(c, t.core), t.done);
    DivMono(0, c.mapper.FileOffset(), c.mapper.layout.pieceLength);
  }

  lemma FirstPlanned(c: Context, w: World, r: Round) returns (q: int)
    requires c.Valid() && Orderly(c.config) && Safe(c, w) && PlanOf(c, AtTick(c, w, r)) != []
    ensures MostUrgent(c, AtTick(c, w, r), q) && 0 <= q < c.mapper.EndPiece()
  {
    var t := AtTick(c, w, r);
    q := t.core.playhead + PlanOf(c, t)[0];
    PlanAtTick(c, w, r);
    FirstPlannedInFile(c, t);
    FirstPlannedIsMostUrgent(c, t, w.deadlines);
  }

  lemma ArrivalFeeds(c: Context, t: World, q: int)
    requires c.Valid() && MostUrgent(c, t, q) && 0 <= q < |t.done|
    ensures Feeds(c, t, [Mark(q)])
  {
    assert [Mark(q)][..0] == [];
    assert Complete(Run(c, t, [Mark(q)]).done, q);
  }

  /** Such rounds exist from any safe state: let the first planned piece arrive. */
  lemma FedRoundExists(c: Context, w: World, now: int, rate: int) returns (r: Round)
    requires c.Valid() && Orderly(c.config) && Safe(c, w) && c.mapper.EndPiece() <= |w.done|
    ensures Fed(c, w, r) && r.now == now && r.rate == rate
  {
    r := Round(now, rate, []);
    var plan := PlanOf(c, AtTick(c, w, r));
    if plan != [] {
      var q := FirstPlanned(c, w, r);
      ArrivalFeeds(c, AtTick(c, w, r), q);
      r := Round(now, rate, [Mark(q)]);
    }
  }

  ghost predicate AllFed(c: Context, w: World, rounds: seq<Round>)
    requires c.Valid()
    decreases |rounds|
  {
    rounds == [] || (Fed(c, w, rounds[0]) && AllFed(c, AfterRound(c, w, rounds[0]), rounds[1..]))
  }

  /** Some round's tick found its whole window complete. */
  ghost predicate WindowFills(c: Context, w: World, rounds: seq<Round>)
    requires c.Valid() && AllFed(c, w, rounds)
    decreases |rounds|
  {
    rounds != [] &&
    (WindowComplete(c, AtTick(c, w, rounds[0])) || WindowFills(c, AfterRound(c, w, rounds[0]), rounds[1..]))
  }

  /** However modes and boosts change the window meanwhile, more fed rounds than pieces missing ahead of the playhead
      reach a tick whose whole window is complete. */
  lemma {:induction false} FedRoundsFillTheWindow(c: Context, w: World, rounds: seq<Round>)
    requires c.Valid() && Orderly(c.config) && Safe(c, w) && AllFed(c, w, rounds)
    requires 0 <= c.geometry.pieceLength && 0 <= c.geometry.lastPieceLength
    requires |rounds| > 0
    requires |rounds| > c.mapper.EndPiece() - (w.core.playhead + RunOfPieces(w.done, w.core.playhead))
    ensures WindowFills(c, w, rounds)
    decreases |rounds|
  {
    FedRoundGrows(c, w, rounds[0]);
    if !WindowComplete(c, AtTick(c, w, rounds[0])) {
      FedRoundsFillTheWindow(c, AfterRound(c, w, rounds[0]), rounds[1..]);
    }
  }
}
