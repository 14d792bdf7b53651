/** What every run of the scheduler keeps: range requests, completion notices and ticks in any order, while the
    availability index grows on its own. */
module SchedulerRuns {
  import opened Arithmetic
  import opened TorrentLayout
  import opened ByteRangeMapping
  import opened PieceAvailability
  import opened SchedulerModel

  datatype Event =
    | RangeRequest(range: ByteRange, now: int)
    | PieceComplete(piece: int)      // the scheduler is told
    | Mark(piece: int)               // the availability index is told
    | Tick(now: int, rate: int)

  datatype World = World(core: Core, done: seq<bool>, deadlines: Deadlines)

  /** Offsets start at zero. A request may lie outside the file: the server has one range callback for all its streams,
      and it passes every range on without looking at the file it is for. */
  predicate ValidEvent(e: Event) { e.RangeRequest? ==> 0 <= e.range.start }

  ghost predicate ValidEvents(evs: seq<Event>) {
    forall i :: 0 <= i < |evs| ==> ValidEvent(evs[i])
  }

  function Refreshing(c: Context, w: World, core: Core, d: Deadlines): World
    requires c.Valid()
  {
    World(Refresh(c, core, w.done), w.done, Refreshed(c, core, w.done, d))
  }

  ghost function Step(c: Context, w: World, e: Event): World
    requires c.Valid() && ValidEvent(e)
  {
    match e
    case RangeRequest(range, now) =>
      Refreshing(c, w, Moved(c, w.core, range, now), if IsSeek(c, w.core, range) then map[] else w.deadlines)
    case PieceComplete(p) => w.(core := Notified(w.core, p))
    case Mark(p) => w.(done := Marked(w.done, p))
    case Tick(now, rate) => Refreshing(c, w, Ticked(c, w.core, w.done, now, rate), w.deadlines)
  }

  ghost function Run(c: Context, w: World, evs: seq<Event>): World
    requires c.Valid() && ValidEvents(evs)
  {
    if evs == [] then w else Step(c, Run(c, w, evs[..|evs| - 1]), evs[|evs| - 1])
  }

  lemma TwoSteps(c: Context, w: World, e: Event, f: Event)
    requires c.Valid() && ValidEvent(e) && ValidEvent(f)
    ensures Run(c, w, [e]) == Step(c, w, e)
    ensures Run(c, w, [e, f]) == Step(c, Step(c, w, e), f)
  {
    assert [e][..0] == [];
    assert [e, f][..1] == [e];
  }

  lemma ThreeSteps(c: Context, w: World, e: Event, f: Event, g: Event)
    requires c.Valid() && ValidEvent(e) && ValidEvent(f) && ValidEvent(g)
    ensures Run(c, w, [e, f, g]) == Step(c, Step(c, Step(c, w, e), f), g)
  {
    TwoSteps(c, w, e, f);
    assert [e, f, g][..2] == [e, f];
  }

  /** Running on is running once. */
  lemma {:induction false} RunsCompose(c: Context, w: World, evs: seq<Event>, more: seq<Event>)
    requires c.Valid() && ValidEvents(evs) && ValidEvents(more)
    ensures ValidEvents(evs + more) && Run(c, w, evs + more) == Run(c, Run(c, w, evs), more)
  {
    var all := evs + more;
    assert ValidEvents(all);
    if more == [] {
      assert all == evs;
    } else {
      var init := more[..|more| - 1];
      RunsCompose(c, w, evs, init);
      assert all[..|all| - 1] == evs + init;
    }
  }

  // ----- Marks alone

  /** A mark for each complete piece of `done` below n. */
  function MarksOf(done: seq<bool>, n: nat): seq<Event>
    requires n <= |done|
  {
    if n == 0 then [] else MarksOf(done, n - 1) + if done[n - 1] then [Mark(n - 1)] else []
  }

  /** `done` is `was` with the complete pieces of `more` below n added. */
  ghost predicate Added(was: seq<bool>, more: seq<bool>, n: nat, done: seq<bool>) {
    |done| == |was| == |more| && forall p :: 0 <= p < |done| ==> (done[p] <==> was[p] || (p < n && more[p]))
  }

  lemma AddedOneMore(was: seq<bool>, more: seq<bool>, n: nat, done: seq<bool>)
    requires n < |more| && Added(was, more, n, done)
    ensures Added(was, more, n + 1, if more[n] then Marked(done, n) else done)
  {
  }

  lemma OneMark(c: Context, w: World, evs: seq<Event>, p: int)
    requires c.Valid() && ValidEvents(evs)
    ensures ValidEvents(evs + [Mark(p)])
    ensures var was := Run(c, w, evs); Run(c, w, evs + [Mark(p)]) == was.(done := Marked(was.done, p))
  {
    RunsCompose(c, w, evs, [Mark(p)]);
    assert [Mark(p)][..0] == [];
  }

  /** Marks change nothing but the index. */
  lemma {:induction false} MarksAdd(c: Context, w: World, more: seq<bool>, n: nat)
    requires c.Valid() && n <= |more| == |w.done|
    ensures ValidEvents(MarksOf(more, n))
    ensures var w' := Run(c, w, MarksOf(more, n)); w' == w.(done := w'.done) && Added(w.done, more, n, w'.done)
  {
    if n > 0 {
      var evs := MarksOf(more, n - 1);
      MarksAdd(c, w, more, n - 1);
      AddedOneMore(w.done, more, n - 1, Run(c, w, evs).done);
      if more[n - 1] {
        OneMark(c, w, evs, n - 1);
      } else {
        assert MarksOf(more, n) == evs;
      }
    }
  }

  /** Marking the pieces a larger index has leads to that index. */
  lemma MarksLeadTo(c: Context, w: World, done: seq<bool>)
    requires c.Valid() && Grows(w.done, done)
    ensures ValidEvents(MarksOf(done, |done|)) && Run(c, w, MarksOf(done, |done|)) == w.(done := done)
  {
    MarksAdd(c, w, done, |done|);
    assert Run(c, w, MarksOf(done, |done|)).done == done;
  }

  /** A scheduler just built over an index already holding some pieces. */
  function Fresh(c: Context, done: seq<bool>, now: int): World
    requires c.Valid()
  {
    World(Core(StreamingFirst, c.mapper.FirstPiece(), 0, false, now, 0), done, map[])
  }

  /** The pieces of the plan a refresh has just made. */
  ghost function PlanMade(c: Context, w: World): set<int>
    requires c.Valid()
  {
    PlannedPieces(WindowNow(c, w.core), Plan(WindowNow(c, w.core), w.done))
  }

  // ----- Safety

  ghost predicate Safe(c: Context, w: World)
    requires c.Valid()
  {
    && c.mapper.FirstPiece() <= w.core.playhead
    && 0 <= w.core.activeDeadlines <= c.config.deadlineBudget
    && 0 <= w.core.stallCount
    && forall p :: p in w.deadlines ==> c.mapper.FirstPiece() <= p < c.mapper.EndPiece()
  }

  lemma RefreshingIsSafe(c: Context, w: World, core: Core, d: Deadlines)
    requires c.Valid() && Safe(c, World(core.(activeDeadlines := 0), w.done, d))
    ensures Safe(c, Refreshing(c, w, core, d))
  {
    var win := WindowNow(c, core);
    PlanBasics(win, w.done);
    PlaceMeaning(d, win, Plan(win, w.done));
  }

  lemma StepIsSafe(c: Context, w: World, e: Event)
    requires c.Valid() && ValidEvent(e) && Safe(c, w)
    ensures Safe(c, Step(c, w, e))
  {
    match e {
      case RangeRequest(range, now) =>
        DivMono(c.mapper.FileOffset(), c.mapper.FileOffset() + range.start, c.mapper.layout.pieceLength);
        RefreshingIsSafe(c, w, Moved(c, w.core, range, now), if IsSeek(c, w.core, range) then map[] else w.deadlines);
      case Tick(now, rate) =>
        RefreshingIsSafe(c, w, Ticked(c, w.core, w.done, now, rate), w.deadlines);
      case _ =>
    }
  }

  /** The file byte the playhead was last put on: the start of the last range requested, or the file's first byte. */
  function LastStart(evs: seq<Event>): int {
    if evs == [] then 0
    else if evs[|evs| - 1].RangeRequest? then evs[|evs| - 1].range.start
    else LastStart(evs[..|evs| - 1])
  }

  /** File byte k, which may lie past the file's end, is before the end of the file's last piece. */
  predicate BeforeLastPieceEnds(m: ByteRangeMapper, k: int)
    requires m.layout.Valid() && m.file < |m.layout.sizes|
  {
    m.FileOffset() + k < m.EndPiece() * m.layout.pieceLength
  }

  lemma PieceBeforeEndIff(m: ByteRangeMapper, k: nat)
    requires m.Valid()
    ensures m.Map(ByteRange(k, 0)).first < m.EndPiece() <==> BeforeLastPieceEnds(m, k)
  {
    var b, n := m.FileOffset() + k, m.layout.pieceLength;
    DivBounds(b, n);
    MulSucc(b / n, n);
    if b / n < m.EndPiece() {
      MulMono(b / n + 1, m.EndPiece(), n);
    } else {
      MulMono(m.EndPiece(), b / n, n);
    }
  }

  /** Active deadlines stay within the budget, every deadline on a piece of the file, and the playhead on the piece of
      the last range's start: at or after the file's first piece, and inside the file exactly when that range starts
      before the file's last piece ends. */
  lemma {:induction false} EveryRunIsSafe(c: Context, done: seq<bool>, t0: int, evs: seq<Event>)
    requires c.Valid() && ValidEvents(evs)
    ensures Safe(c, Run(c, Fresh(c, done, t0), evs))
    ensures 0 <= LastStart(evs)
    ensures Run(c, Fresh(c, done, t0), evs).core.playhead == c.mapper.Map(ByteRange(LastStart(evs), 0)).first
    ensures Run(c, Fresh(c, done, t0), evs).core.playhead < c.mapper.EndPiece()
       <==> BeforeLastPieceEnds(c.mapper, LastStart(evs))
  {
    if evs != [] {
      EveryRunIsSafe(c, done, t0, evs[..|evs| - 1]);
      StepIsSafe(c, Run(c, Fresh(c, done, t0), evs[..|evs| - 1]), evs[|evs| - 1]);
    }
    PieceBeforeEndIff(c.mapper, LastStart(evs));
  }

  ghost predicate RequestsInFile(m: ByteRangeMapper, evs: seq<Event>)
    requires m.Valid()
  {
    forall i :: 0 <= i < |evs| && evs[i].RangeRequest? ==> InFile(m, evs[i].range)
  }

  /** So a scheduler asked only for ranges of its own, non-empty file keeps its playhead inside the file's pieces. */
  lemma {:induction false} OwnRequestsKeepPlayhead(c: Context, done: seq<bool>, t0: int, evs: seq<Event>)
    requires c.Valid() && ValidEvents(evs) && RequestsInFile(c.mapper, evs) && 0 < c.mapper.FileSize()
    ensures c.mapper.FirstPiece() <= Run(c, Fresh(c, done, t0), evs).core.playhead < c.mapper.EndPiece()
  {
    if evs == [] {
      SpanStaysInFile(c.mapper, ByteRange(0, 0));
    } else {
      var init, e := evs[..|evs| - 1], evs[|evs| - 1];
      OwnRequestsKeepPlayhead(c, done, t0, init);
      if e.RangeRequest? {
        SpanStaysInFile(c.mapper, e.range);
      }
    }
  }

  lemma PlaceOnEmpty(win: Window, plan: seq<nat>)
    requires Ascending(plan)
    ensures HoldsExactly(Place(map[], win, plan), win, plan)
    ensures |Place(map[], win, plan)| == |plan|
  {
    var none: Deadlines := map[];
    PlaceMeaning(none, win, plan);
    PlannedCount(win, plan);
    KeysUnion(none, Place(none, win, plan), PlannedPieces(win, plan));
    assert none.Keys - PlannedPieces(win, plan) == {};
  }

  /** Right after a seek the handle holds the new plan and nothing else, each piece with the deadline of its position.
      */
  lemma SeekLeavesOnlyThePlan(c: Context, w: World, range: ByteRange, now: int)
    requires c.Valid() && ValidEvent(RangeRequest(range, now))
    requires IsSeek(c, w.core, range)
    ensures var w' := Step(c, w, RangeRequest(range, now));
      && HoldsExactly(w'.deadlines, WindowNow(c, w'.core), Plan(WindowNow(c, w'.core), w'.done))
      && |w'.deadlines| == w'.core.activeDeadlines <= c.config.deadlineBudget
      && w'.core.seekBoosting
  {
    var win := WindowNow(c, Moved(c, w.core, range, now));
    PlanBasics(win, w.done);
    PlaceOnEmpty(win, Plan(win, w.done));
  }

  lemma {:induction false} AvailabilityGrows(c: Context, w: World, evs: seq<Event>)
    requires c.Valid() && ValidEvents(evs)
    ensures Grows(w.done, Run(c, w, evs).done)
  {
    if evs != [] {
      AvailabilityGrows(c, w, evs[..|evs| - 1]);
    }
  }

  // ----- Active deadlines against the last plan

  /** The last plan and the notices received since it was made. */
  datatype Since = Since(planned: set<int>, notices: seq<int>)

  ghost function NextSince(c: Context, h: Since, e: Event, after: World): Since
    requires c.Valid()
  {
    match e
    case PieceComplete(p) => h.(notices := h.notices + [p])
    case Mark(_) => h
    case _ => Since(PlanMade(c, after), [])
  }

  ghost function SinceRefresh(c: Context, w: World, evs: seq<Event>): Since
    requires c.Valid() && ValidEvents(evs)
  {
    if evs == [] then Since({}, [])
    else
      var init, e := evs[..|evs| - 1], evs[|evs| - 1];
      NextSince(c, SinceRefresh(c, w, init), e, Step(c, Run(c, w, init), e))
  }

  /** Notices for the playhead or later: the ones that count down. */
  ghost function Late(notices: seq<int>, playhead: int): seq<int> {
    if notices == [] then []
    else
      var p := notices[|notices| - 1];
      Late(notices[..|notices| - 1], playhead) + if p >= playhead then [p] else []
  }

  lemma LateStep(notices: seq<int>, p: int, playhead: int)
    ensures |Late(notices + [p], playhead)| == |Late(notices, playhead)| + if p >= playhead then 1 else 0
  {
    assert (notices + [p])[..|notices|] == notices;
  }

  ghost function Hit(planned: set<int>, notices: seq<int>): set<int> {
    set p | p in planned && p in notices
  }

  ghost predicate NoneBefore(pieces: set<int>, playhead: int) {
    forall p :: p in pieces ==> p >= playhead
  }

  lemma RefreshingCounts(c: Context, w: World, core: Core, d: Deadlines)
    requires c.Valid()
    ensures var w' := Refreshing(c, w, core, d);
      && w'.done == w.done && w'.core.playhead == core.playhead
      && |PlanMade(c, w')| == w'.core.activeDeadlines
      && NoneBefore(PlanMade(c, w'), core.playhead)
  {
    var win := WindowNow(c, core);
    PlanBasics(win, w.done);
    PlannedCount(win, Plan(win, w.done));
  }

  /** The counter is the plan's size less the late notices, floored at zero; the plan lies at or after the playhead. */
  ghost predicate Counted(core: Core, h: Since) {
    && core.activeDeadlines == Max(0, |h.planned| - |Late(h.notices, core.playhead)|)
    && NoneBefore(h.planned, core.playhead)
  }

  lemma CountedStep(c: Context, w: World, h: Since, e: Event)
    requires c.Valid() && ValidEvent(e) && Counted(w.core, h)
    ensures Counted(Step(c, w, e).core, NextSince(c, h, e, Step(c, w, e)))
  {
    match e {
      case PieceComplete(p) =>
        LateStep(h.notices, p, w.core.playhead);
      case Mark(_) =>
      case RangeRequest(range, now) =>
        RefreshingCounts(c, w, Moved(c, w.core, range, now), if IsSeek(c, w.core, range) then map[] else w.deadlines);
      case Tick(now, rate) =>
        RefreshingCounts(c, w, Ticked(c, w.core, w.done, now, rate), w.deadlines);
    }
  }

  lemma {:induction false} CounterIsPlanLessNotices(c: Context, done: seq<bool>, t0: int, evs: seq<Event>)
    requires c.Valid() && ValidEvents(evs)
    ensures Counted(Run(c, Fresh(c, done, t0), evs).core, SinceRefresh(c, Fresh(c, done, t0), evs))
  {
    if evs != [] {
      var w0, init := Fresh(c, done, t0), evs[..|evs| - 1];
      CounterIsPlanLessNotices(c, done, t0, init);
      CountedStep(c, Run(c, w0, init), SinceRefresh(c, w0, init), evs[|evs| - 1]);
    }
  }

  /** Every late notice is for a planned piece and no piece is notified twice. */
  ghost predicate DistinctPlanned(late: seq<int>, planned: set<int>) {
    && (forall i :: 0 <= i < |late| ==> late[i] in planned)
    && (forall i, j :: 0 <= i < j < |late| ==> late[i] != late[j])
  }

  lemma DistinctPlannedStep(late: seq<int>, p: int, planned: set<int>)
    ensures DistinctPlanned(late + [p], planned) <==> DistinctPlanned(late, planned) && p in planned && p !in late
  {
    var more := late + [p];
    assert forall i :: 0 <= i < |late| ==> more[i] == late[i];
    assert more[|late|] == p;
    assert p in late ==> exists i :: 0 <= i < |late| && more[i] == p;
  }

  lemma HitStep(planned: set<int>, notices: seq<int>, p: int)
    ensures Hit(planned, notices + [p]) == Hit(planned, notices) + if p in planned then {p} else {}
  {
  }

  /** How the planned pieces that have been hit compare with the late notices. */
  ghost predicate HitsMatch(planned: set<int>, hit: set<int>, late: seq<int>) {
    && |hit| <= |late|
    && (forall p :: p in hit <==> p in planned && p in late)
    && (|hit| == |late| <==> DistinctPlanned(late, planned))
  }

  lemma MatchOneMore(planned: set<int>, hit: set<int>, late: seq<int>, p: int)
    requires HitsMatch(planned, hit, late)
    ensures HitsMatch(planned, hit + if p in planned then {p} else {}, late + [p])
  {
    DistinctPlannedStep(late, p, planned);
    if p in planned && p in late {
      assert hit + {p} == hit;
    }
  }

  lemma {:induction false} LateHits(planned: set<int>, notices: seq<int>, playhead: int)
    requires NoneBefore(planned, playhead)
    ensures HitsMatch(planned, Hit(planned, notices), Late(notices, playhead))
  {
    if notices == [] {
      assert Hit(planned, notices) == {};
    } else {
      var init, p := notices[..|notices| - 1], notices[|notices| - 1];
      LateHits(planned, init, playhead);
      assert notices == init + [p];
      HitStep(planned, init, p);
      MatchOneMore(planned, Hit(planned, init), Late(init, playhead), p);
      if p < playhead {
        assert Hit(planned, notices) == Hit(planned, init);
        assert Late(notices, playhead) == Late(init, playhead);
      }
    }
  }

  lemma PartsAddUp(all: set<int>, part: set<int>)
    requires part <= all
    ensures |all| == |all - part| + |part|
  {
    assert all == (all - part) + part;
  }

  lemma PendingAgainstCounter(planned: set<int>, notices: seq<int>, playhead: int, active: int)
    requires NoneBefore(planned, playhead) && active == Max(0, |planned| - |Late(notices, playhead)|)
    ensures var pending := planned - Hit(planned, notices);
      && active <= |pending|
      && (active == |pending| <==> DistinctPlanned(Late(notices, playhead), planned) || pending == {})
  {
    LateHits(planned, notices, playhead);
    PartsAddUp(planned, Hit(planned, notices));
  }

  /** Active deadlines never exceed the planned pieces not yet notified, and equal them exactly when the late notices
      are distinct planned pieces or the whole plan has been notified. */
  lemma ActiveNeverExceedsPending(c: Context, done: seq<bool>, t0: int, evs: seq<Event>)
    requires c.Valid() && ValidEvents(evs)
    ensures var w, h := Run(c, Fresh(c, done, t0), evs), SinceRefresh(c, Fresh(c, done, t0), evs);
            var pending := h.planned - Hit(h.planned, h.notices);
      && w.core.activeDeadlines <= |pending|
      && (w.core.activeDeadlines == |pending|
          <==> DistinctPlanned(Late(h.notices, w.core.playhead), h.planned) || pending == {})
  {
    var w, h := Run(c, Fresh(c, done, t0), evs), SinceRefresh(c, Fresh(c, done, t0), evs);
    CounterIsPlanLessNotices(c, done, t0, evs);
    PendingAgainstCounter(h.planned, h.notices, w.core.playhead, w.core.activeDeadlines);
  }
}
