/** What one call of the piece scheduler does, as functions of its state, the completed pieces and the handle's
    deadlines. */
module SchedulerModel {
  import opened Arithmetic
  import opened TorrentLayout
  import opened ByteRangeMapping
  import opened PieceAvailability

  datatype StreamMode = StreamingFirst | DownloadAssist | DownloadFirst

  datatype Config = Config(
    hotWindowPieces: nat,
    lookaheadPieces: nat,
    seekBoostPieces: nat,
    deadlineBudget: nat,
    seekBoostDurationMs: int,
    minContiguousBytes: int,
    stallCountThreshold: int,
    minSustainedRate: real)

  datatype Context = Context(config: Config, mapper: ByteRangeMapper, geometry: Geometry) {
    ghost predicate Valid() { mapper.Valid() }
  }

  /** The scheduler's own fields. */
  datatype Core = Core(
    mode: StreamMode,
    playhead: int,
    activeDeadlines: int,
    seekBoosting: bool,
    seekBoostStart: int,
    stallCount: int)

  type Deadlines = map<int, int>  // piece to milliseconds, as held by the torrent handle

  // ----- The plan

  datatype Window = Window(playhead: int, hot: nat, lookahead: nat, firstPiece: int, endPiece: int, budget: nat) {
    function Size(): nat { hot + lookahead }

    function DeadlineAt(i: int): int {
      if i < hot then 100 + i * 50 else 2000 + (i - hot) * 200
    }

    /** Position i of the window is a piece of the file that is not complete. */
    predicate Wanted(done: seq<bool>, i: int) {
      firstPiece <= playhead + i < endPiece && !Complete(done, playhead + i)
    }
  }

  function WindowOf(c: Context, mode: StreamMode, playhead: int, boosting: bool): Window
    requires c.Valid()
  {
    var hot := c.config.hotWindowPieces + if boosting then c.config.seekBoostPieces else 0;
    var halved := Max(3, hot / 2);
    Window(playhead,
           if mode == DownloadFirst then halved else hot,
           match mode
             case StreamingFirst => c.config.lookaheadPieces
             case DownloadAssist => c.config.lookaheadPieces * 2
             case DownloadFirst => halved,
           c.mapper.FirstPiece(), c.mapper.EndPiece(), c.config.deadlineBudget)
  }

  /** Wanted positions below n, ascending. */
  function WantedBelow(w: Window, done: seq<bool>, n: nat): seq<nat> {
    if n == 0 then []
    else WantedBelow(w, done, n - 1) + if w.Wanted(done, n - 1) then [n - 1] else []
  }

  function Take(s: seq<nat>, k: nat): seq<nat> {
    if |s| <= k then s else s[..k]
  }

  /** The plan as far as position n of the window has been looked at. */
  function PlanBelow(w: Window, done: seq<bool>, n: nat): seq<nat> {
    Take(WantedBelow(w, done, n), w.budget)
  }

  /** The positions given a deadline, in the order they are given one. */
  function Plan(w: Window, done: seq<bool>): seq<nat> {
    PlanBelow(w, done, w.Size())
  }

  /** The handle's deadlines after set_piece_deadline for each position of the plan in turn. */
  function Place(d: Deadlines, w: Window, plan: seq<nat>): Deadlines {
    if plan == [] then d
    else
      var i := plan[|plan| - 1];
      Place(d, w, plan[..|plan| - 1])[w.playhead + i := w.DeadlineAt(i)]
  }

  ghost function PlannedPieces(w: Window, plan: seq<nat>): set<int> {
    set i | i in plan :: w.playhead + i
  }

  /** The handle holds exactly the plan: each planned piece with the deadline of its position, and nothing else. */
  ghost predicate HoldsExactly(d: Deadlines, w: Window, plan: seq<nat>) {
    && d.Keys == PlannedPieces(w, plan)
    && forall p :: p in d ==> d[p] == w.DeadlineAt(p - w.playhead)
  }

  // ----- The operations

  function WindowNow(c: Context, s: Core): Window
    requires c.Valid()
  {
    WindowOf(c, s.mode, s.playhead, s.seekBoosting)
  }

  function Refresh(c: Context, s: Core, done: seq<bool>): Core
    requires c.Valid()
  {
    s.(activeDeadlines := |Plan(WindowNow(c, s), done)|)
  }

  function Refreshed(c: Context, s: Core, done: seq<bool>, d: Deadlines): Deadlines
    requires c.Valid()
  {
    Place(d, WindowNow(c, s), Plan(WindowNow(c, s), done))
  }

  function Abs(x: int): int { if x < 0 then -x else x }

  predicate IsSeek(c: Context, s: Core, range: ByteRange)
    requires c.Valid()
  {
    Abs(c.mapper.Map(range).first - s.playhead) > c.config.hotWindowPieces
  }

  /** Playhead and boost after a range request, before the deadlines are refreshed. */
  function Moved(c: Context, s: Core, range: ByteRange, now: int): Core
    requires c.Valid()
  {
    var moved := s.(playhead := c.mapper.Map(range).first);
    if IsSeek(c, s, range) then moved.(seekBoosting := true, seekBoostStart := now) else moved
  }

  function Notified(s: Core, piece: int): Core {
    if piece >= s.playhead && s.activeDeadlines > 0 then s.(activeDeadlines := s.activeDeadlines - 1) else s
  }

  function Contiguous(c: Context, done: seq<bool>, playhead: int): int
    requires c.Valid()
  {
    ContiguousBytes(done, c.geometry, playhead, c.mapper.Map(ByteRange(0, 0)).firstOffset)
  }

  function NextMode(cfg: Config, mode: StreamMode, stallCount: int, contiguous: int, rate: int): StreamMode {
    match mode
    case StreamingFirst =>
      if stallCount >= cfg.stallCountThreshold then DownloadAssist else StreamingFirst
    case DownloadAssist =>
      if contiguous >= cfg.minContiguousBytes && stallCount == 0 then StreamingFirst
      else if rate as real < cfg.minSustainedRate && stallCount >= cfg.stallCountThreshold * 2 then DownloadFirst
      else DownloadAssist
    case DownloadFirst =>
      if contiguous >= cfg.minContiguousBytes then DownloadAssist else DownloadFirst
  }

  /** Boost, stall count and mode after a tick, before the deadlines are refreshed. */
  function Ticked(c: Context, s: Core, done: seq<bool>, now: int, rate: int): Core
    requires c.Valid()
  {
    var stalls := if Complete(done, s.playhead) then 0 else s.stallCount + 1;
    var mode := NextMode(c.config, s.mode, stalls, Contiguous(c, done, s.playhead), rate);
    s.(mode := mode,
       stallCount := if mode == s.mode then stalls else 0,
       seekBoosting := s.seekBoosting && now - s.seekBoostStart < c.config.seekBoostDurationMs)
  }

  // ----- What a plan is

  ghost predicate Ascending(s: seq<nat>) {
    forall j, k :: 0 <= j < k < |s| ==> s[j] < s[k]
  }

  /** s lists the wanted positions below n, ascending. */
  ghost predicate ListsWanted(w: Window, done: seq<bool>, n: nat, s: seq<nat>) {
    && (forall k :: 0 <= k < |s| ==> s[k] < n && w.Wanted(done, s[k]))
    && Ascending(s)
    && (forall i: nat :: i < n && w.Wanted(done, i) ==> i in s)
  }

  lemma ListsOneMore(w: Window, done: seq<bool>, n: nat, s: seq<nat>)
    requires ListsWanted(w, done, n, s)
    ensures ListsWanted(w, done, n + 1, s + if w.Wanted(done, n) then [n] else [])
  {
    var more := s + if w.Wanted(done, n) then [n] else [];
    assert forall k :: 0 <= k < |s| ==> more[k] == s[k];
    forall i: nat | i < n + 1 && w.Wanted(done, i) ensures i in more {
      if i == n {
        assert more[|s|] == n;
      }
    }
  }

  lemma {:induction false} WantedBelowMeaning(w: Window, done: seq<bool>, n: nat)
    ensures ListsWanted(w, done, n, WantedBelow(w, done, n))
  {
    if n > 0 {
      WantedBelowMeaning(w, done, n - 1);
      ListsOneMore(w, done, n - 1, WantedBelow(w, done, n - 1));
    }
  }

  lemma {:induction false} WantedBelowGrows(w: Window, done: seq<bool>, n: nat, m: nat)
    requires n <= m
    ensures WantedBelow(w, done, n) <= WantedBelow(w, done, m)
  {
    if n < m {
      WantedBelowGrows(w, done, n, m - 1);
    }
  }

  /** Wanted positions before position i. */
  ghost function WantedBefore(w: Window, done: seq<bool>, i: nat): set<nat> {
    set j: nat | j < i && w.Wanted(done, j)
  }

  ghost function Elements(s: seq<nat>): set<nat> {
    set j | j in s
  }

  lemma {:induction false} AscendingRank(s: seq<nat>)
    requires Ascending(s)
    ensures |Elements(s)| == |s|
  {
    if s != [] {
      var init, i := s[..|s| - 1], s[|s| - 1];
      AscendingRank(init);
      assert s == init + [i];
      assert Elements(s) == Elements(init) + {i};
      assert i !in init;
    }
  }

  lemma PlanBasics(w: Window, done: seq<bool>)
    ensures var plan := Plan(w, done);
      && Ascending(plan)
      && |plan| <= w.budget
      && forall i :: i in plan ==> i < w.Size() && w.Wanted(done, i)
  {
    WantedBelowMeaning(w, done, w.Size());
    assert forall k :: 0 <= k < |Plan(w, done)| ==> Plan(w, done)[k] == WantedBelow(w, done, w.Size())[k];
  }

  lemma RankInWanted(w: Window, done: seq<bool>, s: seq<nat>, k: nat)
    requires s == WantedBelow(w, done, w.Size()) && k < |s|
    ensures |WantedBefore(w, done, s[k])| == k
  {
    WantedBelowMeaning(w, done, w.Size());
    AscendingRank(s[..k]);
    assert WantedBefore(w, done, s[k]) == Elements(s[..k]) by {
      forall j: nat ensures j in WantedBefore(w, done, s[k]) <==> j in s[..k] {
        if j in WantedBefore(w, done, s[k]) {
          var a :| 0 <= a < |s| && s[a] == j;
          assert a < k;
          assert s[..k][a] == j;
        }
      }
    }
  }

  /** The plan lists, each once and in order, exactly the first `budget` missing file pieces of the window. */
  lemma PlanIsFirstMissing(w: Window, done: seq<bool>)
    ensures var plan := Plan(w, done);
      && Ascending(plan)
      && |plan| <= w.budget
      && (forall i: nat :: i in plan
           <==> i < w.Size() && w.Wanted(done, i) && |WantedBefore(w, done, i)| < w.budget)
  {
    var s, plan := WantedBelow(w, done, w.Size()), Plan(w, done);
    WantedBelowMeaning(w, done, w.Size());
    assert forall k :: 0 <= k < |plan| ==> plan[k] == s[k];
    forall i: nat
      ensures i in plan <==> i < w.Size() && w.Wanted(done, i) && |WantedBefore(w, done, i)| < w.budget
    {
      if i in s {
        var k :| 0 <= k < |s| && s[k] == i;
        RankInWanted(w, done, s, k);
        assert k < |plan| ==> plan[k] == i;
        assert i in plan ==> k < |plan|;
      }
    }
  }

  /** Deadlines rise strictly along the window exactly when the hot part holds at most 38 pieces. */
  lemma DeadlinesRiseIff(w: Window)
    ensures (forall i, j :: 0 <= i < j < w.Size() ==> w.DeadlineAt(i) < w.DeadlineAt(j))
       <==> w.hot <= 38 || w.lookahead == 0
  {
    if w.hot > 38 && w.lookahead > 0 {
      assert w.DeadlineAt(w.hot - 1) >= w.DeadlineAt(w.hot);
    }
  }

  /** The hot part is at most the configured window plus the boost, or 3, in every mode. */
  lemma HotPartIsBounded(c: Context, mode: StreamMode, playhead: int, boosting: bool)
    requires c.Valid()
    ensures WindowOf(c, mode, playhead, boosting).hot <= Max(3, c.config.hotWindowPieces + c.config.seekBoostPieces)
    ensures mode != DownloadFirst ==> WindowOf(c, mode, playhead, boosting).hot >= c.config.hotWindowPieces
    ensures c.config.hotWindowPieces > 0 ==> WindowOf(c, mode, playhead, boosting).hot > 0
  {
  }

  /** d' is d with the given pieces on the deadlines of their positions. */
  ghost predicate Placed(d: Deadlines, w: Window, pieces: set<int>, d': Deadlines) {
    && d'.Keys == d.Keys + pieces
    && forall p :: p in d' ==> d'[p] == if p in pieces then w.DeadlineAt(p - w.playhead) else d[p]
  }

  lemma PlacedOneMore(d: Deadlines, w: Window, pieces: set<int>, d': Deadlines, i: nat)
    requires Placed(d, w, pieces, d')
    ensures Placed(d, w, pieces + {w.playhead + i}, d'[w.playhead + i := w.DeadlineAt(i)])
  {
  }

  lemma PlannedAt(w: Window, plan: seq<nat>, p: int)
    ensures p in PlannedPieces(w, plan) <==> p - w.playhead in plan
  {
    if p - w.playhead in plan {
      var i: nat := p - w.playhead;
      assert i in plan && w.playhead + i == p;
    }
  }

  lemma PlannedOneMore(w: Window, init: seq<nat>, i: nat)
    ensures PlannedPieces(w, init + [i]) == PlannedPieces(w, init) + {w.playhead + i}
  {
    forall p ensures p in PlannedPieces(w, init + [i]) <==> p in PlannedPieces(w, init) + {w.playhead + i} {
      PlannedAt(w, init + [i], p);
      PlannedAt(w, init, p);
    }
  }

  /** Placing a plan gives each of its pieces its deadline and touches no other piece. */
  lemma {:induction false} PlaceMeaning(d: Deadlines, w: Window, plan: seq<nat>)
    ensures Placed(d, w, PlannedPieces(w, plan), Place(d, w, plan))
  {
    if plan != [] {
      var init, i := plan[..|plan| - 1], plan[|plan| - 1];
      PlaceMeaning(d, w, init);
      PlacedOneMore(d, w, PlannedPieces(w, init), Place(d, w, init), i);
      assert plan == init + [i];
      PlannedOneMore(w, init, i);
    }
  }

  lemma {:induction false} PlannedCount(w: Window, plan: seq<nat>)
    requires Ascending(plan)
    ensures |PlannedPieces(w, plan)| == |plan|
  {
    if plan == [] {
      assert PlannedPieces(w, plan) == {};
    } else {
      var init, i := plan[..|plan| - 1], plan[|plan| - 1];
      PlannedCount(w, init);
      assert plan == init + [i];
      PlannedOneMore(w, init, i);
      assert i !in init;
    }
  }

  lemma KeysUnion(d: Deadlines, d': Deadlines, pieces: set<int>)
    requires d'.Keys == d.Keys + pieces
    ensures |d'| == |pieces| + |d.Keys - pieces|
    ensures d'.Keys == pieces <==> d.Keys <= pieces
  {
    assert d'.Keys == pieces + (d.Keys - pieces);
    assert |d'| == |d'.Keys|;
  }

  lemma PlacedIsUnique(w: Window, pieces: set<int>, d: Deadlines, d': Deadlines, e: Deadlines, e': Deadlines)
    requires Placed(d, w, pieces, d') && Placed(e, w, pieces, e') && e == map[]
    ensures d' == e' <==> d.Keys <= pieces
  {
    if d.Keys <= pieces {
      assert d'.Keys == pieces == e'.Keys;
      assert forall p :: p in d' <==> p in d'.Keys;
      assert forall p :: p in e' <==> p in e'.Keys;
      assert forall p :: p in d' ==> d'[p] == e'[p];
    } else {
      assert d'.Keys != e'.Keys;
    }
  }

  lemma OnlyThePlanIff(d: Deadlines, w: Window, plan: seq<nat>)
    ensures Place(d, w, plan) == Place(map[], w, plan) <==> d.Keys <= PlannedPieces(w, plan)
  {
    PlaceMeaning(d, w, plan);
    PlaceMeaning(map[], w, plan);
    PlacedIsUnique(w, PlannedPieces(w, plan), d, Place(d, w, plan), map[], Place(map[], w, plan));
  }

  /** The budget bounds each refresh, not the handle: after one, the handle holds just the plan exactly when every
      deadline it held before was for a planned piece, and otherwise the stale ones come on top. */
  lemma HandleHoldsPlanAndStale(c: Context, s: Core, done: seq<bool>, d: Deadlines)
    requires c.Valid()
    ensures var w, d' := WindowNow(c, s), Refreshed(c, s, done, d);
            var pieces := PlannedPieces(w, Plan(w, done));
      && |pieces| == Refresh(c, s, done).activeDeadlines <= c.config.deadlineBudget
      && |d'| == |pieces| + |d.Keys - pieces|
      && (d' == Place(map[], w, Plan(w, done)) <==> d.Keys <= pieces)
  {
    var w, d' := WindowNow(c, s), Refreshed(c, s, done, d);
    var plan := Plan(w, done);
    PlanBasics(w, done);
    OnlyThePlanIff(d, w, plan);
    PlaceMeaning(d, w, plan);
    PlannedCount(w, plan);
    KeysUnion(d, d', PlannedPieces(w, plan));
  }
}
