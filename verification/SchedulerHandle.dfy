/** How many deadlines gather on the torrent handle. The budget bounds each plan; what the handle holds is every plan
    made since the last seek. */
module SchedulerHandle {
  import opened Arithmetic
  import opened TorrentLayout
  import opened ByteRangeMapping
  import opened PieceAvailability
  import opened SchedulerModel
  import opened SchedulerRuns

  /** The pieces of all plans made since the last seek, or since the start. */
  ghost function PlannedSinceSeek(c: Context, w: World, evs: seq<Event>): set<int>
    requires c.Valid() && ValidEvents(evs)
  {
    if evs == [] then {}
    else
      var init, e := evs[..|evs| - 1], evs[|evs| - 1];
      var was, before := Run(c, w, init), PlannedSinceSeek(c, w, init);
      match e
      case RangeRequest(range, _) =>
        (if IsSeek(c, was.core, range) then {} else before) + PlanMade(c, Step(c, was, e))
      case Tick(_, _) => before + PlanMade(c, Step(c, was, e))
      case _ => before
  }

  lemma RefreshingAdds(c: Context, w: World, core: Core, d: Deadlines)
    requires c.Valid()
    ensures Refreshing(c, w, core, d).deadlines.Keys == d.Keys + PlanMade(c, Refreshing(c, w, core, d))
  {
    var win := WindowNow(c, core);
    PlanBasics(win, w.done);
    PlaceMeaning(d, win, Plan(win, w.done));
  }

  /** After any run the handle holds a deadline for exactly the pieces planned since the last seek, so it exceeds the
      budget exactly when these do. */
  lemma {:induction false} HandleHoldsPlansSinceSeek(c: Context, done: seq<bool>, t0: int, evs: seq<Event>)
    requires c.Valid() && ValidEvents(evs)
    ensures var w, planned := Run(c, Fresh(c, done, t0), evs), PlannedSinceSeek(c, Fresh(c, done, t0), evs);
      && w.deadlines.Keys == planned
      && (|w.deadlines| > c.config.deadlineBudget <==> |planned| > c.config.deadlineBudget)
  {
    var w0 := Fresh(c, done, t0);
    if evs != [] {
      var init, e := evs[..|evs| - 1], evs[|evs| - 1];
      HandleHoldsPlansSinceSeek(c, done, t0, init);
      var was := Run(c, w0, init);
      match e {
        case RangeRequest(range, now) =>
          RefreshingAdds(c, was, Moved(c, was.core, range, now),
                         if IsSeek(c, was.core, range) then map[] else was.deadlines);
        case Tick(now, rate) =>
          RefreshingAdds(c, was, Ticked(c, was.core, was.done, now, rate), was.deadlines);
        case _ =>
      }
    }
    assert |Run(c, w0, evs).deadlines| == |Run(c, w0, evs).deadlines.Keys|;
  }

  // ----- When the budget can be exceeded

  ghost function MissingOfFile(c: Context, done: seq<bool>): set<int>
    requires c.Valid()
  {
    set p | c.mapper.FirstPiece() <= p < c.mapper.EndPiece() && !Complete(done, p)
  }

  lemma PlanIsMissing(c: Context, w: World)
    requires c.Valid()
    ensures PlanMade(c, w) <= MissingOfFile(c, w.done)
    ensures |PlanMade(c, w)| <= c.config.deadlineBudget
  {
    var win := WindowNow(c, w.core);
    PlanBasics(win, w.done);
    PlannedCount(win, Plan(win, w.done));
  }

  lemma {:induction false} OnlyMissingPlanned(c: Context, w: World, evs: seq<Event>)
    requires c.Valid() && ValidEvents(evs)
    ensures PlannedSinceSeek(c, w, evs) <= MissingOfFile(c, w.done)
    ensures c.config.deadlineBudget == 0 ==> PlannedSinceSeek(c, w, evs) == {}
  {
    if evs != [] {
      var init, e := evs[..|evs| - 1], evs[|evs| - 1];
      OnlyMissingPlanned(c, w, init);
      var now := Step(c, Run(c, w, init), e);
      PlanIsMissing(c, now);
      AvailabilityGrows(c, w, evs);
      assert now == Run(c, w, evs);
    }
  }

  lemma SubsetSize(a: set<int>, b: set<int>)
    requires a <= b
    ensures |a| <= |b|
  {
    assert b == a + (b - a);
  }

  /** A byte of piece p, counted from the file's first. */
  function ByteOf(m: ByteRangeMapper, p: int): int
    requires m.layout.Valid() && m.file < |m.layout.sizes|
  {
    Max(0, p * m.layout.pieceLength - m.FileOffset())
  }

  lemma ByteAtPiece(m: ByteRangeMapper, p: int)
    requires m.Valid() && m.FirstPiece() <= p
    ensures m.Map(ByteRange(ByteOf(m, p), ByteOf(m, p))).first == p
  {
    var n, base := m.layout.pieceLength, m.FileOffset();
    DivBounds(base, n);
    if p > m.FirstPiece() {
      MulMono(m.FirstPiece() + 1, p, n);
      MulSucc(m.FirstPiece(), n);
    }
    DivUnique(base + ByteOf(m, p), n, p);
  }

  lemma ByteOfPiece(m: ByteRangeMapper, p: int)
    requires m.Valid() && m.FirstPiece() <= p < m.EndPiece()
    ensures InFile(m, ByteRange(ByteOf(m, p), ByteOf(m, p)))
    ensures m.Map(ByteRange(ByteOf(m, p), ByteOf(m, p))).first == p
  {
    var n, last := m.layout.pieceLength, m.FileOffset() + m.FileSize() - 1;
    DivBounds(last, n);
    MulMono(p, last / n, n);
    ByteAtPiece(m, p);
  }

  /** Requests that walk through the file a piece at a time, up to piece `end`. */
  function Walk(m: ByteRangeMapper, end: int): seq<Event>
    requires m.layout.Valid() && m.file < |m.layout.sizes|
    decreases end - m.FirstPiece()
  {
    if end <= m.FirstPiece() then []
    else
      var k := ByteOf(m, end - 1);
      Walk(m, end - 1) + [RangeRequest(ByteRange(k, k), 0)]
  }

  /** A plan made with the playhead on a missing piece of the file includes it. */
  lemma PlayheadIsPlanned(c: Context, w: World)
    requires c.Valid() && c.config.hotWindowPieces >= 1 && c.config.deadlineBudget >= 1
    requires w.core.playhead in MissingOfFile(c, w.done)
    ensures w.core.playhead in PlanMade(c, w)
  {
    var win := WindowNow(c, w.core);
    HotPartIsBounded(c, w.core.mode, w.core.playhead, w.core.seekBoosting);
    PlanIsFirstMissing(win, w.done);
    assert WantedBefore(win, w.done, 0) == {};
    assert 0 in Plan(win, w.done);
  }

  lemma WalkStep(c: Context, w: World, range: ByteRange)
    requires c.Valid() && c.config.hotWindowPieces >= 1 && c.config.deadlineBudget >= 1
    requires InFile(c.mapper, range)
    requires Abs(c.mapper.Map(range).first - w.core.playhead) <= 1
    ensures var w' := Step(c, w, RangeRequest(range, 0));
      && w'.done == w.done
      && w'.core.playhead == c.mapper.Map(range).first
      && (forall p :: p in w.deadlines ==> p in w'.deadlines)
      && (w'.core.playhead in MissingOfFile(c, w.done) ==> w'.core.playhead in w'.deadlines)
  {
    var moved := Moved(c, w.core, range, 0);
    RefreshingAdds(c, w, moved, w.deadlines);
    var w' := Refreshing(c, w, moved, w.deadlines);
    assert forall p :: p in w'.deadlines <==> p in w'.deadlines.Keys;
    if w'.core.playhead in MissingOfFile(c, w.done) {
      PlayheadIsPlanned(c, w');
    }
  }

  /** A walk has come to piece `end`: the playhead is on the piece before it, and all missing pieces so far are on the
      handle. */
  ghost predicate WalkedTo(c: Context, done: seq<bool>, w: World, end: int)
    requires c.Valid()
  {
    && w.done == done
    && w.core.playhead == Max(c.mapper.FirstPiece(), end - 1)
    && forall p :: p in MissingOfFile(c, done) && p < end ==> p in w.deadlines
  }

  lemma WalkOn(c: Context, done: seq<bool>, w: World, end: int, range: ByteRange)
    requires c.Valid() && c.config.hotWindowPieces >= 1 && c.config.deadlineBudget >= 1
    requires c.mapper.FirstPiece() < end && WalkedTo(c, done, w, end - 1)
    requires InFile(c.mapper, range) && c.mapper.Map(range).first == end - 1
    ensures WalkedTo(c, done, Step(c, w, RangeRequest(range, 0)), end)
  {
    WalkStep(c, w, range);
  }

  /** Walking is never a seek, so the deadline of every missing piece walked over stays. */
  lemma {:induction false} WalkCollects(c: Context, done: seq<bool>, t0: int, end: int)
    requires c.Valid() && c.config.hotWindowPieces >= 1 && c.config.deadlineBudget >= 1
    requires c.mapper.FirstPiece() <= end <= c.mapper.EndPiece()
    ensures ValidEvents(Walk(c.mapper, end))
    ensures WalkedTo(c, done, Run(c, Fresh(c, done, t0), Walk(c.mapper, end)), end)
    decreases end - c.mapper.FirstPiece()
  {
    if end > c.mapper.FirstPiece() {
      WalkCollects(c, done, t0, end - 1);
      ByteOfPiece(c.mapper, end - 1);
      var walk, init := Walk(c.mapper, end), Walk(c.mapper, end - 1);
      assert walk[..|walk| - 1] == init;
      WalkOn(c, done, Run(c, Fresh(c, done, t0), init), end, walk[|walk| - 1].range);
    }
  }

  ghost predicate Exceeds(c: Context, done: seq<bool>, t0: int, evs: seq<Event>)
    requires c.Valid()
  {
    ValidEvents(evs) && |Run(c, Fresh(c, done, t0), evs).deadlines| > c.config.deadlineBudget
  }

  lemma WalkExceeds(c: Context, done: seq<bool>, t0: int)
    requires c.Valid() && c.config.hotWindowPieces >= 1
    requires 1 <= c.config.deadlineBudget < |MissingOfFile(c, done)|
    ensures Exceeds(c, done, t0, Walk(c.mapper, c.mapper.EndPiece()))
  {
    var end, missing := c.mapper.EndPiece(), MissingOfFile(c, done);
    WalkCollects(c, done, t0, end);
    var d := Run(c, Fresh(c, done, t0), Walk(c.mapper, end)).deadlines;
    SubsetSize(missing, d.Keys);
    assert |d| == |d.Keys|;
  }

  lemma ExceedsOnlyIf(c: Context, done: seq<bool>, t0: int, evs: seq<Event>)
    requires c.Valid() && Exceeds(c, done, t0, evs)
    ensures 1 <= c.config.deadlineBudget < |MissingOfFile(c, done)|
  {
    HandleHoldsPlansSinceSeek(c, done, t0, evs);
    OnlyMissingPlanned(c, Fresh(c, done, t0), evs);
    SubsetSize(PlannedSinceSeek(c, Fresh(c, done, t0), evs), MissingOfFile(c, done));
  }

  /** A fresh file of two pieces, a budget and a hot window of one piece. */
  ghost predicate TwoPieceFile(c: Context) {
    && c.Valid() && c.mapper.FirstPiece() == 0 && c.mapper.EndPiece() == 2
    && c.config.hotWindowPieces == 1 && c.config.deadlineBudget == 1
  }

  /** Two requests, one a piece. */
  ghost predicate OnePieceEach(c: Context, r: ByteRange, s: ByteRange)
    requires c.Valid()
  {
    && InFile(c.mapper, r) && InFile(c.mapper, s)
    && c.mapper.Map(r).first == 0 && c.mapper.Map(s).first == 1
  }

  /** Neither is a seek, and they leave the handle with a deadline more than the budget. */
  ghost predicate OverBudgetWithoutSeek(c: Context, done: seq<bool>, r: ByteRange, s: ByteRange)
    requires c.Valid() && OnePieceEach(c, r, s)
  {
    var w0, first, second := Fresh(c, done, 0), RangeRequest(r, 0), RangeRequest(s, 0);
    && !IsSeek(c, w0.core, r) && !IsSeek(c, Run(c, w0, [first]).core, s)
    && Run(c, w0, [first, second]).deadlines.Keys == {0, 1}
    && |Run(c, w0, [first, second]).deadlines| > c.config.deadlineBudget
  }

  lemma OnlyTwoPieces(c: Context, d: Deadlines)
    requires TwoPieceFile(c) && {0, 1} <= d.Keys
    requires forall p :: p in d ==> c.mapper.FirstPiece() <= p < c.mapper.EndPiece()
    ensures d.Keys == {0, 1} && |d| == 2
  {
    assert d.Keys == {0, 1} by {
      assert forall p :: p in d.Keys ==> p == 0 || p == 1;
    }
    assert |d| == |d.Keys|;
  }

  lemma WalkOverTwo(c: Context, w: World, r: ByteRange, s: ByteRange)
    requires TwoPieceFile(c) && OnePieceEach(c, r, s) && Safe(c, w)
    requires w.core.playhead == 0 && MissingOfFile(c, w.done) == {0, 1}
    ensures var w' := Step(c, w, RangeRequest(r, 0));
            var d := Step(c, w', RangeRequest(s, 0)).deadlines;
      !IsSeek(c, w.core, r) && !IsSeek(c, w'.core, s) && d.Keys == {0, 1} && |d| == 2
  {
    var w' := Step(c, w, RangeRequest(r, 0));
    WalkStep(c, w, r);
    WalkStep(c, w', s);
    StepIsSafe(c, w, RangeRequest(r, 0));
    StepIsSafe(c, w', RangeRequest(s, 0));
    OnlyTwoPieces(c, Step(c, w', RangeRequest(s, 0)).deadlines);
  }

  lemma FreshIsOverBudget(c: Context, done: seq<bool>, r: ByteRange, s: ByteRange)
    requires TwoPieceFile(c) && OnePieceEach(c, r, s) && MissingOfFile(c, done) == {0, 1}
    ensures OverBudgetWithoutSeek(c, done, r, s)
  {
    TwoSteps(c, Fresh(c, done, 0), RangeRequest(r, 0), RangeRequest(s, 0));
    EveryRunIsSafe(c, done, 0, []);
    WalkOverTwo(c, Fresh(c, done, 0), r, s);
  }

  lemma BothMissing(c: Context)
    requires c.Valid() && c.mapper.FirstPiece() == 0 && c.mapper.EndPiece() == 2
    ensures MissingOfFile(c, [false, false]) == {0, 1}
  {
    forall p ensures p in MissingOfFile(c, [false, false]) <==> p in {0, 1} {
    }
  }

  /** The documented bound fails: with a budget of one, a request for byte 0 and one for byte 10 of a file of two pieces
      of ten bytes, neither a seek, leave two deadlines on the handle. */
  lemma BudgetDoesNotBoundTheHandle(c: Context)
    requires c == Context(Config(1, 0, 0, 1, 0, 0, 1, 0.0), ByteRangeMapper(Layout([20], 10), 0), Geometry(10, 10))
    ensures TwoPieceFile(c) && OnePieceEach(c, ByteRange(0, 0), ByteRange(10, 10))
    ensures OverBudgetWithoutSeek(c, [false, false], ByteRange(0, 0), ByteRange(10, 10))
  {
    var l := c.mapper.layout;
    assert l.Offset(1) == l.Offset(0) + l.sizes[0];
    assert c.mapper.FirstPiece() == 0 && c.mapper.EndPiece() == 2;
    BothMissing(c);
    FreshIsOverBudget(c, [false, false], ByteRange(0, 0), ByteRange(10, 10));
  }
}
