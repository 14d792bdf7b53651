/** When the scheduler returns to StreamingFirst, and the contiguous figure that decides it. */
module SchedulerRecovery {
  import opened Arithmetic
  import opened TorrentLayout
  import opened ByteRangeMapping
  import opened PieceAvailability
  import opened SchedulerModel
  import opened SchedulerRuns
  import opened SchedulerHistory

  function TicksIn(evs: seq<Event>): nat {
    if evs == [] then 0 else TicksIn(evs[..|evs| - 1]) + if evs[|evs| - 1].Tick? then 1 else 0
  }

  ghost predicate NoRequests(evs: seq<Event>) {
    forall i :: 0 <= i < |evs| ==> !evs[i].RangeRequest?
  }

  /** Ticks a recovering scheduler may still need. */
  function TicksToRecover(mode: StreamMode): nat {
    match mode
    case StreamingFirst => 0
    case DownloadAssist => 1
    case DownloadFirst => 2
  }

  ghost predicate Healthy(c: Context, w: World)
    requires c.Valid()
  {
    && Contiguous(c, w.done, w.core.playhead) >= c.config.minContiguousBytes
    && (w.core.mode == StreamingFirst ==> w.core.stallCount < c.config.stallCountThreshold)
  }

  lemma HealthLasts(c: Context, w: World, e: Event)
    requires c.Valid() && ValidEvent(e) && !e.RangeRequest?
    requires c.config.stallCountThreshold >= 1 && c.config.minContiguousBytes >= 1
    requires 0 <= c.geometry.pieceLength && 0 <= c.geometry.lastPieceLength
    requires Healthy(c, w)
    ensures var w' := Step(c, w, e);
      && Healthy(c, w')
      && TicksToRecover(w'.core.mode) == Max(0, TicksToRecover(w.core.mode) - if e.Tick? then 1 else 0)
  {
    if e.Mark? {
      PositiveFigureNeverFalls(w.done, Marked(w.done, e.piece), c.geometry, w.core.playhead,
                               c.mapper.Map(ByteRange(0, 0)).firstOffset);
    }
  }

  /** Once the figure reaches a positive threshold and no request arrives, at most two ticks bring any mode back to
      StreamingFirst, and it stays. */
  lemma {:induction false} RecoveryTakesTwoTicks(c: Context, w: World, evs: seq<Event>)
    requires c.Valid() && ValidEvents(evs) && NoRequests(evs)
    requires c.config.stallCountThreshold >= 1 && c.config.minContiguousBytes >= 1
    requires 0 <= c.geometry.pieceLength && 0 <= c.geometry.lastPieceLength
    requires Healthy(c, w)
    ensures Healthy(c, Run(c, w, evs))
    ensures TicksToRecover(Run(c, w, evs).core.mode) == Max(0, TicksToRecover(w.core.mode) - TicksIn(evs))
    ensures TicksIn(evs) >= 2 ==> Run(c, w, evs).core.mode == StreamingFirst
  {
    if evs != [] {
      var init := evs[..|evs| - 1];
      RecoveryTakesTwoTicks(c, w, init);
      HealthLasts(c, Run(c, w, init), evs[|evs| - 1]);
    }
  }

  lemma LastPieceIsNotNegative(l: Layout)
    requires l.Valid()
    ensures 0 <= l.LastPieceSize()
  {
    if 0 < l.Total() {
      EngineGeometry(l);
    }
  }

  /** What RecoveryTakesTwoTicks asks of the stall count holds after every run: once any run has brought the figure to
      the threshold, two ticks without a request lead to StreamingFirst for good. */
  lemma RecoveryAfterAnyRun(c: Context, done: seq<bool>, t0: int, evs: seq<Event>, more: seq<Event>)
    requires c.Valid() && ValidEvents(evs) && ValidEvents(more) && NoRequests(more)
    requires c.geometry == Geometry(c.mapper.layout.pieceLength, c.mapper.layout.LastPieceSize())
    requires c.config.stallCountThreshold >= 1 && c.config.minContiguousBytes >= 1
    requires var w := Run(c, Fresh(c, done, t0), evs);
      Contiguous(c, w.done, w.core.playhead) >= c.config.minContiguousBytes
    ensures ValidEvents(evs + more)
    ensures TicksIn(more) >= 2 ==> Run(c, Fresh(c, done, t0), evs + more).core.mode == StreamingFirst
  {
    RunsCompose(c, Fresh(c, done, t0), evs, more);
    ModesArePaidFor(c, done, t0, evs);
    LastPieceIsNotNegative(c.mapper.layout);
    RecoveryTakesTwoTicks(c, Run(c, Fresh(c, done, t0), evs), more);
  }

  // ----- Where it cannot recover

  /** The figure at a playhead once every piece of the torrent is complete: the bytes from the playhead piece to the
      torrent's end, less the file's offset in its first piece. */
  ghost function FigureWhenAllComplete(c: Context, playhead: nat): int
    requires c.Valid()
  {
    var l := c.mapper.layout;
    l.Total() - (playhead * l.pieceLength + c.mapper.FileOffset() % l.pieceLength)
  }

  lemma FigureIsBounded(c: Context, done: seq<bool>, playhead: nat)
    requires c.Valid() && FitsLayout(done, c.geometry, c.mapper.layout) && Complete(done, playhead)
    ensures Contiguous(c, done, playhead) <= FigureWhenAllComplete(c, playhead)
    ensures (forall p :: 0 <= p < |done| ==> done[p]) ==>
      Contiguous(c, done, playhead) == FigureWhenAllComplete(c, playhead)
  {
    var l, end := c.mapper.layout, playhead + RunOfPieces(done, playhead);
    ContiguousBytesMeaning(done, c.geometry, l, playhead, c.mapper.FileOffset() % l.pieceLength);
    RunEndsAtGap(done, playhead);
    if end < l.NumPieces() {
      EngineGeometry(l);
      MulMono(end, l.NumPieces() - 1, l.pieceLength);
    }
  }

  /** A scheduler out of StreamingFirst over an index of the engine's geometry. */
  ghost predicate Degraded(c: Context, w: World, playhead: int)
    requires c.Valid()
  {
    && w.core.mode != StreamingFirst && 0 <= w.core.stallCount
    && w.core.playhead == playhead
    && FitsLayout(w.done, c.geometry, c.mapper.layout)
  }

  /** The playhead is so near the end of the torrent that the figure cannot get up to its threshold. */
  ghost predicate OutOfReach(c: Context, playhead: nat)
    requires c.Valid()
  {
    playhead < c.mapper.layout.NumPieces() ==> FigureWhenAllComplete(c, playhead) < c.config.minContiguousBytes
  }

  lemma {:induction false} NeverRecovers(c: Context, w: World, evs: seq<Event>, playhead: nat)
    requires c.Valid() && ValidEvents(evs) && NoRequests(evs)
    requires Degraded(c, w, playhead) && OutOfReach(c, playhead)
    ensures Degraded(c, Run(c, w, evs), playhead)
  {
    if evs != [] {
      var init := evs[..|evs| - 1];
      NeverRecovers(c, w, init, playhead);
      var was := Run(c, w, init);
      if Complete(was.done, playhead) {
        FigureIsBounded(c, was.done, playhead);
      }
    }
  }

  lemma {:induction false} MarksAreNoRequests(done: seq<bool>, n: nat)
    requires n <= |done|
    ensures NoRequests(MarksOf(done, n))
  {
    if n > 0 {
      MarksAreNoRequests(done, n - 1);
    }
  }

  lemma TickLast(c: Context, w: World, evs: seq<Event>)
    requires c.Valid() && ValidEvents(evs) && NoRequests(evs)
    ensures var more := evs + [Tick(0, 0)];
      && ValidEvents(more) && NoRequests(more)
      && var was, now := Run(c, w, evs), Run(c, w, more);
      && now.done == was.done && now.core.playhead == was.core.playhead
      && (Complete(was.done, was.core.playhead)
          && Contiguous(c, was.done, was.core.playhead) >= c.config.minContiguousBytes ==>
            now.core.mode == match was.core.mode
                             case DownloadFirst => DownloadAssist
                             case DownloadAssist => StreamingFirst
                             case StreamingFirst => now.core.mode)
  {
    var more := evs + [Tick(0, 0)];
    assert more[..|evs|] == evs;
  }

  lemma FillingRecovers(c: Context, w: World, playhead: nat) returns (evs: seq<Event>)
    requires c.Valid() && Degraded(c, w, playhead) && !OutOfReach(c, playhead)
    ensures ValidEvents(evs) && NoRequests(evs) && Run(c, w, evs).core.mode == StreamingFirst
  {
    var all := seq(|w.done|, _ => true);
    evs := MarksOf(all, |all|);
    MarksLeadTo(c, w, all);
    MarksAreNoRequests(all, |all|);
    FigureIsBounded(c, Run(c, w, evs).done, playhead);
    TickLast(c, w, evs);
    evs := evs + [Tick(0, 0)];
    if w.core.mode == DownloadFirst {
      TickLast(c, w, evs);
      evs := evs + [Tick(0, 0)];
    }
  }

  ghost predicate Recovers(c: Context, w: World, evs: seq<Event>)
    requires c.Valid()
  {
    ValidEvents(evs) && NoRequests(evs) && Run(c, w, evs).core.mode == StreamingFirst
  }

  /** Without a request a degraded scheduler can come back to StreamingFirst, whatever completes and however long it
      ticks, exactly when the playhead is in the torrent and the bytes from its piece to the torrent's end, less the
      file's offset in its first piece, are as many as the threshold asks for. */
  lemma RecoveryIsPossibleIff(c: Context, w: World, playhead: nat)
    requires c.Valid() && Degraded(c, w, playhead)
    ensures (exists evs :: Recovers(c, w, evs))
       <==> playhead < c.mapper.layout.NumPieces() && FigureWhenAllComplete(c, playhead) >= c.config.minContiguousBytes
  {
    if OutOfReach(c, playhead) {
      forall evs ensures !Recovers(c, w, evs) {
        if Recovers(c, w, evs) {
          NeverRecovers(c, w, evs, playhead);
        }
      }
    } else {
      var evs := FillingRecovers(c, w, playhead);
      assert Recovers(c, w, evs);
    }
  }

  /** From a state some run has reached, no run without a request ever leads to StreamingFirst. */
  ghost predicate LostAfter(c: Context, done: seq<bool>, evs: seq<Event>)
    requires c.Valid()
  {
    ValidEvents(evs) && forall more :: !Recovers(c, Run(c, Fresh(c, done, 0), evs), more)
  }

  lemma StalledTickDegrades(c: Context, w: World)
    requires c.Valid() && c.config.stallCountThreshold == 1
    requires w.core.mode == StreamingFirst && w.core.stallCount == 0 && !Complete(w.done, w.core.playhead)
    ensures var w' := Step(c, w, Tick(0, 0));
      && w'.core.mode == DownloadAssist && w'.core.stallCount == 0
      && w'.done == w.done && w'.core.playhead == w.core.playhead
  {
  }

  lemma LostOnceStalled(c: Context, done: seq<bool>, playhead: nat)
    requires c.Valid() && FitsLayout(done, c.geometry, c.mapper.layout) && c.config.stallCountThreshold == 1
    requires playhead == c.mapper.FirstPiece() && !Complete(done, playhead) && OutOfReach(c, playhead)
    ensures LostAfter(c, done, [Tick(0, 0)])
  {
    var w0 := Fresh(c, done, 0);
    TwoSteps(c, w0, Tick(0, 0), Tick(0, 0));
    StalledTickDegrades(c, w0);
    RecoveryIsPossibleIff(c, Step(c, w0, Tick(0, 0)), playhead);
  }

  lemma LostOnceMoved(c: Context, done: seq<bool>, range: ByteRange, playhead: nat)
    requires c.Valid() && FitsLayout(done, c.geometry, c.mapper.layout) && c.config.stallCountThreshold == 1
    requires !Complete(done, c.mapper.FirstPiece()) && InFile(c.mapper, range)
    requires playhead == c.mapper.Map(range).first && OutOfReach(c, playhead)
    ensures LostAfter(c, done, [Tick(0, 0), RangeRequest(range, 0)])
  {
    var w0 := Fresh(c, done, 0);
    TwoSteps(c, w0, Tick(0, 0), RangeRequest(range, 0));
    StalledTickDegrades(c, w0);
    RecoveryIsPossibleIff(c, Step(c, Step(c, w0, Tick(0, 0)), RangeRequest(range, 0)), playhead);
  }

  /** One file of one piece of 10 bytes and a threshold of 20: after one stalled tick the scheduler never comes back. */
  lemma ShortTorrentIsLost(c: Context)
    requires c == Context(Config(1, 0, 0, 1, 0, 20, 1, 0.0), ByteRangeMapper(Layout([10], 10), 0), Geometry(10, 10))
    ensures c.Valid() && LostAfter(c, [false], [Tick(0, 0)])
  {
    var l := c.mapper.layout;
    assert l.Offset(1) == 10;
    LostOnceStalled(c, [false], 0);
  }

  /** A file at bytes 5 to 29 of three pieces of 10 and a threshold of 18: after a stalled tick and a move to the second
      piece it never comes back, although 20 bytes of the file follow. */
  lemma OffsetIsLost(c: Context)
    requires c == Context(Config(1, 0, 0, 1, 0, 18, 1, 0.0), ByteRangeMapper(Layout([5, 25], 10), 1), Geometry(10, 10))
    ensures c.Valid() && c.mapper.FileSize() == 25 && c.mapper.Map(ByteRange(5, 5)).first == 1
    ensures c.mapper.layout.Total() - 1 * c.mapper.layout.pieceLength == 20
    ensures LostAfter(c, [false, false, false], [Tick(0, 0), RangeRequest(ByteRange(5, 5), 0)])
  {
    var l := c.mapper.layout;
    assert l.Offset(1) == 5 && l.Offset(2) == 30;
    LostOnceMoved(c, [false, false, false], ByteRange(5, 5), 1);
  }

  // ----- The figure behind the switch

  /** File bytes available in a row from the first file byte of the playhead piece. */
  ghost function BufferedFileBytes(c: Context, done: seq<bool>, playhead: nat): int
    requires c.Valid()
  {
    var l, file := c.mapper.layout, c.mapper.FileOffset();
    Min(PieceStart(l, playhead + RunOfPieces(done, playhead)), file + c.mapper.FileSize())
      - Max(playhead * l.pieceLength, file)
  }

  /** Bytes by which the run of complete pieces from the playhead passes the file's end. */
  ghost function Overrun(c: Context, done: seq<bool>, playhead: nat): int
    requires c.Valid()
  {
    Max(0, PieceStart(c.mapper.layout, playhead + RunOfPieces(done, playhead))
         - (c.mapper.FileOffset() + c.mapper.FileSize()))
  }

  /** The file's offset in its first piece, which is taken off in whichever piece the playhead is. */
  ghost function WrongOffset(c: Context, playhead: nat): int
    requires c.Valid()
  {
    if playhead > c.mapper.FirstPiece() then c.mapper.FileOffset() % c.mapper.layout.pieceLength else 0
  }

  /** With the playhead complete, the figure is the buffered file bytes, plus the part of the run beyond the file's
      end, less the file's first offset whenever the playhead has left the first piece. */
  lemma SwitchFigureAgainstBuffer(c: Context, done: seq<bool>, playhead: nat)
    requires c.Valid() && FitsLayout(done, c.geometry, c.mapper.layout)
    requires c.mapper.FirstPiece() <= playhead < c.mapper.EndPiece() && Complete(done, playhead)
    ensures Contiguous(c, done, playhead)
         == BufferedFileBytes(c, done, playhead) + Overrun(c, done, playhead) - WrongOffset(c, playhead)
  {
    var l, file := c.mapper.layout, c.mapper.FileOffset();
    ContiguousBytesMeaning(done, c.geometry, l, playhead, file % l.pieceLength);
    DivBounds(file, l.pieceLength);
    if playhead > c.mapper.FirstPiece() {
      MulSucc(c.mapper.FirstPiece(), l.pieceLength);
      MulMono(c.mapper.FirstPiece() + 1, playhead, l.pieceLength);
    }
  }

  /** The figure passes a threshold the buffer does not. */
  ghost predicate Overrates(c: Context, done: seq<bool>, playhead: nat, threshold: int)
    requires c.Valid()
  {
    Contiguous(c, done, playhead) >= threshold > BufferedFileBytes(c, done, playhead)
  }

  /** The buffer passes a threshold the figure does not. */
  ghost predicate Underrates(c: Context, done: seq<bool>, playhead: nat, threshold: int)
    requires c.Valid()
  {
    BufferedFileBytes(c, done, playhead) >= threshold > Contiguous(c, done, playhead)
  }

  /** The figure is the buffer exactly when what it counts beyond the file equals what it wrongly takes off. Some
      threshold is passed by the figure alone exactly when it counts more, by the buffer alone exactly when it counts
      less; and the thresholds concerned are those within the difference above, or below, the buffer. */
  lemma SwitchMisjudgesIff(c: Context, done: seq<bool>, playhead: nat)
    requires c.Valid() && FitsLayout(done, c.geometry, c.mapper.layout)
    requires c.mapper.FirstPiece() <= playhead < c.mapper.EndPiece() && Complete(done, playhead)
    ensures var buffer := BufferedFileBytes(c, done, playhead);
            var extra := Overrun(c, done, playhead) - WrongOffset(c, playhead);
      && (Contiguous(c, done, playhead) == buffer <==> Overrun(c, done, playhead) == WrongOffset(c, playhead))
      && (forall m :: Overrates(c, done, playhead, m) <==> 0 < m - buffer <= extra)
      && (forall m :: Underrates(c, done, playhead, m) <==> 0 <= buffer - m < -extra)
      && ((exists m :: Overrates(c, done, playhead, m)) <==> Overrun(c, done, playhead) > WrongOffset(c, playhead))
      && ((exists m :: Underrates(c, done, playhead, m)) <==> Overrun(c, done, playhead) < WrongOffset(c, playhead))
  {
    SwitchFigureAgainstBuffer(c, done, playhead);
    var buffer, figure := BufferedFileBytes(c, done, playhead), Contiguous(c, done, playhead);
    assert figure > buffer ==> Overrates(c, done, playhead, figure);
    assert figure < buffer ==> Underrates(c, done, playhead, buffer);
  }

  // ----- Two runs in which the switch is wrong about the buffer

  lemma TickInAssist(c: Context, w: World)
    requires c.Valid() && c.config.stallCountThreshold == 1
    requires w.core.mode == DownloadAssist && Complete(w.done, w.core.playhead)
    ensures var w' := Step(c, w, Tick(0, 0));
      && w'.done == w.done && w'.core.playhead == w.core.playhead
      && w'.core.mode == if Contiguous(c, w.done, w.core.playhead) >= c.config.minContiguousBytes
                         then StreamingFirst else DownloadAssist
  {
  }

  /** A tick stalled on the first piece, its completion, and a tick lead back to StreamingFirst too early. */
  ghost predicate ReturnsTooEarly(c: Context, done: seq<bool>)
    requires c.Valid()
  {
    var w0, tick, arrival := Fresh(c, done, 0), Tick(0, 0), Mark(c.mapper.FirstPiece());
    var w := Run(c, w0, [tick, arrival, tick]);
    && Run(c, w0, [tick]).core.mode == DownloadAssist && w.core.mode == StreamingFirst
    && 0 <= w.core.playhead && Overrates(c, w.done, w.core.playhead, c.config.minContiguousBytes)
  }

  /** A tick stalled on the first piece, a move to a piece that is there, and a tick stay in DownloadAssist too long. */
  ghost predicate StaysTooLong(c: Context, done: seq<bool>, range: ByteRange)
    requires c.Valid() && InFile(c.mapper, range)
  {
    var w0, tick, move := Fresh(c, done, 0), Tick(0, 0), RangeRequest(range, 0);
    var w := Run(c, w0, [tick, move, tick]);
    && Run(c, w0, [tick]).core.mode == DownloadAssist && w.core.mode == DownloadAssist
    && Complete(w.done, w.core.playhead)
    && 0 <= w.core.playhead && Underrates(c, w.done, w.core.playhead, c.config.minContiguousBytes)
  }

  lemma FilledTooEarly(c: Context, done: seq<bool>, done': seq<bool>, first: nat)
    requires c.Valid() && c.config.stallCountThreshold == 1 && first == c.mapper.FirstPiece()
    requires !Complete(done, first) && done' == Marked(done, first) && Complete(done', first)
    requires Overrates(c, done', first, c.config.minContiguousBytes)
    ensures ReturnsTooEarly(c, done)
  {
    var w0, tick, arrival := Fresh(c, done, 0), Tick(0, 0), Mark(first);
    TwoSteps(c, w0, tick, arrival);
    ThreeSteps(c, w0, tick, arrival, tick);
    StalledTickDegrades(c, w0);
    TickInAssist(c, Step(c, Step(c, w0, tick), arrival));
  }

  lemma MovedTooLong(c: Context, done: seq<bool>, range: ByteRange, p: nat)
    requires c.Valid() && c.config.stallCountThreshold == 1 && InFile(c.mapper, range)
    requires !Complete(done, c.mapper.FirstPiece()) && c.mapper.Map(range).first == p && Complete(done, p)
    requires Underrates(c, done, p, c.config.minContiguousBytes)
    ensures StaysTooLong(c, done, range)
  {
    var w0, tick, move := Fresh(c, done, 0), Tick(0, 0), RangeRequest(range, 0);
    TwoSteps(c, w0, tick, move);
    ThreeSteps(c, w0, tick, move, tick);
    StalledTickDegrades(c, w0);
    TickInAssist(c, Step(c, Step(c, w0, tick), move));
  }

  /** A file of 10 bytes, bytes 5 to 14 of two pieces of 10, and a threshold of 12 bytes: the scheduler is back in
      StreamingFirst with 10 bytes of the file buffered, on a figure of 15. */
  lemma SwitchOverrates(c: Context)
    requires c.config == Config(1, 0, 0, 1, 0, 12, 1, 0.0)
    requires c.mapper == ByteRangeMapper(Layout([5, 10, 5], 10), 1) && c.geometry == Geometry(10, 10)
    ensures c.Valid() && ReturnsTooEarly(c, [false, true])
  {
    var l, done := c.mapper.layout, [true, true];
    assert l.Offset(1) == 5 && l.Offset(2) == 15 && l.Offset(3) == 20;
    assert RunOfPieces(done, 0) == 2 by {
      assert RunOfPieces(done, 1) == 1;
    }
    SwitchFigureAgainstBuffer(c, done, 0);
    FilledTooEarly(c, [false, true], done, 0);
  }

  /** A file of 20 bytes, bytes 5 to 24 of three pieces of 10, and a threshold of 10 bytes: after a move to the second
      piece the scheduler stays in DownloadAssist with 10 bytes buffered, on a figure of 5. */
  lemma SwitchUnderrates(c: Context)
    requires c.config == Config(1, 0, 0, 1, 0, 10, 1, 0.0)
    requires c.mapper == ByteRangeMapper(Layout([5, 20, 5], 10), 1) && c.geometry == Geometry(10, 10)
    ensures c.Valid() && c.mapper.FileSize() == 20 && StaysTooLong(c, [false, true, false], ByteRange(5, 5))
  {
    var l, done := c.mapper.layout, [false, true, false];
    assert l.Offset(1) == 5 && l.Offset(2) == 25 && l.Offset(3) == 30;
    assert RunOfPieces(done, 1) == 1 by {
      assert RunOfPieces(done, 2) == 0;
    }
    SwitchFigureAgainstBuffer(c, done, 1);
    MovedTooLong(c, done, ByteRange(5, 5), 1);
  }

  /** A move, then the mark of the piece moved to, take the figure down. */
  ghost predicate FigureFalls(c: Context, done: seq<bool>, range: ByteRange, before: int, after: int)
    requires c.Valid() && InFile(c.mapper, range)
  {
    var p := c.mapper.Map(range).first;
    var w := Run(c, Fresh(c, done, 0), [RangeRequest(range, 0)]);
    var w' := Run(c, Fresh(c, done, 0), [RangeRequest(range, 0), Mark(p)]);
    && Contiguous(c, w.done, w.core.playhead) == before
    && Contiguous(c, w'.done, w'.core.playhead) == after < before
  }

  lemma MarkedPastItsEnd(c: Context, done: seq<bool>, range: ByteRange, p: nat, figure: int)
    requires c.Valid() && InFile(c.mapper, range) && p == c.mapper.Map(range).first && !Complete(done, p)
    requires Contiguous(c, Marked(done, p), p) == figure < 0
    ensures FigureFalls(c, done, range, 0, figure)
  {
    TwoSteps(c, Fresh(c, done, 0), RangeRequest(range, 0), Mark(p));
  }

  /** A file at bytes 5 to 12 of a torrent of 13, in pieces of 10: after a move to the last piece of 3 bytes, its
      completion takes the figure from 0 to -2. */
  lemma FigureFallsBelowZero(c: Context)
    requires c == Context(Config(1, 0, 0, 1, 0, 1, 1, 0.0), ByteRangeMapper(Layout([5, 8], 10), 1), Geometry(10, 3))
    ensures c.Valid() && FitsLayout([true, false], c.geometry, c.mapper.layout) && c.mapper.FileSize() == 8
    ensures FigureFalls(c, [true, false], ByteRange(5, 5), 0, -2)
  {
    var l, done := c.mapper.layout, [true, true];
    assert l.Offset(1) == 5 && l.Offset(2) == 13;
    assert RunOfBytes(done, c.geometry, 1) == 3 by {
      assert RunOfBytes(done, c.geometry, 2) == 0;
    }
    assert Marked([true, false], 1) == done;
    MarkedPastItsEnd(c, [true, false], ByteRange(5, 5), 1, -2);
  }
}
