/** How the mode, the stall counter and the seek boost depend on the run that led to them. */
module SchedulerHistory {
  import opened PieceAvailability
  import opened SchedulerModel
  import opened SchedulerRuns

  // ----- Stalls and degradation

  datatype TickRecord = TickRecord(before: StreamMode, after: StreamMode, stalled: bool, figure: int, rate: int)

  function RecordOf(c: Context, was: World, after: StreamMode, rate: int): TickRecord
    requires c.Valid()
  {
    TickRecord(was.core.mode, after, !Complete(was.done, was.core.playhead),
               Contiguous(c, was.done, was.core.playhead), rate)
  }

  /** The ticks of a run: the mode each began and ended in, whether the playhead piece was missing, the contiguous
      figure and the download rate it saw. */
  ghost function TickLog(c: Context, w: World, evs: seq<Event>): seq<TickRecord>
    requires c.Valid() && ValidEvents(evs)
  {
    if evs == [] then []
    else
      var init, e := evs[..|evs| - 1], evs[|evs| - 1];
      var was := Run(c, w, init);
      TickLog(c, w, init) +
      if e.Tick?
      then [RecordOf(c, was, Step(c, was, e).core.mode, e.rate)]
      else []
  }

  /** A tick that found the playhead missing and left the mode as it was. */
  predicate Steady(t: TickRecord) { t.stalled && t.before == t.after }

  /** The tick follows the mode rule from the present mode and stall count. */
  predicate FollowsRule(cfg: Config, mode: StreamMode, stallCount: int, t: TickRecord) {
    && t.before == mode
    && t.after == NextMode(cfg, mode, if t.stalled then stallCount + 1 else 0, t.figure, t.rate)
  }

  lemma TickIsLogged(c: Context, w: World, evs: seq<Event>) returns (t: TickRecord)
    requires c.Valid() && ValidEvents(evs) && evs != [] && evs[|evs| - 1].Tick?
    ensures TickLog(c, w, evs) == TickLog(c, w, evs[..|evs| - 1]) + [t]
    ensures var was, now := Run(c, w, evs[..|evs| - 1]).core, Run(c, w, evs).core;
      && FollowsRule(c.config, was.mode, was.stallCount, t)
      && now.mode == t.after
      && now.stallCount == if Steady(t) then was.stallCount + 1 else 0
  {
    var was, e := Run(c, w, evs[..|evs| - 1]), evs[|evs| - 1];
    t := RecordOf(c, was, Step(c, was, e).core.mode, e.rate);
  }

  lemma OthersAreNotLogged(c: Context, w: World, evs: seq<Event>)
    requires c.Valid() && ValidEvents(evs) && evs != [] && !evs[|evs| - 1].Tick?
    ensures TickLog(c, w, evs) == TickLog(c, w, evs[..|evs| - 1])
    ensures var was, now := Run(c, w, evs[..|evs| - 1]).core, Run(c, w, evs).core;
      now.mode == was.mode && now.stallCount == was.stallCount
  {
  }

  /** k is the length of the longest run of steady ticks at the end of the log. */
  ghost predicate SteadyTail(log: seq<TickRecord>, k: int) {
    && 0 <= k <= |log|
    && (forall i :: |log| - k <= i < |log| ==> Steady(log[i]))
    && (k < |log| ==> !Steady(log[|log| - k - 1]))
  }

  /** Each tick begins in the mode the one before ended in, and the scheduler is in the last one's. */
  ghost predicate Chained(log: seq<TickRecord>, mode: StreamMode) {
    && (log == [] ==> mode == StreamingFirst)
    && (log != [] ==> log[0].before == StreamingFirst && log[|log| - 1].after == mode)
    && forall i :: 0 < i < |log| ==> log[i].before == log[i - 1].after
  }

  lemma LogExtends(log: seq<TickRecord>, k: int, mode: StreamMode, t: TickRecord)
    requires SteadyTail(log, k) && Chained(log, mode) && t.before == mode
    ensures SteadyTail(log + [t], if Steady(t) then k + 1 else 0) && Chained(log + [t], t.after)
  {
    var more := log + [t];
    assert forall i :: 0 <= i < |log| ==> more[i] == log[i];
    assert more[|log|] == t;
  }

  /** The stall counter is always the length of the current run of stalled ticks since the last mode change. */
  lemma {:induction false} StallCountIsCurrentRun(c: Context, done: seq<bool>, t0: int, evs: seq<Event>)
    requires c.Valid() && ValidEvents(evs)
    ensures var w, log := Run(c, Fresh(c, done, t0), evs), TickLog(c, Fresh(c, done, t0), evs);
      SteadyTail(log, w.core.stallCount) && Chained(log, w.core.mode)
  {
    var w0 := Fresh(c, done, t0);
    if evs != [] {
      var init := evs[..|evs| - 1];
      var log, core := TickLog(c, w0, init), Run(c, w0, init).core;
      StallCountIsCurrentRun(c, done, t0, init);
      if evs[|evs| - 1].Tick? {
        var t := TickIsLogged(c, w0, evs);
        LogExtends(log, core.stallCount, core.mode, t);
      } else {
        OthersAreNotLogged(c, w0, evs);
      }
    }
  }

  function StalledTicks(log: seq<TickRecord>): nat {
    if log == [] then 0 else StalledTicks(log[..|log| - 1]) + if log[|log| - 1].stalled then 1 else 0
  }

  /** Stalled ticks that must lie behind a scheduler in a given mode with a given stall count. */
  function StallsBehind(threshold: int, mode: StreamMode, stallCount: int): int {
    match mode
    case StreamingFirst => stallCount
    case DownloadAssist => threshold + stallCount
    case DownloadFirst => 3 * threshold
  }

  ghost predicate PaidFor(threshold: int, mode: StreamMode, stallCount: int, stalledTicks: int) {
    && 0 <= stallCount
    && (mode == StreamingFirst ==> stallCount < threshold)
    && stalledTicks >= StallsBehind(threshold, mode, stallCount)
  }

  lemma TickPays(cfg: Config, log: seq<TickRecord>, mode: StreamMode, stallCount: int, t: TickRecord)
    requires cfg.stallCountThreshold >= 1 && PaidFor(cfg.stallCountThreshold, mode, stallCount, StalledTicks(log))
    requires FollowsRule(cfg, mode, stallCount, t)
    ensures PaidFor(cfg.stallCountThreshold, t.after, if Steady(t) then stallCount + 1 else 0, StalledTicks(log + [t]))
  {
    assert (log + [t])[..|log|] == log;
  }

  /** What a run has paid for the mode it is in. */
  ghost predicate PaidAt(c: Context, w: World, evs: seq<Event>)
    requires c.Valid() && ValidEvents(evs)
  {
    var core := Run(c, w, evs).core;
    PaidFor(c.config.stallCountThreshold, core.mode, core.stallCount, StalledTicks(TickLog(c, w, evs)))
  }

  lemma PaidStep(c: Context, w: World, evs: seq<Event>)
    requires c.Valid() && ValidEvents(evs) && c.config.stallCountThreshold >= 1
    requires evs != [] && PaidAt(c, w, evs[..|evs| - 1])
    ensures PaidAt(c, w, evs)
  {
    var init := evs[..|evs| - 1];
    if evs[|evs| - 1].Tick? {
      var t := TickIsLogged(c, w, evs);
      TickPays(c.config, TickLog(c, w, init), Run(c, w, init).core.mode, Run(c, w, init).core.stallCount, t);
    } else {
      OthersAreNotLogged(c, w, evs);
    }
  }

  /** StreamingFirst keeps its count below the threshold, and each mode has its share of stalled ticks behind it. */
  lemma {:induction false} ModesArePaidFor(c: Context, done: seq<bool>, t0: int, evs: seq<Event>)
    requires c.Valid() && ValidEvents(evs) && c.config.stallCountThreshold >= 1
    ensures PaidAt(c, Fresh(c, done, t0), evs)
  {
    if evs != [] {
      ModesArePaidFor(c, done, t0, evs[..|evs| - 1]);
      PaidStep(c, Fresh(c, done, t0), evs);
    }
  }

  /** Tick i ends k ticks that all found the playhead missing and all began in the given mode. */
  ghost predicate StalledThrough(log: seq<TickRecord>, i: int, k: int, mode: StreamMode)
    requires 0 <= i < |log|
  {
    i + 1 >= k && forall j :: i - k < j <= i ==> log[j].stalled && log[j].before == mode
  }

  /** The mode law, in terms of the ticks alone: each mode is left exactly on these conditions, to these modes. */
  ghost predicate ObeysModeLaw(cfg: Config, log: seq<TickRecord>, i: int)
    requires 0 <= i < |log|
  {
    var t, n := log[i], cfg.stallCountThreshold;
    match t.before
    case StreamingFirst =>
      t.after == if StalledThrough(log, i, n, StreamingFirst) then DownloadAssist else StreamingFirst
    case DownloadAssist =>
      t.after == if !t.stalled && t.figure >= cfg.minContiguousBytes then StreamingFirst
                 else if t.rate as real < cfg.minSustainedRate && StalledThrough(log, i, 2 * n, DownloadAssist)
                 then DownloadFirst
                 else DownloadAssist
    case DownloadFirst =>
      t.after == if t.figure >= cfg.minContiguousBytes then DownloadAssist else DownloadFirst
  }

  /** All of a steady tail began and ended in the present mode. */
  lemma {:induction false} TailKeepsMode(log: seq<TickRecord>, k: int, mode: StreamMode)
    requires 0 <= k <= |log| && (forall i :: |log| - k <= i < |log| ==> Steady(log[i])) && Chained(log, mode)
    ensures forall i :: |log| - k <= i < |log| ==> log[i].before == mode
    decreases k
  {
    if k > 0 {
      TailKeepsMode(log, k - 1, mode);
      var i := |log| - k;
      assert Steady(log[i]);
      assert k > 1 ==> log[i + 1].before == log[i].after;
    }
  }

  /** A steady tail of k ticks and one more stalled tick make k + 1 ticks stalled through, and no more if the tail is
      the longest. */
  lemma TailCountsStalls(log: seq<TickRecord>, k: int, mode: StreamMode, t: TickRecord, m: int)
    requires SteadyTail(log, k) && Chained(log, mode) && t.before == mode && m >= 1
    ensures StalledThrough(log + [t], |log|, m, mode) <==> t.stalled && k + 1 >= m
  {
    var more, i := log + [t], |log|;
    TailKeepsMode(log, k, mode);
    assert forall j :: 0 <= j < i ==> more[j] == log[j];
    assert more[i] == t;
    if k < i && StalledThrough(more, i, m, mode) {
      var j := i - k - 1;
      assert !Steady(log[j]);
      assert more[j + 1].before == mode;
      assert log[j].after == mode by {
        assert j + 1 < i ==> log[j + 1].before == log[j].after;
      }
    }
  }

  /** Tick i obeys the mode law, and one that enters DownloadFirst has at least 3 x threshold stalled ticks behind it,
      itself included. */
  ghost predicate Lawful(cfg: Config, log: seq<TickRecord>, i: int)
    requires 0 <= i < |log|
  {
    && ObeysModeLaw(cfg, log, i)
    && (log[i].after == DownloadFirst ==> StalledTicks(log[..i + 1]) >= 3 * cfg.stallCountThreshold)
  }

  lemma StalledThroughKept(log: seq<TickRecord>, t: TickRecord, i: int, k: int, mode: StreamMode)
    requires 0 <= i < |log|
    ensures StalledThrough(log + [t], i, k, mode) <==> StalledThrough(log, i, k, mode)
  {
    assert forall j :: 0 <= j <= i ==> (log + [t])[j] == log[j];
  }

  lemma OldTickStaysLawful(cfg: Config, log: seq<TickRecord>, t: TickRecord, i: int)
    requires 0 <= i < |log| && Lawful(cfg, log, i)
    ensures Lawful(cfg, log + [t], i)
  {
    assert (log + [t])[..i + 1] == log[..i + 1];
    StalledThroughKept(log, t, i, cfg.stallCountThreshold, StreamingFirst);
    StalledThroughKept(log, t, i, 2 * cfg.stallCountThreshold, DownloadAssist);
  }

  lemma NewTickObeys(cfg: Config, log: seq<TickRecord>, mode: StreamMode, stallCount: int, t: TickRecord)
    requires cfg.stallCountThreshold >= 1 && SteadyTail(log, stallCount) && Chained(log, mode)
    requires FollowsRule(cfg, mode, stallCount, t)
    ensures ObeysModeLaw(cfg, log + [t], |log|)
  {
    TailCountsStalls(log, stallCount, mode, t, cfg.stallCountThreshold);
    TailCountsStalls(log, stallCount, mode, t, 2 * cfg.stallCountThreshold);
    assert (log + [t])[|log|] == t;
  }

  lemma NewTickIsLawful(cfg: Config, log: seq<TickRecord>, mode: StreamMode, stallCount: int, t: TickRecord)
    requires cfg.stallCountThreshold >= 1 && SteadyTail(log, stallCount) && Chained(log, mode)
    requires PaidFor(cfg.stallCountThreshold, mode, stallCount, StalledTicks(log))
    requires FollowsRule(cfg, mode, stallCount, t)
    ensures Lawful(cfg, log + [t], |log|)
  {
    NewTickObeys(cfg, log, mode, stallCount, t);
    TickPays(cfg, log, mode, stallCount, t);
    assert (log + [t])[..|log| + 1] == log + [t] && (log + [t])[|log|] == t;
  }

  /** Every tick of every run is lawful. */
  lemma {:induction false} EveryTickObeysModeLaw(c: Context, done: seq<bool>, t0: int, evs: seq<Event>, i: int)
    requires c.Valid() && ValidEvents(evs) && c.config.stallCountThreshold >= 1
    requires 0 <= i < |TickLog(c, Fresh(c, done, t0), evs)|
    ensures Lawful(c.config, TickLog(c, Fresh(c, done, t0), evs), i)
  {
    var w0, init := Fresh(c, done, t0), evs[..|evs| - 1];
    if !evs[|evs| - 1].Tick? {
      OthersAreNotLogged(c, w0, evs);
      EveryTickObeysModeLaw(c, done, t0, init, i);
    } else {
      var log, core := TickLog(c, w0, init), Run(c, w0, init).core;
      var t := TickIsLogged(c, w0, evs);
      if i < |log| {
        EveryTickObeysModeLaw(c, done, t0, init, i);
        OldTickStaysLawful(c.config, log, t, i);
      } else {
        StallCountIsCurrentRun(c, done, t0, init);
        ModesArePaidFor(c, done, t0, init);
        NewTickIsLawful(c.config, log, core.mode, core.stallCount, t);
      }
    }
  }

  // ----- Seek boost

  /** The last seek and the times of the ticks since. */
  datatype SeekHistory = NoSeek | Sought(at: int, ticks: seq<int>)

  ghost function LastSeek(c: Context, w: World, evs: seq<Event>): SeekHistory
    requires c.Valid() && ValidEvents(evs)
  {
    if evs == [] then NoSeek
    else
      var init, e := evs[..|evs| - 1], evs[|evs| - 1];
      var h := LastSeek(c, w, init);
      match e
      case RangeRequest(range, now) =>
        if IsSeek(c, Run(c, w, init).core, range) then Sought(now, []) else h
      case Tick(now, _) => if h.Sought? then Sought(h.at, h.ticks + [now]) else h
      case _ => h
  }

  ghost predicate AllWithin(ticks: seq<int>, at: int, duration: int) {
    forall i :: 0 <= i < |ticks| ==> ticks[i] - at < duration
  }

  lemma AllWithinStep(ticks: seq<int>, now: int, at: int, duration: int)
    ensures AllWithin(ticks + [now], at, duration) <==> AllWithin(ticks, at, duration) && now - at < duration
  {
    var more := ticks + [now];
    assert forall i :: 0 <= i < |ticks| ==> more[i] == ticks[i];
    assert more[|ticks|] == now;
  }

  /** The boost is on exactly when there has been a seek and no tick since came as late as its duration. */
  lemma {:induction false} BoostLastsFromSeekToExpiry(c: Context, done: seq<bool>, t0: int, evs: seq<Event>)
    requires c.Valid() && ValidEvents(evs)
    ensures var w, h := Run(c, Fresh(c, done, t0), evs), LastSeek(c, Fresh(c, done, t0), evs);
      && (w.core.seekBoosting <==> h.Sought? && AllWithin(h.ticks, h.at, c.config.seekBoostDurationMs))
      && (h.Sought? ==> w.core.seekBoostStart == h.at)
  {
    var w0 := Fresh(c, done, t0);
    if evs != [] {
      var init, e := evs[..|evs| - 1], evs[|evs| - 1];
      BoostLastsFromSeekToExpiry(c, done, t0, init);
      var h := LastSeek(c, w0, init);
      if e.Tick? && h.Sought? {
        AllWithinStep(h.ticks, e.now, h.at, c.config.seekBoostDurationMs);
      }
    }
  }
}
