/** What a read's verdict means, in every run of the protocol. */
module ReadVerdicts {
  import opened Results
  import opened TorrentLayout
  import opened ByteRangeMapping
  import opened PieceAvailability
  import opened ReadProtocol

  // ----- Safety

  /** A read that gets past its wait has every piece of its span finished by libtorrent, then and ever after. */
  lemma ReadsOnlyFinishedPieces(ss: seq<State>, ts: seq<Step>, r: ReaderId, i: nat, j: nat)
    requires IsRun(ss, ts) && i <= j < |ss|
    requires r in ss[i].readers && ss[i].readers[r].pc == Returned(Read)
    ensures var me := ss[i].readers[r];
      forall p :: me.first <= p <= me.last ==> p in ss[i].finished && p in ss[j].finished && Complete(ss[j].bits, p)
  {
    RunKeepsInv(ss, ts, i);
    assert ReaderInv(ss[i], r);
    RunIsLater(ss, ts, i, j);
  }

  /** In bytes: whoever reads a range of a file past its wait reads only bytes of finished pieces. */
  lemma ReadsOnlyFinishedBytes(ss: seq<State>, ts: seq<Step>, r: ReaderId, i: nat, m: ByteRangeMapper, range: ByteRange)
    requires IsRun(ss, ts) && i < |ss| && m.Valid() && InFile(m, range)
    requires r in ss[i].readers && ss[i].readers[r].pc == Returned(Read)
    requires ss[i].readers[r].first == m.Map(range).first && ss[i].readers[r].last == m.Map(range).last
    ensures forall c: nat :: m.FileOffset() + range.start <= c <= m.FileOffset() + range.end ==>
              ByteComplete(ss[i].bits, m.layout, c) && m.layout.PieceOf(c) in ss[i].finished
  {
    ReadsOnlyFinishedPieces(ss, ts, r, i, i);
    assert SpanComplete(ss[i].bits, m.Map(range));
    SpanCompleteIffBytesComplete(ss[i].bits, m, range);
    RunKeepsInv(ss, ts, i);
  }

  /** At every moment the index reports only finished pieces. */
  lemma IndexNeverOverReports(ss: seq<State>, ts: seq<Step>, i: nat, p: int)
    requires IsRun(ss, ts) && i < |ss| && Complete(ss[i].bits, p)
    ensures p in ss[i].finished
  {
    RunKeepsInv(ss, ts, i);
  }

  /** The copy of the status snapshot has passed piece p. */
  predicate CopyPassed(phase: Phase, p: int) { phase.Populating? ==> p < phase.next }

  /** Piece p was in the snapshot and has been copied, or an alert among the first i steps marked it. */
  ghost predicate Reported(ss: seq<State>, ts: seq<Step>, i: nat, p: int)
    requires |ss| == |ts| + 1 && i < |ss|
  {
    (p in ss[0].snapshot && CopyPassed(ss[i].phase, p)) || AlertMark(p) in ts[..i]
  }

  /** The index holds exactly the pieces reported to it. A finished piece that was not in the snapshot, and whose alert
      went to the state before this one, stays missing. */
  lemma {:induction false} IndexIsWhatWasReported(ss: seq<State>, ts: seq<Step>, i: nat, p: int)
    requires IsRun(ss, ts) && i < |ss|
    ensures ss[i].snapshot == ss[0].snapshot && |ss[i].bits| == |ss[0].bits|
    ensures Complete(ss[i].bits, p) <==> 0 <= p < |ss[0].bits| && Reported(ss, ts, i, p)
  {
    if i > 0 {
      assert StepAt(ss, ts, i - 1);
      IndexIsWhatWasReported(ss, ts, i - 1, p);
      assert ts[..i] == ts[..i - 1] + [ts[i - 1]];
    }
  }

  // ----- Cancellation

  lemma {:induction false} FlagWasStored(ss: seq<State>, ts: seq<Step>, i: nat) returns (j: nat)
    requires IsRun(ss, ts) && i < |ss| && ss[i].cancelled
    ensures j < i && ts[j] == CancelStore
  {
    assert StepAt(ss, ts, i - 1);
    if ss[i - 1].cancelled {
      j := FlagWasStored(ss, ts, i - 1);
    } else {
      j := i - 1;
    }
  }

  /** `cancelled` is returned only after some cancel has stored its flag. */
  lemma CancelledOnlyAfterCancel(ss: seq<State>, ts: seq<Step>, r: ReaderId, i: nat) returns (j: nat)
    requires IsRun(ss, ts) && i < |ss|
    requires r in ss[i].readers && ss[i].readers[r].pc == Returned(WasCancelled)
    ensures j < i && ts[j] == CancelStore
  {
    RunKeepsInv(ss, ts, i);
    assert ReaderInv(ss[i], r);
    j := FlagWasStored(ss, ts, i);
  }

  /** Returned? Then with `cancelled`. */
  predicate OnlyCancelled(pc: Pc) { pc.Returned? ==> pc.verdict == WasCancelled }

  lemma CancelReachesReader(me: Reader, bits: seq<bool>, now: int)
    requires OnlyCancelled(me.pc)
    ensures OnlyCancelled(NextReader(me, true, bits, now).pc)
  {
  }

  /** A read not yet past its wait when the flag is up, let alone one begun after, returns nothing but `cancelled`. One
      that is past it and reading the disk returns what it reads. */
  lemma {:induction false} CancelReachesEveryWait(ss: seq<State>, ts: seq<Step>, r: ReaderId, i: nat, j: nat)
    requires IsRun(ss, ts) && i <= j < |ss|
    requires ss[i].cancelled && r in ss[i].readers && !ss[i].readers[r].pc.Returned?
    ensures r in ss[j].readers
    ensures OnlyCancelled(ss[j].readers[r].pc)
  {
    if i < j {
      assert StepAt(ss, ts, j - 1);
      CancelReachesEveryWait(ss, ts, r, i, j - 1);
      RunIsLater(ss, ts, i, j - 1);
      StepSeenBy(ss[j - 1], ts[j - 1], r);
      CancelReachesReader(ss[j - 1].readers[r], ss[j - 1].bits, ss[j - 1].now);
    }
  }

  /** A read begun after a cancel returns on its first step. */
  lemma {:induction false} ReadAfterCancelReturnsAtOnce(ss: seq<State>, ts: seq<Step>, r: ReaderId, i: nat, j: nat)
    requires IsRun(ss, ts) && i <= j < |ss|
    requires ss[i].cancelled && r in ss[i].readers && ss[i].readers[r].pc == Entering
    ensures r in ss[j].readers
    ensures ss[j].readers[r].pc == if Advance(r) in ts[i..j] then Returned(WasCancelled) else Entering
  {
    if i < j {
      assert StepAt(ss, ts, j - 1);
      ReadAfterCancelReturnsAtOnce(ss, ts, r, i, j - 1);
      RunIsLater(ss, ts, i, j - 1);
      StepSeenBy(ss[j - 1], ts[j - 1], r);
      assert ts[i..j] == ts[i..j - 1] + [ts[j - 1]];
    }
  }

  // ----- Timeout

  /** Step k is reader r taking the mutex, which begins its wait. */
  ghost predicate WaitBegan(ss: seq<State>, ts: seq<Step>, r: ReaderId, k: nat)
    requires |ss| == |ts| + 1
  {
    k < |ts| && ts[k] == Advance(r) && r in ss[k].readers && ss[k].readers[r].pc == Locking
  }

  lemma OnlyLockingBegins(me: Reader, cancelled: bool, bits: seq<bool>, now: int)
    requires !Waited(me.pc)
    requires var pc := NextReader(me, cancelled, bits, now).pc; Waited(pc) && pc != Returned(WasCancelled)
    ensures me.pc == Locking && NextReader(me, cancelled, bits, now).deadline == now + me.timeout
  {
  }

  /** The deadline of a read is its timeout after the moment its wait began. */
  lemma {:induction false} DeadlineIsTimeoutAfterStart(ss: seq<State>, ts: seq<Step>, r: ReaderId, i: nat)
    returns (k: nat)
    requires IsRun(ss, ts) && i < |ss| && r in ss[i].readers
    requires Waited(ss[i].readers[r].pc) && ss[i].readers[r].pc != Returned(WasCancelled)
    ensures k < i && WaitBegan(ss, ts, r, k) && r in ss[0].readers
    ensures ss[i].readers[r].deadline == ss[k].now + ss[0].readers[r].timeout
  {
    assert StepAt(ss, ts, i - 1);
    StepIsLater(ss[i - 1], ts[i - 1]);
    StepSeenBy(ss[i - 1], ts[i - 1], r);
    var was := ss[i - 1].readers[r];
    assert SameCall(was, ss[i].readers[r]);
    if Waited(was.pc) {
      k := DeadlineIsTimeoutAfterStart(ss, ts, r, i - 1);
    } else {
      k := i - 1;
      OnlyLockingBegins(was, ss[k].cancelled, ss[k].bits, ss[k].now);
      RunIsLater(ss, ts, 0, k);
      assert SameCall(ss[0].readers[r], was);
    }
  }

  /** Step a is reader r's load of the flag in its last predicate evaluation, after its deadline, with no cancel. */
  ghost predicate SawNoCancel(ss: seq<State>, ts: seq<Step>, r: ReaderId, a: nat)
    requires |ss| == |ts| + 1
  {
    && a < |ts| && ts[a] == Advance(r) && r in ss[a].readers
    && ss[a].readers[r].pc == Asking(true) && !ss[a].cancelled && ss[a].now >= ss[a].readers[r].deadline
  }

  /** Step b is the load in that evaluation that found piece p of the span missing. */
  ghost predicate FoundMissing(ss: seq<State>, ts: seq<Step>, r: ReaderId, b: nat, p: int)
    requires |ss| == |ts| + 1
  {
    && b < |ts| && ts[b] == Advance(r) && r in ss[b].readers
    && ss[b].readers[r].pc == Scanning(p, true)
    && ss[b].readers[r].first <= p <= ss[b].readers[r].last
    && !Complete(ss[b].bits, p)
  }

  lemma {:induction false} LastMeansExpired(ss: seq<State>, ts: seq<Step>, r: ReaderId, i: nat)
    requires IsRun(ss, ts) && i < |ss| && r in ss[i].readers
    requires ss[i].readers[r].pc == Waking(true) || ss[i].readers[r].pc == Asking(true)
    ensures ss[i].now >= ss[i].readers[r].deadline
  {
    assert StepAt(ss, ts, i - 1);
    StepIsLater(ss[i - 1], ts[i - 1]);
    StepSeenBy(ss[i - 1], ts[i - 1], r);
    if ss[i - 1].readers[r].pc == Waking(true) || ss[i - 1].readers[r].pc == Asking(true) {
      LastMeansExpired(ss, ts, r, i - 1);
    }
  }

  lemma {:induction false} LastScanAsked(ss: seq<State>, ts: seq<Step>, r: ReaderId, i: nat) returns (a: nat)
    requires IsRun(ss, ts) && i < |ss| && r in ss[i].readers
    requires ss[i].readers[r].pc.Scanning? && ss[i].readers[r].pc.last
    ensures a < i && SawNoCancel(ss, ts, r, a)
  {
    assert StepAt(ss, ts, i - 1);
    StepIsLater(ss[i - 1], ts[i - 1]);
    StepSeenBy(ss[i - 1], ts[i - 1], r);
    if ss[i - 1].readers[r].pc.Scanning? {
      a := LastScanAsked(ss, ts, r, i - 1);
    } else {
      a := i - 1;
      LastMeansExpired(ss, ts, r, a);
    }
  }

  lemma ScanStaysInSpan(ss: seq<State>, ts: seq<Step>, r: ReaderId, i: nat)
    requires IsRun(ss, ts) && i < |ss| && r in ss[i].readers && ss[i].readers[r].pc.Scanning?
    ensures ss[i].readers[r].first <= ss[i].readers[r].pc.next
  {
    RunKeepsInv(ss, ts, i);
    assert ReaderInv(ss[i], r);
  }

  lemma OnlyMissesGiveUp(me: Reader, cancelled: bool, bits: seq<bool>, now: int)
    requires NextReader(me, cancelled, bits, now).pc == Deciding(false)
    ensures me.pc.Scanning? && me.pc.last && me.pc.next <= me.last && !Complete(bits, me.pc.next)
  {
  }

  lemma {:induction false} GaveUpOnMissing(ss: seq<State>, ts: seq<Step>, r: ReaderId, i: nat)
    returns (a: nat, b: nat, p: int)
    requires IsRun(ss, ts) && i < |ss| && r in ss[i].readers
    requires ss[i].readers[r].pc == Deciding(false)
    ensures a < b < i && SawNoCancel(ss, ts, r, a) && FoundMissing(ss, ts, r, b, p)
  {
    assert StepAt(ss, ts, i - 1);
    StepIsLater(ss[i - 1], ts[i - 1]);
    StepSeenBy(ss[i - 1], ts[i - 1], r);
    if ss[i - 1].readers[r].pc == Deciding(false) {
      a, b, p := GaveUpOnMissing(ss, ts, r, i - 1);
    } else {
      b := i - 1;
      OnlyMissesGiveUp(ss[b].readers[r], ss[b].cancelled, ss[b].bits, ss[b].now);
      p := ss[b].readers[r].pc.next;
      a := LastScanAsked(ss, ts, r, b);
      ScanStaysInSpan(ss, ts, r, b);
    }
  }

  lemma OnlyGivingUpTimesOut(me: Reader, cancelled: bool, bits: seq<bool>, now: int)
    requires NextReader(me, cancelled, bits, now).pc == Returned(TimedOut)
    ensures me.pc == Returned(TimedOut) || (me.pc == Deciding(false) && !cancelled)
  {
  }

  /** `timeout` is returned only when the timeout has passed since the wait began, the evaluation after that saw no
      cancel, then found a span piece missing, and the flag was still down when it was read a last time. */
  lemma {:induction false} TimeoutMeansMissing(ss: seq<State>, ts: seq<Step>, r: ReaderId, i: nat)
    returns (k: nat, a: nat, b: nat, c: nat, p: int)
    requires IsRun(ss, ts) && i < |ss| && r in ss[i].readers
    requires ss[i].readers[r].pc == Returned(TimedOut)
    ensures k < a < b < c < i && WaitBegan(ss, ts, r, k) && SawNoCancel(ss, ts, r, a) && FoundMissing(ss, ts, r, b, p)
    ensures r in ss[0].readers && ss[a].now >= ss[k].now + ss[0].readers[r].timeout
    ensures ts[c] == Advance(r) && !ss[c].cancelled && r in ss[c].readers && ss[c].readers[r].pc == Deciding(false)
  {
    assert StepAt(ss, ts, i - 1);
    StepIsLater(ss[i - 1], ts[i - 1]);
    StepSeenBy(ss[i - 1], ts[i - 1], r);
    if ss[i - 1].readers[r].pc == Returned(TimedOut) {
      k, a, b, c, p := TimeoutMeansMissing(ss, ts, r, i - 1);
    } else {
      c := i - 1;
      OnlyGivingUpTimesOut(ss[c].readers[r], ss[c].cancelled, ss[c].bits, ss[c].now);
      a, b, p := GaveUpOnMissing(ss, ts, r, c);
      k := DeadlineIsTimeoutAfterStart(ss, ts, r, a);
    }
  }

  predicate GivenUp(pc: Pc) { pc == Deciding(false) || pc == Returned(TimedOut) }

  /** A read whose span completes before its last evaluation has found it missing never times out, whether or not it
      ever hears a notification. */
  lemma {:induction false} CompletionBeatsTimeout(ss: seq<State>, ts: seq<Step>, r: ReaderId, i: nat, j: nat)
    requires IsRun(ss, ts) && i <= j < |ss| && r in ss[i].readers
    requires CompleteThroughout(ss[i].bits, ss[i].readers[r].first, ss[i].readers[r].last + 1)
    requires !GivenUp(ss[i].readers[r].pc)
    ensures r in ss[j].readers && !GivenUp(ss[j].readers[r].pc)
  {
    if i < j {
      assert StepAt(ss, ts, j - 1);
      CompletionBeatsTimeout(ss, ts, r, i, j - 1);
      RunIsLater(ss, ts, i, j - 1);
      StepSeenBy(ss[j - 1], ts[j - 1], r);
      RunKeepsInv(ss, ts, j - 1);
      assert ReaderInv(ss[j - 1], r);
    }
  }

  // ----- Termination past the deadline

  /** Own steps a reader may still take once its deadline has passed. */
  function StepsLeft(me: Reader): int {
    var span := me.last + 1 - me.first;
    match me.pc
    case Returned(_) => 0
    case Deciding(_) => 1
    case Scanning(p, true) => me.last + 1 - p + 2
    case Asking(true) => span + 3
    case Waking(true) => span + 4
    case Sleeping(_) => span + 5
    case Yielding => span + 6
    case Scanning(p, false) => me.last + 1 - p + span + 7
    case Asking(false) => 2 * span + 8
    case Waking(false) => 2 * span + 9
    case _ => 2 * span + 10
  }

  function OwnSteps(ts: seq<Step>, r: ReaderId, i: nat, j: nat): nat
    requires i <= j <= |ts|
  {
    if i == j then 0 else OwnSteps(ts, r, i, j - 1) + if ts[j - 1] == Advance(r) then 1 else 0
  }

  lemma OwnStepUsesOneUp(me: Reader, cancelled: bool, bits: seq<bool>, now: int)
    requires me.first <= me.last && Waited(me.pc) && !me.pc.Returned? && now >= me.deadline
    requires me.pc.Scanning? ==> me.first <= me.pc.next <= me.last + 1
    ensures StepsLeft(NextReader(me, cancelled, bits, now)) < StepsLeft(me)
  {
  }

  lemma StepsLeftBounds(me: Reader)
    requires me.first <= me.last && Waited(me.pc)
    requires me.pc.Scanning? ==> me.first <= me.pc.next <= me.last + 1
    ensures 0 <= StepsLeft(me) <= 2 * (me.last + 1 - me.first) + 9
  {
  }

  lemma StepsLeftDrops(s: State, step: Step, r: ReaderId)
    requires Inv(s) && Enabled(s, step) && r in s.readers
    requires Waited(s.readers[r].pc) && s.now >= s.readers[r].deadline
    ensures r in Apply(s, step).readers
    ensures StepsLeft(Apply(s, step).readers[r]) + (if step == Advance(r) then 1 else 0) <= StepsLeft(s.readers[r])
  {
    assert ReaderInv(s, r);
    StepSeenBy(s, step, r);
    if step == Advance(r) {
      OwnStepUsesOneUp(s.readers[r], s.cancelled, s.bits, s.now);
    }
  }

  lemma StaysPastDeadline(ss: seq<State>, ts: seq<Step>, r: ReaderId, i: nat, j: nat)
    requires IsRun(ss, ts) && i <= j < |ss| && r in ss[i].readers
    requires Waited(ss[i].readers[r].pc) && ss[i].now >= ss[i].readers[r].deadline
    ensures Inv(ss[j]) && r in ss[j].readers
    ensures Waited(ss[j].readers[r].pc) && ss[j].now >= ss[j].readers[r].deadline
    ensures 0 <= StepsLeft(ss[j].readers[r]) <= 2 * (ss[i].readers[r].last + 1 - ss[i].readers[r].first) + 9
  {
    RunKeepsInv(ss, ts, j);
    RunIsLater(ss, ts, i, j);
    assert ReaderInv(ss[j], r) && SameCall(ss[i].readers[r], ss[j].readers[r]);
    StepsLeftBounds(ss[j].readers[r]);
  }

  /** Past its deadline a read takes at most 2 x span + 9 further steps of its own, whatever the others do. */
  lemma {:induction false} FewStepsPastDeadline(ss: seq<State>, ts: seq<Step>, r: ReaderId, i: nat, j: nat)
    requires IsRun(ss, ts) && i <= j < |ss| && r in ss[i].readers
    requires Waited(ss[i].readers[r].pc) && ss[i].now >= ss[i].readers[r].deadline
    ensures r in ss[j].readers
    ensures OwnSteps(ts, r, i, j) + StepsLeft(ss[j].readers[r])
         <= StepsLeft(ss[i].readers[r])
         <= 2 * (ss[i].readers[r].last + 1 - ss[i].readers[r].first) + 9
    ensures OwnSteps(ts, r, i, j) <= 2 * (ss[i].readers[r].last + 1 - ss[i].readers[r].first) + 9
  {
    StaysPastDeadline(ss, ts, r, i, i);
    if i < j {
      assert StepAt(ss, ts, j - 1);
      StaysPastDeadline(ss, ts, r, i, j - 1);
      FewStepsPastDeadline(ss, ts, r, i, j - 1);
      StepsLeftDrops(ss[j - 1], ts[j - 1], r);
      StaysPastDeadline(ss, ts, r, i, j);
    }
  }

  /** Past its deadline a read that has not returned can step itself, or the holder of the mutex can. */
  lemma SomeoneCanStep(ss: seq<State>, ts: seq<Step>, r: ReaderId, i: nat) returns (h: ReaderId)
    requires IsRun(ss, ts) && i < |ss| && r in ss[i].readers && !ss[i].phase.Populating?
    requires Waited(ss[i].readers[r].pc) && ss[i].now >= ss[i].readers[r].deadline
    requires !ss[i].readers[r].pc.Returned?
    ensures Enabled(ss[i], Advance(h)) && (h == r || ss[i].mutex == Some(h))
  {
    RunKeepsInv(ss, ts, i);
    assert ReaderInv(ss[i], r);
    if ss[i].readers[r].pc.Waking? && ss[i].mutex.Some? {
      h := ss[i].mutex.value;
      assert ReaderInv(ss[i], h);
    } else {
      h := r;
    }
  }
}
