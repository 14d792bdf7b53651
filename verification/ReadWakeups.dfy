/** Which notifications reach a sleeping reader and which are lost. Notifications take no lock, so one may fall between
    a reader's last look and its wait. */
module ReadWakeups {
  import opened Results
  import opened PieceAvailability
  import opened ReadProtocol
  import opened ReadVerdicts

  /** Steps that end the unnoticed sleep of reader r. */
  predicate Disturbs(step: Step, r: ReaderId) {
    step == AlertNotify || step == CancelNotify || step == SpuriousWake(r) || step == Advance(r)
  }

  ghost predicate Undisturbed(ts: seq<Step>, r: ReaderId, i: nat, j: nat)
    requires i <= j <= |ts|
  {
    forall k :: i <= k < j ==> !Disturbs(ts[k], r)
  }

  /** Step e is reader r entering its wait, and nothing after it before state j has woken the reader. */
  ghost predicate AsleepSince(ss: seq<State>, ts: seq<Step>, r: ReaderId, e: nat, j: nat)
    requires |ss| == |ts| + 1 && j < |ss|
  {
    && e < j && ts[e] == Advance(r) && r in ss[e].readers && ss[e].readers[r].pc == Yielding
    && Undisturbed(ts, r, e + 1, j)
  }

  lemma SleepsOn(s: State, step: Step, r: ReaderId)
    requires Enabled(s, step) && r in s.readers && s.readers[r].pc == Sleeping(false) && !Disturbs(step, r)
    ensures r in Apply(s, step).readers && Apply(s, step).readers[r].pc == Sleeping(false)
  {
  }

  lemma FallsAsleep(s: State, step: Step, r: ReaderId)
    requires Enabled(s, step) && r in s.readers && Apply(s, step).readers[r].pc == Sleeping(false)
    ensures if s.readers[r].pc == Sleeping(false) then !Disturbs(step, r)
      else step == Advance(r) && s.readers[r].pc == Yielding
  {
    StepSeenBy(s, step, r);
  }

  lemma {:induction false} FellAsleep(ss: seq<State>, ts: seq<Step>, r: ReaderId, j: nat) returns (e: nat)
    requires IsRun(ss, ts) && j < |ss| && r in ss[j].readers && ss[j].readers[r].pc == Sleeping(false)
    ensures AsleepSince(ss, ts, r, e, j)
  {
    assert StepAt(ss, ts, j - 1);
    StepIsLater(ss[j - 1], ts[j - 1]);
    FallsAsleep(ss[j - 1], ts[j - 1], r);
    if ss[j - 1].readers[r].pc == Sleeping(false) {
      e := FellAsleep(ss, ts, r, j - 1);
    } else {
      e := j - 1;
    }
  }

  lemma {:induction false} StaysAsleep(ss: seq<State>, ts: seq<Step>, r: ReaderId, e: nat, j: nat)
    requires IsRun(ss, ts) && j < |ss| && AsleepSince(ss, ts, r, e, j)
    ensures r in ss[j].readers && ss[j].readers[r].pc == Sleeping(false)
  {
    if e + 1 < j {
      assert StepAt(ss, ts, j - 1);
      StaysAsleep(ss, ts, r, e, j - 1);
      SleepsOn(ss[j - 1], ts[j - 1], r);
    } else {
      assert StepAt(ss, ts, e);
      StepSeenBy(ss[e], ts[e], r);
    }
  }

  /** A reader sleeps without having heard anything exactly when, since it entered its wait, there has been no
      notification, no spurious wakeup and no step of its own; and then only its deadline lets it go on. */
  lemma SleepsUnheardIff(ss: seq<State>, ts: seq<Step>, r: ReaderId, j: nat)
    requires IsRun(ss, ts) && j < |ss|
    ensures r in ss[j].readers && ss[j].readers[r].pc == Sleeping(false)
       <==> exists e: nat :: AsleepSince(ss, ts, r, e, j)
    ensures r in ss[j].readers && ss[j].readers[r].pc == Sleeping(false) && ss[j].now < ss[j].readers[r].deadline ==>
      !MayAdvance(ss[j], r)
  {
    if r in ss[j].readers && ss[j].readers[r].pc == Sleeping(false) {
      var e := FellAsleep(ss, ts, r, j);
    }
    if e: nat :| AsleepSince(ss, ts, r, e, j) {
      StaysAsleep(ss, ts, r, e, j);
    }
  }

  /** A notification sent while a reader sleeps is not lost: the reader is awake, or free to wake, until it does. */
  lemma {:induction false} SleeperHearsNotification(ss: seq<State>, ts: seq<Step>, r: ReaderId, i: nat, j: nat)
    requires IsRun(ss, ts) && i < j < |ss| && r in ss[i].readers && ss[i].readers[r].pc.Sleeping?
    requires ts[i] == AlertNotify || ts[i] == CancelNotify
    ensures r in ss[j].readers
    ensures Advance(r) !in ts[i..j] ==> ss[j].readers[r].pc == Sleeping(true) && MayAdvance(ss[j], r)
  {
    if i + 1 < j {
      assert StepAt(ss, ts, j - 1);
      SleeperHearsNotification(ss, ts, r, i, j - 1);
      StepSeenBy(ss[j - 1], ts[j - 1], r);
      assert ts[i..j] == ts[i..j - 1] + [ts[j - 1]];
    } else {
      assert StepAt(ss, ts, i);
      assert ts[i..i + 1] == [ts[i]];
    }
  }

  // ----- When a wakeup is lost

  /** What the reader waits for has come about. */
  ghost predicate Ready(s: State, r: ReaderId)
    requires r in s.readers
  {
    s.cancelled || CompleteThroughout(s.bits, s.readers[r].first, s.readers[r].last + 1)
  }

  predicate NothingPending(s: State) { !s.marked && s.stored == 0 }

  /** The reader sleeps unheard although what it waits for has come about, and no notification is on its way. */
  ghost predicate WakeupLost(s: State, r: ReaderId) {
    r in s.readers && s.readers[r].pc == Sleeping(false) && Ready(s, r) && NothingPending(s)
  }

  /** Step e is reader r entering its wait when it was ready and everything had been notified already. */
  ghost predicate EntersTooLate(ss: seq<State>, ts: seq<Step>, r: ReaderId, e: nat)
    requires |ss| == |ts| + 1
  {
    && e < |ts| && ts[e] == Advance(r) && r in ss[e].readers && ss[e].readers[r].pc == Yielding
    && Ready(ss[e], r) && NothingPending(ss[e])
  }

  /** Nobody marks, cancels, notifies or wakes reader r. */
  ghost predicate Quiet(ts: seq<Step>, r: ReaderId, i: nat, j: nat)
    requires i <= j <= |ts|
  {
    forall k :: i <= k < j ==> !Disturbs(ts[k], r) && !ts[k].AlertMark? && !ts[k].CancelStore?
  }

  lemma {:induction false} PendingStays(ss: seq<State>, ts: seq<Step>, r: ReaderId, i: nat, j: nat)
    requires IsRun(ss, ts) && i <= j < |ss| && Undisturbed(ts, r, i, j)
    ensures ss[i].marked ==> ss[j].marked
    ensures ss[i].stored <= ss[j].stored
  {
    if i < j {
      assert StepAt(ss, ts, j - 1);
      PendingStays(ss, ts, r, i, j - 1);
    }
  }

  lemma NothingPendingMeansQuiet(ss: seq<State>, ts: seq<Step>, r: ReaderId, i: nat, j: nat)
    requires IsRun(ss, ts) && i <= j < |ss| && Undisturbed(ts, r, i, j) && NothingPending(ss[j])
    ensures Quiet(ts, r, i, j) && NothingPending(ss[i])
  {
    PendingStays(ss, ts, r, i, j);
    forall k | i <= k < j ensures !ts[k].AlertMark? && !ts[k].CancelStore? {
      assert StepAt(ss, ts, k);
      PendingStays(ss, ts, r, k + 1, j);
    }
  }

  lemma {:induction false} QuietKeeps(ss: seq<State>, ts: seq<Step>, r: ReaderId, i: nat, j: nat)
    requires IsRun(ss, ts) && i <= j < |ss| && Quiet(ts, r, i, j) && !ss[i].phase.Populating?
    ensures !ss[j].phase.Populating? && ss[j].bits == ss[i].bits && ss[j].cancelled == ss[i].cancelled
    ensures ss[j].marked == ss[i].marked && ss[j].stored == ss[i].stored
  {
    if i < j {
      assert StepAt(ss, ts, j - 1);
      QuietKeeps(ss, ts, r, i, j - 1);
    }
  }

  lemma QuietKeepsReady(ss: seq<State>, ts: seq<Step>, r: ReaderId, e: nat, j: nat)
    requires IsRun(ss, ts) && j < |ss| && AsleepSince(ss, ts, r, e, j) && Quiet(ts, r, e + 1, j)
    ensures r in ss[j].readers && (Ready(ss[e], r) <==> Ready(ss[j], r))
    ensures NothingPending(ss[e]) <==> NothingPending(ss[j])
  {
    assert StepAt(ss, ts, e);
    QuietKeeps(ss, ts, r, e + 1, j);
    RunIsLater(ss, ts, e, j);
    assert SameCall(ss[e].readers[r], ss[j].readers[r]);
  }

  /** A wakeup is lost exactly when the reader enters its wait ready, with every notification already sent, and nothing
      has happened since that could wake it. */
  lemma WakeupLostIff(ss: seq<State>, ts: seq<Step>, r: ReaderId, j: nat)
    requires IsRun(ss, ts) && j < |ss|
    ensures WakeupLost(ss[j], r) <==> exists e: nat :: e < j && EntersTooLate(ss, ts, r, e) && Quiet(ts, r, e + 1, j)
  {
    if WakeupLost(ss[j], r) {
      var e := FellAsleep(ss, ts, r, j);
      NothingPendingMeansQuiet(ss, ts, r, e + 1, j);
      QuietKeepsReady(ss, ts, r, e, j);
      assert EntersTooLate(ss, ts, r, e);
    }
    if e: nat :| e < j && EntersTooLate(ss, ts, r, e) && Quiet(ts, r, e + 1, j) {
      assert AsleepSince(ss, ts, r, e, j);
      StaysAsleep(ss, ts, r, e, j);
      QuietKeepsReady(ss, ts, r, e, j);
    }
  }

  lemma {:induction false} NotifiedBetween(ss: seq<State>, ts: seq<Step>, i: nat, e: nat) returns (k: nat)
    requires IsRun(ss, ts) && i < e < |ss|
    requires (ts[i].AlertMark? && !ss[e].marked) || (ts[i] == CancelStore && ss[e].stored == 0)
    ensures i < k < e && ts[k] == if ts[i].AlertMark? then AlertNotify else CancelNotify
  {
    assert StepAt(ss, ts, e - 1);
    if ts[e - 1] == if ts[i].AlertMark? then AlertNotify else CancelNotify {
      k := e - 1;
    } else {
      k := NotifiedBetween(ss, ts, i, e - 1);
    }
  }

  /** A reader whose wakeup is lost has missed every notification there was of a mark or a cancel: each was sent before
      it entered its wait. */
  lemma EveryNotificationCameTooSoon(ss: seq<State>, ts: seq<Step>, r: ReaderId, j: nat, i: nat)
    returns (e: nat, k: nat)
    requires IsRun(ss, ts) && i < j < |ss| && WakeupLost(ss[j], r)
    requires ts[i].AlertMark? || ts[i] == CancelStore
    ensures AsleepSince(ss, ts, r, e, j)
    ensures i < k < e && ts[k] == if ts[i].AlertMark? then AlertNotify else CancelNotify
  {
    e := FellAsleep(ss, ts, r, j);
    NothingPendingMeansQuiet(ss, ts, r, e + 1, j);
    QuietKeepsReady(ss, ts, r, e, j);
    k := NotifiedBetween(ss, ts, i, e);
  }

  /** Step b is reader r's load that found piece p of its span missing, before its deadline. */
  ghost predicate LookedAndMissed(ss: seq<State>, ts: seq<Step>, r: ReaderId, b: nat, p: int)
    requires |ss| == |ts| + 1
  {
    && b < |ts| && ts[b] == Advance(r) && r in ss[b].readers && ss[b].readers[r].pc == Scanning(p, false)
    && ss[b].readers[r].first <= p <= ss[b].readers[r].last && !Complete(ss[b].bits, p)
  }

  lemma OnlyMissesYield(me: Reader, cancelled: bool, bits: seq<bool>, now: int)
    requires NextReader(me, cancelled, bits, now).pc == Yielding
    ensures me.pc.Scanning? && !me.pc.last && me.pc.next <= me.last && !Complete(bits, me.pc.next)
  {
  }

  lemma {:induction false} YieldsAfterMiss(ss: seq<State>, ts: seq<Step>, r: ReaderId, e: nat) returns (b: nat, p: int)
    requires IsRun(ss, ts) && e < |ss| && r in ss[e].readers && ss[e].readers[r].pc == Yielding
    ensures b < e && LookedAndMissed(ss, ts, r, b, p)
    ensures ss[e].readers[r].first <= p <= ss[e].readers[r].last
  {
    assert StepAt(ss, ts, e - 1);
    StepIsLater(ss[e - 1], ts[e - 1]);
    StepSeenBy(ss[e - 1], ts[e - 1], r);
    assert SameCall(ss[e - 1].readers[r], ss[e].readers[r]);
    if ss[e - 1].readers[r].pc == Yielding {
      b, p := YieldsAfterMiss(ss, ts, r, e - 1);
    } else {
      b := e - 1;
      OnlyMissesYield(ss[b].readers[r], ss[b].cancelled, ss[b].bits, ss[b].now);
      p := ss[b].readers[r].pc.next;
      ScanStaysInSpan(ss, ts, r, b);
    }
  }

  lemma OnlyAlertsMark(s: State, step: Step, p: int)
    requires Enabled(s, step) && !s.phase.Populating?
    ensures !Apply(s, step).phase.Populating?
    ensures Complete(Apply(s, step).bits, p) && !Complete(s.bits, p) ==> step == AlertMark(p)
  {
  }

  lemma {:induction false} StaysPopulated(ss: seq<State>, ts: seq<Step>, i: nat, j: nat)
    requires IsRun(ss, ts) && i <= j < |ss| && !ss[i].phase.Populating?
    ensures !ss[j].phase.Populating?
  {
    if i < j {
      assert StepAt(ss, ts, j - 1);
      StaysPopulated(ss, ts, i, j - 1);
      OnlyAlertsMark(ss[j - 1], ts[j - 1], 0);
    }
  }

  lemma {:induction false} MarkedBetween(ss: seq<State>, ts: seq<Step>, b: nat, e: nat, p: int) returns (m: nat)
    requires IsRun(ss, ts) && b <= e < |ss| && !ss[b].phase.Populating?
    requires !Complete(ss[b].bits, p) && Complete(ss[e].bits, p)
    ensures b <= m < e && ts[m] == AlertMark(p)
  {
    assert StepAt(ss, ts, e - 1);
    StaysPopulated(ss, ts, b, e - 1);
    OnlyAlertsMark(ss[e - 1], ts[e - 1], p);
    if Complete(ss[e - 1].bits, p) {
      m := MarkedBetween(ss, ts, b, e - 1, p);
    } else {
      m := e - 1;
    }
  }

  /** The race in full. If no cancel is involved, a piece the reader found missing was marked, and the mark notified,
      between that look and the reader's wait. */
  lemma LostBetweenLookAndWait(ss: seq<State>, ts: seq<Step>, r: ReaderId, j: nat)
    returns (b: nat, m: nat, n: nat, e: nat, p: int)
    requires IsRun(ss, ts) && j < |ss| && WakeupLost(ss[j], r) && !ss[j].cancelled
    ensures b < m < n < e < j && LookedAndMissed(ss, ts, r, b, p)
    ensures ts[m] == AlertMark(p) && ts[n] == AlertNotify && AsleepSince(ss, ts, r, e, j)
  {
    e := FellAsleep(ss, ts, r, j);
    NothingPendingMeansQuiet(ss, ts, r, e + 1, j);
    QuietKeepsReady(ss, ts, r, e, j);
    RunIsLater(ss, ts, e, j);
    b, p := YieldsAfterMiss(ss, ts, r, e);
    assert StepAt(ss, ts, b);
    m := MarkedBetween(ss, ts, b, e, p);
    n := NotifiedBetween(ss, ts, m, e);
  }

  // ----- Lost wakeups are real

  ghost predicate Reachable(s: State) {
    exists ss: seq<State>, ts: seq<Step> :: IsRun(ss, ts) && ss[|ts|] == s
  }

  lemma ReachableStep(s: State, step: Step)
    requires Reachable(s) && Enabled(s, step)
    ensures Reachable(Apply(s, step))
  {
    var ss: seq<State>, ts: seq<Step> :| IsRun(ss, ts) && ss[|ts|] == s;
    var ss', ts' := ss + [Apply(s, step)], ts + [step];
    assert IsRun(ss', ts') by {
      forall i: nat | i < |ts'| ensures StepAt(ss', ts', i) {
        assert i < |ts| ==> StepAt(ss, ts, i) && ss'[i] == ss[i] && ss'[i + 1] == ss[i + 1] && ts'[i] == ts[i];
      }
    }
    assert ss'[|ts'|] == Apply(s, step);
  }

  /** One reader of the one piece; its deadline is set as long as the clock stands at zero. */
  function OneReader(timeout: nat, phase: Phase, finished: set<int>, bits: seq<bool>, marked: bool,
                     mutex: Option<ReaderId>, deadline: int, pc: Pc): State {
    State(finished, {}, phase, bits, marked, false, 0, mutex, 0, map[0 := Reader(0, 0, timeout, deadline, pc)])
  }

  lemma OneReaderAdvances(timeout: nat, finished: set<int>, bits: seq<bool>, mutex: Option<ReaderId>, deadline: int,
                          pc: Pc, deadline': int, pc': Pc)
    requires var s := OneReader(timeout, Published, finished, bits, false, mutex, deadline, pc);
      Reachable(s) && Enabled(s, Advance(0))
    requires Reader(0, 0, timeout, deadline', pc') == NextReader(Reader(0, 0, timeout, deadline, pc), false, bits, 0)
    ensures Reachable(OneReader(timeout, Published, finished, bits, false, NextMutex(mutex, 0, pc), deadline', pc'))
  {
    var s := OneReader(timeout, Published, finished, bits, false, mutex, deadline, pc);
    ReachableStep(s, Advance(0));
    assert s.readers[0 := Reader(0, 0, timeout, deadline', pc')] == map[0 := Reader(0, 0, timeout, deadline', pc')];
  }

  lemma Serving(timeout: nat)
    ensures Reachable(OneReader(timeout, Published, {}, [false], false, None, 0, Entering))
  {
    var s := OneReader(timeout, Populating(0), {}, [false], false, None, 0, Entering);
    assert Reachable(s) by {
      var none: seq<Step> := [];
      assert IsRun([s], none) && [s][|none|] == s;
    }
    ReachableStep(s, Populate);
    s := s.(phase := Populating(1));
    ReachableStep(s, Populate);
    s := s.(phase := Registered);
    ReachableStep(s, Publish);
  }

  lemma AboutToScan(timeout: nat)
    ensures Reachable(OneReader(timeout, Published, {}, [false], false, Some(0), timeout, Scanning(0, false)))
  {
    Serving(timeout);
    OneReaderAdvances(timeout, {}, [false], None, 0, Entering, 0, Locking);
    OneReaderAdvances(timeout, {}, [false], None, 0, Locking, timeout, Asking(false));
    OneReaderAdvances(timeout, {}, [false], Some(0), timeout, Asking(false), timeout, Scanning(0, false));
  }

  lemma FinishedAfterTheLoad(timeout: nat)
    ensures Reachable(OneReader(timeout, Published, {0}, [false], false, Some(0), timeout, Yielding))
  {
    AboutToScan(timeout);
    OneReaderAdvances(timeout, {}, [false], Some(0), timeout, Scanning(0, false), timeout, Yielding);
    ReachableStep(OneReader(timeout, Published, {}, [false], false, Some(0), timeout, Yielding), Finish(0));
  }

  /** A reader can fall asleep just after its last missing piece was marked and notified: its span is complete, no
      notification is on its way, and only the clock (or a spurious wakeup) will wake it. */
  lemma NotificationCanBeMissed(timeout: nat) returns (s: State)
    requires timeout > 0
    ensures Reachable(s) && WakeupLost(s, 0)
    ensures s.now < s.readers[0].deadline && !s.cancelled
    ensures CompleteThroughout(s.bits, s.readers[0].first, s.readers[0].last + 1)
  {
    FinishedAfterTheLoad(timeout);
    s := OneReader(timeout, Published, {0}, [false], false, Some(0), timeout, Yielding);
    ReachableStep(s, AlertMark(0));
    s := OneReader(timeout, Published, {0}, [true], true, Some(0), timeout, Yielding);
    ReachableStep(s, AlertNotify);
    assert Woken(s.readers) == s.readers;
    OneReaderAdvances(timeout, {0}, [true], Some(0), timeout, Yielding, timeout, Sleeping(false));
    s := OneReader(timeout, Published, {0}, [true], false, None, timeout, Sleeping(false));
  }
}
