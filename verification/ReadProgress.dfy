/** How far a read gets: with its span there it returns its bytes, with the flag up it returns, each in a number of its
    own steps; and what of the shared state a run has brought about. */
module ReadProgress {
  import opened PieceAvailability
  import opened ReadProtocol
  import opened ReadVerdicts

  // ----- The shared state as its history

  function Elapsed(ts: seq<Step>): int {
    if ts == [] then 0
    else Elapsed(ts[..|ts| - 1]) + match ts[|ts| - 1] case Clock(ms) => ms case _ => 0
  }

  lemma SharedStep(s: State, step: Step, p: int)
    requires Enabled(s, step)
    ensures var s' := Apply(s, step);
      && (s'.cancelled <==> s.cancelled || step == CancelStore)
      && (p in s'.finished <==> p in s.finished || step == Finish(p))
      && s'.now == s.now + match step case Clock(ms) => ms case _ => 0
  {
  }

  /** The flag is up exactly when some cancel has stored it, a piece is finished exactly when it was or has been since,
      and the clock stands at its start plus what has passed. */
  lemma {:induction false} SharedStateIsItsHistory(ss: seq<State>, ts: seq<Step>, i: nat, p: int)
    requires IsRun(ss, ts) && i < |ss|
    ensures ss[i].cancelled <==> CancelStore in ts[..i]
    ensures p in ss[i].finished <==> p in ss[0].finished || Finish(p) in ts[..i]
    ensures ss[i].now == ss[0].now + Elapsed(ts[..i])
  {
    if i > 0 {
      SharedStateIsItsHistory(ss, ts, i - 1, p);
      assert StepAt(ss, ts, i - 1);
      SharedStep(ss[i - 1], ts[i - 1], p);
      assert ts[..i] == ts[..i - 1] + [ts[i - 1]];
    }
  }

  // ----- A read whose span is there

  /** Own steps to the return of a read that finds its span complete whenever it looks. */
  function StepsToBytes(me: Reader): int {
    var span := me.last + 1 - me.first;
    match me.pc
    case Returned(_) => 0
    case Deciding(_) => 1
    case Scanning(p, _) => me.last + 1 - p + 2
    case Asking(_) => span + 3
    case Waking(_) => span + 4
    case Locking => span + 4
    case Sleeping(_) => span + 5
    case Entering => span + 5
    case Yielding => span + 6
  }

  lemma OneStepNearer(me: Reader, bits: seq<bool>, now: int)
    requires me.first <= me.last && CompleteThroughout(bits, me.first, me.last + 1)
    requires me.pc.Scanning? ==> me.first <= me.pc.next <= me.last + 1
    requires !GivenUp(me.pc) && !me.pc.Returned?
    ensures var me' := NextReader(me, false, bits, now);
      StepsToBytes(me') == StepsToBytes(me) - 1 && !GivenUp(me'.pc) && me'.pc != Returned(WasCancelled)
  {
  }

  lemma ReadStep(s: State, step: Step, r: ReaderId)
    requires Inv(s) && Enabled(s, step) && r in s.readers && !s.cancelled && !GivenUp(s.readers[r].pc)
    requires CompleteThroughout(s.bits, s.readers[r].first, s.readers[r].last + 1)
    ensures r in Apply(s, step).readers
    ensures var me, me' := s.readers[r], Apply(s, step).readers[r];
      && StepsToBytes(me') == StepsToBytes(me) - (if step == Advance(r) then 1 else 0)
      && !GivenUp(me'.pc) && me'.pc != Returned(WasCancelled)
  {
    assert ReaderInv(s, r);
    StepSeenBy(s, step, r);
    if step == Advance(r) {
      OneStepNearer(s.readers[r], s.bits, s.now);
    }
  }

  lemma NoStepsLeftIff(s: State, r: ReaderId)
    requires r in s.readers && ReaderInv(s, r) && !s.cancelled && !GivenUp(s.readers[r].pc)
    ensures 0 <= StepsToBytes(s.readers[r])
    ensures StepsToBytes(s.readers[r]) == 0 <==> s.readers[r].pc == Returned(Read)
  {
    match s.readers[r].pc {
      case Returned(WasCancelled) =>
      case Returned(TimedOut) =>
      case _ =>
    }
  }

  lemma {:induction false} ReadNears(ss: seq<State>, ts: seq<Step>, r: ReaderId, i: nat, j: nat)
    requires IsRun(ss, ts) && i <= j < |ss| && r in ss[i].readers && !ss[j].cancelled
    requires CompleteThroughout(ss[i].bits, ss[i].readers[r].first, ss[i].readers[r].last + 1)
    requires !GivenUp(ss[i].readers[r].pc)
    ensures r in ss[j].readers && !GivenUp(ss[j].readers[r].pc)
    ensures CompleteThroughout(ss[j].bits, ss[j].readers[r].first, ss[j].readers[r].last + 1)
    ensures OwnSteps(ts, r, i, j) + StepsToBytes(ss[j].readers[r]) == StepsToBytes(ss[i].readers[r])
  {
    if i < j {
      assert StepAt(ss, ts, j - 1);
      StepIsLater(ss[j - 1], ts[j - 1]);
      ReadNears(ss, ts, r, i, j - 1);
      RunKeepsInv(ss, ts, j - 1);
      ReadStep(ss[j - 1], ts[j - 1], r);
      assert SameCall(ss[j - 1].readers[r], ss[j].readers[r]);
    }
  }

  /** Once its span is complete and while no cancel comes, every own step brings a read nearer to its bytes, which it
      returns after exactly as many as StepsToBytes says; from the start that is its span and five. */
  lemma CompleteReadReturnsBytes(ss: seq<State>, ts: seq<Step>, r: ReaderId, i: nat, j: nat)
    requires IsRun(ss, ts) && i <= j < |ss| && r in ss[i].readers && !ss[j].cancelled
    requires CompleteThroughout(ss[i].bits, ss[i].readers[r].first, ss[i].readers[r].last + 1)
    requires !GivenUp(ss[i].readers[r].pc)
    ensures r in ss[j].readers
    ensures OwnSteps(ts, r, i, j) <= StepsToBytes(ss[i].readers[r])
    ensures ss[j].readers[r].pc == Returned(Read) <==> OwnSteps(ts, r, i, j) == StepsToBytes(ss[i].readers[r])
    ensures ss[i].readers[r].pc == Entering ==>
      StepsToBytes(ss[i].readers[r]) == ss[i].readers[r].last + 1 - ss[i].readers[r].first + 5
  {
    ReadNears(ss, ts, r, i, j);
    RunKeepsInv(ss, ts, j);
    assert ReaderInv(ss[j], r);
    NoStepsLeftIff(ss[j], r);
  }

  // ----- A read with the flag up

  /** Own steps a read may still take with the flag up; only a scan under way takes its span into account. */
  function StepsToCancelled(me: Reader): int {
    match me.pc
    case Returned(_) => 0
    case Deciding(_) => 1
    case Entering => 1
    case Asking(_) => 2
    case Waking(_) => 3
    case Locking => 3
    case Sleeping(_) => 4
    case Yielding => 5
    case Scanning(p, _) => me.last + 1 - p + 6
  }

  lemma FlagEndsSoon(me: Reader, bits: seq<bool>, now: int)
    requires me.pc.Scanning? ==> me.pc.next <= me.last + 1
    requires !me.pc.Returned?
    ensures StepsToCancelled(NextReader(me, true, bits, now)) < StepsToCancelled(me)
  {
  }

  /** With the flag up a read takes no more own steps than StepsToCancelled says, so two once it asks again. */
  lemma {:induction false} CancelledReadEndsSoon(ss: seq<State>, ts: seq<Step>, r: ReaderId, i: nat, j: nat)
    requires IsRun(ss, ts) && i <= j < |ss| && r in ss[i].readers && ss[i].cancelled
    ensures r in ss[j].readers
    ensures 0 <= StepsToCancelled(ss[j].readers[r])
    ensures OwnSteps(ts, r, i, j) + StepsToCancelled(ss[j].readers[r]) <= StepsToCancelled(ss[i].readers[r])
  {
    RunKeepsInv(ss, ts, j);
    RunIsLater(ss, ts, i, j);
    assert ReaderInv(ss[j], r);
    if i < j {
      assert StepAt(ss, ts, j - 1);
      CancelledReadEndsSoon(ss, ts, r, i, j - 1);
      RunKeepsInv(ss, ts, j - 1);
      RunIsLater(ss, ts, i, j - 1);
      assert ReaderInv(ss[j - 1], r);
      StepSeenBy(ss[j - 1], ts[j - 1], r);
      if ts[j - 1] == Advance(r) {
        FlagEndsSoon(ss[j - 1].readers[r], ss[j - 1].bits, ss[j - 1].now);
      }
    }
  }
}
