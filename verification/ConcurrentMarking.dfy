/** mark_complete run by any number of threads at once: the compare-exchange on the bit and the increment of the
    counter are two separate atomic steps. */
module ConcurrentMarking {
  import opened PieceAvailability

  type ThreadId = nat

  datatype State = State(bits: seq<bool>, count: nat, won: set<ThreadId>)  // won: exchanged, not yet incremented

  datatype Step =
    | CompareExchange(thread: ThreadId, piece: int)
    | Increment(thread: ThreadId)

  predicate Enabled(s: State, step: Step) {
    match step
    case CompareExchange(t, _) => t !in s.won
    case Increment(t) => t in s.won
  }

  function Apply(s: State, step: Step): State {
    match step
    case CompareExchange(t, p) =>
      if 0 <= p < |s.bits| && !s.bits[p] then s.(bits := s.bits[p := true], won := s.won + {t}) else s
    case Increment(t) => s.(count := s.count + 1, won := s.won - {t})
  }

  function After(bits: seq<bool>, steps: seq<Step>): State {
    if steps == [] then State(bits, CountTrue(bits), {})
    else Apply(After(bits, steps[..|steps| - 1]), steps[|steps| - 1])
  }

  ghost predicate IsRun(bits: seq<bool>, steps: seq<Step>) {
    forall i :: 0 <= i < |steps| ==> Enabled(After(bits, steps[..i]), steps[i])
  }

  /** Some thread has been asked to mark piece p. */
  ghost predicate Asked(steps: seq<Step>, p: int) {
    exists i :: 0 <= i < |steps| && steps[i].CompareExchange? && steps[i].piece == p
  }

  lemma PrefixIsRun(bits: seq<bool>, steps: seq<Step>)
    requires IsRun(bits, steps) && steps != []
    ensures IsRun(bits, steps[..|steps| - 1])
    ensures Enabled(After(bits, steps[..|steps| - 1]), steps[|steps| - 1])
  {
    var init := steps[..|steps| - 1];
    forall i | 0 <= i < |init| ensures Enabled(After(bits, init[..i]), init[i]) {
      assert init[..i] == steps[..i];
    }
  }

  /** In every interleaving, set bits = counter + threads between their exchange and their increment. */
  lemma {:induction false} SetBitsAreCountedOrPending(bits: seq<bool>, steps: seq<Step>)
    requires IsRun(bits, steps)
    ensures var s := After(bits, steps); CountTrue(s.bits) == s.count + |s.won|
  {
    if steps != [] {
      PrefixIsRun(bits, steps);
      SetBitsAreCountedOrPending(bits, steps[..|steps| - 1]);
      var s, step := After(bits, steps[..|steps| - 1]), steps[|steps| - 1];
      if step.CompareExchange? {
        MarkCountsOnce(s.bits, step.piece);
      }
    }
  }

  /** A bit is set exactly when it was at the start or some thread has been asked to mark it. */
  lemma {:induction false} BitsAreWhatWasAsked(bits: seq<bool>, steps: seq<Step>)
    ensures |After(bits, steps).bits| == |bits|
    ensures forall p :: 0 <= p < |bits| ==> (After(bits, steps).bits[p] <==> bits[p] || Asked(steps, p))
  {
    if steps != [] {
      var init, step := steps[..|steps| - 1], steps[|steps| - 1];
      BitsAreWhatWasAsked(bits, init);
      forall p | 0 <= p < |bits|
        ensures Asked(steps, p) <==> Asked(init, p) || (step.CompareExchange? && step.piece == p)
      {
        if Asked(init, p) {
          var i :| 0 <= i < |init| && init[i].CompareExchange? && init[i].piece == p;
          assert steps[i] == init[i];
        }
        if Asked(steps, p) && !(step.CompareExchange? && step.piece == p) {
          var i :| 0 <= i < |steps| && steps[i].CompareExchange? && steps[i].piece == p;
          assert init[i] == steps[i];
        }
      }
    }
  }

  /** At rest the counter is exact. */
  lemma CounterExactAtRest(bits: seq<bool>, steps: seq<Step>)
    requires IsRun(bits, steps) && After(bits, steps).won == {}
    ensures After(bits, steps).count == |set p | 0 <= p < |bits| && (bits[p] || Asked(steps, p))|
  {
    var s := After(bits, steps);
    SetBitsAreCountedOrPending(bits, steps);
    CountIsCardinality(s.bits);
    BitsAreWhatWasAsked(bits, steps);
    assert CompleteIn(s.bits, 0, |s.bits|) == (set p | 0 <= p < |bits| && (bits[p] || Asked(steps, p)));
  }

  /** Two runs asked for the same pieces, in any order, by any threads and any number of times, rest in one state. */
  lemma RestDoesNotDependOnOrder(bits: seq<bool>, steps: seq<Step>, others: seq<Step>)
    requires IsRun(bits, steps) && After(bits, steps).won == {}
    requires IsRun(bits, others) && After(bits, others).won == {}
    requires forall p :: 0 <= p < |bits| ==> (Asked(steps, p) <==> Asked(others, p))
    ensures After(bits, steps) == After(bits, others)
  {
    var s, o := After(bits, steps), After(bits, others);
    BitsAreWhatWasAsked(bits, steps);
    BitsAreWhatWasAsked(bits, others);
    assert s.bits == o.bits;
    SetBitsAreCountedOrPending(bits, steps);
    SetBitsAreCountedOrPending(bits, others);
  }
}
