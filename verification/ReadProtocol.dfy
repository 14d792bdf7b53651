/** Blocking reads as a concurrent protocol: any number of readers in ByteSource::read, the alert thread that marks and
    then notifies, cancellers that store and then notify, libtorrent finishing pieces, and the clock.
    Every load, store, lock operation and notification is a step of its own; notifications take no lock. */
module ReadProtocol {
  import opened Results
  import opened PieceAvailability

  type ReaderId = nat

  datatype Verdict = WasCancelled | TimedOut | Read

  /** Where a reader stands. `last` tells the predicate evaluation after the deadline, whose result is final. */
  datatype Pc =
    | Entering                    // about to load the cancelled flag
    | Locking                     // about to take the mutex for the wait
    | Asking(last: bool)          // predicate: about to load the cancelled flag
    | Scanning(next: int, last: bool)  // predicate: about to load the bit of piece `next`
    | Yielding                    // predicate was false; about to enter wait_until, still holding the mutex
    | Sleeping(notified: bool)    // in wait_until, mutex released
    | Waking(expired: bool)       // out of wait_until, about to retake the mutex
    | Deciding(ok: bool)          // wait_for has returned; about to reload the cancelled flag
    | Returned(verdict: Verdict)  // Read: past the wait, on its way to read_from_disk

  datatype Reader = Reader(first: int, last: int, timeout: nat, deadline: int, pc: Pc)

  /** How far select_file has got with the new index. */
  datatype Phase =
    | Populating(next: nat)       // copying the status snapshot, index not shared yet
    | Registered                  // readers can arrive, alerts still go to the old state
    | Published                   // alerts reach this index

  datatype State = State(
    finished: set<int>,           // pieces libtorrent has finished
    snapshot: set<int>,           // what the status call reported
    phase: Phase,
    bits: seq<bool>,
    marked: bool,                 // the alert thread has marked and not yet notified
    cancelled: bool,
    stored: nat,                  // cancellers between their store and their notification
    mutex: Option<ReaderId>,      // holder, if any
    now: int,
    readers: map<ReaderId, Reader>)

  datatype Step =
    | Finish(piece: int)
    | Populate
    | Publish
    | AlertMark(piece: int)
    | AlertNotify
    | CancelStore
    | CancelNotify
    | SpuriousWake(reader: ReaderId)
    | Clock(ms: nat)
    | Advance(reader: ReaderId)   // the reader's own next step

  /** What each sleeping reader sees of a notification. Readers elsewhere miss it. */
  function Woken(readers: map<ReaderId, Reader>): map<ReaderId, Reader> {
    map r | r in readers :: if readers[r].pc.Sleeping? then readers[r].(pc := Sleeping(true)) else readers[r]
  }

  predicate MayAdvance(s: State, r: ReaderId)
    requires r in s.readers
  {
    match s.readers[r].pc
    case Locking => s.mutex == None
    case Waking(_) => s.mutex == None
    case Sleeping(notified) => notified || s.now >= s.readers[r].deadline
    case Returned(_) => false
    case _ => true
  }

  predicate Enabled(s: State, step: Step) {
    match step
    case Populate => s.phase.Populating? 
    case Publish => s.phase == Registered
    case AlertMark(p) => s.phase == Published && !s.marked && p in s.finished
    case AlertNotify => s.marked
    case CancelNotify => s.stored > 0
    case CancelStore => !s.phase.Populating?
    case SpuriousWake(r) => r in s.readers && s.readers[r].pc.Sleeping?
    case Advance(r) => !s.phase.Populating? && r in s.readers && MayAdvance(s, r)
    case _ => true
  }

  /** The predicate has evaluated to `held`: the wait is over, or the reader has to sleep. */
  function PredicateDone(held: bool, last: bool): Pc {
    if held || last then Deciding(held) else Yielding
  }

  /** The reader after its own next step, from what that step can see of the shared state. */
  function NextReader(me: Reader, cancelled: bool, bits: seq<bool>, now: int): Reader {
    match me.pc
    case Entering => me.(pc := if cancelled then Returned(WasCancelled) else Locking)
    case Locking => me.(pc := Asking(false), deadline := now + me.timeout)
    case Asking(last) => me.(pc := if cancelled then PredicateDone(true, last) else Scanning(me.first, last))
    case Scanning(p, last) =>
      me.(pc := if p > me.last then PredicateDone(true, last)
                else if Complete(bits, p) then Scanning(p + 1, last)
                else PredicateDone(false, last))
    case Yielding => me.(pc := Sleeping(false))
    case Sleeping(_) => me.(pc := Waking(now >= me.deadline))
    case Waking(expired) => me.(pc := Asking(expired))
    case Deciding(ok) => me.(pc := Returned(if cancelled then WasCancelled else if !ok then TimedOut else Read))
    case Returned(_) => me
  }

  /** The mutex after that step: taken on the way into the predicate, released by the wait and at the end. */
  function NextMutex(mutex: Option<ReaderId>, r: ReaderId, pc: Pc): Option<ReaderId> {
    if pc.Locking? || pc.Waking? then Some(r)
    else if pc.Yielding? || pc.Deciding? then None
    else mutex
  }

  function Apply(s: State, step: Step): State
    requires Enabled(s, step)
  {
    match step
    case Finish(p) => s.(finished := s.finished + {p})
    case Populate =>
      var k := s.phase.next;
      if k < |s.bits|
      then s.(bits := if k in s.snapshot then s.bits[k := true] else s.bits, phase := Populating(k + 1))
      else s.(phase := Registered)
    case Publish => s.(phase := Published)
    case AlertMark(p) => s.(bits := Marked(s.bits, p), marked := true)
    case AlertNotify => s.(marked := false, readers := Woken(s.readers))
    case CancelStore => s.(cancelled := true, stored := s.stored + 1)
    case CancelNotify => s.(stored := s.stored - 1, readers := Woken(s.readers))
    case SpuriousWake(r) => s.(readers := s.readers[r := s.readers[r].(pc := Sleeping(true))])
    case Clock(ms) => s.(now := s.now + ms)
    case Advance(r) =>
      s.(readers := s.readers[r := NextReader(s.readers[r], s.cancelled, s.bits, s.now)],
         mutex := NextMutex(s.mutex, r, s.readers[r].pc))
  }

  /** select_file has just taken its snapshot; every reader has yet to call read. */
  ghost predicate Init(s: State) {
    && s.snapshot <= s.finished
    && s.phase == Populating(0)
    && (forall p :: 0 <= p < |s.bits| ==> !s.bits[p])
    && !s.marked && !s.cancelled && s.stored == 0 && s.mutex == None
    && (forall r :: r in s.readers ==> s.readers[r].pc == Entering && s.readers[r].first <= s.readers[r].last)
  }

  ghost predicate StepAt(ss: seq<State>, ts: seq<Step>, i: nat)
    requires |ss| == |ts| + 1 && i < |ts|
  {
    Enabled(ss[i], ts[i]) && ss[i + 1] == Apply(ss[i], ts[i])
  }

  /** States and the steps between them. */
  ghost predicate IsRun(ss: seq<State>, ts: seq<Step>) {
    && |ss| == |ts| + 1
    && Init(ss[0])
    && forall i: nat :: i < |ts| ==> StepAt(ss, ts, i)
  }

  // ----- Invariants

  predicate HoldsMutex(pc: Pc) {
    pc.Asking? || pc.Scanning? || pc.Yielding? || pc.Deciding?
  }

  /** What a reader's position says about the shared state. */
  ghost predicate ReaderInv(s: State, r: ReaderId)
    requires r in s.readers
  {
    var me := s.readers[r];
    && me.first <= me.last
    && (HoldsMutex(me.pc) <==> s.mutex == Some(r))
    && (me.pc.Scanning? ==> me.first <= me.pc.next <= me.last + 1 && CompleteThroughout(s.bits, me.first, me.pc.next))
    && (me.pc == Deciding(true) ==> s.cancelled || CompleteThroughout(s.bits, me.first, me.last + 1))
    && (me.pc == Returned(Read) ==> CompleteThroughout(s.bits, me.first, me.last + 1))
    && (me.pc == Returned(WasCancelled) ==> s.cancelled)
  }

  /** The index never claims more than libtorrent has finished. */
  ghost predicate NeverOverReports(s: State) {
    s.snapshot <= s.finished && forall p :: Complete(s.bits, p) ==> p in s.finished
  }

  ghost predicate Inv(s: State) {
    && NeverOverReports(s)
    && (s.mutex.Some? ==> s.mutex.value in s.readers)
    && forall r :: r in s.readers ==> ReaderInv(s, r)
  }

  /** The wait has begun, so the deadline is set. */
  predicate Waited(pc: Pc) { !pc.Entering? && !pc.Locking? }

  ghost predicate SameCall(me: Reader, me': Reader) {
    && me'.first == me.first && me'.last == me.last && me'.timeout == me.timeout
    && (Waited(me.pc) ==> Waited(me'.pc) && me'.deadline == me.deadline)
  }

  /** Flags only rise, pieces stay finished and marked, the clock runs forward, spans and deadlines-once-set stay. */
  ghost predicate Later(s: State, s': State) {
    && s.finished <= s'.finished
    && (s.cancelled ==> s'.cancelled)
    && s.now <= s'.now
    && |s.bits| == |s'.bits|
    && (forall p :: Complete(s.bits, p) ==> Complete(s'.bits, p))
    && s'.readers.Keys == s.readers.Keys
    && (forall r :: r in s.readers ==> SameCall(s.readers[r], s'.readers[r]))
  }

  lemma InitInv(s: State)
    requires Init(s)
    ensures Inv(s)
  {
  }

  /** What one step of the run means for one reader: its own move, or at most a wakeup while it sleeps. */
  lemma StepSeenBy(s: State, step: Step, r: ReaderId)
    requires Enabled(s, step) && r in s.readers
    ensures r in Apply(s, step).readers
    ensures var me, me' := s.readers[r], Apply(s, step).readers[r];
      if step == Advance(r) then me' == NextReader(me, s.cancelled, s.bits, s.now)
      else me' == me || (me.pc.Sleeping? && me' == me.(pc := Sleeping(true)))
  {
  }

  lemma StepKeepsBits(s: State, step: Step)
    requires Enabled(s, step)
    ensures |Apply(s, step).bits| == |s.bits|
    ensures forall p :: Complete(s.bits, p) ==> Complete(Apply(s, step).bits, p)
  {
  }

  lemma StepIsLater(s: State, step: Step)
    requires Enabled(s, step)
    ensures Later(s, Apply(s, step))
  {
    var s' := Apply(s, step);
    StepKeepsBits(s, step);
    forall r | r in s.readers ensures SameCall(s.readers[r], s'.readers[r]) {
      StepSeenBy(s, step, r);
    }
  }

  lemma DoneLasts(bits: seq<bool>, bits': seq<bool>, me: Reader, end: int)
    requires CompleteThroughout(bits, me.first, end) && forall p :: Complete(bits, p) ==> Complete(bits', p)
    ensures CompleteThroughout(bits', me.first, end)
  {
  }

  /** Nobody takes the mutex from a reader or gives it to one. */
  lemma MutexSeenBy(s: State, step: Step, r: ReaderId)
    requires Enabled(s, step) && step != Advance(r) && r in s.readers
    requires step.Advance? ==> ReaderInv(s, step.reader)
    ensures Apply(s, step).mutex == Some(r) <==> s.mutex == Some(r)
  {
  }

  lemma SeenReaderInv(s: State, s': State, r: ReaderId)
    requires r in s.readers && ReaderInv(s, r) && Later(s, s')
    requires s'.readers[r] == s.readers[r]
      || (s.readers[r].pc.Sleeping? && s'.readers[r] == s.readers[r].(pc := Sleeping(true)))
    requires s'.mutex == Some(r) <==> s.mutex == Some(r)
    ensures ReaderInv(s', r)
  {
    var me := s.readers[r];
    if me.pc.Scanning? {
      DoneLasts(s.bits, s'.bits, me, me.pc.next);
    } else if CompleteThroughout(s.bits, me.first, me.last + 1) {
      DoneLasts(s.bits, s'.bits, me, me.last + 1);
    }
  }

  lemma OthersKeepReaderInv(s: State, step: Step, r: ReaderId)
    requires Enabled(s, step) && step != Advance(r)
    requires Inv(s) && r in s.readers
    ensures ReaderInv(Apply(s, step), r)
  {
    StepIsLater(s, step);
    StepSeenBy(s, step, r);
    MutexSeenBy(s, step, r);
    SeenReaderInv(s, Apply(s, step), r);
  }

  lemma OwnStepKeepsReaderInv(s: State, r: ReaderId)
    requires Enabled(s, Advance(r)) && Inv(s)
    ensures ReaderInv(Apply(s, Advance(r)), r)
  {
    assert ReaderInv(s, r);
  }

  lemma StepNeverOverReports(s: State, step: Step)
    requires NeverOverReports(s) && Enabled(s, step)
    ensures NeverOverReports(Apply(s, step))
  {
  }

  lemma StepKeepsInv(s: State, step: Step)
    requires Inv(s) && Enabled(s, step)
    ensures Inv(Apply(s, step))
  {
    var s' := Apply(s, step);
    StepNeverOverReports(s, step);
    forall r | r in s'.readers ensures ReaderInv(s', r) {
      if step == Advance(r) {
        OwnStepKeepsReaderInv(s, r);
      } else {
        OthersKeepReaderInv(s, step, r);
      }
    }
  }

  lemma {:induction false} RunKeepsInv(ss: seq<State>, ts: seq<Step>, i: nat)
    requires IsRun(ss, ts) && i < |ss|
    ensures Inv(ss[i])
  {
    if i == 0 {
      InitInv(ss[0]);
    } else {
      assert StepAt(ss, ts, i - 1);
      RunKeepsInv(ss, ts, i - 1);
      StepKeepsInv(ss[i - 1], ts[i - 1]);
    }
  }

  lemma LaterTransitive(a: State, b: State, c: State)
    requires Later(a, b) && Later(b, c)
    ensures Later(a, c)
  {
    forall r | r in a.readers ensures SameCall(a.readers[r], c.readers[r]) {
      assert SameCall(a.readers[r], b.readers[r]) && SameCall(b.readers[r], c.readers[r]);
    }
  }

  lemma {:induction false} RunIsLater(ss: seq<State>, ts: seq<Step>, i: nat, j: nat)
    requires IsRun(ss, ts) && i <= j < |ss|
    ensures Later(ss[i], ss[j])
  {
    if i < j {
      assert StepAt(ss, ts, j - 1);
      RunIsLater(ss, ts, i, j - 1);
      StepIsLater(ss[j - 1], ts[j - 1]);
      LaterTransitive(ss[i], ss[j - 1], ss[j]);
    }
  }
}
