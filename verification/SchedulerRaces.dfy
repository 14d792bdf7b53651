/** The allocator under concurrent marking: set_deadlines loads the bits of its window one at a time, and the alert
    thread may mark pieces between the loads. */
module SchedulerRaces {
  import opened TorrentLayout
  import opened PieceAvailability
  import opened SchedulerModel
  import opened SchedulerRuns

  /** The index as each position of a window is looked at, the first position first. */
  ghost predicate Rising(views: seq<seq<bool>>) {
    forall i, j :: 0 <= i <= j < |views| ==> Grows(views[i], views[j])
  }

  /** The positions the two loops plan as far as position n. */
  function PlanSeen(w: Window, views: seq<seq<bool>>, n: nat): seq<nat>
    requires n <= |views|
  {
    if n == 0 then []
    else
      var plan := PlanSeen(w, views, n - 1);
      if |plan| < w.budget && w.Wanted(views[n - 1], n - 1) then plan + [n - 1] else plan
  }

  /** What was seen of each piece: its bit at the one moment it was looked at. */
  ghost function Seen(w: Window, views: seq<seq<bool>>): seq<bool>
    requires views != [] && Rising(views)
  {
    seq(|views[0]|, p requires 0 <= p < |views[0]| =>
      if 0 <= p - w.playhead < |views| then Complete(views[p - w.playhead], p) else views[0][p])
  }

  /** Positions before i that were found missing. */
  ghost function FoundMissing(w: Window, views: seq<seq<bool>>, i: nat): set<nat>
    requires i <= |views|
  {
    set j: nat | j < i && w.Wanted(views[j], j)
  }

  lemma SeenLiesBetween(w: Window, views: seq<seq<bool>>)
    requires views != [] && Rising(views)
    ensures Grows(views[0], Seen(w, views)) && Grows(Seen(w, views), views[|views| - 1])
  {
    var seen, last := Seen(w, views), |views| - 1;
    assert Grows(views[0], views[last]);
    forall p | 0 <= p < |views[0]|
      ensures (views[0][p] ==> seen[p]) && (seen[p] ==> views[last][p])
    {
      var i := p - w.playhead;
      if 0 <= i <= last {
        assert Grows(views[0], views[i]) && Grows(views[i], views[last]);
        assert seen[p] == Complete(views[i], p);
      } else {
        assert seen[p] == views[0][p];
      }
    }
  }

  lemma WantedAsSeen(w: Window, views: seq<seq<bool>>, i: nat)
    requires views != [] && Rising(views) && i < |views|
    ensures w.Wanted(views[i], i) <==> w.Wanted(Seen(w, views), i)
  {
    assert Grows(views[0], views[i]);
  }

  lemma {:induction false} PlanSeenIsPlanBelow(w: Window, views: seq<seq<bool>>, n: nat)
    requires views != [] && Rising(views) && n <= |views|
    ensures PlanSeen(w, views, n) == PlanBelow(w, Seen(w, views), n)
  {
    if n > 0 {
      PlanSeenIsPlanBelow(w, views, n - 1);
      WantedAsSeen(w, views, n - 1);
    }
  }

  /** Whatever is marked between the loads, the plan is the one of some index between the first and the last view; it
      holds exactly the first `budget` pieces of the window that were missing when looked at. The last view is of the
      moment the loops end. */
  lemma PlanAmidMarks(w: Window, views: seq<seq<bool>>)
    requires Rising(views) && |views| == w.Size() + 1
    ensures var plan, seen := PlanSeen(w, views, w.Size()), Seen(w, views);
      && Grows(views[0], seen) && Grows(seen, views[w.Size()])
      && plan == Plan(w, seen)
      && forall i: nat :: i in plan
           <==> i < w.Size() && w.Wanted(views[i], i) && |FoundMissing(w, views, i)| < w.budget
  {
    var seen := Seen(w, views);
    SeenLiesBetween(w, views);
    PlanSeenIsPlanBelow(w, views, w.Size());
    PlanIsFirstMissing(w, seen);
    forall i: nat | i < w.Size()
      ensures w.Wanted(views[i], i) <==> w.Wanted(seen, i)
      ensures FoundMissing(w, views, i) == WantedBefore(w, seen, i)
    {
      WantedAsSeen(w, views, i);
      forall j: nat | j < i ensures w.Wanted(views[j], j) <==> w.Wanted(seen, j) {
        WantedAsSeen(w, views, j);
      }
    }
  }

  // ----- Range requests among marks

  /** What a range request leaves behind when the index passes through the given views while it looks at its window. */
  ghost function RequestAmid(c: Context, w: World, range: ByteRange, now: int, views: seq<seq<bool>>): World
    requires c.Valid() && |views| == WindowNow(c, Moved(c, w.core, range, now)).Size() + 1
  {
    var core := Moved(c, w.core, range, now);
    var win := WindowNow(c, core);
    var plan := PlanSeen(win, views, win.Size());
    World(core.(activeDeadlines := |plan|), views[win.Size()],
          Place(if IsSeek(c, w.core, range) then map[] else w.deadlines, win, plan))
  }

  /** The marks of the pieces seen complete, the request, the marks of all the rest. */
  ghost function AsIfOneByOne(range: ByteRange, now: int, seen: seq<bool>, last: seq<bool>): seq<Event> {
    MarksOf(seen, |seen|) + [RangeRequest(range, now)] + MarksOf(last, |last|)
  }

  lemma RequestBetweenMarks(c: Context, w: World, range: ByteRange, now: int, seen: seq<bool>, last: seq<bool>)
    requires c.Valid() && ValidEvent(RangeRequest(range, now)) && Grows(w.done, seen) && Grows(seen, last)
    ensures ValidEvents(AsIfOneByOne(range, now, seen, last))
    ensures Run(c, w, AsIfOneByOne(range, now, seen, last))
         == Step(c, w.(done := seen), RangeRequest(range, now)).(done := last)
  {
    var before, request, after := MarksOf(seen, |seen|), [RangeRequest(range, now)], MarksOf(last, |last|);
    MarksLeadTo(c, w, seen);
    RunsCompose(c, w, before, request);
    assert request[..0] == [];
    var w' := Step(c, w.(done := seen), RangeRequest(range, now));
    assert Run(c, w, before + request) == w';
    MarksLeadTo(c, w', last);
    RunsCompose(c, w, before + request, after);
  }

  /** A range request that races with marks leaves exactly what it would if the same pieces were marked one by one, some
      before it and some after it and none meanwhile. So what holds of every run holds of runs with such races: a tick
      and a completion notice cannot race with a mark, as both handlers hold the engine's lock. */
  lemma RequestAmidMarksIsARun(c: Context, w: World, range: ByteRange, now: int, views: seq<seq<bool>>)
    requires c.Valid() && ValidEvent(RangeRequest(range, now))
    requires Rising(views) && |views| == WindowNow(c, Moved(c, w.core, range, now)).Size() + 1 && views[0] == w.done
    ensures var win := WindowNow(c, Moved(c, w.core, range, now));
            var evs := AsIfOneByOne(range, now, Seen(win, views), views[|views| - 1]);
      ValidEvents(evs) && Run(c, w, evs) == RequestAmid(c, w, range, now, views)
  {
    var win := WindowNow(c, Moved(c, w.core, range, now));
    PlanAmidMarks(win, views);
    RequestBetweenMarks(c, w, range, now, Seen(win, views), views[|views| - 1]);
  }
}
