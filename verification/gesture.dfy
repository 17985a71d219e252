/** The per-card swipe tracker both front ends attach to every deck card:
    three variables (drag origin, displacement, dragging flag) driven by
    pointer events, and the release rule that turns the displacement into a
    favorite, a discard or a reset. The two front ends differ only in the
    threshold they pass to `Classify`. */
module Gesture {
  import opened Util

  /** The closure state of one card's listeners. */
  datatype Tracker = Tracker(startX: int, currentX: int, dragging: bool)

  /** The state right after the listeners are attached. */
  const Attached := Tracker(0, 0, false)

  /** The pointer events a card listens to; positions are `clientX`. */
  datatype PointerEvent = Down(clientX: int) | Move(clientX: int) | Up | Cancel

  /** What a release does with the card. */
  datatype Outcome = Favorite | Discard | Reset

  /** One handled event: the new tracker and, for a pointer-up, the outcome
      handed to the release handler. */
  datatype Step = Step(tracker: Tracker, release: Option<Outcome>)

  /** A run of events: the final tracker and the outcomes in order. */
  datatype Trace = Trace(tracker: Tracker, releases: seq<Outcome>)

  /** The release rule: strictly beyond the threshold to the right is a
      favorite, strictly beyond it to the left is a discard, and everything
      in between, both ends included, springs the card back. */
  function Classify(threshold: nat, dx: int): (o: Outcome)
    ensures o == Favorite <==> dx > threshold
    ensures o == Discard <==> dx < -(threshold as int)
    ensures o == Reset <==> -(threshold as int) <= dx <= threshold
  {
    if dx > threshold then Favorite
    else if dx < -(threshold as int) then Discard
    else Reset
  }

  /** A larger threshold never commits a swipe the smaller one would have
      committed differently: it only turns commits into resets. */
  lemma LargerThresholdOnlyResets(small: nat, large: nat, dx: int)
    requires small <= large
    ensures Classify(large, dx) == Reset || Classify(large, dx) == Classify(small, dx)
    ensures Classify(small, dx) == Reset ==> Classify(large, dx) == Reset
  {
  }

  /** One event. A press records the origin and starts dragging but keeps
      the previous displacement; a move updates the displacement only while
      dragging; a release stops dragging and classifies the displacement
      last recorded; a cancel stops dragging and classifies nothing. */
  function Handle(threshold: nat, t: Tracker, e: PointerEvent): (s: Step)
    ensures s.release.Some? <==> e.Up?
    ensures e.Up? ==> s.release.value == Classify(threshold, t.currentX)
    ensures s.tracker.dragging <==> e.Down? || (e.Move? && t.dragging)
    ensures s.tracker.currentX != t.currentX ==> e.Move? && t.dragging
    ensures e.Move? && t.dragging ==> s.tracker.startX + s.tracker.currentX == e.clientX
    ensures e.Down? ==> s.tracker.startX == e.clientX
    ensures s.tracker.startX != t.startX ==> e.Down?
  {
    match e
    case Down(x) => Step(Tracker(x, t.currentX, true), None)
    case Move(x) =>
      if t.dragging then Step(t.(currentX := x - t.startX), None) else Step(t, None)
    case Up => Step(t.(dragging := false), Some(Classify(threshold, t.currentX)))
    case Cancel => Step(t.(dragging := false), None)
  }

  /** Feeds a sequence of events to one card's listeners. At most one
      outcome per event; the last event decides whether a drag is still
      going on, and a final press fixes the origin. */
  function Run(threshold: nat, t: Tracker, events: seq<PointerEvent>): (r: Trace)
    ensures |r.releases| <= |events|
    ensures |events| == 0 ==> r.tracker == t
    ensures |events| > 0 && (events[|events| - 1].Up? || events[|events| - 1].Cancel?) ==> !r.tracker.dragging
    ensures |events| > 0 && events[|events| - 1].Down? ==>
      r.tracker.dragging && r.tracker.startX == events[|events| - 1].clientX
    decreases |events|
  {
    if |events| == 0 then Trace(t, [])
    else
      var s := Handle(threshold, t, events[0]);
      var rest := Run(threshold, s.tracker, events[1..]);
      Trace(rest.tracker, (if s.release.Some? then [s.release.value] else []) + rest.releases)
  }

  /** The number of pointer-up events in a sequence. */
  function CountUps(events: seq<PointerEvent>): nat
    decreases |events|
  {
    if |events| == 0 then 0
    else (if events[0].Up? then 1 else 0) + CountUps(events[1..])
  }

  /** Exactly one outcome is emitted per pointer-up, and none otherwise. */
  lemma {:induction false} OneOutcomePerUp(threshold: nat, t: Tracker, events: seq<PointerEvent>)
    ensures |Run(threshold, t, events).releases| == CountUps(events)
    decreases |events|
  {
    if |events| > 0 {
      OneOutcomePerUp(threshold, Handle(threshold, t, events[0]).tracker, events[1..]);
    }
  }

  /** Running two event sequences one after the other is running their
      concatenation. */
  lemma {:induction false} RunConcat(threshold: nat, t: Tracker, a: seq<PointerEvent>, b: seq<PointerEvent>)
    ensures Run(threshold, t, a + b).tracker == Run(threshold, Run(threshold, t, a).tracker, b).tracker
    ensures Run(threshold, t, a + b).releases
         == Run(threshold, t, a).releases + Run(threshold, Run(threshold, t, a).tracker, b).releases
    decreases |a|
  {
    if |a| == 0 {
      assert a + b == b;
    } else {
      assert (a + b)[0] == a[0];
      assert (a + b)[1..] == a[1..] + b;
      RunConcat(threshold, Handle(threshold, t, a[0]).tracker, a[1..], b);
    }
  }

  /** A pointer-cancel ends the drag and adds no outcome, whatever the
      displacement: it can never favorite or discard a card. */
  lemma CancelCommitsNothing(threshold: nat, t: Tracker, events: seq<PointerEvent>)
    ensures Run(threshold, t, events + [Cancel]).releases == Run(threshold, t, events).releases
    ensures !Run(threshold, t, events + [Cancel]).tracker.dragging
    ensures Run(threshold, t, events + [Cancel]).tracker.currentX == Run(threshold, t, events).tracker.currentX
  {
    RunConcat(threshold, t, events, [Cancel]);
  }

  /** Unfolds `Run` by one event. */
  lemma RunCons(threshold: nat, t: Tracker, e: PointerEvent, rest: seq<PointerEvent>)
    ensures Run(threshold, t, [e] + rest).tracker == Run(threshold, Handle(threshold, t, e).tracker, rest).tracker
    ensures Run(threshold, t, [e] + rest).releases
         == (if e.Up? then [Classify(threshold, t.currentX)] else [])
            + Run(threshold, Handle(threshold, t, e).tracker, rest).releases
  {
    assert ([e] + rest)[0] == e;
    assert ([e] + rest)[1..] == rest;
  }

  /** A drag from `x0` to `x1` released there is classified by `x1 - x0`. */
  lemma DragAndRelease(threshold: nat, t: Tracker, x0: int, x1: int)
    ensures Run(threshold, t, [Down(x0), Move(x1), Up]).releases == [Classify(threshold, x1 - x0)]
  {
    var t1 := Handle(threshold, t, Down(x0)).tracker;
    var t2 := Handle(threshold, t1, Move(x1)).tracker;
    RunCons(threshold, t2, Up, []);
    RunCons(threshold, t1, Move(x1), [Up]);
    RunCons(threshold, t, Down(x0), [Move(x1), Up]);
    assert [Down(x0), Move(x1), Up] == [Down(x0)] + [Move(x1), Up];
    assert [Move(x1), Up] == [Move(x1)] + [Up];
    assert [Up] == [Up] + [];
  }

  /** A press released without any move reuses the displacement left over
      from the previous gesture on the same card. */
  lemma TapReusesDisplacement(threshold: nat, t: Tracker, x: int)
    ensures Run(threshold, t, [Down(x), Up]).releases == [Classify(threshold, t.currentX)]
  {
    var t1 := Handle(threshold, t, Down(x)).tracker;
    RunCons(threshold, t1, Up, []);
    RunCons(threshold, t, Down(x), [Up]);
    assert [Down(x), Up] == [Down(x)] + [Up];
    assert [Up] == [Up] + [];
  }

  /** Consequently a drag far to the right that the browser cancels, followed
      by a plain tap on the same card, favorites the card. */
  lemma CancelledDragLeaksIntoTap(threshold: nat, x0: int, x2: int)
    ensures Run(threshold, Attached, [Down(x0), Move(x0 + threshold + 1), Cancel, Down(x2), Up]).releases
         == [Favorite]
  {
    var drag := [Down(x0), Move(x0 + threshold + 1), Cancel];
    var tap := [Down(x2), Up];
    assert drag + tap == [Down(x0), Move(x0 + threshold + 1), Cancel, Down(x2), Up];
    RunConcat(threshold, Attached, drag, tap);
    var t1 := Handle(threshold, Attached, Down(x0)).tracker;
    var t2 := Handle(threshold, t1, Move(x0 + threshold + 1)).tracker;
    var t3 := Handle(threshold, t2, Cancel).tracker;
    RunCons(threshold, t2, Cancel, []);
    RunCons(threshold, t1, Move(x0 + threshold + 1), [Cancel]);
    RunCons(threshold, Attached, Down(x0), [Move(x0 + threshold + 1), Cancel]);
    assert drag == [Down(x0)] + [Move(x0 + threshold + 1), Cancel];
    assert [Move(x0 + threshold + 1), Cancel] == [Move(x0 + threshold + 1)] + [Cancel];
    assert [Cancel] == [Cancel] + [];
    assert Run(threshold, Attached, drag).tracker == t3;
    assert Run(threshold, Attached, drag).releases == [];
    assert t3.currentX == threshold + 1;
    TapReusesDisplacement(threshold, t3, x2);
  }
}
