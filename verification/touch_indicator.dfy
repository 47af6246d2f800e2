/** `TouchIndicatorGestureRecognizer`: shows an indicator under every active
    touch, moves it with the touch, and hides it when the touch ends. The
    bookkeeping is the map `activeTouches` from touch to indicator; a
    removal runs in the completion of an animation, modelled here as a
    separate event. */
module TouchIndicator {
  import opened Geometry
  import opened Gestures

  type TouchId = nat

  /** A touch of the current event and its location in the recognizer's
      view. */
  datatype Touch = Touch(id: TouchId, location: Point)

  /** An indicator view; only its centre is bookkept. */
  datatype Indicator = Indicator(center: Point)

  /** `pendingRemovals` holds the touches whose hide animation has started
      and whose completion has not yet run. `hasView` says whether the
      recognizer is attached to a view. */
  datatype Recognizer = Recognizer(
    state: GestureState,
    activeTouches: map<TouchId, Indicator>,
    pendingRemovals: multiset<TouchId>,
    hasView: bool,
    cancelsTouchesInView: bool)

  /** The entries for touches other than `t` are the same in both maps. */
  ghost predicate SameExcept(m: map<TouchId, Indicator>, m': map<TouchId, Indicator>, t: TouchId) {
    forall u :: u != t ==> (u in m <==> u in m') && (u in m ==> m[u] == m'[u])
  }

  /** `init(target:action:)`: no touches, and touches in the view are
      never cancelled. */
  function Init(hasView: bool): (r: Recognizer)
    ensures r.state == Possible && |r.activeTouches| == 0 && |r.pendingRemovals| == 0
    ensures r.hasView == hasView && !r.cancelsTouchesInView
  {
    Recognizer(Possible, map[], multiset{}, hasView, false)
  }

  // ---------------------------------------------------------------------------
  // One touch
  // ---------------------------------------------------------------------------

  /** `createIndicatorView`: the state becomes began in every case; the new
      indicator, centred at the touch, is stored under the touch only when
      the recognizer has a view. */
  function CreateIndicator(r: Recognizer, t: Touch): (r': Recognizer)
    ensures r'.state == Began
    ensures r.hasView ==> t.id in r'.activeTouches && r'.activeTouches[t.id] == Indicator(t.location)
    ensures !r.hasView ==> r'.activeTouches == r.activeTouches
    ensures SameExcept(r.activeTouches, r'.activeTouches, t.id)
    ensures r' == r.(state := r'.state, activeTouches := r'.activeTouches)
  {
    var active := if r.hasView then r.activeTouches[t.id := Indicator(t.location)] else r.activeTouches;
    r.(state := Began, activeTouches := active)
  }

  /** `moveIndicatorView`: a tracked touch's indicator follows it and the
      state becomes changed; an untracked touch changes nothing. */
  function MoveIndicator(r: Recognizer, t: Touch): (r': Recognizer)
    ensures t.id !in r.activeTouches ==> r' == r
    ensures t.id in r.activeTouches ==>
              && r'.state == Changed
              && r'.activeTouches.Keys == r.activeTouches.Keys
              && r'.activeTouches[t.id].center == t.location
    ensures SameExcept(r.activeTouches, r'.activeTouches, t.id)
    ensures r' == r.(state := r'.state, activeTouches := r'.activeTouches)
  {
    if t.id in r.activeTouches then
      var indicator := r.activeTouches[t.id].(center := t.location);
      r.(state := Changed, activeTouches := r.activeTouches[t.id := indicator])
    else r
  }

  /** `removeIndicatorView`: for a tracked touch the hide animation starts
      and its completion is now pending; the map is not touched yet. An
      untracked touch changes nothing. */
  function RemoveIndicator(r: Recognizer, t: TouchId): (r': Recognizer)
    ensures t !in r.activeTouches ==> r' == r
    ensures t in r.activeTouches ==> r'.pendingRemovals == r.pendingRemovals + multiset{t}
    ensures r' == r.(pendingRemovals := r'.pendingRemovals)
  {
    if t in r.activeTouches then r.(pendingRemovals := r.pendingRemovals + multiset{t}) else r
  }

  /** The completion of a hide animation for `t`: exactly that touch's
      entry leaves the map, and the state becomes ended when the map is then
      empty. */
  function CompleteRemoval(r: Recognizer, t: TouchId): (r': Recognizer)
    requires t in r.pendingRemovals
    ensures t !in r'.activeTouches && SameExcept(r.activeTouches, r'.activeTouches, t)
    ensures |r'.activeTouches| == if t in r.activeTouches then |r.activeTouches| - 1 else |r.activeTouches|
    ensures r'.state == if |r'.activeTouches| == 0 then Ended else r.state
    ensures r'.pendingRemovals == r.pendingRemovals - multiset{t}
    ensures r'.hasView == r.hasView && r'.cancelsTouchesInView == r.cancelsTouchesInView
  {
    var active := r.activeTouches - {t};
    var state := if |active| == 0 then Ended else r.state;
    r.(state := state, activeTouches := active, pendingRemovals := r.pendingRemovals - multiset{t})
  }

  // ---------------------------------------------------------------------------
  // The touch callbacks: each handles a set of touches one by one
  // ---------------------------------------------------------------------------

  /** The touches of one callback are distinct (a `Set<UITouch>`). */
  predicate DistinctIds(touches: seq<Touch>) {
    forall i, j :: 0 <= i < j < |touches| ==> touches[i].id != touches[j].id
  }

  predicate Mentions(touches: seq<Touch>, u: TouchId) {
    exists i :: 0 <= i < |touches| && touches[i].id == u
  }

  /** Some touch of `touches` is tracked. */
  predicate SomeTracked(active: map<TouchId, Indicator>, touches: seq<Touch>) {
    exists i :: 0 <= i < |touches| && touches[i].id in active
  }

  lemma MentionsTail(touches: seq<Touch>, u: TouchId)
    requires |touches| > 0
    ensures Mentions(touches, u) <==> touches[0].id == u || Mentions(touches[1..], u)
  {
    if Mentions(touches, u) && touches[0].id != u {
      var i :| 0 <= i < |touches| && touches[i].id == u;
      assert touches[1..][i - 1].id == u;
    }
    if Mentions(touches[1..], u) {
      var i :| 0 <= i < |touches[1..]| && touches[1..][i].id == u;
      assert touches[i + 1].id == u;
    }
  }

  lemma DistinctTail(touches: seq<Touch>)
    requires |touches| > 0
    ensures DistinctIds(touches) ==> DistinctIds(touches[1..]) && !Mentions(touches[1..], touches[0].id)
  {
    assert forall i :: 0 <= i < |touches[1..]| ==> touches[1..][i] == touches[i + 1];
  }

  lemma SomeTrackedTail(active: map<TouchId, Indicator>, active': map<TouchId, Indicator>, touches: seq<Touch>)
    requires |touches| > 0 && active'.Keys == active.Keys
    ensures SomeTracked(active, touches) <==> touches[0].id in active || SomeTracked(active', touches[1..])
  {
    if SomeTracked(active, touches) && touches[0].id !in active {
      var i :| 0 <= i < |touches| && touches[i].id in active;
      assert touches[1..][i - 1].id in active';
    }
    if SomeTracked(active', touches[1..]) {
      var i :| 0 <= i < |touches[1..]| && touches[1..][i].id in active';
      assert touches[i + 1].id in active;
    }
  }

  /** `touchesBegan`: one indicator per touch, each stored under its touch
      at its location when there is a view; entries of other touches are
      unchanged, and the state becomes began if any touch began. */
  function TouchesBegan(r: Recognizer, touches: seq<Touch>): (r': Recognizer)
    decreases |touches|
    ensures r'.state == if |touches| == 0 then r.state else Began
    ensures !r.hasView ==> r'.activeTouches == r.activeTouches
    ensures r.hasView && DistinctIds(touches) ==>
              forall i :: 0 <= i < |touches| ==>
                touches[i].id in r'.activeTouches && r'.activeTouches[touches[i].id] == Indicator(touches[i].location)
    ensures forall u :: !Mentions(touches, u) ==>
              (u in r'.activeTouches <==> u in r.activeTouches) &&
              (u in r.activeTouches ==> r'.activeTouches[u] == r.activeTouches[u])
    ensures r' == r.(state := r'.state, activeTouches := r'.activeTouches)
  {
    if |touches| == 0 then r
    else
      var r1 := CreateIndicator(r, touches[0]);
      var r' := TouchesBegan(r1, touches[1..]);
      DistinctTail(touches);
      assert forall u :: Mentions(touches, u) <==> touches[0].id == u || Mentions(touches[1..], u) by {
        forall u ensures Mentions(touches, u) <==> touches[0].id == u || Mentions(touches[1..], u) {
          MentionsTail(touches, u);
        }
      }
      assert forall i :: 1 <= i < |touches| ==> touches[i] == touches[1..][i - 1];
      r'
  }

  /** `touchesMoved`: every tracked touch's indicator follows it, the set of
      tracked touches is unchanged, other entries are unchanged, and the
      state becomes changed exactly when some moved touch was tracked. */
  function TouchesMoved(r: Recognizer, touches: seq<Touch>): (r': Recognizer)
    decreases |touches|
    ensures r'.activeTouches.Keys == r.activeTouches.Keys
    ensures DistinctIds(touches) ==>
              forall i :: 0 <= i < |touches| && touches[i].id in r.activeTouches ==>
                r'.activeTouches[touches[i].id].center == touches[i].location
    ensures forall u :: !Mentions(touches, u) && u in r.activeTouches ==> r'.activeTouches[u] == r.activeTouches[u]
    ensures r'.state == if SomeTracked(r.activeTouches, touches) then Changed else r.state
    ensures r' == r.(state := r'.state, activeTouches := r'.activeTouches)
  {
    if |touches| == 0 then r
    else
      var r1 := MoveIndicator(r, touches[0]);
      var r' := TouchesMoved(r1, touches[1..]);
      DistinctTail(touches);
      SomeTrackedTail(r.activeTouches, r1.activeTouches, touches);
      assert forall u :: Mentions(touches, u) <==> touches[0].id == u || Mentions(touches[1..], u) by {
        forall u ensures Mentions(touches, u) <==> touches[0].id == u || Mentions(touches[1..], u) {
          MentionsTail(touches, u);
        }
      }
      assert forall i :: 1 <= i < |touches| ==> touches[i] == touches[1..][i - 1];
      r'
  }

  /** The touches of `touches` that are tracked, with multiplicity. */
  function TrackedAmong(active: map<TouchId, Indicator>, touches: seq<Touch>): (m: multiset<TouchId>)
    decreases |touches|
    ensures forall u :: u !in active || !Mentions(touches, u) ==> m[u] == 0
    ensures DistinctIds(touches) ==>
              forall u :: m[u] == if u in active && Mentions(touches, u) then 1 else 0
  {
    if |touches| == 0 then multiset{}
    else
      var rest := TrackedAmong(active, touches[1..]);
      DistinctTail(touches);
      assert forall u :: Mentions(touches, u) <==> touches[0].id == u || Mentions(touches[1..], u) by {
        forall u ensures Mentions(touches, u) <==> touches[0].id == u || Mentions(touches[1..], u) {
          MentionsTail(touches, u);
        }
      }
      (if touches[0].id in active then multiset{touches[0].id} else multiset{}) + rest
  }

  /** `touchesEnded` and `touchesCancelled`: the hide animation starts for
      every tracked touch among them; the map and the state are not touched
      until the completions run, and untracked touches are ignored. */
  function TouchesEnded(r: Recognizer, touches: seq<Touch>): (r': Recognizer)
    ensures r'.pendingRemovals == r.pendingRemovals + TrackedAmong(r.activeTouches, touches)
    ensures r' == r.(pendingRemovals := r'.pendingRemovals)
    decreases |touches|
  {
    if |touches| == 0 then r
    else
      var r1 := RemoveIndicator(r, touches[0].id);
      TouchesEnded(r1, touches[1..])
  }

  function TouchesCancelled(r: Recognizer, touches: seq<Touch>): (r': Recognizer)
    ensures r'.pendingRemovals == r.pendingRemovals + TrackedAmong(r.activeTouches, touches)
    ensures r' == r.(pendingRemovals := r'.pendingRemovals)
  {
    TouchesEnded(r, touches)
  }

  /** The reset UIKit performs once the recognizer has ended: the state
      returns to possible. The class does not override `reset`, so the map
      and pending removals are kept. */
  function Reset(r: Recognizer): (r': Recognizer)
    ensures r'.state == Possible && r' == r.(state := Possible)
  {
    r.(state := Possible)
  }

  // ---------------------------------------------------------------------------
  // Runs of events
  // ---------------------------------------------------------------------------

  /** What can happen to the recognizer: a touch callback, the completion
      of a pending hide animation, or UIKit's reset. */
  datatype Event =
    | TouchesBeganEvent(touches: seq<Touch>)
    | TouchesMovedEvent(touches: seq<Touch>)
    | TouchesEndedEvent(touches: seq<Touch>)
    | TouchesCancelledEvent(touches: seq<Touch>)
    | RemovalCompleted(touch: TouchId)
    | SystemReset

  /** One event. Only a pending hide animation can complete, so a
      completion for any other touch does nothing. */
  function Step(r: Recognizer, e: Event): (r': Recognizer)
    ensures r'.hasView == r.hasView && r'.cancelsTouchesInView == r.cancelsTouchesInView
  {
    match e
    case TouchesBeganEvent(touches) => TouchesBegan(r, touches)
    case TouchesMovedEvent(touches) => TouchesMoved(r, touches)
    case TouchesEndedEvent(touches) => TouchesEnded(r, touches)
    case TouchesCancelledEvent(touches) => TouchesCancelled(r, touches)
    case RemovalCompleted(t) => if t in r.pendingRemovals then CompleteRemoval(r, t) else r
    case SystemReset => Reset(r)
  }

  function Run(r: Recognizer, events: seq<Event>): (r': Recognizer)
    decreases |events|
  {
    if |events| == 0 then r else Run(Step(r, events[0]), events[1..])
  }

  /** The recognizer is never in the ended state while it still tracks a
      touch. */
  predicate NotEndedWhileTracking(r: Recognizer) {
    r.state == Ended ==> |r.activeTouches| == 0
  }

  lemma StepKeepsInvariant(r: Recognizer, e: Event)
    requires NotEndedWhileTracking(r)
    ensures NotEndedWhileTracking(Step(r, e))
  {
    match e
    case TouchesMovedEvent(touches) =>
      var r' := TouchesMoved(r, touches);
      assert |r'.activeTouches.Keys| == |r.activeTouches.Keys|;
    case RemovalCompleted(t) =>
    case _ =>
  }

  /** From a fresh recognizer, any run of events keeps it out of the ended
      state while touches are tracked; `cancelsTouchesInView` stays false
      throughout. */
  lemma {:induction false} RunKeepsInvariant(r: Recognizer, events: seq<Event>)
    requires NotEndedWhileTracking(r)
    ensures NotEndedWhileTracking(Run(r, events))
    ensures Run(r, events).cancelsTouchesInView == r.cancelsTouchesInView
    decreases |events|
  {
    if |events| > 0 {
      StepKeepsInvariant(r, events[0]);
      RunKeepsInvariant(Step(r, events[0]), events[1..]);
    }
  }

  /** When the invariant holds, a completed removal leaves the recognizer
      ended if and only if no touch is tracked any more. */
  lemma EndsExactlyWhenEmpty(r: Recognizer, t: TouchId)
    requires NotEndedWhileTracking(r) && t in r.pendingRemovals
    ensures CompleteRemoval(r, t).state == Ended <==> |CompleteRemoval(r, t).activeTouches| == 0
  {
  }

  /** A touch that begins and lifts again is tracked, began and pending. */
  lemma BeginThenLift(r: Recognizer, t: Touch)
    requires r.hasView
    ensures TouchesEnded(TouchesBegan(r, [t]), [t])
            == r.(state := Began, activeTouches := r.activeTouches[t.id := Indicator(t.location)],
                  pendingRemovals := r.pendingRemovals + multiset{t.id})
  {
    var c := CreateIndicator(r, t);
    assert TouchesBegan(r, [t]) == TouchesBegan(c, []) by { assert [t][1..] == []; }
    assert TouchesEnded(c, [t]) == TouchesEnded(RemoveIndicator(c, t.id), []) by { assert [t][1..] == []; }
  }

  /** A touch that begins and lifts again leaves no trace once its hide
      animation completes: the map and the pending removals are as before,
      and the recognizer has ended if it tracks nothing else. */
  lemma LiftUndoesTouch(r: Recognizer, t: Touch)
    requires r.hasView && t.id !in r.activeTouches
    ensures var r1 := TouchesEnded(TouchesBegan(r, [t]), [t]);
            && t.id in r1.pendingRemovals
            && CompleteRemoval(r1, t.id).activeTouches == r.activeTouches
            && CompleteRemoval(r1, t.id).pendingRemovals == r.pendingRemovals
            && CompleteRemoval(r1, t.id).state == if |r.activeTouches| == 0 then Ended else Began
  {
    BeginThenLift(r, t);
    var m := r.activeTouches[t.id := Indicator(t.location)];
    assert m - {t.id} == r.activeTouches;
    assert r.pendingRemovals + multiset{t.id} - multiset{t.id} == r.pendingRemovals;
  }

  /** Moving the same touches to the same places twice is moving them once. */
  lemma {:induction false} MoveIdempotent(r: Recognizer, touches: seq<Touch>)
    requires DistinctIds(touches)
    ensures TouchesMoved(TouchesMoved(r, touches), touches) == TouchesMoved(r, touches)
  {
    var r1 := TouchesMoved(r, touches);
    var r2 := TouchesMoved(r1, touches);
    assert r2.activeTouches == r1.activeTouches by {
      forall u | u in r1.activeTouches ensures r2.activeTouches[u] == r1.activeTouches[u] {
        if Mentions(touches, u) {
          var i :| 0 <= i < |touches| && touches[i].id == u;
          assert r1.activeTouches[u] == r.activeTouches[u].(center := touches[i].location);
        }
      }
    }
  }

  lemma BeginTwo(r: Recognizer, t1: Touch, t2: Touch)
    requires r.hasView && t1.id != t2.id
    ensures TouchesBegan(r, [t1, t2])
            == r.(state := GestureState.Began,
                  activeTouches := r.activeTouches[t1.id := Indicator(t1.location)][t2.id := Indicator(t2.location)])
  {
    var c1 := CreateIndicator(r, t1);
    var c2 := CreateIndicator(c1, t2);
    assert TouchesBegan(r, [t1, t2]) == TouchesBegan(c1, [t2]) by { assert [t1, t2][1..] == [t2]; }
    assert TouchesBegan(c1, [t2]) == TouchesBegan(c2, []) by { assert [t2][1..] == []; }
  }

  lemma RunTwo(r: Recognizer, e1: Event, e2: Event)
    ensures Run(r, [e1, e2]) == Step(Step(r, e1), e2)
  {
    assert [e1, e2][1..] == [e2] && [e2][1..] == [];
    calc {
      Run(r, [e1, e2]);
      Run(Step(r, e1), [e2]);
      Run(Step(Step(r, e1), e2), []);
    }
  }

  lemma EndOne(r: Recognizer, t: Touch)
    ensures TouchesEnded(r, [t]) == RemoveIndicator(r, t.id)
  {
    assert [t][1..] == [];
  }

  /** Two fingers down, the first lifted: both are still tracked, and the
      first one's removal is pending. */
  lemma TwoFingersFirstLift(a: Point, b: Point)
    ensures Run(Init(true), [TouchesBeganEvent([Touch(1, a), Touch(2, b)]), TouchesEndedEvent([Touch(1, a)])])
            == Init(true).(state := GestureState.Began,
                           activeTouches := map[1 := Indicator(a), 2 := Indicator(b)],
                           pendingRemovals := multiset{1})
  {
    var r0 := Init(true);
    var t1, t2 := Touch(1, a), Touch(2, b);
    BeginTwo(r0, t1, t2);
    RunTwo(r0, TouchesBeganEvent([t1, t2]), TouchesEndedEvent([t1]));
    EndOne(TouchesBegan(r0, [t1, t2]), t1);
  }

  /** One finger left, lifted: once its hide animation completes the
      recognizer has ended and tracks nothing. */
  lemma LastFingerLift(r: Recognizer, t: Touch)
    requires r.activeTouches == map[t.id := Indicator(t.location)]
    ensures var r' := Run(r, [TouchesEndedEvent([t]), RemovalCompleted(t.id)]);
            r'.state == Ended && |r'.activeTouches| == 0
  {
    RunTwo(r, TouchesEndedEvent([t]), RemovalCompleted(t.id));
    EndOne(r, t);
    assert r.activeTouches - {t.id} == map[];
  }

  /** Two fingers: lifting the first one hides its indicator without
      ending the recognizer; lifting the second ends it. */
  lemma TwoFingers(a: Point, b: Point)
    ensures var r0 := Init(true);
            var r1 := Run(r0, [TouchesBeganEvent([Touch(1, a), Touch(2, b)]), TouchesEndedEvent([Touch(1, a)])]);
            var r2 := Step(r1, RemovalCompleted(1));
            var r3 := Run(r2, [TouchesEndedEvent([Touch(2, b)]), RemovalCompleted(2)]);
            && r1.activeTouches.Keys == {1, 2} && r1.pendingRemovals == multiset{1}
            && r2.state == GestureState.Began && r2.activeTouches == map[2 := Indicator(b)]
            && r3.state == Ended && |r3.activeTouches| == 0
  {
    TwoFingersFirstLift(a, b);
    var m := map[1 := Indicator(a), 2 := Indicator(b)];
    assert m - {1} == map[2 := Indicator(b)];
    LastFingerLift(CompleteRemoval(Init(true).(state := GestureState.Began, activeTouches := m,
                                               pendingRemovals := multiset{1}), 1), Touch(2, b));
  }
}
