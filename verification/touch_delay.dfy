/** `TouchDelayGestureRecognizer`: a recognizer that never recognises.
    It holds back the touches of its view (`delaysTouchesBegan`) and fails
    as soon as a touch ends or is cancelled, or 0.15 s after a touch began
    when a one-shot timer fires. Timers are named by numbers; `live` holds
    the timers that are scheduled and neither fired nor invalidated, so
    firing is an event that only a live timer can produce. */
module TouchDelay {
  import opened Options
  import opened Gestures

  /** The interval of the timer armed on touch began, in seconds. */
  const FailDelay: real := 0.15

  /** A scheduled `NSTimer` that calls `fail`. */
  datatype Timer = Timer(id: nat, interval: real, repeats: bool)

  /** `timer` is the stored property; `nextTimer` is the name the next
      scheduled timer gets. */
  datatype DelayRecognizer = DelayRecognizer(
    state: GestureState,
    timer: Option<Timer>,
    live: set<nat>,
    nextTimer: nat,
    delaysTouchesBegan: bool)

  /** Every timer ever scheduled has a name below `nextTimer`. */
  predicate WellNamed(r: DelayRecognizer) {
    && (forall id | id in r.live :: id < r.nextTimer)
    && (r.timer.Some? ==> r.timer.value.id < r.nextTimer)
  }

  /** `init(target:action:)`: touches are delayed, and no timer exists. */
  function Init(): (r: DelayRecognizer)
    ensures r.state == Possible && r.delaysTouchesBegan
    ensures r.timer == None && r.live == {}
    ensures WellNamed(r)
  {
    DelayRecognizer(Possible, None, {}, 0, true)
  }

  // ---------------------------------------------------------------------------
  // The class as written
  // ---------------------------------------------------------------------------

  /** `touchesBegan`: a fresh non-repeating timer of 0.15 s is scheduled and
      stored. The state is untouched, and a timer stored before is simply
      overwritten: it stays scheduled. */
  function TouchesBegan(r: DelayRecognizer): (r': DelayRecognizer)
    requires WellNamed(r)
    ensures r'.state == r.state && r'.delaysTouchesBegan == r.delaysTouchesBegan
    ensures r'.timer.Some? && r'.timer.value.interval == FailDelay && !r'.timer.value.repeats
    ensures r'.timer.value.id !in r.live && r'.live == r.live + {r'.timer.value.id}
    ensures WellNamed(r')
  {
    var t := Timer(r.nextTimer, FailDelay, false);
    r.(timer := Some(t), live := r.live + {t.id}, nextTimer := r.nextTimer + 1)
  }

  /** `fail`: the state becomes failed; nothing else changes. */
  function Fail(r: DelayRecognizer): (r': DelayRecognizer)
    ensures r'.state == Failed
    ensures r' == r.(state := r'.state)
  {
    r.(state := Failed)
  }

  /** `touchesEnded`: fails at once, without waiting for the timer. */
  function TouchesEnded(r: DelayRecognizer): (r': DelayRecognizer)
    ensures r'.state == Failed && r'.timer == r.timer && r'.live == r.live
  {
    Fail(r)
  }

  /** `touchesCancelled`: fails at once as well. */
  function TouchesCancelled(r: DelayRecognizer): (r': DelayRecognizer)
    ensures r'.state == Failed && r'.timer == r.timer && r'.live == r.live
  {
    Fail(r)
  }

  /** A live one-shot timer fires: it calls `fail` and is no longer
      scheduled. A timer that is not live cannot fire. */
  function TimerFires(r: DelayRecognizer, id: nat): (r': DelayRecognizer)
    ensures id in r.live ==> r'.state == Failed && r'.live == r.live - {id}
    ensures id !in r.live ==> r' == r
    ensures r'.timer == r.timer
  {
    if id in r.live then Fail(r).(live := r.live - {id}) else r
  }

  /** UIKit's reset cycle: the state goes back to possible and the override
      `reset` invalidates the stored timer, if any, and clears the
      property. */
  function Reset(r: DelayRecognizer): (r': DelayRecognizer)
    ensures r'.state == Possible && r'.timer == None
    ensures r.timer.None? ==> r'.live == r.live
    ensures r.timer.Some? ==> r'.live == r.live - {r.timer.value.id}
    ensures r'.delaysTouchesBegan == r.delaysTouchesBegan && r'.nextTimer == r.nextTimer
  {
    var live := if r.timer.Some? then r.live - {r.timer.value.id} else r.live;
    r.(state := Possible, timer := None, live := live)
  }

  /** What can happen to the recognizer. */
  datatype Event =
    | TouchesBeganEvent
    | TouchesEndedEvent
    | TouchesCancelledEvent
    | TimerFired(id: nat)
    | SystemReset

  function Step(r: DelayRecognizer, e: Event): (r': DelayRecognizer)
    requires WellNamed(r)
    ensures WellNamed(r')
    ensures r'.delaysTouchesBegan == r.delaysTouchesBegan
  {
    match e
    case TouchesBeganEvent => TouchesBegan(r)
    case TouchesEndedEvent => TouchesEnded(r)
    case TouchesCancelledEvent => TouchesCancelled(r)
    case TimerFired(id) => TimerFires(r, id)
    case SystemReset => Reset(r)
  }

  function Run(r: DelayRecognizer, events: seq<Event>): (r': DelayRecognizer)
    requires WellNamed(r)
    ensures WellNamed(r')
    decreases |events|
  {
    if |events| == 0 then r else Run(Step(r, events[0]), events[1..])
  }

  /** Possible and failed are the only states the recognizer is ever in. */
  predicate NeverRecognises(r: DelayRecognizer) {
    r.state == Possible || r.state == Failed
  }

  lemma {:induction false} RunNeverRecognises(r: DelayRecognizer, events: seq<Event>)
    requires WellNamed(r) && NeverRecognises(r)
    ensures NeverRecognises(Run(r, events))
    ensures Run(r, events).delaysTouchesBegan == r.delaysTouchesBegan
    decreases |events|
  {
    if |events| > 0 {
      RunNeverRecognises(Step(r, events[0]), events[1..]);
    }
  }

  /** Touch began followed by a reset disarms exactly the timer it armed:
      the live timers are those from before the touch. */
  lemma ResetUndoesBegan(r: DelayRecognizer)
    requires WellNamed(r)
    ensures Reset(TouchesBegan(r)).live == r.live
    ensures Reset(TouchesBegan(r)).state == Possible
  {
    var t := TouchesBegan(r).timer.value.id;
    assert t !in r.live;
    assert (r.live + {t}) - {t} == r.live;
  }

  /** A timer scheduled by a touch began fails the recognizer when it fires,
      unless a reset came first. */
  lemma TimerFailsAfterBegan(r: DelayRecognizer)
    requires WellNamed(r)
    ensures var r1 := TouchesBegan(r);
            && TimerFires(r1, r1.timer.value.id).state == Failed
            && Reset(r1).timer == None
            && TimerFires(Reset(r1), r1.timer.value.id).state == Possible
  {
  }

  /** Two touches began before a reset: the timer of the first one is
      overwritten without being invalidated, survives the reset, and fails
      the fresh recognizer 0.15 s after the first touch. */
  lemma StaleTimerSurvivesReset()
    ensures var r := Run(Init(), [TouchesBeganEvent, TouchesBeganEvent, SystemReset]);
            && r.state == Possible && r.timer == None
            && 0 in r.live
            && TimerFires(r, 0).state == Failed
  {
    var r0 := Init();
    var r1 := TouchesBegan(r0);
    var r2 := TouchesBegan(r1);
    var r3 := Reset(r2);
    assert r3.live == {0};
    var es := [TouchesBeganEvent, TouchesBeganEvent, SystemReset];
    calc {
      Run(r0, es);
      Run(r1, es[1..]);
      { assert es[1..][1..] == [SystemReset]; }
      Run(r2, [SystemReset]);
      { assert [SystemReset][1..] == []; }
      Run(r3, []);
    }
  }

  // ---------------------------------------------------------------------------
  // The evidently intended class: touch began invalidates the stored timer
  // before storing a new one
  // ---------------------------------------------------------------------------

  /** Touch began that first invalidates the timer it overwrites. */
  function TouchesBeganFixed(r: DelayRecognizer): (r': DelayRecognizer)
    requires WellNamed(r)
    ensures r'.state == r.state && r'.delaysTouchesBegan == r.delaysTouchesBegan
    ensures r'.timer.Some? && r'.timer.value.interval == FailDelay && !r'.timer.value.repeats
    ensures r'.timer.value.id !in r.live
    ensures r.timer.None? ==> r'.live == r.live + {r'.timer.value.id}
    ensures r.timer.Some? ==> r'.live == r.live - {r.timer.value.id} + {r'.timer.value.id}
    ensures WellNamed(r')
  {
    TouchesBegan(Reset(r).(state := r.state))
  }

  function StepFixed(r: DelayRecognizer, e: Event): (r': DelayRecognizer)
    requires WellNamed(r)
    ensures WellNamed(r')
  {
    match e
    case TouchesBeganEvent => TouchesBeganFixed(r)
    case TouchesEndedEvent => TouchesEnded(r)
    case TouchesCancelledEvent => TouchesCancelled(r)
    case TimerFired(id) => TimerFires(r, id)
    case SystemReset => Reset(r)
  }

  function RunFixed(r: DelayRecognizer, events: seq<Event>): (r': DelayRecognizer)
    requires WellNamed(r)
    ensures WellNamed(r')
    decreases |events|
  {
    if |events| == 0 then r else RunFixed(StepFixed(r, events[0]), events[1..])
  }

  /** At most one timer is live, and it is the stored one. */
  predicate OnlyStoredTimerLive(r: DelayRecognizer) {
    forall id | id in r.live :: r.timer.Some? && id == r.timer.value.id
  }

  lemma StepFixedKeepsOneTimer(r: DelayRecognizer, e: Event)
    requires WellNamed(r) && OnlyStoredTimerLive(r)
    ensures OnlyStoredTimerLive(StepFixed(r, e))
  {
    match e
    case TouchesBeganEvent =>
      var r' := TouchesBeganFixed(r);
      if r.timer.Some? {
        assert r.live - {r.timer.value.id} == {};
      } else {
        assert r.live == {};
      }
    case _ =>
  }

  /** From a fresh recognizer, every run of the corrected class keeps only
      the stored timer live, so a reset leaves no timer that could fail the
      next touch sequence. */
  lemma {:induction false} RunFixedKeepsOneTimer(r: DelayRecognizer, events: seq<Event>)
    requires WellNamed(r) && OnlyStoredTimerLive(r)
    ensures OnlyStoredTimerLive(RunFixed(r, events))
    ensures Reset(RunFixed(r, events)).live == {}
    decreases |events|
  {
    if |events| > 0 {
      StepFixedKeepsOneTimer(r, events[0]);
      RunFixedKeepsOneTimer(StepFixed(r, events[0]), events[1..]);
    } else {
      if r.timer.Some? {
        assert r.live - {r.timer.value.id} == {};
      } else {
        assert r.live == {};
      }
    }
  }

  /** After a reset in the corrected class no timer firing changes the
      recognizer. */
  lemma ResetSilencesTimersFixed(events: seq<Event>, id: nat)
    ensures var r := Reset(RunFixed(Init(), events));
            TimerFires(r, id) == r
  {
    RunFixedKeepsOneTimer(Init(), events);
  }
}
