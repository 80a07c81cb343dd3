/** From a silent sensor, a tap or a test press to the alarm thread's next test and its round. */
module Latency {
  import opened Base
  import opened Gateway
  import opened Invariant
  import opened Traversal
  import opened Watchdog
  import L = SharedList

  /** Nothing disengages the system on the way. */
  ghost predicate Undisturbed(s: State, es: seq<Event>) {
    forall j :: 0 <= j < |es| ==> !Disengages(Run(s, es[..j]), es[j])
  }

  /** The alarm thread has not come to its test on the way. */
  ghost predicate Untested(s: State, es: seq<Event>) {
    forall j :: 0 <= j < |es| ==> !(es[j] == AlarmStep && Run(s, es[..j]).alarm == Guard)
  }

  /** Event k is a tick that finds a sensor past the limit, with the alarm thread back at its test. */
  ghost predicate LateAt(s: State, es: seq<Event>, k: int) {
    0 <= k < |es| && es[k] == Tick && Run(s, es[..k]).alarm == Guard && Expired(Run(s, es[..k]).sensors)
  }

  ghost predicate LateAgain(s: State, es: seq<Event>) {
    exists k :: LateAt(s, es, k)
  }

  lemma LateAgainSnoc(s: State, es: seq<Event>)
    requires es != []
    ensures LateAgain(s, es) <==> LateAgain(s, es[..|es| - 1]) || LateAt(s, es, |es| - 1)
  {
    var init := es[..|es| - 1];
    assert forall j :: 0 <= j < |init| ==> init[..j] == es[..j] && init[j] == es[j];
    if LateAgain(s, init) {
      var k :| LateAt(s, init, k);
      assert LateAt(s, es, k);
    }
    if LateAgain(s, es) {
      var k :| LateAt(s, es, k);
      assert k < |init| ==> LateAt(s, init, k);
    }
  }

  /** Between tests `is_timeout` goes down only with the reset at the end of a round, and up only by
      an expired tick. */
  lemma BetweenTestsStep(t: State, e: Event)
    requires t.flags.engaged && !Disengages(t, e) && !(e == AlarmStep && t.alarm == Guard)
    ensures var u := Step(t, e);
            && u.flags.engaged
            && (t.alarm == Guard ==> u.alarm == Guard)
            && (t.alarm == Guard ==> (u.flags.timeout <==> t.flags.timeout || (e == Tick && Expired(t.sensors))))
            && (t.alarm != Guard && u.alarm == Guard ==> !u.flags.timeout && e == AlarmStep)
  {
    if e != AlarmStep {
      OthersKeepAlarm(t, e);
    }
  }

  lemma {:induction false} BetweenTests(s: State, es: seq<Event>)
    requires s.flags.timeout && s.flags.engaged && Undisturbed(s, es) && Untested(s, es)
    ensures var t := Run(s, es);
            && t.flags.engaged
            && (t.alarm == Guard ==> (t.flags.timeout <==> s.alarm == Guard || LateAgain(s, es)))
            && (t.alarm != Guard ==> s.alarm != Guard && !LateAgain(s, es))
  {
    if es != [] {
      var init := es[..|es| - 1];
      assert forall j :: 0 <= j < |init| ==> init[..j] == es[..j] && init[j] == es[j];
      BetweenTests(s, init);
      BetweenTestsStep(Run(s, init), es[|es| - 1]);
      LateAgainSnoc(s, es);
    }
  }

  /** A test press, or a tap of a registered sensor. */
  predicate Triggers(s: State, e: Event) {
    e == TestButton || (e.SensorTap? && e.name.Some? && e.name.value in s.sensors)
  }

  ghost predicate TriggerAt(s: State, es: seq<Event>, k: int) {
    0 <= k < |es| && Triggers(Run(s, es[..k]), es[k])
  }

  ghost predicate Triggered(s: State, es: seq<Event>) {
    exists k :: TriggerAt(s, es, k)
  }

  lemma TriggeredSnoc(s: State, es: seq<Event>)
    requires es != []
    ensures Triggered(s, es) <==> Triggered(s, es[..|es| - 1]) || TriggerAt(s, es, |es| - 1)
  {
    var init := es[..|es| - 1];
    assert forall j :: 0 <= j < |init| ==> init[..j] == es[..j] && init[j] == es[j];
    if Triggered(s, init) {
      var k :| TriggerAt(s, init, k);
      assert TriggerAt(s, es, k);
    }
    if Triggered(s, es) {
      var k :| TriggerAt(s, es, k);
      assert k < |init| ==> TriggerAt(s, init, k);
    }
  }

  lemma FiredStep(s: State, e: Event)
    requires s.flags.engaged && !Disengages(s, e)
    ensures var t := Step(s, e); t.flags.engaged && (t.flags.fired <==> s.flags.fired || Triggers(s, e))
  {
  }

  /** While nobody disengages, `is_sensor_fired` is up if and only if it was, or a tap or test press
      has come. */
  lemma {:induction false} FiredIff(s: State, es: seq<Event>)
    requires s.flags.engaged && Undisturbed(s, es)
    ensures var t := Run(s, es); t.flags.engaged && (t.flags.fired <==> s.flags.fired || Triggered(s, es))
  {
    if es != [] {
      var init := es[..|es| - 1];
      assert forall j :: 0 <= j < |init| ==> init[..j] == es[..j] && init[j] == es[j];
      FiredIff(s, init);
      FiredStep(Run(s, init), es[|es| - 1]);
      TriggeredSnoc(s, es);
    }
  }

  /** A fourth silent tick while engaged, wherever the alarm thread stands.  Its next test, if nobody
      disengages before, starts a round if and only if the thread was at its test when the tick came,
      or a tap or test press was pending or has come since, or another expired tick has come since the
      thread returned to its test: the end of a round in progress lowers `is_timeout` without looking.  When the
      round's walk is over, every actuator listed throughout has had exactly one ON. */
  lemma SilenceReachesActuators(
      es: seq<Event>, n: Name, more: seq<Event>, walk: seq<Event>, s: State, t: State, id: int)
    requires SilentFor(es, n, 3) && Run(INIT, es).flags.engaged
    requires Undisturbed(Run(INIT, es + [Tick]), more) && Untested(Run(INIT, es + [Tick]), more)
    requires s == Run(Run(INIT, es + [Tick]), more) && s.alarm == Guard
    requires t == Run(Step(s, AlarmStep), walk)
    ensures Inv(s) && Inv(t)
    ensures StartsRound(s) <==>
              || Run(INIT, es).alarm == Guard
              || Run(INIT, es).flags.fired || Triggered(Run(INIT, es + [Tick]), more)
              || LateAgain(Run(INIT, es + [Tick]), more)
    ensures StartsRound(s) && Firing(Step(s, AlarmStep), walk) && t.alarm == Fire(L.NULL) &&
            id in L.Listed(s.list) && id in L.Listed(t.list) ==>
              OnCount(t.out, id) == OnCount(s.out, id) + 1
  {
    TimeoutIffFourthSilentTick(es);
    var raised := Run(INIT, es + [Tick]);
    assert (es + [Tick])[..|es + [Tick]| - 1] == es;
    Reachable(es + [Tick]);
    RunKeepsInv(raised, more);
    StepKeepsInv(s, AlarmStep);
    RunKeepsInv(Step(s, AlarmStep), walk);
    OthersKeepAlarm(Run(INIT, es), Tick);
    BetweenTests(raised, more);
    FiredIff(raised, more);
    if StartsRound(s) && Firing(Step(s, AlarmStep), walk) && t.alarm == Fire(L.NULL) {
      EveryListedActuatorFiredOnce(s, walk, t, id);
    }
  }

  // ----- a tap or a test raises the alarm -----

  /** A test press, or a tap of a registered sensor, while engaged: until someone disengages, every
      iteration of the alarm thread is a round, however many there have been. */
  lemma TriggerKeepsRounds(s: State, trigger: Event, es: seq<Event>)
    requires s.flags.engaged && Triggers(s, trigger)
    requires Undisturbed(Step(s, trigger), es)
    ensures var t := Run(Step(s, trigger), es); t.alarm == Guard ==> StartsRound(t)
  {
    FiredIff(Step(s, trigger), es);
  }
}
