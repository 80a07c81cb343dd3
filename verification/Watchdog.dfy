/** The watchdog counters against the whole event history, and the alarms they cause. */
module Watchdog {
  import opened Base
  import opened Gateway
  import opened Traversal

  /** The event admits the sensor or is an accepted status message from it. */
  ghost predicate Resets(s: State, e: Event, n: Name) {
    || (n in s.sensors && e == SensorStatus(Some(n)))
    || (n !in s.sensors && n in Step(s, e).sensors)
  }

  ghost predicate ResetAt(es: seq<Event>, i: int, n: Name) {
    0 <= i < |es| && Resets(Run(INIT, es[..i]), es[i], n)
  }

  ghost predicate LastReset(es: seq<Event>, i: int, n: Name) {
    ResetAt(es, i, n) && forall j :: i < j < |es| ==> !ResetAt(es, j, n)
  }

  function Ticks(es: seq<Event>): nat {
    if es == [] then 0 else Ticks(es[..|es| - 1]) + if es[|es| - 1] == Tick then 1 else 0
  }

  /** One step's effect on one row of the table. */
  lemma RowStep(s: State, e: Event, n: Name)
    requires n in Step(s, e).sensors
    ensures !Resets(s, e, n) ==> n in s.sensors
    ensures Step(s, e).sensors[n].wdt ==
            if Resets(s, e, n) then 0 else if e == Tick then Age(s.sensors[n].wdt) else s.sensors[n].wdt
  {
    match e
    case SensorRegister(_) =>
    case SensorStatus(_) =>
    case ShellStep => if s.session.shell.InSensor? { assert n in s.sensors; }
    case _ =>
  }

  lemma PrefixReset(es: seq<Event>, n: Name)
    requires es != []
    ensures var init := es[..|es| - 1];
            forall j :: 0 <= j < |init| ==> (ResetAt(init, j, n) <==> ResetAt(es, j, n))
  {
    var init := es[..|es| - 1];
    forall j | 0 <= j < |init|
      ensures ResetAt(init, j, n) <==> ResetAt(es, j, n)
    {
      assert init[..j] == es[..j] && init[j] == es[j];
    }
  }

  /** A registered sensor has a latest reset. */
  lemma {:induction false} LastResetExists(es: seq<Event>, n: Name)
    requires n in Run(INIT, es).sensors
    ensures exists i :: LastReset(es, i, n)
  {
    var last := |es| - 1;
    if es != [] {
      var init := es[..last];
      if ResetAt(es, last, n) {
        assert LastReset(es, last, n);
      } else {
        RowStep(Run(INIT, init), es[last], n);
        LastResetExists(init, n);
        PrefixReset(es, n);
        var i :| LastReset(init, i, n);
        assert LastReset(es, i, n);
      }
    }
  }

  /** In every reachable state the counter of a registered sensor is the number of ticks since its
      latest reset, cut off at 3. */
  lemma {:induction false} CounterIsHistory(es: seq<Event>, n: Name, i: int)
    requires n in Run(INIT, es).sensors && LastReset(es, i, n)
    ensures Run(INIT, es).sensors[n].wdt == Min(3, Ticks(es[i + 1..]))
  {
    var last := |es| - 1;
    var init, e := es[..last], es[last];
    RowStep(Run(INIT, init), e, n);
    PrefixReset(es, n);
    if i < last {
      assert !ResetAt(es, last, n);
      assert LastReset(init, i, n);
      CounterIsHistory(init, n, i);
      assert es[i + 1..][..|es[i + 1..]| - 1] == init[i + 1..];
    }
  }

  /** The sensor has been silent for `k` ticks. */
  ghost predicate SilentFor(es: seq<Event>, n: Name, k: nat) {
    n in Run(INIT, es).sensors && exists i :: LastReset(es, i, n) && Ticks(es[i + 1..]) >= k
  }

  lemma ExpiredIsSilence(es: seq<Event>)
    ensures Expired(Run(INIT, es).sensors) <==> exists n :: SilentFor(es, n, 3)
  {
    var s := Run(INIT, es);
    if Expired(s.sensors) {
      var n :| n in s.sensors && s.sensors[n].wdt > WDT_LIMIT;
      LastResetExists(es, n);
      var i :| LastReset(es, i, n);
      CounterIsHistory(es, n, i);
      assert SilentFor(es, n, 3);
    }
    if exists n :: SilentFor(es, n, 3) {
      var n :| SilentFor(es, n, 3);
      var i :| LastReset(es, i, n) && Ticks(es[i + 1..]) >= 3;
      CounterIsHistory(es, n, i);
    }
  }

  /** A tick leaves `is_timeout` up exactly when it was up, or the system is engaged and for some
      registered sensor this is at least the fourth tick without a sign of life. */
  lemma TimeoutIffFourthSilentTick(es: seq<Event>)
    ensures Run(INIT, es + [Tick]).flags.timeout <==>
            || Run(INIT, es).flags.timeout
            || (Run(INIT, es).flags.engaged && exists n :: SilentFor(es, n, 3))
  {
    ExpiredIsSilence(es);
    assert (es + [Tick])[..|es + [Tick]| - 1] == es;
  }

  // ----- no alarm without a cause -----

  /** Event k is a test press, a tap of a registered sensor or a fourth silent tick, while engaged. */
  ghost predicate Cause(es: seq<Event>, k: int) {
    && 0 <= k < |es|
    && var s := Run(INIT, es[..k]);
    && s.flags.engaged
    && match es[k]
       case TestButton => true
       case SensorTap(name) => name.Some? && name.value in s.sensors
       case Tick => exists n :: SilentFor(es[..k], n, 3)
       case _ => false
  }

  ghost predicate HasCause(es: seq<Event>) {
    exists k :: Cause(es, k)
  }

  predicate Quiet(s: State) {
    !s.flags.fired && !s.flags.timeout && s.alarm == Guard && forall p :: p in s.out ==> !p.On?
  }

  lemma OnlyCausesDisturb(s: State, e: Event)
    requires Quiet(s)
    requires s.flags.engaged ==>
               && e != TestButton
               && (e.SensorTap? ==> e.name.None? || e.name.value !in s.sensors)
               && (e == Tick ==> !Expired(s.sensors))
    ensures Quiet(Step(s, e))
  {
    if e != AlarmStep {
      OthersSendNoOn(s, e);
      OthersKeepAlarm(s, e);
    }
    match e
    case Cmd(c) =>
    case _ =>
  }

  /** Before the first cause nothing is pending and no ON has been sent, however often the alarm is
      engaged. */
  lemma {:induction false} QuietUntilCause(es: seq<Event>)
    ensures HasCause(es) || Quiet(Run(INIT, es))
  {
    if es != [] {
      var last := |es| - 1;
      var init := es[..last];
      QuietUntilCause(init);
      if HasCause(init) {
        var k :| Cause(init, k);
        assert init[..k] == es[..k];
        assert Cause(es, k);
      } else if !HasCause(es) {
        assert !Cause(es, last);
        ExpiredIsSilence(init);
        OnlyCausesDisturb(Run(INIT, init), es[last]);
      }
    }
  }

  /** Every registered sensor shows a sign of life at least every three ticks. */
  ghost predicate Prompt(es: seq<Event>) {
    forall k, n :: 0 <= k < |es| && es[k] == Tick ==> !SilentFor(es[..k], n, 3)
  }

  /** With prompt sensors, no tap and no test press, no ON is ever sent. */
  lemma NoFalseAlarm(es: seq<Event>)
    requires Prompt(es)
    requires forall j :: 0 <= j < |es| ==> !es[j].SensorTap? && es[j] != TestButton
    ensures forall p :: p in Run(INIT, es).out ==> !p.On?
  {
    QuietUntilCause(es);
    assert forall k :: !Cause(es, k);
  }
}
