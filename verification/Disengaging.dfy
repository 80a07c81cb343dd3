/** What may still be sent after the alarm has been disengaged, and why the watchdog's test and
    write have to be one step. */
module Disengaging {
  import opened Base
  import opened Gateway
  import opened Invariant
  import opened Traversal
  import opened Witnesses
  import L = SharedList

  ghost predicate NeverEngaged(s: State, es: seq<Event>) {
    forall k :: 0 <= k <= |es| ==> !Run(s, es[..k]).flags.engaged
  }

  /** Between two states: what was sent comes from the walk in progress in the first one. */
  ghost predicate TailOk(s: State, t: State) {
    && (t.alarm.Fire? ==> s.alarm.Fire? && t.alarm.ptr <= s.alarm.ptr)
    && forall id ::
         var sent := OnCount(t.out, id) - OnCount(s.out, id);
         0 <= sent <= 1 && (sent == 1 ==> s.alarm.Fire? && id <= s.alarm.ptr && (t.alarm.Fire? ==> t.alarm.ptr < id))
  }

  lemma TailStep(s: State, t: State, e: Event)
    requires Inv(t) && TailOk(s, t) && !t.flags.engaged
    ensures TailOk(s, Step(t, e))
  {
    var u := Step(t, e);
    if e != AlarmStep {
      OthersKeepAlarm(t, e);
    }
    forall id
      ensures var sent := OnCount(u.out, id) - OnCount(s.out, id);
              && 0 <= sent <= 1
              && (sent == 1 ==> s.alarm.Fire? && id <= s.alarm.ptr && (u.alarm.Fire? ==> u.alarm.ptr < id))
    {
      if e != AlarmStep {
        OthersKeepCount(t, e, id);
      } else if t.alarm.Fire? && L.InHeap(t.list, t.alarm.ptr) {
        OnCountSnoc(t.out, On(t.alarm.ptr, t.list.nodes[t.alarm.ptr].remote), id);
      }
    }
  }

  /** While the system stays disengaged, ON goes at most once to each record the walk in progress
      had not passed yet, and to nobody at all when no walk was in progress. */
  lemma {:induction false} BoundedTail(s: State, es: seq<Event>)
    requires Inv(s) && NeverEngaged(s, es)
    ensures TailOk(s, Run(s, es))
  {
    if es != [] {
      var init := es[..|es| - 1];
      assert forall k :: 0 <= k <= |init| ==> init[..k] == es[..k];
      assert init[..|init|] == init;
      BoundedTail(s, init);
      RunKeepsInv(s, init);
      TailStep(s, Run(s, init), es[|es| - 1]);
    }
  }

  /** The round in progress after `es` began at event k. */
  ghost predicate RoundSince(es: seq<Event>, k: int) {
    && 0 <= k < |es| && es[k] == AlarmStep && StartsRound(Run(INIT, es[..k]))
    && forall j :: k < j <= |es| ==> Run(INIT, es[..j]).alarm.Fire?
  }

  /** Every walk in progress, and so every ON sent, goes back to a test that read the system as
      engaged with an alarm pending. */
  lemma {:induction false} EveryWalkWasEngaged(es: seq<Event>)
    requires Run(INIT, es).alarm.Fire?
    ensures exists k :: RoundSince(es, k)
  {
    var last := |es| - 1;
    var init := es[..last];
    assert es[..|es|] == es;
    if Run(INIT, init).alarm.Fire? {
      EveryWalkWasEngaged(init);
      var k :| RoundSince(init, k);
      forall j | k < j <= |es|
        ensures Run(INIT, es[..j]).alarm.Fire?
      {
        if j <= last {
          assert es[..j] == init[..j];
        }
      }
      assert init[..k] == es[..k];
      assert RoundSince(es, k);
    } else {
      if es[last] != AlarmStep {
        OthersKeepAlarm(Run(INIT, init), es[last]);
      }
      assert RoundSince(es, last);
    }
  }

  // ----- test and write split apart -----

  /** `ht_wdt` reads `is_engaged` and writes `is_timeout` later; the write does not look again. */
  predicate WatchdogTest(s: State) {
    s.flags.engaged && Expired(s.sensors)
  }

  function WatchdogWrite(s: State): State {
    s.(flags := s.flags.(timeout := true))
  }

  ghost predicate DisengageAt(s: State, es: seq<Event>, k: int) {
    0 <= k < |es| && Disengages(Run(s, es[..k]), es[k])
  }

  ghost predicate EngageAt(s: State, es: seq<Event>, k: int) {
    0 <= k < |es| && Engages(Run(s, es[..k]), es[k])
  }

  ghost predicate DisengagedSince(s: State, es: seq<Event>, k: int) {
    DisengageAt(s, es, k) && forall j :: k < j < |es| ==> !EngageAt(s, es, j)
  }

  /** Someone disengaged the system and nobody has engaged it since. */
  ghost predicate LeftDisengaged(s: State, es: seq<Event>) {
    exists k :: DisengagedSince(s, es, k)
  }

  lemma PrefixAt(s: State, es: seq<Event>, j: int)
    requires es != [] && j < |es| - 1
    ensures DisengageAt(s, es[..|es| - 1], j) <==> DisengageAt(s, es, j)
    ensures EngageAt(s, es[..|es| - 1], j) <==> EngageAt(s, es, j)
  {
    if 0 <= j {
      assert es[..|es| - 1][..j] == es[..j];
    }
  }

  lemma DisengagedSinceSnoc(s: State, es: seq<Event>, k: int)
    requires es != []
    ensures var last := |es| - 1;
            DisengagedSince(s, es, k) <==>
              if k < last then DisengagedSince(s, es[..last], k) && !EngageAt(s, es, last)
              else k == last && DisengageAt(s, es, last)
  {
    var last := |es| - 1;
    assert k > last ==> !DisengageAt(s, es, k);
    hide DisengageAt, EngageAt;
    if k < last {
      PrefixAt(s, es, k);
    }
    forall j | k < j < last
      ensures EngageAt(s, es[..last], j) <==> EngageAt(s, es, j)
    {
      PrefixAt(s, es, j);
    }
  }

  lemma LeftDisengagedSnoc(s: State, es: seq<Event>)
    requires es != []
    ensures var last := |es| - 1;
            LeftDisengaged(s, es) <==>
              DisengageAt(s, es, last) || (LeftDisengaged(s, es[..last]) && !EngageAt(s, es, last))
  {
    var last := |es| - 1;
    assert forall k :: DisengagedSince(s, es[..last], k) ==> k < last;
    hide DisengagedSince, DisengageAt, EngageAt;
    DisengagedSinceSnoc(s, es, last);
    if LeftDisengaged(s, es) {
      var k :| DisengagedSince(s, es, k);
      DisengagedSinceSnoc(s, es, k);
    }
    if LeftDisengaged(s, es[..last]) {
      var k :| DisengagedSince(s, es[..last], k);
      DisengagedSinceSnoc(s, es, k);
    }
  }

  lemma EngagedStep(s: State, e: Event)
    ensures Step(s, e).flags.engaged <==> Engages(s, e) || (s.flags.engaged && !Disengages(s, e))
  {
  }

  lemma {:induction false} EngagedIff(s: State, es: seq<Event>)
    requires s.flags.engaged
    ensures Run(s, es).flags.engaged <==> !LeftDisengaged(s, es)
  {
    if es != [] {
      var init := es[..|es| - 1];
      EngagedIff(s, init);
      EngagedStep(Run(s, init), es[|es| - 1]);
      LeftDisengagedSnoc(s, es);
    }
  }

  /** With any events between a passed test and its write, no alarm is stale after the write if and
      only if every disengage among them is followed by an engage that the shell reads. */
  lemma SplitWriteSafeIff(s: State, between: seq<Event>)
    requires WatchdogTest(s)
    ensures NoStaleAlarm(WatchdogWrite(Run(s, between)).flags) <==> !LeftDisengaged(s, between)
  {
    EngagedIff(s, between);
  }

  /** `_sensor_tap_handler` reads `is_engaged` too, and `activate_alarm` writes `is_sensor_fired` later. */
  predicate TapTest(s: State, n: Name) {
    s.flags.engaged && n in s.sensors
  }

  function TapWrite(s: State): State {
    s.(flags := s.flags.(fired := true))
  }

  /** The delayed write of a tap is safe under the same condition. */
  lemma SplitTapSafeIff(s: State, n: Name, between: seq<Event>)
    requires TapTest(s, n)
    ensures NoStaleAlarm(TapWrite(Run(s, between)).flags) <==> !LeftDisengaged(s, between)
  {
    EngagedIff(s, between);
  }

  /** From power-up: the button between the test of a tap and its write, and the next engage starts a
      round. */
  lemma SplitTapBreaks(n: Name, r: Remote)
    ensures var s := Run(INIT, Registering(n, r));
            && TapTest(s, n)
            && var t := TapWrite(Step(s, DisengageButton));
               !NoStaleAlarm(t.flags) && !StartsRound(t) && StartsRound(Step(t, Cmd(Engage)))
  {
    RegisteringArms(n, r);
  }

  /** From power-up: a sensor falls silent, the test passes, the button disengages, and the write
      leaves a stale alarm with which the next engage starts a round. */
  lemma SplitWriteBreaks(n: Name, r: Remote)
    ensures var s := Run(INIT, Silence(n, r));
            && WatchdogTest(s)
            && var t := WatchdogWrite(Step(s, DisengageButton));
               !NoStaleAlarm(t.flags) && !StartsRound(t) && StartsRound(Step(t, Cmd(Engage)))
  {
    SilenceExpires(n, r);
    var s := Run(INIT, Silence(n, r));
    assert n in s.sensors && s.sensors[n].wdt > WDT_LIMIT;
  }

  /** With the two in one step no reachable state has an alarm pending while disengaged. */
  lemma NeverStale(es: seq<Event>)
    ensures var f := Run(INIT, es).flags; f.fired || f.timeout ==> f.engaged
  {
    Reachable(es);
  }

  /** So an engage never finds an alarm pending: a round after it needs a new cause. */
  lemma EngageStartsQuiet(es: seq<Event>)
    requires !Run(INIT, es).flags.engaged
    ensures !Pending(Run(INIT, es + [Cmd(Engage)]).flags)
  {
    Reachable(es);
    assert (es + [Cmd(Engage)])[..|es + [Cmd(Engage)]| - 1] == es;
  }
}
