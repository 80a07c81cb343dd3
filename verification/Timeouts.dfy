/** How long `register_node` polls, for sensors and actuators alike, whatever arrives meanwhile. */
module Timeouts {
  import opened Gateway
  import opened Sessions
  import opened Replies

  function PollCount(sh: Shell): nat
    requires Polling(sh)
  {
    if sh.InSensor? then sh.sensorAt.count else sh.actuatorAt.count
  }

  function AtPoll(sh: Shell, n: nat): Shell {
    match sh
    case InSensor(t, _) => InSensor(t, PollSensor(n))
    case InActuator(t, _) => InActuator(t, PollActuator(n))
    case _ => sh
  }

  function AtReply(sh: Shell): Shell {
    match sh
    case InSensor(t, _) => InSensor(t, ReplySensor)
    case InActuator(t, _) => InActuator(t, ReplyActuator)
    case _ => sh
  }

  /** The session is polling at every point before the last event. */
  ghost predicate PollingAll(s: State, es: seq<Event>) {
    forall k :: 0 <= k < |es| ==> Polling(Run(s, es[..k]).session.shell)
  }

  lemma PollingPrefix(s: State, es: seq<Event>)
    requires es != [] && PollingAll(s, es)
    ensures var init := es[..|es| - 1]; PollingAll(s, init) && Polling(Run(s, init).session.shell)
  {
    var init := es[..|es| - 1];
    assert forall k :: 0 <= k < |init| ==> init[..k] == es[..k];
  }

  /** Event j is a poll, one of the first `polls` shell steps, and finds `is_registered` up. */
  ghost predicate FoundUpAt(s: State, es: seq<Event>, polls: int, j: nat) {
    j < |es| && es[j] == ShellStep && ShellSteps(es[..j]) < polls && Run(s, es[..j]).session.registered
  }

  ghost predicate FoundUp(s: State, es: seq<Event>, polls: int) {
    exists j: nat :: FoundUpAt(s, es, polls, j)
  }

  lemma FoundUpSnoc(s: State, es: seq<Event>, polls: int)
    requires es != []
    ensures var last := |es| - 1;
            FoundUp(s, es, polls) <==> FoundUp(s, es[..last], polls) || FoundUpAt(s, es, polls, last)
  {
    var last := |es| - 1;
    assert forall j: nat :: j < last ==> es[..last][..j] == es[..j];
    if FoundUp(s, es[..last], polls) {
      var j: nat :| FoundUpAt(s, es[..last], polls, j);
      assert FoundUpAt(s, es, polls, j);
    }
    if FoundUp(s, es, polls) {
      var j: nat :| FoundUpAt(s, es, polls, j);
      assert j < last ==> FoundUpAt(s, es[..last], polls, j);
    }
  }

  lemma PollStep(s: State, e: Event)
    requires Polling(s.session.shell)
    ensures Step(s, e).session.shell ==
            if e != ShellStep then s.session.shell
            else if PollCount(s.session.shell) >= 51 then Idle
            else if s.session.registered then AtReply(s.session.shell)
            else AtPoll(s.session.shell, PollCount(s.session.shell) + 1)
  {
    if e != ShellStep {
      OthersKeepShell(s, e);
    }
  }

  /** A session at poll `count`, over every run until it has left its polls: with the flag down at each
      of the first 51 - count of its shell steps it counts them, and is over with the next one; at the
      first of them that finds the flag up it has succeeded. */
  lemma {:induction false} PollLaw(s: State, es: seq<Event>)
    requires Polling(s.session.shell) && PollCount(s.session.shell) <= 51 && PollingAll(s, es)
    ensures var sh, k := s.session.shell, ShellSteps(es);
            var left := 51 - PollCount(sh);
            && k <= left + 1
            && Run(s, es).session.shell == (if FoundUp(s, es, left) then AtReply(sh)
                                            else if k <= left then AtPoll(sh, PollCount(sh) + k)
                                            else Idle)
  {
    if es != [] {
      var init, last := es[..|es| - 1], |es| - 1;
      PollingPrefix(s, es);
      PollLaw(s, init);
      FoundUpSnoc(s, es, 51 - PollCount(s.session.shell));
      PollStep(Run(s, init), es[last]);
      hide Step, FoundUp;
    }
  }

  /** So it ends without success if and only if it has taken 52 - count shell steps and found the flag
      down at each of the first 51 - count. */
  lemma TimesOutIff(s: State, es: seq<Event>)
    requires Polling(s.session.shell) && PollCount(s.session.shell) <= 51 && PollingAll(s, es)
    ensures var left := 51 - PollCount(s.session.shell);
            Run(s, es).session.shell.Idle? <==> ShellSteps(es) == left + 1 && !FoundUp(s, es, left)
  {
    PollLaw(s, es);
  }

  /** It starts at poll 0 and sleeps 51 times: from there on, with the flag down, 51 polls and the end. */
  lemma FullTimeout(s: State, es: seq<Event>)
    requires Polling(s.session.shell) && PollCount(s.session.shell) == 0 && PollingAll(s, es)
    requires forall j :: 0 <= j < |es| ==> !Run(s, es[..j]).session.registered
    ensures Run(s, es).session.shell == if ShellSteps(es) <= 51 then AtPoll(s.session.shell, ShellSteps(es)) else Idle
    ensures ShellSteps(es) <= 52
  {
    PollLaw(s, es);
  }
}
