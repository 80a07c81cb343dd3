/** `register_node` reads `is_registered` and lowers it later: what may fall in between. */
module Polls {
  import opened Base
  import opened Gateway
  import opened Invariant
  import opened Sessions
  import opened Deauth
  import opened Witnesses
  import L = SharedList

  /** A poll that reads the flag as up. */
  predicate PollTest(s: State) {
    && s.session.registered
    && match s.session.shell
       case InSensor(_, PollSensor(count)) => count <= POLL_LIMIT
       case InActuator(_, PollActuator(count)) => count <= POLL_LIMIT
       case _ => false
  }

  /** `is_registered = false` and the return of success. */
  function PollWrite(s: State): State {
    s.(session := s.session.(registered := false,
         shell := match s.session.shell
                  case InSensor(t, _) => InSensor(t, ReplySensor)
                  case InActuator(t, _) => InActuator(t, ReplyActuator)
                  case sh => sh))
  }

  ghost predicate AcceptedAt(s: State, es: seq<Event>, k: int) {
    0 <= k < |es| && Accepts(Run(s, es[..k]), es[k])
  }

  /** Some registration is accepted on the way. */
  ghost predicate Accepted(s: State, es: seq<Event>) {
    exists k :: AcceptedAt(s, es, k)
  }

  lemma AcceptedSnoc(s: State, es: seq<Event>)
    requires es != []
    ensures Accepted(s, es) <==> Accepted(s, es[..|es| - 1]) || AcceptedAt(s, es, |es| - 1)
  {
    var init := es[..|es| - 1];
    assert forall j :: 0 <= j < |init| ==> init[..j] == es[..j] && init[j] == es[j];
    if Accepted(s, init) {
      var k :| AcceptedAt(s, init, k);
      assert AcceptedAt(s, es, k);
    }
    if Accepted(s, es) {
      var k :| AcceptedAt(s, es, k);
      assert k < |init| ==> AcceptedAt(s, init, k);
    }
  }

  lemma RegistrationsCommute(v: State, e: Event)
    requires e.SensorRegister? || e.ActuatorRegister?
    ensures PollWrite(Step(v, e)) == PollWrite(Step(PollWrite(v), e))
  {
    hide L.Lists;
  }

  /** No handler looks at the flag or at the poll count. */
  lemma WriteCommutes(v: State, e: Event)
    requires e != ShellStep && !v.session.shell.Idle?
    ensures PollWrite(Step(v, e)) == PollWrite(Step(PollWrite(v), e))
  {
    if e.SensorRegister? || e.ActuatorRegister? {
      RegistrationsCommute(v, e);
    } else {
      assert Step(v, e).session == v.session && Step(PollWrite(v), e).session == PollWrite(v).session;
    }
  }

  lemma {:induction false} FlagWithoutShell(s: State, es: seq<Event>)
    requires NoShellStep(es)
    ensures Run(s, es).session.registered <==> s.session.registered || Accepted(s, es)
  {
    if es != [] {
      var init, e := es[..|es| - 1], es[|es| - 1];
      FlagWithoutShell(s, init);
      FlagStep(Run(s, init), e);
      AcceptedSnoc(s, es);
    }
  }

  lemma {:induction false} DelayedWrite(s: State, between: seq<Event>)
    requires !s.session.shell.Idle? && NoShellStep(between)
    ensures Run(s, between).session.shell == s.session.shell
    ensures Run(PollWrite(s), between).session.shell == PollWrite(s).session.shell
    ensures PollWrite(Run(s, between)) == PollWrite(Run(PollWrite(s), between))
  {
    if between != [] {
      var init, e := between[..|between| - 1], between[|between| - 1];
      DelayedWrite(s, init);
      var v, w := Run(s, init), Run(PollWrite(s), init);
      OthersKeepShell(v, e);
      OthersKeepShell(w, e);
      WriteCommutes(v, e);
      WriteCommutes(w, e);
    }
  }

  /** A poll whose write comes later than its test, with any events in between, ends like the one-step
      poll with those events after it if and only if they accept no registration; one accepted there
      has its flag wiped out. */
  lemma SplitPollSafeIff(s: State, between: seq<Event>)
    requires PollTest(s) && NoShellStep(between)
    ensures PollWrite(Run(s, between)) == Run(Step(s, ShellStep), between)
            <==> !Accepted(Step(s, ShellStep), between)
  {
    assert Step(s, ShellStep) == PollWrite(s);
    DelayedWrite(s, between);
    FlagWithoutShell(PollWrite(s), between);
  }

  /** The session would still accept a registration. */
  ghost predicate Open(s: State) {
    || (s.session.sensorId.Some? && s.session.sensorId.value !in s.sensors)
    || (s.session.actuatorId.Some? && !L.Lists(s.list, s.session.actuatorId.value))
  }

  lemma ShutStep(s: State, e: Event)
    requires Inv(s) && !Open(s) && !s.session.shell.Idle? && e != ShellStep
    ensures !Open(Step(s, e)) && !Accepts(s, e)
  {
    match e
    case SensorRegister(_) =>
    case ActuatorRegister(_) =>
    case _ =>
  }

  lemma {:induction false} ShutRun(s: State, es: seq<Event>)
    requires Inv(s) && !Open(s) && !s.session.shell.Idle? && NoShellStep(es)
    ensures var u := Run(s, es); Inv(u) && !Open(u) && u.session.shell == s.session.shell && !Accepted(s, es)
  {
    if es != [] {
      var init, e := es[..|es| - 1], es[|es| - 1];
      ShutRun(s, init);
      ShutStep(Run(s, init), e);
      StepKeepsInv(Run(s, init), e);
      OthersKeepShell(Run(s, init), e);
      AcceptedSnoc(s, es);
    }
  }

  lemma OpenAccepts(s: State) returns (m: Event)
    requires Inv(s) && Open(s)
    ensures m != ShellStep && Accepts(s, m)
  {
    if s.session.sensorId.Some? && s.session.sensorId.value !in s.sensors {
      m := SensorRegister(Some(Identity(s.session.sensorId.value, 0)));
    } else {
      m := ActuatorRegister(Some(Identity(s.session.actuatorId.value, 0)));
    }
  }

  /** Nothing in between can matter if and only if the session is closed to registrations as the poll
      reads the flag: its name is registered already, or cleared.  A session opened with the flag down
      reads it up only after its own admission. */
  lemma SplitPollHarmlessIff(s: State)
    requires Inv(s) && PollTest(s)
    ensures (forall between :: NoShellStep(between) ==>
                               PollWrite(Run(s, between)) == Run(Step(s, ShellStep), between))
            <==> !Open(s)
  {
    var u := Step(s, ShellStep);
    StepKeepsInv(s, ShellStep);
    assert u == PollWrite(s) && (Open(u) <==> Open(s));
    if Open(s) {
      var m := OpenAccepts(u);
      assert [m][..0] == [];
      assert AcceptedAt(u, [m], 0);
      assert NoShellStep([m]);
      SplitPollSafeIff(s, [m]);
    } else {
      forall between | NoShellStep(between)
        ensures PollWrite(Run(s, between)) == Run(u, between)
      {
        ShutRun(u, between);
        SplitPollSafeIff(s, between);
      }
    }
  }

  /** From power-up: the flag is left up by a deauthorization of n, a session for t reads it, t is
      admitted before the write, and the write lowers the flag t has raised. */
  lemma SplitPollBreaks(n: Name, rn: Remote, t: Name, r: Remote)
    requires n != t
    ensures var m := SensorRegister(Some(Identity(n, rn)));
            var s := Run(INIT, [Cmd(DeauthSensor(n)), ShellStep] + [m, ShellStep] + [Cmd(AuthSensor(t)), ShellStep]);
            var v := Step(s, SensorRegister(Some(Identity(t, r))));
            && PollTest(s) && t !in s.sensors && t in v.sensors && !PollWrite(v).session.registered
            && Step(Step(s, ShellStep), SensorRegister(Some(Identity(t, r)))).session.registered
  {
    var a, m := [Cmd(DeauthSensor(n)), ShellStep], SensorRegister(Some(Identity(n, rn)));
    assert Run(INIT, []) == INIT;
    hide Run;
    RunTwo(INIT, [], Cmd(DeauthSensor(n)), ShellStep);
    assert [] + a == a;
    RunTwo(INIT, a, m, ShellStep);
    var idle := Run(INIT, a + [m, ShellStep]);
    assert idle == INIT.(sensors := map[n := Sensor(rn, 0)], session := Session(true, None, None, Idle));
    RunTwo(INIT, a + [m, ShellStep], Cmd(AuthSensor(t)), ShellStep);
  }
}
