/** What a shell session may change, in every interleaving with the message handlers. */
module Sessions {
  import opened Base
  import opened Gateway
  import opened Invariant
  import L = SharedList

  /** SENSOR_ID and ACTUATOR_ID are never both set. */
  lemma NeverBothNames(es: seq<Event>)
    ensures var se := Run(INIT, es).session; se.sensorId.None? || se.actuatorId.None?
  {
    Reachable(es);
  }

  // ----- an auth_sensor session -----

  predicate InAuthSensor(sh: Shell, t: Name) {
    sh.InSensor? && sh.typed == t && (sh.sensorAt.OpenSensor? || sh.sensorAt.PollSensor? || sh.sensorAt.ReplySensor?)
  }

  /** The shell does not return to its prompt after any proper prefix of the events. */
  ghost predicate Busy(s: State, es: seq<Event>) {
    forall k :: 0 <= k < |es| ==> !Run(s, es[..k]).session.shell.Idle?
  }

  lemma BusyPrefix(s: State, es: seq<Event>)
    requires es != [] && Busy(s, es)
    ensures var init := es[..|es| - 1]; Busy(s, init) && !Run(s, init).session.shell.Idle?
  {
    var init := es[..|es| - 1];
    assert forall k :: 0 <= k < |init| ==> init[..k] == es[..k];
  }

  function Admits(s: State, e: Event): nat {
    if e.SensorRegister? && OnSensorRegister(s, e.identity).1 == Changed then 1 else 0
  }

  ghost function SensorAdmissions(s: State, es: seq<Event>): nat {
    if es == [] then 0
    else SensorAdmissions(s, es[..|es| - 1]) + Admits(Run(s, es[..|es| - 1]), es[|es| - 1])
  }

  lemma AuthSensorStep(s: State, e: Event, t: Name)
    requires Inv(s) && InAuthSensor(s.session.shell, t)
    ensures var s' := Step(s, e);
            && (InAuthSensor(s'.session.shell, t) || s'.session.shell.Idle?)
            && s'.sensors.Keys == s.sensors.Keys + (if Admits(s, e) == 1 then {t} else {})
            && (Admits(s, e) == 1 ==> t !in s.sensors && s'.session.registered)
            && s'.list == s.list
            && (s'.session.registered && !s.session.registered ==> Admits(s, e) == 1)
            && (InAuthSensor(s'.session.shell, t) && s'.session.shell.sensorAt.ReplySensor? ==>
                  s.session.shell.sensorAt.ReplySensor? || (s.session.registered && !s'.session.registered))
  {
    match e
    case ShellStep =>
    case SensorRegister(_) =>
    case ActuatorRegister(_) =>
    case _ =>
  }

  /** In one session at most one sensor is admitted, and only under the typed name; nothing is
      removed and the actuator list is not touched. */
  lemma {:induction false} AuthSensorAdmitsOne(s: State, t: Name, es: seq<Event>)
    requires Inv(s) && InAuthSensor(s.session.shell, t) && Busy(s, es)
    ensures var u := Run(s, es);
            && Inv(u)
            && (InAuthSensor(u.session.shell, t) || u.session.shell.Idle?)
            && u.list == s.list
            && SensorAdmissions(s, es) <= 1
            && (SensorAdmissions(s, es) == 1 ==> t !in s.sensors)
            && u.sensors.Keys == s.sensors.Keys + (if SensorAdmissions(s, es) == 1 then {t} else {})
  {
    if es != [] {
      var init := es[..|es| - 1];
      BusyPrefix(s, es);
      AuthSensorAdmitsOne(s, t, init);
      AuthSensorStep(Run(s, init), es[|es| - 1], t);
      StepKeepsInv(Run(s, init), es[|es| - 1]);
    }
  }

  /** The session `auth_sensor t` opened in `s` has polled its way to a success report. */
  ghost predicate ReportsSuccess(s: State, t: Name, es: seq<Event>) {
    && Busy(Step(s, Cmd(AuthSensor(t))), es)
    && Run(Step(s, Cmd(AuthSensor(t))), es).session.shell == InSensor(t, ReplySensor)
  }

  /** A session opened with the flag down raises it only by admitting the typed sensor, and reports
      success only after that, with the flag down again. */
  lemma {:induction false} SuccessMeansFlag(s: State, t: Name, es: seq<Event>)
    requires Inv(s) && InAuthSensor(s.session.shell, t) && Busy(s, es)
    requires !s.session.registered && !s.session.shell.sensorAt.ReplySensor?
    ensures var u := Run(s, es);
            && (u.session.registered || u.session.shell == InSensor(t, ReplySensor) ==> t in u.sensors)
            && (u.session.shell == InSensor(t, ReplySensor) ==> !u.session.registered)
  {
    if es != [] {
      var init := es[..|es| - 1];
      BusyPrefix(s, es);
      SuccessMeansFlag(s, t, init);
      AuthSensorAdmitsOne(s, t, init);
      AuthSensorStep(Run(s, init), es[|es| - 1], t);
    }
  }

  /** `register_node` reports success only for a registered name, whatever messages arrive, exactly
      when `is_registered` was down as the command was typed or the name was registered already. */
  lemma SuccessIsTrueIff(s: State, t: Name)
    requires Inv(s) && s.session.shell.Idle?
    ensures (forall es :: ReportsSuccess(s, t, es) ==> t in Run(Step(s, Cmd(AuthSensor(t))), es).sensors)
            <==> (!s.session.registered || t in s.sensors)
  {
    var open := Step(s, Cmd(AuthSensor(t)));
    StepKeepsInv(s, Cmd(AuthSensor(t)));
    if !s.session.registered || t in s.sensors {
      forall es | ReportsSuccess(s, t, es)
        ensures t in Run(open, es).sensors
      {
        if !s.session.registered {
          SuccessMeansFlag(open, t, es);
        } else {
          AuthSensorAdmitsOne(open, t, es);
        }
      }
    } else {
      var es := [ShellStep, ShellStep];
      assert es[..0] == [] && es[..1] == [ShellStep] && [ShellStep][..0] == [];
      assert Run(open, [ShellStep]) == Step(open, ShellStep);
      assert Run(open, es) == Step(Run(open, [ShellStep]), ShellStep);
      assert ReportsSuccess(s, t, es);
    }
  }

  /** How the flag is left up: the message is accepted after the last poll, and the timeout branch
      returns without reading the flag again. */
  lemma LateAdmissionLeavesFlag(s: State, t: Name, remote: Remote)
    requires s.session.shell == InSensor(t, PollSensor(POLL_LIMIT + 1))
    requires s.session.sensorId == Some(t) && t !in s.sensors
    ensures var u := Run(s, [SensorRegister(Some(Identity(t, remote))), ShellStep]);
            u.session.shell.Idle? && u.session.registered && t in u.sensors && u.out == s.out
  {
    var m := SensorRegister(Some(Identity(t, remote)));
    assert [m, ShellStep][..1] == [m] && [m][..0] == [];
    assert Run(s, [m]) == Step(s, m);
    assert Run(s, [m, ShellStep]) == Step(Step(s, m), ShellStep);
  }

  predicate TypesSensor(e: Event) {
    e.Cmd? && (e.command.AuthSensor? || e.command.DeauthSensor?)
  }

  lemma NoNameStep(s: State, e: Event)
    requires s.session.sensorId.None? && !TypesSensor(e)
    ensures var u := Step(s, e); u.sensors.Keys <= s.sensors.Keys && u.session.sensorId.None?
  {
    match e
    case ShellStep =>
    case SensorStatus(_) =>
    case Tick =>
    case _ =>
  }

  lemma {:induction false} NoNameNoAdmission(s: State, es: seq<Event>)
    requires s.session.sensorId.None? && NoSensorCommand(es)
    ensures var u := Run(s, es); u.sensors.Keys <= s.sensors.Keys && u.session.sensorId.None?
  {
    if es != [] {
      NoNameNoAdmission(s, es[..|es| - 1]);
      NoNameStep(Run(s, es[..|es| - 1]), es[|es| - 1]);
    }
  }

  ghost predicate NoSensorCommand(es: seq<Event>) {
    forall j :: 0 <= j < |es| ==> !TypesSensor(es[j])
  }

  lemma TypedOnlyStep(s: State, t: Name, e: Event)
    requires (s.session.sensorId.None? || s.session.sensorId == Some(t)) && !TypesSensor(e)
    ensures var u := Step(s, e);
            && u.sensors.Keys <= s.sensors.Keys + {t}
            && (u.session.sensorId.None? || u.session.sensorId == Some(t))
  {
    match e
    case ShellStep =>
    case SensorStatus(_) =>
    case Tick =>
    case _ =>
  }

  lemma {:induction false} TypedOnly(s: State, t: Name, es: seq<Event>)
    requires (s.session.sensorId.None? || s.session.sensorId == Some(t)) && NoSensorCommand(es)
    ensures var u := Run(s, es);
            && u.sensors.Keys <= s.sensors.Keys + {t}
            && (u.session.sensorId.None? || u.session.sensorId == Some(t))
  {
    if es != [] {
      TypedOnly(s, t, es[..|es| - 1]);
      TypedOnlyStep(Run(s, es[..|es| - 1]), t, es[|es| - 1]);
    }
  }

  /** A registration under another name than the typed one closes the session, so that no sensor is
      added until a sensor command is typed, if and only if that other name is not registered or the
      typed one is.  The handler looks the name up before it compares: a registered sensor with the
      wrong name leaves SENSOR_ID set. */
  lemma MismatchClosesIff(s: State, t: Name, who: Identity)
    requires s.session.sensorId == Some(t) && who.name != t
    ensures (forall es :: NoSensorCommand(es) ==>
                          Run(Step(s, SensorRegister(Some(who))), es).sensors.Keys <= s.sensors.Keys)
            <==> (who.name !in s.sensors || t in s.sensors)
  {
    var u := Step(s, SensorRegister(Some(who)));
    if who.name !in s.sensors || t in s.sensors {
      forall es | NoSensorCommand(es)
        ensures Run(u, es).sensors.Keys <= s.sensors.Keys
      {
        if who.name !in s.sensors {
          NoNameNoAdmission(u, es);
        } else {
          TypedOnly(u, t, es);
        }
      }
    } else {
      var m := SensorRegister(Some(Identity(t, who.remote)));
      assert [m][..0] == [] && NoSensorCommand([m]);
      assert Run(u, [m]) == Step(u, m);
      assert t in Run(u, [m]).sensors;
    }
  }

  // ----- an auth_actuator session -----

  /** What one step may do to the list while `auth_actuator t` runs: one insertion, under t, when t
      is not listed. */
  lemma AuthActuatorStep(s: State, e: Event)
    requires Inv(s) && s.session.shell.InActuator?
    ensures var s', t := Step(s, e), s.session.shell.typed;
            && (s'.session.shell.Idle? || (s'.session.shell.InActuator? && s'.session.shell.typed == t))
            && s'.sensors.Keys == s.sensors.Keys
            && if s'.list == s.list then s'.session.registered ==> s.session.registered
               else !L.Lists(s.list, t) && exists r :: s'.list == L.Insert(s.list, t, r)
  {
    match e
    case ActuatorRegister(p) =>
      if Step(s, e).list != s.list {
        assert Step(s, e).list == L.Insert(s.list, p.value.name, p.value.remote);
      }
    case ShellStep =>
    case SensorStatus(_) =>
    case Tick =>
    case _ =>
  }

  lemma InsertLists(h: L.Heap, t: Name, r: Remote)
    requires L.Ordered(h)
    ensures L.Lists(L.Insert(h, t, r), t)
  {
    L.InsertListed(h, t, r);
    assert L.HasName(L.Insert(h, t, r), |h.nodes|, t);
  }

  /** In one session at most one actuator is admitted, and only under the typed name: either the
      list is as it was, or one record more with that name, which was not listed, heads it. */
  lemma {:induction false} AuthActuatorAdmitsOne(s: State, es: seq<Event>)
    requires Inv(s) && s.session.shell.InActuator? && Busy(s, es)
    ensures var u, t := Run(s, es), s.session.shell.typed;
            && Inv(u)
            && (u.session.shell.Idle? || (u.session.shell.InActuator? && u.session.shell.typed == t))
            && u.sensors.Keys == s.sensors.Keys
            && if u.list == s.list then u.session.registered ==> s.session.registered
               else !L.Lists(s.list, t) && L.Lists(u.list, t) && exists r :: u.list == L.Insert(s.list, t, r)
  {
    if es != [] {
      var init := es[..|es| - 1];
      BusyPrefix(s, es);
      AuthActuatorAdmitsOne(s, init);
      var u := Run(s, init);
      AuthActuatorStep(u, es[|es| - 1]);
      StepKeepsInv(u, es[|es| - 1]);
      var v := Step(u, es[|es| - 1]);
      if v.list != u.list {
        var r :| v.list == L.Insert(u.list, s.session.shell.typed, r);
        InsertLists(u.list, s.session.shell.typed, r);
      }
    }
  }

  ghost predicate ReportsActuator(s: State, t: Name, es: seq<Event>) {
    && Busy(Step(s, Cmd(AuthActuator(t))), es)
    && Run(Step(s, Cmd(AuthActuator(t))), es).session.shell == InActuator(t, ReplyActuator)
  }

  predicate Polled(pc: ActuatorPc) {
    pc.ReplyActuator? || pc.Fetch?
  }

  lemma {:induction false} ActuatorSuccessMeansFlag(s: State, es: seq<Event>)
    requires Inv(s) && s.session.shell.InActuator? && Busy(s, es)
    requires !s.session.registered && !Polled(s.session.shell.actuatorAt)
    ensures var u := Run(s, es);
            u.session.registered || (u.session.shell.InActuator? && Polled(u.session.shell.actuatorAt)) ==>
              L.Lists(u.list, s.session.shell.typed)
  {
    if es != [] {
      var init, e := es[..|es| - 1], es[|es| - 1];
      BusyPrefix(s, es);
      ActuatorSuccessMeansFlag(s, init);
      AuthActuatorAdmitsOne(s, init);
      AuthActuatorAdmitsOne(s, es);
      var u := Run(s, init);
      AuthActuatorStep(u, e);
      if Step(u, e).list == u.list && e != ShellStep {
        OthersKeepShell(u, e);
      }
    }
  }

  lemma OthersKeepShell(s: State, e: Event)
    requires e != ShellStep && !s.session.shell.Idle?
    ensures Step(s, e).session.shell == s.session.shell
  {
  }

  lemma BusyCons(s: State, e: Event, es: seq<Event>)
    requires !s.session.shell.Idle? && Busy(Step(s, e), es)
    ensures Busy(s, [e] + es) && Run(s, [e] + es) == Run(Step(s, e), es)
  {
    assert [e][..0] == [];
    assert Run(s, [e]) == Step(s, e);
    RunConcat(s, [e], es);
    forall k | 0 <= k < |[e] + es|
      ensures !Run(s, ([e] + es)[..k]).session.shell.Idle?
    {
      if k > 0 {
        assert ([e] + es)[..k] == [e] + es[..k - 1];
        RunConcat(s, [e], es[..k - 1]);
      }
    }
  }

  /** A `node_exists` walk for an unlisted name, left alone, reaches the polling loop. */
  lemma WalkToPoll(s: State, t: Name, ptr: int) returns (es: seq<Event>)
    requires Inv(s) && !L.Lists(s.list, t) && (ptr == L.NULL || ptr in L.Listed(s.list))
    requires s.session.shell == InActuator(t, Check(Some(t), ptr))
    ensures Busy(s, es) && Run(s, es) == s.(session := ActuatorAt(s.session, t, PollActuator(0)))
    decreases ptr
  {
    L.ReachProps(s.list, s.list.head);
    var u := Step(s, ShellStep);
    StepKeepsInv(s, ShellStep);
    if ptr == L.NULL {
      assert Busy(u, []);
      BusyCons(s, ShellStep, []);
      es := [ShellStep];
      assert es == [ShellStep] + [];
    } else {
      assert L.InHeap(s.list, ptr) && !L.HasName(s.list, ptr, t);
      var rest := WalkToPoll(u, t, s.list.nodes[ptr].next);
      BusyCons(s, ShellStep, rest);
      es := [ShellStep] + rest;
    }
  }

  /** With the flag left up, a session for an unlisted actuator reports success with no message. */
  lemma StaleFlagRun(s: State, t: Name) returns (es: seq<Event>)
    requires Inv(s) && s.session.shell.Idle? && s.session.registered && !L.Lists(s.list, t)
    ensures ReportsActuator(s, t, es) && Run(Step(s, Cmd(AuthActuator(t))), es).list == s.list
  {
    var open := Step(s, Cmd(AuthActuator(t)));
    StepKeepsInv(s, Cmd(AuthActuator(t)));
    var u := Step(open, ShellStep);
    StepKeepsInv(open, ShellStep);
    L.ReachProps(s.list, s.list.head);
    var walk := WalkToPoll(u, t, s.list.head);
    BusyCons(open, ShellStep, walk);
    var a := [ShellStep] + walk;
    es := a + [ShellStep];
    RunConcat(open, a, [ShellStep]);
    assert [ShellStep][..0] == [];
    assert Run(open, es) == Step(Run(open, a), ShellStep);
    assert forall k :: 0 <= k < |a| ==> es[..k] == a[..k];
    assert es[..|a|] == a;
  }

  /** The same holds for `auth_actuator`, which shares the flag with the sensor sessions. */
  lemma ActuatorSuccessIsTrueIff(s: State, t: Name)
    requires Inv(s) && s.session.shell.Idle?
    ensures (forall es :: ReportsActuator(s, t, es) ==> L.Lists(Run(Step(s, Cmd(AuthActuator(t))), es).list, t))
            <==> (!s.session.registered || L.Lists(s.list, t))
  {
    var open := Step(s, Cmd(AuthActuator(t)));
    StepKeepsInv(s, Cmd(AuthActuator(t)));
    if !s.session.registered || L.Lists(s.list, t) {
      forall es | ReportsActuator(s, t, es)
        ensures L.Lists(Run(open, es).list, t)
      {
        if !s.session.registered {
          ActuatorSuccessMeansFlag(open, es);
        } else {
          AuthActuatorAdmitsOne(open, es);
        }
      }
    } else {
      var es := StaleFlagRun(s, t);
      assert ReportsActuator(s, t, es);
    }
  }

  predicate TypesActuator(e: Event) {
    e.Cmd? && (e.command.AuthActuator? || e.command.DeauthActuator?)
  }

  ghost predicate NoActuatorCommand(es: seq<Event>) {
    forall j :: 0 <= j < |es| ==> !TypesActuator(es[j])
  }

  lemma NoActuatorNameStep(s: State, e: Event)
    requires s.session.actuatorId.None? && !TypesActuator(e)
    ensures var u := Step(s, e); |u.list.nodes| == |s.list.nodes| && u.session.actuatorId.None?
  {
    match e
    case ShellStep =>
    case _ =>
  }

  /** Once ACTUATOR_ID is cleared, by a mismatch or by an empty payload, no record is added until an
      actuator command is typed. */
  lemma {:induction false} NoActuatorNameNoAdmission(s: State, es: seq<Event>)
    requires s.session.actuatorId.None? && NoActuatorCommand(es)
    ensures var u := Run(s, es); |u.list.nodes| == |s.list.nodes| && u.session.actuatorId.None?
  {
    if es != [] {
      NoActuatorNameNoAdmission(s, es[..|es| - 1]);
      NoActuatorNameStep(Run(s, es[..|es| - 1]), es[|es| - 1]);
    }
  }

  // ----- the flag between sessions -----

  /** A registration message, of either kind, is accepted. */
  ghost predicate Accepts(s: State, e: Event) {
    || (e.SensorRegister? && OnSensorRegister(s, e.identity).1 == Changed)
    || (e.ActuatorRegister? && OnActuatorRegister(s, e.identity).1 == Changed)
  }

  predicate Polling(sh: Shell) {
    || (sh.InSensor? && sh.sensorAt.PollSensor?)
    || (sh.InActuator? && sh.actuatorAt.PollActuator?)
  }

  predicate Replying(sh: Shell) {
    || (sh.InSensor? && sh.sensorAt.ReplySensor?)
    || (sh.InActuator? && sh.actuatorAt.ReplyActuator?)
  }

  /** A poll of `register_node` takes the success branch. */
  ghost predicate Succeeds(s: State, e: Event) {
    e == ShellStep && Polling(s.session.shell) && Replying(Step(s, e).session.shell)
  }

  lemma FlagStep(s: State, e: Event)
    ensures Step(s, e).session.registered <==> Accepts(s, e) || (s.session.registered && !Succeeds(s, e))
  {
    match e
    case ShellStep =>
    case _ =>
  }
}
