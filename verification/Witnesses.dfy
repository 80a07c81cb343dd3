/** Runs from power-up that reach the states in which a property of the program fails. */
module Witnesses {
  import opened Base
  import opened Gateway
  import opened Traversal
  import opened Watchdog
  import opened Solo
  import L = SharedList

  /** Two steps at the end of a run. */
  lemma RunTwo(s: State, es: seq<Event>, a: Event, b: Event)
    ensures Run(s, es + [a, b]) == Step(Step(Run(s, es), a), b)
  {
    hide Step;
    assert es + [a, b] == es + [a] + [b];
    RunSnoc(s, es, a);
    RunSnoc(s, es + [a], b);
  }

  // ----- one registered sensor that has fallen silent -----

  /** The gateway engaged, with one confirmed sensor and nothing else. */
  function Armed(n: Name, r: Remote, wdt: nat, timeout: bool, alarm: Alarm): State {
    State(map[n := Sensor(r, wdt)], L.EMPTY, Flags(true, false, timeout),
          Session(false, None, None, Idle), alarm, [Auth(r)])
  }

  function Registering(n: Name, r: Remote): seq<Event> {
    [Cmd(AuthSensor(n)), ShellStep] + [SensorRegister(Some(Identity(n, r))), ShellStep] + [ShellStep, Cmd(Engage)]
  }

  lemma RegisteringArms(n: Name, r: Remote)
    ensures Run(INIT, Registering(n, r)) == Armed(n, r, 0, false, Guard)
  {
    var a, m := [Cmd(AuthSensor(n)), ShellStep], SensorRegister(Some(Identity(n, r)));
    assert Run(INIT, []) == INIT;
    hide Run;
    RunTwo(INIT, [], Cmd(AuthSensor(n)), ShellStep);
    assert [] + a == a;
    var s := Run(INIT, a);
    assert s == INIT.(session := Session(false, Some(n), None, InSensor(n, PollSensor(0))));
    RunTwo(INIT, a, m, ShellStep);
    var t := Run(INIT, a + [m, ShellStep]);
    assert t == s.(session := s.session.(shell := InSensor(n, ReplySensor)), sensors := map[n := Sensor(r, 0)]);
    RunTwo(INIT, a + [m, ShellStep], ShellStep, Cmd(Engage));
    assert t.out + [Auth(r)] == [Auth(r)];
  }

  lemma ArmedTick(n: Name, r: Remote, wdt: nat, timeout: bool, alarm: Alarm)
    ensures Step(Armed(n, r, wdt, timeout, alarm), Tick) == Armed(n, r, Age(wdt), timeout || wdt > WDT_LIMIT, alarm)
  {
    var s := Armed(n, r, wdt, timeout, alarm);
    assert Aged(s.sensors) == map[n := Sensor(r, Age(wdt))];
    assert Expired(s.sensors) <==> wdt > WDT_LIMIT by {
      assert n in s.sensors && s.sensors[n].wdt == wdt;
    }
  }

  /** Three ticks without a sign of life. */
  function Silence(n: Name, r: Remote): seq<Event> {
    Registering(n, r) + [Tick] + [Tick, Tick]
  }

  lemma SilenceExpires(n: Name, r: Remote)
    ensures Run(INIT, Silence(n, r)) == Armed(n, r, 3, false, Guard)
    ensures SilentFor(Silence(n, r), n, 3)
  {
    var es := Registering(n, r);
    RegisteringArms(n, r);
    RunSnoc(INIT, es, Tick);
    RunTwo(INIT, es + [Tick], Tick, Tick);
    ArmedTick(n, r, 0, false, Guard);
    ArmedTick(n, r, 1, false, Guard);
    ArmedTick(n, r, 2, false, Guard);
    StaysSilent(Silence(n, r), n);
  }

  lemma StaysSilent(es: seq<Event>, n: Name)
    requires n in Run(INIT, es).sensors && Run(INIT, es).sensors[n].wdt == 3
    ensures SilentFor(es, n, 3)
  {
    LastResetExists(es, n);
    var i :| LastReset(es, i, n);
    CounterIsHistory(es, n, i);
  }

  /** A fourth silent tick with the round it causes run up to its reset of `is_timeout`. */
  function BeforeReset(n: Name, r: Remote): seq<Event> {
    Silence(n, r) + [Tick, AlarmStep] + [AlarmStep]
  }

  /** The fifth silent tick falls before that reset and is lost with it: the next test is no round
      although the sensor has been silent all along and nobody disengaged. */
  lemma TickBeforeResetIsLost(n: Name, r: Remote)
    ensures var es := BeforeReset(n, r);
            && SilentFor(es, n, 3) && Run(INIT, es).flags.engaged && Run(INIT, es).alarm == Clear
            && var u := Run(INIT, es + [Tick, AlarmStep]);
               u.alarm == Guard && u.flags.engaged && !StartsRound(u) && SilentFor(es + [Tick, AlarmStep], n, 3)
  {
    var es := Silence(n, r);
    SilenceExpires(n, r);
    RunTwo(INIT, es, Tick, AlarmStep);
    ArmedTick(n, r, 3, false, Guard);
    RunSnoc(INIT, es + [Tick, AlarmStep], AlarmStep);
    assert Run(INIT, es + [Tick, AlarmStep]) == Armed(n, r, 3, true, Fire(L.NULL));
    assert Run(INIT, BeforeReset(n, r)) == Armed(n, r, 3, true, Clear);
    RunTwo(INIT, BeforeReset(n, r), Tick, AlarmStep);
    ArmedTick(n, r, 3, true, Clear);
    assert Run(INIT, BeforeReset(n, r) + [Tick, AlarmStep]) == Armed(n, r, 3, false, Guard);
    StaysSilent(BeforeReset(n, r), n);
    StaysSilent(BeforeReset(n, r) + [Tick, AlarmStep], n);
  }

  // ----- the flag left up at the prompt -----

  /** With no auth session at all: a registration between the `ht_del` of a deauthorization and the
      reset of SENSOR_ID leaves the flag up, and the sensor in the table untold. */
  lemma DeauthLeavesFlag(n: Name, r: Remote)
    ensures var m := SensorRegister(Some(Identity(n, r)));
            var u := Run(INIT, [Cmd(DeauthSensor(n)), ShellStep] + [m, ShellStep]);
            u.session.shell.Idle? && u.session.registered && n in u.sensors && u.out == []
  {
    var a, m := [Cmd(DeauthSensor(n)), ShellStep], SensorRegister(Some(Identity(n, r)));
    RunTwo(INIT, [], Cmd(DeauthSensor(n)), ShellStep);
    assert [] + a == a;
    assert Run(INIT, a) == INIT.(session := Session(false, Some(n), None, InSensor(n, CloseSensor)));
    RunTwo(INIT, a, m, ShellStep);
  }

  /** A registered and confirmed sensor is removed and told so, and a registration in the same gap
      brings it back: in the table at the prompt, with DEAU as the latest word to it. */
  lemma RemovedSensorReturns(n: Name, r: Remote)
    ensures var m := SensorRegister(Some(Identity(n, r)));
            var removed := Run(INIT, Registering(n, r) + [Cmd(DeauthSensor(n)), ShellStep]);
            var u := Run(INIT, Registering(n, r) + [Cmd(DeauthSensor(n)), ShellStep] + [m, ShellStep]);
            && removed.sensors == map[] && removed.out == [Auth(r), Deau(r)]
            && u.session.shell.Idle? && u.session.registered && n in u.sensors && u.out == [Auth(r), Deau(r)]
  {
    var a, m := Registering(n, r), SensorRegister(Some(Identity(n, r)));
    RegisteringArms(n, r);
    RunTwo(INIT, a, Cmd(DeauthSensor(n)), ShellStep);
    var removed := Run(INIT, a + [Cmd(DeauthSensor(n)), ShellStep]);
    assert removed.sensors == map[] && removed.out == [Auth(r), Deau(r)];
    assert removed.session == Session(false, Some(n), None, InSensor(n, CloseSensor));
    RunTwo(INIT, a + [Cmd(DeauthSensor(n)), ShellStep], m, ShellStep);
  }

  // ----- a mismatch that closes nothing -----

  /** In a session for t, a registration from an already registered sensor b leaves SENSOR_ID set, and
      the next one, under t, is admitted. */
  lemma RegisteredMismatchLeavesOpen(b: Name, rb: Remote, t: Name, r: Remote, x: Remote)
    requires b != t
    ensures var m, n := SensorRegister(Some(Identity(b, x))), SensorRegister(Some(Identity(t, r)));
            var u := Run(INIT, Registering(b, rb) + [Cmd(AuthSensor(t)), ShellStep] + [m, n]);
            t in u.sensors && u.session.registered
  {
    var a := Registering(b, rb);
    RegisteringArms(b, rb);
    RunTwo(INIT, a, Cmd(AuthSensor(t)), ShellStep);
    RunTwo(INIT, a + [Cmd(AuthSensor(t)), ShellStep],
           SensorRegister(Some(Identity(b, x))), SensorRegister(Some(Identity(t, r))));
  }

  // ----- actuators -----

  function One(t: Name, r: Remote): L.Heap {
    L.Insert(L.EMPTY, t, r)
  }

  lemma OneLists(t: Name, r: Remote, name: Name)
    ensures L.Ordered(One(t, r)) && L.Listed(One(t, r)) == [0]
    ensures L.Lists(One(t, r), name) <==> name == t
  {
    L.InsertListed(L.EMPTY, t, r);
    assert L.HasName(One(t, r), 0, t);
  }

  /** One accepted registration, up to its poll. */
  function Admitting(t: Name, r: Remote): seq<Event> {
    [Cmd(AuthActuator(t)), ShellStep] + [ShellStep, ActuatorRegister(Some(Identity(t, r)))]
  }

  lemma AdmittingInserts(t: Name, r: Remote)
    ensures Run(INIT, Admitting(t, r)) ==
            INIT.(list := One(t, r), session := Session(true, None, Some(t), InActuator(t, PollActuator(0))))
  {
    var a, m := [Cmd(AuthActuator(t)), ShellStep], ActuatorRegister(Some(Identity(t, r)));
    RunTwo(INIT, [], Cmd(AuthActuator(t)), ShellStep);
    assert [] + a == a;
    var s := Run(INIT, a);
    assert s == INIT.(session := Session(false, None, Some(t), InActuator(t, Check(Some(t), L.NULL))));
    RunTwo(INIT, a, ShellStep, m);
    assert !L.Lists(L.EMPTY, t);
  }

  function ActuatorRun(t: Name, r: Remote): seq<Event> {
    Admitting(t, r) + [ShellStep, ActuatorRegister(None)]
  }

  lemma ActuatorRunReplies(t: Name, r: Remote)
    ensures Run(INIT, ActuatorRun(t, r)) ==
            INIT.(list := One(t, r), session := Session(false, None, None, InActuator(t, ReplyActuator)))
    ensures L.Lists(One(t, r), t)
  {
    AdmittingInserts(t, r);
    RunTwo(INIT, Admitting(t, r), ShellStep, ActuatorRegister(None));
    OneLists(t, r, t);
  }

  /** A registration accepted, its poll successful, then a message without a payload: ACTUATOR_ID is
      gone when `get_node` is called, and the session ends with the actuator listed and nothing sent. */
  lemma ClearedNameTellsNobody(t: Name, r: Remote)
    ensures var u := Run(INIT, ActuatorRun(t, r) + [ShellStep, ShellStep] + [ShellStep]);
            u.session.shell.Idle? && L.Lists(u.list, t) && u.out == []
  {
    var es := ActuatorRun(t, r);
    ActuatorRunReplies(t, r);
    RunTwo(INIT, es, ShellStep, ShellStep);
    RunSnoc(INIT, es + [ShellStep, ShellStep], ShellStep);
    var s := Run(INIT, es);
    assert Step(s, ShellStep) == s.(session := Session(false, None, None, InActuator(t, Fetch(None, 0))));
  }

  function Authorizing(t: Name, r: Remote): seq<Event> {
    Admitting(t, r) + [ShellStep, ShellStep] + [ShellStep]
  }

  lemma AuthorizingTells(t: Name, r: Remote)
    ensures Run(INIT, Authorizing(t, r)) == INIT.(list := One(t, r), out := [Auth(r)])
  {
    var es := Admitting(t, r);
    AdmittingInserts(t, r);
    RunTwo(INIT, es, ShellStep, ShellStep);
    assert Run(INIT, es + [ShellStep, ShellStep]) ==
           INIT.(list := One(t, r), session := Session(false, None, Some(t), InActuator(t, Fetch(Some(t), 0))));
    RunSnoc(INIT, es + [ShellStep, ShellStep], ShellStep);
    assert [] + [Auth(r)] == [Auth(r)];
  }

  /** A `deauth_actuator t` with t unlisted: its search stands at another actuator when a registration
      under t is accepted behind it.  The command finds nothing and ends with t listed, the flag up,
      and nobody told. */
  lemma RegistrationPassesSearch(b: Name, rb: Remote, t: Name, r: Remote)
    requires b != t
    ensures var m := ActuatorRegister(Some(Identity(t, r)));
            var searching := Run(INIT, Authorizing(b, rb) + [Cmd(DeauthActuator(t)), ShellStep]);
            var u := Run(INIT, Authorizing(b, rb) + [Cmd(DeauthActuator(t)), ShellStep] + [m, ShellStep] + [ShellStep]);
            && searching.session.shell == InDrop(t, Search(Some(t), 0, L.NULL)) && !L.Lists(searching.list, t)
            && u.session.shell.Idle? && L.Lists(u.list, t) && u.session.registered && u.out == [Auth(rb)]
  {
    var a, m := Authorizing(b, rb), ActuatorRegister(Some(Identity(t, r)));
    AuthorizingTells(b, rb);
    RunTwo(INIT, a, Cmd(DeauthActuator(t)), ShellStep);
    var c := a + [Cmd(DeauthActuator(t)), ShellStep];
    var s := Run(INIT, c);
    assert s == INIT.(list := One(b, rb), out := [Auth(rb)],
                      session := Session(false, None, Some(t), InDrop(t, Search(Some(t), 0, L.NULL))));
    OneLists(b, rb, t);
    RunTwo(INIT, c, m, ShellStep);
    var g := L.Insert(One(b, rb), t, r);
    assert Run(INIT, c + [m, ShellStep]) ==
           s.(list := g, session := Session(true, None, Some(t), InDrop(t, CloseDrop)));
    RunSnoc(INIT, c + [m, ShellStep], ShellStep);
    L.InsertListed(One(b, rb), t, r);
    assert L.HasName(g, 1, t);
  }
}
