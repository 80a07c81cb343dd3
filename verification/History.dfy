/** The gateway's state read off its event history alone.

    A condition that some events establish and others end holds after a run exactly when it was
    established and has not been ended since; each global of the gateway is such a condition. */
module History {
  import opened Base
  import opened Gateway
  import opened Invariant
  import opened Sessions
  import opened Deauth
  import opened Latency
  import opened Latch
  import L = SharedList

  type Happening = (State, Event) -> bool

  ghost predicate At(es: seq<Event>, k: nat, p: Happening) {
    k < |es| && p(Run(INIT, es[..k]), es[k])
  }

  /** `begin` has happened, and `end` has not happened after it. */
  ghost predicate Since(es: seq<Event>, begin: Happening, end: Happening) {
    Latched((k: nat) => At(es, k, begin), (k: nat) => At(es, k, end), |es|)
  }

  /** In every step from a state that keeps the invariant, `holds` is begun by `begin` and ended by
      `end`. */
  ghost predicate Governs(begin: Happening, end: Happening, holds: State -> bool) {
    && !holds(INIT)
    && forall s, e :: Inv(s) ==> (holds(Step(s, e)) <==> begin(s, e) || (holds(s) && !end(s, e)))
  }

  lemma HoldsIffSince(es: seq<Event>, begin: Happening, end: Happening, holds: State -> bool)
    requires Governs(begin, end, holds)
    ensures holds(Run(INIT, es)) <==> Since(es, begin, end)
  {
    hide Step, Inv;
    forall k: nat | k < |es|
      ensures holds(Run(INIT, es[..k + 1])) <==>
              At(es, k, begin) || (holds(Run(INIT, es[..k])) && !At(es, k, end))
    {
      assert es[..k + 1][..k] == es[..k];
      Reachable(es[..k]);
    }
    assert es[..0] == [] && es[..|es|] == es;
    var holdsAt := (k: nat) => k <= |es| && holds(Run(INIT, es[..k]));
    assert !holdsAt(0) by {
      assert Run(INIT, []) == INIT;
    }
    HoldsIffLatched((k: nat) => At(es, k, begin), (k: nat) => At(es, k, end), holdsAt, |es|);
  }

  // ----- the three flags -----

  /** The system is engaged if and only if the operator has engaged it and nobody has disengaged it
      since; it starts disengaged. */
  lemma EngagedHistory(es: seq<Event>)
    ensures Run(INIT, es).flags.engaged <==> Since(es, Engages, Disengages)
  {
    forall s, e
      ensures Step(s, e).flags.engaged <==> Engages(s, e) || (s.flags.engaged && !Disengages(s, e))
    {
      EngagedMoves(s, e);
    }
    HoldsIffSince(es, Engages, Disengages, (s: State) => s.flags.engaged);
  }

  lemma EngagedMoves(s: State, e: Event)
    ensures Step(s, e).flags.engaged <==> Engages(s, e) || (s.flags.engaged && !Disengages(s, e))
  {
  }

  predicate Fires(s: State, e: Event) {
    s.flags.engaged && Triggers(s, e)
  }

  lemma FiredMoves(s: State, e: Event)
    ensures Step(s, e).flags.fired <==> Fires(s, e) || (s.flags.fired && !Disengages(s, e))
  {
  }

  /** `is_sensor_fired` is up if and only if, while engaged, the test button was pressed or a registered
      sensor sent a tap, and nobody has disengaged the system since; rounds do not lower it. */
  lemma FiredHistory(es: seq<Event>)
    ensures Run(INIT, es).flags.fired <==> Since(es, Fires, Disengages)
  {
    forall s, e
      ensures Step(s, e).flags.fired <==> Fires(s, e) || (s.flags.fired && !Disengages(s, e))
    {
      FiredMoves(s, e);
    }
    HoldsIffSince(es, Fires, Disengages, (s: State) => s.flags.fired);
  }

  predicate TimesOut(s: State, e: Event) {
    s.flags.engaged && e == Tick && Expired(s.sensors)
  }

  predicate Quiets(s: State, e: Event) {
    Disengages(s, e) || (e == AlarmStep && s.alarm == Clear)
  }

  lemma TimeoutMoves(s: State, e: Event)
    ensures Step(s, e).flags.timeout <==> TimesOut(s, e) || (s.flags.timeout && !Quiets(s, e))
  {
  }

  /** `is_timeout` is up if and only if, while engaged, a tick found a sensor past the limit, and since
      then nobody has disengaged the system and no round has ended. */
  lemma TimeoutHistory(es: seq<Event>)
    ensures Run(INIT, es).flags.timeout <==> Since(es, TimesOut, Quiets)
  {
    forall s, e
      ensures Step(s, e).flags.timeout <==> TimesOut(s, e) || (s.flags.timeout && !Quiets(s, e))
    {
      TimeoutMoves(s, e);
    }
    HoldsIffSince(es, TimesOut, Quiets, (s: State) => s.flags.timeout);
  }

  // ----- the sensor table and SENSOR_ID -----

  /** A registration under n while SENSOR_ID is n. */
  predicate RegistersSensor(s: State, e: Event, n: Name) {
    && s.session.sensorId == Some(n)
    && e.SensorRegister? && e.identity.Some? && e.identity.value.name == n
  }

  /** The `ht_del` of a `deauth_sensor` while SENSOR_ID is n. */
  predicate DeletesSensor(s: State, e: Event, n: Name) {
    && s.session.sensorId == Some(n)
    && e == ShellStep && s.session.shell.InSensor? && s.session.shell.sensorAt.DeleteSensor?
  }

  lemma TableMoves(s: State, e: Event, n: Name)
    ensures n in Step(s, e).sensors <==> RegistersSensor(s, e, n) || (n in s.sensors && !DeletesSensor(s, e, n))
  {
    match e
    case SensorRegister(_) =>
    case ShellStep =>
    case _ =>
  }

  /** A name is in the table if and only if it has registered while SENSOR_ID was set to it, and no
      `deauth_sensor` with SENSOR_ID set to it has reached its `ht_del` since. */
  lemma TableHistory(es: seq<Event>, n: Name)
    ensures n in Run(INIT, es).sensors <==>
            Since(es, (s, e) => RegistersSensor(s, e, n), (s, e) => DeletesSensor(s, e, n))
  {
    forall s, e
      ensures n in Step(s, e).sensors <==> RegistersSensor(s, e, n) || (n in s.sensors && !DeletesSensor(s, e, n))
    {
      TableMoves(s, e, n);
    }
    HoldsIffSince(es, (s, e) => RegistersSensor(s, e, n), (s, e) => DeletesSensor(s, e, n),
                  (s: State) => n in s.sensors);
  }

  /** A sensor command for t that the shell reads. */
  predicate NamesSensor(s: State, e: Event, t: Name) {
    s.session.shell.Idle? && (e == Cmd(AuthSensor(t)) || e == Cmd(DeauthSensor(t)))
  }

  /** A registration under another, unregistered name. */
  predicate Mismatches(s: State, e: Event, t: Name) {
    e.SensorRegister? && e.identity.Some? && e.identity.value.name != t && e.identity.value.name !in s.sensors
  }

  /** The shell step with which a sensor command returns to the prompt: the name was registered as it
      opened, the 51 polls are over, or the last step has come. */
  predicate EndsSensorCommand(s: State, e: Event) {
    && e == ShellStep && s.session.shell.InSensor?
    && match s.session.shell.sensorAt
       case OpenSensor => Known(s)
       case PollSensor(count) => count >= 51
       case ReplySensor => true
       case DeleteSensor => false
       case CloseSensor => true
  }

  predicate DropsSensorId(s: State, e: Event, t: Name) {
    Mismatches(s, e, t) || EndsSensorCommand(s, e)
  }

  lemma SensorIdMoves(s: State, e: Event, t: Name)
    requires SessionOk(s.session)
    ensures Step(s, e).session.sensorId == Some(t) <==>
            NamesSensor(s, e, t) || (s.session.sensorId == Some(t) && !DropsSensorId(s, e, t))
  {
    match e
    case SensorRegister(_) =>
    case ActuatorRegister(_) =>
    case ShellStep =>
    case Cmd(_) =>
    case _ =>
  }

  /** SENSOR_ID is t if and only if a sensor command for t was read, and since then no registration
      under another, unregistered name has come and the command has not ended.  Messages without a
      payload, registered names and repeated registrations under t leave it set. */
  lemma SensorIdHistory(es: seq<Event>, t: Name)
    ensures Run(INIT, es).session.sensorId == Some(t) <==>
            Since(es, (s, e) => NamesSensor(s, e, t), (s, e) => DropsSensorId(s, e, t))
  {
    forall s, e | Inv(s)
      ensures Step(s, e).session.sensorId == Some(t) <==>
              NamesSensor(s, e, t) || (s.session.sensorId == Some(t) && !DropsSensorId(s, e, t))
    {
      SensorIdMoves(s, e, t);
    }
    HoldsIffSince(es, (s, e) => NamesSensor(s, e, t), (s, e) => DropsSensorId(s, e, t),
                  (s: State) => s.session.sensorId == Some(t));
  }

  // ----- the actuator list and ACTUATOR_ID -----

  predicate RegistersActuator(s: State, e: Event, n: Name) {
    && s.session.actuatorId == Some(n)
    && e.ActuatorRegister? && e.identity.Some? && e.identity.value.name == n
  }

  predicate UnlinksActuator(s: State, e: Event, n: Name) {
    Unlinking(s, e) && s.session.shell.typed == n
  }

  lemma ListMoves(s: State, e: Event, n: Name)
    requires Inv(s)
    ensures L.Lists(Step(s, e).list, n) <==>
            RegistersActuator(s, e, n) || (L.Lists(s.list, n) && !UnlinksActuator(s, e, n))
  {
    if Unlinking(s, e) {
      UnlinkStepRemovesTyped(s, n);
    } else if Inserted(s, e) == 1 {
      var who := e.identity.value;
      InsertLists(s.list, who.name, who.remote);
      if n != who.name {
        InsertListsOnly(s.list, who.name, who.remote, n);
      }
    } else {
      OtherStepsKeepList(s, e);
    }
  }

  ghost predicate ListedAs(s: State, n: Name) {
    L.Lists(s.list, n)
  }

  /** An actuator is listed if and only if it has registered while ACTUATOR_ID was set to it, and no
      `deauth_actuator` has unlinked it since. */
  lemma ListHistory(es: seq<Event>, n: Name)
    ensures L.Lists(Run(INIT, es).list, n) <==>
            Since(es, (s, e) => RegistersActuator(s, e, n), (s, e) => UnlinksActuator(s, e, n))
  {
    forall s, e | Inv(s)
      ensures ListedAs(Step(s, e), n) <==>
              RegistersActuator(s, e, n) || (ListedAs(s, n) && !UnlinksActuator(s, e, n))
    {
      ListMoves(s, e, n);
    }
    assert !ListedAs(INIT, n);
    hide Step, Inv, L.Lists;
    HoldsIffSince(es, (s, e) => RegistersActuator(s, e, n), (s, e) => UnlinksActuator(s, e, n),
                  (s: State) => ListedAs(s, n));
  }

  predicate NamesActuator(s: State, e: Event, t: Name) {
    s.session.shell.Idle? && (e == Cmd(AuthActuator(t)) || e == Cmd(DeauthActuator(t)))
  }

  /** An actuator registration with no payload, or one under another name while t is not listed. */
  ghost predicate MismatchesActuator(s: State, e: Event, t: Name) {
    e.ActuatorRegister? && (e.identity.None? || (e.identity.value.name != t && !L.Lists(s.list, t)))
  }

  /** The shell step with which an actuator command returns to the prompt. */
  predicate EndsActuatorCommand(s: State, e: Event) {
    && e == ShellStep
    && match s.session.shell
       case InDrop(_, pc) => pc.CloseDrop?
       case InActuator(_, OpenActuator) => false
       case InActuator(_, Check(target, ptr)) => Matches(s.list, ptr, target)
       case InActuator(_, PollActuator(count)) => count >= 51
       case InActuator(_, ReplyActuator) => false
       case InActuator(_, Fetch(target, ptr)) => !L.InHeap(s.list, ptr) || Matches(s.list, ptr, target)
       case _ => false
  }

  ghost predicate DropsActuatorId(s: State, e: Event, t: Name) {
    MismatchesActuator(s, e, t) || EndsActuatorCommand(s, e)
  }

  lemma ActuatorIdMoves(s: State, e: Event, t: Name)
    requires SessionOk(s.session)
    ensures Step(s, e).session.actuatorId == Some(t) <==>
            NamesActuator(s, e, t) || (s.session.actuatorId == Some(t) && !DropsActuatorId(s, e, t))
  {
    match e
    case SensorRegister(_) =>
    case ActuatorRegister(_) =>
    case ShellStep =>
    case Cmd(_) =>
    case _ =>
  }

  /** ACTUATOR_ID is t if and only if an actuator command for t was read, and since then no message
      without a payload has come, none under another name while t was not listed, and the command has
      not ended. */
  lemma ActuatorIdHistory(es: seq<Event>, t: Name)
    ensures Run(INIT, es).session.actuatorId == Some(t) <==>
            Since(es, (s, e) => NamesActuator(s, e, t), (s, e) => DropsActuatorId(s, e, t))
  {
    forall s, e | Inv(s)
      ensures Step(s, e).session.actuatorId == Some(t) <==>
              NamesActuator(s, e, t) || (s.session.actuatorId == Some(t) && !DropsActuatorId(s, e, t))
    {
      ActuatorIdMoves(s, e, t);
    }
    HoldsIffSince(es, (s, e) => NamesActuator(s, e, t), (s, e) => DropsActuatorId(s, e, t),
                  (s: State) => s.session.actuatorId == Some(t));
  }
  // ----- is_registered -----

  /** A registration under the session's name while that is not in the table or not listed. */
  ghost predicate Admitted(s: State, e: Event) {
    || (s.session.sensorId.Some? && RegistersSensor(s, e, s.session.sensorId.value) &&
        s.session.sensorId.value !in s.sensors)
    || (s.session.actuatorId.Some? && RegistersActuator(s, e, s.session.actuatorId.value) &&
        !L.Lists(s.list, s.session.actuatorId.value))
  }

  /** One of the 51 polls of `register_node`. */
  predicate Polls(s: State, e: Event) {
    && e == ShellStep
    && match s.session.shell
       case InSensor(_, PollSensor(count)) => count <= 50
       case InActuator(_, PollActuator(count)) => count <= 50
       case _ => false
  }

  lemma RegisteredMoves(s: State, e: Event)
    ensures Step(s, e).session.registered <==> Admitted(s, e) || (s.session.registered && !Polls(s, e))
  {
    match e
    case SensorRegister(_) =>
    case ActuatorRegister(_) =>
    case ShellStep =>
    case _ =>
  }

  /** `is_registered` is up if and only if a node was admitted and no poll has come since: the first
      poll lowers it, whichever session it belongs to. */
  lemma RegisteredHistory(es: seq<Event>)
    ensures Run(INIT, es).session.registered <==> Since(es, Admitted, Polls)
  {
    forall s, e
      ensures Step(s, e).session.registered <==> Admitted(s, e) || (s.session.registered && !Polls(s, e))
    {
      RegisteredMoves(s, e);
    }
    HoldsIffSince(es, Admitted, Polls, (s: State) => s.session.registered);
  }
}
