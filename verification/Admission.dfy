/** When the node that an auth session is for gets in, by the messages that come while it lasts. */
module Admission {
  import opened Base
  import opened Gateway
  import opened Invariant
  import opened Sessions
  import opened History
  import L = SharedList

  // ----- auth_sensor -----

  ghost predicate MismatchAt(s: State, t: Name, es: seq<Event>, k: nat) {
    k < |es| && Mismatches(Run(s, es[..k]), es[k], t)
  }

  /** A registration under another, unregistered name has come. */
  ghost predicate Mismatched(s: State, t: Name, es: seq<Event>) {
    exists k: nat :: MismatchAt(s, t, es, k)
  }

  predicate RegistersUnder(e: Event, t: Name) {
    e.SensorRegister? && e.identity.Some? && e.identity.value.name == t
  }

  ghost predicate InTimeAt(s: State, t: Name, es: seq<Event>, k: nat) {
    k < |es| && RegistersUnder(es[k], t) && !Mismatched(s, t, es[..k])
  }

  /** A registration under the typed name has come, before any such mismatch. */
  ghost predicate InTime(s: State, t: Name, es: seq<Event>) {
    exists k: nat :: InTimeAt(s, t, es, k)
  }

  lemma MismatchedSnoc(s: State, t: Name, es: seq<Event>)
    requires es != []
    ensures var last := |es| - 1;
            Mismatched(s, t, es) <==> Mismatched(s, t, es[..last]) || Mismatches(Run(s, es[..last]), es[last], t)
  {
    var last := |es| - 1;
    assert forall k: nat :: k < last ==> es[..last][..k] == es[..k];
    if Mismatched(s, t, es[..last]) {
      var k: nat :| MismatchAt(s, t, es[..last], k);
      assert MismatchAt(s, t, es, k);
    }
    if Mismatched(s, t, es) {
      var k: nat :| MismatchAt(s, t, es, k);
      assert k < last ==> MismatchAt(s, t, es[..last], k);
    } else {
      assert !MismatchAt(s, t, es, last);
    }
  }

  lemma InTimeSnoc(s: State, t: Name, es: seq<Event>)
    requires es != []
    ensures var last := |es| - 1;
            InTime(s, t, es) <==>
              InTime(s, t, es[..last]) || (RegistersUnder(es[last], t) && !Mismatched(s, t, es[..last]))
  {
    var last := |es| - 1;
    assert forall k: nat :: k < last ==> es[..last][..k] == es[..k];
    if InTime(s, t, es[..last]) {
      var k: nat :| InTimeAt(s, t, es[..last], k);
      assert InTimeAt(s, t, es, k);
    }
    if InTime(s, t, es) {
      var k: nat :| InTimeAt(s, t, es, k);
      assert k < last ==> InTimeAt(s, t, es[..last], k);
    } else {
      assert !InTimeAt(s, t, es, last);
    }
  }

  /** Over every run of one `auth_sensor t` that began with SENSOR_ID set: while it lasts, SENSOR_ID is t
      if and only if no registration under another, unregistered name has come, and cleared otherwise;
      and t is in the table if and only if it was, or a registration under t came before any such one.
      An empty payload, a registered name or a second registration under t does no harm. */
  lemma {:induction false} AdmittedIffInTime(s: State, t: Name, es: seq<Event>)
    requires Inv(s) && InAuthSensor(s.session.shell, t) && s.session.sensorId == Some(t) && Busy(s, es)
    ensures var u := Run(s, es);
            && (!u.session.shell.Idle? ==> u.session.sensorId == if Mismatched(s, t, es) then None else Some(t))
            && (t in u.sensors <==> t in s.sensors || InTime(s, t, es))
  {
    if es != [] {
      var init, e := es[..|es| - 1], es[|es| - 1];
      BusyPrefix(s, es);
      AdmittedIffInTime(s, t, init);
      AuthSensorAdmitsOne(s, t, init);
      AuthSensorAdmitsOne(s, t, es);
      var v := Run(s, init);
      MismatchedSnoc(s, t, es);
      InTimeSnoc(s, t, es);
      AuthNameStep(v, t, e);
      hide Step, Inv, Busy, Mismatched, InTime, Mismatches;
    }
  }

  lemma AuthNameStep(v: State, t: Name, e: Event)
    requires Inv(v) && InAuthSensor(v.session.shell, t)
    ensures var u := Step(v, e);
            && (!u.session.shell.Idle? ==>
                  u.session.sensorId == if Mismatches(v, e, t) then None else v.session.sensorId)
            && (t in u.sensors <==> t in v.sensors || (RegistersUnder(e, t) && v.session.sensorId == Some(t)))
  {
    match e
    case SensorRegister(_) =>
    case ActuatorRegister(_) =>
    case ShellStep =>
    case _ =>
  }

  // ----- auth_actuator -----

  ghost predicate ActuatorMismatchAt(s: State, t: Name, es: seq<Event>, k: nat) {
    k < |es| && MismatchesActuator(Run(s, es[..k]), es[k], t)
  }

  ghost predicate ActuatorMismatched(s: State, t: Name, es: seq<Event>) {
    exists k: nat :: ActuatorMismatchAt(s, t, es, k)
  }

  predicate RegistersActuatorUnder(e: Event, t: Name) {
    e.ActuatorRegister? && e.identity.Some? && e.identity.value.name == t
  }

  ghost predicate ActuatorInTimeAt(s: State, t: Name, es: seq<Event>, k: nat) {
    k < |es| && RegistersActuatorUnder(es[k], t) && !ActuatorMismatched(s, t, es[..k])
  }

  ghost predicate ActuatorInTime(s: State, t: Name, es: seq<Event>) {
    exists k: nat :: ActuatorInTimeAt(s, t, es, k)
  }

  lemma ActuatorMismatchedSnoc(s: State, t: Name, es: seq<Event>)
    requires es != []
    ensures var last := |es| - 1;
            ActuatorMismatched(s, t, es) <==>
              ActuatorMismatched(s, t, es[..last]) || MismatchesActuator(Run(s, es[..last]), es[last], t)
  {
    var last := |es| - 1;
    assert forall k: nat :: k < last ==> es[..last][..k] == es[..k];
    if ActuatorMismatched(s, t, es[..last]) {
      var k: nat :| ActuatorMismatchAt(s, t, es[..last], k);
      assert ActuatorMismatchAt(s, t, es, k);
    }
    if ActuatorMismatched(s, t, es) {
      var k: nat :| ActuatorMismatchAt(s, t, es, k);
      assert k < last ==> ActuatorMismatchAt(s, t, es[..last], k);
    } else {
      assert !ActuatorMismatchAt(s, t, es, last);
    }
  }

  lemma ActuatorInTimeSnoc(s: State, t: Name, es: seq<Event>)
    requires es != []
    ensures var last := |es| - 1;
            ActuatorInTime(s, t, es) <==>
              || ActuatorInTime(s, t, es[..last])
              || (RegistersActuatorUnder(es[last], t) && !ActuatorMismatched(s, t, es[..last]))
  {
    var last := |es| - 1;
    assert forall k: nat :: k < last ==> es[..last][..k] == es[..k];
    if ActuatorInTime(s, t, es[..last]) {
      var k: nat :| ActuatorInTimeAt(s, t, es[..last], k);
      assert ActuatorInTimeAt(s, t, es, k);
    }
    if ActuatorInTime(s, t, es) {
      var k: nat :| ActuatorInTimeAt(s, t, es, k);
      assert k < last ==> ActuatorInTimeAt(s, t, es[..last], k);
    } else {
      assert !ActuatorInTimeAt(s, t, es, last);
    }
  }

  /** The same for `auth_actuator t`, where a message without a payload ends the window too, and one
      under another name only while t is not listed. */
  lemma {:induction false} ActuatorAdmittedIffInTime(s: State, t: Name, es: seq<Event>)
    requires Inv(s) && s.session.shell.InActuator? && s.session.shell.typed == t
    requires s.session.actuatorId == Some(t) && Busy(s, es)
    ensures var u := Run(s, es);
            && (!u.session.shell.Idle? ==>
                  u.session.actuatorId == if ActuatorMismatched(s, t, es) then None else Some(t))
            && (L.Lists(u.list, t) <==> L.Lists(s.list, t) || ActuatorInTime(s, t, es))
  {
    if es != [] {
      var init, e := es[..|es| - 1], es[|es| - 1];
      BusyPrefix(s, es);
      ActuatorAdmittedIffInTime(s, t, init);
      AuthActuatorAdmitsOne(s, init);
      var v := Run(s, init);
      ActuatorMismatchedSnoc(s, t, es);
      ActuatorInTimeSnoc(s, t, es);
      AuthActuatorNameStep(v, t, e);
      hide Step, Inv, Busy, ActuatorMismatched, ActuatorInTime, MismatchesActuator, L.Lists;
    }
  }

  lemma AuthActuatorNameStep(v: State, t: Name, e: Event)
    requires Inv(v) && v.session.shell.InActuator? && v.session.shell.typed == t
    ensures var u := Step(v, e);
            && (!u.session.shell.Idle? ==>
                  u.session.actuatorId == if MismatchesActuator(v, e, t) then None else v.session.actuatorId)
            && (L.Lists(u.list, t) <==>
                  L.Lists(v.list, t) || (RegistersActuatorUnder(e, t) && v.session.actuatorId == Some(t)))
  {
    ListMoves(v, e, t);
    hide L.Lists;
    match e
    case SensorRegister(_) =>
    case ActuatorRegister(_) =>
    case ShellStep =>
    case _ =>
  }
}
