/** What the gateway answers to each message, and what it stores from it. */
module Answers {
  import opened Base
  import opened Gateway
  import opened Invariant
  import opened Deauth
  import opened Watchdog
  import opened History
  import opened Agreement
  import L = SharedList

  /** The event of a message and the answer to it, in a state. */
  ghost function AnswerTo(s: State, e: Event): Option<Response> {
    match e
    case SensorRegister(p) => Some(OnSensorRegister(s, p).1)
    case SensorStatus(p) => Some(OnSensorStatus(s, p).1)
    case SensorTap(p) => Some(OnSensorTap(s, p).1)
    case ActuatorRegister(p) => Some(OnActuatorRegister(s, p).1)
    case _ => None
  }

  lemma StatusAnswer(s: State, n: Name)
    ensures AnswerTo(s, SensorStatus(Some(n))) ==
            Some(if Resets(s, SensorStatus(Some(n)), n) then Changed else BadRequest)
  {
  }

  /** After every run, a status message is accepted if and only if the watchdog counts it as a sign of
      life. */
  lemma StatusAnsweredIffCounted(es: seq<Event>, n: Name)
    ensures var e := SensorStatus(Some(n));
            AnswerTo(Run(INIT, es), e) == Some(if ResetAt(es + [e], |es|, n) then Changed else BadRequest)
  {
    var e := SensorStatus(Some(n));
    StatusAnswer(Run(INIT, es), n);
    hide Run, AnswerTo, Resets;
    assert (es + [e])[..|es|] == es && (es + [e])[|es|] == e;
  }

  /** After every run, a tap is accepted if and only if its sender is registered by the history, and an
      accepted one is a cause of alarm exactly while the system is engaged by the history. */
  lemma TapAnsweredIffRegistered(es: seq<Event>, n: Name)
    ensures var s, e := Run(INIT, es), SensorTap(Some(n));
            var registered := Since(es, (s, e) => RegistersSensor(s, e, n), (s, e) => DeletesSensor(s, e, n));
            && AnswerTo(s, e) == Some(if registered then Changed else BadRequest)
            && (Fires(s, e) <==> registered && Since(es, Engages, Disengages))
  {
    TableHistory(es, n);
    EngagedHistory(es);
  }

  /** A registration is accepted if and only if it admits its sender: the session is open under that
      name, and the name is neither in the table nor listed. */
  lemma RegistrationAnsweredIffAdmitted(s: State, e: Event)
    requires e.SensorRegister? || e.ActuatorRegister?
    ensures AnswerTo(s, e) == Some(if Admitted(s, e) then Changed else BadRequest)
  {
  }

  /** A message without a payload is refused, and changes nothing but ACTUATOR_ID, which an actuator
      registration without one clears. */
  lemma EmptyPayloadRefused(s: State, e: Event)
    requires e in {SensorRegister(None), SensorStatus(None), SensorTap(None), ActuatorRegister(None)}
    ensures AnswerTo(s, e) == Some(BadRequest)
    ensures Step(s, e) == if e == ActuatorRegister(None) then s.(session := s.session.(actuatorId := None)) else s
  {
  }

  /** What is refused leaves the table, the list, the flags, the alarm thread and the wire alone. */
  lemma RefusedChangesNothing(s: State, e: Event)
    requires AnswerTo(s, e) == Some(BadRequest)
    ensures Step(s, e) == s.(session := Step(s, e).session)
    ensures Step(s, e).session.registered == s.session.registered && Step(s, e).session.shell == s.session.shell
  {
  }

  /** A row keeps the endpoint it was admitted with. */
  lemma {:induction false} RemoteIsHistory(es: seq<Event>, n: Name, i: nat)
    requires n in Run(INIT, es).sensors && LastAdmission(es, i, n)
    ensures i < |es| && es[i] == SensorRegister(Some(Identity(n, Run(INIT, es).sensors[n].remote)))
  {
    var last := |es| - 1;
    var init := es[..last];
    LastAdmissionSnoc(es, i, n);
    AdmitsAtLast(es, n);
    RemoteMoves(Run(INIT, init), es[last], n);
    if i < last {
      RemoteIsHistory(init, n, i);
    }
  }

  lemma RemoteMoves(s: State, e: Event, n: Name)
    requires n in Step(s, e).sensors
    ensures var r := Step(s, e).sensors[n].remote;
            if n in s.sensors then r == s.sensors[n].remote else e == SensorRegister(Some(Identity(n, r)))
  {
    match e
    case SensorRegister(_) =>
    case SensorStatus(_) =>
    case ShellStep => if s.session.shell.InSensor? { assert n in s.sensors; }
    case _ =>
  }

  /** An event of the run is an accepted registration of an actuator under this name and endpoint. */
  ghost predicate RecordedAt(es: seq<Event>, k: nat, name: Name, remote: Remote) {
    At(es, k, Admitted) && es[k] == ActuatorRegister(Some(Identity(name, remote)))
  }

  ghost predicate Recorded(es: seq<Event>, name: Name, remote: Remote) {
    exists k: nat :: RecordedAt(es, k, name, remote)
  }

  lemma RecordedSnoc(es: seq<Event>, name: Name, remote: Remote)
    requires es != []
    ensures var last := |es| - 1;
            Recorded(es[..last], name, remote) || RecordedAt(es, last, name, remote) ==> Recorded(es, name, remote)
  {
    if Recorded(es[..|es| - 1], name, remote) {
      var k: nat :| RecordedAt(es[..|es| - 1], k, name, remote);
      assert es[..|es| - 1][..k] == es[..k];
      assert RecordedAt(es, k, name, remote);
    }
  }

  /** The name and the endpoint of every record, listed or not, are those of an accepted registration. */
  lemma {:induction false} RecordIsHistory(es: seq<Event>, i: int)
    requires L.InHeap(Run(INIT, es).list, i)
    ensures var c := Run(INIT, es).list.nodes[i]; Recorded(es, c.name, c.remote)
  {
    var last := |es| - 1;
    var init := es[..last];
    var s, e := Run(INIT, init), es[last];
    Reachable(init);
    RecordMoves(s, e, i);
    var c := Run(INIT, es).list.nodes[i];
    if L.InHeap(s.list, i) {
      RecordIsHistory(init, i);
    } else {
      assert RecordedAt(es, last, c.name, c.remote);
    }
    RecordedSnoc(es, c.name, c.remote);
  }

  lemma RecordMoves(s: State, e: Event, i: int)
    requires Inv(s) && L.InHeap(Step(s, e).list, i)
    ensures var c := Step(s, e).list.nodes[i];
            if L.InHeap(s.list, i) then c.name == s.list.nodes[i].name && c.remote == s.list.nodes[i].remote
            else Admitted(s, e) && e == ActuatorRegister(Some(Identity(c.name, c.remote)))
  {
    if Inserted(s, e) == 0 {
      if Unlinking(s, e) {
        UnlinkStepWrites(s);
      } else {
        OtherStepsKeepList(s, e);
      }
    }
  }
}
