/** The gateway program on the heap: its globals as fields, its handlers and thread bodies as methods.

    Each method's effect is a run of the transition system of Gateway.  A method cannot be interrupted,
    so a thread body is either run alone or takes the events that arrive while it sleeps as an
    argument; Gateway has every interleaving. */
module Controller {
  import opened Base
  import opened Gateway
  import opened Solo
  import opened Sessions
  import opened Replies
  import C = ChainTable
  import H = HashTable
  import A = ActuatorList
  import L = SharedList

  /** What reaches the gateway from outside its shell and alarm threads. */
  predicate Outside(e: Event) {
    !e.Cmd? && e != ShellStep && e != AlarmStep
  }

  predicate AllOutside(arrivals: seq<seq<Event>>) {
    forall k, j :: 0 <= k < |arrivals| && 0 <= j < |arrivals[k]| ==> Outside(arrivals[k][j])
  }

  /** So many polls, each with the arrivals of the sleep after it; nothing arrives once `arrivals` is
      used up. */
  function Polls(arrivals: seq<seq<Event>>, sleeps: nat): seq<Event> {
    if sleeps == 0 then []
    else Polls(arrivals, sleeps - 1) + [ShellStep] + if sleeps <= |arrivals| then arrivals[sleeps - 1] else []
  }

  /** The run of `register_node`: a poll that succeeds is not followed by a sleep. */
  function Registration(arrivals: seq<seq<Event>>, sleeps: nat, code: int): seq<Event> {
    Polls(arrivals, sleeps) + if code == 0 then [ShellStep] else []
  }

  function OutsideOnly(es: seq<Event>): seq<Event> {
    if es == [] then []
    else OutsideOnly(es[..|es| - 1]) + if Outside(es[|es| - 1]) then [es[|es| - 1]] else []
  }

  /** The first `n` of the arrivals, one sleep after the other. */
  function Arrived(arrivals: seq<seq<Event>>, n: nat): seq<Event> {
    if n == 0 then [] else Arrived(arrivals, n - 1) + if n <= |arrivals| then arrivals[n - 1] else []
  }

  lemma {:induction false} OutsideConcat(a: seq<Event>, b: seq<Event>)
    ensures OutsideOnly(a + b) == OutsideOnly(a) + OutsideOnly(b)
    ensures ShellSteps(a + b) == ShellSteps(a) + ShellSteps(b)
  {
    if b == [] {
      assert a + b == a;
    } else {
      OutsideConcat(a, b[..|b| - 1]);
      assert (a + b)[..|a + b| - 1] == a + b[..|b| - 1];
    }
  }

  lemma {:induction false} OutsideAll(es: seq<Event>)
    requires forall j :: 0 <= j < |es| ==> Outside(es[j])
    ensures OutsideOnly(es) == es && ShellSteps(es) == 0
  {
    if es != [] {
      OutsideAll(es[..|es| - 1]);
    }
  }

  /** The run of `register_node` holds every arrival of its sleeps once and in order, and one shell step
      for each poll: one more than the sleeps when it succeeds. */
  lemma {:induction false} RegistrationHolds(arrivals: seq<seq<Event>>, sleeps: nat, code: int)
    requires AllOutside(arrivals)
    ensures OutsideOnly(Registration(arrivals, sleeps, code)) == Arrived(arrivals, sleeps)
    ensures ShellSteps(Registration(arrivals, sleeps, code)) == sleeps + if code == 0 then 1 else 0
  {
    PollsHold(arrivals, sleeps);
    OutsideConcat(Polls(arrivals, sleeps), if code == 0 then [ShellStep] else []);
    OneShellStep();
  }

  lemma OutsideNone()
    ensures OutsideOnly([]) == [] && ShellSteps([]) == 0
  {
  }

  lemma OneShellStep()
    ensures OutsideOnly([ShellStep]) == [] && ShellSteps([ShellStep]) == 1
  {
    assert [ShellStep][..0] == [];
  }

  lemma {:induction false} PollsHold(arrivals: seq<seq<Event>>, sleeps: nat)
    requires AllOutside(arrivals)
    ensures OutsideOnly(Polls(arrivals, sleeps)) == Arrived(arrivals, sleeps)
    ensures ShellSteps(Polls(arrivals, sleeps)) == sleeps
  {
    OutsideNone();
    hide OutsideOnly, ShellSteps;
    if sleeps > 0 {
      var before, slept := Polls(arrivals, sleeps - 1), if sleeps <= |arrivals| then arrivals[sleeps - 1] else [];
      PollsHold(arrivals, sleeps - 1);
      OneShellStep();
      OutsideConcat(before, [ShellStep]);
      OutsideConcat(before + [ShellStep], slept);
      OutsideAll(slept);
    }
  }

  class Controller {
    const table: H.SensorTable
    const list: A.List
    var isEngaged: bool
    var isSensorFired: bool
    var isTimeout: bool
    var isRegistered: bool
    var sensorId: Option<Name>
    var actuatorId: Option<Name>
    ghost var shell: Shell
    ghost var alarm: Alarm
    ghost var out: seq<Packet>

    ghost predicate Valid()
      reads this, table, table.Repr, list, list.Repr
    {
      && table.Valid() && list.Valid()
      && this !in table.Repr && this !in list.Repr && table.Repr !! list.Repr
    }

    /** The state of the transition system the fields stand for. */
    ghost function Abs(): State
      requires Valid()
      reads this, table, table.Repr, list, list.Repr
    {
      State(C.Contents(table.rows), list.heap, Flags(isEngaged, isSensorFired, isTimeout),
            Session(isRegistered, sensorId, actuatorId, shell), alarm, out)
    }

    /** What the methods may write. */
    ghost function Footprint(): set<object>
      reads this, table, list
    {
      {this} + table.Repr + list.Repr
    }

    /** `init`. */
    constructor ()
      ensures Valid() && fresh(Footprint()) && Abs() == INIT
    {
      table := new H.SensorTable();
      list := new A.List();
      isEngaged, isSensorFired, isTimeout, isRegistered := false, false, false, false;
      sensorId, actuatorId := None, None;
      shell, alarm, out := Idle, Guard, [];
    }

    // ----- CoAP handlers -----

    /** `_sensor_register_handler`, with `add_sensor_entry`. */
    method SensorRegister(payload: Option<Identity>) returns (r: Response)
      requires Valid()
      modifies Footprint()
      ensures Valid() && fresh(Footprint() - old(Footprint()))
      ensures (Abs(), r) == OnSensorRegister(old(Abs()), payload)
    {
      hide C.Contents, C.WellFormed, C.Has, C.Find, H.SensorTable.Valid, A.List.Valid;
      if sensorId.None? || payload.None? {
        return BadRequest;
      }
      var who := payload.value;
      var known := table.Get(who.name);
      if known == Some(who.name) {
        return BadRequest;
      }
      if sensorId.value == who.name {
        isRegistered := true;
        var sensor := new H.SensorEntry(who.name, who.remote);
        table.Set(sensor);
        return Changed;
      }
      sensorId := None;
      return BadRequest;
    }

    /** `_sensor_status_handler`. */
    method SensorStatus(payload: Option<Name>) returns (r: Response)
      requires Valid()
      modifies Footprint()
      ensures Valid() && fresh(Footprint() - old(Footprint()))
      ensures (Abs(), r) == OnSensorStatus(old(Abs()), payload)
    {
      hide C.Contents, C.WellFormed, C.Has, C.Find, H.SensorTable.Valid, A.List.Valid;
      if payload.None? {
        return BadRequest;
      }
      var known := table.Get(payload.value);
      if known == payload {
        table.UpdateTime(payload.value);
        return Changed;
      }
      return BadRequest;
    }

    /** `_sensor_tap_handler`. */
    method SensorTap(payload: Option<Name>) returns (r: Response)
      requires Valid()
      modifies this
      ensures Valid() && (Abs(), r) == OnSensorTap(old(Abs()), payload)
    {
      hide C.Contents, C.WellFormed, C.Has, C.Find, H.SensorTable.Valid, A.List.Valid;
      if payload.None? {
        return BadRequest;
      }
      var known := table.Get(payload.value);
      if known == payload {
        if isEngaged {
          isSensorFired := true;
        }
        return Changed;
      }
      return BadRequest;
    }

    /** `_actuator_register_handler`, with `add_actuator_entry`. */
    method ActuatorRegister(payload: Option<Identity>) returns (r: Response)
      requires Valid()
      modifies Footprint()
      ensures Valid() && fresh(Footprint() - old(Footprint()))
      ensures (Abs(), r) == OnActuatorRegister(old(Abs()), payload)
    {
      hide C.Contents, C.WellFormed, C.Has, C.Find, H.SensorTable.Valid, A.List.Valid;
      if actuatorId.None? {
        return BadRequest;
      }
      if payload.None? {
        actuatorId := None;
        return BadRequest;
      }
      var who := payload.value;
      var code := list.NodeExists(actuatorId.value);
      if code == 0 {
        return BadRequest;
      }
      if actuatorId.value == who.name {
        isRegistered := true;
        var actuator := new A.ActuatorEntry(who.name, who.remote);
        list.Insert(actuator);
        return Changed;
      }
      actuatorId := None;
      return BadRequest;
    }

    // ----- watchdog and buttons -----

    /** `ht_wdt` as the watchdog thread calls it. */
    method WatchdogTick()
      requires Valid()
      modifies Footprint()
      ensures Valid() && fresh(Footprint() - old(Footprint()))
      ensures Abs() == OnTick(old(Abs()))
    {
      hide C.Contents, C.WellFormed, C.Has, C.Find, H.SensorTable.Valid, A.List.Valid;
      var late := table.Wdt();
      if late {
        if isEngaged {
          isTimeout := true;
        }
      }
    }

    /** `test_intrp`. */
    method TestInterrupt()
      requires Valid()
      modifies this
      ensures Valid() && Abs() == Step(old(Abs()), TestButton)
    {
      if isEngaged {
        isSensorFired := true;
      }
    }

    /** `dis_engage_intrp`, and `disengage_alarm`. */
    method DeactivateAlarm()
      requires Valid()
      modifies this
      ensures Valid() && Abs() == Step(old(Abs()), DisengageButton)
    {
      isEngaged := false;
      isSensorFired := false;
      isTimeout := false;
    }

    method Handle(e: Event)
      requires Valid() && Outside(e)
      modifies Footprint()
      ensures Valid() && fresh(Footprint() - old(Footprint()))
      ensures Abs() == Step(old(Abs()), e)
    {
      match e
      case SensorRegister(p) => var _ := SensorRegister(p);
      case SensorStatus(p) => var _ := SensorStatus(p);
      case SensorTap(p) => var _ := SensorTap(p);
      case ActuatorRegister(p) => var _ := ActuatorRegister(p);
      case Tick => WatchdogTick();
      case TestButton => TestInterrupt();
      case DisengageButton => DeactivateAlarm();
    }

    // ----- alarm thread -----

    /** One iteration of `alarm_thread`, left alone. */
    method AlarmIteration()
      requires Valid() && alarm == Guard
      modifies this
      ensures Valid() && Abs() == Run(old(Abs()), Times(AlarmStep, AlarmTurns(old(Abs()))))
    {
      SoloAlarm(Abs());
      if (isTimeout || isSensorFired) && isEngaged {
        var sent; ghost var ons;
        sent, ons := list.TraverseAndFire();
        out := out + ons;
        isTimeout := false;
      }
    }

    // ----- shell thread -----

    /** `de_auth_sensor_node`, left alone: 0 when the sensor was registered. */
    method DeAuthSensorNode(name: Name) returns (code: int)
      requires Valid() && shell == Idle
      modifies Footprint()
      ensures Valid() && fresh(Footprint() - old(Footprint()))
      ensures Abs() == Run(old(Abs()), [Cmd(DeauthSensor(name)), ShellStep, ShellStep])
      ensures code == if name in old(Abs()).sensors then 0 else 1
    {
      hide C.Contents, C.WellFormed, C.Has, C.Find, H.SensorTable.Valid, A.List.Valid;
      SoloDeauthSensor(Abs(), name);
      var told;
      code, told := table.Del(name);
      if told.Some? {
        out := out + [Deau(told.value)];
      }
      sensorId := None;
    }

    /** `de_auth_actuator_node`, left alone: 0 when the actuator was listed. */
    method DeAuthActuatorNode(name: Name) returns (code: int, ghost steps: nat)
      requires Valid() && shell == Idle && L.Inv(list.heap)
      modifies Footprint()
      ensures Valid() && fresh(Footprint() - old(Footprint()))
      ensures Abs() == Run(Step(old(Abs()), Cmd(DeauthActuator(name))), Times(ShellStep, steps)) && shell == Idle
      ensures code == if L.Lists(old(list.heap), name) then 0 else 1
    {
      hide C.Contents, C.WellFormed, H.SensorTable.Valid, A.List.Valid, L.Lists, Run;
      var told; ghost var cur, prev;
      code, told, cur, prev := list.DeleteNode(name);
      if told.Some? {
        out := out + [Deau(told.value)];
      }
      steps := SoloDeauthActuator(old(Abs()), name, cur, prev);
      actuatorId := None;
    }

    /** `register_node` for a sensor, called with the messages and interrupts that arrive during each
        of its sleeps: 0 when a poll has found `is_registered` up, 1 after 51 that have not. */
    method RegisterNode(ghost t: Name, arrivals: seq<seq<Event>>) returns (code: int, ghost sleeps: nat)
      requires Valid() && shell == InSensor(t, PollSensor(0)) && AllOutside(arrivals)
      modifies Footprint()
      ensures Valid() && fresh(Footprint() - old(Footprint()))
      ensures Abs() == Run(old(Abs()), Registration(arrivals, sleeps, code))
      ensures shell == if code == 0 then InSensor(t, ReplySensor) else InSensor(t, PollSensor(POLL_LIMIT + 1))
      ensures (code == 0 && sleeps <= POLL_LIMIT) || (code == 1 && sleeps == POLL_LIMIT + 1)
    {
      hide C.Contents, C.WellFormed, H.SensorTable.Valid, A.List.Valid, Step;
      var count := 0;
      sleeps := 0;
      while true
        invariant 0 <= count <= POLL_LIMIT + 1 && sleeps == count
        invariant Valid() && fresh(Footprint() - old(Footprint()))
        invariant Abs() == Run(old(Abs()), Polls(arrivals, sleeps))
        invariant shell == InSensor(t, PollSensor(count))
        decreases POLL_LIMIT + 1 - count
      {
        ghost var polled := Polls(arrivals, sleeps);
        if count > POLL_LIMIT {
          assert Registration(arrivals, sleeps, 1) == polled;
          return 1, sleeps;
        }
        RunSnoc(old(Abs()), polled, ShellStep);
        var up := Poll(t, count);
        if up {
          return 0, sleeps;
        }
        Sleep(if count < |arrivals| then arrivals[count] else [], old(Abs()), polled + [ShellStep]);
        sleeps := sleeps + 1;
        count := count + 1;
      }
    }

    /** One poll of `is_registered`, which lowers it. */
    method Poll(ghost t: Name, ghost count: nat) returns (up: bool)
      requires Valid() && shell == InSensor(t, PollSensor(count)) && count <= POLL_LIMIT
      modifies this
      ensures Valid() && Abs() == Step(old(Abs()), ShellStep) && up == old(isRegistered)
      ensures shell == InSensor(t, if up then ReplySensor else PollSensor(count + 1))
    {
      hide C.Contents, C.WellFormed, H.SensorTable.Valid, A.List.Valid;
      up := isRegistered;
      if isRegistered {
        isRegistered := false;
        shell := InSensor(t, ReplySensor);
      } else {
        shell := InSensor(t, PollSensor(count + 1));
      }
    }

    /** The events of one sleep, in their order of arrival. */
    method Sleep(arrived: seq<Event>, ghost s: State, ghost before: seq<Event>)
      requires Valid() && Abs() == Run(s, before) && !shell.Idle?
      requires forall j :: 0 <= j < |arrived| ==> Outside(arrived[j])
      modifies Footprint()
      ensures Valid() && fresh(Footprint() - old(Footprint()))
      ensures Abs() == Run(s, before + arrived) && shell == old(shell)
    {
      hide C.Contents, C.WellFormed, C.Has, C.Find, H.SensorTable.Valid, A.List.Valid, Step;
      var k := 0;
      assert before + arrived[..0] == before;
      while k < |arrived|
        invariant 0 <= k <= |arrived|
        invariant Valid() && fresh(Footprint() - old(Footprint())) && shell == old(shell)
        invariant Abs() == Run(s, before + arrived[..k])
      {
        assert Abs().session.shell == shell;
        RunSnoc(s, before + arrived[..k], arrived[k]);
        OthersKeepShell(Abs(), arrived[k]);
        Handle(arrived[k]);
        assert before + arrived[..k + 1] == before + arrived[..k] + [arrived[k]];
        k := k + 1;
      }
      assert arrived[..|arrived|] == arrived;
    }

    /** `auth_sensor_node` up to `register_node`: the name is free, or the session is over. */
    method OpenSession(name: Name) returns (free: bool)
      requires Valid() && shell == Idle
      modifies this
      ensures Valid() && Abs() == Run(old(Abs()), [Cmd(AuthSensor(name)), ShellStep])
      ensures free <==> name !in old(Abs()).sensors
      ensures shell == if free then InSensor(name, PollSensor(0)) else Idle
    {
      hide C.Contents, C.WellFormed, C.Has, C.Find, H.SensorTable.Valid, A.List.Valid;
      SoloOpenSensor(Abs(), name);
      sensorId := Some(name);
      var known := table.Get(name);
      if known == Some(name) {
        sensorId := None;
        return false;
      }
      shell := InSensor(name, PollSensor(0));
      return true;
    }

    /** `auth_sensor_node` after `register_node`: on success the registered sensor, if SENSOR_ID still
        names it, is told. */
    method CloseSession(name: Name, code: int)
      requires Valid() && shell == InSensor(name, if code == 0 then ReplySensor else PollSensor(POLL_LIMIT + 1))
      modifies this
      ensures Valid() && Abs() == Step(old(Abs()), ShellStep) && shell == Idle
    {
      hide C.Contents, C.WellFormed, C.Has, C.Find, H.SensorTable.Valid, A.List.Valid;
      if code == 0 && sensorId.Some? {
        var entry := table.GetNode(sensorId.value);
        if entry != null {
          out := out + [Auth(entry.remote)];
        }
      }
      sensorId := None;
      shell := Idle;
    }

    /** `auth_sensor_node`, with the arrivals of every sleep: 1 at once when the name is registered,
        otherwise what `register_node` returns. */
    method AuthSensorNode(name: Name, arrivals: seq<seq<Event>>) returns (code: int, ghost sleeps: nat)
      requires Valid() && shell == Idle && AllOutside(arrivals)
      modifies Footprint()
      ensures Valid() && fresh(Footprint() - old(Footprint())) && shell == Idle
      ensures var opening := [Cmd(AuthSensor(name)), ShellStep];
              if name in old(Abs()).sensors
              then code == 1 && Abs() == Run(old(Abs()), opening)
              else && Abs() == Run(old(Abs()), opening + Registration(arrivals, sleeps, code) + [ShellStep])
                   && Run(old(Abs()), opening + Registration(arrivals, sleeps, code)).session.shell
                        == InSensor(name, if code == 0 then ReplySensor else PollSensor(POLL_LIMIT + 1))
                   && ((code == 0 && sleeps <= POLL_LIMIT) || (code == 1 && sleeps == POLL_LIMIT + 1))
    {
      hide C.Contents, C.WellFormed, H.SensorTable.Valid, A.List.Valid, Step, Run;
      ghost var opening := [Cmd(AuthSensor(name)), ShellStep];
      var free := OpenSession(name);
      if !free {
        return 1, 0;
      }
      code, sleeps := RegisterNode(name, arrivals);
      RunConcat(old(Abs()), opening, Registration(arrivals, sleeps, code));
      RunSnoc(old(Abs()), opening + Registration(arrivals, sleeps, code), ShellStep);
      CloseSession(name, code);
    }
  }
}
