/** The gateway as a transition system: the globals of gateway_node.c, gateway_coap.c,
    gateway_shell.c and gateway_hashtable.c, with the shell thread and the alarm thread cut where
    another actor can run.

    One CoAP handler, one `ht_*` call, one `register_node` poll, one advance of a list walk and one
    button interrupt is one step.  A name read through a NULL pointer compares unequal to every
    name, and a NULL lookup result sends nothing. */
module Gateway {
  import opened Base
  import L = SharedList

  /** A row of the sensor table; `wdt` counts watchdog ticks. */
  datatype Sensor = Sensor(remote: Remote, wdt: nat)

  /** The payload of a registration. */
  datatype Identity = Identity(name: Name, remote: Remote)

  /** Outgoing messages.  `On` also carries the insertion index of the record it was sent to. */
  datatype Packet = On(id: int, remote: Remote) | Auth(remote: Remote) | Deau(remote: Remote)

  datatype Response = Changed | BadRequest

  /** `auth_sensor_node`, with the poll count of `register_node`, and `de_auth_sensor_node` before
      and after its `ht_del`. */
  datatype SensorPc = OpenSensor | PollSensor(count: nat) | ReplySensor | DeleteSensor | CloseSensor

  /** `auth_actuator_node`: the `node_exists` walk, `register_node`, the `get_node` walk. */
  datatype ActuatorPc =
    | OpenActuator
    | Check(target: Option<Name>, ptr: int)
    | PollActuator(count: nat)
    | ReplyActuator
    | Fetch(target: Option<Name>, ptr: int)

  /** `de_auth_actuator_node`: the set-up of `delete_node`, its search, the `current == head` test,
      the two unlinks, and the return. */
  datatype DropPc =
    | SetUp
    | Search(target: Option<Name>, cur: int, prev: int)
    | Test(cur: int, prev: int)
    | UnlinkFirst(cur: int)
    | UnlinkNext(cur: int, prev: int)
    | CloseDrop

  /** Where the shell thread stands; `typed` is the name on the command line. */
  datatype Shell =
    | Idle
    | InSensor(typed: Name, sensorAt: SensorPc)
    | InActuator(typed: Name, actuatorAt: ActuatorPc)
    | InDrop(typed: Name, dropAt: DropPc)

  /** Where the alarm thread stands: before its test, inside `traverse_and_fire`, or after it. */
  datatype Alarm = Guard | Fire(ptr: int) | Clear

  /** `is_engaged`, `is_sensor_fired` and `is_timeout`. */
  datatype Flags = Flags(engaged: bool, fired: bool, timeout: bool)

  /** `is_registered`, `SENSOR_ID`, `ACTUATOR_ID` and the shell thread they serve. */
  datatype Session = Session(registered: bool, sensorId: Option<Name>, actuatorId: Option<Name>, shell: Shell)

  datatype State = State(
    sensors: map<Name, Sensor>,
    list: L.Heap,
    flags: Flags,
    session: Session,
    alarm: Alarm,
    out: seq<Packet>)

  const DISARMED := Flags(false, false, false)
  const INIT := State(map[], L.EMPTY, DISARMED, Session(false, None, None, Idle), Guard, [])

  const WDT_LIMIT := 2
  const POLL_LIMIT := 50

  datatype Command =
    | AuthSensor(name: Name)
    | DeauthSensor(name: Name)
    | AuthActuator(name: Name)
    | DeauthActuator(name: Name)
    | Engage
    | Disengage

  /** What can happen next.  A payload is None when the message carries none. */
  datatype Event =
    | SensorRegister(identity: Option<Identity>)
    | SensorStatus(name: Option<Name>)
    | SensorTap(name: Option<Name>)
    | ActuatorRegister(identity: Option<Identity>)
    | Tick
    | TestButton
    | DisengageButton
    | Cmd(command: Command)
    | ShellStep
    | AlarmStep

  // ----- message handlers -----

  /** SENSOR_ID names a row of the table. */
  predicate Known(s: State) {
    s.session.sensorId.Some? && s.session.sensorId.value in s.sensors
  }

  function OnSensorRegister(s: State, payload: Option<Identity>): (State, Response) {
    var se := s.session;
    if se.sensorId.None? || payload.None? then (s, BadRequest)
    else
      var who := payload.value;
      if who.name in s.sensors then (s, BadRequest)
      else if se.sensorId.value == who.name then
        (s.(session := se.(registered := true), sensors := s.sensors[who.name := Sensor(who.remote, 0)]), Changed)
      else (s.(session := se.(sensorId := None)), BadRequest)
  }

  function OnSensorStatus(s: State, payload: Option<Name>): (State, Response) {
    if payload.Some? && payload.value in s.sensors then
      (s.(sensors := s.sensors[payload.value := s.sensors[payload.value].(wdt := 0)]), Changed)
    else (s, BadRequest)
  }

  function OnSensorTap(s: State, payload: Option<Name>): (State, Response) {
    if payload.Some? && payload.value in s.sensors then (s.(flags := Activated(s.flags)), Changed)
    else (s, BadRequest)
  }

  ghost function OnActuatorRegister(s: State, payload: Option<Identity>): (State, Response) {
    var se := s.session;
    if se.actuatorId.None? then (s, BadRequest)
    else if payload.None? then (s.(session := se.(actuatorId := None)), BadRequest)
    else
      var who := payload.value;
      if L.Lists(s.list, se.actuatorId.value) then (s, BadRequest)
      else if se.actuatorId.value == who.name then
        (s.(session := se.(registered := true), list := L.Insert(s.list, who.name, who.remote)), Changed)
      else (s.(session := se.(actuatorId := None)), BadRequest)
  }

  // ----- watchdog, buttons, alarm thread -----

  /** `activate_alarm` behind its `is_engaged` test. */
  function Activated(f: Flags): Flags {
    if f.engaged then f.(fired := true) else f
  }

  function Age(w: nat): nat {
    if w > WDT_LIMIT then w else w + 1
  }

  function Aged(sensors: map<Name, Sensor>): map<Name, Sensor> {
    map n | n in sensors :: sensors[n].(wdt := Age(sensors[n].wdt))
  }

  predicate Expired(sensors: map<Name, Sensor>) {
    exists n :: n in sensors && sensors[n].wdt > WDT_LIMIT
  }

  /** `ht_wdt`. */
  function OnTick(s: State): State {
    s.(sensors := Aged(s.sensors),
       flags := if s.flags.engaged && Expired(s.sensors) then s.flags.(timeout := true) else s.flags)
  }

  predicate Pending(f: Flags) {
    (f.timeout || f.fired) && f.engaged
  }

  function OnAlarm(s: State): State {
    match s.alarm
    case Guard => s.(alarm := if Pending(s.flags) then Fire(s.list.head) else Guard)
    case Fire(ptr) =>
      if L.InHeap(s.list, ptr) then
        s.(out := s.out + [On(ptr, s.list.nodes[ptr].remote)], alarm := Fire(s.list.nodes[ptr].next))
      else s.(alarm := Clear)
    case Clear => s.(flags := s.flags.(timeout := false), alarm := Guard)
  }

  // ----- shell thread -----

  function OnCommand(s: State, c: Command): State {
    var se := s.session;
    if !se.shell.Idle? then s else
    match c
    case AuthSensor(name) => s.(session := se.(sensorId := Some(name), shell := InSensor(name, OpenSensor)))
    case DeauthSensor(name) => s.(session := se.(sensorId := Some(name), shell := InSensor(name, DeleteSensor)))
    case AuthActuator(name) => s.(session := se.(actuatorId := Some(name), shell := InActuator(name, OpenActuator)))
    case DeauthActuator(name) => s.(session := se.(actuatorId := Some(name), shell := InDrop(name, SetUp)))
    case Engage => s.(flags := s.flags.(engaged := true))
    case Disengage => s.(flags := DISARMED)
  }

  /** `SENSOR_ID = NULL` and the return to the prompt. */
  function EndSensor(se: Session): Session {
    se.(sensorId := None, shell := Idle)
  }

  function EndActuator(se: Session): Session {
    se.(actuatorId := None, shell := Idle)
  }

  function SensorAt(se: Session, t: Name, pc: SensorPc): Session {
    se.(shell := InSensor(t, pc))
  }

  function ActuatorAt(se: Session, t: Name, pc: ActuatorPc): Session {
    se.(shell := InActuator(t, pc))
  }

  predicate Matches(h: L.Heap, p: int, target: Option<Name>) {
    L.InHeap(h, p) && target == Some(h.nodes[p].name)
  }

  function OnSensorShell(s: State, t: Name, pc: SensorPc): State {
    var se := s.session;
    match pc
    case OpenSensor =>
      s.(session := if Known(s) then EndSensor(se) else SensorAt(se, t, PollSensor(0)))
    case PollSensor(count) =>
      s.(session := if count > POLL_LIMIT then EndSensor(se)
                    else if se.registered then SensorAt(se, t, ReplySensor).(registered := false)
                    else SensorAt(se, t, PollSensor(count + 1)))
    case ReplySensor =>
      s.(session := EndSensor(se),
         out := if Known(s) then s.out + [Auth(s.sensors[se.sensorId.value].remote)] else s.out)
    case DeleteSensor =>
      if Known(s) then
        s.(session := SensorAt(se, t, CloseSensor),
           sensors := s.sensors - {se.sensorId.value},
           out := s.out + [Deau(s.sensors[se.sensorId.value].remote)])
      else s.(session := SensorAt(se, t, CloseSensor))
    case CloseSensor => s.(session := EndSensor(se))
  }

  function OnActuatorShell(s: State, t: Name, pc: ActuatorPc): State {
    var se := s.session;
    match pc
    case OpenActuator => s.(session := ActuatorAt(se, t, Check(se.actuatorId, s.list.head)))
    case Check(target, ptr) =>
      s.(session := if !L.InHeap(s.list, ptr) then ActuatorAt(se, t, PollActuator(0))
                    else if Matches(s.list, ptr, target) then EndActuator(se)
                    else ActuatorAt(se, t, Check(target, s.list.nodes[ptr].next)))
    case PollActuator(count) =>
      s.(session := if count > POLL_LIMIT then EndActuator(se)
                    else if se.registered then ActuatorAt(se, t, ReplyActuator).(registered := false)
                    else ActuatorAt(se, t, PollActuator(count + 1)))
    case ReplyActuator => s.(session := ActuatorAt(se, t, Fetch(se.actuatorId, s.list.head)))
    case Fetch(target, ptr) =>
      if !L.InHeap(s.list, ptr) then s.(session := EndActuator(se))
      else if Matches(s.list, ptr, target) then
        s.(session := EndActuator(se), out := s.out + [Auth(s.list.nodes[ptr].remote)])
      else s.(session := ActuatorAt(se, t, Fetch(target, s.list.nodes[ptr].next)))
  }

  /** Where `delete_node` goes before it writes anything. */
  function DropNext(h: L.Heap, id: Option<Name>, pc: DropPc): DropPc {
    match pc
    case SetUp => if h.head == L.NULL then CloseDrop else Search(id, h.head, L.NULL)
    case Search(target, cur, prev) =>
      if Matches(h, cur, target) then Test(cur, prev)
      else if !L.InHeap(h, cur) || h.nodes[cur].next == L.NULL then CloseDrop
      else Search(target, h.nodes[cur].next, cur)
    case Test(cur, prev) => if cur == h.head then UnlinkFirst(cur) else UnlinkNext(cur, prev)
    case _ => CloseDrop
  }

  /** The deregistration message of `delete_node`. */
  function DeauTo(s: State, cur: int): seq<Packet> {
    if L.InHeap(s.list, cur) then s.out + [Deau(s.list.nodes[cur].remote)] else s.out
  }

  /** The unlink branches read `head` and `current->next` again. */
  function OnDropShell(s: State, t: Name, pc: DropPc): State {
    var se := s.session;
    if pc.CloseDrop? then s.(session := EndActuator(se))
    else
      var s1 := s.(session := se.(shell := InDrop(t, DropNext(s.list, se.actuatorId, pc))));
      match pc
      case UnlinkFirst(cur) => s1.(list := L.UnlinkHead(s.list), out := DeauTo(s, cur))
      case UnlinkNext(cur, prev) => s1.(list := L.UnlinkMid(s.list, cur, prev), out := DeauTo(s, cur))
      case _ => s1
  }

  function OnShell(s: State): State {
    match s.session.shell
    case Idle => s
    case InSensor(t, pc) => OnSensorShell(s, t, pc)
    case InActuator(t, pc) => OnActuatorShell(s, t, pc)
    case InDrop(t, pc) => OnDropShell(s, t, pc)
  }

  /** One step.  A command typed while the shell is busy is not read, and changes nothing. */
  ghost function Step(s: State, e: Event): State {
    match e
    case SensorRegister(p) => OnSensorRegister(s, p).0
    case SensorStatus(p) => OnSensorStatus(s, p).0
    case SensorTap(p) => OnSensorTap(s, p).0
    case ActuatorRegister(p) => OnActuatorRegister(s, p).0
    case Tick => OnTick(s)
    case TestButton => s.(flags := Activated(s.flags))
    case DisengageButton => s.(flags := DISARMED)
    case Cmd(c) => OnCommand(s, c)
    case ShellStep => OnShell(s)
    case AlarmStep => OnAlarm(s)
  }

  /** The event lowers `is_engaged`: a command typed while the shell is busy does not. */
  predicate Disengages(s: State, e: Event) {
    e == DisengageButton || (e == Cmd(Disengage) && s.session.shell.Idle?)
  }

  /** The event raises `is_engaged`. */
  predicate Engages(s: State, e: Event) {
    e == Cmd(Engage) && s.session.shell.Idle?
  }

  /** The state after a finite run; the last event is the latest. */
  ghost function Run(s: State, es: seq<Event>): State {
    if es == [] then s else Step(Run(s, es[..|es| - 1]), es[|es| - 1])
  }

  lemma {:induction false} RunConcat(s: State, a: seq<Event>, b: seq<Event>)
    ensures Run(s, a + b) == Run(Run(s, a), b)
  {
    if b == [] {
      assert a + b == a;
    } else {
      var c := b[..|b| - 1];
      RunConcat(s, a, c);
      assert (a + b)[..|a + b| - 1] == a + c;
    }
  }
}
