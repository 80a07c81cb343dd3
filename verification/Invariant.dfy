/** What every step of the gateway keeps. */
module Invariant {
  import opened Base
  import opened Gateway
  import L = SharedList

  /** A session's global name is the typed one or has been cleared. */
  predicate TypedOrNone(id: Option<Name>, typed: Name) {
    id == None || id == Some(typed)
  }

  predicate PtrOk(h: L.Heap, p: int) {
    L.NULL <= p < |h.nodes|
  }

  ghost predicate Target(h: L.Heap, cur: int, typed: Name)
    requires L.Ordered(h)
  {
    cur in L.Listed(h) && L.HasName(h, cur, typed)
  }

  /** While a `delete_node` search has not moved yet, its start may stop being the head, but only
      when the name is not at or below it. */
  ghost predicate SearchOk(h: L.Heap, typed: Name, cur: int, prev: int)
    requires L.Ordered(h)
  {
    && cur in L.Listed(h)
    && (prev != L.NULL ==> L.Linked(h, cur, prev))
    && (prev == L.NULL && cur != h.head ==> forall i :: i in L.Listed(h) && i <= cur ==> !L.HasName(h, i, typed))
  }

  predicate ActuatorPcOk(h: L.Heap, t: Name, pc: ActuatorPc) {
    match pc
    case Check(target, ptr) => TypedOrNone(target, t) && PtrOk(h, ptr)
    case Fetch(target, ptr) => TypedOrNone(target, t) && PtrOk(h, ptr)
    case _ => true
  }

  ghost predicate DropPcOk(h: L.Heap, t: Name, pc: DropPc)
    requires L.Ordered(h)
  {
    match pc
    case Search(target, cur, prev) => TypedOrNone(target, t) && SearchOk(h, t, cur, prev)
    case Test(cur, prev) => Target(h, cur, t) && L.Linked(h, cur, prev)
    case UnlinkFirst(cur) => Target(h, cur, t) && L.Linked(h, cur, L.NULL)
    case UnlinkNext(cur, prev) => Target(h, cur, t) && prev != L.NULL && L.Linked(h, cur, prev)
    case _ => true
  }

  ghost predicate ShellOk(h: L.Heap, sh: Shell)
    requires L.Ordered(h)
  {
    match sh
    case InActuator(t, pc) => ActuatorPcOk(h, t, pc)
    case InDrop(t, pc) => DropPcOk(h, t, pc)
    case _ => true
  }

  /** `SENSOR_ID` is set only inside a sensor session, `ACTUATOR_ID` only inside an actuator one. */
  predicate SessionOk(s: Session) {
    && (s.sensorId.Some? ==> s.shell.InSensor? && s.sensorId.value == s.shell.typed)
    && (s.actuatorId.Some? ==> (s.shell.InActuator? || s.shell.InDrop?) && s.actuatorId.value == s.shell.typed)
  }

  predicate CountersOk(sensors: map<Name, Sensor>) {
    forall n :: n in sensors ==> sensors[n].wdt <= WDT_LIMIT + 1
  }

  /** An alarm is only ever pending while the system is engaged. */
  predicate NoStaleAlarm(f: Flags) {
    f.fired || f.timeout ==> f.engaged
  }

  ghost predicate Inv(s: State) {
    && L.Inv(s.list)
    && SessionOk(s.session)
    && ShellOk(s.list, s.session.shell)
    && CountersOk(s.sensors)
    && NoStaleAlarm(s.flags)
    && (s.alarm.Fire? ==> PtrOk(s.list, s.alarm.ptr))
  }

  lemma InvInit()
    ensures Inv(INIT)
  {
  }

  /** An insertion by the handler cannot disturb a shell walk: a `delete_node` that has found its
      node keeps the name listed, which closes the handler's insertion branch. */
  lemma InsertKeepsShell(s: State, name: Name, remote: Remote)
    requires Inv(s) && s.session.actuatorId == Some(name) && !L.Lists(s.list, name)
    ensures Inv(s.(list := L.Insert(s.list, name, remote)))
  {
    var h, g := s.list, L.Insert(s.list, name, remote);
    L.InsertInv(h, name, remote);
    L.InsertListed(h, name, remote);
    L.ReachProps(h, h.head);
    if s.session.shell.InDrop? {
      match s.session.shell.dropAt
      case Search(target, cur, prev) =>
        assert forall i :: i in L.Listed(g) && i <= cur ==>
                   i in L.Listed(h) && (L.HasName(g, i, name) ==> L.HasName(h, i, name));
      case Test(_, _) => assert false;
      case UnlinkFirst(_) => assert false;
      case UnlinkNext(_, _) => assert false;
      case _ =>
    }
  }

  lemma UnlinkKeeps(s: State, t: Name, cur: int, prev: int)
    requires Inv(s) && s.session.shell.InDrop? && s.session.shell.typed == t
    requires s.session.shell.dropAt == if prev == L.NULL then UnlinkFirst(cur) else UnlinkNext(cur, prev)
    ensures Inv(OnDropShell(s, t, s.session.shell.dropAt))
  {
    L.UnlinkInv(s.list, cur, prev);
    L.UnlinkListed(s.list, cur, prev);
  }

  lemma SearchKeeps(h: L.Heap, t: Name, target: Option<Name>, cur: int, prev: int)
    requires L.Inv(h) && DropPcOk(h, t, Search(target, cur, prev))
    ensures Matches(h, cur, target) ==> DropPcOk(h, t, Test(cur, prev))
    ensures L.InHeap(h, cur) && !Matches(h, cur, target) && h.nodes[cur].next != L.NULL ==>
              DropPcOk(h, t, Search(target, h.nodes[cur].next, cur))
    ensures L.InHeap(h, cur)
  {
    L.ReachProps(h, h.head);
    assert L.InHeap(h, cur);
    if Matches(h, cur, target) {
      assert L.HasName(h, cur, t);
    } else if h.nodes[cur].next != L.NULL {
      assert L.Linked(h, h.nodes[cur].next, cur);
    }
  }

  /** At the test of `delete_node`, `current == head` holds exactly when `previous` is NULL. */
  lemma TestDecides(h: L.Heap, t: Name, cur: int, prev: int)
    requires L.Inv(h) && DropPcOk(h, t, Test(cur, prev))
    ensures cur == h.head <==> prev == L.NULL
    ensures DropPcOk(h, t, if cur == h.head then UnlinkFirst(cur) else UnlinkNext(cur, prev))
  {
    L.ReachProps(h, h.head);
  }

  lemma DropKeeps(s: State)
    requires Inv(s) && s.session.shell.InDrop?
    ensures Inv(OnShell(s))
  {
    var t := s.session.shell.typed;
    match s.session.shell.dropAt
    case SetUp => L.ReachProps(s.list, s.list.head);
    case Search(target, cur, prev) => SearchKeeps(s.list, t, target, cur, prev);
    case Test(cur, prev) => TestDecides(s.list, t, cur, prev);
    case UnlinkFirst(cur) => UnlinkKeeps(s, t, cur, L.NULL);
    case UnlinkNext(cur, prev) => UnlinkKeeps(s, t, cur, prev);
    case CloseDrop =>
  }

  lemma AlarmKeeps(s: State)
    requires Inv(s)
    ensures Inv(OnAlarm(s))
  {
    if s.alarm.Fire? && L.InHeap(s.list, s.alarm.ptr) {
      var n := s.list.nodes[s.alarm.ptr].next;
      assert L.NULL <= n < s.alarm.ptr;
    }
  }

  lemma ActuatorWalkKeeps(s: State)
    requires Inv(s) && s.session.shell.InActuator?
    ensures Inv(OnShell(s))
  {
    var pc := s.session.shell.actuatorAt;
    if pc.Check? || pc.Fetch? {
      assert L.InHeap(s.list, pc.ptr) ==> PtrOk(s.list, s.list.nodes[pc.ptr].next);
    }
  }

  lemma ShellKeeps(s: State)
    requires Inv(s)
    ensures Inv(OnShell(s))
  {
    match s.session.shell
    case InActuator(_, _) => ActuatorWalkKeeps(s);
    case InDrop(_, _) => DropKeeps(s);
    case _ =>
  }

  lemma HandlerKeeps(s: State, e: Event)
    requires Inv(s) && (e.SensorRegister? || e.SensorStatus? || e.SensorTap? || e.ActuatorRegister?)
    ensures Inv(Step(s, e))
  {
    match e
    case ActuatorRegister(p) =>
      var id := s.session.actuatorId;
      if id.Some? && p.Some? && !L.Lists(s.list, id.value) && id.value == p.value.name {
        InsertKeepsShell(s, p.value.name, p.value.remote);
      }
    case _ =>
  }

  lemma TimerKeeps(s: State, e: Event)
    requires Inv(s) && (e.Tick? || e.TestButton? || e.DisengageButton? || e.Cmd?)
    ensures Inv(Step(s, e))
  {
  }

  lemma StepKeepsInv(s: State, e: Event)
    requires Inv(s)
    ensures Inv(Step(s, e))
  {
    match e
    case ShellStep => ShellKeeps(s);
    case AlarmStep => AlarmKeeps(s);
    case SensorRegister(_) => HandlerKeeps(s, e);
    case SensorStatus(_) => HandlerKeeps(s, e);
    case SensorTap(_) => HandlerKeeps(s, e);
    case ActuatorRegister(_) => HandlerKeeps(s, e);
    case _ => TimerKeeps(s, e);
  }

  lemma {:induction false} RunKeepsInv(s: State, es: seq<Event>)
    requires Inv(s)
    ensures Inv(Run(s, es))
  {
    if es != [] {
      RunKeepsInv(s, es[..|es| - 1]);
      StepKeepsInv(Run(s, es[..|es| - 1]), es[|es| - 1]);
    }
  }

  lemma Reachable(es: seq<Event>)
    ensures Inv(Run(INIT, es))
  {
    InvInit();
    RunKeepsInv(INIT, es);
  }
}
