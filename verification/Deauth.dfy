/** What a deauthorization may change, in every interleaving with the message handlers, and what the
    list keeps through all of them. */
module Deauth {
  import opened Base
  import opened Gateway
  import opened Invariant
  import opened Sessions
  import L = SharedList

  // ----- unlinking -----

  /** Insert and unlink never overlap, in any state of any run: once `delete_node` has matched, its
      node is listed under the typed name, `previous` still leads to it (and is NULL exactly when it
      is the head), and no registration message can insert. */
  lemma UnlinkNeverOverlapsInsert(s: State, payload: Option<Identity>)
    requires Inv(s) && s.session.shell.InDrop?
    requires var pc := s.session.shell.dropAt; pc.Test? || pc.UnlinkFirst? || pc.UnlinkNext?
    ensures var h, pc := s.list, s.session.shell.dropAt;
            && pc.cur in L.Listed(h) && L.HasName(h, pc.cur, s.session.shell.typed)
            && (pc.UnlinkFirst? ==> pc.cur == h.head)
            && (pc.UnlinkNext? ==> pc.prev in L.Listed(h) && L.InHeap(h, pc.prev) && h.nodes[pc.prev].next == pc.cur)
            && (pc.Test? ==> (pc.cur == h.head <==> pc.prev == L.NULL))
            && OnActuatorRegister(s, payload).0.list == h
  {
    if s.session.shell.dropAt.Test? {
      TestDecides(s.list, s.session.shell.typed, s.session.shell.dropAt.cur, s.session.shell.dropAt.prev);
    }
  }

  predicate Unlinking(s: State, e: Event) {
    && e == ShellStep && s.session.shell.InDrop?
    && (s.session.shell.dropAt.UnlinkFirst? || s.session.shell.dropAt.UnlinkNext?)
  }

  function PrevOf(pc: DropPc): int {
    if pc.UnlinkNext? then pc.prev else L.NULL
  }

  lemma UnlinkStepWrites(s: State)
    requires Inv(s) && Unlinking(s, ShellStep)
    ensures var u, sh := Step(s, ShellStep), s.session.shell;
            var cur, prev := sh.dropAt.cur, PrevOf(sh.dropAt);
            && L.Linked(s.list, cur, prev) && L.HasName(s.list, cur, sh.typed)
            && u.list == L.Unlink(s.list, cur, prev) && u.out == s.out + [Deau(s.list.nodes[cur].remote)]
  {
    hide L.NoSkip, L.DistinctNames, L.Lists;
  }

  /** The unlink takes the only record with the typed name out of the list, keeps the others in
      order, and tells the removed node. */
  lemma UnlinkStepRemovesTyped(s: State, name: Name)
    requires Inv(s) && Unlinking(s, ShellStep)
    ensures var u, sh := Step(s, ShellStep), s.session.shell;
            && Inv(u) && L.InHeap(s.list, sh.dropAt.cur)
            && L.Listed(u.list) == L.Without(L.Listed(s.list), sh.dropAt.cur)
            && (L.Lists(u.list, name) <==> L.Lists(s.list, name) && name != sh.typed)
            && u.out == s.out + [Deau(s.list.nodes[sh.dropAt.cur].remote)]
  {
    var pc := s.session.shell.dropAt;
    StepKeepsInv(s, ShellStep);
    UnlinkStepWrites(s);
    hide Step, L.Ordered, L.Lists, L.NoSkip, L.DistinctNames, ShellOk;
    L.UnlinkListed(s.list, pc.cur, PrevOf(pc));
    L.UnlinkRemovesOnlyMatch(s.list, pc.cur, PrevOf(pc), name);
  }

  ghost function Inserted(s: State, e: Event): nat {
    if e.ActuatorRegister? && OnActuatorRegister(s, e.identity).1 == Changed then 1 else 0
  }

  ghost function Admissions(es: seq<Event>): nat {
    if es == [] then 0 else Admissions(es[..|es| - 1]) + Inserted(Run(INIT, es[..|es| - 1]), es[|es| - 1])
  }

  ghost function Deletions(es: seq<Event>): nat {
    if es == [] then 0
    else Deletions(es[..|es| - 1]) + if Unlinking(Run(INIT, es[..|es| - 1]), es[|es| - 1]) then 1 else 0
  }

  lemma OtherStepsKeepList(s: State, e: Event)
    requires Inserted(s, e) == 0 && !Unlinking(s, e)
    ensures Step(s, e).list == s.list
  {
  }

  lemma {:induction false} WithoutOne(s: seq<int>, x: int)
    requires x in s && forall a, b :: 0 <= a < b < |s| ==> s[b] < s[a]
    ensures |L.Without(s, x)| == |s| - 1
  {
    if s[0] == x {
      L.WithoutAbsent(s[1..], x);
    } else {
      WithoutOne(s[1..], x);
    }
  }

  /** Conservation: the list is as long as accepted registrations minus completed deletions. */
  lemma {:induction false} ListLength(es: seq<Event>)
    ensures Inv(Run(INIT, es)) && |L.Listed(Run(INIT, es).list)| == Admissions(es) - Deletions(es)
  {
    Reachable(es);
    if es != [] {
      var init, e := es[..|es| - 1], es[|es| - 1];
      ListLength(init);
      var s := Run(INIT, init);
      if Inserted(s, e) == 1 {
        L.InsertListed(s.list, e.identity.value.name, e.identity.value.remote);
      } else if Unlinking(s, e) {
        UnlinkStepRemovesTyped(s, s.session.shell.typed);
        L.ReachDecreasing(s.list, s.list.head);
        WithoutOne(L.Listed(s.list), s.session.shell.dropAt.cur);
      } else {
        OtherStepsKeepList(s, e);
      }
    }
  }

  /** No two listed actuators carry the same name, although `insert_node` never compares names. */
  lemma ActuatorNamesDistinct(es: seq<Event>, i: int, j: int)
    requires var h := Run(INIT, es).list;
             L.Ordered(h) && i in L.Listed(h) && j in L.Listed(h) && i != j
    ensures var h := Run(INIT, es).list;
            L.InHeap(h, i) && L.InHeap(h, j) && h.nodes[i].name != h.nodes[j].name
  {
    Reachable(es);
    L.ReachProps(Run(INIT, es).list, Run(INIT, es).list.head);
  }

  // ----- a deauth_sensor session -----

  ghost predicate NoShellStep(es: seq<Event>) {
    forall j :: 0 <= j < |es| ==> es[j] != ShellStep
  }

  /** Around the `ht_del` the handlers may admit the typed sensor, and nothing else changes the table's
      names or the list. */
  lemma DeauthSensorStep(s: State, e: Event)
    requires Inv(s) && s.session.shell.InSensor? && e != ShellStep
    ensures var s', t := Step(s, e), s.session.shell.typed;
            && s'.session.shell == s.session.shell && s'.list == s.list
            && s'.sensors.Keys == s.sensors.Keys + (if Admits(s, e) == 1 then {t} else {})
            && (Admits(s, e) == 1 ==> t !in s.sensors && s'.session.registered && s.session.sensorId.Some?)
            && (s'.session.registered <==> s.session.registered || Admits(s, e) == 1)
            && (s.session.sensorId.None? ==> s'.session.sensorId.None?)
  {
    OthersKeepShell(s, e);
    match e
    case SensorRegister(_) =>
    case ActuatorRegister(_) =>
    case _ =>
  }

  lemma {:induction false} DeauthSensorRun(s: State, es: seq<Event>)
    requires Inv(s) && s.session.shell.InSensor? && NoShellStep(es)
    ensures var u, t := Run(s, es), s.session.shell.typed;
            && Inv(u) && u.session.shell == s.session.shell && u.list == s.list
            && SensorAdmissions(s, es) <= 1
            && u.sensors.Keys == s.sensors.Keys + (if SensorAdmissions(s, es) == 1 then {t} else {})
            && (SensorAdmissions(s, es) == 1 ==> t !in s.sensors && s.session.sensorId.Some?)
            && (u.session.registered <==> s.session.registered || SensorAdmissions(s, es) == 1)
            && (s.session.sensorId.None? ==> u.session.sensorId.None?)
  {
    if es != [] {
      var init, e := es[..|es| - 1], es[|es| - 1];
      DeauthSensorRun(s, init);
      DeauthSensorStep(Run(s, init), e);
      StepKeepsInv(Run(s, init), e);
    }
  }

  /** A whole `deauth_sensor t`: any events before its `ht_del`, and any between that and the reset of
      SENSOR_ID.  Other sensors and the list are not touched.  Back at the prompt t is in the table if
      and only if a registration was accepted in the second gap, or the `ht_del` found SENSOR_ID
      cleared with t in the table; and the flag is up if and only if it was, or a registration was
      accepted in either gap. */
  lemma DeauthSensorLeaves(s: State, t: Name, before: seq<Event>, after: seq<Event>)
    requires Inv(s) && s.session.shell == InSensor(t, DeleteSensor) && NoShellStep(before) && NoShellStep(after)
    ensures var d := Run(s, before);
            var c := Step(d, ShellStep);
            var u := Step(Run(c, after), ShellStep);
            && u.session.shell.Idle? && u.list == s.list
            && u.sensors.Keys - {t} == s.sensors.Keys - {t}
            && (t in u.sensors <==> SensorAdmissions(c, after) == 1 || (d.session.sensorId.None? && t in d.sensors))
            && (u.session.registered <==>
                  s.session.registered || SensorAdmissions(s, before) == 1 || SensorAdmissions(c, after) == 1)
  {
    DeauthSensorRun(s, before);
    var d := Run(s, before);
    var c := Step(d, ShellStep);
    StepKeepsInv(d, ShellStep);
    DeleteStep(d, t);
    DeauthSensorRun(c, after);
    CloseStep(Run(c, after), t);
  }

  lemma DeleteStep(d: State, t: Name)
    requires Inv(d) && d.session.shell == InSensor(t, DeleteSensor)
    ensures var c := Step(d, ShellStep);
            && c.session == d.session.(shell := InSensor(t, CloseSensor)) && c.list == d.list
            && c.sensors.Keys == d.sensors.Keys - (if d.session.sensorId.Some? then {t} else {})
  {
  }

  lemma CloseStep(e: State, t: Name)
    requires e.session.shell == InSensor(t, CloseSensor)
    ensures var u := Step(e, ShellStep);
            u.session == EndSensor(e.session) && u.list == e.list && u.sensors == e.sensors
  {
  }

  // ----- a deauth_actuator session -----

  lemma InsertListsOnly(h: L.Heap, t: Name, r: Remote, name: Name)
    requires L.Ordered(h) && name != t
    ensures L.Lists(L.Insert(h, t, r), name) <==> L.Lists(h, name)
  {
    var g := L.Insert(h, t, r);
    L.InsertListed(h, t, r);
    L.ReachProps(h, h.head);
    if L.Lists(h, name) {
      var i :| i in L.Listed(h) && L.HasName(h, i, name);
      assert i in L.Listed(g) && L.HasName(g, i, name);
    }
    if L.Lists(g, name) {
      var i :| i in L.Listed(g) && L.HasName(g, i, name);
      assert i in L.Listed(h) && L.HasName(h, i, name);
    }
  }

  lemma DropStepOthers(s: State, e: Event, name: Name)
    requires Inv(s) && s.session.shell.InDrop? && name != s.session.shell.typed
    ensures var s' := Step(s, e);
            && (s'.session.shell.Idle? || (s'.session.shell.InDrop? && s'.session.shell.typed == s.session.shell.typed))
            && s'.sensors.Keys == s.sensors.Keys
            && (L.Lists(s'.list, name) <==> L.Lists(s.list, name))
  {
    if Inserted(s, e) == 1 {
      InsertListsOnly(s.list, e.identity.value.name, e.identity.value.remote, name);
    } else if Unlinking(s, e) {
      UnlinkStepRemovesTyped(s, name);
    } else {
      OtherStepsKeepList(s, e);
    }
    DropStepShell(s, e);
  }

  lemma DropStepShell(s: State, e: Event)
    requires SessionOk(s.session) && s.session.shell.InDrop?
    ensures var s' := Step(s, e);
            && (s'.session.shell.Idle? || (s'.session.shell.InDrop? && s'.session.shell.typed == s.session.shell.typed))
            && s'.sensors.Keys == s.sensors.Keys
  {
    match e
    case ShellStep =>
    case _ =>
  }

  /** Over all interleavings a `deauth_actuator` leaves the table's names and the listing of every
      other actuator as they were. */
  lemma {:induction false} DeauthActuatorTouchesOnlyTyped(s: State, es: seq<Event>, name: Name)
    requires Inv(s) && s.session.shell.InDrop? && Busy(s, es) && name != s.session.shell.typed
    ensures var u := Run(s, es);
            && Inv(u)
            && (u.session.shell.Idle? || (u.session.shell.InDrop? && u.session.shell.typed == s.session.shell.typed))
            && u.sensors.Keys == s.sensors.Keys
            && (L.Lists(u.list, name) <==> L.Lists(s.list, name))
  {
    if es != [] {
      var init, e := es[..|es| - 1], es[|es| - 1];
      BusyPrefix(s, es);
      DeauthActuatorTouchesOnlyTyped(s, init, name);
      DropStepOthers(Run(s, init), e, name);
      StepKeepsInv(Run(s, init), e);
    }
  }

  ghost function ActuatorAdmissions(s: State, es: seq<Event>): nat {
    if es == [] then 0
    else ActuatorAdmissions(s, es[..|es| - 1]) + Inserted(Run(s, es[..|es| - 1]), es[|es| - 1])
  }
}
