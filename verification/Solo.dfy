/** Thread bodies that run without interference, as runs of the transition system. */
module Solo {
  import opened Base
  import opened Gateway
  import L = SharedList

  function Times(e: Event, n: nat): (r: seq<Event>)
    ensures |r| == n && forall k :: 0 <= k < n ==> r[k] == e
  {
    seq(n, i => e)
  }

  lemma RunSnoc(s: State, es: seq<Event>, e: Event)
    ensures Run(s, es + [e]) == Step(Run(s, es), e)
  {
    assert (es + [e])[..|es + [e]| - 1] == es;
  }

  lemma RunCons(s: State, e: Event, es: seq<Event>)
    ensures Run(s, [e] + es) == Run(Step(s, e), es)
  {
    RunConcat(s, [e], es);
    RunSnoc(s, [], e);
    assert [] + [e] == [e];
  }

  lemma RunTimes(s: State, e: Event, n: nat)
    requires n > 0
    ensures Run(s, Times(e, n)) == Run(Step(s, e), Times(e, n - 1))
  {
    assert Times(e, n) == [e] + Times(e, n - 1);
    RunCons(s, e, Times(e, n - 1));
  }

  // ----- alarm thread -----

  /** The messages of one walk over the nodes `ids`. */
  ghost function OnsTo(h: L.Heap, ids: seq<int>): seq<Packet> {
    if ids == [] then []
    else (if L.InHeap(h, ids[0]) then [On(ids[0], h.nodes[ids[0]].remote)] else []) + OnsTo(h, ids[1..])
  }

  lemma OnsToReach(h: L.Heap, p: int)
    requires L.Ordered(h) && L.InHeap(h, p)
    ensures OnsTo(h, L.Reach(h, p)) == [On(p, h.nodes[p].remote)] + OnsTo(h, L.Reach(h, h.nodes[p].next))
  {
    var rest := L.Reach(h, h.nodes[p].next);
    assert L.Reach(h, p) == [p] + rest && ([p] + rest)[1..] == rest;
  }

  /** Steps of one iteration: the test, and in a round one per listed node and two more. */
  ghost function AlarmTurns(s: State): nat
    requires L.Ordered(s.list)
  {
    if Pending(s.flags) then |L.Listed(s.list)| + 3 else 1
  }

  lemma {:induction false} SoloWalk(s: State, ptr: int)
    requires L.Ordered(s.list) && L.NULL <= ptr < |s.list.nodes| && s.alarm == Fire(ptr)
    ensures var ids := L.Reach(s.list, ptr);
            Run(s, Times(AlarmStep, |ids| + 2)) ==
            s.(out := s.out + OnsTo(s.list, ids), alarm := Guard, flags := s.flags.(timeout := false))
    decreases ptr
  {
    var ids := L.Reach(s.list, ptr);
    RunTimes(s, AlarmStep, |ids| + 2);
    var t := Step(s, AlarmStep);
    if ptr == L.NULL {
      RunTimes(t, AlarmStep, 1);
      assert s.out + [] == s.out;
    } else {
      var next := s.list.nodes[ptr].next;
      SoloWalk(t, next);
      assert ids[1..] == L.Reach(s.list, next);
      assert s.out + OnsTo(s.list, ids) == t.out + OnsTo(s.list, ids[1..]);
    }
  }

  /** An iteration of the alarm thread with nobody in between: with an alarm pending it sends one ON
      to every listed actuator, newest first, and lowers `is_timeout`; otherwise it does nothing. */
  lemma SoloAlarm(s: State)
    requires L.Ordered(s.list) && s.alarm == Guard
    ensures Run(s, Times(AlarmStep, AlarmTurns(s))) ==
            if Pending(s.flags)
            then s.(out := s.out + OnsTo(s.list, L.Listed(s.list)), flags := s.flags.(timeout := false))
            else s
  {
    RunTimes(s, AlarmStep, AlarmTurns(s));
    if Pending(s.flags) {
      SoloWalk(Step(s, AlarmStep), s.list.head);
    }
  }

  // ----- shell thread -----

  lemma SoloOpenSensor(s: State, name: Name)
    requires s.session.shell.Idle?
    ensures Run(s, [Cmd(AuthSensor(name)), ShellStep]) ==
            s.(session := if name in s.sensors then s.session.(sensorId := None)
                          else s.session.(sensorId := Some(name), shell := InSensor(name, PollSensor(0))))
  {
    var c := Cmd(AuthSensor(name));
    RunSnoc(s, [], c);
    RunSnoc(s, [c], ShellStep);
    assert [] + [c] == [c] && [c] + [ShellStep] == [c, ShellStep];
  }

  /** With no registration, `register_node` polls 51 times, no more and no fewer, before the session
      closes. */
  lemma {:induction false} SoloTimeout(s: State, t: Name, count: nat)
    requires s.session.shell == InSensor(t, PollSensor(count)) && count <= 51 && !s.session.registered
    ensures Run(s, Times(ShellStep, 51 - count)) == s.(session := SensorAt(s.session, t, PollSensor(51)))
    ensures Run(s, Times(ShellStep, 52 - count)) == s.(session := EndSensor(s.session))
    decreases 51 - count
  {
    RunTimes(s, ShellStep, 52 - count);
    if count < 51 {
      RunTimes(s, ShellStep, 51 - count);
      SoloTimeout(Step(s, ShellStep), t, count + 1);
    }
  }

  lemma SoloDeauthSensor(s: State, name: Name)
    requires s.session.shell.Idle?
    ensures Run(s, [Cmd(DeauthSensor(name)), ShellStep, ShellStep]) ==
            var t := s.(session := s.session.(sensorId := None));
            if name in s.sensors
            then t.(sensors := s.sensors - {name}, out := s.out + [Deau(s.sensors[name].remote)])
            else t
  {
    var c := Cmd(DeauthSensor(name));
    RunSnoc(s, [], c);
    RunSnoc(s, [c], ShellStep);
    RunSnoc(s, [c, ShellStep], ShellStep);
    assert [] + [c] == [c] && [c] + [ShellStep] == [c, ShellStep];
    assert [c, ShellStep] + [ShellStep] == [c, ShellStep, ShellStep];
    assert Run(s, []) == s;
    hide Run;
    assert Step(s, c).session == s.session.(sensorId := Some(name), shell := InSensor(name, DeleteSensor));
    assert Step(Step(s, c), ShellStep).session == SensorAt(Step(s, c).session, name, CloseSensor);
  }

  /** After a complete `delete_node` that has taken `cur` out from behind `prev`. */
  function Removed(s: State, cur: int, prev: int): State {
    s.(session := EndActuator(s.session), list := L.Unlink(s.list, cur, prev), out := DeauTo(s, cur))
  }

  function NotFound(s: State): State {
    s.(session := EndActuator(s.session))
  }

  /** A node is reached by one pointer. */
  lemma PredecessorUnique(h: L.Heap, cur: int, p: int, q: int)
    requires L.Inv(h) && L.Linked(h, cur, p) && L.Linked(h, cur, q)
    ensures p == q
  {
    L.ReachProps(h, h.head);
  }

  lemma SoloUnlink(s: State, t: Name, cur: int, prev: int)
    requires L.Ordered(s.list) && L.Linked(s.list, cur, prev) && L.InHeap(s.list, cur)
    requires s.session.shell == InDrop(t, Search(Some(t), cur, prev)) && s.list.nodes[cur].name == t
    ensures Run(s, Times(ShellStep, 4)) == Removed(s, cur, prev)
  {
    L.ReachProps(s.list, s.list.head);
    var s1 := Step(s, ShellStep);
    var s2 := Step(s1, ShellStep);
    var s3 := Step(s2, ShellStep);
    RunTimes(s, ShellStep, 4);
    RunTimes(s1, ShellStep, 3);
    RunTimes(s2, ShellStep, 2);
    RunTimes(s3, ShellStep, 1);
    assert s1 == s.(session := s.session.(shell := InDrop(t, Test(cur, prev))));
    assert cur == s.list.head <==> prev == L.NULL;
    assert s2 == s.(session := s.session.(shell :=
                      InDrop(t, if prev == L.NULL then UnlinkFirst(cur) else UnlinkNext(cur, prev))));
    assert s3 == s.(session := s.session.(shell := InDrop(t, CloseDrop)), list := L.Unlink(s.list, cur, prev),
                    out := DeauTo(s, cur));
  }

  /** The search of `delete_node` with nobody in between. */
  lemma SoloSearch(s: State, t: Name, cur: int, prev: int) returns (steps: nat, c: int, p: int)
    requires L.Inv(s.list) && L.Linked(s.list, cur, prev)
    requires s.session.shell == InDrop(t, Search(Some(t), cur, prev))
    requires L.NULL <= cur < |s.list.nodes|
    requires forall i :: i in L.Listed(s.list) && L.HasName(s.list, i, t) ==> i in L.Reach(s.list, cur)
    ensures if L.Lists(s.list, t)
            then && L.Linked(s.list, c, p) && L.HasName(s.list, c, t)
                 && Run(s, Times(ShellStep, steps)) == Removed(s, c, p)
            else Run(s, Times(ShellStep, steps)) == NotFound(s)
    decreases cur
  {
    var h := s.list;
    var next := SearchStep(s, t, cur, prev);
    if h.nodes[cur].name == t {
      SoloUnlink(s, t, cur, prev);
      assert L.HasName(h, cur, t);
      steps, c, p := 4, cur, prev;
    } else {
      var u := Step(s, ShellStep);
      if next == L.NULL {
        RunTimes(s, ShellStep, 2);
        RunTimes(u, ShellStep, 1);
        steps, c, p := 2, cur, prev;
      } else {
        steps, c, p := SoloSearch(u, t, next, cur);
        RunTimes(s, ShellStep, steps + 1);
        steps := steps + 1;
      }
    }
  }

  /** One turn of the search at a node that does not match. */
  lemma SearchStep(s: State, t: Name, cur: int, prev: int) returns (next: int)
    requires L.Ordered(s.list) && L.Linked(s.list, cur, prev) && L.NULL <= cur < |s.list.nodes|
    requires s.session.shell == InDrop(t, Search(Some(t), cur, prev))
    ensures L.InHeap(s.list, cur) && next == s.list.nodes[cur].next && L.NULL <= next < cur
    ensures L.Reach(s.list, cur) == [cur] + L.Reach(s.list, next)
    ensures next != L.NULL ==> L.Linked(s.list, next, cur)
    ensures s.list.nodes[cur].name != t ==>
              var pc := if next == L.NULL then CloseDrop else Search(Some(t), next, cur);
              Step(s, ShellStep) == s.(session := s.session.(shell := InDrop(t, pc)))
  {
    L.ReachProps(s.list, s.list.head);
    next := s.list.nodes[cur].next;
  }

  /** `de_auth_actuator_node` with nobody in between. */
  lemma SoloDeauthActuator(s: State, t: Name, cur: int, prev: int) returns (steps: nat)
    requires L.Inv(s.list) && s.session.shell.Idle?
    requires L.Lists(s.list, t) ==> L.Linked(s.list, cur, prev) && L.HasName(s.list, cur, t)
    ensures Run(Step(s, Cmd(DeauthActuator(t))), Times(ShellStep, steps)) ==
            if L.Lists(s.list, t) then Removed(s, cur, prev) else NotFound(s)
  {
    var h, open := s.list, Step(s, Cmd(DeauthActuator(t)));
    var u := Step(open, ShellStep);
    if h.head == L.NULL {
      RunTimes(open, ShellStep, 2);
      RunTimes(u, ShellStep, 1);
      steps := 2;
    } else {
      L.ReachProps(h, h.head);
      var k, c, p := SoloSearch(u, t, h.head, L.NULL);
      if L.Lists(h, t) {
        assert c == cur;
        PredecessorUnique(h, cur, prev, p);
      }
      RunTimes(open, ShellStep, k + 1);
      steps := k + 1;
    }
  }
}
