/** How an actuator session ends once `register_node` has reported success. */
module Replies {
  import opened Base
  import opened Gateway
  import opened Invariant
  import opened Sessions
  import L = SharedList

  /** The messages other than ON, in order. */
  function Controls(out: seq<Packet>): seq<Packet> {
    if out == [] then []
    else Controls(out[..|out| - 1]) + if out[|out| - 1].On? then [] else [out[|out| - 1]]
  }

  lemma ControlsSnoc(out: seq<Packet>, p: Packet)
    ensures Controls(out + [p]) == Controls(out) + if p.On? then [] else [p]
  {
    assert (out + [p])[..|out + [p]| - 1] == out;
  }

  /** Only the shell thread sends AUTH and DEAU. */
  lemma OthersSendNoControl(s: State, e: Event)
    requires e != ShellStep
    ensures Controls(Step(s, e).out) == Controls(s.out)
  {
    if Step(s, e).out != s.out {
      var p := Step(s, e).out[|s.out|];
      assert Step(s, e).out == s.out + [p];
      ControlsSnoc(s.out, p);
    }
  }

  function ShellSteps(es: seq<Event>): nat {
    if es == [] then 0 else ShellSteps(es[..|es| - 1]) + if es[|es| - 1] == ShellStep then 1 else 0
  }

  /** The endpoint of the listed record with the name. */
  ghost function RemoteOf(h: L.Heap, t: Name): Remote
    requires L.Lists(h, t)
  {
    var i :| i in L.Listed(h) && L.HasName(h, i, t);
    h.nodes[i].remote
  }

  lemma RemoteOfIs(h: L.Heap, t: Name, j: int)
    requires L.Inv(h) && j in L.Listed(h) && L.HasName(h, j, t)
    ensures L.Lists(h, t) && RemoteOf(h, t) == h.nodes[j].remote
  {
  }

  // ----- the record is there -----

  /** The `get_node` walk of a successful session has not passed the record it looks for. */
  ghost predicate FetchOk(s: State, t: Name, j: int) {
    && Inv(s) && s.session.shell.InActuator? && s.session.shell.typed == t
    && s.session.shell.actuatorAt.Fetch? && s.session.shell.actuatorAt.target == Some(t)
    && s.session.shell.actuatorAt.ptr in L.Listed(s.list)
    && j in L.Listed(s.list) && j <= s.session.shell.actuatorAt.ptr && L.HasName(s.list, j, t)
  }

  lemma FetchNeverMisses(s: State, t: Name, j: int, e: Event)
    requires FetchOk(s, t, j)
    ensures var u := Step(s, e);
            || FetchOk(u, t, j)
            || (&& e == ShellStep && u.session.shell.Idle? && L.InHeap(s.list, j)
                && u.out == s.out + [Auth(s.list.nodes[j].remote)])
  {
    var u, ptr := Step(s, e), s.session.shell.actuatorAt.ptr;
    StepKeepsInv(s, e);
    AuthActuatorStep(s, e);
    assert u.list == s.list;
    if e == ShellStep {
      L.ReachProps(s.list, s.list.head);
      FetchShellStep(s, t, j);
    } else {
      OthersKeepShell(s, e);
    }
  }

  lemma FetchShellStep(s: State, t: Name, j: int)
    requires FetchOk(s, t, j)
    ensures var u, ptr := OnShell(s), s.session.shell.actuatorAt.ptr;
            && L.InHeap(s.list, ptr) && u.list == s.list
            && if ptr == j then u.session.shell.Idle? && u.out == s.out + [Auth(s.list.nodes[j].remote)]
               else var next := s.list.nodes[ptr].next;
                    u.session.shell == InActuator(t, Fetch(Some(t), next)) && j <= next && next in L.Listed(s.list) &&
                    u.out == s.out
  {
    L.ReachProps(s.list, s.list.head);
  }

  /** What holds after some events of a walk that began in `u` and looks for record j. */
  ghost predicate FoundAfter(u: State, t: Name, j: int, es: seq<Event>, v: State) {
    if v.session.shell.Idle?
    then L.InHeap(u.list, j) && Controls(v.out) == Controls(u.out) + [Auth(u.list.nodes[j].remote)]
    else && FetchOk(u, t, j) && FetchOk(v, t, j) && v.list == u.list && Controls(v.out) == Controls(u.out)
         && ShellSteps(es) <= u.session.shell.actuatorAt.ptr - v.session.shell.actuatorAt.ptr
  }

  lemma FoundStep(u: State, t: Name, j: int, es: seq<Event>, v: State, e: Event)
    requires FoundAfter(u, t, j, es, v) && !v.session.shell.Idle?
    ensures FoundAfter(u, t, j, es + [e], Step(v, e))
  {
    assert (es + [e])[..|es + [e]| - 1] == es;
    if e == ShellStep {
      FoundShellStep(v, t, j);
    } else {
      FoundOtherStep(v, t, j, e);
    }
    hide Step, FetchOk;
  }

  lemma FoundShellStep(v: State, t: Name, j: int)
    requires FetchOk(v, t, j)
    ensures var w := Step(v, ShellStep);
            if w.session.shell.Idle?
            then L.InHeap(v.list, j) && Controls(w.out) == Controls(v.out) + [Auth(v.list.nodes[j].remote)]
            else && FetchOk(w, t, j) && w.list == v.list && Controls(w.out) == Controls(v.out)
                 && w.session.shell.actuatorAt.ptr < v.session.shell.actuatorAt.ptr
  {
    FetchNeverMisses(v, t, j, ShellStep);
    FetchShellStep(v, t, j);
    L.ReachProps(v.list, v.list.head);
    ControlsSnoc(v.out, Auth(v.list.nodes[j].remote));
  }

  lemma FoundOtherStep(v: State, t: Name, j: int, e: Event)
    requires FetchOk(v, t, j) && e != ShellStep
    ensures var w := Step(v, e);
            && FetchOk(w, t, j) && w.list == v.list && Controls(w.out) == Controls(v.out)
            && w.session.shell == v.session.shell
  {
    FetchNeverMisses(v, t, j, e);
    AuthActuatorStep(v, e);
    OthersKeepShell(v, e);
    OthersSendNoControl(v, e);
  }

  lemma {:induction false} FoundRun(u: State, t: Name, j: int, es: seq<Event>)
    requires FetchOk(u, t, j) && Busy(u, es)
    ensures FoundAfter(u, t, j, es, Run(u, es))
  {
    assert u.session.shell.InActuator?;
    hide Step, FetchOk;
    if es != [] {
      var init := es[..|es| - 1];
      BusyPrefix(u, es);
      FoundRun(u, t, j, init);
      FoundStep(u, t, j, init, Run(u, init), es[|es| - 1]);
      assert init + [es[|es| - 1]] == es;
    }
  }

  // ----- the record is not there, or its name is gone -----

  /** The walk looks for nothing, or for a name that no listed record at or below it carries. */
  ghost predicate MissOk(s: State, t: Name) {
    && Inv(s) && s.session.shell.InActuator? && s.session.shell.typed == t && s.session.shell.actuatorAt.Fetch?
    && var pc := s.session.shell.actuatorAt;
       && (pc.ptr == L.NULL || pc.ptr in L.Listed(s.list))
       && (pc.target == Some(t) ==> forall i :: i in L.Listed(s.list) && i <= pc.ptr ==> !L.HasName(s.list, i, t))
  }

  ghost predicate MissedAfter(u: State, t: Name, es: seq<Event>, v: State) {
    && Controls(v.out) == Controls(u.out)
    && (v.session.shell.Idle? ||
        (&& MissOk(u, t) && MissOk(v, t)
         && ShellSteps(es) <= u.session.shell.actuatorAt.ptr - v.session.shell.actuatorAt.ptr))
  }

  lemma MissShellStep(v: State, t: Name)
    requires MissOk(v, t)
    ensures var w := Step(v, ShellStep);
            && w.out == v.out
            && (w.session.shell.Idle? ||
                (MissOk(w, t) && w.session.shell.actuatorAt.ptr < v.session.shell.actuatorAt.ptr))
  {
    var ptr := v.session.shell.actuatorAt.ptr;
    StepKeepsInv(v, ShellStep);
    L.ReachProps(v.list, v.list.head);
    if ptr != L.NULL && v.session.shell.actuatorAt.target == Some(t) {
      assert !L.HasName(v.list, ptr, t);
    }
  }

  /** An insertion during the walk goes in front of it. */
  lemma MissOtherStep(v: State, t: Name, e: Event)
    requires MissOk(v, t) && e != ShellStep
    ensures var w := Step(v, e); MissOk(w, t) && w.session.shell == v.session.shell
  {
    var w := Step(v, e);
    StepKeepsInv(v, e);
    OthersKeepShell(v, e);
    AuthActuatorStep(v, e);
    if w.list != v.list {
      var r :| w.list == L.Insert(v.list, t, r);
      L.InsertListed(v.list, t, r);
      L.ReachProps(v.list, v.list.head);
      forall i | i in L.Listed(w.list) && i <= v.session.shell.actuatorAt.ptr && L.HasName(w.list, i, t)
        ensures i in L.Listed(v.list) && L.HasName(v.list, i, t)
      {
      }
    }
  }

  lemma MissedStep(u: State, t: Name, es: seq<Event>, v: State, e: Event)
    requires MissedAfter(u, t, es, v) && !v.session.shell.Idle?
    ensures MissedAfter(u, t, es + [e], Step(v, e))
  {
    assert (es + [e])[..|es + [e]| - 1] == es;
    if e == ShellStep {
      MissShellStep(v, t);
    } else {
      MissOtherStep(v, t, e);
      OthersSendNoControl(v, e);
    }
  }

  lemma {:induction false} MissedRun(u: State, t: Name, es: seq<Event>)
    requires MissOk(u, t) && Busy(u, es)
    ensures MissedAfter(u, t, es, Run(u, es))
  {
    hide Step, MissOk;
    if es != [] {
      var init := es[..|es| - 1];
      BusyPrefix(u, es);
      MissedRun(u, t, init);
      MissedStep(u, t, init, Run(u, init), es[|es| - 1]);
      assert init + [es[|es| - 1]] == es;
    }
  }

  // ----- the end of the session -----

  /** The `get_node` walk starts at the head with whatever ACTUATOR_ID says now. */
  lemma ReplyStarts(s: State, t: Name)
    requires Inv(s) && s.session.shell == InActuator(t, ReplyActuator)
    ensures var u := Step(s, ShellStep);
            && u.list == s.list && u.out == s.out
            && u.session.shell == InActuator(t, Fetch(s.session.actuatorId, s.list.head))
            && (s.session.actuatorId.Some? && L.Lists(s.list, t) ==> exists j :: FetchOk(u, t, j))
            && (s.session.actuatorId.None? || !L.Lists(s.list, t) ==> MissOk(u, t))
  {
    var u := Step(s, ShellStep);
    StepKeepsInv(s, ShellStep);
    L.ReachProps(s.list, s.list.head);
    if s.session.actuatorId.Some? && L.Lists(s.list, t) {
      var j :| j in L.Listed(s.list) && L.HasName(s.list, j, t);
      assert FetchOk(u, t, j);
    }
  }

  /** Over every run from a successful poll to the prompt: the session sends exactly one control
      message, AUTH to the record it was opened for, if ACTUATOR_ID is still set when `get_node` is
      called and the record is listed; otherwise it sends none. */
  lemma ReplyTellsIff(s: State, t: Name, rest: seq<Event>)
    requires Inv(s) && s.session.shell == InActuator(t, ReplyActuator)
    requires Busy(Step(s, ShellStep), rest) && Run(Step(s, ShellStep), rest).session.shell.Idle?
    ensures Controls(Run(Step(s, ShellStep), rest).out) ==
            if s.session.actuatorId.Some? && L.Lists(s.list, t)
            then Controls(s.out) + [Auth(RemoteOf(s.list, t))]
            else Controls(s.out)
  {
    ReplyStarts(s, t);
    var u := Step(s, ShellStep);
    if s.session.actuatorId.Some? && L.Lists(s.list, t) {
      var j :| FetchOk(u, t, j);
      FoundRun(u, t, j, rest);
      RemoteOfIs(s.list, t, j);
    } else {
      MissedRun(u, t, rest);
    }
  }

  /** And the session does end, insertions during the walk notwithstanding. */
  lemma ReplyEnds(s: State, t: Name, rest: seq<Event>)
    requires Inv(s) && s.session.shell == InActuator(t, ReplyActuator)
    requires ShellSteps(rest) > s.list.head + 1
    ensures !(Busy(Step(s, ShellStep), rest) && !Run(Step(s, ShellStep), rest).session.shell.Idle?)
  {
    ReplyStarts(s, t);
    var u := Step(s, ShellStep);
    if Busy(u, rest) && !Run(u, rest).session.shell.Idle? {
      if s.session.actuatorId.Some? && L.Lists(s.list, t) {
        var j :| FetchOk(u, t, j);
        FoundRun(u, t, j, rest);
        L.ReachProps(s.list, s.list.head);
      } else {
        MissedRun(u, t, rest);
      }
    }
  }
}
