/** The walks that look for a name while the list changes under them: `node_exists` at the start of
    `auth_actuator`, and the search of `delete_node`, with all that `deauth_actuator` leaves behind. */
module Lookups {
  import opened Base
  import opened Gateway
  import opened Invariant
  import opened Sessions
  import opened Deauth
  import opened Replies
  import L = SharedList

  /** A walk at p has the listed record j, named t, still ahead of it. */
  ghost predicate Ahead(h: L.Heap, t: Name, p: int, j: int)
    requires L.Ordered(h)
  {
    p in L.Listed(h) && j in L.Listed(h) && j <= p && L.HasName(h, j, t)
  }

  /** A walk at p has no listed record named t ahead of it. */
  ghost predicate NoneAhead(h: L.Heap, t: Name, p: int)
    requires L.Ordered(h)
  {
    && (p == L.NULL || p in L.Listed(h))
    && forall i :: i in L.Listed(h) && i <= p ==> !L.HasName(h, i, t)
  }

  lemma AheadAdvances(h: L.Heap, t: Name, p: int, j: int)
    requires L.Inv(h) && Ahead(h, t, p, j)
    ensures L.InHeap(h, p) && (h.nodes[p].name == t <==> p == j)
    ensures p != j ==> h.nodes[p].next != L.NULL && Ahead(h, t, h.nodes[p].next, j)
  {
    L.ReachProps(h, h.head);
  }

  lemma NoneAheadAdvances(h: L.Heap, t: Name, p: int)
    requires L.Inv(h) && NoneAhead(h, t, p) && p != L.NULL
    ensures L.InHeap(h, p) && h.nodes[p].name != t && NoneAhead(h, t, h.nodes[p].next)
  {
    L.ReachProps(h, h.head);
    assert L.InHeap(h, p) && !L.HasName(h, p, t);
  }

  /** An insertion goes in front of every walk. */
  lemma NoneAheadAfterInsert(h: L.Heap, t: Name, p: int, name: Name, r: Remote)
    requires L.Ordered(h) && NoneAhead(h, t, p)
    ensures var g := L.Insert(h, name, r); L.Ordered(g) && NoneAhead(g, t, p)
  {
    var g := L.Insert(h, name, r);
    L.InsertListed(h, name, r);
    L.ReachProps(h, h.head);
    forall i | i in L.Listed(g) && i <= p
      ensures !L.HasName(g, i, t)
    {
      assert i in L.Listed(h) && !L.HasName(h, i, t);
    }
  }

  /** From the head there is something ahead exactly when the name is listed. */
  lemma FromHead(h: L.Heap, t: Name)
    requires L.Inv(h)
    ensures L.Lists(h, t) <==> exists j :: Ahead(h, t, h.head, j)
    ensures !L.Lists(h, t) ==> NoneAhead(h, t, h.head)
  {
    L.ReachProps(h, h.head);
    if L.Lists(h, t) {
      var j :| j in L.Listed(h) && L.HasName(h, j, t);
      assert Ahead(h, t, h.head, j);
    }
  }

  // ----- node_exists -----

  predicate Checking(s: State, t: Name) {
    s.session.shell.InActuator? && s.session.shell.typed == t && s.session.shell.actuatorAt.Check?
  }

  /** The walk of `node_exists` will meet j, or will meet no match. */
  ghost predicate CheckAt(s: State, t: Name, found: bool, j: int) {
    && Inv(s) && Checking(s, t)
    && var pc := s.session.shell.actuatorAt;
       if found then pc.target == Some(t) && Ahead(s.list, t, pc.ptr, j)
       else if pc.target == Some(t) then NoneAhead(s.list, t, pc.ptr)
       else pc.ptr == L.NULL || pc.ptr in L.Listed(s.list)
  }

  /** Where the walk ends. */
  predicate CheckDone(s: State, t: Name, found: bool) {
    s.session.shell == if found then Idle else InActuator(t, PollActuator(0))
  }

  lemma CheckShellStep(s: State, t: Name, found: bool, j: int)
    requires CheckAt(s, t, found, j)
    ensures var u := Step(s, ShellStep);
            || CheckDone(u, t, found)
            || (CheckAt(u, t, found, j) && u.session.shell.actuatorAt.ptr < s.session.shell.actuatorAt.ptr)
  {
    var ptr := s.session.shell.actuatorAt.ptr;
    StepKeepsInv(s, ShellStep);
    L.ReachProps(s.list, s.list.head);
    if found {
      AheadAdvances(s.list, t, ptr, j);
    } else if ptr != L.NULL && s.session.shell.actuatorAt.target == Some(t) {
      NoneAheadAdvances(s.list, t, ptr);
    }
  }

  lemma CheckOtherStep(s: State, t: Name, found: bool, j: int, e: Event)
    requires CheckAt(s, t, found, j) && e != ShellStep
    ensures var u := Step(s, e); CheckAt(u, t, found, j) && u.session.shell == s.session.shell
  {
    var u := Step(s, e);
    StepKeepsInv(s, e);
    OthersKeepShell(s, e);
    AuthActuatorStep(s, e);
    if u.list != s.list {
      var r :| u.list == L.Insert(s.list, t, r);
      L.InsertListed(s.list, t, r);
      if !found && s.session.shell.actuatorAt.target == Some(t) {
        NoneAheadAfterInsert(s.list, t, s.session.shell.actuatorAt.ptr, t, r);
      }
    }
  }

  /** The shell is inside the walk after every proper prefix. */
  ghost predicate CheckingAll(s: State, t: Name, es: seq<Event>) {
    forall k :: 0 <= k < |es| ==> Checking(Run(s, es[..k]), t)
  }

  ghost predicate CheckedAfter(u: State, t: Name, found: bool, j: int, es: seq<Event>, v: State) {
    && Checking(u, t)
    && if CheckDone(v, t, found) then ShellSteps(es) <= u.session.shell.actuatorAt.ptr + 2
       else && CheckAt(v, t, found, j)
            && ShellSteps(es) <= u.session.shell.actuatorAt.ptr - v.session.shell.actuatorAt.ptr
  }

  lemma CheckedStep(u: State, t: Name, found: bool, j: int, es: seq<Event>, v: State, e: Event)
    requires CheckedAfter(u, t, found, j, es, v) && Checking(v, t)
    ensures CheckedAfter(u, t, found, j, es + [e], Step(v, e))
  {
    assert (es + [e])[..|es + [e]| - 1] == es;
    if e == ShellStep {
      CheckShellStep(v, t, found, j);
    } else {
      CheckOtherStep(v, t, found, j, e);
    }
  }

  lemma {:induction false} CheckedRun(u: State, t: Name, found: bool, j: int, es: seq<Event>)
    requires CheckAt(u, t, found, j) && CheckingAll(u, t, es)
    ensures CheckedAfter(u, t, found, j, es, Run(u, es))
  {
    if es != [] {
      var init := es[..|es| - 1];
      assert forall k :: 0 <= k < |init| ==> init[..k] == es[..k];
      CheckedRun(u, t, found, j, init);
      CheckedStep(u, t, found, j, init, Run(u, init), es[|es| - 1]);
      assert init + [es[|es| - 1]] == es;
    }
  }

  lemma CheckStarts(s: State, t: Name) returns (j: int)
    requires Inv(s) && s.session.shell == InActuator(t, OpenActuator)
    ensures var found := s.session.actuatorId.Some? && L.Lists(s.list, t);
            var u := Step(s, ShellStep);
            CheckAt(u, t, found, j) && u.session.shell.actuatorAt.ptr == s.list.head && u.list == s.list
  {
    j := L.NULL;
    StepKeepsInv(s, ShellStep);
    FromHead(s.list, t);
    L.ReachProps(s.list, s.list.head);
    if L.Lists(s.list, t) {
      j :| Ahead(s.list, t, s.list.head, j);
    }
  }

  /** Over every run from the start of the `node_exists` walk to its end: the session is refused if
      ACTUATOR_ID was set and t listed as the walk began, and goes on to poll otherwise, whatever is
      inserted meanwhile. */
  lemma CheckRefusesIff(s: State, t: Name, rest: seq<Event>)
    requires Inv(s) && s.session.shell == InActuator(t, OpenActuator)
    requires CheckingAll(Step(s, ShellStep), t, rest) && !Checking(Run(Step(s, ShellStep), rest), t)
    ensures Run(Step(s, ShellStep), rest).session.shell ==
            if s.session.actuatorId.Some? && L.Lists(s.list, t) then Idle else InActuator(t, PollActuator(0))
  {
    var j := CheckStarts(s, t);
    CheckedRun(Step(s, ShellStep), t, s.session.actuatorId.Some? && L.Lists(s.list, t), j, rest);
  }

  /** And the walk does end, within a bound fixed at its start. */
  lemma CheckEnds(s: State, t: Name, rest: seq<Event>)
    requires Inv(s) && s.session.shell == InActuator(t, OpenActuator)
    requires ShellSteps(rest) > s.list.head + 1
    ensures !(CheckingAll(Step(s, ShellStep), t, rest) && Checking(Run(Step(s, ShellStep), rest), t))
  {
    var j := CheckStarts(s, t);
    var u := Step(s, ShellStep);
    if CheckingAll(u, t, rest) && Checking(Run(u, rest), t) {
      CheckedRun(u, t, s.session.actuatorId.Some? && L.Lists(s.list, t), j, rest);
      L.ReachProps(s.list, s.list.head);
    }
  }

  // ----- deauth_actuator: one step -----

  /** Shell steps that are left, at most. */
  function Rank(sh: Shell): int {
    if !sh.InDrop? then 0
    else match sh.dropAt
         case Search(_, cur, _) => cur + 4
         case Test(_, _) => 3
         case UnlinkFirst(_) => 2
         case UnlinkNext(_, _) => 2
         case _ => 1
  }

  lemma RankPositive(s: State)
    requires Inv(s) && s.session.shell.InDrop?
    ensures Rank(s.session.shell) > 0
  {
    L.ReachProps(s.list, s.list.head);
  }

  /** The unlink is still to come, and the list holds the record j that it will take out. */
  ghost predicate FindsAt(s: State, t: Name, j: int) {
    && Inv(s) && s.session.shell.InDrop? && s.session.shell.typed == t
    && j in L.Listed(s.list) && L.HasName(s.list, j, t)
    && match s.session.shell.dropAt
       case Search(target, cur, _) => target == Some(t) && Ahead(s.list, t, cur, j)
       case Test(cur, _) => cur == j
       case UnlinkFirst(cur) => cur == j
       case UnlinkNext(cur, _) => cur == j
       case _ => false
  }

  /** Nothing will be unlinked any more. */
  ghost predicate MissesAt(s: State, t: Name) {
    && Inv(s) && s.session.shell.InDrop? && s.session.shell.typed == t
    && match s.session.shell.dropAt
       case Search(target, cur, _) => target == Some(t) ==> NoneAhead(s.list, t, cur)
       case CloseDrop => true
       case _ => false
  }

  /** Whatever is not the shell may admit t while it is not listed, and nothing else that matters. */
  lemma DropOtherStep(s: State, t: Name, e: Event)
    requires Inv(s) && s.session.shell.InDrop? && s.session.shell.typed == t && e != ShellStep
    ensures var u := Step(s, e);
            && u.session.shell == s.session.shell && Controls(u.out) == Controls(s.out)
            && (Inserted(s, e) == 1 ==> !L.Lists(s.list, t) && exists r :: u.list == L.Insert(s.list, t, r))
            && (Inserted(s, e) == 0 ==> u.list == s.list)
            && (L.Lists(u.list, t) <==> L.Lists(s.list, t) || Inserted(s, e) == 1)
            && (u.session.registered <==> s.session.registered || Inserted(s, e) == 1)
  {
    OthersKeepShell(s, e);
    OthersSendNoControl(s, e);
    if Inserted(s, e) == 1 {
      InsertLists(s.list, t, e.identity.value.remote);
    } else {
      OtherStepsKeepList(s, e);
    }
  }

  lemma FindsOtherStep(s: State, t: Name, j: int, e: Event)
    requires FindsAt(s, t, j) && e != ShellStep
    ensures var u := Step(s, e);
            && FindsAt(u, t, j) && u.list == s.list && Controls(u.out) == Controls(s.out)
            && u.session.shell == s.session.shell && u.session.registered == s.session.registered
            && Inserted(s, e) == 0
  {
    assert L.Lists(s.list, t);
    DropOtherStep(s, t, e);
    StepKeepsInv(s, e);
  }

  lemma MissesOtherStep(s: State, t: Name, e: Event)
    requires MissesAt(s, t) && e != ShellStep
    ensures MissesAt(Step(s, e), t)
  {
    DropOtherStep(s, t, e);
    StepKeepsInv(s, e);
    var pc := s.session.shell.dropAt;
    if Inserted(s, e) == 1 && pc.Search? && pc.target == Some(t) {
      NoneAheadAfterInsert(s.list, t, pc.cur, t, e.identity.value.remote);
    }
  }

  lemma FindsSearchStep(s: State, t: Name, j: int)
    requires FindsAt(s, t, j) && s.session.shell.dropAt.Search?
    ensures var pc := s.session.shell.dropAt;
            && L.InHeap(s.list, pc.cur) && s.list.nodes[pc.cur].next < pc.cur
            && OnShell(s) == s.(session := s.session.(shell := InDrop(t,
                 if pc.cur == j then Test(j, pc.prev) else Search(Some(t), s.list.nodes[pc.cur].next, pc.cur))))
            && (pc.cur != j ==> Ahead(s.list, t, s.list.nodes[pc.cur].next, j))
            && pc.cur >= 0
  {
    AheadAdvances(s.list, t, s.session.shell.dropAt.cur, j);
  }

  lemma FindsWalkStep(s: State, t: Name, j: int)
    requires FindsAt(s, t, j) && !Unlinking(s, ShellStep)
    ensures var u := Step(s, ShellStep);
            && Rank(u.session.shell) < Rank(s.session.shell) && u.session.registered == s.session.registered
            && FindsAt(u, t, j) && u.list == s.list && u.out == s.out
  {
    StepKeepsInv(s, ShellStep);
    if s.session.shell.dropAt.Search? {
      FindsSearchStep(s, t, j);
    }
    hide Inv, L.Lists, Ahead;
  }

  lemma FindsUnlinkStep(s: State, t: Name, j: int)
    requires FindsAt(s, t, j) && Unlinking(s, ShellStep)
    ensures var u := Step(s, ShellStep);
            && Rank(u.session.shell) < Rank(s.session.shell) && u.session.registered == s.session.registered
            && MissesAt(u, t) && u.session.shell.dropAt.CloseDrop? && !L.Lists(u.list, t)
            && L.InHeap(s.list, j) && u.out == s.out + [Deau(s.list.nodes[j].remote)]
  {
    UnlinkStepRemovesTyped(s, t);
    hide Inv, L.Lists;
  }

  /** A search that has the record ahead of it reaches it, and the unlink tells it. */
  lemma FindsShellStep(s: State, t: Name, j: int)
    requires FindsAt(s, t, j)
    ensures var u := Step(s, ShellStep);
            && Rank(u.session.shell) < Rank(s.session.shell) && u.session.registered == s.session.registered
            && if Unlinking(s, ShellStep)
               then && MissesAt(u, t) && u.session.shell.dropAt.CloseDrop? && !L.Lists(u.list, t)
                    && L.InHeap(s.list, j) && u.out == s.out + [Deau(s.list.nodes[j].remote)]
               else FindsAt(u, t, j) && u.list == s.list && u.out == s.out
  {
    hide Step, FindsAt, L.Lists, Rank;
    if Unlinking(s, ShellStep) {
      FindsUnlinkStep(s, t, j);
    } else {
      FindsWalkStep(s, t, j);
    }
  }

  lemma MissesShellStep(s: State, t: Name)
    requires MissesAt(s, t)
    ensures var u := Step(s, ShellStep);
            && (u.session.shell.Idle? || MissesAt(u, t)) && Rank(u.session.shell) < Rank(s.session.shell)
            && u.list == s.list && u.out == s.out && u.session.registered == s.session.registered
  {
    StepKeepsInv(s, ShellStep);
    L.ReachProps(s.list, s.list.head);
    var pc := s.session.shell.dropAt;
    if pc.Search? && pc.target == Some(t) {
      NoneAheadAdvances(s.list, t, pc.cur);
    }
  }

  // ----- deauth_actuator: runs -----

  /** What has become of the command that was in state u. */
  ghost predicate MissedSince(u: State, t: Name, es: seq<Event>, v: State) {
    && (v.session.shell.Idle? || MissesAt(v, t))
    && Controls(v.out) == Controls(u.out)
    && ActuatorAdmissions(u, es) <= 1
    && (ActuatorAdmissions(u, es) == 1 ==> !L.Lists(u.list, t))
    && (L.Lists(v.list, t) <==> L.Lists(u.list, t) || ActuatorAdmissions(u, es) == 1)
    && (v.session.registered <==> u.session.registered || ActuatorAdmissions(u, es) == 1)
    && ShellSteps(es) <= Rank(u.session.shell) - Rank(v.session.shell)
  }

  lemma MissedSinceStep(u: State, t: Name, init: seq<Event>, e: Event)
    requires MissedSince(u, t, init, Run(u, init)) && !Run(u, init).session.shell.Idle?
    ensures MissedSince(u, t, init + [e], Run(u, init + [e]))
  {
    var es, v := init + [e], Run(u, init);
    assert es[..|es| - 1] == init;
    if e == ShellStep {
      MissesShellStep(v, t);
    } else {
      MissesOtherStep(v, t, e);
      DropOtherStep(v, t, e);
    }
    hide Step, MissesAt, L.Lists, Controls;
  }

  lemma {:induction false} MissedSinceRun(u: State, t: Name, es: seq<Event>)
    requires MissesAt(u, t) && Busy(u, es)
    ensures MissedSince(u, t, es, Run(u, es))
  {
    hide Step, MissesAt, L.Lists, Rank;
    if es != [] {
      var init := es[..|es| - 1];
      BusyPrefix(u, es);
      MissedSinceRun(u, t, init);
      assert init + [es[|es| - 1]] == es;
      MissedSinceStep(u, t, init, es[|es| - 1]);
    }
  }

  ghost predicate FoundSince(u: State, t: Name, j: int, es: seq<Event>, v: State) {
    && L.InHeap(u.list, j)
    && ShellSteps(es) <= Rank(u.session.shell) - Rank(v.session.shell)
    && ActuatorAdmissions(u, es) <= 1
    && (v.session.registered <==> u.session.registered || ActuatorAdmissions(u, es) == 1)
    && if v.session.shell.Idle? || MissesAt(v, t)
       then && Controls(v.out) == Controls(u.out) + [Deau(u.list.nodes[j].remote)]
            && (L.Lists(v.list, t) <==> ActuatorAdmissions(u, es) == 1)
       else && FindsAt(v, t, j) && v.list == u.list && Controls(v.out) == Controls(u.out)
            && ActuatorAdmissions(u, es) == 0
  }

  lemma FoundSinceStep(u: State, t: Name, j: int, init: seq<Event>, e: Event)
    requires FoundSince(u, t, j, init, Run(u, init)) && !Run(u, init).session.shell.Idle?
    ensures FoundSince(u, t, j, init + [e], Run(u, init + [e]))
  {
    var es, v := init + [e], Run(u, init);
    assert es[..|es| - 1] == init;
    if MissesAt(v, t) {
      if e == ShellStep {
        MissesShellStep(v, t);
      } else {
        MissesOtherStep(v, t, e);
        DropOtherStep(v, t, e);
      }
    } else if e == ShellStep {
      FindsShellStep(v, t, j);
      ControlsSnoc(v.out, Deau(v.list.nodes[j].remote));
    } else {
      FindsOtherStep(v, t, j, e);
    }
  }

  lemma FindsNotMisses(s: State, t: Name, j: int)
    requires FindsAt(s, t, j)
    ensures !MissesAt(s, t) && !s.session.shell.Idle? && L.InHeap(s.list, j)
  {
  }

  lemma {:induction false} FoundSinceRun(u: State, t: Name, j: int, es: seq<Event>)
    requires FindsAt(u, t, j) && Busy(u, es)
    ensures FoundSince(u, t, j, es, Run(u, es))
  {
    FindsNotMisses(u, t, j);
    hide Step, MissesAt, FindsAt, L.Lists, Rank;
    if es != [] {
      var init := es[..|es| - 1];
      BusyPrefix(u, es);
      FoundSinceRun(u, t, j, init);
      assert init + [es[|es| - 1]] == es;
      FoundSinceStep(u, t, j, init, es[|es| - 1]);
    }
  }

  /** From the typed command to the set-up of `delete_node`. */
  lemma {:induction false} BeforeSetUp(s: State, t: Name, es: seq<Event>)
    requires Inv(s) && s.session.shell == InDrop(t, SetUp) && NoShellStep(es)
    ensures var d := Run(s, es);
            && Inv(d) && d.session.shell == s.session.shell && Controls(d.out) == Controls(s.out)
            && ActuatorAdmissions(s, es) <= 1
            && (ActuatorAdmissions(s, es) == 1 ==> !L.Lists(s.list, t))
            && (L.Lists(d.list, t) <==> L.Lists(s.list, t) || ActuatorAdmissions(s, es) == 1)
            && (d.session.registered <==> s.session.registered || ActuatorAdmissions(s, es) == 1)
  {
    if es != [] {
      var init, e := es[..|es| - 1], es[|es| - 1];
      BeforeSetUp(s, t, init);
      DropOtherStep(Run(s, init), t, e);
      StepKeepsInv(Run(s, init), e);
      hide Step, Inv, L.Lists, Controls;
    }
  }

  lemma SetUpStep(d: State, t: Name) returns (j: int)
    requires Inv(d) && d.session.shell == InDrop(t, SetUp)
    ensures var u := Step(d, ShellStep);
            && u.list == d.list && u.out == d.out && u.session.registered == d.session.registered
            && Rank(u.session.shell) <= d.list.head + 4
            && if d.session.actuatorId.Some? && L.Lists(d.list, t)
               then FindsAt(u, t, j) && RemoteOf(d.list, t) == d.list.nodes[j].remote
               else MissesAt(u, t)
  {
    j := L.NULL;
    StepKeepsInv(d, ShellStep);
    FromHead(d.list, t);
    L.ReachProps(d.list, d.list.head);
    if L.Lists(d.list, t) {
      j :| Ahead(d.list, t, d.list.head, j);
      RemoteOfIs(d.list, t, j);
    }
  }

  /** A whole `deauth_actuator t`, in every interleaving: any events before the set-up of
      `delete_node`, in state d, and any around the steps from there to the prompt.  The command
      sends one control message, DEAU to the record named t, if ACTUATOR_ID is set and t listed at
      the set-up, and none otherwise.  At the prompt t is listed if and only if a registration was
      accepted after the set-up, or the set-up found ACTUATOR_ID cleared with t listed; and the flag
      is up if and only if it was, or a registration was accepted on the way. */
  lemma DeauthActuatorLeaves(s: State, t: Name, before: seq<Event>, rest: seq<Event>)
    requires Inv(s) && s.session.shell == InDrop(t, SetUp) && NoShellStep(before)
    requires Busy(Step(Run(s, before), ShellStep), rest)
    requires Run(Step(Run(s, before), ShellStep), rest).session.shell.Idle?
    ensures var d := Run(s, before);
            var u := Step(d, ShellStep);
            var v := Run(u, rest);
            && ActuatorAdmissions(s, before) <= 1 && ActuatorAdmissions(u, rest) <= 1
            && (L.Lists(d.list, t) <==> L.Lists(s.list, t) || ActuatorAdmissions(s, before) == 1)
            && Controls(v.out) == Controls(s.out) +
                 (if d.session.actuatorId.Some? && L.Lists(d.list, t) then [Deau(RemoteOf(d.list, t))] else [])
            && (L.Lists(v.list, t) <==>
                  ActuatorAdmissions(u, rest) == 1 || (d.session.actuatorId.None? && L.Lists(d.list, t)))
            && (v.session.registered <==>
                  s.session.registered || ActuatorAdmissions(s, before) == 1 || ActuatorAdmissions(u, rest) == 1)
  {
    BeforeSetUp(s, t, before);
    var d := Run(s, before);
    var j := SetUpStep(d, t);
    var u := Step(d, ShellStep);
    if d.session.actuatorId.Some? && L.Lists(d.list, t) {
      FoundSinceRun(u, t, j, rest);
    } else {
      MissedSinceRun(u, t, rest);
    }
    hide Step, Inv, L.Lists, Controls, MissesAt, FindsAt, RemoteOf;
  }

  /** From its set-up on, the command takes at most four shell steps more than the index of the head
      it started from, insertions notwithstanding. */
  lemma DeauthActuatorEnds(d: State, t: Name, rest: seq<Event>)
    requires Inv(d) && d.session.shell == InDrop(t, SetUp)
    requires ShellSteps(rest) >= d.list.head + 4
    requires Busy(Step(d, ShellStep), rest)
    ensures Run(Step(d, ShellStep), rest).session.shell.Idle?
  {
    var j := SetUpStep(d, t);
    var u := Step(d, ShellStep);
    if d.session.actuatorId.Some? && L.Lists(d.list, t) {
      FoundSinceRun(u, t, j, rest);
    } else {
      MissedSinceRun(u, t, rest);
    }
    if !Run(u, rest).session.shell.Idle? {
      RankPositive(Run(u, rest));
    }
  }
  // ----- a registration under another name -----

  /** The command in progress still has t to take out of the list. */
  ghost predicate WillUnlink(s: State, t: Name) {
    && s.session.shell.InDrop? && L.Lists(s.list, t)
    && match s.session.shell.dropAt
       case Search(target, cur, _) => target == Some(t) && !NoneAhead(s.list, t, cur)
       case CloseDrop => false
       case _ => true
  }

  /** ACTUATOR_ID is clear, or t stays listed as long as it is not. */
  ghost predicate Closed(s: State, t: Name) {
    && Inv(s)
    && (s.session.actuatorId.Some? ==>
          && s.session.actuatorId == Some(t) && L.Lists(s.list, t)
          && (s.session.shell.InActuator? || MissesAt(s, t)))
  }

  lemma ClosedStep(s: State, t: Name, e: Event)
    requires Closed(s, t) && !TypesActuator(e)
    ensures Closed(Step(s, e), t) && |Step(s, e).list.nodes| == |s.list.nodes|
  {
    StepKeepsInv(s, e);
    if s.session.actuatorId.None? {
      NoActuatorNameStep(s, e);
    } else if s.session.shell.InActuator? {
      AuthActuatorStep(s, e);
    } else if e == ShellStep {
      MissesShellStep(s, t);
    } else {
      MissesOtherStep(s, t, e);
      DropOtherStep(s, t, e);
    }
  }

  lemma {:induction false} ClosedRun(s: State, t: Name, es: seq<Event>)
    requires Closed(s, t) && NoActuatorCommand(es)
    ensures Closed(Run(s, es), t) && |Run(s, es).list.nodes| == |s.list.nodes|
  {
    if es != [] {
      ClosedRun(s, t, es[..|es| - 1]);
      ClosedStep(Run(s, es[..|es| - 1]), t, es[|es| - 1]);
    }
  }

  /** Left alone, the command takes t out and still has ACTUATOR_ID set. */
  lemma UnlinkAhead(s: State, t: Name, j: int) returns (es: seq<Event>)
    requires FindsAt(s, t, j) && s.session.actuatorId == Some(t)
    ensures NoActuatorCommand(es)
    ensures var u := Run(s, es);
            u.session.actuatorId == Some(t) && !L.Lists(u.list, t) && |u.list.nodes| == |s.list.nodes|
    decreases Rank(s.session.shell)
  {
    var u := Step(s, ShellStep);
    FindsShellStep(s, t, j);
    FindsKeepsName(s, t, j);
    RankPositive(s);
    var rest: seq<Event> := [];
    if !Unlinking(s, ShellStep) {
      rest := UnlinkAhead(u, t, j);
    }
    RunConcat(s, [ShellStep], rest);
    assert [ShellStep][..0] == [];
    assert Run(s, [ShellStep]) == u;
    es := [ShellStep] + rest;
  }

  lemma FindsKeepsName(s: State, t: Name, j: int)
    requires FindsAt(s, t, j)
    ensures var u := Step(s, ShellStep);
            u.session.actuatorId == s.session.actuatorId && |u.list.nodes| == |s.list.nodes|
  {
  }

  lemma WillUnlinkFinds(s: State, t: Name)
    requires Inv(s) && WillUnlink(s, t) && s.session.shell.typed == t && !s.session.shell.dropAt.SetUp?
    ensures exists j :: FindsAt(s, t, j)
  {
    L.ReachProps(s.list, s.list.head);
    var pc := s.session.shell.dropAt;
    if pc.Search? {
      var j :| j in L.Listed(s.list) && j <= pc.cur && L.HasName(s.list, j, t);
      assert FindsAt(s, t, j);
    } else {
      assert FindsAt(s, t, pc.cur);
    }
  }

  lemma UnlinkThenInsert(s: State, t: Name, r: Remote) returns (es: seq<Event>)
    requires Inv(s) && WillUnlink(s, t) && s.session.actuatorId == Some(t)
    ensures NoActuatorCommand(es) && |Run(s, es).list.nodes| == |s.list.nodes| + 1
  {
    var a: seq<Event> := [];
    if s.session.shell.dropAt.SetUp? {
      var j := SetUpStep(s, t);
      var rest := UnlinkAhead(Step(s, ShellStep), t, j);
      RunConcat(s, [ShellStep], rest);
      assert [ShellStep][..0] == [];
      assert Run(s, [ShellStep]) == Step(s, ShellStep);
      a := [ShellStep] + rest;
    } else {
      WillUnlinkFinds(s, t);
      var j :| FindsAt(s, t, j);
      a := UnlinkAhead(s, t, j);
    }
    var m := ActuatorRegister(Some(Identity(t, r)));
    es := a + [m];
    assert es[..|es| - 1] == a;
  }

  /** A registration under another name than the typed one closes the actuator session, so that no
      record is added until an actuator command is typed, if and only if no `deauth_actuator` is on
      its way to taking the typed name out.  With the typed name listed the handler leaves
      ACTUATOR_ID set, and the listing itself refuses registrations, as long as it lasts. */
  lemma ActuatorMismatchClosesIff(s: State, t: Name, who: Identity)
    requires Inv(s) && s.session.actuatorId == Some(t) && who.name != t
    ensures (forall es :: NoActuatorCommand(es) ==>
                          |Run(Step(s, ActuatorRegister(Some(who))), es).list.nodes| == |s.list.nodes|)
            <==> !WillUnlink(s, t)
  {
    var u := Step(s, ActuatorRegister(Some(who)));
    if WillUnlink(s, t) {
      assert u == s;
      var es := UnlinkThenInsert(s, t, who.remote);
      assert |Run(u, es).list.nodes| != |s.list.nodes|;
    } else {
      StepKeepsInv(s, ActuatorRegister(Some(who)));
      assert Closed(u, t);
      forall es | NoActuatorCommand(es)
        ensures |Run(u, es).list.nodes| == |s.list.nodes|
      {
        ClosedRun(u, t, es);
      }
    }
  }
}
