/** `traverse_and_fire` walks a list that the CoAP handler and the shell change under it.

    A round starts when the alarm thread leaves its test with an alarm pending, and lasts while the
    walk is in progress; any events at all may fall between two of its advances. */
module Traversal {
  import opened Gateway
  import opened Invariant
  import L = SharedList

  // ----- how one step changes the list -----

  ghost predicate Inserts(h: L.Heap, g: L.Heap) {
    exists name, remote :: !L.Lists(h, name) && g == L.Insert(h, name, remote)
  }

  ghost predicate Unlinks(h: L.Heap, g: L.Heap)
    requires L.Ordered(h)
  {
    exists cur, prev :: L.Linked(h, cur, prev) && g == L.Unlink(h, cur, prev)
  }

  /** One step leaves the list alone, inserts an unlisted name at the head, or unlinks one node. */
  lemma StepList(s: State, e: Event)
    requires Inv(s)
    ensures var g := Step(s, e).list; g == s.list || Inserts(s.list, g) || Unlinks(s.list, g)
  {
    var h, g := s.list, Step(s, e).list;
    match e
    case ActuatorRegister(p) =>
      if g != h {
        assert !L.Lists(h, p.value.name) && g == L.Insert(h, p.value.name, p.value.remote);
      }
    case ShellStep =>
      if s.session.shell.InDrop? {
        match s.session.shell.dropAt
        case UnlinkFirst(cur) => assert L.Linked(h, cur, L.NULL) && g == L.Unlink(h, cur, L.NULL);
        case UnlinkNext(cur, prev) => assert L.Linked(h, cur, prev) && g == L.Unlink(h, cur, prev);
        case _ =>
      }
    case _ =>
  }

  /** A walk that stands inside a set of nodes closed under `next` stays inside it. */
  ghost predicate Closed(h: L.Heap, start: seq<int>) {
    forall x :: x in start ==> L.InHeap(h, x) && (h.nodes[x].next == L.NULL || h.nodes[x].next in start)
  }

  /** Listed nodes born before `born` are all in `start`. */
  ghost predicate Covers(h: L.Heap, start: seq<int>, born: int)
    requires L.Ordered(h)
  {
    forall j :: j in L.Listed(h) && j < born ==> j in start
  }

  lemma StepListFacts(s: State, e: Event, start: seq<int>, born: int)
    requires Inv(s) && Closed(s.list, start) && Covers(s.list, start, born) && born <= |s.list.nodes|
    ensures var g := Step(s, e).list;
            L.Ordered(g) && Closed(g, start) && Covers(g, start, born) && |s.list.nodes| <= |g.nodes|
    ensures forall i :: L.InHeap(s.list, i) ==> Step(s, e).list.nodes[i].remote == s.list.nodes[i].remote
    ensures forall j :: j in L.Listed(Step(s, e).list) && j < |s.list.nodes| ==> j in L.Listed(s.list)
  {
    var h, g := s.list, Step(s, e).list;
    StepList(s, e);
    if Inserts(h, g) {
      var name, remote :| !L.Lists(h, name) && g == L.Insert(h, name, remote);
      L.InsertListed(h, name, remote);
    } else if g != h {
      var cur, prev :| L.Linked(h, cur, prev) && g == L.Unlink(h, cur, prev);
      L.UnlinkListed(h, cur, prev);
      L.ReachProps(h, h.head);
      assert L.InHeap(h, cur);
    }
  }

  // ----- what is sent -----

  predicate IsOn(p: Packet, id: int) {
    p.On? && p.id == id
  }

  /** How many ON messages went to the record `id`. */
  function OnCount(out: seq<Packet>, id: int): nat {
    if out == [] then 0
    else OnCount(out[..|out| - 1], id) + if IsOn(out[|out| - 1], id) then 1 else 0
  }

  lemma OnCountSnoc(out: seq<Packet>, p: Packet, id: int)
    ensures OnCount(out + [p], id) == OnCount(out, id) + if IsOn(p, id) then 1 else 0
  {
    assert (out + [p])[..|out + [p]| - 1] == out;
  }

  /** Only the alarm thread moves its own program point. */
  lemma OthersKeepAlarm(s: State, e: Event)
    requires e != AlarmStep
    ensures Step(s, e).alarm == s.alarm
  {
  }

  /** Only the alarm thread sends ON. */
  lemma OthersSendNoOn(s: State, e: Event)
    requires e != AlarmStep
    ensures Step(s, e).out == s.out || exists p: Packet :: !p.On? && Step(s, e).out == s.out + [p]
  {
    if e.ShellStep? && Step(s, e).out != s.out {
      var p := Step(s, e).out[|s.out|];
      assert !p.On? && Step(s, e).out == s.out + [p];
    }
  }

  lemma OthersKeepCount(s: State, e: Event, id: int)
    requires e != AlarmStep
    ensures OnCount(Step(s, e).out, id) == OnCount(s.out, id)
  {
    OthersSendNoOn(s, e);
    if Step(s, e).out != s.out {
      var p: Packet :| !p.On? && Step(s, e).out == s.out + [p];
      OnCountSnoc(s.out, p, id);
    }
  }

  // ----- a round -----

  ghost predicate StartsRound(s: State) {
    s.alarm == Guard && Pending(s.flags)
  }

  /** The walk is still in progress after every prefix of the events. */
  ghost predicate Firing(s: State, es: seq<Event>) {
    forall k :: 0 <= k <= |es| ==> Run(s, es[..k]).alarm.Fire?
  }

  function AlarmSteps(es: seq<Event>): nat {
    if es == [] then 0 else AlarmSteps(es[..|es| - 1]) + if es[|es| - 1] == AlarmStep then 1 else 0
  }

  /** What holds in the middle of a round that began in `s0`. */
  ghost predicate RoundOk(s0: State, t: State)
    requires Inv(s0) && Inv(t) && t.alarm.Fire?
  {
    var start, ptr := L.Listed(s0.list), t.alarm.ptr;
    && |s0.list.nodes| <= |t.list.nodes|
    && Closed(t.list, start)
    && Covers(t.list, start, |s0.list.nodes|)
    && (ptr == L.NULL || ptr in start)
    && forall id ::
         var sent := OnCount(t.out, id) - OnCount(s0.out, id);
         && 0 <= sent <= 1
         && (sent == 1 ==> id in start && ptr < id)
         && (id in L.Listed(t.list) && id in start && ptr < id ==> sent == 1)
  }

  lemma RoundBegins(s0: State)
    requires Inv(s0) && StartsRound(s0)
    ensures var s1 := Step(s0, AlarmStep); Inv(s1) && s1.alarm == Fire(s0.list.head) && RoundOk(s0, s1)
  {
    StepKeepsInv(s0, AlarmStep);
    L.ReachProps(s0.list, s0.list.head);
  }

  lemma RoundAdvances(s0: State, t: State)
    requires Inv(s0) && Inv(t) && t.alarm.Fire? && RoundOk(s0, t) && t.alarm.ptr != L.NULL
    ensures var u := Step(t, AlarmStep); Inv(u) && u.alarm.Fire? && u.alarm.ptr < t.alarm.ptr && RoundOk(s0, u)
  {
    var u := Step(t, AlarmStep);
    var ptr := t.alarm.ptr;
    StepKeepsInv(t, AlarmStep);
    assert L.InHeap(t.list, ptr) && u.list == t.list && u.alarm.ptr == t.list.nodes[ptr].next;
    forall id
      ensures var sent := OnCount(u.out, id) - OnCount(s0.out, id);
              && 0 <= sent <= 1
              && (sent == 1 ==> id in L.Listed(s0.list) && u.alarm.ptr < id)
              && (id in L.Listed(u.list) && id in L.Listed(s0.list) && u.alarm.ptr < id ==> sent == 1)
    {
      OnCountSnoc(t.out, On(ptr, t.list.nodes[ptr].remote), id);
    }
  }

  lemma RoundDisturbed(s0: State, t: State, e: Event)
    requires Inv(s0) && Inv(t) && t.alarm.Fire? && RoundOk(s0, t) && e != AlarmStep
    ensures var u := Step(t, e); Inv(u) && u.alarm == t.alarm && RoundOk(s0, u)
  {
    var u := Step(t, e);
    StepKeepsInv(t, e);
    OthersKeepAlarm(t, e);
    StepListFacts(t, e, L.Listed(s0.list), |s0.list.nodes|);
    L.ReachProps(s0.list, s0.list.head);
    forall id
      ensures var sent := OnCount(u.out, id) - OnCount(s0.out, id);
              && 0 <= sent <= 1
              && (sent == 1 ==> id in L.Listed(s0.list) && u.alarm.ptr < id)
              && (id in L.Listed(u.list) && id in L.Listed(s0.list) && u.alarm.ptr < id ==> sent == 1)
    {
      OthersKeepCount(t, e, id);
    }
  }

  lemma {:induction false} RoundKept(s0: State, es: seq<Event>)
    requires Inv(s0) && StartsRound(s0) && Firing(Step(s0, AlarmStep), es)
    ensures var t := Run(Step(s0, AlarmStep), es);
            Inv(t) && t.alarm.Fire? && RoundOk(s0, t) && AlarmSteps(es) <= s0.list.head - t.alarm.ptr
  {
    var s1 := Step(s0, AlarmStep);
    RoundBegins(s0);
    assert es[..|es|] == es;
    if es != [] {
      var init, e := es[..|es| - 1], es[|es| - 1];
      forall k | 0 <= k <= |init|
        ensures Run(s1, init[..k]).alarm.Fire?
      {
        assert init[..k] == es[..k];
      }
      RoundKept(s0, init);
      var t := Run(s1, init);
      if e == AlarmStep {
        if t.alarm.ptr == L.NULL {
          assert false;
        }
        RoundAdvances(s0, t);
      } else {
        RoundDisturbed(s0, t, e);
      }
    }
  }

  /** The walk ends whatever happens around it: it never takes more advances than the head's index
      plus one, insertions notwithstanding. */
  lemma RoundTerminates(s0: State, es: seq<Event>)
    requires Inv(s0) && StartsRound(s0)
    requires AlarmSteps(es) > s0.list.head + 1
    ensures !Firing(Step(s0, AlarmStep), es)
  {
    if Firing(Step(s0, AlarmStep), es) {
      RoundKept(s0, es);
    }
  }

  /** When the walk has reached NULL, every record listed at the start and still listed has been
      sent exactly one ON, a record deleted meanwhile at most one, and any other record none. */
  lemma EveryListedActuatorFiredOnce(s0: State, es: seq<Event>, t: State, id: int)
    requires Inv(s0) && StartsRound(s0) && Firing(Step(s0, AlarmStep), es)
    requires t == Run(Step(s0, AlarmStep), es) && t.alarm == Fire(L.NULL)
    ensures L.Ordered(t.list) && 0 <= OnCount(t.out, id) - OnCount(s0.out, id) <= 1
    ensures id in L.Listed(s0.list) && id in L.Listed(t.list) ==> OnCount(t.out, id) == OnCount(s0.out, id) + 1
    ensures id !in L.Listed(s0.list) ==> OnCount(t.out, id) == OnCount(s0.out, id)
  {
    RoundKept(s0, es);
    L.ReachProps(s0.list, s0.list.head);
  }

  predicate SentToItsRecord(h: L.Heap, p: Packet) {
    p.On? ==> L.InHeap(h, p.id) && p.remote == h.nodes[p.id].remote
  }

  predicate SentRight(t: State) {
    forall p :: p in t.out ==> SentToItsRecord(t.list, p)
  }

  /** Every ON on the wire went to the endpoint its record was registered with. */
  lemma {:induction false} OnGoesToItsRecord(es: seq<Event>)
    ensures SentRight(Run(INIT, es))
  {
    if es != [] {
      var init, e := es[..|es| - 1], es[|es| - 1];
      OnGoesToItsRecord(init);
      var t := Run(INIT, init);
      Reachable(init);
      var u := Step(t, e);
      L.ReachProps(t.list, t.list.head);
      StepListFacts(t, e, L.Listed(t.list), |t.list.nodes|);
      if e != AlarmStep {
        OthersSendNoOn(t, e);
      }
      forall p | p in u.out
        ensures SentToItsRecord(u.list, p)
      {
        if p in t.out {
          assert SentToItsRecord(t.list, p);
        }
      }
    }
  }
}
