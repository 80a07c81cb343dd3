/** `thread_sleep` in the detection loop against `thread_wakeup` in the handler of control messages:
    the loop tests `connection_status` and goes to sleep in two steps. */
module DetectionSleep {
  import S = SensorNode

  /** Before the test, between the test and `thread_sleep`, asleep, or past both. */
  datatype Loop = AtTest | Drowsy | Asleep | Measuring

  datatype State = State(node: S.State, loop: Loop)

  /** Anything that happens on the node, or a step of the detection loop. */
  datatype Event = AtNode(own: S.Event) | LoopStep

  const INIT := State(S.INIT, AtTest)

  const AUTH := AtNode(S.Receive(S.Authorize))
  const DEAU := AtNode(S.Receive(S.Deauthorize))

  function LoopNext(s: State): Loop {
    match s.loop
    case AtTest => if s.node.connected then Measuring else Drowsy
    case Drowsy => Asleep
    case Asleep => Asleep
    case Measuring => AtTest
  }

  /** `thread_wakeup` wakes a thread that sleeps, and does nothing to one that does not yet. */
  function Step(s: State, e: Event): State {
    match e
    case LoopStep => s.(loop := LoopNext(s))
    case AtNode(own) => State(S.Step(s.node, own), if e == AUTH && s.loop == Asleep then Measuring else s.loop)
  }

  function Run(s: State, es: seq<Event>): State {
    if es == [] then s else Step(Run(s, es[..|es| - 1]), es[|es| - 1])
  }

  /** The events of the node itself. */
  function NodeEvents(es: seq<Event>): seq<S.Event> {
    if es == [] then []
    else NodeEvents(es[..|es| - 1]) + match es[|es| - 1] case AtNode(own) => [own] case LoopStep => []
  }

  lemma {:induction false} NodeRuns(s: State, es: seq<Event>)
    ensures Run(s, es).node == S.Run(s.node, NodeEvents(es))
  {
    if es != [] {
      NodeRuns(s, es[..|es| - 1]);
      var a := NodeEvents(es[..|es| - 1]);
      if es[|es| - 1].AtNode? {
        S.RunSnoc(s.node, a, es[|es| - 1].own);
      } else {
        assert NodeEvents(es) == a;
      }
    }
  }

  lemma {:induction false} NodeEventsNever(es: seq<Event>, own: S.Event)
    requires forall j :: 0 <= j < |es| ==> es[j] != AtNode(own)
    ensures S.Never(NodeEvents(es), own)
  {
    if es != [] {
      NodeEventsNever(es[..|es| - 1], own);
    }
  }

  /** The node believes itself connected while its detection loop sleeps. */
  predicate Stuck(s: State) {
    s.node.connected && s.loop == Asleep
  }

  predicate IsWord(e: Event) {
    e == AUTH || e == DEAU
  }

  /** Event k is an AUTH that falls between the test and `thread_sleep`. */
  predicate MissedAuth(es: seq<Event>, k: nat) {
    k < |es| && es[k] == AUTH && Run(INIT, es[..k]).loop == Drowsy
  }

  predicate StepsAfter(es: seq<Event>, k: nat) {
    exists j :: k < j < |es| && es[j] == LoopStep
  }

  predicate NoWordAfter(es: seq<Event>, k: nat) {
    forall j :: k < j < |es| ==> !IsWord(es[j])
  }

  /** The latest control word is such an AUTH, and the loop has gone to sleep since. */
  predicate SleptThrough(es: seq<Event>, k: nat) {
    MissedAuth(es, k) && NoWordAfter(es, k) && StepsAfter(es, k)
  }

  /** The latest control word is such an AUTH, and the loop has not gone to sleep yet. */
  predicate AboutToSleep(es: seq<Event>, k: nat) {
    MissedAuth(es, k) && NoWordAfter(es, k) && !StepsAfter(es, k)
  }

  lemma MissedAuthSnoc(es: seq<Event>, k: nat)
    requires es != []
    ensures var last := |es| - 1;
            MissedAuth(es, k) <==>
              MissedAuth(es[..last], k) || (k == last && es[last] == AUTH && Run(INIT, es[..last]).loop == Drowsy)
  {
    if k < |es| - 1 {
      assert es[..|es| - 1][..k] == es[..k];
    }
  }

  lemma AfterSnoc(es: seq<Event>, k: nat)
    requires es != [] && k < |es| - 1
    ensures var last := |es| - 1;
            && (NoWordAfter(es, k) <==> NoWordAfter(es[..last], k) && !IsWord(es[last]))
            && (StepsAfter(es, k) <==> StepsAfter(es[..last], k) || es[last] == LoopStep)
  {
    var last := |es| - 1;
    if StepsAfter(es[..last], k) {
      var j :| k < j < last && es[..last][j] == LoopStep;
      assert es[j] == LoopStep;
    }
    if StepsAfter(es, k) {
      var j :| k < j < |es| && es[j] == LoopStep;
      assert j < last ==> es[..last][j] == LoopStep;
    }
  }

  lemma LastSnoc(es: seq<Event>)
    requires es != []
    ensures NoWordAfter(es, |es| - 1) && !StepsAfter(es, |es| - 1)
  {
  }

  /** One step, by what the loop and the latest word were. */
  lemma StuckStep(s: State, e: Event)
    ensures var u := Step(s, e);
            && (Stuck(u) <==> !IsWord(e) && (Stuck(s) || (e == LoopStep && s.node.connected && s.loop == Drowsy)))
            && (u.node.connected && u.loop == Drowsy <==>
                  (e == AUTH && s.loop == Drowsy) ||
                  (!IsWord(e) && e != LoopStep && s.node.connected && s.loop == Drowsy))
  {
  }

  lemma SleptSnoc(es: seq<Event>, k: nat)
    requires es != []
    ensures var last := |es| - 1;
            && (SleptThrough(es, k) <==>
                  !IsWord(es[last]) &&
                  (SleptThrough(es[..last], k) || (es[last] == LoopStep && AboutToSleep(es[..last], k))))
            && (AboutToSleep(es, k) <==>
                  || (k == last && es[last] == AUTH && Run(INIT, es[..last]).loop == Drowsy)
                  || (!IsWord(es[last]) && es[last] != LoopStep && AboutToSleep(es[..last], k)))
  {
    MissedAuthSnoc(es, k);
    if k < |es| - 1 {
      AfterSnoc(es, k);
    } else if k == |es| - 1 {
      LastSnoc(es);
    }
    hide NoWordAfter, StepsAfter, Run;
  }

  ghost predicate WakeupLost(es: seq<Event>) {
    exists k: nat :: SleptThrough(es, k)
  }

  ghost predicate WakeupBeingLost(es: seq<Event>) {
    exists k: nat :: AboutToSleep(es, k)
  }

  lemma WakeupLostSnoc(es: seq<Event>)
    requires es != []
    ensures var init, e := es[..|es| - 1], es[|es| - 1];
            && (WakeupLost(es) <==> !IsWord(e) && (WakeupLost(init) || (e == LoopStep && WakeupBeingLost(init))))
            && (WakeupBeingLost(es) <==>
                  || (e == AUTH && Run(INIT, init).loop == Drowsy)
                  || (!IsWord(e) && e != LoopStep && WakeupBeingLost(init)))
  {
    var init, last := es[..|es| - 1], |es| - 1;
    hide SleptThrough, AboutToSleep, Run;
    SleptSnoc(es, last);
    if WakeupLost(es) {
      var k: nat :| SleptThrough(es, k);
      SleptSnoc(es, k);
    }
    if WakeupLost(init) {
      var k: nat :| SleptThrough(init, k);
      SleptSnoc(es, k);
    }
    if WakeupBeingLost(es) {
      var k: nat :| AboutToSleep(es, k);
      SleptSnoc(es, k);
    }
    if WakeupBeingLost(init) {
      var k: nat :| AboutToSleep(init, k);
      SleptSnoc(es, k);
    }
  }

  /** In every run the node believes itself connected while its detection loop sleeps if and only if
      the latest control word was an AUTH that came between the loop's test and `thread_sleep`. */
  lemma {:induction false} StuckIff(es: seq<Event>)
    ensures var s := Run(INIT, es);
            && (Stuck(s) <==> WakeupLost(es))
            && (s.node.connected && s.loop == Drowsy <==> WakeupBeingLost(es))
  {
    if es != [] {
      StuckIff(es[..|es| - 1]);
      StuckStep(Run(INIT, es[..|es| - 1]), es[|es| - 1]);
      WakeupLostSnoc(es);
    }
  }

  /** A node that is stuck stays so until the next control word, and its heartbeats go on: the gateway
      hears from a sensor that detects nothing. */
  lemma StuckKeepsBeating(es: seq<Event>, rest: seq<Event>)
    requires Stuck(Run(INIT, es)) && forall j :: 0 <= j < |rest| ==> !IsWord(rest[j])
    ensures var s := Run(INIT, es);
            var u := Run(s, rest);
            Stuck(u) && S.HalfSent(u.node) == S.HalfSent(s.node) + S.Times(NodeEvents(rest), S.StatusTurn)
  {
    NodeRuns(INIT, es);
    S.ConnectedIffAuthorized(NodeEvents(es));
    NodeRuns(Run(INIT, es), rest);
    NodeEventsNever(rest, S.Receive(S.Deauthorize));
    S.HeartbeatsWhileAuthorized(NodeEvents(es), NodeEvents(rest));
    StuckStays(Run(INIT, es), rest);
  }

  lemma {:induction false} StuckStays(s: State, rest: seq<Event>)
    requires Stuck(s) && forall j :: 0 <= j < |rest| ==> !IsWord(rest[j])
    ensures Stuck(Run(s, rest))
  {
    if rest != [] {
      StuckStays(s, rest[..|rest| - 1]);
      StuckStep(Run(s, rest[..|rest| - 1]), rest[|rest| - 1]);
    }
  }

  /** From power-up. */
  lemma FirstAuthMissed()
    ensures Stuck(Run(INIT, [LoopStep, AUTH, LoopStep]))
  {
    assert [LoopStep, AUTH, LoopStep][..2] == [LoopStep, AUTH] && [LoopStep, AUTH][..1] == [LoopStep];
    assert [LoopStep][..0] == [];
    assert Run(INIT, [LoopStep]) == State(S.INIT, Drowsy);
    assert Run(INIT, [LoopStep, AUTH]) == State(S.INIT.(connected := true), Drowsy);
  }
  // ----- going to sleep and staying awake -----

  function LoopSteps(es: seq<Event>): nat {
    if es == [] then 0 else LoopSteps(es[..|es| - 1]) + if es[|es| - 1] == LoopStep then 1 else 0
  }

  /** Steps of a disconnected loop until it sleeps. */
  function StepsToSleep(l: Loop): nat {
    match l
    case Asleep => 0
    case Drowsy => 1
    case AtTest => 2
    case Measuring => 3
  }

  /** While no AUTH comes, the loop of a disconnected node is asleep if and only if it has taken the
      steps that lead there: it finishes its iteration, tests, and sleeps. */
  lemma {:induction false} SleepsIff(s: State, rest: seq<Event>)
    requires !s.node.connected && forall j :: 0 <= j < |rest| ==> rest[j] != AUTH
    ensures var u := Run(s, rest);
            && !u.node.connected
            && StepsToSleep(u.loop) == (if LoopSteps(rest) >= StepsToSleep(s.loop) then 0
                                        else StepsToSleep(s.loop) - LoopSteps(rest))
            && (u.loop == Asleep <==> LoopSteps(rest) >= StepsToSleep(s.loop))
  {
    if rest != [] {
      SleepsIff(s, rest[..|rest| - 1]);
    }
  }

  /** While no DEAU comes, the loop of a connected node that is not about to sleep never sleeps: every
      other step is a test, and every other one an iteration. */
  lemma {:induction false} StaysAwake(s: State, rest: seq<Event>)
    requires s.node.connected && (s.loop == AtTest || s.loop == Measuring)
    requires forall j :: 0 <= j < |rest| ==> rest[j] != DEAU
    ensures var u, steps := Run(s, rest), LoopSteps(rest) + if s.loop == AtTest then 0 else 1;
            u.node.connected && u.loop == if steps % 2 == 0 then AtTest else Measuring
  {
    if rest != [] {
      StaysAwake(s, rest[..|rest| - 1]);
    }
  }

  /** An AUTH wakes a loop that is asleep, and it goes on with an iteration. */
  lemma AuthWakes(es: seq<Event>)
    requires Run(INIT, es).loop == Asleep
    ensures var u := Run(INIT, es + [AUTH]); u.node.connected && u.loop == Measuring
  {
    assert (es + [AUTH])[..|es + [AUTH]| - 1] == es;
  }
}
