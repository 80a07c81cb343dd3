/** The sensor side of the protocol: sensor_mpu/coap.c and the threads of sensor_mpu/sensor_node.c. */
module SensorNode {
  import opened Base

  /** AUTH, DEAU, or any other payload from the gateway. */
  datatype Control = Authorize | Deauthorize | Other

  datatype Message = Register | Status | Tap

  /** Where a thread stands in its test, its send, and the write that lowers its flag. */
  datatype Phase = Testing | Sending | Clearing

  /** `connection_status`, `sensor_fired`, `fire_status` and `send_id`, the positions of the three
      threads, and everything sent.  The status thread lowers no flag. */
  datatype State = State(connected: bool, fired: bool, everFired: bool, sendId: bool,
                         register: Phase, status: Phase, detection: Phase, sent: seq<Message>)

  const INIT := State(false, false, false, false, Testing, Testing, Testing, [])

  /** A control message; the detection loop or the test button; the register button; one step of the
      register, status or detection thread. */
  datatype Event = Receive(c: Control) | Raise | PressRegister | RegisterTurn | StatusTurn | DetectionTurn

  function Step(s: State, e: Event): State {
    match e
    case Receive(Authorize) => s.(connected := true)
    case Receive(Deauthorize) => s.(connected := false)
    case Receive(Other) => s
    case Raise => s.(fired := true)
    case PressRegister => s.(sendId := true)
    case RegisterTurn => OnRegister(s)
    case StatusTurn => OnStatus(s)
    case DetectionTurn => OnDetection(s)
  }

  function OnRegister(s: State): State {
    match s.register
    case Testing => if s.sendId then s.(register := Sending) else s
    case Sending => s.(sent := s.sent + [Register], register := Clearing)
    case Clearing => s.(sendId := false, register := Testing)
  }

  function OnStatus(s: State): State {
    if s.status == Testing
    then if s.connected then s.(status := Sending) else s
    else s.(sent := s.sent + [Status], status := Testing)
  }

  function OnDetection(s: State): State {
    match s.detection
    case Testing => if s.fired && s.connected then s.(everFired := true, detection := Sending) else s
    case Sending => s.(sent := s.sent + [Tap], detection := Clearing)
    case Clearing => s.(fired := false, detection := Testing)
  }

  function Run(s: State, es: seq<Event>): State {
    if es == [] then s else Step(Run(s, es[..|es| - 1]), es[|es| - 1])
  }

  lemma RunSnoc(s: State, es: seq<Event>, e: Event)
    ensures Run(s, es + [e]) == Step(Run(s, es), e)
  {
    assert (es + [e])[..|es + [e]| - 1] == es;
  }

  /** How often `m` was sent. */
  function Sent(sent: seq<Message>, m: Message): nat {
    if sent == [] then 0 else Sent(sent[..|sent| - 1], m) + if sent[|sent| - 1] == m then 1 else 0
  }

  /** How often `e` happened. */
  function Times(es: seq<Event>, e: Event): nat {
    if es == [] then 0 else Times(es[..|es| - 1], e) + if es[|es| - 1] == e then 1 else 0
  }

  lemma SentSnoc(sent: seq<Message>, m: Message, n: Message)
    ensures Sent(sent + [m], n) == Sent(sent, n) + if m == n then 1 else 0
  {
    assert (sent + [m])[..|sent + [m]| - 1] == sent;
  }

  lemma TimesSnoc(es: seq<Event>, e: Event, f: Event)
    ensures Times(es + [e], f) == Times(es, f) + if e == f then 1 else 0
  {
    assert (es + [e])[..|es + [e]| - 1] == es;
  }

  /** One step, thread by thread. */
  lemma StepParts(s: State, e: Event)
    ensures var u := Step(s, e);
            && u.connected == (if e.Receive? && e.c != Other then e.c == Authorize else s.connected)
            && u.fired == (e == Raise || (s.fired && !(e == DetectionTurn && s.detection == Clearing)))
            && u.status == (if e != StatusTurn then s.status
                            else if s.status == Testing && s.connected then Sending else Testing)
            && u.detection == (if e != DetectionTurn then s.detection
                               else match s.detection
                                    case Testing => if s.fired && s.connected then Sending else Testing
                                    case Sending => Clearing
                                    case Clearing => Testing)
            && u.sendId == (e == PressRegister || (s.sendId && !(e == RegisterTurn && s.register == Clearing)))
            && u.register == (if e != RegisterTurn then s.register
                              else match s.register
                                   case Testing => if s.sendId then Sending else Testing
                                   case Sending => Clearing
                                   case Clearing => Testing)
            && u.everFired == (s.everFired || (e == DetectionTurn && u.detection == Sending))
  {
  }

  /** The message one step sends. */
  function Emitted(s: State, e: Event): Option<Message> {
    match e
    case RegisterTurn => if s.register == Sending then Some(Register) else None
    case StatusTurn => if s.status != Testing then Some(Status) else None
    case DetectionTurn => if s.detection == Sending then Some(Tap) else None
    case _ => None
  }

  lemma SentStep(s: State, e: Event, m: Message)
    ensures Sent(Step(s, e).sent, m) == Sent(s.sent, m) + if Emitted(s, e) == Some(m) then 1 else 0
  {
    var emitted := Emitted(s, e);
    assert Step(s, e).sent == s.sent + (if emitted.Some? then [emitted.value] else []);
    if emitted.Some? {
      SentSnoc(s.sent, emitted.value, m);
    }
  }

  // ----- what may be sent, by the gateway's word -----

  /** The latest AUTH or DEAU received was an AUTH. */
  predicate Authorized(es: seq<Event>) {
    && es != []
    && match es[|es| - 1]
       case Receive(Authorize) => true
       case Receive(Deauthorize) => false
       case _ => Authorized(es[..|es| - 1])
  }

  lemma {:induction false} ConnectedIffAuthorized(es: seq<Event>)
    ensures Run(INIT, es).connected <==> Authorized(es)
  {
    if es != [] {
      ConnectedIffAuthorized(es[..|es| - 1]);
    }
  }

  predicate Never(es: seq<Event>, e: Event) {
    forall j :: 0 <= j < |es| ==> es[j] != e
  }

  /** From any moment at which the latest word received is not AUTH until the next AUTH, at most one
      heartbeat and one alarm leave the node: those whose test had already passed. */
  lemma {:induction false} SilentUnlessAuthorized(es: seq<Event>, rest: seq<Event>)
    requires !Authorized(es) && Never(rest, Receive(Authorize))
    ensures var s := Run(INIT, es);
            var u := Run(s, rest);
            && !u.connected
            && Sent(u.sent, Status) ==
                 Sent(s.sent, Status) + (if s.status != Testing && Times(rest, StatusTurn) > 0 then 1 else 0)
            && Sent(u.sent, Tap) ==
                 Sent(s.sent, Tap) + (if s.detection == Sending && Times(rest, DetectionTurn) > 0 then 1 else 0)
  {
    DrainsOnce(es, rest);
  }

  lemma {:induction false} DrainsOnce(es: seq<Event>, rest: seq<Event>)
    requires !Authorized(es) && Never(rest, Receive(Authorize))
    ensures var s := Run(INIT, es);
            var u := Run(s, rest);
            var beats, turns := Times(rest, StatusTurn), Times(rest, DetectionTurn);
            && !u.connected
            && (beats > 0 ==> u.status == Testing) && (beats == 0 ==> u.status == s.status)
            && (turns > 0 ==> u.detection != Sending) && (turns == 0 ==> u.detection == s.detection)
            && Sent(u.sent, Status) == Sent(s.sent, Status) + (if s.status != Testing && beats > 0 then 1 else 0)
            && Sent(u.sent, Tap) == Sent(s.sent, Tap) + (if s.detection == Sending && turns > 0 then 1 else 0)
  {
    ConnectedIffAuthorized(es);
    if rest != [] {
      var init, e := rest[..|rest| - 1], rest[|rest| - 1];
      DrainsOnce(es, init);
      var v := Run(Run(INIT, es), init);
      StepParts(v, e);
      SentStep(v, e, Status);
      SentStep(v, e, Tap);
      hide Step, Sent, Authorized;
    }
  }

  function HalfSent(s: State): nat {
    2 * Sent(s.sent, Status) + if s.status == Testing then 0 else 1
  }

  /** While the node stays authorized its status thread sends a heartbeat for every two of its steps,
      the test and the send. */
  lemma {:induction false} HeartbeatsWhileAuthorized(es: seq<Event>, rest: seq<Event>)
    requires Authorized(es) && Never(rest, Receive(Deauthorize))
    ensures var s := Run(INIT, es);
            Run(s, rest).connected && HalfSent(Run(s, rest)) == HalfSent(s) + Times(rest, StatusTurn)
  {
    ConnectedIffAuthorized(es);
    if rest != [] {
      var init, e := rest[..|rest| - 1], rest[|rest| - 1];
      HeartbeatsWhileAuthorized(es, init);
      var v := Run(Run(INIT, es), init);
      StepParts(v, e);
      SentStep(v, e, Status);
      hide Step, Sent, Authorized;
    }
  }

  // ----- which detections are reported -----

  /** A detection in state s is still waiting, or has been followed by a report. */
  predicate Kept(s: State, rest: seq<Event>) {
    var u := Run(Step(s, Raise), rest);
    u.fired || Sent(u.sent, Tap) > Sent(s.sent, Tap)
  }

  lemma {:induction false} KeptBeforeClearing(s: State, rest: seq<Event>)
    requires s.detection != Clearing
    ensures var u := Run(Step(s, Raise), rest);
            (u.fired && u.detection != Clearing && Sent(u.sent, Tap) == Sent(s.sent, Tap)) ||
            Sent(u.sent, Tap) > Sent(s.sent, Tap)
  {
    if rest != [] {
      var init, e := rest[..|rest| - 1], rest[|rest| - 1];
      KeptBeforeClearing(s, init);
      StepParts(Run(Step(s, Raise), init), e);
      SentStep(Run(Step(s, Raise), init), e, Tap);
      hide Step, Sent;
    }
  }

  /** A detection between the send and the write that lowers the flag is wiped out by that write,
      whatever else happens meanwhile: nothing is sent for it and nothing waits. */
  lemma {:induction false} LostWhileClearing(s: State, between: seq<Event>)
    requires s.detection == Clearing && Never(between, DetectionTurn)
    ensures var u := Run(Step(s, Raise), between);
            u.detection == Clearing && Sent(u.sent, Tap) == Sent(s.sent, Tap) &&
            !Step(u, DetectionTurn).fired && Sent(Step(u, DetectionTurn).sent, Tap) == Sent(s.sent, Tap)
  {
    if between != [] {
      var init, e := between[..|between| - 1], between[|between| - 1];
      LostWhileClearing(s, init);
      StepParts(Run(Step(s, Raise), init), e);
      SentStep(Run(Step(s, Raise), init), e, Tap);
      hide Step, Sent;
    }
  }

  /** A detection is kept, whatever follows, if and only if it does not fall between the send of an
      earlier report and the write after it. */
  lemma RaiseKeptIff(s: State)
    ensures (forall rest :: Kept(s, rest)) <==> s.detection != Clearing
  {
    if s.detection == Clearing {
      LostWhileClearing(s, []);
      RunSnoc(Step(s, Raise), [], DetectionTurn);
      assert !Kept(s, [] + [DetectionTurn]);
    } else {
      forall rest
        ensures Kept(s, rest)
      {
        KeptBeforeClearing(s, rest);
      }
    }
  }

  /** The failing input, from power-up: two detections, one report, nothing waiting. */
  lemma SecondRaiseLost()
    ensures var es := [Receive(Authorize), Raise, DetectionTurn, DetectionTurn, Raise, DetectionTurn];
            var u := Run(INIT, es);
            u.sent == [Tap] && !u.fired && u.detection == Testing && u.connected && Times(es, Raise) == 2
  {
    var a := [Receive(Authorize), Raise, DetectionTurn];
    var es := [] + [Receive(Authorize)] + [Raise] + [DetectionTurn];
    assert es == a;
    RunThree(INIT, [], Receive(Authorize), Raise, DetectionTurn);
    RunThree(INIT, es, DetectionTurn, Raise, DetectionTurn);
    assert es + [DetectionTurn] + [Raise] + [DetectionTurn]
        == [Receive(Authorize), Raise, DetectionTurn, DetectionTurn, Raise, DetectionTurn];
    assert [] + [Tap] == [Tap];
  }

  lemma RunThree(s: State, es: seq<Event>, a: Event, b: Event, c: Event)
    ensures Run(s, es + [a] + [b] + [c]) == Step(Step(Step(Run(s, es), a), b), c)
    ensures Times(es + [a] + [b] + [c], Raise) ==
              Times(es, Raise) + (if a == Raise then 1 else 0) + (if b == Raise then 1 else 0) +
              (if c == Raise then 1 else 0)
  {
    hide Step;
    RunSnoc(s, es, a);
    RunSnoc(s, es + [a], b);
    RunSnoc(s, es + [a] + [b], c);
    TimesSnoc(es, a, Raise);
    TimesSnoc(es + [a], b, Raise);
    TimesSnoc(es + [a] + [b], c, Raise);
  }

  /** A waiting detection of a node that stays authorized has been reported if and only if the
      detection thread has taken its two steps, or the one that is left. */
  lemma WaitingIsReportedIff(s: State, rest: seq<Event>)
    requires s.fired && s.connected && s.detection != Clearing && Never(rest, Receive(Deauthorize))
    ensures Sent(Run(s, rest).sent, Tap) > Sent(s.sent, Tap) <==>
            Times(rest, DetectionTurn) >= (if s.detection == Testing then 2 else 1)
  {
    WaitingAdvances(s, rest);
  }

  lemma {:induction false} WaitingAdvances(s: State, rest: seq<Event>)
    requires s.fired && s.connected && s.detection != Clearing && Never(rest, Receive(Deauthorize))
    ensures var u, turns := Run(s, rest), Times(rest, DetectionTurn) + if s.detection == Testing then 0 else 1;
            && u.connected
            && if turns < 2
               then u.fired && u.detection == (if turns == 0 then Testing else Sending) &&
                    Sent(u.sent, Tap) == Sent(s.sent, Tap)
               else Sent(u.sent, Tap) > Sent(s.sent, Tap)
  {
    if rest != [] {
      var init, e := rest[..|rest| - 1], rest[|rest| - 1];
      WaitingAdvances(s, init);
      StepParts(Run(s, init), e);
      SentStep(Run(s, init), e, Tap);
      hide Step, Sent;
    }
  }

  /** No report without its own detection, in every run; `fire_status` tells whether there was one. */
  lemma {:induction false} NoSpuriousReport(es: seq<Event>)
    ensures var s := Run(INIT, es);
            var owed := if s.detection == Sending || (s.detection == Testing && s.fired) then 1 else 0;
            && Sent(s.sent, Tap) + owed <= Times(es, Raise)
            && (s.everFired <==> Sent(s.sent, Tap) > 0 || s.detection == Sending)
            && (s.detection != Testing ==> s.fired)
  {
    if es != [] {
      var init, e := es[..|es| - 1], es[|es| - 1];
      NoSpuriousReport(init);
      StepParts(Run(INIT, init), e);
      SentStep(Run(INIT, init), e, Tap);
      hide Step, Sent;
    }
  }

  // ----- the register button -----

  /** A press is waiting to be sent, or has been followed by a registration. */
  predicate PressKept(s: State, rest: seq<Event>) {
    var u := Run(Step(s, PressRegister), rest);
    u.sendId || Sent(u.sent, Register) > Sent(s.sent, Register)
  }

  lemma {:induction false} PressAdvances(s: State, rest: seq<Event>)
    requires s.sendId && s.register != Clearing
    ensures var u, turns := Run(s, rest), Times(rest, RegisterTurn) + if s.register == Testing then 0 else 1;
            if turns < 2
            then u.sendId && u.register == (if turns == 0 then Testing else Sending) &&
                 Sent(u.sent, Register) == Sent(s.sent, Register)
            else Sent(u.sent, Register) > Sent(s.sent, Register)
  {
    if rest != [] {
      var init, e := rest[..|rest| - 1], rest[|rest| - 1];
      PressAdvances(s, init);
      StepParts(Run(s, init), e);
      SentStep(Run(s, init), e, Register);
      hide Step, Sent;
    }
  }

  /** A waiting press has led to a registration, authorized or not, if and only if the register thread
      has taken its test and its send, or the one of them that was left. */
  lemma PressIsSentIff(s: State, rest: seq<Event>)
    requires s.sendId && s.register != Clearing
    ensures Sent(Run(s, rest).sent, Register) > Sent(s.sent, Register) <==>
            Times(rest, RegisterTurn) >= (if s.register == Testing then 2 else 1)
  {
    PressAdvances(s, rest);
  }

  /** Like a detection, a press is kept if and only if it does not fall between a send and the write
      that lowers `send_id`. */
  lemma PressKeptIff(s: State)
    ensures (forall rest :: PressKept(s, rest)) <==> s.register != Clearing
  {
    if s.register == Clearing {
      RunSnoc(Step(s, PressRegister), [], RegisterTurn);
      assert !PressKept(s, [] + [RegisterTurn]);
    } else {
      forall rest
        ensures PressKept(s, rest)
      {
        PressAdvances(Step(s, PressRegister), rest);
      }
    }
  }

  /** No registration without its own press, in every run. */
  lemma {:induction false} NoSpuriousRegistration(es: seq<Event>)
    ensures var s := Run(INIT, es);
            var owed := if s.register == Sending || (s.register == Testing && s.sendId) then 1 else 0;
            && Sent(s.sent, Register) + owed <= Times(es, PressRegister)
            && (s.register != Testing ==> s.sendId)
  {
    if es != [] {
      var init, e := es[..|es| - 1], es[|es| - 1];
      NoSpuriousRegistration(init);
      StepParts(Run(INIT, init), e);
      SentStep(Run(INIT, init), e, Register);
      hide Step, Sent;
    }
  }

  // ----- the program -----

  class Node {
    var connectionStatus: bool
    var sensorFired: bool
    var fireStatus: bool
    var sendId: bool
    ghost var sent: seq<Message>
    ghost var history: seq<Event>

    /** Between iterations of its threads, the node is where its history leads. */
    ghost predicate Valid()
      reads this
    {
      Run(INIT, history) == State(connectionStatus, sensorFired, fireStatus, sendId, Testing, Testing, Testing, sent)
    }

    constructor ()
      ensures Valid() && history == []
    {
      connectionStatus, sensorFired, fireStatus, sendId, sent, history := false, false, false, false, [], [];
    }

    /** `_gateway_connection_handler`: `connection_status` tells the latest word, other payloads
        notwithstanding. */
    method ConnectionHandler(c: Control)
      requires Valid()
      modifies this
      ensures Valid() && history == old(history) + [Receive(c)] && sent == old(sent)
      ensures connectionStatus <==> Authorized(history)
    {
      RunSnoc(INIT, history, Receive(c));
      ConnectedIffAuthorized(history + [Receive(c)]);
      history := history + [Receive(c)];
      if c == Authorize {
        connectionStatus := true;
        return;
      }
      if c == Deauthorize {
        connectionStatus := false;
      }
    }

    /** `test_intrp`. */
    method TestInterrupt()
      requires Valid()
      modifies this
      ensures Valid() && history == old(history) + [Raise] && sent == old(sent)
      ensures sensorFired && Sent(sent, Tap) < Times(history, Raise)
    {
      hide Run, Times, Sent;
      RunSnoc(INIT, history, Raise);
      NoSpuriousReport(history + [Raise]);
      history := history + [Raise];
      sensorFired := true;
    }

    /** `register_intrp`. */
    method RegisterInterrupt()
      requires Valid()
      modifies this
      ensures Valid() && history == old(history) + [PressRegister] && sent == old(sent)
      ensures sendId && Sent(sent, Register) < Times(history, PressRegister)
    {
      hide Run, Times, Sent;
      RunSnoc(INIT, history, PressRegister);
      NoSpuriousRegistration(history + [PressRegister]);
      history := history + [PressRegister];
      sendId := true;
    }

    /** One iteration of `status_thread`: a heartbeat if and only if the latest word received is AUTH. */
    method StatusThread()
      requires Valid()
      modifies this
      ensures Valid() && sent == old(sent) + (if Authorized(old(history)) then [Status] else [])
      ensures Authorized(history) <==> Authorized(old(history))
    {
      hide Run, Authorized;
      ConnectedIffAuthorized(history);
      RunSnoc(INIT, history, StatusTurn);
      history := history + [StatusTurn];
      if connectionStatus {
        RunSnoc(INIT, history, StatusTurn);
        sent, history := sent + [Status], history + [StatusTurn];
      }
      ConnectedIffAuthorized(history);
    }

    /** One iteration of `detection_thread`, with `pressed` telling whether `test_intrp` comes between
        the send and the write after it.  A report takes AUTH as the latest word and a detection not
        reported yet; afterwards nothing waits, and a detection that came in between is lost. */
    method DetectionThread(pressed: bool) returns (reported: bool)
      requires Valid()
      modifies this
      ensures Valid()
      ensures reported <==> old(sensorFired) && Authorized(old(history))
      ensures sent == old(sent) + if reported then [Tap] else []
      ensures sensorFired <==> old(sensorFired) && !reported
      ensures Times(history, Raise) == Times(old(history), Raise) + if reported && pressed then 1 else 0
      ensures Sent(sent, Tap) <= Times(history, Raise)
    {
      hide Run, Times, Sent, Authorized;
      ConnectedIffAuthorized(history);
      Detecting();
      reported := sensorFired && connectionStatus;
      if sensorFired && connectionStatus {
        fireStatus := true;
        Detecting();
        sent := sent + [Tap];
        if pressed {
          RunSnoc(INIT, history, Raise);
          TimesSnoc(history, Raise, Raise);
          history := history + [Raise];
          sensorFired := true;
        }
        Detecting();
        sensorFired := false;
      }
      NoSpuriousReport(history);
    }

    /** The history takes the next step of the detection thread. */
    ghost method Detecting()
      modifies this`history
      ensures history == old(history) + [DetectionTurn]
      ensures Run(INIT, history) == Step(Run(INIT, old(history)), DetectionTurn)
      ensures Times(history, Raise) == Times(old(history), Raise)
    {
      RunSnoc(INIT, history, DetectionTurn);
      TimesSnoc(history, DetectionTurn, Raise);
      history := history + [DetectionTurn];
    }

    /** One iteration of `register_thread`: at most one registration, and afterwards none waits. */
    method RegisterThread()
      requires Valid()
      modifies this
      ensures Valid() && !sendId
      ensures sent == old(sent) + if old(sendId) then [Register] else []
    {
      hide Run;
      RunSnoc(INIT, history, RegisterTurn);
      history := history + [RegisterTurn];
      if sendId {
        RunSnoc(INIT, history, RegisterTurn);
        sent, history := sent + [Register], history + [RegisterTurn];
        RunSnoc(INIT, history, RegisterTurn);
        sendId, history := false, history + [RegisterTurn];
      }
    }
  }
}
