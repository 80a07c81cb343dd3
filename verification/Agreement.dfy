/** The gateway's table against what the sensors believe (`connection_status`), over channels that
    neither lose nor reorder. */
module Agreement {
  import opened Base
  import opened Gateway
  import opened Invariant
  import L = SharedList
  import S = SensorNode

  /** Where each node lives; no two nodes share an endpoint. */
  datatype AddressBook = AddressBook(sensor: Name -> Remote, actuator: Name -> Remote) {
    ghost predicate Valid() {
      && (forall m, n :: sensor(m) == sensor(n) ==> m == n)
      && (forall m, n :: sensor(m) != actuator(n))
    }

    /** Nodes register with their own address. */
    predicate Genuine(e: Event) {
      match e
      case SensorRegister(Some(who)) => who.remote == sensor(who.name)
      case ActuatorRegister(Some(who)) => who.remote == actuator(who.name)
      case _ => true
    }
  }

  /** A number for each name, different for different names. */
  function Code(n: Name): nat {
    if n == [] then 0 else (n[0] as int + 129) + 512 * Code(n[1..])
  }

  lemma DigitsUnique(a: int, b: int, x: int, y: int)
    requires 0 < a < 512 && 0 < b < 512 && a + 512 * x == b + 512 * y
    ensures a == b && x == y
  {
  }

  lemma {:induction false} CodeInjective(m: Name, n: Name)
    requires Code(m) == Code(n)
    ensures m == n
  {
    if m != [] && n != [] {
      DigitsUnique(m[0] as int + 129, n[0] as int + 129, Code(m[1..]), Code(n[1..]));
      CodeInjective(m[1..], n[1..]);
      assert m == [m[0]] + m[1..] && n == [n[0]] + n[1..];
    }
  }

  /** Sensors at even addresses, actuators at odd ones: such an assignment exists. */
  lemma SomeBookIsValid()
    ensures AddressBook((n: Name) => 2 * Code(n), (n: Name) => 2 * Code(n) + 1).Valid()
  {
    var book := AddressBook((n: Name) => 2 * Code(n), (n: Name) => 2 * Code(n) + 1);
    forall m, n | book.sensor(m) == book.sensor(n)
      ensures m == n
    {
      CodeInjective(m, n);
    }
  }

  /** The latest AUTH or DEAU sent to `r` was an AUTH. */
  function Told(out: seq<Packet>, r: Remote): bool {
    if out == [] then false
    else match out[|out| - 1]
         case Auth(q) => q == r || Told(out[..|out| - 1], r)
         case Deau(q) => q != r && Told(out[..|out| - 1], r)
         case On(_, _) => Told(out[..|out| - 1], r)
  }

  ghost predicate RowsAt(book: AddressBook, s: State) {
    && (forall n :: n in s.sensors ==> s.sensors[n].remote == book.sensor(n))
    && (forall i :: L.InHeap(s.list, i) ==> s.list.nodes[i].remote == book.actuator(s.list.nodes[i].name))
  }

  /** A step that hands SENSOR_ID's sensor its AUTH. */
  predicate Confirms(s: State, e: Event, n: Name) {
    e == ShellStep && s.session.shell == InSensor(n, ReplySensor) && s.session.sensorId == Some(n) && n in s.sensors
  }

  ghost predicate AdmittedBy(s: State, e: Event, n: Name) {
    n !in s.sensors && n in Step(s, e).sensors
  }

  lemma RowsStep(book: AddressBook, s: State, e: Event)
    requires Inv(s) && RowsAt(book, s) && book.Genuine(e)
    ensures RowsAt(book, Step(s, e))
  {
    match e
    case ShellStep => RowsShellStep(book, s);
    case ActuatorRegister(_) =>
    case _ =>
  }

  lemma RowsShellStep(book: AddressBook, s: State)
    requires RowsAt(book, s)
    ensures RowsAt(book, OnShell(s))
  {
  }

  lemma ToldSnoc(out: seq<Packet>, p: Packet, r: Remote)
    ensures Told(out + [p], r) == match p
                                  case Auth(q) => q == r || Told(out, r)
                                  case Deau(q) => q != r && Told(out, r)
                                  case On(_, _) => Told(out, r)
  {
    assert (out + [p])[..|out + [p]| - 1] == out;
  }

  /** What one step tells one sensor. */
  lemma ToldStep(book: AddressBook, s: State, e: Event, n: Name)
    requires Inv(s) && book.Valid() && RowsAt(book, s) && (Told(s.out, book.sensor(n)) ==> n in s.sensors)
    ensures var s', r := Step(s, e), book.sensor(n);
            Told(s'.out, r) <==> (Confirms(s, e, n) || (Told(s.out, r) && n in s'.sensors))
  {
    if e == ShellStep {
      ToldShellStep(book, s, n);
    } else {
      OthersTellNothing(s, e, book.sensor(n));
    }
  }

  lemma ToldShellStep(book: AddressBook, s: State, n: Name)
    requires Inv(s) && book.Valid() && RowsAt(book, s) && (Told(s.out, book.sensor(n)) ==> n in s.sensors)
    ensures var s', r := OnShell(s), book.sensor(n);
            Told(s'.out, r) <==> (Confirms(s, ShellStep, n) || (Told(s.out, r) && n in s'.sensors))
  {
    if s.session.shell.InSensor? {
      ToldSensorStep(book, s, n);
    } else {
      ToldListStep(book, s, n);
    }
  }

  lemma ToldSensorStep(book: AddressBook, s: State, n: Name)
    requires SessionOk(s.session) && s.session.shell.InSensor?
    requires book.Valid() && RowsAt(book, s) && (Told(s.out, book.sensor(n)) ==> n in s.sensors)
    ensures var s', r := OnShell(s), book.sensor(n);
            Told(s'.out, r) <==> (Confirms(s, ShellStep, n) || (Told(s.out, r) && n in s'.sensors))
  {
    var s' := OnShell(s);
    if s'.out != s.out {
      var p := s'.out[|s.out|];
      assert s'.out == s.out + [p];
      ToldSnoc(s.out, p, book.sensor(n));
    }
  }

  /** AUTH and DEAU to an actuator leave every sensor as it was. */
  lemma ToldListStep(book: AddressBook, s: State, n: Name)
    requires book.Valid() && RowsAt(book, s) && !s.session.shell.InSensor?
    ensures var s' := OnShell(s); Told(s'.out, book.sensor(n)) == Told(s.out, book.sensor(n)) && s'.sensors == s.sensors
  {
    var s' := OnShell(s);
    if s'.out != s.out {
      var p := s'.out[|s.out|];
      assert s'.out == s.out + [p];
      ToldSnoc(s.out, p, book.sensor(n));
    }
  }

  lemma OthersTellNothing(s: State, e: Event, r: Remote)
    requires e != ShellStep
    ensures Told(Step(s, e).out, r) == Told(s.out, r) && s.sensors.Keys <= Step(s, e).sensors.Keys
  {
    if Step(s, e).out != s.out {
      var p := Step(s, e).out[|s.out|];
      assert Step(s, e).out == s.out + [p];
      ToldSnoc(s.out, p, r);
    }
  }

  ghost predicate AllGenuine(book: AddressBook, es: seq<Event>) {
    forall j :: 0 <= j < |es| ==> book.Genuine(es[j])
  }

  ghost predicate OnlyRegisteredTold(book: AddressBook, s: State) {
    forall n :: Told(s.out, book.sensor(n)) ==> n in s.sensors
  }

  lemma {:induction false} ToldImpliesRegistered(book: AddressBook, es: seq<Event>)
    requires book.Valid() && AllGenuine(book, es)
    ensures var s := Run(INIT, es); Inv(s) && RowsAt(book, s) && OnlyRegisteredTold(book, s)
  {
    Reachable(es);
    if es != [] {
      var init, e := es[..|es| - 1], es[|es| - 1];
      ToldImpliesRegistered(book, init);
      var s := Run(INIT, init);
      RowsStep(book, s, e);
      forall n | Told(Step(s, e).out, book.sensor(n))
        ensures n in Step(s, e).sensors
      {
        ToldStep(book, s, e, n);
      }
    }
  }

  ghost predicate AdmitsAt(es: seq<Event>, i: nat, n: Name) {
    i < |es| && AdmittedBy(Run(INIT, es[..i]), es[i], n)
  }

  ghost predicate LastAdmission(es: seq<Event>, i: nat, n: Name) {
    AdmitsAt(es, i, n) && forall j: nat :: i < j ==> !AdmitsAt(es, j, n)
  }

  ghost predicate ConfirmsAt(es: seq<Event>, j: nat, n: Name) {
    j < |es| && Confirms(Run(INIT, es[..j]), es[j], n)
  }

  /** A session returned success for n, with SENSOR_ID still set, after step i. */
  ghost predicate ConfirmedSince(es: seq<Event>, i: nat, n: Name) {
    exists j: nat :: i < j && ConfirmsAt(es, j, n)
  }

  lemma ConfirmsAtPrefix(es: seq<Event>, j: nat, n: Name)
    requires j < |es| - 1
    ensures ConfirmsAt(es[..|es| - 1], j, n) <==> ConfirmsAt(es, j, n)
  {
    assert es[..|es| - 1][..j] == es[..j];
  }

  lemma ConfirmedPrefix(es: seq<Event>, i: nat, n: Name)
    requires es != []
    ensures var last := |es| - 1;
            ConfirmedSince(es, i, n) <==> ConfirmedSince(es[..last], i, n) || (i < last && ConfirmsAt(es, last, n))
  {
    var last := |es| - 1;
    if ConfirmedSince(es[..last], i, n) {
      var j: nat :| i < j && ConfirmsAt(es[..last], j, n);
      ConfirmsAtPrefix(es, j, n);
    }
    if ConfirmedSince(es, i, n) {
      var j: nat :| i < j && ConfirmsAt(es, j, n);
      if j < last {
        ConfirmsAtPrefix(es, j, n);
      }
    }
  }

  lemma AdmitsAtPrefix(es: seq<Event>, i: nat, n: Name)
    requires es != []
    ensures AdmitsAt(es[..|es| - 1], i, n) <==> i < |es| - 1 && AdmitsAt(es, i, n)
  {
    if i < |es| - 1 {
      assert es[..|es| - 1][..i] == es[..i];
    }
  }

  /** The latest admission is the last step, or that of the run before it. */
  lemma LastAdmissionSnoc(es: seq<Event>, i: nat, n: Name)
    requires es != []
    ensures var last := |es| - 1;
            LastAdmission(es, i, n) <==>
              if AdmitsAt(es, last, n) then i == last else LastAdmission(es[..last], i, n)
  {
    var last := |es| - 1;
    assert forall j: nat :: j > last ==> !AdmitsAt(es, j, n);
    hide AdmitsAt;
    forall j: nat
      ensures AdmitsAt(es[..last], j, n) <==> j < last && AdmitsAt(es, j, n)
    {
      AdmitsAtPrefix(es, j, n);
    }
  }

  lemma AdmitsAtLast(es: seq<Event>, n: Name)
    requires es != [] && n in Run(INIT, es).sensors
    ensures AdmitsAt(es, |es| - 1, n) <==> n !in Run(INIT, es[..|es| - 1]).sensors
  {
  }

  lemma {:induction false} LastAdmissionExists(es: seq<Event>, n: Name)
    requires n in Run(INIT, es).sensors
    ensures exists i: nat :: LastAdmission(es, i, n)
  {
    if es != [] {
      var last := |es| - 1;
      AdmitsAtLast(es, n);
      if AdmitsAt(es, last, n) {
        LastAdmissionSnoc(es, last, n);
      } else {
        LastAdmissionExists(es[..last], n);
        var i: nat :| LastAdmission(es[..last], i, n);
        LastAdmissionSnoc(es, i, n);
      }
    }
  }

  lemma {:induction false} ToldIffConfirmedSince(book: AddressBook, es: seq<Event>, i: nat, n: Name)
    requires book.Valid() && AllGenuine(book, es)
    requires n in Run(INIT, es).sensors && LastAdmission(es, i, n)
    ensures Told(Run(INIT, es).out, book.sensor(n)) <==> ConfirmedSince(es, i, n)
  {
    var last := |es| - 1;
    var init, e := es[..last], es[last];
    var s := Run(INIT, init);
    ToldImpliesRegistered(book, init);
    ToldStep(book, s, e, n);
    ConfirmedPrefix(es, i, n);
    LastAdmissionSnoc(es, i, n);
    AdmitsAtLast(es, n);
    hide Step, Confirms, Told;
    if i == last {
      assert !Told(s.out, book.sensor(n));
    } else {
      ToldIffConfirmedSince(book, init, i, n);
    }
  }

  /** The sensor has been admitted, and a session for it returned success after its latest admission. */
  ghost predicate ConfirmedLatest(es: seq<Event>, n: Name) {
    exists i: nat :: LastAdmission(es, i, n) && ConfirmedSince(es, i, n)
  }

  /** In every run, the latest word to a sensor is AUTH if and only if it is in the table and a session
      for it returned success after its latest admission. */
  lemma ToldIffConfirmed(book: AddressBook, es: seq<Event>, n: Name)
    requires book.Valid() && AllGenuine(book, es)
    ensures var s := Run(INIT, es);
            Told(s.out, book.sensor(n)) <==> n in s.sensors && ConfirmedLatest(es, n)
  {
    ToldImpliesRegistered(book, es);
    if n in Run(INIT, es).sensors {
      LastAdmissionExists(es, n);
      forall i: nat | LastAdmission(es, i, n)
        ensures Told(Run(INIT, es).out, book.sensor(n)) <==> ConfirmedSince(es, i, n)
      {
        ToldIffConfirmedSince(book, es, i, n);
      }
    }
  }

  // ----- channels and sensor nodes -----

  /** A sensor node and the control messages on their way to it, oldest first. */
  datatype Node = Node(device: S.State, inbox: seq<S.Control>)

  datatype Net = Net(gateway: State, nodes: map<Remote, Node>)

  /** A step of the gateway, a delivery, or a step of a node on its own. */
  datatype NetEvent = AtGateway(e: Event) | Deliver(to: Remote) | AtNode(at: Remote, own: S.Event)

  function Posted(p: Packet, r: Remote): seq<S.Control> {
    match p
    case Auth(q) => if q == r then [S.Authorize] else []
    case Deau(q) => if q == r then [S.Deauthorize] else []
    case On(_, _) => []
  }

  /** The control messages in `out` from position `from` on that are addressed to `r`. */
  function PostedFrom(out: seq<Packet>, from: nat, r: Remote): seq<S.Control>
    decreases |out| - from
  {
    if from >= |out| then [] else Posted(out[from], r) + PostedFrom(out, from + 1, r)
  }

  /** `_gateway_connection_handler`. */
  function OnControl(node: Node): Node {
    if node.inbox == [] then node
    else Node(S.Step(node.device, S.Receive(node.inbox[0])), node.inbox[1..])
  }

  ghost function NetStep(w: Net, e: NetEvent): Net {
    match e
    case AtGateway(ge) =>
      var g := Step(w.gateway, ge);
      Net(g, map r | r in w.nodes ::
        w.nodes[r].(inbox := w.nodes[r].inbox + PostedFrom(g.out, |w.gateway.out|, r)))
    case Deliver(to) =>
      if to in w.nodes then w.(nodes := w.nodes[to := OnControl(w.nodes[to])]) else w
    case AtNode(at, own) =>
      if at in w.nodes && !own.Receive?
      then w.(nodes := w.nodes[at := w.nodes[at].(device := S.Step(w.nodes[at].device, own))])
      else w
  }

  ghost function NetRun(remotes: set<Remote>, es: seq<NetEvent>): Net {
    if es == [] then Net(INIT, map r | r in remotes :: Node(S.INIT, []))
    else NetStep(NetRun(remotes, es[..|es| - 1]), es[|es| - 1])
  }

  /** The gateway's own events. */
  function AtGatewayOnly(es: seq<NetEvent>): seq<Event> {
    if es == [] then []
    else AtGatewayOnly(es[..|es| - 1]) + match es[|es| - 1] case AtGateway(e) => [e] case _ => []
  }

  /** What the node will believe once its channel has drained. */
  function Eventually(node: Node): bool {
    if node.inbox == [] then node.device.connected else node.inbox[|node.inbox| - 1] == S.Authorize
  }

  /** Channels carry nothing but AUTH and DEAU. */
  predicate Proper(node: Node) {
    forall c :: c in node.inbox ==> c != S.Other
  }

  ghost predicate Faithful(w: Net, r: Remote) {
    r in w.nodes && Proper(w.nodes[r]) && Eventually(w.nodes[r]) == Told(w.gateway.out, r)
  }

  lemma SendsAtMostOne(s: State, e: Event)
    ensures Step(s, e).out == s.out || exists p :: Step(s, e).out == s.out + [p]
  {
    if Step(s, e).out != s.out {
      assert Step(s, e).out == s.out + [Step(s, e).out[|s.out|]];
    }
  }

  lemma EventuallyAfter(node: Node, more: seq<S.Control>)
    ensures var after := node.(inbox := node.inbox + more);
            && Eventually(after) == (if more == [] then Eventually(node) else more[|more| - 1] == S.Authorize)
            && (Proper(node) && S.Other !in more ==> Proper(after))
  {
    assert more == [] ==> node.inbox + more == node.inbox;
  }

  /** One step posts to `r` what changes `Told`, and nothing else. */
  lemma PostedDecides(s: State, e: Event, r: Remote)
    ensures var more := PostedFrom(Step(s, e).out, |s.out|, r);
            && Told(Step(s, e).out, r) == (if more == [] then Told(s.out, r) else more[|more| - 1] == S.Authorize)
            && S.Other !in more
  {
    SendsAtMostOne(s, e);
    hide Step;
    if Step(s, e).out != s.out {
      var p :| Step(s, e).out == s.out + [p];
      ToldSnoc(s.out, p, r);
      PostedOne(s.out, p, r);
    }
  }

  lemma PostFaithful(w: Net, e: Event, r: Remote)
    requires Faithful(w, r)
    ensures Faithful(NetStep(w, AtGateway(e)), r)
  {
    PostedDecides(w.gateway, e, r);
    hide Step;
    EventuallyAfter(w.nodes[r], PostedFrom(Step(w.gateway, e).out, |w.gateway.out|, r));
  }

  lemma PostedOne(before: seq<Packet>, p: Packet, r: Remote)
    ensures PostedFrom(before + [p], |before|, r) == Posted(p, r)
  {
    var after := before + [p];
    assert PostedFrom(after, |after|, r) == [];
    assert PostedFrom(after, |before|, r) == Posted(p, r) + [];
  }

  lemma NodeFaithful(w: Net, e: NetEvent, r: Remote)
    requires Faithful(w, r) && !e.AtGateway?
    ensures Faithful(NetStep(w, e), r) && NetStep(w, e).gateway == w.gateway
  {
    var node := w.nodes[r];
    if node.inbox != [] {
      assert node.inbox[0] in node.inbox;
      assert forall c :: c in node.inbox[1..] ==> c in node.inbox;
    }
  }

  /** Lossless, ordered channels: what a node will believe is what it was last told. */
  lemma {:induction false} ChannelsFaithful(remotes: set<Remote>, es: seq<NetEvent>, r: Remote)
    requires r in remotes
    ensures var w := NetRun(remotes, es); w.gateway == Run(INIT, AtGatewayOnly(es)) && Faithful(w, r)
  {
    if es != [] {
      var init, e := es[..|es| - 1], es[|es| - 1];
      ChannelsFaithful(remotes, init, r);
      var w, a := NetRun(remotes, init), AtGatewayOnly(init);
      if e.AtGateway? {
        assert AtGatewayOnly(es)[..|a|] == a;
        PostFaithful(w, e.e, r);
      } else {
        assert AtGatewayOnly(es) == a;
        NodeFaithful(w, e, r);
      }
    }
  }

  /** Whenever a sensor's channel is empty, it believes itself connected if and only if it is in the
      table and a session for it has returned success since its latest admission. */
  lemma ConnectionAgreement(book: AddressBook, remotes: set<Remote>, es: seq<NetEvent>, n: Name)
    requires book.Valid() && AllGenuine(book, AtGatewayOnly(es)) && book.sensor(n) in remotes
    ensures var w, a, r := NetRun(remotes, es), AtGatewayOnly(es), book.sensor(n);
            && r in w.nodes
            && (w.nodes[r].inbox == [] ==>
                  (w.nodes[r].device.connected <==> n in w.gateway.sensors && ConfirmedLatest(a, n)))
  {
    ChannelsFaithful(remotes, es, book.sensor(n));
    ToldIffConfirmed(book, AtGatewayOnly(es), n);
  }

  /** A delivery takes the oldest message out of the channel, and the gateway has no part in it. */
  lemma DeliveryDrains(w: Net, r: Remote)
    requires r in w.nodes && w.nodes[r].inbox != []
    ensures var u := NetStep(w, Deliver(r));
            && u.gateway == w.gateway && r in u.nodes && u.nodes[r].inbox == w.nodes[r].inbox[1..]
            && u.nodes[r].device == S.Step(w.nodes[r].device, S.Receive(w.nodes[r].inbox[0]))
  {
  }

  function Deliveries(r: Remote, k: nat): seq<NetEvent> {
    if k == 0 then [] else Deliveries(r, k - 1) + [Deliver(r)]
  }

  lemma DeliverySnoc(remotes: set<Remote>, es: seq<NetEvent>, r: Remote)
    ensures NetRun(remotes, es + [Deliver(r)]) == NetStep(NetRun(remotes, es), Deliver(r))
    ensures AtGatewayOnly(es + [Deliver(r)]) == AtGatewayOnly(es)
  {
    hide NetStep;
    assert (es + [Deliver(r)])[..|es + [Deliver(r)]| - 1] == es;
  }

  lemma {:induction false} DeliveriesDrain(remotes: set<Remote>, es: seq<NetEvent>, r: Remote, k: nat)
    requires r in remotes
    requires r in NetRun(remotes, es).nodes && k <= |NetRun(remotes, es).nodes[r].inbox|
    ensures var w, u := NetRun(remotes, es), NetRun(remotes, es + Deliveries(r, k));
            && u.gateway == w.gateway && r in u.nodes && u.nodes[r].inbox == w.nodes[r].inbox[k..]
            && AtGatewayOnly(es + Deliveries(r, k)) == AtGatewayOnly(es)
  {
    hide NetStep, NetRun, AtGatewayOnly;
    if k == 0 {
      assert es + Deliveries(r, 0) == es;
    } else {
      DeliveriesDrain(remotes, es, r, k - 1);
      var more := es + Deliveries(r, k - 1);
      assert es + Deliveries(r, k) == more + [Deliver(r)];
      DeliverySnoc(remotes, more, r);
      DeliveryDrains(NetRun(remotes, more), r);
    }
  }

  /** From every run on, once the messages in a sensor's channel have been delivered, it believes itself
      connected if and only if it is in the table and confirmed since its latest admission. */
  lemma DrainedAgrees(book: AddressBook, remotes: set<Remote>, es: seq<NetEvent>, n: Name)
    requires book.Valid() && AllGenuine(book, AtGatewayOnly(es)) && book.sensor(n) in remotes
    ensures var w, r := NetRun(remotes, es), book.sensor(n);
            && r in w.nodes
            && var u := NetRun(remotes, es + Deliveries(r, |w.nodes[r].inbox|));
               && r in u.nodes && u.nodes[r].inbox == []
               && (u.nodes[r].device.connected <==>
                     n in w.gateway.sensors && ConfirmedLatest(AtGatewayOnly(es), n))
  {
    var w, r := NetRun(remotes, es), book.sensor(n);
    ChannelsFaithful(remotes, es, r);
    var k := |w.nodes[r].inbox|;
    DeliveriesDrain(remotes, es, r, k);
    ConnectionAgreement(book, remotes, es + Deliveries(r, k), n);
  }

  /** What one event of the network is to the node at r: an event of its own, or a message delivered. */
  function DeviceEvent(w: Net, e: NetEvent, r: Remote): Option<S.Event> {
    match e
    case AtGateway(_) => None
    case Deliver(to) =>
      if to == r && r in w.nodes && w.nodes[r].inbox != [] then Some(S.Receive(w.nodes[r].inbox[0])) else None
    case AtNode(at, own) => if at == r && !own.Receive? then Some(own) else None
  }

  lemma DeviceMoves(w: Net, e: NetEvent, r: Remote)
    requires r in w.nodes
    ensures var u, own := NetStep(w, e), DeviceEvent(w, e, r);
            && r in u.nodes
            && u.nodes[r].device == if own.Some? then S.Step(w.nodes[r].device, own.value) else w.nodes[r].device
  {
    hide Step, S.Step;
  }

  ghost function DeviceEvents(remotes: set<Remote>, es: seq<NetEvent>, r: Remote): seq<S.Event> {
    if es == [] then []
    else
      var init := es[..|es| - 1];
      var own := DeviceEvent(NetRun(remotes, init), es[|es| - 1], r);
      DeviceEvents(remotes, init, r) + if own.Some? then [own.value] else []
  }

  /** In the network each node runs its own program on those, and nothing else reaches it. */
  lemma {:induction false} DeviceRuns(remotes: set<Remote>, es: seq<NetEvent>, r: Remote)
    requires r in remotes
    ensures var w := NetRun(remotes, es);
            r in w.nodes && w.nodes[r].device == S.Run(S.INIT, DeviceEvents(remotes, es, r))
  {
    if es != [] {
      var init, e := es[..|es| - 1], es[|es| - 1];
      DeviceRuns(remotes, init, r);
      var w, a := NetRun(remotes, init), DeviceEvents(remotes, init, r);
      var own := DeviceEvent(w, e, r);
      DeviceMoves(w, e, r);
      hide NetStep, DeviceEvent, S.Step;
      if own.Some? {
        S.RunSnoc(S.INIT, a, own.value);
      } else {
        assert DeviceEvents(remotes, es, r) == a;
      }
    }
  }

  /** Every admission of the sensor was followed by a success of a session for it. */
  ghost predicate EveryAdmissionConfirmed(es: seq<Event>, n: Name) {
    forall i: nat :: LastAdmission(es, i, n) ==> ConfirmedSince(es, i, n)
  }

  /** Then the sensor and the gateway's table agree. */
  lemma ConfirmedAdmissionsAgree(book: AddressBook, remotes: set<Remote>, es: seq<NetEvent>, n: Name)
    requires book.Valid() && AllGenuine(book, AtGatewayOnly(es)) && book.sensor(n) in remotes
    requires EveryAdmissionConfirmed(AtGatewayOnly(es), n)
    ensures var w, r := NetRun(remotes, es), book.sensor(n);
            && r in w.nodes
            && (w.nodes[r].inbox == [] ==> (w.nodes[r].device.connected <==> n in w.gateway.sensors))
  {
    ConnectionAgreement(book, remotes, es, n);
    ChannelsFaithful(remotes, es, book.sensor(n));
    if n in NetRun(remotes, es).gateway.sensors {
      LastAdmissionExists(AtGatewayOnly(es), n);
    }
  }
}
