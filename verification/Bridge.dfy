/** The whole bridge as interleaved atomic steps: two receive threads, one for the physical serial device
 *  ("tty") and one for the kernel's side ("linux"), and the dispatch thread between them and the client
 *  of the broadcast socket. */
module Bridge {
  import opened Bytes
  import opened Frame
  import opened Receiver
  import opened Streams
  import opened Handoff
  import opened Broadcast

  // ------------------------------------------------------------ what the environment decides

  /** Which descriptors select() reports readable. */
  datatype Ready = Ready(client: bool, linux: bool, tty: bool)

  // ------------------------------------------------------------ routing

  /** Null and broadcast endpoint identifiers. */
  predicate IsBroadcast(eid: byte) {
    eid == 0xff || eid == 0x00
  }

  /** The byte at index 1 of a message. */
  function Destination(m: Packet): byte
    requires |m| > 1
  {
    m[1]
  }

  datatype Origin = FromLinux | FromClient
  datatype Fate = ToLinux | ToClient | Dropped | Lost

  /** A message handed to the serial device. */
  datatype Sent = Sent(origin: Origin, message: Packet)

  /** A message that came from the serial device, whether a client was connected then, and how
   *  a send() to the client would have ended. */
  datatype Routed = Routed(fate: Fate, message: Packet, connected: bool, sending: SendResult)

  /** A message that came from the client, with the destination that was read from it. */
  datatype Offer = Offer(destination: byte, message: Packet)

  function FateOf(m: Packet, connected: bool, sending: SendResult): Fate
    requires |m| > 1
  {
    if !IsBroadcast(Destination(m)) then ToLinux
    else if !connected then Dropped
    else if sending == Delivered then ToClient
    else Lost
  }

  // ------------------------------------------------------------ the machine

  /** Where the dispatch thread is in its loop. Past select() it carries what was reported. */
  datatype Pc =
    | Accepting
    | Polling
    | ServingClient(ready: Ready)
    | ServingLinux(ready: Ready)
    | FetchingLinux(ready: Ready)
    | ServingTty(ready: Ready)
    | FetchingTty
    | Stopped

  /** The last three fields record history. */
  datatype State = State(
    pc: Pc, tty: Port, linux: Port, connected: bool,
    ttyWire: seq<byte>, linuxWire: seq<byte>, clientOut: seq<Packet>,
    sent: seq<Sent>, routed: seq<Routed>, offered: seq<Offer>)

  const BRIDGE_START := State(Accepting, START, START, false, [], [], [], [], [], [])

  datatype Action =
    | TtyInput(event: Event)
    | LinuxInput(event: Event)
    | Halt
    | Accept(accepted: AcceptResult)
    | Select(reported: Option<Ready>)
    | ServeClient(received: RecvResult)
    | ServeLinux
    | ServeTty(sending: SendResult)

  /** Steps of a receive thread. */
  predicate IsProducer(e: Event) {
    e.ReadByte? || e.WriteToken?
  }

  /** A message goes out on the serial device. */
  function Transmit(s: State, origin: Origin, m: Packet): State {
    s.(ttyWire := s.ttyWire + Encode(m), sent := s.sent + [Sent(origin, m)])
  }

  /** A message from the serial device goes where its destination says. */
  function Route(s: State, m: Packet, sending: SendResult): State
    requires |m| > 1
  {
    var fate := FateOf(m, s.connected, sending);
    var s' := s.(routed := s.routed + [Routed(fate, m, s.connected, sending)]);
    match fate
    case ToLinux => s'.(linuxWire := s.linuxWire + Encode(m))
    case ToClient => s'.(clientOut := s.clientOut + [m])
    case Dropped => s'
    case Lost => if sending == BrokenPipe then s'.(pc := Stopped) else s'
  }

  /** The source reads the byte at index 1 of every message of the client, even if there is none. */
  function ClientDestination(m: Packet, stray: byte): byte {
    if |m| > 1 then Destination(m) else stray
  }

  /** What the dispatch thread does with the result of recv(). */
  function TakeFromClient(s: State, r: RecvResult): State {
    match r
    case WouldBlock => s
    case RecvError => s.(connected := false)
    case Datagram(bytes, stray) =>
      var m := CutOff(bytes);
      if m == [] then s.(connected := false)
      else
        var to := ClientDestination(m, stray);
        var s' := s.(offered := s.offered + [Offer(to, m)]);
        if IsBroadcast(to) then Transmit(s', FromClient, m) else s'
  }

  /** One step of the dispatch thread on the token and the queue of a port. */
  function FetchEvent(p: Port): Event {
    match p.consumer
    case Selecting => ReadToken
    case TokenRead => TestEmpty
    case Popping => Pop
  }

  function Tell(s: State, r: Ready): Ready {
    Ready(r.client && s.connected, r.linux && s.linux.tokens > 0, r.tty && s.tty.tokens > 0)
  }

  function ActAccept(s: State, r: AcceptResult): State {
    match r
    case Accepted => s.(pc := Polling, connected := true)
    case NoneWaiting => s.(pc := Polling)
    case AcceptFailed => s.(pc := Stopped)
  }

  /** Every queued message has a byte at index 1. */
  predicate Readable(p: Port) {
    forall m :: m in p.queue ==> |m| > 1
  }

  lemma NextIsReadable(p: Port, e: Event)
    requires Readable(p) && Enabled(p, e)
    ensures Readable(Next(p, e))
  {
    hide Validate;
    if e.ReadByte? {
      StepDeliversLong(RX_LIMIT, p.rx, e.b);
    }
  }

  lemma StepDeliversLong(limit: nat, rx: Rx, b: byte)
    ensures forall m :: m in Step(limit, rx, b).packets ==> |m| >= MIN_MESSAGE
  {
    hide Validate;
    var full := rx.inProgress + [FRAME_CHAR];
    if Validate(full) {
      ValidSize(full);
    }
  }

  /** Every step; one whose turn has not come leaves the state as it is. */
  function Act(s: State, a: Action): (s': State)
    requires Readable(s.tty)
    ensures Readable(s'.tty)
  {
    match a
    case TtyInput(e) =>
      if IsProducer(e) && Enabled(s.tty, e) then
        NextIsReadable(s.tty, e);
        s.(tty := Next(s.tty, e))
      else s
    case LinuxInput(e) =>
      if IsProducer(e) && Enabled(s.linux, e) then s.(linux := Next(s.linux, e)) else s
    case Halt =>
      if s.pc.Accepting? then s.(pc := Stopped) else s
    case Accept(r) =>
      if !s.pc.Accepting? then s
      else if s.connected then s.(pc := Polling)
      else ActAccept(s, r)
    case Select(r) =>
      if !s.pc.Polling? then s
      else if r.None? then s.(pc := Accepting)
      else s.(pc := ServingClient(Tell(s, r.value)))
    case ServeClient(r) =>
      if !s.pc.ServingClient? then s
      else
        var s' := s.(pc := ServingLinux(s.pc.ready));
        if s.connected && s.pc.ready.client then TakeFromClient(s', r) else s'
    case ServeLinux => ActLinux(s)
    case ServeTty(r) => ActTty(s, r)
  }

  function ActLinux(s: State): State {
    var e := FetchEvent(s.linux);
    if s.pc.ServingLinux? && !s.pc.ready.linux then s.(pc := ServingTty(s.pc.ready))
    else if !(s.pc.ServingLinux? || s.pc.FetchingLinux?) || !Enabled(s.linux, e) then s
    else
      var p := Next(s.linux, e);
      var pc := if p.consumer == Selecting then ServingTty(s.pc.ready) else FetchingLinux(s.pc.ready);
      var s' := s.(linux := p, pc := pc);
      if e.Pop? && s.linux.queue[0] != [] then Transmit(s', FromLinux, s.linux.queue[0]) else s'
  }

  function ActTty(s: State, sending: SendResult): (s': State)
    requires Readable(s.tty)
    ensures Readable(s'.tty)
  {
    var e := FetchEvent(s.tty);
    if s.pc.ServingTty? && !s.pc.ready.tty then s.(pc := Accepting)
    else if !(s.pc.ServingTty? || s.pc.FetchingTty?) || !Enabled(s.tty, e) then s
    else
      NextIsReadable(s.tty, e);
      var p := Next(s.tty, e);
      var s' := s.(tty := p, pc := if p.consumer == Selecting then Accepting else FetchingTty);
      if e.Pop? then Route(s', s.tty.queue[0], sending) else s'
  }

  function Perform(s: State, actions: seq<Action>): (s': State)
    requires Readable(s.tty)
    ensures Readable(s'.tty)
    decreases |actions|
  {
    if actions == [] then s else Perform(Act(s, actions[0]), actions[1..])
  }

  lemma {:induction false} PerformAppend(s: State, a: seq<Action>, b: seq<Action>)
    requires Readable(s.tty)
    ensures Perform(s, a + b) == Perform(Perform(s, a), b)
    decreases |a|
  {
    hide Act;
    if a == [] {
      assert a + b == b;
    } else {
      assert (a + b)[1..] == a[1..] + b;
      PerformAppend(Act(s, a[0]), a[1..], b);
    }
  }

  lemma PerformNothing(s: State)
    requires Readable(s.tty)
    ensures Perform(s, []) == s
  {}

  lemma PerformOne(s: State, a: Action)
    requires Readable(s.tty)
    ensures Perform(s, [a]) == Act(s, a)
  {
    hide Act;
    assert [a][1..] == [];
  }

  lemma PerformTwo(s: State, a: Action, b: Action)
    requires Readable(s.tty)
    ensures Perform(s, [a, b]) == Act(Act(s, a), b)
  {
    hide Act;
    assert [a, b] == [a] + [b];
    PerformAppend(s, [a], [b]);
    PerformOne(s, a);
    PerformOne(Act(s, a), b);
  }

  /** Every run starts here. */
  function After(actions: seq<Action>): State {
    Perform(BRIDGE_START, actions)
  }

  // ------------------------------------------------------------ reading the histories

  function Messages(sent: seq<Sent>): seq<Packet> {
    if sent == [] then [] else [sent[0].message] + Messages(sent[1..])
  }

  function From(sent: seq<Sent>, origin: Origin): seq<Packet> {
    if sent == [] then []
    else (if sent[0].origin == origin then [sent[0].message] else []) + From(sent[1..], origin)
  }

  function Arrivals(routed: seq<Routed>): seq<Packet> {
    if routed == [] then [] else [routed[0].message] + Arrivals(routed[1..])
  }

  function With(routed: seq<Routed>, fate: Fate): seq<Packet> {
    if routed == [] then []
    else (if routed[0].fate == fate then [routed[0].message] else []) + With(routed[1..], fate)
  }

  function Offered(offered: seq<Offer>): seq<Packet> {
    if offered == [] then [] else [offered[0].message] + Offered(offered[1..])
  }

  /** The client's messages that were taken to be addressed to nobody or to everybody. */
  function Forwarded(offered: seq<Offer>): seq<Packet> {
    if offered == [] then []
    else (if IsBroadcast(offered[0].destination) then [offered[0].message] else []) + Forwarded(offered[1..])
  }

  lemma {:induction false} MessagesExtend(sent: seq<Sent>, x: Sent)
    ensures Messages(sent + [x]) == Messages(sent) + [x.message]
  {
    if sent == [] {
      assert sent + [x] == [x] && [x][1..] == [];
    } else {
      assert (sent + [x])[1..] == sent[1..] + [x];
      MessagesExtend(sent[1..], x);
    }
  }

  lemma {:induction false} FromExtends(sent: seq<Sent>, x: Sent, origin: Origin)
    ensures From(sent + [x], origin) == From(sent, origin) + if x.origin == origin then [x.message] else []
  {
    if sent == [] {
      assert sent + [x] == [x] && [x][1..] == [];
    } else {
      assert (sent + [x])[1..] == sent[1..] + [x];
      FromExtends(sent[1..], x, origin);
    }
  }

  lemma {:induction false} ArrivalsExtend(routed: seq<Routed>, x: Routed)
    ensures Arrivals(routed + [x]) == Arrivals(routed) + [x.message]
  {
    if routed == [] {
      assert routed + [x] == [x] && [x][1..] == [];
    } else {
      assert (routed + [x])[1..] == routed[1..] + [x];
      ArrivalsExtend(routed[1..], x);
    }
  }

  lemma {:induction false} WithExtends(routed: seq<Routed>, x: Routed, fate: Fate)
    ensures With(routed + [x], fate) == With(routed, fate) + if x.fate == fate then [x.message] else []
  {
    if routed == [] {
      assert routed + [x] == [x] && [x][1..] == [];
    } else {
      assert (routed + [x])[1..] == routed[1..] + [x];
      WithExtends(routed[1..], x, fate);
    }
  }

  lemma {:induction false} ForwardedExtends(offered: seq<Offer>, x: Offer)
    ensures Forwarded(offered + [x]) ==
            Forwarded(offered) + if IsBroadcast(x.destination) then [x.message] else []
  {
    if offered == [] {
      assert offered + [x] == [x] && [x][1..] == [];
    } else {
      assert (offered + [x])[1..] == offered[1..] + [x];
      ForwardedExtends(offered[1..], x);
    }
  }

  lemma {:induction false} EncodeAllExtends(ms: seq<Packet>, m: Packet)
    ensures EncodeAll(ms + [m]) == EncodeAll(ms) + Encode(m)
  {
    hide Encode;
    if ms == [] {
      assert ms + [m] == [m] && [m][1..] == [];
      assert EncodeAll([m]) == Encode(m) + [];
    } else {
      assert (ms + [m])[1..] == ms[1..] + [m];
      EncodeAllExtends(ms[1..], m);
      assert Encode(ms[0]) + (EncodeAll(ms[1..]) + Encode(m)) == (Encode(ms[0]) + EncodeAll(ms[1..])) + Encode(m);
    }
  }

  // ------------------------------------------------------------ what every run keeps

  /** The destination that was read is the one in the message, if there is one. */
  predicate Tied(x: Offer) {
    |x.message| > 1 ==> x.destination == Destination(x.message)
  }

  /** The fate that byte 1 of the message, the connection and the outcome of the send demand. */
  predicate Settles(x: Routed) {
    && |x.message| > 1
    && (x.fate == ToLinux <==> x.message[1] != 0x00 && x.message[1] != 0xff)
    && (x.fate == ToClient <==>
          (x.message[1] == 0x00 || x.message[1] == 0xff) && x.connected && x.sending == Delivered)
    && (x.fate == Dropped <==> (x.message[1] == 0x00 || x.message[1] == 0xff) && !x.connected)
  }

  /** The serial device received the encodings of the messages sent, which come from the kernel's side,
   *  all of them, and from the client, those forwarded, each kind in its own order. */
  ghost predicate OutboundInv(s: State) {
    && s.ttyWire == EncodeAll(Messages(s.sent))
    && From(s.sent, FromLinux) == s.linux.consumed
    && From(s.sent, FromClient) == Forwarded(s.offered)
    && (forall i :: 0 <= i < |s.offered| ==> Tied(s.offered[i]))
  }

  /** Each message from the serial device has had exactly one fate, the one its destination demands. */
  ghost predicate InboundInv(s: State) {
    && Arrivals(s.routed) == s.tty.consumed
    && s.linuxWire == EncodeAll(With(s.routed, ToLinux))
    && s.clientOut == With(s.routed, ToClient)
    && (forall i :: 0 <= i < |s.routed| ==> Settles(s.routed[i]))
  }

  /** The dispatch thread holds a token of a port only while it serves that port. */
  predicate PcInv(s: State) {
    && (s.linux.consumer != Selecting <==> s.pc.FetchingLinux?)
    && (s.tty.consumer != Selecting <==> s.pc.FetchingTty?)
    && (s.pc.ServingLinux? && s.pc.ready.linux ==> s.linux.tokens > 0)
    && ((s.pc.ServingClient? || s.pc.ServingLinux? || s.pc.FetchingLinux? || s.pc.ServingTty?) && s.pc.ready.tty ==>
          s.tty.tokens > 0)
    && (s.pc.ServingClient? && s.pc.ready.linux ==> s.linux.tokens > 0)
  }

  ghost predicate BridgeInv(s: State) {
    && Inv(s.tty) && Inv(s.linux) && PcInv(s)
    && OutboundInv(s) && InboundInv(s) && Readable(s.tty)
  }

  lemma TransmitKeepsWire(s: State, origin: Origin, m: Packet)
    requires s.ttyWire == EncodeAll(Messages(s.sent))
    ensures var s' := Transmit(s, origin, m);
            && s'.ttyWire == EncodeAll(Messages(s'.sent))
            && forall o :: From(s'.sent, o) == From(s.sent, o) + if o == origin then [m] else []
  {
    hide Encode;
    MessagesExtend(s.sent, Sent(origin, m));
    EncodeAllExtends(Messages(s.sent), m);
    forall o
      ensures From(s.sent + [Sent(origin, m)], o) == From(s.sent, o) + if o == origin then [m] else []
    {
      FromExtends(s.sent, Sent(origin, m), o);
    }
  }

  lemma RoutedExtends(routed: seq<Routed>, x: Routed)
    requires Settles(x) && forall i :: 0 <= i < |routed| ==> Settles(routed[i])
    ensures var routed' := routed + [x];
            && Arrivals(routed') == Arrivals(routed) + [x.message]
            && EncodeAll(With(routed', ToLinux)) ==
               EncodeAll(With(routed, ToLinux)) + (if x.fate == ToLinux then Encode(x.message) else [])
            && With(routed', ToClient) == With(routed, ToClient) + (if x.fate == ToClient then [x.message] else [])
            && forall i :: 0 <= i < |routed'| ==> Settles(routed'[i])
  {
    hide Encode, EncodeAll, Settles, With, Arrivals;
    ArrivalsExtend(routed, x);
    WithExtends(routed, x, ToLinux);
    WithExtends(routed, x, ToClient);
    EncodeAllExtends(With(routed, ToLinux), x.message);
    assert With(routed, ToLinux) + [] == With(routed, ToLinux);
  }

  lemma FateSettles(m: Packet, connected: bool, sending: SendResult)
    requires |m| > 1
    ensures Settles(Routed(FateOf(m, connected, sending), m, connected, sending))
  {}

  lemma RouteKeepsInbound(s: State, m: Packet, sending: SendResult)
    requires s.linuxWire == EncodeAll(With(s.routed, ToLinux)) && s.clientOut == With(s.routed, ToClient)
    requires |m| > 1 && forall i :: 0 <= i < |s.routed| ==> Settles(s.routed[i])
    ensures var s' := Route(s, m, sending);
            && Arrivals(s'.routed) == Arrivals(s.routed) + [m]
            && s'.linuxWire == EncodeAll(With(s'.routed, ToLinux)) && s'.clientOut == With(s'.routed, ToClient)
            && forall i :: 0 <= i < |s'.routed| ==> Settles(s'.routed[i])
  {
    hide Encode, EncodeAll, With, Arrivals, FateOf;
    var x := Routed(FateOf(m, s.connected, sending), m, s.connected, sending);
    FateSettles(m, s.connected, sending);
    hide Settles;
    RoutedExtends(s.routed, x);
    assert s.linuxWire + [] == s.linuxWire && s.clientOut + [] == s.clientOut;
  }

  lemma RouteTouches(s: State, m: Packet, sending: SendResult)
    requires |m| > 1
    ensures var s' := Route(s, m, sending);
            && s' == s.(routed := s'.routed, linuxWire := s'.linuxWire, clientOut := s'.clientOut, pc := s'.pc)
            && (s'.pc == s.pc || s'.pc == Stopped)
  {
    hide Encode, FateOf;
  }

  /** Packets that came through a port are never empty. */
  lemma QueueHoldsDeliverables(p: Port)
    requires Inv(p)
    ensures forall m :: m in p.queue ==> Deliverable(m)
  {
    hide Run, Parse;
    InvMeansPrefix(p);
    ParseDelivers(false, p.input);
    forall m | m in p.queue
      ensures Deliverable(m)
    {
      assert m in p.consumed + p.queue;
    }
  }

  lemma ProducerKeepsOutput(p: Port, e: Event)
    requires IsProducer(e) && Enabled(p, e)
    ensures var p' := Next(p, e);
            && p'.consumed == p.consumed && p'.consumer == p.consumer && p'.tokens >= p.tokens
            && p.queue <= p'.queue
  {
    hide Step;
  }

  lemma ClientStepKeepsInv(s: State, r: RecvResult)
    requires BridgeInv(s) && s.pc.ServingClient?
    ensures BridgeInv(Act(s, ServeClient(r)))
  {
    hide Inv, Encode, EncodeAll, IsBroadcast, From, Messages, Forwarded, With, Arrivals, Settles, Readable;
    var s1 := s.(pc := ServingLinux(s.pc.ready));
    if s.connected && s.pc.ready.client && r.Datagram? {
      var m := CutOff(r.bytes);
      if m != [] {
        var x := Offer(ClientDestination(m, r.stray), m);
        ForwardedExtends(s.offered, x);
        var s2 := s1.(offered := s.offered + [x]);
        TransmitKeepsWire(s2, FromClient, m);
        assert Forwarded(s.offered) + [] == Forwarded(s.offered);
        assert From(s.sent, FromLinux) + [] == From(s.sent, FromLinux);
      }
    }
  }

  lemma LinuxStepKeepsInv(s: State)
    requires BridgeInv(s)
    ensures BridgeInv(ActLinux(s))
  {
    hide Inv, Run, Encode, EncodeAll, From, Messages, Forwarded, With, Arrivals, Settles, Tied, Readable;
    var e := FetchEvent(s.linux);
    if (s.pc.FetchingLinux? || (s.pc.ServingLinux? && s.pc.ready.linux)) && Enabled(s.linux, e) {
      NextKeepsInv(s.linux, e);
      TokenMeansPacket(s.linux);
      if e.Pop? {
        var m := s.linux.queue[0];
        QueueHoldsDeliverables(s.linux);
        assert m in s.linux.queue;
        var p := Next(s.linux, e);
        var s1 := s.(linux := p, pc := ServingTty(s.pc.ready));
        TransmitKeepsWire(s1, FromLinux, m);
        assert From(s.sent, FromClient) + [] == From(s.sent, FromClient);
      }
    }
  }

  lemma TtyStepKeepsInv(s: State, sending: SendResult)
    requires BridgeInv(s)
    ensures BridgeInv(ActTty(s, sending))
  {
    hide Inv, Run, Encode, EncodeAll, With, Arrivals, Settles, Tied, From, Messages, Forwarded, Route;
    var e := FetchEvent(s.tty);
    if (s.pc.FetchingTty? || (s.pc.ServingTty? && s.pc.ready.tty)) && Enabled(s.tty, e) {
      NextKeepsInv(s.tty, e);
      TokenMeansPacket(s.tty);
      if e.Pop? {
        var m := s.tty.queue[0];
        QueueHoldsDeliverables(s.tty);
        assert m in s.tty.queue;
        var p := Next(s.tty, e);
        var s1 := s.(tty := p, pc := Accepting);
        RouteTouches(s1, m, sending);
        RouteKeepsInbound(s1, m, sending);
      }
    }
  }

  lemma TokenMeansPacket(p: Port)
    requires Inv(p)
    ensures p.consumer != Selecting ==> p.queue != []
  {
    hide Run;
  }

  lemma ActKeepsInv(s: State, a: Action)
    requires BridgeInv(s)
    ensures BridgeInv(Act(s, a))
  {
    hide Inv, EncodeAll, From, Messages, Forwarded, With, Arrivals, Settles, Tied, ActLinux, ActTty, TakeFromClient;
    match a
    case TtyInput(e) =>
      if IsProducer(e) && Enabled(s.tty, e) {
        NextKeepsInv(s.tty, e);
        ProducerKeepsOutput(s.tty, e);
      }
    case LinuxInput(e) =>
      if IsProducer(e) && Enabled(s.linux, e) {
        NextKeepsInv(s.linux, e);
        ProducerKeepsOutput(s.linux, e);
      }
    case Halt =>
    case Accept(_) =>
    case Select(_) =>
    case ServeClient(r) =>
      if s.pc.ServingClient? {
        ClientStepKeepsInv(s, r);
      }
    case ServeLinux =>
      LinuxStepKeepsInv(s);
    case ServeTty(r) =>
      TtyStepKeepsInv(s, r);
  }

  lemma InvIsReadable(s: State)
    requires BridgeInv(s)
    ensures Readable(s.tty)
  {}

  lemma {:induction false} EveryRunKeepsInv(s: State, actions: seq<Action>)
    requires BridgeInv(s)
    ensures BridgeInv(Perform(s, actions))
    decreases |actions|
  {
    hide BridgeInv, Act;
    if actions != [] {
      InvIsReadable(s);
      ActKeepsInv(s, actions[0]);
      EveryRunKeepsInv(Act(s, actions[0]), actions[1..]);
    }
  }

  lemma BridgeStartInv()
    ensures BridgeInv(BRIDGE_START)
  {}

  // ------------------------------------------------------------ what a run does, read off its actions

  /** One of the two ports. */
  function PortOf(s: State, onTty: bool): Port {
    if onTty then s.tty else s.linux
  }

  /** The step that this port's receive thread takes, if it takes one. */
  function InputTo(a: Action, onTty: bool): Option<Event> {
    if onTty && a.TtyInput? then Some(a.event)
    else if !onTty && a.LinuxInput? then Some(a.event)
    else None
  }

  /** The byte that arrives at a port, if its receive thread is reading. */
  function ArrivedNow(s: State, a: Action, onTty: bool): seq<byte> {
    var e := InputTo(a, onTty);
    if e.Some? && e.value.ReadByte? && PortOf(s, onTty).producer == Reading then [e.value.b] else []
  }

  function Arrived(s: State, actions: seq<Action>, onTty: bool): seq<byte>
    requires Readable(s.tty)
    decreases |actions|
  {
    if actions == [] then []
    else ArrivedNow(s, actions[0], onTty) + Arrived(Act(s, actions[0]), actions[1..], onTty)
  }

  /** Whether a token is offered to a port's pipe and this is the pipe's answer. */
  function WrittenNow(s: State, a: Action, onTty: bool, accepted: bool): nat {
    if InputTo(a, onTty) == Some(WriteToken(accepted)) && PortOf(s, onTty).producer == Notifying then 1 else 0
  }

  function Written(s: State, actions: seq<Action>, onTty: bool, accepted: bool): nat
    requires Readable(s.tty)
    decreases |actions|
  {
    if actions == [] then 0
    else
      WrittenNow(s, actions[0], onTty, accepted) + Written(Act(s, actions[0]), actions[1..], onTty, accepted)
  }

  /** What the dispatch thread does to the port it serves. */
  predicate Fetches(p: Port, p': Port) {
    p' == p || (Enabled(p, FetchEvent(p)) && p' == Next(p, FetchEvent(p)))
  }

  lemma LinuxFetches(s: State)
    ensures var s' := ActLinux(s); Fetches(s.linux, s'.linux) && s'.tty == s.tty
  {
    hide Next, Encode;
  }

  lemma TtyFetches(s: State, sending: SendResult)
    requires Readable(s.tty)
    ensures var s' := ActTty(s, sending); Fetches(s.tty, s'.tty) && s'.linux == s.linux
  {
    hide Next, Route;
    if Enabled(s.tty, FetchEvent(s.tty)) && s.tty.queue != [] {
      var p := Next(s.tty, FetchEvent(s.tty));
      RouteTouches(s.(tty := p, pc := if p.consumer == Selecting then Accepting else FetchingTty),
                   s.tty.queue[0], sending);
    }
  }

  lemma OthersFetchNothing(s: State, a: Action)
    requires Readable(s.tty) && !a.TtyInput? && !a.LinuxInput? && !a.ServeLinux? && !a.ServeTty?
    ensures Act(s, a).tty == s.tty && Act(s, a).linux == s.linux
  {
    hide Encode, IsBroadcast, CutOff;
  }

  /** Each step of the dispatch thread moves at most one of the ports, by its own next step there. */
  lemma DispatchFetches(s: State, a: Action)
    requires Readable(s.tty) && !a.TtyInput? && !a.LinuxInput?
    ensures Fetches(s.tty, Act(s, a).tty) && Fetches(s.linux, Act(s, a).linux)
  {
    hide Next, ActLinux, ActTty;
    if a.ServeLinux? {
      LinuxFetches(s);
    } else if a.ServeTty? {
      TtyFetches(s, a.sending);
    } else {
      OthersFetchNothing(s, a);
      hide Act;
    }
  }

  /** The tokens of a port that wait, are being served, or were served. */
  function TokensSeen(p: Port): nat {
    p.tokens + (if p.consumer == Selecting then 0 else 1) + |p.consumed|
  }

  /** A step of a receive thread at its own port, and at the other one nothing. */
  lemma InputMoves(s: State, a: Action, onTty: bool)
    requires Readable(s.tty) && (a.TtyInput? || a.LinuxInput?)
    ensures var p := PortOf(s, onTty); var e := InputTo(a, onTty);
            PortOf(Act(s, a), onTty) ==
            if e.Some? && IsProducer(e.value) && Enabled(p, e.value) then Next(p, e.value) else p
  {
    hide Next;
  }

  lemma NextLedger(p: Port, e: Event)
    requires Enabled(p, e) && IsProducer(e)
    ensures var p' := Next(p, e);
            && p'.input == p.input + (if e.ReadByte? then [e.b] else [])
            && p'.lost == p.lost + (if e == WriteToken(false) then 1 else 0)
            && TokensSeen(p') == TokensSeen(p) + (if e == WriteToken(true) then 1 else 0)
  {
    hide Step;
  }

  lemma StepLedger(s: State, a: Action, onTty: bool)
    requires Readable(s.tty)
    ensures var p, p' := PortOf(s, onTty), PortOf(Act(s, a), onTty);
            && p'.input == p.input + ArrivedNow(s, a, onTty)
            && p'.lost == p.lost + WrittenNow(s, a, onTty, false)
  {
    if a.TtyInput? || a.LinuxInput? {
      InputMoves(s, a, onTty);
      hide Act, Next, PortOf, TokensSeen;
      var p, e := PortOf(s, onTty), InputTo(a, onTty);
      if e.Some? && IsProducer(e.value) && Enabled(p, e.value) {
        NextLedger(p, e.value);
      }
    } else {
      DispatchFetches(s, a);
      hide Act, Fetches;
      FetchTakesNothingIn(s.tty, Act(s, a).tty);
      FetchTakesNothingIn(s.linux, Act(s, a).linux);
    }
  }

  lemma FetchTakesNothingIn(p: Port, p': Port)
    requires Fetches(p, p')
    ensures p'.input == p.input && p'.lost == p.lost
  {}

  /** Every byte that arrives at a port while it reads is taken in, and what its pipe refuses is what it lost. */
  lemma {:induction false} RunLedger(s: State, actions: seq<Action>, onTty: bool)
    requires Readable(s.tty)
    ensures var p, p' := PortOf(s, onTty), PortOf(Perform(s, actions), onTty);
            && p'.input == p.input + Arrived(s, actions, onTty)
            && p'.lost == p.lost + Written(s, actions, onTty, false)
    decreases |actions|
  {
    hide Act, PortOf, ArrivedNow, WrittenNow;
    var p := PortOf(s, onTty);
    if actions == [] {
      assert p.input + [] == p.input;
    } else {
      var s' := Act(s, actions[0]);
      StepLedger(s, actions[0], onTty);
      RunLedger(s', actions[1..], onTty);
      assert p.input + (ArrivedNow(s, actions[0], onTty) + Arrived(s', actions[1..], onTty)) ==
             (p.input + ArrivedNow(s, actions[0], onTty)) + Arrived(s', actions[1..], onTty);
    }
  }

  /** What a port has been sent, on the way from the start. */
  function Incoming(actions: seq<Action>, onTty: bool): seq<byte> {
    Arrived(BRIDGE_START, actions, onTty)
  }

  /** How many tokens a port's pipe has refused. */
  function Refusals(actions: seq<Action>, onTty: bool): nat {
    Written(BRIDGE_START, actions, onTty, false)
  }

  lemma LedgerFromStart(actions: seq<Action>)
    ensures var s := After(actions);
            && s.tty.input == Incoming(actions, true) && s.linux.input == Incoming(actions, false)
            && s.tty.lost == Refusals(actions, true) && s.linux.lost == Refusals(actions, false)
  {
    hide Act, Perform, Arrived, Written;
    RunLedger(BRIDGE_START, actions, true);
    RunLedger(BRIDGE_START, actions, false);
    assert [] + Incoming(actions, true) == Incoming(actions, true);
    assert [] + Incoming(actions, false) == Incoming(actions, false);
  }

  // ------------------------------------------------------------ what is heard

  /** The messages sent that a peer can decode, with their origins. */
  function Decodable(sent: seq<Sent>): seq<Sent> {
    if sent == [] then []
    else (if Deliverable(sent[0].message) then [sent[0]] else []) + Decodable(sent[1..])
  }

  lemma {:induction false} DecodableMessages(sent: seq<Sent>)
    ensures Messages(Decodable(sent)) == Sieve(Messages(sent))
  {
    if sent != [] {
      DecodableMessages(sent[1..]);
      var first := if Deliverable(sent[0].message) then [sent[0]] else [];
      assert Decodable(sent)[|first|..] == Decodable(sent[1..]);
      assert Messages(sent)[1..] == Messages(sent[1..]);
    }
  }

  lemma {:induction false} DecodableFrom(sent: seq<Sent>, origin: Origin)
    ensures From(Decodable(sent), origin) == Sieve(From(sent, origin))
  {
    if sent != [] {
      DecodableFrom(sent[1..], origin);
      var x, rest := sent[0], From(sent[1..], origin);
      var first := if Deliverable(x.message) then [x] else [];
      assert Decodable(sent)[|first|..] == Decodable(sent[1..]);
      if x.origin == origin {
        assert From(sent, origin)[1..] == rest;
      } else {
        assert From(sent, origin) == rest;
        assert From(Decodable(sent), origin) == From(Decodable(sent[1..]), origin);
      }
    }
  }

  /** The messages that every receiver of this program decodes from a wire, whatever its cutoff
   *  and whichever clean state it is in when it starts listening. */
  ghost predicate Heard(wire: seq<byte>, ms: seq<Packet>) {
    forall limit, rx :: Roomy(limit) && Clean(rx) ==> Run(limit, rx, wire).packets == ms
  }

  lemma EncodingsAreHeard(ms: seq<Packet>)
    ensures Heard(EncodeAll(ms), Sieve(ms))
  {
    hide Run, EncodeAll, Sieve;
    forall limit, rx | Roomy(limit) && Clean(rx)
      ensures Run(limit, rx, EncodeAll(ms)).packets == Sieve(ms)
    {
      RoundTrip(limit, rx, ms);
    }
  }

  /** The messages that are addressed to nobody or to everybody. */
  function Broadcasts(ms: seq<Packet>): seq<Packet> {
    if ms == [] then []
    else
      (if |ms[0]| > 1 && (ms[0][1] == 0x00 || ms[0][1] == 0xff) then [ms[0]] else []) + Broadcasts(ms[1..])
  }

  /** The messages that are addressed to one endpoint. */
  function Unicasts(ms: seq<Packet>): seq<Packet> {
    if ms == [] then []
    else
      (if |ms[0]| > 1 && ms[0][1] != 0x00 && ms[0][1] != 0xff then [ms[0]] else []) + Unicasts(ms[1..])
  }

  /** The client's share of what was routed: null and broadcast destinations, while it was connected and
   *  the send succeeded. */
  function ClientShare(routed: seq<Routed>): seq<Packet> {
    if routed == [] then []
    else
      var x := routed[0];
      (if |x.message| > 1 && (x.message[1] == 0x00 || x.message[1] == 0xff) && x.connected && x.sending == Delivered
       then [x.message] else []) + ClientShare(routed[1..])
  }

  lemma {:induction false} FateOfClientShare(routed: seq<Routed>)
    requires forall i :: 0 <= i < |routed| ==> Settles(routed[i])
    ensures With(routed, ToClient) == ClientShare(routed)
  {
    if routed != [] {
      assert Settles(routed[0]);
      FateOfClientShare(routed[1..]);
    }
  }

  /** What a read behind the end of a message may have forwarded is not heard. */
  lemma {:induction false} ForwardedHeard(offered: seq<Offer>)
    requires forall i :: 0 <= i < |offered| ==> Tied(offered[i])
    ensures Sieve(Forwarded(offered)) == Broadcasts(Sieve(Offered(offered)))
  {
    if offered != [] {
      var x, rest := offered[0], offered[1..];
      ForwardedHeard(rest);
      assert Offered(offered)[1..] == Offered(rest);
      assert Tied(x);
      if IsBroadcast(x.destination) {
        assert Forwarded(offered)[1..] == Forwarded(rest);
      } else {
        assert Forwarded(offered) == Forwarded(rest);
      }
      if Deliverable(x.message) {
        assert Sieve(Offered(offered))[1..] == Sieve(Offered(rest));
      } else {
        assert Sieve(Offered(offered)) == Sieve(Offered(rest));
      }
    }
  }

  /** Step `k` of a run is the one that routed its `i`-th message, which was next in the queue, and a client
   *  was connected just then if the record says so. */
  predicate RoutedAt(actions: seq<Action>, i: nat, x: Routed, k: nat) {
    && k < |actions|
    && var s := After(actions[..k]);
    && actions[k] == ServeTty(x.sending)
    && |s.routed| == i && s.connected == x.connected
    && s.tty.consumer == Popping && s.tty.queue != [] && s.tty.queue[0] == x.message
  }

  ghost predicate RoutedIn(actions: seq<Action>, i: nat, x: Routed) {
    exists k: nat :: RoutedAt(actions, i, x, k)
  }

  /** Step `k` of a run is the one that took the `i`-th message from the client, then connected. */
  predicate OfferedAt(actions: seq<Action>, i: nat, x: Offer, k: nat) {
    && k < |actions|
    && var s := After(actions[..k]);
    && actions[k].ServeClient? && actions[k].received.Datagram?
    && |s.offered| == i && s.connected
    && var bytes := actions[k].received.bytes;
    && x.message == (if |bytes| > 256 then bytes[..256] else bytes)
    && x.destination == (if |bytes| > 1 then bytes[1] else actions[k].received.stray)
  }

  ghost predicate OfferedIn(actions: seq<Action>, i: nat, x: Offer) {
    exists k: nat :: OfferedAt(actions, i, x, k)
  }

  /** The dispatch thread is about to serve a connected client whose socket is readable. */
  predicate ServesClient(s: State) {
    s.pc.ServingClient? && s.pc.ready.client && s.connected
  }

  /** The message that a step takes from the client, if it takes one: at most 256 bytes of a datagram. */
  function Taken(s: State, a: Action): seq<Packet> {
    if ServesClient(s) && a.ServeClient? && a.received.Datagram? && a.received.bytes != [] then
      var bytes := a.received.bytes;
      [if |bytes| > 256 then bytes[..256] else bytes]
    else []
  }

  /** All that a run takes from the client. */
  function HandedOver(s: State, actions: seq<Action>): seq<Packet>
    requires Readable(s.tty)
    decreases |actions|
  {
    if actions == [] then [] else Taken(s, actions[0]) + HandedOver(Act(s, actions[0]), actions[1..])
  }

  lemma {:induction false} OfferedExtends(offered: seq<Offer>, x: Offer)
    ensures Offered(offered + [x]) == Offered(offered) + [x.message]
  {
    if offered == [] {
      assert offered + [x] == [x] && [x][1..] == [];
    } else {
      assert (offered + [x])[1..] == offered[1..] + [x];
      OfferedExtends(offered[1..], x);
    }
  }

  lemma StepOffers(s: State, a: Action)
    requires Readable(s.tty)
    ensures Offered(Act(s, a).offered) == Offered(s.offered) + Taken(s, a)
  {
    hide Offered, Next, Encode, IsBroadcast;
    if Taken(s, a) != [] {
      var m := CutOff(a.received.bytes);
      OfferedExtends(s.offered, Offer(ClientDestination(m, a.received.stray), m));
    } else {
      assert Offered(s.offered) + [] == Offered(s.offered);
    }
  }

  /** Every message handed over is recorded, in order, and nothing else is. */
  lemma {:induction false} OfferedExactly(s: State, actions: seq<Action>)
    requires Readable(s.tty)
    ensures Offered(Perform(s, actions).offered) == Offered(s.offered) + HandedOver(s, actions)
    decreases |actions|
  {
    hide Offered, Act, Taken;
    if actions == [] {
      assert Offered(s.offered) + [] == Offered(s.offered);
    } else {
      var s' := Act(s, actions[0]);
      StepOffers(s, actions[0]);
      OfferedExactly(s', actions[1..]);
      assert Offered(s.offered) + (Taken(s, actions[0]) + HandedOver(s', actions[1..])) ==
             (Offered(s.offered) + Taken(s, actions[0])) + HandedOver(s', actions[1..]);
    }
  }

  lemma NothingOffered()
    ensures Offered(BRIDGE_START.offered) == []
  {}

  /** A step adds at most one record, and only one that describes it. */
  lemma StepRecords(s: State, a: Action)
    requires Readable(s.tty)
    ensures var s' := Act(s, a);
            && (s'.routed == s.routed ||
                (a.ServeTty? && s.tty.consumer == Popping && s.tty.queue != [] &&
                 var m := s.tty.queue[0];
                 s'.routed == s.routed + [Routed(FateOf(m, s.connected, a.sending), m, s.connected, a.sending)]))
            && (s'.offered == s.offered ||
                (a.ServeClient? && a.received.Datagram? && s.connected && a.received.bytes != [] &&
                 var m := CutOff(a.received.bytes);
                 s'.offered == s.offered + [Offer(ClientDestination(m, a.received.stray), m)]))
  {
    hide Next, Encode, IsBroadcast;
  }

  lemma LastStep(actions: seq<Action>)
    requires actions != []
    ensures var n := |actions| - 1; After(actions) == Act(After(actions[..n]), actions[n])
  {
    hide Perform, Act;
    var n := |actions| - 1;
    assert actions == actions[..n] + [actions[n]];
    PerformAppend(BRIDGE_START, actions[..n], [actions[n]]);
    PerformOne(After(actions[..n]), actions[n]);
  }

  /** Every routed message was routed at a step of its own, by what was the case at that step. */
  lemma {:induction false} RoutedWhen(actions: seq<Action>, i: nat) returns (k: nat)
    requires i < |After(actions).routed|
    ensures RoutedAt(actions, i, After(actions).routed[i], k)
    decreases |actions|
  {
    hide Act, Perform;
    var n := |actions| - 1;
    if actions == [] {
      PerformNothing(BRIDGE_START);
    } else {
      var s := After(actions[..n]);
      LastStep(actions);
      StepRecords(s, actions[n]);
      if i < |s.routed| {
        k := RoutedWhen(actions[..n], i);
        assert actions[..n][..k] == actions[..k];
      } else {
        k := n;
      }
    }
  }

  /** Every message of the client was taken at a step of its own, as it was received at that step. */
  lemma {:induction false} OfferedWhen(actions: seq<Action>, i: nat) returns (k: nat)
    requires i < |After(actions).offered|
    ensures OfferedAt(actions, i, After(actions).offered[i], k)
    decreases |actions|
  {
    hide Act, Perform;
    var n := |actions| - 1;
    if actions == [] {
      PerformNothing(BRIDGE_START);
    } else {
      var s := After(actions[..n]);
      LastStep(actions);
      StepRecords(s, actions[n]);
      if i < |s.offered| {
        k := OfferedWhen(actions[..n], i);
        assert actions[..n][..k] == actions[..k];
      } else {
        k := n;
      }
    }
  }

  /** Every run: a receiver of this program on the serial line hears a merge, in order, of everything that the
   *  dispatch thread fetched from the kernel's side and of the client's messages of 5 to 255 bytes whose
   *  destination is everybody or nobody. */
  lemma Outbound(actions: seq<Action>)
    ensures var s := After(actions); var heard := Decodable(s.sent);
            && Heard(s.ttyWire, Messages(heard))
            && From(heard, FromLinux) == s.linux.consumed
            && From(heard, FromClient) == Broadcasts(Sieve(Offered(s.offered)))
            && Offered(s.offered) == HandedOver(BRIDGE_START, actions)
            && forall i :: 0 <= i < |s.offered| ==> OfferedIn(actions, i, s.offered[i])
  {
    hide After, Heard, Inv, PcInv, InboundInv, Readable, From, Messages, Forwarded, EncodeAll, Sieve, Decodable,
         Offered, Broadcasts, Tied, OfferedAt, HandedOver;
    RunKeepsInv(actions);
    var s := After(actions);
    EncodingsAreHeard(Messages(s.sent));
    DecodableMessages(s.sent);
    DecodableFrom(s.sent, FromLinux);
    DecodableFrom(s.sent, FromClient);
    ForwardedHeard(s.offered);
    HandedOverFromStart(actions);
    ConsumedIsDeliverable(s.linux);
    SieveKeepsAll(s.linux.consumed);
    forall i | 0 <= i < |s.offered|
      ensures OfferedIn(actions, i, s.offered[i])
    {
      var k := OfferedWhen(actions, i);
    }
  }

  lemma HandedOverFromStart(actions: seq<Action>)
    ensures Offered(After(actions).offered) == HandedOver(BRIDGE_START, actions)
  {
    hide Offered, HandedOver, Perform;
    OfferedExactly(BRIDGE_START, actions);
    NothingOffered();
    assert [] + HandedOver(BRIDGE_START, actions) == HandedOver(BRIDGE_START, actions);
  }

  lemma RunKeepsInv(actions: seq<Action>)
    ensures BridgeInv(After(actions))
  {
    hide BridgeInv;
    BridgeStartInv();
    EveryRunKeepsInv(BRIDGE_START, actions);
  }

  lemma ConsumedIsDeliverable(p: Port)
    requires Inv(p)
    ensures forall m :: m in p.consumed ==> Deliverable(m)
  {
    hide Run, Parse;
    InvMeansPrefix(p);
    ParseDelivers(false, p.input);
  }

  lemma {:induction false} FateOfUnicasts(routed: seq<Routed>)
    requires forall i :: 0 <= i < |routed| ==> Settles(routed[i])
    ensures With(routed, ToLinux) == Unicasts(Arrivals(routed))
  {
    hide IsBroadcast;
    if routed != [] {
      assert Settles(routed[0]);
      FateOfUnicasts(routed[1..]);
      assert Arrivals(routed)[1..] == Arrivals(routed[1..]);
    }
  }

  lemma {:induction false} UnicastsAmong(ms: seq<Packet>)
    requires forall m :: m in ms ==> Deliverable(m)
    ensures forall m :: m in Unicasts(ms) ==> Deliverable(m)
  {
    hide IsBroadcast;
    if ms != [] {
      UnicastsAmong(ms[1..]);
    }
  }

  /** Every run: a receiver of this program at the kernel's side hears exactly the unicast packets fetched from
   *  the serial line, in order; the client gets the others that were sent to it while it was connected;
   *  nothing is routed twice or not at all, and each packet by what was the case at its own step. */
  lemma Inbound(actions: seq<Action>)
    ensures var s := After(actions);
            && Heard(s.linuxWire, Unicasts(s.tty.consumed))
            && Arrivals(s.routed) == s.tty.consumed
            && s.clientOut == ClientShare(s.routed)
            && forall i :: 0 <= i < |s.routed| ==> Settles(s.routed[i]) && RoutedIn(actions, i, s.routed[i])
  {
    hide After, Heard, Inv, PcInv, OutboundInv, Readable, Arrivals, With, EncodeAll, Sieve, Settles, Unicasts,
         ClientShare, RoutedAt;
    RunKeepsInv(actions);
    var s := After(actions);
    FateOfUnicasts(s.routed);
    FateOfClientShare(s.routed);
    EncodingsAreHeard(With(s.routed, ToLinux));
    ConsumedIsDeliverable(s.tty);
    UnicastsAmong(s.tty.consumed);
    SieveKeepsAll(Unicasts(s.tty.consumed));
    forall i | 0 <= i < |s.routed|
      ensures RoutedIn(actions, i, s.routed[i])
    {
      var k := RoutedWhen(actions, i);
    }
  }

  /** Every run, both ports: what was fetched is an initial part of what the bytes that arrived carry, the fetch of
   *  an announced packet neither fails nor blocks, and all that is queued has a destination to be read. */
  lemma PortsKeepUp(actions: seq<Action>)
    ensures var s := After(actions);
            && s.tty.consumed <= Parse(false, Incoming(actions, true))
            && s.linux.consumed <= Parse(false, Incoming(actions, false))
            && |s.tty.queue| == Pending(s.tty) && |s.linux.queue| == Pending(s.linux)
            && (s.pc.FetchingTty? ==> Enabled(s.tty, FetchEvent(s.tty)) && s.tty.queue != [])
            && (s.pc.FetchingLinux? ==> Enabled(s.linux, FetchEvent(s.linux)) && s.linux.queue != [])
            && (s.pc.ServingTty? && s.pc.ready.tty ==> Enabled(s.tty, ReadToken))
            && (s.pc.ServingLinux? && s.pc.ready.linux ==> Enabled(s.linux, ReadToken))
            && (forall m :: m in s.tty.queue || m in s.linux.queue ==> Deliverable(m))
  {
    hide After, Run, Parse, OutboundInv, InboundInv, Incoming, Refusals;
    RunKeepsInv(actions);
    LedgerFromStart(actions);
    var s := After(actions);
    InvMeansPrefix(s.tty);
    InvMeansPrefix(s.linux);
    QueueHoldsDeliverables(s.tty);
    QueueHoldsDeliverables(s.linux);
  }

  lemma FetchServes(p: Port, p': Port)
    requires Fetches(p, p') && (p.consumer != Selecting ==> p.queue != [])
    ensures TokensSeen(p') == TokensSeen(p)
  {}

  lemma StepServes(s: State, a: Action, onTty: bool)
    requires BridgeInv(s)
    ensures TokensSeen(PortOf(Act(s, a), onTty)) == TokensSeen(PortOf(s, onTty)) + WrittenNow(s, a, onTty, true)
  {
    TokenMeansPacket(s.tty);
    TokenMeansPacket(s.linux);
    InvIsReadable(s);
    hide BridgeInv;
    if a.TtyInput? || a.LinuxInput? {
      InputMoves(s, a, onTty);
      hide Act, Next, PortOf, TokensSeen;
      var p, e := PortOf(s, onTty), InputTo(a, onTty);
      if e.Some? && IsProducer(e.value) && Enabled(p, e.value) {
        NextLedger(p, e.value);
      }
    } else {
      DispatchFetches(s, a);
      hide Act, Fetches, TokensSeen;
      FetchServes(s.tty, Act(s, a).tty);
      FetchServes(s.linux, Act(s, a).linux);
    }
  }

  lemma {:induction false} RunServes(s: State, actions: seq<Action>, onTty: bool)
    requires BridgeInv(s)
    ensures TokensSeen(PortOf(Perform(s, actions), onTty)) ==
            TokensSeen(PortOf(s, onTty)) + Written(s, actions, onTty, true)
    decreases |actions|
  {
    InvIsReadable(s);
    hide Act, PortOf, WrittenNow, BridgeInv, TokensSeen;
    if actions != [] {
      StepServes(s, actions[0], onTty);
      ActKeepsInv(s, actions[0]);
      RunServes(Act(s, actions[0]), actions[1..], onTty);
    }
  }

  /** Every run: each token that a pipe took is waiting in it, is being served, or has fetched one packet. */
  lemma TokensServed(actions: seq<Action>, onTty: bool)
    ensures Written(BRIDGE_START, actions, onTty, true) == TokensSeen(PortOf(After(actions), onTty))
  {
    hide Act, Perform, Written, BridgeInv;
    BridgeStartInv();
    RunServes(BRIDGE_START, actions, onTty);
  }

  /** A datagram of 5 to 255 bytes, taken at a step that serves the connected client, is recorded whole; and it
   *  is heard whole on the line if its byte 1 is 0x00 or 0xff. */
  lemma DatagramArrives(actions: seq<Action>, k: nat, bytes: Packet, stray: byte)
    requires k < |actions| && actions[k] == ServeClient(Datagram(bytes, stray)) && 5 <= |bytes| <= 255
    requires var s := After(actions[..k]); s.pc.ServingClient? && s.pc.ready.client && s.connected
    ensures var s := After(actions);
            && bytes in Offered(s.offered)
            && (bytes[1] == 0x00 || bytes[1] == 0xff ==> bytes in From(Decodable(s.sent), FromClient))
  {
    hide After, Offered, From, Decodable, HandedOver, Broadcasts, Sieve, Heard, Messages;
    HandedOverAt(actions, k);
    Outbound(actions);
    assert bytes in Taken(After(actions[..k]), actions[k]);
    SieveKeeps(Offered(After(actions).offered), bytes);
    if bytes[1] == 0x00 || bytes[1] == 0xff {
      BroadcastsKeep(Sieve(Offered(After(actions).offered)), bytes);
    }
  }

  lemma {:induction false} SieveKeeps(ms: seq<Packet>, m: Packet)
    requires m in ms && 5 <= |m| <= 255
    ensures m in Sieve(ms)
  {
    if ms[0] != m {
      SieveKeeps(ms[1..], m);
    }
  }

  lemma {:induction false} BroadcastsKeep(ms: seq<Packet>, m: Packet)
    requires m in ms && |m| > 1 && (m[1] == 0x00 || m[1] == 0xff)
    ensures m in Broadcasts(ms)
  {
    if ms[0] != m {
      BroadcastsKeep(ms[1..], m);
    }
  }

  lemma {:induction false} HandedOverAppend(s: State, a: seq<Action>, b: seq<Action>)
    requires Readable(s.tty)
    ensures HandedOver(s, a + b) == HandedOver(s, a) + HandedOver(Perform(s, a), b)
    decreases |a|
  {
    hide Act, Taken;
    if a == [] {
      assert a + b == b;
      assert [] + HandedOver(s, b) == HandedOver(s, b);
    } else {
      var s' := Act(s, a[0]);
      assert (a + b)[1..] == a[1..] + b;
      HandedOverAppend(s', a[1..], b);
      var x, y, z := Taken(s, a[0]), HandedOver(s', a[1..]), HandedOver(Perform(s', a[1..]), b);
      assert x + (y + z) == (x + y) + z;
    }
  }

  lemma HandedOverFirst(s: State, actions: seq<Action>, m: Packet)
    requires Readable(s.tty) && actions != [] && m in Taken(s, actions[0])
    ensures m in HandedOver(s, actions)
  {
    hide Act, Taken;
  }

  /** What one step of a run takes is among what the run takes. */
  lemma HandedOverAt(actions: seq<Action>, k: nat)
    requires k < |actions|
    ensures forall m :: m in Taken(After(actions[..k]), actions[k]) ==> m in HandedOver(BRIDGE_START, actions)
  {
    hide HandedOver, Perform, Taken;
    assert actions == actions[..k] + actions[k..];
    HandedOverAppend(BRIDGE_START, actions[..k], actions[k..]);
    forall m | m in Taken(After(actions[..k]), actions[k])
      ensures m in HandedOver(BRIDGE_START, actions)
    {
      HandedOverFirst(After(actions[..k]), actions[k..], m);
    }
  }

  // ------------------------------------------------------------ the read behind the client's message

  /** The step depends on what lies behind the received bytes exactly if there is one byte; in all other
   *  cases in which index 1 is read it is in range. */
  lemma StrayMatters(s: State, bytes: Packet)
    requires ServesClient(s) && Readable(s.tty)
    ensures (exists x, y :: Act(s, ServeClient(Datagram(bytes, x))) != Act(s, ServeClient(Datagram(bytes, y)))) <==>
            |bytes| == 1
    ensures var m := CutOff(bytes); m != [] ==> (|m| > 1 <==> |bytes| != 1)
  {
    hide Encode, IsBroadcast;
    if |bytes| == 1 {
      var s0, s1 := Act(s, ServeClient(Datagram(bytes, 0))), Act(s, ServeClient(Datagram(bytes, 1)));
      assert s0.offered[|s.offered|].destination == 0 && s1.offered[|s.offered|].destination == 1;
    }
  }

  /** A run from the start: a client connects and sends a datagram of one byte, which is forwarded
   *  or not as the byte behind it says. Either way nobody hears it. */
  lemma OneByteDatagram(b: byte, stray: byte)
    ensures var s := After([Accept(Accepted), Select(Some(Ready(true, false, false))),
                            ServeClient(Datagram([b], stray))]);
            && s.offered == [Offer(stray, [b])]
            && s.ttyWire == (if IsBroadcast(stray) then Encode([b]) else [])
            && Decodable(s.sent) == []
  {
    hide Encode, IsBroadcast, Perform;
    var a0, a1, a2 := Accept(Accepted), Select(Some(Ready(true, false, false))), ServeClient(Datagram([b], stray));
    assert [a0, a1, a2] == [a0, a1] + [a2];
    PerformAppend(BRIDGE_START, [a0, a1], [a2]);
    PerformTwo(BRIDGE_START, a0, a1);
    var s := BRIDGE_START.(pc := ServingClient(Ready(true, false, false)), connected := true);
    assert Act(Act(BRIDGE_START, a0), a1) == s;
    PerformOne(s, a2);
    assert |[b]| == 1;
  }

  // ------------------------------------------------------------ bytes in, bytes out

  /** Nothing is under way at this port. */
  predicate Settled(p: Port) {
    p.producer == Reading && p.consumer == Selecting && p.tokens == 0
  }

  /** At a settled port all that came in as a frame has gone out as one, in order, but for as many packets at
   *  the end as its pipe refused tokens. */
  lemma SettledPortsForwardAll(actions: seq<Action>)
    ensures var s := After(actions);
            && (Settled(s.tty) ==>
                  var ps := Parse(false, Incoming(actions, true)); var n := |ps| - Refusals(actions, true);
                  n >= 0 && s.tty.consumed == ps[..n] && Heard(s.linuxWire, Unicasts(ps[..n])))
            && (Settled(s.linux) ==>
                  var ps := Parse(false, Incoming(actions, false)); var n := |ps| - Refusals(actions, false);
                  n >= 0 && From(Decodable(s.sent), FromLinux) == ps[..n])
  {
    hide After, Heard, Parse, Unicasts, Broadcasts, From, Decodable, Messages, Incoming, Refusals, ClientShare;
    var s := After(actions);
    RunKeepsInv(actions);
    LedgerFromStart(actions);
    Inbound(actions);
    Outbound(actions);
    if Settled(s.tty) {
      SettledMeansAll(s.tty);
    }
    if Settled(s.linux) {
      SettledMeansAll(s.linux);
    }
  }

  lemma SettledMeansAll(p: Port)
    requires Inv(p) && Settled(p)
    ensures var ps := Parse(false, p.input); p.lost <= |ps| && p.consumed == ps[..|ps| - p.lost]
  {
    hide Run, Parse;
    InvMeansPrefix(p);
  }

  /** Two bridges on one serial line: what the first sends is what a receiver of this program behind the second
   *  hears, less the broadcasts and the messages of a length that no frame carries. */
  lemma TwoBridges(near: seq<Action>, far: seq<Action>)
    ensures var a, b := After(near), After(far);
            Incoming(far, true) == a.ttyWire && Settled(b.tty) && Refusals(far, true) == 0 ==>
              Heard(b.linuxWire, Unicasts(Messages(Decodable(a.sent))))
  {
    hide After, Run, Parse, Unicasts, Broadcasts, Messages, Decodable, From, Incoming, Refusals;
    var a, b := After(near), After(far);
    SettledPortsForwardAll(far);
    Outbound(near);
    Refines(RX_LIMIT, RX_START, a.ttyWire);
    assert Run(RX_LIMIT, RX_START, a.ttyWire).packets == Messages(Decodable(a.sent));
    var ps := Parse(false, a.ttyWire);
    assert ps[..|ps|] == ps;
  }
}
