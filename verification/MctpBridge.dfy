/** The dispatch loop over its three ports. Every call is a run of the machine of module Bridge,
 *  so that what is proved of all runs there holds of the loop. */
module Dispatch {
  import opened Bytes
  import opened Frame
  import opened Receiver
  import opened Handoff
  import opened Broadcast
  import opened Bridge
  import opened Serial

  /** A step of one of the two receive threads. */
  datatype Input = Input(onTty: bool, event: Event)

  function InputAction(x: Input): Action {
    if x.onTty then TtyInput(x.event) else LinuxInput(x.event)
  }

  function Inputs(xs: seq<Input>): (actions: seq<Action>)
    ensures |actions| == |xs|
    ensures forall i :: 0 <= i < |xs| ==>
              actions[i] == if xs[i].onTty then TtyInput(xs[i].event) else LinuxInput(xs[i].event)
  {
    seq(|xs|, i requires 0 <= i < |xs| => InputAction(xs[i]))
  }

  /** What the environment contributes to one round of the loop: whether the bridge is being closed, the steps
   *  of the receive threads at the points where they can overtake the dispatch thread, and the results
   *  of its system calls. */
  datatype Round = Round(
    closing: bool,
    beforeAccept: seq<Input>, accept: AcceptResult, fd: nat,
    beforeSelect: seq<Input>, reported: Option<Ready>,
    beforeClient: seq<Input>, received: RecvResult,
    beforeLinux: seq<Input>, withLinuxToken: seq<Input>,
    beforeTty: seq<Input>, withTtyToken: seq<Input>, sending: SendResult)

  // ------------------------------------------------------------ the steps of a round

  /** From the top of the loop to the return of select(), or to the exception. */
  function AwaitActions(round: Round, threw: bool): seq<Action> {
    Inputs(round.beforeAccept) + [Accept(round.accept)] +
    if threw then [] else Inputs(round.beforeSelect) + [Select(round.reported)]
  }

  /** A token, the packet behind it, and the receive threads between the two. */
  function LinuxActions(ready: Ready, overtaking: seq<Input>): seq<Action> {
    [ServeLinux] + if ready.linux then Inputs(overtaking) + [ServeLinux, ServeLinux] else []
  }

  function TtyActions(ready: Ready, overtaking: seq<Input>, sending: SendResult): seq<Action> {
    [ServeTty(sending)] + if ready.tty then Inputs(overtaking) + [ServeTty(sending), ServeTty(sending)] else []
  }

  /** The three descriptors in turn. */
  function ReadyActions(ready: Ready, round: Round): seq<Action> {
    Inputs(round.beforeClient) + [ServeClient(round.received)] +
    Inputs(round.beforeLinux) + LinuxActions(ready, round.withLinuxToken) +
    Inputs(round.beforeTty) + TtyActions(ready, round.withTtyToken, round.sending)
  }

  function RoundActions(s: State, round: Round): seq<Action>
    requires Readable(s.tty)
  {
    if !s.connected && round.accept == AcceptFailed then AwaitActions(round, true)
    else
      var await := AwaitActions(round, false);
      var pc := Perform(s, await).pc;
      if pc.ServingClient? then await + ReadyActions(pc.ready, round) else await
  }

  function ScriptActions(s: State, running: bool, script: seq<Round>): seq<Action>
    requires Readable(s.tty)
    decreases |script|
  {
    if script == [] then []
    else if script[0].closing || !running then [Halt]
    else
      var actions := RoundActions(s, script[0]);
      var s' := Perform(s, actions);
      actions + if s'.pc == Stopped then [] else ScriptActions(s', running, script[1..])
  }

  lemma ScriptFirst(s: State, running: bool, script: seq<Round>)
    requires Readable(s.tty) && script != []
    ensures script[0].closing || !running ==> ScriptActions(s, running, script) == [Halt]
    ensures !script[0].closing && running ==>
              var actions := RoundActions(s, script[0]); var s' := Perform(s, actions);
              ScriptActions(s, running, script) ==
              if s'.pc == Stopped then actions else actions + ScriptActions(s', running, script[1..])
  {
    hide Perform, RoundActions;
  }

  /** The accepts and selects among some steps. */
  function Polls(actions: seq<Action>): seq<Action> {
    if actions == [] then []
    else (if actions[0].Accept? || actions[0].Select? then [actions[0]] else []) + Polls(actions[1..])
  }

  lemma {:induction false} PollsAppend(a: seq<Action>, b: seq<Action>)
    ensures Polls(a + b) == Polls(a) + Polls(b)
  {
    if a == [] {
      assert a + b == b && [] + Polls(b) == Polls(b);
    } else {
      assert (a + b)[1..] == a[1..] + b;
      PollsAppend(a[1..], b);
      var first := if a[0].Accept? || a[0].Select? then [a[0]] else [];
      assert first + (Polls(a[1..]) + Polls(b)) == (first + Polls(a[1..])) + Polls(b);
    }
  }

  lemma {:induction false} NoPolls(actions: seq<Action>)
    requires forall i :: 0 <= i < |actions| ==> !actions[i].Accept? && !actions[i].Select?
    ensures Polls(actions) == []
  {
    if actions != [] {
      NoPolls(actions[1..]);
    }
  }

  /** A round that nothing cuts short. */
  predicate Smooth(round: Round) {
    !round.closing && round.accept != AcceptFailed && round.sending != BrokenPipe
  }

  predicate Harmless(a: Action) {
    a != Halt && a != Accept(AcceptFailed) && a != ServeTty(BrokenPipe)
  }

  lemma StaysAlive(s: State, a: Action)
    requires Readable(s.tty) && s.pc != Stopped && Harmless(a)
    ensures Act(s, a).pc != Stopped
  {
    hide Next, Encode, IsBroadcast;
  }

  lemma {:induction false} RunStaysAlive(s: State, actions: seq<Action>)
    requires Readable(s.tty) && s.pc != Stopped && forall i :: 0 <= i < |actions| ==> Harmless(actions[i])
    ensures Perform(s, actions).pc != Stopped
    decreases |actions|
  {
    hide Act, Harmless;
    if actions != [] {
      assert Harmless(actions[0]);
      StaysAlive(s, actions[0]);
      forall i | 0 <= i < |actions[1..]|
        ensures Harmless(actions[1..][i])
      {
        assert actions[1..][i] == actions[i + 1];
      }
      RunStaysAlive(Act(s, actions[0]), actions[1..]);
    }
  }

  lemma AwaitPolls(round: Round)
    ensures Polls(AwaitActions(round, false)) == [Accept(round.accept), Select(round.reported)]
  {
    hide Polls, Inputs;
    var a, b := Inputs(round.beforeAccept), Inputs(round.beforeSelect);
    var x, y := [Accept(round.accept)], [Select(round.reported)];
    assert AwaitActions(round, false) == a + (x + (b + y));
    PollsAppend(a, x + (b + y));
    PollsAppend(x, b + y);
    PollsAppend(b, y);
    NoPolls(a);
    NoPolls(b);
    OnePoll(x[0]);
    OnePoll(y[0]);
  }

  lemma OnePoll(a: Action)
    requires a.Accept? || a.Select?
    ensures Polls([a]) == [a]
  {
    assert [a][1..] == [];
  }

  lemma ReadyPollsNothing(ready: Ready, round: Round)
    ensures Polls(ReadyActions(ready, round)) == []
  {
    hide Inputs;
    NoPolls(ReadyActions(ready, round));
  }

  lemma RoundIsHarmless(s: State, round: Round)
    requires Readable(s.tty) && Smooth(round)
    ensures forall i :: 0 <= i < |RoundActions(s, round)| ==> Harmless(RoundActions(s, round)[i])
  {
    hide Perform, Inputs;
  }

  lemma RoundPolls(s: State, round: Round)
    requires Readable(s.tty) && Smooth(round)
    ensures Polls(RoundActions(s, round)) == [Accept(round.accept), Select(round.reported)]
  {
    hide Perform, Polls, AwaitActions, ReadyActions;
    var await := AwaitActions(round, false);
    AwaitPolls(round);
    var pc := Perform(s, await).pc;
    if pc.ServingClient? {
      ReadyPollsNothing(pc.ready, round);
      PollsAppend(await, ReadyActions(pc.ready, round));
    }
  }

  function PollsOf(script: seq<Round>): seq<Action> {
    if script == [] then [] else [Accept(script[0].accept), Select(script[0].reported)] + PollsOf(script[1..])
  }

  /** The loop tries to accept and then waits once in every round, and leaves none out. */
  lemma {:induction false} EveryRoundPolls(s: State, script: seq<Round>)
    requires Readable(s.tty) && s.pc != Stopped && forall i :: 0 <= i < |script| ==> Smooth(script[i])
    ensures Polls(ScriptActions(s, true, script)) == PollsOf(script)
    decreases |script|
  {
    hide Perform, RoundActions, Harmless;
    if script != [] {
      assert Smooth(script[0]);
      var actions := RoundActions(s, script[0]);
      var s' := Perform(s, actions);
      RoundPolls(s, script[0]);
      RoundIsHarmless(s, script[0]);
      RunStaysAlive(s, actions);
      EveryRoundPolls(s', script[1..]);
      PollsAppend(actions, ScriptActions(s', true, script[1..]));
    }
  }

  /** What a receive thread does at a port does not depend on what the dispatch thread is doing. */
  lemma NextIgnoresConsumer(p: Port, e: Event, consumer: ConsumerPc)
    requires IsProducer(e)
    ensures Enabled(p.(consumer := consumer), e) <==> Enabled(p, e)
    ensures Enabled(p, e) ==> Next(p.(consumer := consumer), e) == Next(p, e).(consumer := consumer)
  {
    hide Step;
  }

  /** What `Receive` hands out. */
  function Oldest(p: Port): Packet {
    if p.queue == [] then [] else p.queue[0]
  }

  /** The token of the kernel's side is followed by the emptiness test and the pop. */
  lemma LinuxFetchIsPerformed(s: State)
    requires s.pc.FetchingLinux? && s.linux.consumer == TokenRead && Readable(s.tty)
    ensures var s' := s.(linux := Fetch(s.linux), pc := ServingTty(s.pc.ready)); var m := Oldest(s.linux);
            s.linux.queue != [] ==>
              Perform(s, [ServeLinux, ServeLinux]) == if m == [] then s' else Transmit(s', FromLinux, m)
  {
    hide Perform, Transmit;
    PerformTwo(s, ServeLinux, ServeLinux);
  }

  lemma TtyFetchIsPerformed(s: State, sending: SendResult)
    requires s.pc.FetchingTty? && s.tty.consumer == TokenRead && Readable(s.tty)
    ensures var s' := s.(tty := Fetch(s.tty), pc := Accepting); var e := ServeTty(sending);
            s.tty.queue != [] ==> Perform(s, [e, e]) == Route(s', s.tty.queue[0], sending)
  {
    hide Perform, Route;
    PerformTwo(s, ServeTty(sending), ServeTty(sending));
  }

  lemma TokensWhenServing(s: State)
    requires BridgeInv(s)
    ensures s.pc.ServingLinux? && s.pc.ready.linux ==> s.linux.tokens > 0
    ensures s.pc.ServingTty? && s.pc.ready.tty ==> s.tty.tokens > 0
    ensures s.linux.tokens > 0 || s.linux.consumer != Selecting ==> s.linux.queue != [] && s.linux.queue[0] != []
    ensures s.tty.tokens > 0 || s.tty.consumer != Selecting ==> s.tty.queue != [] && |s.tty.queue[0]| > 1
  {
    PortQueues(s.linux);
    PortQueues(s.tty);
    hide Inv;
  }

  lemma PortQueues(p: Port)
    requires Inv(p)
    ensures p.tokens > 0 || p.consumer != Selecting ==> p.queue != [] && |p.queue[0]| > 1
  {
    QueueHoldsDeliverables(p);
    hide Run;
    if p.queue != [] {
      assert p.queue[0] in p.queue;
    }
  }

  lemma ProducerStep(p: Port, e: Event)
    requires IsProducer(e)
    ensures Enabled(p, e) ==>
              var p' := Next(p, e);
              && p'.consumed == p.consumed && p.queue <= p'.queue
              && p'.input == p.input + (if e.ReadByte? then [e.b] else [])
              && p'.tokens == p.tokens + (if e == WriteToken(true) then 1 else 0)
              && p'.lost == p.lost + (if e == WriteToken(false) then 1 else 0)
  {
    hide Step;
  }

  /** A receive thread takes a step if it is its turn. */
  method StepReceiver(port: MctpSerial, e: Event)
    modifies port, port.rxBuffer
    ensures port.wire == old(port.wire)
    ensures var p := old(port.AsPort(Selecting));
            port.AsPort(Selecting) == if IsProducer(e) && Enabled(p, e) then Next(p, e) else p
    ensures port.consumed == old(port.consumed) && old(port.rxBuffer.buffer) <= port.rxBuffer.buffer
    ensures port.input == old(port.input) + if e.ReadByte? && old(port.producer) == Reading then [e.b] else []
    ensures port.tokens == old(port.tokens) + if e == WriteToken(true) && old(port.producer) == Notifying then 1 else 0
    ensures port.lost == old(port.lost) + if e == WriteToken(false) && old(port.producer) == Notifying then 1 else 0
  {
    if IsProducer(e) {
      ProducerStep(port.AsPort(Selecting), e);
    }
    hide Next;
    match e {
      case ReadByte(b) =>
        if port.producer == Reading {
          port.UpdateRxFSM(Some(b));
        }
      case WriteToken(accepted) =>
        if port.producer == Notifying {
          port.WriteWakeByte(accepted);
        }
      case _ =>
    }
  }

  lemma {:induction false} InputsKeepConnection(s: State, xs: seq<Input>)
    requires Readable(s.tty)
    ensures Perform(s, Inputs(xs)).connected == s.connected
    decreases |xs|
  {
    hide Next;
    if xs != [] {
      assert Inputs(xs)[1..] == Inputs(xs[1..]);
      InputsKeepConnection(Act(s, InputAction(xs[0])), xs[1..]);
    }
  }

  class MctpBridge {
    const linuxSerial: MctpSerial
    const mctpSerial: MctpSerial
    const bcast: BcastMessenger
    var running: bool

    ghost var sent: seq<Sent>
    ghost var routed: seq<Routed>
    ghost var offered: seq<Offer>

    constructor ()
      ensures Separate() && !running && fresh(Footprint())
      ensures AsState(Accepting) == BRIDGE_START
    {
      linuxSerial := new MctpSerial();
      mctpSerial := new MctpSerial();
      bcast := new BcastMessenger();
      running, sent, routed, offered := false, [], [], [];
    }

    ghost function Footprint(): set<object> {
      {linuxSerial, linuxSerial.rxBuffer, mctpSerial, mctpSerial.rxBuffer, bcast}
    }

    /** The two ports share nothing. */
    ghost predicate Separate() {
      linuxSerial != mctpSerial && linuxSerial.rxBuffer != mctpSerial.rxBuffer
    }

    /** The bridge as the machine sees it, with the dispatch thread at `pc`. */
    ghost function AsState(pc: Pc): State
      reads this, Footprint()
    {
      State(pc,
            mctpSerial.AsPort(if pc.FetchingTty? then TokenRead else Selecting),
            linuxSerial.AsPort(if pc.FetchingLinux? then TokenRead else Selecting),
            bcast.IsConnected(), mctpSerial.wire, linuxSerial.wire, bcast.outbox, sent, routed, offered)
    }

    ghost predicate Valid(pc: Pc)
      reads this, Footprint()
    {
      Separate() && BridgeInv(AsState(pc))
    }

    /** The ports, which are opened here, are those of a new bridge; the loop may run. */
    method Open()
      modifies this`running
      ensures running && AsState(Accepting) == old(AsState(Accepting))
    {
      running := true;
    }

    /** One step of a receive thread, if it can be taken. */
    method TakeInput(x: Input, ghost pc: Pc)
      requires Valid(pc)
      modifies Footprint() - {bcast}
      ensures Valid(pc) && AsState(pc) == Act(old(AsState(pc)), InputAction(x))
      ensures old(linuxSerial.rxBuffer.buffer) <= linuxSerial.rxBuffer.buffer
      ensures old(mctpSerial.rxBuffer.buffer) <= mctpSerial.rxBuffer.buffer
      ensures linuxSerial.consumed == old(linuxSerial.consumed) && linuxSerial.wire == old(linuxSerial.wire)
      ensures mctpSerial.consumed == old(mctpSerial.consumed) && mctpSerial.wire == old(mctpSerial.wire)
    {
      hide Next, BridgeInv;
      ghost var s := AsState(pc);
      InvIsReadable(s);
      ActKeepsInv(s, InputAction(x));
      if IsProducer(x.event) {
        NextIgnoresConsumer(mctpSerial.AsPort(Selecting), x.event, s.tty.consumer);
        NextIgnoresConsumer(linuxSerial.AsPort(Selecting), x.event, s.linux.consumer);
      }
      if x.onTty {
        StepReceiver(mctpSerial, x.event);
      } else {
        StepReceiver(linuxSerial, x.event);
      }
    }

    /** The receive threads overtake the dispatch thread. */
    method Overtake(inputs: seq<Input>, ghost pc: Pc)
      requires Valid(pc)
      modifies Footprint() - {bcast}
      ensures Valid(pc) && AsState(pc) == Perform(old(AsState(pc)), Inputs(inputs))
      ensures old(linuxSerial.rxBuffer.buffer) <= linuxSerial.rxBuffer.buffer
      ensures old(mctpSerial.rxBuffer.buffer) <= mctpSerial.rxBuffer.buffer
      ensures linuxSerial.consumed == old(linuxSerial.consumed) && linuxSerial.wire == old(linuxSerial.wire)
      ensures mctpSerial.consumed == old(mctpSerial.consumed) && mctpSerial.wire == old(mctpSerial.wire)
    {
      hide Perform, Act, BridgeInv;
      ghost var s0 := AsState(pc);
      InvIsReadable(s0);
      PerformNothing(s0);
      for i := 0 to |inputs|
        invariant Valid(pc) && AsState(pc) == Perform(s0, Inputs(inputs[..i]))
        invariant old(linuxSerial.rxBuffer.buffer) <= linuxSerial.rxBuffer.buffer
        invariant old(mctpSerial.rxBuffer.buffer) <= mctpSerial.rxBuffer.buffer
        invariant linuxSerial.consumed == old(linuxSerial.consumed) && linuxSerial.wire == old(linuxSerial.wire)
        invariant mctpSerial.consumed == old(mctpSerial.consumed) && mctpSerial.wire == old(mctpSerial.wire)
      {
        PerformOne(AsState(pc), InputAction(inputs[i]));
        PerformAppend(s0, Inputs(inputs[..i]), [InputAction(inputs[i])]);
        assert Inputs(inputs[..i + 1]) == Inputs(inputs[..i]) + [InputAction(inputs[i])];
        TakeInput(inputs[i], pc);
      }
      assert inputs[..|inputs|] == inputs;
    }

    /** A waiting client is taken, unless one is connected. */
    method AcceptClient(accepted: AcceptResult, fd: nat) returns (threw: bool)
      requires Valid(Accepting)
      modifies bcast`connFd, bcast`state
      ensures threw <==> !old(bcast.IsConnected()) && accepted == AcceptFailed
      ensures bcast.IsConnected() <==> old(bcast.IsConnected()) || accepted == Accepted
      ensures bcast.IsConnected() ==> bcast.connFd == if old(bcast.IsConnected()) then old(bcast.connFd) else fd
      ensures var pc := if threw then Stopped else Polling;
              Valid(pc) && AsState(pc) == Perform(old(AsState(Accepting)), [Accept(accepted)])
    {
      hide Perform, BridgeInv;
      ghost var s0 := AsState(Accepting);
      InvIsReadable(s0);
      PerformOne(s0, Accept(accepted));
      EveryRunKeepsInv(s0, [Accept(accepted)]);
      threw := false;
      if !bcast.IsConnected() {
        threw := bcast.AcceptConnection(accepted, fd);
      }
    }

    /** select(): a descriptor is readable only if it was asked for and has something to read. */
    method SelectReady(reported: Option<Ready>) returns (ready: Option<Ready>)
      requires Valid(Polling)
      ensures ready.Some? <==> reported.Some?
      ensures ready.Some? ==>
                && (ready.value.client <==> reported.value.client && bcast.IsConnected())
                && (ready.value.linux <==> reported.value.linux && linuxSerial.tokens > 0)
                && (ready.value.tty <==> reported.value.tty && mctpSerial.tokens > 0)
      ensures var pc := if ready.None? then Accepting else ServingClient(ready.value);
              Valid(pc) && AsState(pc) == Perform(AsState(Polling), [Select(reported)])
    {
      hide Perform, BridgeInv;
      ghost var s0 := AsState(Polling);
      InvIsReadable(s0);
      PerformOne(s0, Select(reported));
      EveryRunKeepsInv(s0, [Select(reported)]);
      if reported.None? {
        return None;
      }
      var r := reported.value;
      ready := Some(Ready(r.client && bcast.IsConnected(), r.linux && linuxSerial.tokens > 0,
                          r.tty && mctpSerial.tokens > 0));
    }

    method SendToSerial(origin: Origin, msg: Packet, ghost pc: Pc)
      requires Separate()
      modifies this`sent, mctpSerial`wire
      ensures mctpSerial.wire == old(mctpSerial.wire) + Encode(msg)
      ensures AsState(pc) == Transmit(old(AsState(pc)), origin, msg)
    {
      mctpSerial.Send(msg);
      sent := sent + [Sent(origin, msg)];
    }

    /** A message from the client goes to the serial device if it is for nobody or for everybody. */
    method HandleClient(ready: Ready, received: RecvResult)
      requires Valid(ServingClient(ready))
      modifies this`sent, this`offered, Footprint()
      ensures Valid(ServingLinux(ready))
      ensures AsState(ServingLinux(ready)) ==
              Perform(old(AsState(ServingClient(ready))), [ServeClient(received)])
      ensures mctpSerial.wire == old(mctpSerial.wire) +
                if old(bcast.IsConnected()) && ready.client && received.Datagram? && received.bytes != [] then
                  var bytes := received.bytes;
                  var destEid := if |bytes| > 1 then bytes[1] else received.stray;
                  if destEid != 0xff && destEid != 0x00 then []
                  else Encode(if |bytes| > 256 then bytes[..256] else bytes)
                else []
      ensures bcast.IsConnected() <==>
                && old(bcast.IsConnected())
                && !(ready.client && (received == RecvError || (received.Datagram? && received.bytes == [])))
    {
      hide Perform, BridgeInv, Encode;
      ghost var s0 := AsState(ServingClient(ready));
      InvIsReadable(s0);
      PerformOne(s0, ServeClient(received));
      EveryRunKeepsInv(s0, [ServeClient(received)]);
      if bcast.IsConnected() && ready.client {
        var msg := bcast.RecvMessage(received);
        if |msg| > 0 {
          // A read behind a single byte finds whatever is there.
          var destEid := if |msg| > 1 then msg[1] else received.stray;
          offered := offered + [Offer(destEid, msg)];
          if destEid == 0xff || destEid == 0x00 {
            SendToSerial(FromClient, msg, ServingLinux(ready));
          }
        }
      }
    }

    /** A token from the kernel's side, and the receive threads after it. */
    method TakeLinuxToken(ready: Ready, overtaking: seq<Input>)
      requires Valid(ServingLinux(ready)) && ready.linux
      modifies Footprint() - {bcast}
      ensures Valid(FetchingLinux(ready))
      ensures AsState(FetchingLinux(ready)) ==
              Perform(old(AsState(ServingLinux(ready))), [ServeLinux] + Inputs(overtaking))
      ensures old(linuxSerial.rxBuffer.buffer) != []
      ensures old(linuxSerial.rxBuffer.buffer) <= linuxSerial.rxBuffer.buffer
      ensures linuxSerial.consumed == old(linuxSerial.consumed) && linuxSerial.wire == old(linuxSerial.wire)
      ensures mctpSerial.consumed == old(mctpSerial.consumed) && mctpSerial.wire == old(mctpSerial.wire)
    {
      hide Perform, BridgeInv, Inputs;
      ghost var s0 := AsState(ServingLinux(ready));
      InvIsReadable(s0);
      TokensWhenServing(s0);
      PerformOne(s0, ServeLinux);
      EveryRunKeepsInv(s0, [ServeLinux]);
      var got := linuxSerial.ReadPipe();
      assert AsState(FetchingLinux(ready)) == Perform(s0, [ServeLinux]);
      Overtake(overtaking, FetchingLinux(ready));
      PerformAppend(s0, [ServeLinux], Inputs(overtaking));
    }

    /** The packet behind a token goes to the serial device. */
    method FetchFromLinux(ready: Ready)
      requires Valid(FetchingLinux(ready))
      modifies this`sent, Footprint()
      ensures Valid(ServingTty(ready))
      ensures AsState(ServingTty(ready)) == Perform(old(AsState(FetchingLinux(ready))), [ServeLinux, ServeLinux])
      ensures var queue := old(linuxSerial.rxBuffer.buffer);
              && queue != [] && linuxSerial.consumed == old(linuxSerial.consumed) + [queue[0]]
              && mctpSerial.wire == old(mctpSerial.wire) + Encode(queue[0])
    {
      hide Perform, Fetch, Transmit, BridgeInv, Encode;
      ghost var s := AsState(FetchingLinux(ready));
      InvIsReadable(s);
      TokensWhenServing(s);
      var msg := linuxSerial.Receive();
      assert AsState(ServingTty(ready)) == s.(linux := Fetch(s.linux), pc := ServingTty(ready));
      LinuxFetchIsPerformed(s);
      EveryRunKeepsInv(s, [ServeLinux, ServeLinux]);
      if |msg| > 0 {
        SendToSerial(FromLinux, msg, ServingTty(ready));
      }
    }

    lemma LinuxActionsAppend(s: State, ready: Ready, overtaking: seq<Input>)
      requires Readable(s.tty) && ready.linux
      ensures Perform(s, LinuxActions(ready, overtaking)) ==
              Perform(Perform(s, [ServeLinux] + Inputs(overtaking)), [ServeLinux, ServeLinux])
    {
      hide Perform, Inputs;
      PerformAppend(s, [ServeLinux] + Inputs(overtaking), [ServeLinux, ServeLinux]);
      assert [ServeLinux] + Inputs(overtaking) + [ServeLinux, ServeLinux] == LinuxActions(ready, overtaking);
    }

    /** Everything from the kernel's side goes to the serial device. */
    method HandleLinux(ready: Ready, overtaking: seq<Input>)
      requires Valid(ServingLinux(ready))
      modifies this`sent, Footprint()
      ensures Valid(ServingTty(ready))
      ensures AsState(ServingTty(ready)) ==
              Perform(old(AsState(ServingLinux(ready))), LinuxActions(ready, overtaking))
      ensures ready.linux ==>
                var queue := old(linuxSerial.rxBuffer.buffer);
                && queue != [] && linuxSerial.consumed == old(linuxSerial.consumed) + [queue[0]]
                && mctpSerial.wire == old(mctpSerial.wire) + Encode(queue[0])
      ensures !ready.linux ==>
                linuxSerial.consumed == old(linuxSerial.consumed) && mctpSerial.wire == old(mctpSerial.wire)
    {
      hide Perform, BridgeInv, Encode, Inputs;
      ghost var s0 := AsState(ServingLinux(ready));
      InvIsReadable(s0);
      if ready.linux {
        LinuxActionsAppend(s0, ready, overtaking);
        TakeLinuxToken(ready, overtaking);
        FetchFromLinux(ready);
      } else {
        PerformOne(s0, ServeLinux);
        assert LinuxActions(ready, overtaking) == [ServeLinux];
        EveryRunKeepsInv(s0, [ServeLinux]);
      }
    }

    /** A message from the serial device goes to the client, if it is for nobody or for everybody and
     *  there is one, or to the kernel's side; `killed` says that sending it ended the program. */
    method RouteMessage(msg: Packet, sending: SendResult) returns (killed: bool)
      requires Separate() && |msg| > 1
      modifies this`routed, linuxSerial`wire, bcast`outbox
      ensures AsState(if killed then Stopped else Accepting) == Route(old(AsState(Accepting)), msg, sending)
      ensures var toAll := msg[1] == 0x00 || msg[1] == 0xff;
              && linuxSerial.wire == old(linuxSerial.wire) + (if toAll then [] else Encode(msg))
              && bcast.outbox == old(bcast.outbox) +
                   (if toAll && bcast.IsConnected() && sending == Delivered then [msg] else [])
              && (killed <==> toAll && bcast.IsConnected() && sending == BrokenPipe)
    {
      hide Encode;
      killed := false;
      var destEid := msg[1];
      routed := routed + [Routed(FateOf(msg, bcast.IsConnected(), sending), msg, bcast.IsConnected(), sending)];
      if destEid == 0xff || destEid == 0x00 {
        if bcast.IsConnected() {
          killed := bcast.SendMessage(msg, sending);
        }
      } else {
        linuxSerial.Send(msg);
      }
    }

    /** A token of the serial device, and the receive threads after it. */
    method TakeTtyToken(ready: Ready, overtaking: seq<Input>, ghost sending: SendResult)
      requires Valid(ServingTty(ready)) && ready.tty
      modifies Footprint() - {bcast}
      ensures Valid(FetchingTty)
      ensures AsState(FetchingTty) ==
              Perform(old(AsState(ServingTty(ready))), [ServeTty(sending)] + Inputs(overtaking))
      ensures old(mctpSerial.rxBuffer.buffer) != []
      ensures old(mctpSerial.rxBuffer.buffer) <= mctpSerial.rxBuffer.buffer
      ensures linuxSerial.consumed == old(linuxSerial.consumed) && linuxSerial.wire == old(linuxSerial.wire)
      ensures mctpSerial.consumed == old(mctpSerial.consumed) && mctpSerial.wire == old(mctpSerial.wire)
    {
      hide Perform, BridgeInv, Inputs;
      ghost var s0 := AsState(ServingTty(ready));
      InvIsReadable(s0);
      TokensWhenServing(s0);
      PerformOne(s0, ServeTty(sending));
      EveryRunKeepsInv(s0, [ServeTty(sending)]);
      var got := mctpSerial.ReadPipe();
      assert AsState(FetchingTty) == Perform(s0, [ServeTty(sending)]);
      Overtake(overtaking, FetchingTty);
      PerformAppend(s0, [ServeTty(sending)], Inputs(overtaking));
    }

    /** The packet behind a token is routed. */
    method FetchFromTty(sending: SendResult) returns (killed: bool)
      requires Valid(FetchingTty)
      modifies this`routed, Footprint()
      ensures var pc := if killed then Stopped else Accepting;
              && Valid(pc)
              && AsState(pc) == Perform(old(AsState(FetchingTty)), [ServeTty(sending), ServeTty(sending)])
      ensures var queue := old(mctpSerial.rxBuffer.buffer);
              && queue != [] && |queue[0]| > 1
              && mctpSerial.consumed == old(mctpSerial.consumed) + [queue[0]]
              && var msg := queue[0]; var toAll := msg[1] == 0x00 || msg[1] == 0xff;
                 && linuxSerial.wire == old(linuxSerial.wire) + (if toAll then [] else Encode(msg))
                 && bcast.outbox == old(bcast.outbox) +
                      (if toAll && bcast.IsConnected() && sending == Delivered then [msg] else [])
                 && (killed <==> toAll && bcast.IsConnected() && sending == BrokenPipe)
    {
      hide Perform, Fetch, Route, BridgeInv, Encode;
      ghost var s, step := AsState(FetchingTty), ServeTty(sending);
      InvIsReadable(s);
      TokensWhenServing(s);
      var msg := mctpSerial.Receive();
      assert AsState(Accepting) == s.(tty := Fetch(s.tty), pc := Accepting);
      TtyFetchIsPerformed(s, sending);
      EveryRunKeepsInv(s, [step, step]);
      killed := false;
      if |msg| > 0 {
        killed := RouteMessage(msg, sending);
      }
    }

    lemma TtyActionsAppend(s: State, ready: Ready, overtaking: seq<Input>, sending: SendResult)
      requires Readable(s.tty) && ready.tty
      ensures var e := ServeTty(sending);
              Perform(s, TtyActions(ready, overtaking, sending)) ==
              Perform(Perform(s, [e] + Inputs(overtaking)), [e, e])
    {
      hide Perform, Inputs;
      var e := ServeTty(sending);
      PerformAppend(s, [e] + Inputs(overtaking), [e, e]);
      assert [e] + Inputs(overtaking) + [e, e] == TtyActions(ready, overtaking, sending);
    }

    method HandleTty(ready: Ready, overtaking: seq<Input>, sending: SendResult) returns (killed: bool)
      requires Valid(ServingTty(ready))
      modifies this`routed, Footprint()
      ensures var pc := if killed then Stopped else Accepting;
              && Valid(pc)
              && AsState(pc) == Perform(old(AsState(ServingTty(ready))), TtyActions(ready, overtaking, sending))
      ensures ready.tty ==>
                var queue := old(mctpSerial.rxBuffer.buffer);
                && queue != [] && |queue[0]| > 1
                && mctpSerial.consumed == old(mctpSerial.consumed) + [queue[0]]
                && var msg := queue[0]; var toAll := msg[1] == 0x00 || msg[1] == 0xff;
                   && linuxSerial.wire == old(linuxSerial.wire) + (if toAll then [] else Encode(msg))
                   && bcast.outbox == old(bcast.outbox) +
                        (if toAll && bcast.IsConnected() && sending == Delivered then [msg] else [])
                   && (killed <==> toAll && bcast.IsConnected() && sending == BrokenPipe)
      ensures !ready.tty ==>
                && !killed && mctpSerial.consumed == old(mctpSerial.consumed)
                && linuxSerial.wire == old(linuxSerial.wire) && bcast.outbox == old(bcast.outbox)
    {
      hide Perform, BridgeInv, Encode, Inputs;
      ghost var s0 := AsState(ServingTty(ready));
      InvIsReadable(s0);
      killed := false;
      if ready.tty {
        TtyActionsAppend(s0, ready, overtaking, sending);
        TakeTtyToken(ready, overtaking, sending);
        killed := FetchFromTty(sending);
      } else {
        PerformOne(s0, ServeTty(sending));
        assert TtyActions(ready, overtaking, sending) == [ServeTty(sending)];
        EveryRunKeepsInv(s0, [ServeTty(sending)]);
      }
    }

    /** The three descriptors in turn, after select() has reported. */
    method HandleReady(ready: Ready, round: Round) returns (killed: bool)
      requires Valid(ServingClient(ready))
      modifies this, Footprint()
      ensures var pc := if killed then Stopped else Accepting;
              && Valid(pc)
              && AsState(pc) == Perform(old(AsState(ServingClient(ready))), ReadyActions(ready, round))
      ensures running == old(running) && (killed ==> round.sending == BrokenPipe)
    {
      hide Perform, BridgeInv, AsState, Encode, Inputs, LinuxActions, TtyActions;
      ghost var s0 := AsState(ServingClient(ready));
      InvIsReadable(s0);
      Overtake(round.beforeClient, ServingClient(ready));
      ghost var trace := Inputs(round.beforeClient);

      HandleClient(ready, round.received);
      PerformAppend(s0, trace, [ServeClient(round.received)]);
      trace := trace + [ServeClient(round.received)];

      Overtake(round.beforeLinux, ServingLinux(ready));
      PerformAppend(s0, trace, Inputs(round.beforeLinux));
      trace := trace + Inputs(round.beforeLinux);

      HandleLinux(ready, round.withLinuxToken);
      PerformAppend(s0, trace, LinuxActions(ready, round.withLinuxToken));
      trace := trace + LinuxActions(ready, round.withLinuxToken);

      Overtake(round.beforeTty, ServingTty(ready));
      PerformAppend(s0, trace, Inputs(round.beforeTty));
      trace := trace + Inputs(round.beforeTty);

      killed := HandleTty(ready, round.withTtyToken, round.sending);
      PerformAppend(s0, trace, TtyActions(ready, round.withTtyToken, round.sending));
    }

    /** The loop looks whether the bridge was closed, which may be happening just now. */
    method StopRequested(closing: bool) returns (halts: bool)
      requires Valid(Accepting)
      modifies this`running
      ensures halts <==> closing || !old(running)
      ensures if halts then !running && Valid(Stopped) && AsState(Stopped) == Perform(old(AsState(Accepting)), [Halt])
              else running == old(running) && Valid(Accepting) && AsState(Accepting) == old(AsState(Accepting))
    {
      hide Perform, BridgeInv;
      ghost var s0 := AsState(Accepting);
      InvIsReadable(s0);
      PerformOne(s0, Halt);
      EveryRunKeepsInv(s0, [Halt]);
      if closing {
        running := false;
      }
      halts := !running;
    }

    /** From the top of the loop to the return of select(). */
    method AwaitReady(round: Round) returns (threw: bool, ready: Option<Ready>)
      requires Valid(Accepting)
      modifies Footprint()
      ensures threw <==> !old(AsState(Accepting)).connected && round.accept == AcceptFailed
      ensures threw ==> ready.None?
      ensures var pc := if threw then Stopped else if ready.None? then Accepting else ServingClient(ready.value);
              Valid(pc) && AsState(pc) == Perform(old(AsState(Accepting)), AwaitActions(round, threw))
    {
      hide Perform, BridgeInv, Inputs;
      ghost var s0 := AsState(Accepting);
      InvIsReadable(s0);
      Overtake(round.beforeAccept, Accepting);
      ghost var trace := Inputs(round.beforeAccept);
      InputsKeepConnection(s0, round.beforeAccept);

      threw := AcceptClient(round.accept, round.fd);
      PerformAppend(s0, trace, [Accept(round.accept)]);
      trace := trace + [Accept(round.accept)];
      if threw {
        ready := None;
        assert trace == AwaitActions(round, true);
        return;
      }

      Overtake(round.beforeSelect, Polling);
      PerformAppend(s0, trace, Inputs(round.beforeSelect));
      trace := trace + Inputs(round.beforeSelect);

      ready := SelectReady(round.reported);
      PerformAppend(s0, trace, [Select(round.reported)]);
      assert trace + [Select(round.reported)] == AwaitActions(round, false);
    }

    /** One round of the loop; `stopped` if accepting a client fails, which ends the thread with an
     *  exception, or sending to one ends the program. */
    method HandleRound(round: Round) returns (stopped: bool)
      requires Valid(Accepting)
      modifies this, Footprint()
      ensures running == old(running)
      ensures stopped ==> round.accept == AcceptFailed || round.sending == BrokenPipe
      ensures var pc := if stopped then Stopped else Accepting;
              && Valid(pc)
              && AsState(pc) == Perform(old(AsState(Accepting)), RoundActions(old(AsState(Accepting)), round))
    {
      hide Perform, AsState, BridgeInv, AwaitActions, ReadyActions;
      ghost var s0 := AsState(Accepting);
      InvIsReadable(s0);
      var ready;
      stopped, ready := AwaitReady(round);
      PcOfState(if stopped then Stopped else if ready.None? then Accepting else ServingClient(ready.value));
      if ready.Some? {
        stopped := HandleReady(ready.value, round);
        PerformAppend(s0, AwaitActions(round, false), ReadyActions(ready.value, round));
      }
    }

    lemma PcOfState(pc: Pc)
      ensures AsState(pc).pc == pc
    {}

    /** The dispatch thread until the bridge is closed or a round stops it, or the environment has nothing
     *  more to contribute. */
    method Run(script: seq<Round>) returns (ghost pc: Pc)
      requires Valid(Accepting)
      modifies this, Footprint()
      ensures pc == Stopped || (pc == Accepting && running == old(running))
      ensures pc == Stopped ==>
                || !old(running)
                || exists i :: 0 <= i < |script| && (script[i].closing || script[i].accept == AcceptFailed ||
                                                     script[i].sending == BrokenPipe)
      ensures Valid(pc)
      ensures var s := old(AsState(Accepting)); AsState(pc) == Perform(s, ScriptActions(s, old(running), script))
    {
      hide Perform, AsState, BridgeInv, RoundActions;
      pc := Accepting;
      ghost var s0, trace := AsState(Accepting), [];
      InvIsReadable(s0);
      PerformNothing(s0);
      assert script[0..] == script && [] + ScriptActions(s0, running, script) == ScriptActions(s0, running, script);
      for i := 0 to |script|
        invariant pc == Accepting && running == old(running)
        invariant Valid(Accepting) && AsState(Accepting) == Perform(s0, trace)
        invariant ScriptActions(s0, running, script) ==
                  trace + ScriptActions(AsState(Accepting), running, script[i..])
      {
        ghost var s := AsState(Accepting);
        assert script[i..][0] == script[i] && script[i..][1..] == script[i + 1..];
        ScriptFirst(s, running, script[i..]);
        var halts := StopRequested(script[i].closing);
        if halts {
          hide ScriptActions;
          PerformAppend(s0, trace, [Halt]);
          pc := Stopped;
          return;
        }
        hide ScriptActions;
        ghost var steps := RoundActions(s, script[i]);
        ghost var rest := ScriptActions(Perform(s, steps), running, script[i + 1..]);
        var stopped := HandleRound(script[i]);
        PerformAppend(s0, trace, steps);
        PcOfState(if stopped then Stopped else Accepting);
        assert trace + (steps + rest) == (trace + steps) + rest;
        trace := trace + steps;
        if stopped {
          pc := Stopped;
          return;
        }
      }
      assert trace + [] == trace;
    }

    /** The loop of a bridge just opened, in terms of its objects: what was fetched from the two ports is an initial
     *  part of what the bytes that arrived carry; the serial device carries the encodings of all that the kernel's
     *  side sent and of the client's broadcasts, the kernel's side those of the unicast packets fetched, and
     *  the client was sent the others that found it connected. */
    method RunOpened(script: seq<Round>)
      requires Separate() && AsState(Accepting) == BRIDGE_START
      modifies this, Footprint()
      ensures var trace := ScriptActions(BRIDGE_START, old(running), script);
              && mctpSerial.consumed <= Parse(false, Incoming(trace, true))
              && linuxSerial.consumed <= Parse(false, Incoming(trace, false))
              && From(Decodable(sent), FromClient) == Broadcasts(Sieve(HandedOver(BRIDGE_START, trace)))
      ensures Heard(mctpSerial.wire, Messages(Decodable(sent)))
      ensures From(Decodable(sent), FromLinux) == linuxSerial.consumed
      ensures Heard(linuxSerial.wire, Unicasts(mctpSerial.consumed))
      ensures bcast.outbox == ClientShare(routed) && Arrivals(routed) == mctpSerial.consumed
      ensures forall i :: 0 <= i < |routed| ==> Settles(routed[i])
    {
      hide Perform, BridgeInv, Heard, Messages, Decodable, From, Sieve, Offered, Broadcasts, Unicasts, ClientShare,
           Arrivals, Settles, Parse, OfferedIn, RoutedIn, ScriptActions, HandedOver, Incoming;
      BridgeStartInv();
      ghost var trace := ScriptActions(BRIDGE_START, running, script);
      ghost var pc := Run(script);
      PortsKeepUp(trace);
      Outbound(trace);
      Inbound(trace);
    }
  }
}
