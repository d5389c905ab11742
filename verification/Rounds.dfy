/** Single steps and single rounds of the dispatch thread, by what they do to ports, wires and the client. */
module Rounds {
  import opened Bytes
  import opened Frame
  import opened Receiver
  import opened Handoff
  import opened Broadcast
  import opened Bridge

  /** The client comes with an accepted connection and goes with an error or an empty datagram. */
  lemma StepConnects(s: State, a: Action)
    requires Readable(s.tty)
    ensures Act(s, a).connected ==
            if a == Accept(Accepted) && s.pc == Accepting && !s.connected then true
            else if a.ServeClient? && s.pc.ServingClient? && s.pc.ready.client && s.connected &&
                    (a.received == RecvError || (a.received.Datagram? && a.received.bytes == [])) then false
            else s.connected
  {
    hide Next, Encode, IsBroadcast;
  }

  /** The loop goes on to select() whether or not a client waits; only a failure to accept ends it there. */
  lemma AcceptGoesOn(s: State, r: AcceptResult)
    requires Readable(s.tty) && s.pc == Accepting
    ensures Act(s, Accept(r)).pc == if !s.connected && r == AcceptFailed then Stopped else Polling
  {}

  lemma PerformFour(s: State, a: Action, b: Action, c: Action, d: Action)
    requires Readable(s.tty)
    ensures Perform(s, [a, b, c, d]) == Act(Act(Act(Act(s, a), b), c), d)
  {
    hide Act;
    assert [a, b, c, d] == [a, b] + [c, d];
    PerformAppend(s, [a, b], [c, d]);
    PerformTwo(s, a, b);
    PerformTwo(Act(Act(s, a), b), c, d);
  }

  lemma PerformSix(s: State, a: Action, b: Action, c: Action, d: Action, e: Action, f: Action)
    requires Readable(s.tty)
    ensures Perform(s, [a, b, c, d, e, f]) == Act(Act(Act(Act(Act(Act(s, a), b), c), d), e), f)
  {
    hide Act;
    assert [a, b, c, d, e, f] == [a, b, c, d] + [e, f];
    PerformAppend(s, [a, b, c, d], [e, f]);
    PerformFour(s, a, b, c, d);
    PerformTwo(Act(Act(Act(Act(s, a), b), c), d), e, f);
  }

  lemma TokensMeanPackets(p: Port)
    requires Inv(p) && p.tokens > 0
    ensures p.queue != []
  {
    hide Run;
  }

  /** select() and a client that was not reported. */
  lemma SelectPorts(s: State, linux: bool, tty: bool, r: RecvResult)
    requires s.pc == Polling && Readable(s.tty)
    ensures Act(Act(s, Select(Some(Ready(false, linux, tty)))), ServeClient(r)) ==
            s.(pc := ServingLinux(Ready(false, linux && s.linux.tokens > 0, tty && s.tty.tokens > 0)))
  {
    hide TakeFromClient;
  }

  lemma ServeSteps(s: State, sending: SendResult)
    requires Readable(s.tty)
    ensures Act(s, ServeLinux) == ActLinux(s) && Act(s, ServeTty(sending)) == ActTty(s, sending)
  {
    hide ActLinux, ActTty;
  }

  lemma LinuxSkipped(s: State)
    requires s.pc.ServingLinux? && !s.pc.ready.linux
    ensures ActLinux(s) == s.(pc := ServingTty(s.pc.ready))
  {}

  lemma TtySkipped(s: State, sending: SendResult)
    requires s.pc.ServingTty? && !s.pc.ready.tty && Readable(s.tty)
    ensures ActTty(s, sending) == s.(pc := Accepting)
  {}

  /** What the invariant says of a port that is about to be polled. */
  predicate Waiting(s: State, p: Port) {
    && s.pc == Polling && p.consumer == Selecting && p.tokens > 0
    && p.queue != [] && |p.queue[0]| > 1 && Readable(s.tty)
  }

  lemma PolledPortsWait(s: State)
    requires BridgeInv(s) && s.pc == Polling
    ensures s.linux.tokens > 0 ==> Waiting(s, s.linux)
    ensures s.tty.tokens > 0 ==> Waiting(s, s.tty)
  {
    QueueHoldsDeliverables(s.linux);
    QueueHoldsDeliverables(s.tty);
    if s.linux.tokens > 0 {
      TokensMeanPackets(s.linux);
      assert s.linux.queue[0] in s.linux.queue;
    }
    if s.tty.tokens > 0 {
      TokensMeanPackets(s.tty);
      assert s.tty.queue[0] in s.tty.queue;
    }
    hide Inv, OutboundInv, InboundInv;
  }

  lemma LinuxToken(s: State)
    requires s.pc.ServingLinux? && s.pc.ready.linux && s.linux.consumer == Selecting && s.linux.tokens > 0
    ensures ActLinux(s) == s.(linux := s.linux.(tokens := s.linux.tokens - 1, consumer := TokenRead),
                              pc := FetchingLinux(s.pc.ready))
  {}

  lemma LinuxTest(s: State)
    requires s.pc.FetchingLinux? && s.linux.consumer == TokenRead && s.linux.queue != []
    ensures ActLinux(s) == s.(linux := s.linux.(consumer := Popping))
  {}

  lemma LinuxPop(s: State)
    requires s.pc.FetchingLinux? && s.linux.consumer == Popping && s.linux.queue != [] && s.linux.queue[0] != []
    ensures var m := s.linux.queue[0]; var s' := ActLinux(s);
            && s'.linux == s.linux.(queue := s.linux.queue[1..], consumed := s.linux.consumed + [m],
                                    consumer := Selecting)
            && s'.pc == ServingTty(s.pc.ready) && s'.ttyWire == s.ttyWire + Encode(m)
            && s' == s.(linux := s'.linux, pc := s'.pc, ttyWire := s'.ttyWire, sent := s'.sent)
  {
    hide Encode;
  }

  /** Three steps serve the kernel's port. */
  lemma LinuxServed(s: State)
    requires s.pc.ServingLinux? && s.pc.ready.linux && s.linux.consumer == Selecting && s.linux.tokens > 0
    requires s.linux.queue != [] && |s.linux.queue[0]| > 1
    ensures var m := s.linux.queue[0]; var s' := ActLinux(ActLinux(ActLinux(s)));
            && s'.pc == ServingTty(s.pc.ready)
            && s'.linux == s.linux.(queue := s.linux.queue[1..], consumed := s.linux.consumed + [m],
                                    tokens := s.linux.tokens - 1)
            && s'.ttyWire == s.ttyWire + Encode(m)
            && s' == s.(linux := s'.linux, pc := s'.pc, ttyWire := s'.ttyWire, sent := s'.sent)
  {
    hide ActLinux, Encode;
    LinuxToken(s);
    LinuxTest(ActLinux(s));
    LinuxPop(ActLinux(ActLinux(s)));
  }

  /** A report for the kernel's port alone: its oldest packet goes out on the serial line, nothing else moves. */
  lemma LinuxAlone(s: State, r: RecvResult, sending: SendResult)
    requires BridgeInv(s) && s.pc == Polling && s.linux.tokens > 0
    ensures Waiting(s, s.linux)
    ensures var m := s.linux.queue[0];
            var s' := Perform(s, [Select(Some(Ready(false, true, false))), ServeClient(r),
                                  ServeLinux, ServeLinux, ServeLinux, ServeTty(sending)]);
            && s'.pc == Accepting
            && s'.linux == s.linux.(queue := s.linux.queue[1..], consumed := s.linux.consumed + [m],
                                    tokens := s.linux.tokens - 1)
            && s'.ttyWire == s.ttyWire + Encode(m)
            && s' == s.(pc := Accepting, linux := s'.linux, ttyWire := s'.ttyWire, sent := s'.sent)
  {
    PolledPortsWait(s);
    hide BridgeInv, Perform, Act, ActLinux, ActTty, Encode;
    PerformSix(s, Select(Some(Ready(false, true, false))), ServeClient(r), ServeLinux, ServeLinux, ServeLinux,
               ServeTty(sending));
    SelectPorts(s, true, false, r);
    var s1 := s.(pc := ServingLinux(Ready(false, true, false)));
    LinuxServed(s1);
    ServeSteps(s1, sending);
    ServeSteps(Act(s1, ServeLinux), sending);
    ServeSteps(Act(Act(s1, ServeLinux), ServeLinux), sending);
    var s4 := Act(Act(Act(s1, ServeLinux), ServeLinux), ServeLinux);
    ServeSteps(s4, sending);
    TtySkipped(s4, sending);
  }

  lemma TtyToken(s: State, sending: SendResult)
    requires s.pc.ServingTty? && s.pc.ready.tty && s.tty.consumer == Selecting && s.tty.tokens > 0 && Readable(s.tty)
    ensures ActTty(s, sending) == s.(tty := s.tty.(tokens := s.tty.tokens - 1, consumer := TokenRead),
                                     pc := FetchingTty)
  {}

  lemma TtyTest(s: State, sending: SendResult)
    requires s.pc.FetchingTty? && s.tty.consumer == TokenRead && s.tty.queue != [] && Readable(s.tty)
    ensures ActTty(s, sending) == s.(tty := s.tty.(consumer := Popping))
  {}

  /** What routing does to the two ways out, by byte 1 of the message. */
  lemma RouteByByteOne(s: State, m: Packet, sending: SendResult)
    requires |m| > 1
    ensures var s' := Route(s, m, sending); var toAll := m[1] == 0x00 || m[1] == 0xff;
            && s'.linuxWire == s.linuxWire + (if toAll then [] else Encode(m))
            && s'.clientOut == s.clientOut + (if toAll && s.connected && sending == Delivered then [m] else [])
            && s'.pc == (if toAll && s.connected && sending == BrokenPipe then Stopped else s.pc)
            && s' == s.(linuxWire := s'.linuxWire, clientOut := s'.clientOut, pc := s'.pc, routed := s'.routed)
  {
    hide Encode;
    assert s.linuxWire + [] == s.linuxWire && s.clientOut + [] == s.clientOut;
  }

  lemma TtyPop(s: State, sending: SendResult)
    requires s.pc.FetchingTty? && s.tty.consumer == Popping && s.tty.queue != [] && Readable(s.tty)
    ensures |s.tty.queue[0]| > 1
    ensures var m := s.tty.queue[0];
            ActTty(s, sending) ==
            Route(s.(tty := s.tty.(queue := s.tty.queue[1..], consumed := s.tty.consumed + [m],
                                   consumer := Selecting), pc := Accepting), m, sending)
  {
    hide Route;
  }

  /** Three steps serve the serial device's port. */
  lemma TtyServed(s: State, sending: SendResult)
    requires s.pc.ServingTty? && s.pc.ready.tty && s.tty.consumer == Selecting && s.tty.tokens > 0
    requires s.tty.queue != [] && |s.tty.queue[0]| > 1 && Readable(s.tty)
    ensures var m := s.tty.queue[0]; var toAll := m[1] == 0x00 || m[1] == 0xff;
            var s' := ActTty(ActTty(ActTty(s, sending), sending), sending);
            && s'.pc == (if toAll && s.connected && sending == BrokenPipe then Stopped else Accepting)
            && s'.tty == s.tty.(queue := s.tty.queue[1..], consumed := s.tty.consumed + [m],
                                tokens := s.tty.tokens - 1)
            && s'.linuxWire == s.linuxWire + (if toAll then [] else Encode(m))
            && s'.clientOut == s.clientOut + (if toAll && s.connected && sending == Delivered then [m] else [])
            && s' == s.(tty := s'.tty, pc := s'.pc, linuxWire := s'.linuxWire, clientOut := s'.clientOut,
                        routed := s'.routed)
  {
    hide ActTty, Encode, Route, Readable;
    TtyToken(s, sending);
    TtyTest(ActTty(s, sending), sending);
    var s2 := ActTty(ActTty(s, sending), sending);
    TtyPop(s2, sending);
    var m := s.tty.queue[0];
    RouteByByteOne(s2.(tty := s2.tty.(queue := s2.tty.queue[1..], consumed := s2.tty.consumed + [m],
                                      consumer := Selecting), pc := Accepting), m, sending);
  }

  /** A report for the serial device alone: its oldest packet goes to the kernel's side or to the client, by its
   *  byte 1, nothing else moves, and the loop goes on unless a send broke the pipe. */
  lemma TtyAlone(s: State, r: RecvResult, sending: SendResult)
    requires BridgeInv(s) && s.pc == Polling && s.tty.tokens > 0
    ensures Waiting(s, s.tty)
    ensures var m := s.tty.queue[0]; var toAll := m[1] == 0x00 || m[1] == 0xff;
            var s' := Perform(s, [Select(Some(Ready(false, false, true))), ServeClient(r), ServeLinux,
                                  ServeTty(sending), ServeTty(sending), ServeTty(sending)]);
            && s'.pc == (if toAll && s.connected && sending == BrokenPipe then Stopped else Accepting)
            && s'.tty == s.tty.(queue := s.tty.queue[1..], consumed := s.tty.consumed + [m],
                                tokens := s.tty.tokens - 1)
            && s'.linuxWire == s.linuxWire + (if toAll then [] else Encode(m))
            && s'.clientOut == s.clientOut + (if toAll && s.connected && sending == Delivered then [m] else [])
            && s' == s.(tty := s'.tty, pc := s'.pc, linuxWire := s'.linuxWire, clientOut := s'.clientOut,
                        routed := s'.routed)
  {
    PolledPortsWait(s);
    hide BridgeInv, Perform, Act, ActLinux, ActTty, Encode;
    var x := ServeTty(sending);
    PerformSix(s, Select(Some(Ready(false, false, true))), ServeClient(r), ServeLinux, x, x, x);
    SelectPorts(s, false, true, r);
    var s0 := s.(pc := ServingLinux(Ready(false, false, true)));
    ServeSteps(s0, sending);
    LinuxSkipped(s0);
    var s1 := Act(s0, ServeLinux);
    TtyServed(s1, sending);
    ServeSteps(s1, sending);
    ServeSteps(Act(s1, x), sending);
    ServeSteps(Act(Act(s1, x), x), sending);
  }

  /** A report for the client alone: what it sent goes out on the serial line exactly if byte 1 says so. */
  lemma ClientAlone(s: State, bytes: Packet, stray: byte)
    requires s.pc == Polling && s.connected && Readable(s.tty) && 0 < |bytes| <= 256
    ensures var to := if |bytes| > 1 then bytes[1] else stray;
            var s' := Perform(s, [Select(Some(Ready(true, false, false))), ServeClient(Datagram(bytes, stray))]);
            && s'.pc == ServingLinux(Ready(true, false, false))
            && s'.ttyWire == s.ttyWire + (if to == 0x00 || to == 0xff then Encode(bytes) else [])
            && s'.offered == s.offered + [Offer(to, bytes)]
            && s' == s.(pc := s'.pc, ttyWire := s'.ttyWire, sent := s'.sent, offered := s'.offered)
  {
    hide Encode, Perform;
    PerformTwo(s, Select(Some(Ready(true, false, false))), ServeClient(Datagram(bytes, stray)));
    assert s.ttyWire + [] == s.ttyWire;
  }
}
