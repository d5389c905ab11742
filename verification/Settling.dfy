/** From every point of every run the bridge can come to rest, and then it has forwarded all that came in. */
module Settling {
  import opened Bytes
  import opened Frame
  import opened Receiver
  import opened Handoff
  import opened Broadcast
  import opened Bridge

  predicate AtRest(s: State) {
    Settled(s.tty) && Settled(s.linux)
  }

  /** A step that brings the bridge nearer to rest, without any input and without a new client. */
  function NextMove(s: State): Action {
    if s.tty.producer == Notifying then TtyInput(WriteToken(true))
    else if s.linux.producer == Notifying then LinuxInput(WriteToken(true))
    else
      match s.pc
      case Accepting => Accept(NoneWaiting)
      case Polling => Select(Some(Ready(false, true, true)))
      case ServingClient(_) => ServeClient(WouldBlock)
      case ServingLinux(_) => ServeLinux
      case FetchingLinux(_) => ServeLinux
      case ServingTty(_) => ServeTty(Delivered)
      case FetchingTty => ServeTty(Delivered)
      case Stopped => Halt
  }

  /** How many steps the dispatch thread is from the next token, at most. A round in which select() reported
   *  no token is behind one that is about to begin. */
  function Distance(s: State): nat {
    match s.pc
    case FetchingLinux(_) => if s.linux.consumer == TokenRead then 20 else 19
    case FetchingTty => if s.tty.consumer == TokenRead then 15 else 14
    case ServingClient(r) => if r.linux || r.tty then 7 else 12
    case ServingLinux(r) => if r.linux || r.tty then 6 else 11
    case ServingTty(r) => if r.tty then 5 else 10
    case Accepting => 9
    case Polling => 8
    case Stopped => 0
  }

  function Unannounced(p: Port): nat {
    if p.producer == Notifying then 1 else 0
  }

  function Backlog(s: State): nat {
    31 * (Unannounced(s.tty) + Unannounced(s.linux)) + 30 * (s.tty.tokens + s.linux.tokens) + Distance(s)
  }

  /** One step nearer to rest. */
  predicate Nearer(s: State, s': State) {
    s'.pc != Stopped && Backlog(s') < Backlog(s)
  }

  /** Not at rest, and it is the dispatch thread's turn. */
  ghost predicate DispatchersTurn(s: State) {
    && BridgeInv(s) && s.pc != Stopped && !AtRest(s)
    && s.tty.producer == Reading && s.linux.producer == Reading
  }

  lemma TokenHelps(s: State)
    requires BridgeInv(s) && s.pc != Stopped
    requires s.tty.producer == Notifying || s.linux.producer == Notifying
    ensures Readable(s.tty) && Nearer(s, Act(s, NextMove(s)))
  {
    hide Step, Run, Inv, OutboundInv, InboundInv;
  }

  lemma RoundHelps(s: State)
    requires DispatchersTurn(s) && (s.pc.Accepting? || s.pc.Polling? || s.pc.ServingClient?)
    ensures Readable(s.tty) && Nearer(s, Act(s, NextMove(s)))
  {
    hide Inv, OutboundInv, InboundInv;
  }

  lemma LinuxHelps(s: State)
    requires DispatchersTurn(s) && (s.pc.ServingLinux? || s.pc.FetchingLinux?)
    ensures Nearer(s, ActLinux(s))
  {
    hide Encode, Run, OutboundInv, InboundInv;
    TokenMeansPacket(s.linux);
    hide Inv;
  }

  lemma TtyHelps(s: State)
    requires DispatchersTurn(s) && (s.pc.ServingTty? || s.pc.FetchingTty?)
    ensures Readable(s.tty) && Nearer(s, ActTty(s, Delivered))
  {
    hide Encode, Run, IsBroadcast, OutboundInv, InboundInv;
    TokenMeansPacket(s.tty);
    hide Inv;
  }

  lemma MoveHelps(s: State)
    requires BridgeInv(s) && s.pc != Stopped && !AtRest(s)
    ensures Readable(s.tty) && Nearer(s, Act(s, NextMove(s)))
  {
    hide BridgeInv, Nearer, ActLinux, ActTty, AtRest;
    InvIsReadable(s);
    if s.tty.producer == Notifying || s.linux.producer == Notifying {
      TokenHelps(s);
    } else if s.pc.Accepting? || s.pc.Polling? || s.pc.ServingClient? {
      RoundHelps(s);
    } else if s.pc.ServingLinux? || s.pc.FetchingLinux? {
      LinuxHelps(s);
    } else {
      TtyHelps(s);
    }
  }

  /** Neither a byte that arrives nor a token that is refused. */
  predicate Undisturbed(a: Action) {
    (a.TtyInput? || a.LinuxInput?) ==> a.event == WriteToken(true)
  }

  predicate NoDisturbance(actions: seq<Action>) {
    forall a :: a in actions ==> Undisturbed(a)
  }

  lemma MoveIsUndisturbed(s: State)
    ensures Undisturbed(NextMove(s))
  {}

  lemma {:induction false} ComesToRest(s: State) returns (more: seq<Action>)
    requires BridgeInv(s) && s.pc != Stopped
    ensures NoDisturbance(more) && Readable(s.tty)
    ensures AtRest(Perform(s, more))
    decreases Backlog(s)
  {
    hide BridgeInv, Act, Settled, Backlog, Undisturbed;
    InvIsReadable(s);
    if AtRest(s) {
      more := [];
      PerformNothing(s);
    } else {
      var a := NextMove(s);
      MoveHelps(s);
      MoveIsUndisturbed(s);
      ActKeepsInv(s, a);
      var rest := ComesToRest(Act(s, a));
      more := [a] + rest;
      assert more[1..] == rest;
    }
  }

  lemma {:induction false} NothingArrives(s: State, more: seq<Action>, onTty: bool)
    requires Readable(s.tty) && NoDisturbance(more)
    ensures Arrived(s, more, onTty) == [] && Written(s, more, onTty, false) == 0
    decreases |more|
  {
    hide Act;
    if more != [] {
      assert Undisturbed(more[0]);
      NothingArrives(Act(s, more[0]), more[1..], onTty);
    }
  }

  lemma {:induction false} LedgerAppend(s: State, a: seq<Action>, b: seq<Action>, onTty: bool)
    requires Readable(s.tty)
    ensures Arrived(s, a + b, onTty) == Arrived(s, a, onTty) + Arrived(Perform(s, a), b, onTty)
    ensures Written(s, a + b, onTty, false) ==
            Written(s, a, onTty, false) + Written(Perform(s, a), b, onTty, false)
    decreases |a|
  {
    hide Act, ArrivedNow, WrittenNow;
    if a == [] {
      assert a + b == b;
      assert [] + Arrived(s, b, onTty) == Arrived(s, b, onTty);
    } else {
      var s' := Act(s, a[0]);
      assert (a + b)[1..] == a[1..] + b;
      LedgerAppend(s', a[1..], b, onTty);
      var x, y, z := ArrivedNow(s, a[0], onTty), Arrived(s', a[1..], onTty), Arrived(Perform(s', a[1..]), b, onTty);
      assert x + (y + z) == (x + y) + z;
    }
  }

  /** A continuation in which nothing more arrives and nothing is refused leaves the ledger as it was. */
  lemma UndisturbedLedger(actions: seq<Action>, more: seq<Action>, onTty: bool)
    requires NoDisturbance(more)
    ensures Incoming(actions + more, onTty) == Incoming(actions, onTty)
    ensures Refusals(actions + more, onTty) == Refusals(actions, onTty)
  {
    hide Arrived, Written, Perform, NoDisturbance;
    LedgerAppend(BRIDGE_START, actions, more, onTty);
    NothingArrives(After(actions), more, onTty);
    assert Incoming(actions, onTty) + [] == Incoming(actions, onTty);
  }

  /** Every run that the dispatch thread survived can be continued, while nothing more arrives and no token is
   *  refused, to a point of rest. If none was refused before, every frame that came in has gone out there. */
  lemma CanForwardAll(actions: seq<Action>) returns (more: seq<Action>)
    requires After(actions).pc != Stopped
    ensures NoDisturbance(more) && AtRest(After(actions + more))
    ensures Refusals(actions, true) == 0 ==>
              Heard(After(actions + more).linuxWire, Unicasts(Parse(false, Incoming(actions, true))))
    ensures Refusals(actions, false) == 0 ==>
              From(Decodable(After(actions + more).sent), FromLinux) == Parse(false, Incoming(actions, false))
  {
    hide Perform, BridgeInv, Heard, Parse, Unicasts, From, Decodable, NoDisturbance, Arrived, Written;
    RunKeepsInv(actions);
    more := ComesToRest(After(actions));
    PerformAppend(BRIDGE_START, actions, more);
    SettledPortsForwardAll(actions + more);
    UndisturbedLedger(actions, more, true);
    UndisturbedLedger(actions, more, false);
    hide Incoming, Refusals, After, Settled;
    var ps, qs := Parse(false, Incoming(actions, true)), Parse(false, Incoming(actions, false));
    assert ps[..|ps|] == ps && qs[..|qs|] == qs;
  }
}
