/** The hand-off of packets from the receive thread of a port to the dispatch thread, as interleaved
 *  atomic steps: the receive thread pushes a packet and then writes a token into a pipe; the dispatch
 *  thread reads a token, tests the queue for emptiness and then pops. */
module Handoff {
  import opened Bytes
  import opened Frame
  import opened Receiver

  /** The receive thread is about to read a byte, or has pushed a packet and not yet written its token. */
  datatype ProducerPc = Reading | Notifying

  /** The dispatch thread waits for a token, or has read one, or has seen that the queue is not empty. */
  datatype ConsumerPc = Selecting | TokenRead | Popping

  /** A port between two steps. The last four fields record its history:
   *  all bytes read, packets pushed, packets popped, and tokens that the pipe refused. */
  datatype Port = Port(
    rx: Rx, queue: seq<Packet>, tokens: nat, producer: ProducerPc, consumer: ConsumerPc,
    input: seq<byte>, produced: seq<Packet>, consumed: seq<Packet>, lost: nat)

  datatype Event =
    | ReadByte(b: byte)
    | WriteToken(accepted: bool)
    | ReadToken
    | TestEmpty
    | Pop

  const RX_START := Rx(WaitingForSync, [])
  const START := Port(RX_START, [], 0, Reading, Selecting, [], [], [], 0)

  /** Whether a thread can take this step now; `Pop` blocks on an empty queue. */
  predicate Enabled(p: Port, e: Event) {
    match e
    case ReadByte(_) => p.producer == Reading
    case WriteToken(_) => p.producer == Notifying
    case ReadToken => p.consumer == Selecting && p.tokens > 0
    case TestEmpty => p.consumer == TokenRead
    case Pop => p.consumer == Popping && p.queue != []
  }

  function Next(p: Port, e: Event): Port
    requires Enabled(p, e)
  {
    match e
    case ReadByte(b) =>
      var out := Step(RX_LIMIT, p.rx, b);
      p.(rx := out.rx, input := p.input + [b],
         queue := p.queue + out.packets, produced := p.produced + out.packets,
         producer := if out.packets == [] then Reading else Notifying)
    case WriteToken(accepted) =>
      p.(producer := Reading,
         tokens := if accepted then p.tokens + 1 else p.tokens,
         lost := if accepted then p.lost else p.lost + 1)
    case ReadToken =>
      p.(tokens := p.tokens - 1, consumer := TokenRead)
    case TestEmpty =>
      p.(consumer := if p.queue == [] then Selecting else Popping)
    case Pop =>
      p.(queue := p.queue[1..], consumed := p.consumed + [p.queue[0]], consumer := Selecting)
  }

  /** A step that is not enabled when its turn comes does nothing. */
  function Try(p: Port, e: Event): Port {
    if Enabled(p, e) then Next(p, e) else p
  }

  function Exec(p: Port, es: seq<Event>): Port
    decreases |es|
  {
    if es == [] then p else Exec(Try(p, es[0]), es[1..])
  }

  // ------------------------------------------------------------ what a schedule does, read off its events

  /** The bytes that the receive thread takes in. */
  function BytesRead(p: Port, es: seq<Event>): seq<byte>
    decreases |es|
  {
    if es == [] then []
    else
      (if es[0].ReadByte? && p.producer == Reading then [es[0].b] else []) + BytesRead(Try(p, es[0]), es[1..])
  }

  /** How often the receive thread offers a token and the pipe takes it, or does not. */
  function Writes(p: Port, es: seq<Event>, accepted: bool): nat
    decreases |es|
  {
    if es == [] then 0
    else
      (if es[0] == WriteToken(accepted) && p.producer == Notifying then 1 else 0) +
      Writes(Try(p, es[0]), es[1..], accepted)
  }

  /** How often the dispatch thread takes a token. */
  function Reads(p: Port, es: seq<Event>): nat
    decreases |es|
  {
    if es == [] then 0
    else
      (if es[0] == ReadToken && p.consumer == Selecting && p.tokens > 0 then 1 else 0) +
      Reads(Try(p, es[0]), es[1..])
  }

  lemma TryLedger(p: Port, e: Event)
    ensures var p' := Try(p, e);
            && p'.input == p.input + (if e.ReadByte? && p.producer == Reading then [e.b] else [])
            && p'.lost == p.lost + (if e == WriteToken(false) && p.producer == Notifying then 1 else 0)
            && p'.tokens + (if e == ReadToken && p.consumer == Selecting && p.tokens > 0 then 1 else 0) ==
               p.tokens + (if e == WriteToken(true) && p.producer == Notifying then 1 else 0)
  {
    hide Step;
  }

  /** Every byte that arrives while the receive thread reads is taken in; every token that the pipe takes waits
   *  in it or has been read; only what the pipe refuses counts as lost. */
  lemma {:induction false} Ledger(p: Port, es: seq<Event>)
    ensures var p' := Exec(p, es);
            && p'.input == p.input + BytesRead(p, es)
            && p'.lost == p.lost + Writes(p, es, false)
            && p'.tokens + Reads(p, es) == p.tokens + Writes(p, es, true)
    decreases |es|
  {
    hide Try;
    if es == [] {
      assert p.input + [] == p.input;
    } else {
      TryLedger(p, es[0]);
      Ledger(Try(p, es[0]), es[1..]);
    }
  }

  /** How far the dispatch thread is behind. */
  function Pending(p: Port): nat {
    p.tokens + (if p.producer == Notifying then 1 else 0) + (if p.consumer == Selecting then 0 else 1) + p.lost
  }

  ghost predicate Inv(p: Port) {
    && Run(RX_LIMIT, RX_START, p.input) == Outcome(p.rx, p.produced)
    && p.consumed + p.queue == p.produced
    && |p.queue| == Pending(p)
  }

  lemma RunOneMore(limit: nat, rx: Rx, s: seq<byte>, b: byte)
    ensures var r := Run(limit, rx, s); var out := Step(limit, r.rx, b);
            Run(limit, rx, s + [b]) == Outcome(out.rx, r.packets + out.packets)
  {
    hide Step;
    var r := Run(limit, rx, s);
    RunAppend(limit, rx, s, [b]);
    assert [b][1..] == [];
    assert Run(limit, r.rx, [b]).packets == Step(limit, r.rx, b).packets + [];
  }

  lemma AtMostOnePacket(limit: nat, rx: Rx, b: byte)
    ensures |Step(limit, rx, b).packets| <= 1
  {
    hide Validate;
  }

  lemma NextKeepsInv(p: Port, e: Event)
    requires Inv(p) && Enabled(p, e)
    ensures Inv(Next(p, e))
  {
    hide Run, Step;
    match e
    case ReadByte(b) =>
      RunOneMore(RX_LIMIT, RX_START, p.input, b);
      AtMostOnePacket(RX_LIMIT, p.rx, b);
      var out := Step(RX_LIMIT, p.rx, b);
      assert p.consumed + (p.queue + out.packets) == p.produced + out.packets;
    case WriteToken(_) =>
    case ReadToken =>
    case TestEmpty =>
    case Pop =>
      assert p.consumed + [p.queue[0]] + p.queue[1..] == p.consumed + p.queue;
  }

  /** Under every interleaving nothing is lost, repeated or reordered on the way through the queue, and
   *  the queue holds exactly the packets announced, being announced, being fetched, or never announced. */
  lemma {:induction false} EveryScheduleKeepsInv(p: Port, es: seq<Event>)
    requires Inv(p)
    ensures Inv(Exec(p, es))
    decreases |es|
  {
    hide Inv, Next, Enabled;
    if es != [] {
      if Enabled(p, es[0]) {
        NextKeepsInv(p, es[0]);
      }
      EveryScheduleKeepsInv(Try(p, es[0]), es[1..]);
    }
  }

  lemma StartInv()
    ensures Inv(START)
  {}

  /** Whoever has read a token finds a packet: the emptiness test never fails and the pop never blocks. */
  lemma FetchNeverWaits(es: seq<Event>)
    ensures var p := Exec(START, es);
            && (p.consumer == TokenRead ==> p.queue != [] && Next(p, TestEmpty).consumer == Popping)
            && (p.consumer == Popping ==> Enabled(p, Pop))
  {
    hide Exec, Run;
    StartInv();
    EveryScheduleKeepsInv(START, es);
  }

  /** What the dispatch thread got is an initial part of what the bytes that were read carry; once both threads
   *  are idle and no token is left, all that is missing is one packet for each token the pipe refused. */
  lemma ConsumedFromStream(es: seq<Event>)
    ensures var p := Exec(START, es); var ps := Parse(false, BytesRead(START, es));
            && |p.queue| <= |ps| && p.consumed == ps[..|ps| - |p.queue|]
            && |p.queue| == Pending(p)
            && p.tokens + Reads(START, es) == Writes(START, es, true)
            && (p.producer == Reading && p.consumer == Selecting && p.tokens == 0 ==>
                  |p.queue| == Writes(START, es, false))
  {
    hide Exec, Run, Parse, BytesRead, Reads, Writes;
    StartInv();
    EveryScheduleKeepsInv(START, es);
    InvMeansPrefix(Exec(START, es));
    Ledger(START, es);
    assert [] + BytesRead(START, es) == BytesRead(START, es);
  }

  lemma InvMeansPrefix(p: Port)
    requires Inv(p)
    ensures var ps := Parse(false, p.input);
            |p.queue| <= |ps| && p.consumed == ps[..|ps| - |p.queue|] && p.produced == ps
  {
    hide Run, Parse;
    Refines(RX_LIMIT, RX_START, p.input);
    assert p.consumed == (p.consumed + p.queue)[..|p.consumed|];
  }
}
