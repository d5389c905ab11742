/** The serial port driver: framing on the way out, the receive state machine on the way in. */
module Serial {
  import opened Bytes
  import opened Fcs
  import opened Stuffing
  import opened Frame
  import opened Receiver
  import opened Handoff
  import opened Buffers

  /** What a port becomes when the holder of a token asks for a packet. */
  function Fetch(p: Port): Port
    requires p.consumer == TokenRead
  {
    var p' := Next(p, TestEmpty);
    if p'.consumer == Popping then Next(p', Pop) else p'
  }

  /** A whole frame as it is written: all but its first and last byte are stuffed. */
  function Transmitted(msg: seq<byte>): seq<byte> {
    if |msg| < 2 then msg else [msg[0]] + Stuff(msg[1..|msg| - 1]) + [msg[|msg| - 1]]
  }

  lemma StuffOneMore(s: seq<byte>, b: byte)
    ensures Stuff(s + [b]) == Stuff(s) + StuffByte(b)
  {
    StuffAppend(s, [b]);
    assert [b][1..] == [];
  }

  class MctpSerial {
    const rxBuffer: ReceiveBuffer
    var rxInProgress: seq<byte>
    var rxState: RxState
    var byteCount: int
    /** Where the receive thread is: after a push it has a token to write. */
    var producer: ProducerPc
    /** Bytes waiting in the wake pipe. */
    var tokens: nat
    /** Everything written to the serial device. */
    var wire: seq<byte>

    ghost var input: seq<byte>
    ghost var produced: seq<Packet>
    ghost var consumed: seq<Packet>
    ghost var lost: nat

    constructor ()
      ensures fresh(rxBuffer)
      ensures AsPort(Selecting) == START && wire == []
    {
      rxBuffer := new ReceiveBuffer();
      rxInProgress, rxState, byteCount := [], WaitingForSync, 0;
      producer, tokens, wire := Reading, 0, [];
      input, produced, consumed, lost := [], [], [], 0;
    }

    /** The port as the hand-off sees it. */
    ghost function AsPort(consumer: ConsumerPc): Port
      reads this, rxBuffer
    {
      Port(Rx(rxState, rxInProgress), rxBuffer.buffer, tokens, producer, consumer, input, produced, consumed,
           lost)
    }

    /** The running check over the first `len` bytes, by the table. */
    method CalcFcs(initial: bv16, cp: seq<byte>, len: nat) returns (fcs: bv16)
      requires len <= |cp|
      ensures fcs == Fcs.Fcs(initial, cp[..len])
    {
      hide FcsTab, Shift8, XorWord, Widen, FcsByte, Fcs.Fcs;
      fcs := initial;
      EmptyCheck(initial);
      for i := 0 to len
        invariant fcs == Fcs.Fcs(initial, cp[..i])
      {
        TableIsShiftRegister(fcs, cp[i]);
        FcsAppend(initial, cp[..i], [cp[i]]);
        OneByte(fcs, cp[i]);
        assert cp[..i + 1] == cp[..i] + [cp[i]];
        fcs := XorWord(fcs >> 8, FcsTab(LowByte(XorWord(fcs, Widen(cp[i])))));
      }
    }

    method TransmitFrame(msg: seq<byte>)
      modifies this`wire
      ensures wire == old(wire) + Transmitted(msg)
    {
      hide Stuff;
      StuffNothing();
      for i := 0 to |msg|
        invariant i == 0 ==> wire == old(wire)
        invariant 0 < i && (i < |msg| || i == 1) ==> wire == old(wire) + ([msg[0]] + Stuff(msg[1..i]))
        invariant 0 < i == |msg| ==> wire == old(wire) + Transmitted(msg)
      {
        var data := msg[i];
        if i == 0 || i == |msg| - 1 {
          wire := wire + [data];
          assert msg[1..1] == [] && [msg[0]] + [] == [msg[0]];
        } else {
          assert msg[1..i + 1] == msg[1..i] + [data];
          StuffOneMore(msg[1..i], data);
          if data == FRAME_CHAR || data == ESCAPE_CHAR {
            wire := wire + [ESCAPE_CHAR];
            data := data - 0x20;
            wire := wire + [data];
          } else {
            wire := wire + [data];
          }
        }
      }
    }

    /** One message goes out as one frame. */
    method Send(msg: Packet)
      modifies this`wire
      ensures wire == old(wire) + Encode(msg)
    {
      hide Fcs.Fcs, Stuff;
      var fullMsg := [FRAME_CHAR, 0x01, SizeByte(|msg|)];
      fullMsg := fullMsg + msg;
      var fcs := CalcFcs(INITFCS, fullMsg[1..], |fullMsg| - 1);
      assert fullMsg[1..][..|fullMsg| - 1] == Covered(SERIAL_REV, msg);
      fullMsg := fullMsg + [HighByte(fcs)];
      fullMsg := fullMsg + [LowByte(fcs)];
      fullMsg := fullMsg + [FRAME_CHAR];
      assert fullMsg == [FRAME_CHAR] + Interior(SERIAL_REV, msg) + [FRAME_CHAR];
      assert fullMsg[1..|fullMsg| - 1] == Interior(SERIAL_REV, msg);
      TransmitFrame(fullMsg);
    }

    method RxEmpty() returns (empty: bool)
      ensures empty <==> rxBuffer.buffer == []
    {
      empty := rxBuffer.Empty();
    }

    /** The test of a complete frame; it leaves the byte count it looked at behind. */
    method ValidateRx() returns (valid: bool)
      modifies this`byteCount
      ensures valid == Validate(rxInProgress)
      ensures byteCount == if |rxInProgress| < 11 then old(byteCount) else Value(rxInProgress[2])
    {
      hide Fcs.Fcs;
      var n := |rxInProgress|;
      if n < 11 {
        return false;
      }
      byteCount := Value(rxInProgress[2]);
      if byteCount != n % 0x1_0000 - 6 {
        return false;
      }
      var fcs := CalcFcs(INITFCS, rxInProgress[1..], n - 4);
      assert rxInProgress[1..][..n - 4] == rxInProgress[1..n - 3];
      var msgFcs := Word(rxInProgress[n - 3], rxInProgress[n - 2]);
      if msgFcs != fcs {
        return false;
      }
      return true;
    }

    /** A frame character in the body state ends a frame or starts one. */
    method EndOfFrame()
      modifies this`rxState, this`rxInProgress, this`byteCount, this`produced, this`producer, rxBuffer
      ensures var out := Close(old(rxInProgress));
              && Rx(rxState, rxInProgress) == out.rx
              && rxBuffer.buffer == old(rxBuffer.buffer) + out.packets
              && produced == old(produced) + out.packets
              && producer == if out.packets == [] then old(producer) else Notifying
    {
      hide Validate;
      rxInProgress := rxInProgress + [FRAME_CHAR];
      var valid := ValidateRx();
      if valid {
        ValidSize(rxInProgress);
        ghost var full := rxInProgress;
        rxInProgress := rxInProgress[3..];
        rxInProgress := rxInProgress[..|rxInProgress| - 3];
        assert rxInProgress == full[3..|full| - 3];
        var packet := rxInProgress;
        rxBuffer.Push(packet);
        produced := produced + [packet];
        producer := Notifying;
        rxState := WaitingForSync;
      } else {
        rxState := Body;
        rxInProgress := [FRAME_CHAR];
      }
    }

    /** The receive thread has found the device readable: it gets a byte, or nothing. If that pushes a
     *  packet, `WriteWakeByte` is what the thread does next; the dispatch thread may run in between. */
    method UpdateRxFSM(received: Option<byte>)
      requires producer == Reading
      modifies this, rxBuffer
      ensures wire == old(wire)
      ensures AsPort(Selecting) ==
              if received.None? then old(AsPort(Selecting))
              else Next(old(AsPort(Selecting)), ReadByte(received.value))
    {
      hide Close;
      if received.Some? {
        var b := received.value;
        input := input + [b];
        match rxState {
          case WaitingForSync =>
            if b == FRAME_CHAR {
              rxState := Body;
              rxInProgress := [FRAME_CHAR];
            }
          case Body =>
            if b == ESCAPE_CHAR {
              rxState := Escape;
            } else if b == FRAME_CHAR {
              EndOfFrame();
            } else {
              rxInProgress := rxInProgress + [b];
              if |rxInProgress| > RX_LIMIT {
                rxState := WaitingForSync;
              }
            }
          case Escape =>
            if b == ESCAPE_CHAR - 0x20 || b == FRAME_CHAR - 0x20 {
              b := b + 0x20;
              rxInProgress := rxInProgress + [b];
              rxState := Body;
              if |rxInProgress| > RX_LIMIT {
                rxState := WaitingForSync;
              }
            } else if b == FRAME_CHAR {
              rxInProgress := [FRAME_CHAR];
              rxState := Body;
            } else {
              rxState := WaitingForSync;
            }
        }
      }
    }

    /** The receive thread offers a token to the wake pipe; a failure is only logged. */
    method WriteWakeByte(accepted: bool)
      requires producer == Notifying
      modifies this`producer, this`tokens, this`lost
      ensures AsPort(Selecting) == Next(old(AsPort(Selecting)), WriteToken(accepted))
      ensures tokens == old(tokens) + if accepted then 1 else 0
      ensures lost == old(lost) + if accepted then 0 else 1
    {
      if accepted {
        tokens := tokens + 1;
      } else {
        lost := lost + 1;
      }
      producer := Reading;
    }

    /** The dispatch thread reads one byte from the wake pipe, if there is one. */
    method ReadPipe() returns (got: bool)
      modifies this`tokens
      ensures got <==> old(tokens) > 0
      ensures tokens == old(tokens) - if got then 1 else 0
      ensures if got then AsPort(TokenRead) == Next(old(AsPort(Selecting)), ReadToken) else unchanged(this)
    {
      got := tokens > 0;
      if got {
        tokens := tokens - 1;
      }
    }

    /** The oldest packet, or an empty one if there is none. */
    method Receive() returns (packet: Packet)
      modifies this`consumed, rxBuffer
      ensures old(rxBuffer.buffer) == [] ==> packet == [] && rxBuffer.buffer == [] && consumed == old(consumed)
      ensures old(rxBuffer.buffer) != [] ==>
                old(rxBuffer.buffer) == [packet] + rxBuffer.buffer && consumed == old(consumed) + [packet]
      ensures AsPort(Selecting) == Fetch(old(AsPort(TokenRead)))
    {
      var empty := rxBuffer.Empty();
      if empty {
        return [];
      }
      var data := rxBuffer.Pop();
      packet := data.value;
      consumed := consumed + [packet];
    }
  }
}
