/** The receive state machine, one byte at a time, and the parser of whole streams that it implements. */
module Receiver {
  import opened Bytes
  import opened Stuffing
  import opened Frame

  datatype RxState = WaitingForSync | Body | Escape

  /** The state and the bytes collected so far. */
  datatype Rx = Rx(state: RxState, inProgress: seq<byte>)

  /** A receiver after some input, and the packets it delivered meanwhile. */
  datatype Outcome = Outcome(rx: Rx, packets: seq<Packet>)

  /** Collected bytes beyond which the source gives a frame up. */
  const RX_LIMIT := 550

  // ------------------------------------------------------------ the machine

  function Quiet(rx: Rx): Outcome {
    Outcome(rx, [])
  }

  /** A frame has just been opened. */
  const OPENED := Rx(Body, [FRAME_CHAR])

  /** A frame character ends the bytes collected in the body state. */
  function Close(buf: seq<byte>): Outcome {
    var full := buf + [FRAME_CHAR];
    if Validate(full) then
      var packet := full[3..|full| - 3];
      Outcome(Rx(WaitingForSync, packet), [packet])
    else Quiet(OPENED)
  }

  /** One more byte of content, unless there are too many. */
  function Collect(limit: nat, buf: seq<byte>, b: byte): Rx {
    Rx(if |buf| + 1 > limit then WaitingForSync else Body, buf + [b])
  }

  function Step(limit: nat, rx: Rx, b: byte): Outcome {
    match rx.state
    case WaitingForSync =>
      Quiet(if b == FRAME_CHAR then OPENED else rx)
    case Body =>
      if b == ESCAPE_CHAR then Quiet(rx.(state := Escape))
      else if b == FRAME_CHAR then Close(rx.inProgress)
      else Quiet(Collect(limit, rx.inProgress, b))
    case Escape =>
      if IsEscapeCode(b) then Quiet(Collect(limit, rx.inProgress, b + 0x20))
      else if b == FRAME_CHAR then Quiet(OPENED)
      else Quiet(rx.(state := WaitingForSync))
  }

  function Run(limit: nat, rx: Rx, s: seq<byte>): Outcome
    decreases |s|
  {
    if s == [] then Quiet(rx)
    else
      var first := Step(limit, rx, s[0]);
      var rest := Run(limit, first.rx, s[1..]);
      Outcome(rest.rx, first.packets + rest.packets)
  }

  lemma {:induction false} RunAppend(limit: nat, rx: Rx, a: seq<byte>, b: seq<byte>)
    ensures var r := Run(limit, rx, a); var r' := Run(limit, r.rx, b);
            Run(limit, rx, a + b) == Outcome(r'.rx, r.packets + r'.packets)
    decreases |a|
  {
    hide Step;
    if a == [] {
      assert a + b == b;
    } else {
      assert (a + b)[1..] == a[1..] + b;
      var first := Step(limit, rx, a[0]);
      RunAppend(limit, first.rx, a[1..], b);
      var r := Run(limit, first.rx, a[1..]);
      var r' := Run(limit, r.rx, b);
      assert first.packets + (r.packets + r'.packets) == (first.packets + r.packets) + r'.packets;
    }
  }

  // ------------------------------------------------------------ the parser

  /** The bytes before the first frame character. */
  function FirstFlag(s: seq<byte>): (n: nat)
    ensures n <= |s| && FlagFree(s[..n])
    ensures n < |s| ==> s[n] == FRAME_CHAR
    ensures n == |s| <==> FlagFree(s)
  {
    if s == [] || s[0] == FRAME_CHAR then 0
    else
      var n := FirstFlag(s[1..]);
      assert s[..n + 1] == [s[0]] + s[1..][..n];
      n + 1
  }

  /** What a stream delivers: it is cut at the frame characters; a piece that lies in an open frame
   *  and decodes is delivered and closes the frame; after any other piece a frame is open. */
  function Parse(open: bool, s: seq<byte>): seq<Packet>
    decreases |s|
  {
    var n := FirstFlag(s);
    if n == |s| then []
    else
      var m := Decode(s[..n]);
      if open && m.Some? then [m.value] + Parse(false, s[n + 1..])
      else Parse(true, s[n + 1..])
  }

  /** Receivers that no frame in progress can disturb: not in a frame, or at the very start of one. */
  predicate Clean(rx: Rx) {
    rx.state == WaitingForSync || rx == OPENED
  }

  /** The cutoffs that a stream cannot tell apart. */
  predicate Roomy(limit: nat) {
    MAX_MESSAGE + 5 <= limit < 0x1_0000 + 5
  }

  /** The machine over the bytes of one piece and the frame character that ends it. */
  function PieceOutcome(buf: seq<byte>, limit: nat, d: Option<seq<byte>>): Outcome {
    if d.Some? && |buf| + |d.value| <= limit then Close(buf + d.value) else Quiet(OPENED)
  }

  lemma {:induction false} RunWaiting(limit: nat, rx: Rx, t: seq<byte>)
    requires rx.state == WaitingForSync && FlagFree(t)
    ensures Run(limit, rx, t) == Quiet(rx)
    ensures Run(limit, rx, t + [FRAME_CHAR]) == Quiet(OPENED)
  {
    if t == [] {
      assert t + [FRAME_CHAR] == [FRAME_CHAR];
      assert [FRAME_CHAR][1..] == [];
    } else {
      RunWaiting(limit, rx, t[1..]);
      assert (t + [FRAME_CHAR])[1..] == t[1..] + [FRAME_CHAR];
    }
  }

  lemma {:induction false} RunPiece(limit: nat, buf: seq<byte>, t: seq<byte>)
    requires FlagFree(t) && (t == [] ==> |buf| <= limit)
    ensures Run(limit, Rx(Body, buf), t + [FRAME_CHAR]) == PieceOutcome(buf, limit, Unstuff(t))
    decreases |t|, 0
  {
    hide Validate;
    var rx, s := Rx(Body, buf), t + [FRAME_CHAR];
    if t == [] {
      assert s == [FRAME_CHAR] && s[1..] == [] && buf + [] == buf;
    } else {
      assert s[1..] == t[1..] + [FRAME_CHAR];
      if t[0] == ESCAPE_CHAR {
        assert t == [ESCAPE_CHAR] + t[1..];
        RunEscaped(limit, buf, t[1..]);
      } else {
        RunContent(limit, buf, t[0], t[1..]);
      }
    }
  }

  /** The rest of a piece after an escape character. */
  lemma {:induction false} RunEscaped(limit: nat, buf: seq<byte>, t: seq<byte>)
    requires FlagFree(t)
    ensures Run(limit, Rx(Escape, buf), t + [FRAME_CHAR]) == PieceOutcome(buf, limit, Unstuff([ESCAPE_CHAR] + t))
    decreases |t|, 2
  {
    hide Validate;
    var s := t + [FRAME_CHAR];
    if t == [] {
      assert s == [FRAME_CHAR] && s[1..] == [];
    } else {
      assert s[1..] == t[1..] + [FRAME_CHAR];
      assert ([ESCAPE_CHAR] + t)[2..] == t[1..];
      if IsEscapeCode(t[0]) {
        RunContent(limit, buf, t[0] + 0x20, t[1..]);
      } else {
        RunWaiting(limit, Rx(WaitingForSync, buf), t[1..]);
      }
    }
  }

  /** One content byte is collected, then the rest of the piece runs. */
  lemma {:induction false} RunContent(limit: nat, buf: seq<byte>, b: byte, t: seq<byte>)
    requires FlagFree(t)
    ensures Run(limit, Collect(limit, buf, b), t + [FRAME_CHAR]) == PieceOutcome(buf, limit, Prepend(b, Unstuff(t)))
    decreases |t|, 1
  {
    hide Validate;
    if |buf| + 1 > limit {
      RunWaiting(limit, Collect(limit, buf, b), t);
    } else {
      RunPiece(limit, buf + [b], t);
      if Unstuff(t).Some? {
        assert buf + [b] + Unstuff(t).value == buf + ([b] + Unstuff(t).value);
      }
    }
  }

  // ------------------------------------------------------------ the machine implements the parser

  /** A complete piece in an open frame. */
  lemma ClosePiece(limit: nat, t: seq<byte>)
    requires Roomy(limit) && FlagFree(t)
    ensures PieceOutcome([FRAME_CHAR], limit, Unstuff(t)) ==
            match Decode(t) case None => Quiet(OPENED) case Some(m) => Outcome(Rx(WaitingForSync, m), [m])
  {
    hide Interior, Validate;
    if Unstuff(t).Some? {
      var d := Unstuff(t).value;
      if |d| + 1 <= limit {
        var full := [FRAME_CHAR] + d + [FRAME_CHAR];
        ValidateIsPayload(FRAME_CHAR, d, FRAME_CHAR);
        if |d| >= 4 {
          assert full[3..|full| - 3] == d[2..|d| - 2];
        }
      }
    }
  }

  lemma {:induction false} NoFlagNoPacket(limit: nat, rx: Rx, t: seq<byte>)
    requires FlagFree(t)
    ensures Run(limit, rx, t).packets == []
    decreases |t|
  {
    if t != [] {
      NoFlagNoPacket(limit, Step(limit, rx, t[0]).rx, t[1..]);
    }
  }

  /** One piece from a clean receiver: what is delivered, and in which clean state it ends. */
  lemma CleanPiece(limit: nat, rx: Rx, t: seq<byte>)
    requires Roomy(limit) && Clean(rx) && FlagFree(t)
    ensures Run(limit, rx, t + [FRAME_CHAR]) ==
            if rx == OPENED && Decode(t).Some?
            then Outcome(Rx(WaitingForSync, Decode(t).value), [Decode(t).value])
            else Quiet(OPENED)
  {
    hide Decode, Run, PieceOutcome;
    if rx == OPENED {
      RunPiece(limit, [FRAME_CHAR], t);
      ClosePiece(limit, t);
    } else {
      RunWaiting(limit, rx, t);
    }
  }

  /** Every stream: the packets the machine delivers are those of the parser. */
  lemma {:induction false} Refines(limit: nat, rx: Rx, s: seq<byte>)
    requires Roomy(limit) && Clean(rx)
    ensures Run(limit, rx, s).packets == Parse(rx == OPENED, s)
    decreases |s|
  {
    hide Decode, Run;
    var n := FirstFlag(s);
    if n == |s| {
      NoFlagNoPacket(limit, rx, s);
    } else {
      var t, rest := s[..n], s[n + 1..];
      assert s == (t + [FRAME_CHAR]) + rest;
      CleanPiece(limit, rx, t);
      var r := Run(limit, rx, t + [FRAME_CHAR]);
      RunAppend(limit, rx, t + [FRAME_CHAR], rest);
      Refines(limit, r.rx, rest);
    }
  }

  // ------------------------------------------------------------ the cutoff

  /** After a frame character two machines with different cutoffs are in the same state. */
  lemma {:induction false} SameAfterFlag(l1: nat, l2: nat, rx: Rx, s: seq<byte>)
    requires Roomy(l1) && Roomy(l2) && Clean(rx)
    ensures Run(l1, rx, s + [FRAME_CHAR]) == Run(l2, rx, s + [FRAME_CHAR])
    decreases |s|
  {
    hide Decode, Run;
    var n := FirstFlag(s);
    var t := s[..n];
    CleanPiece(l1, rx, t);
    CleanPiece(l2, rx, t);
    if n == |s| {
      assert t == s;
    } else {
      var r, rest := Run(l1, rx, t + [FRAME_CHAR]), s[n + 1..] + [FRAME_CHAR];
      assert s + [FRAME_CHAR] == (t + [FRAME_CHAR]) + rest;
      RunAppend(l1, rx, t + [FRAME_CHAR], rest);
      RunAppend(l2, rx, t + [FRAME_CHAR], rest);
      SameAfterFlag(l1, l2, r.rx, s[n + 1..]);
    }
  }

  /** The frame of one message from a receiver outside a frame, whatever the cutoff. */
  lemma RunEncode(limit: nat, rx: Rx, m: Packet)
    requires rx.state == WaitingForSync
    ensures Run(limit, rx, Encode(m)) == PieceOutcome([FRAME_CHAR], limit, Some(Interior(SERIAL_REV, m)))
  {
    hide Interior, PieceOutcome;
    var d := Interior(SERIAL_REV, m);
    var piece := Stuff(d) + [FRAME_CHAR];
    StuffFlagFree(d);
    UnstuffStuff(d);
    StuffLength(d);
    assert Encode(m)[1..] == piece;
    RunPiece(limit, [FRAME_CHAR], Stuff(d));
  }

  /** The longest deliverable message shows a cutoff that is too low. */
  lemma TightCutoffLosesAFrame(limit: nat, rx: Rx, m: Packet)
    requires rx.state == WaitingForSync && |m| == MAX_MESSAGE && limit < MAX_MESSAGE + 5
    ensures Run(limit, rx, Encode(m)).packets == []
  {
    hide Interior;
    RunEncode(limit, rx, m);
  }

  /** A message of 65536 bytes, whose size comes round to its byte count, shows one that is too high. */
  lemma LooseCutoffLetsTheSizeWrap(limit: nat, rx: Rx, m: Packet)
    requires rx.state == WaitingForSync && |m| == 0x1_0000 && limit >= 0x1_0000 + 5
    ensures Run(limit, rx, Encode(m)).packets == [m]
  {
    hide Run, Fcs.Fcs;
    RunEncode(limit, rx, m);
    var d := Interior(SERIAL_REV, m);
    var full := [FRAME_CHAR] + d + [FRAME_CHAR];
    InteriorIff(d);
    InteriorParts(SERIAL_REV, m);
    SizeByteValue(|m|);
    assert full[1..|full| - 3] == d[..|d| - 2];
    assert full[3..|full| - 3] == d[2..|d| - 2];
  }

  /** The cutoff of 550 is invisible, and so is any other from 260 up to 65540 -- and no other. */
  lemma CutoffExact(limit: nat)
    ensures Roomy(limit) <==>
            forall rx, s :: Clean(rx) ==> Run(limit, rx, s).packets == Run(RX_LIMIT, rx, s).packets
  {
    hide Run, Parse, Encode;
    if Roomy(limit) {
      forall rx, s | Clean(rx)
        ensures Run(limit, rx, s).packets == Run(RX_LIMIT, rx, s).packets
      {
        Refines(limit, rx, s);
        Refines(RX_LIMIT, rx, s);
      }
    } else {
      var rx := Rx(WaitingForSync, []);
      var m: Packet := seq(if limit < MAX_MESSAGE + 5 then MAX_MESSAGE else 0x1_0000, _ => 0);
      Refines(RX_LIMIT, rx, Encode(m));
      ParseEncode(false, m, []);
      assert Encode(m) + [] == Encode(m);
      if limit < MAX_MESSAGE + 5 {
        TightCutoffLosesAFrame(limit, rx, m);
      } else {
        LooseCutoffLetsTheSizeWrap(limit, rx, m);
      }
      assert Run(limit, rx, Encode(m)).packets != Run(RX_LIMIT, rx, Encode(m)).packets by {
        ParseNothing(false);
        ParseNothing(true);
      }
    }
  }

  lemma ParseNothing(open: bool)
    ensures Parse(open, []) == []
  {}

  lemma OrdinaryIsFlagFree(t: seq<byte>)
    requires t != [] && forall i :: 0 <= i < |t| ==> !IsSpecial(t[i])
    ensures FlagFree(t[1..]) && forall i :: 0 <= i < |t[1..]| ==> !IsSpecial(t[1..][i])
  {}

  lemma PlainByte(limit: nat, buf: seq<byte>, t: seq<byte>)
    requires t != [] && !IsSpecial(t[0])
    ensures Run(limit, Rx(Body, buf), t) == Run(limit, Collect(limit, buf, t[0]), t[1..])
  {
    var r := Run(limit, Collect(limit, buf, t[0]), t[1..]);
    assert [] + r.packets == r.packets;
  }

  /** Plain content is collected up to the limit ... */
  lemma {:induction false} CollectsUpTo(limit: nat, buf: seq<byte>, t: seq<byte>)
    requires |buf| + |t| <= limit && forall i :: 0 <= i < |t| ==> !IsSpecial(t[i])
    ensures Run(limit, Rx(Body, buf), t) == Quiet(Rx(Body, buf + t))
    decreases |t|
  {
    if t == [] {
      assert buf + [] == buf;
    } else {
      OrdinaryIsFlagFree(t);
      PlainByte(limit, buf, t);
      hide Run, IsSpecial, FlagFree;
      CollectsUpTo(limit, buf + [t[0]], t[1..]);
      assert buf + [t[0]] + t[1..] == buf + t;
    }
  }

  /** ... and one byte beyond it ends the frame. */
  lemma GivesUpBeyond(limit: nat, buf: seq<byte>, t: seq<byte>)
    requires |buf| <= limit < |buf| + |t| && forall i :: 0 <= i < |t| ==> !IsSpecial(t[i])
    ensures Run(limit, Rx(Body, buf), t) == Quiet(Rx(WaitingForSync, buf + t[..limit + 1 - |buf|]))
  {
    hide Run;
    var k := limit - |buf|;
    var first, rest := t[..k], t[k..];
    assert t == first + rest && rest[0] == t[k];
    CollectsUpTo(limit, buf, first);
    RunAppend(limit, Rx(Body, buf), first, rest);
    PlainByte(limit, buf + first, rest);
    OrdinaryIsFlagFree(rest);
    hide IsSpecial, FlagFree;
    RunWaiting(limit, Rx(WaitingForSync, buf + first + [t[k]]), rest[1..]);
    assert buf + first + [t[k]] == buf + t[..k + 1];
  }

  /** The receiver gives a frame up with the 551st byte, the opening one included. */
  lemma GivesUpExactly(t: seq<byte>)
    requires forall i :: 0 <= i < |t| ==> t[i] != 0x7e && t[i] != 0x7d
    ensures var rx := Run(RX_LIMIT, OPENED, t).rx;
            && (rx.state == Body <==> |t| <= 549)
            && (|t| <= 549 ==> rx.inProgress == [0x7e] + t)
            && (|t| >= 550 ==> rx.state == WaitingForSync && rx.inProgress == [0x7e] + t[..550])
  {
    hide Run;
    if |t| <= 549 {
      CollectsUpTo(RX_LIMIT, [FRAME_CHAR], t);
    } else {
      GivesUpBeyond(RX_LIMIT, [FRAME_CHAR], t);
    }
  }

  // ------------------------------------------------------------ round trips

  /** The messages of a list that the receiver delivers. */
  function Sieve(ms: seq<Packet>): seq<Packet> {
    if ms == [] then [] else (if Deliverable(ms[0]) then [ms[0]] else []) + Sieve(ms[1..])
  }

  lemma {:induction false} FirstFlagAt(t: seq<byte>, rest: seq<byte>)
    requires FlagFree(t)
    ensures FirstFlag(t + [FRAME_CHAR] + rest) == |t|
    decreases |t|
  {
    if t != [] {
      FirstFlagAt(t[1..], rest);
      assert (t + [FRAME_CHAR] + rest)[1..] == t[1..] + [FRAME_CHAR] + rest;
    }
  }

  lemma ParsePiece(open: bool, t: seq<byte>, rest: seq<byte>)
    requires FlagFree(t)
    ensures Parse(open, t + [FRAME_CHAR] + rest) ==
            if open && Decode(t).Some? then [Decode(t).value] + Parse(false, rest) else Parse(true, rest)
  {
    hide Decode, FirstFlag;
    var s := t + [FRAME_CHAR] + rest;
    FirstFlagAt(t, rest);
    assert s[..|t|] == t && s[|t| + 1..] == rest;
  }

  /** A piece between two frame characters, whatever went before. */
  lemma ParseFramed(open: bool, t: seq<byte>, rest: seq<byte>)
    requires FlagFree(t)
    ensures Parse(open, [FRAME_CHAR] + t + [FRAME_CHAR] + rest) ==
            if Decode(t).Some? then [Decode(t).value] + Parse(false, rest) else Parse(true, rest)
  {
    hide Parse, Payload;
    var after := t + [FRAME_CHAR] + rest;
    assert [FRAME_CHAR] + t + [FRAME_CHAR] + rest == [] + [FRAME_CHAR] + after;
    ParsePiece(open, [], after);
    assert Decode([]).None? by { NothingDecodesFromNothing(); }
    ParsePiece(true, t, rest);
  }

  lemma NothingDecodesFromNothing()
    ensures Decode([]).None?
  {}

  lemma ParseEncode(open: bool, m: Packet, rest: seq<byte>)
    ensures Parse(open, Encode(m) + rest) ==
            if Deliverable(m) then [m] + Parse(false, rest) else Parse(true, rest)
  {
    hide Parse, Decode, Interior;
    var t := Stuff(Interior(SERIAL_REV, m));
    StuffFlagFree(Interior(SERIAL_REV, m));
    DecodeStuffed(SERIAL_REV, m);
    ParseFramed(open, t, rest);
  }

  /** Whether a frame is open after the frames of these messages. */
  function OpenAfter(open: bool, ms: seq<Packet>): bool {
    if ms == [] then open else !Deliverable(ms[|ms| - 1])
  }

  lemma {:induction false} ParseEncodeAll(open: bool, ms: seq<Packet>, rest: seq<byte>)
    ensures Parse(open, EncodeAll(ms) + rest) == Sieve(ms) + Parse(OpenAfter(open, ms), rest)
    decreases |ms|
  {
    hide Parse, Encode;
    if ms == [] {
      assert EncodeAll(ms) + rest == rest;
    } else {
      assert EncodeAll(ms) + rest == Encode(ms[0]) + (EncodeAll(ms[1..]) + rest);
      ParseEncode(open, ms[0], EncodeAll(ms[1..]) + rest);
      ParseEncodeAll(!Deliverable(ms[0]), ms[1..], rest);
      var first, last := Sieve(ms[..1]), Parse(OpenAfter(open, ms), rest);
      assert OpenAfter(!Deliverable(ms[0]), ms[1..]) == OpenAfter(open, ms);
      assert first + (Sieve(ms[1..]) + last) == (first + Sieve(ms[1..])) + last;
    }
  }

  /** Messages of any lengths, one frame after the other, to a clean receiver:
   *  those of 5 to 255 bytes arrive, in order, and no other does. */
  lemma RoundTrip(limit: nat, rx: Rx, ms: seq<Packet>)
    requires Roomy(limit) && Clean(rx)
    ensures Run(limit, rx, EncodeAll(ms)).packets == Sieve(ms)
  {
    hide Run, Parse;
    Refines(limit, rx, EncodeAll(ms));
    ParseEncodeAll(rx == OPENED, ms, []);
    assert EncodeAll(ms) + [] == EncodeAll(ms);
    ParseNothing(OpenAfter(rx == OPENED, ms));
  }

  /** One message arrives exactly if it has 5 to 255 bytes. */
  lemma DeliveredExactly(limit: nat, rx: Rx, m: Packet)
    requires Roomy(limit) && Clean(rx)
    ensures Run(limit, rx, Encode(m)).packets == if 5 <= |m| <= 255 then [m] else []
  {
    hide Run, Encode;
    RoundTrip(limit, rx, [m]);
    assert [m][1..] == [];
    assert EncodeAll([m]) == Encode(m) + [] == Encode(m);
  }

  lemma EncodeEndsClean(limit: nat, rx: Rx, m: Packet)
    requires Roomy(limit) && Clean(rx)
    ensures Clean(Run(limit, rx, Encode(m)).rx)
  {
    hide Interior, Run, Decode;
    var t := Stuff(Interior(SERIAL_REV, m));
    StuffFlagFree(Interior(SERIAL_REV, m));
    CleanPiece(limit, rx, []);
    NothingDecodesFromNothing();
    CleanPiece(limit, OPENED, t);
    assert Encode(m) == ([] + [FRAME_CHAR]) + (t + [FRAME_CHAR]);
    RunAppend(limit, rx, [] + [FRAME_CHAR], t + [FRAME_CHAR]);
  }

  /** ... and the receiver ends clean. */
  lemma {:induction false} RoundTripEndsClean(limit: nat, rx: Rx, ms: seq<Packet>)
    requires Roomy(limit) && Clean(rx)
    ensures Clean(Run(limit, rx, EncodeAll(ms)).rx)
    decreases |ms|
  {
    hide Encode;
    if ms != [] {
      EncodeEndsClean(limit, rx, ms[0]);
      RunAppend(limit, rx, Encode(ms[0]), EncodeAll(ms[1..]));
      RoundTripEndsClean(limit, Run(limit, rx, Encode(ms[0])).rx, ms[1..]);
    }
  }
}
