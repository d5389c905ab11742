/** What the receiver makes of whole streams: recovery, damage, relaying, and where packets come from. */
module Streams {
  import opened Bytes
  import opened Fcs
  import opened Stuffing
  import opened Frame
  import opened Detection
  import opened BitErrors
  import opened Receiver

  // ------------------------------------------------------------ self-stabilisation

  /** The receiver is one frame character away from a delivery. */
  predicate Completes(rx: Rx) {
    rx.state == Body && Validate(rx.inProgress + [FRAME_CHAR])
  }

  lemma OpeningFlag(limit: nat, rx: Rx)
    ensures Run(limit, rx, [FRAME_CHAR]) ==
            if Completes(rx)
            then var p := rx.inProgress[3..|rx.inProgress| - 2]; Outcome(Rx(WaitingForSync, p), [p])
            else Quiet(OPENED)
  {
    hide Validate;
    assert [FRAME_CHAR][1..] == [];
    if Completes(rx) {
      assert |rx.inProgress| >= 10 by { ValidSize(rx.inProgress + [FRAME_CHAR]); }
      var full := rx.inProgress + [FRAME_CHAR];
      assert full[3..|full| - 3] == rx.inProgress[3..|rx.inProgress| - 2];
    }
  }

  /** The frames of a list of messages, after the flag that opens the first. */
  lemma ParseAfterOpening(open: bool, m: Packet, ms: seq<Packet>)
    ensures Parse(open, Stuff(Interior(SERIAL_REV, m)) + [FRAME_CHAR] + EncodeAll(ms)) ==
            (if open && Deliverable(m) then [m] else []) + Sieve(ms)
  {
    hide Parse, Decode, Interior, EncodeAll;
    var t, rest := Stuff(Interior(SERIAL_REV, m)), EncodeAll(ms);
    StuffFlagFree(Interior(SERIAL_REV, m));
    ParsePiece(open, t, rest);
    DecodeStuffed(SERIAL_REV, m);
    ParseAll(true, ms);
    ParseAll(false, ms);
  }

  lemma ParseAll(open: bool, ms: seq<Packet>)
    ensures Parse(open, EncodeAll(ms)) == Sieve(ms)
  {
    hide Parse, EncodeAll;
    assert EncodeAll(ms) + [] == EncodeAll(ms);
    ParseEncodeAll(open, ms, []);
    ParseNothing(OpenAfter(open, ms));
  }

  lemma EncodeAllOpens(ms: seq<Packet>)
    requires ms != []
    ensures EncodeAll(ms) ==
            [FRAME_CHAR] + (Stuff(Interior(SERIAL_REV, ms[0])) + [FRAME_CHAR] + EncodeAll(ms[1..]))
  {
    hide Stuff, Interior;
  }

  /** From any state with any bytes collected: either every message that follows is treated as if the
   *  receiver had been clean, or the opening flag completes one packet and costs the first message. */
  lemma Recovery(limit: nat, rx: Rx, ms: seq<Packet>)
    requires Roomy(limit) && ms != []
    ensures Run(limit, rx, EncodeAll(ms)).packets ==
            if Completes(rx)
            then [rx.inProgress[3..|rx.inProgress| - 2]] + Sieve(ms[1..])
            else Sieve(ms)
  {
    hide Run, Parse, Interior, Validate, EncodeAll, Stuff;
    var after := Stuff(Interior(SERIAL_REV, ms[0])) + [FRAME_CHAR] + EncodeAll(ms[1..]);
    assert EncodeAll(ms) == [FRAME_CHAR] + after by { EncodeAllOpens(ms); }
    OpeningFlag(limit, rx);
    RunAppend(limit, rx, [FRAME_CHAR], after);
    var rx' := Run(limit, rx, [FRAME_CHAR]).rx;
    Refines(limit, rx', after);
    ParseAfterOpening(rx' == OPENED, ms[0], ms[1..]);
    var rest := Run(limit, rx', after).packets;
    if Completes(rx) {
      assert rx' != OPENED;
      assert rest == Sieve(ms[1..]);
    } else {
      assert rest == Sieve(ms);
      assert [] + rest == rest;
    }
  }

  // ------------------------------------------------------------ damage

  /** Changes of an interior that the check is certain to notice. */
  ghost predicate Noticeable(d: seq<byte>, u: seq<byte>) {
    || OneByteApart(d, u)
    || (|d| == |u| && Odd(Difference(d, u)))
    || (exists i, m :: WindowBurst(d, u, i, m))
    || (u != d && exists ps :: FewFlips(d, ps) && u == Flips(d, ps))
  }

  /** The two differ by a burst of at most sixteen bits in three bytes that the check covers. */
  ghost predicate WindowBurst(d: seq<byte>, u: seq<byte>, i: nat, m: byte) {
    && |d| == |u| && i + 5 <= |d| && d != u
    && u[..i] == d[..i] && u[i + 3..] == d[i + 3..]
    && BurstAt(Difference(d[i..i + 3], u[i..i + 3]), m)
  }

  predicate FewFlips(d: seq<byte>, ps: seq<nat>) {
    |ps| <= 3 && forall i :: 0 <= i < |ps| ==> ps[i] < 8 * |d|
  }

  lemma NoticeableIsRefused(m: Packet, u: seq<byte>)
    requires Noticeable(Interior(SERIAL_REV, m), u)
    ensures Payload(u).None?
  {
    hide Fcs.Fcs, Payload, Odd, Difference, BurstAt, Flips;
    var d := Interior(SERIAL_REV, m);
    PayloadInterior(SERIAL_REV, m);
    if !Deliverable(m) {
      if Payload(u).Some? {
        PayloadSize(u);
      }
    } else if OneByteApart(d, u) {
      OneByteDetected(d, u);
    } else if |d| == |u| && Odd(Difference(d, u)) {
      OddErrorDetected(d, u);
    } else if ps :| FewFlips(d, ps) && u == Flips(d, ps) && u != d {
      ThreeFlipsRefused(d, ps);
    } else {
      var i: nat, k: byte :| WindowBurst(d, u, i, k);
      BurstDetected(d, u, i, k);
    }
  }

  function Optional(m: Option<Packet>): seq<Packet> {
    if m.Some? then [m.value] else []
  }

  /** A frame with any content between any others. */
  lemma AnyPiece(limit: nat, rx: Rx, before: seq<Packet>, t: seq<byte>, after: seq<Packet>)
    requires Roomy(limit) && Clean(rx) && FlagFree(t)
    ensures Run(limit, rx, EncodeAll(before) + ([FRAME_CHAR] + t + [FRAME_CHAR]) + EncodeAll(after)).packets
         == Sieve(before) + Optional(Decode(t)) + Sieve(after)
  {
    hide Run, Parse, Decode, Encode;
    var open, rest := rx == OPENED, EncodeAll(after);
    var piece := [FRAME_CHAR] + t + [FRAME_CHAR];
    Refines(limit, rx, EncodeAll(before) + piece + rest);
    assert EncodeAll(before) + piece + rest == EncodeAll(before) + (piece + rest);
    ParseEncodeAll(open, before, piece + rest);
    ParseFramed(OpenAfter(open, before), t, rest);
    ParseAll(true, after);
    ParseAll(false, after);
  }

  /** A frame whose piece does not decode costs nothing but itself. */
  lemma DamageIsContained(limit: nat, rx: Rx, before: seq<Packet>, t: seq<byte>, after: seq<Packet>)
    requires Roomy(limit) && Clean(rx) && FlagFree(t) && Decode(t).None?
    ensures Run(limit, rx, EncodeAll(before) + ([FRAME_CHAR] + t + [FRAME_CHAR]) + EncodeAll(after)).packets
         == Sieve(before) + Sieve(after)
  {
    hide Run, Decode, EncodeAll, Sieve;
    AnyPiece(limit, rx, before, t, after);
    assert Sieve(before) + [] == Sieve(before);
  }

  /** A frame whose content was changed noticeably is dropped; the frames around it arrive. */
  lemma NoticeableDamageIsContained(limit: nat, rx: Rx, before: seq<Packet>, m: Packet, u: seq<byte>,
                                    after: seq<Packet>)
    requires Roomy(limit) && Clean(rx) && Noticeable(Interior(SERIAL_REV, m), u)
    ensures Run(limit, rx, EncodeAll(before) + ([FRAME_CHAR] + Stuff(u) + [FRAME_CHAR]) + EncodeAll(after)).packets
         == Sieve(before) + Sieve(after)
  {
    hide Run, Noticeable, Payload;
    NoticeableIsRefused(m, u);
    StuffFlagFree(u);
    UnstuffStuff(u);
    DamageIsContained(limit, rx, before, Stuff(u), after);
  }

  lemma OneByteIsNoticeable(d: seq<byte>, u: seq<byte>)
    requires OneByteApart(d, u)
    ensures Noticeable(d, u)
  {}

  // ------------------------------------------------------------ relaying

  lemma {:induction false} ParseDelivers(open: bool, s: seq<byte>)
    ensures forall m :: m in Parse(open, s) ==> Deliverable(m)
    decreases |s|
  {
    hide Interior, Unstuff;
    var n := FirstFlag(s);
    if n < |s| {
      ParseDelivers(false, s[n + 1..]);
      ParseDelivers(true, s[n + 1..]);
    }
  }

  lemma {:induction false} SieveKeepsAll(ms: seq<Packet>)
    requires forall m :: m in ms ==> Deliverable(m)
    ensures Sieve(ms) == ms
  {
    if ms != [] {
      SieveKeepsAll(ms[1..]);
    }
  }

  /** Whatever was received, sending it on and receiving it again gives the same packets. */
  lemma RelayIsTransparent(limit: nat, rx: Rx, s: seq<byte>, rx': Rx)
    requires Roomy(limit) && Clean(rx) && Clean(rx')
    ensures var ps := Run(limit, rx, s).packets; Run(limit, rx', EncodeAll(ps)).packets == ps
  {
    hide Run, Parse;
    Refines(limit, rx, s);
    ParseDelivers(rx == OPENED, s);
    var ps := Run(limit, rx, s).packets;
    SieveKeepsAll(ps);
    RoundTrip(limit, rx', ps);
  }

  // ------------------------------------------------------------ provenance

  /** Positions i and j of a stream hold successive frame characters with a frame of `p` between them. */
  ghost predicate FrameAt(s: seq<byte>, i: int, j: int, p: Packet) {
    && 0 <= i < j < |s| && s[i] == FRAME_CHAR && s[j] == FRAME_CHAR
    && FlagFree(s[i + 1..j]) && Deliverable(p)
    && exists rev :: s[i + 1..j] == Stuff(Interior(rev, p))
  }

  /** Each packet has its own frame in the stream, in order, and no two share a frame character. */
  ghost predicate Accounts(s: seq<byte>, marks: seq<(int, int)>, ps: seq<Packet>) {
    && |marks| == |ps|
    && (forall k :: 0 <= k < |ps| ==> FrameAt(s, marks[k].0, marks[k].1, ps[k]))
    && (forall k :: 0 < k < |ps| ==> marks[k - 1].1 < marks[k].0)
  }

  lemma AccountsFor(s: seq<byte>, mark: (int, int), marks: seq<(int, int)>, p: Packet, ps: seq<Packet>)
    requires FrameAt(s, mark.0, mark.1, p) && Accounts(s, marks, ps)
    requires marks != [] ==> mark.1 < marks[0].0
    ensures Accounts(s, [mark] + marks, [p] + ps)
  {
    hide FrameAt;
    var marks', ps' := [mark] + marks, [p] + ps;
    forall k | 0 <= k < |ps'|
      ensures FrameAt(s, marks'[k].0, marks'[k].1, ps'[k])
    {
      if k > 0 {
        assert marks'[k] == marks[k - 1] && ps'[k] == ps[k - 1];
      }
    }
  }

  lemma ParseUnfold(open: bool, s: seq<byte>)
    ensures var n := FirstFlag(s);
            Parse(open, s) ==
            if n == |s| then []
            else if open && Decode(s[..n]).Some? then [Decode(s[..n]).value] + Parse(false, s[n + 1..])
            else Parse(true, s[n + 1..])
  {
    hide Decode;
  }

  /** Parsing from position `o` on; an open frame begins just before it. */
  lemma {:induction false} ProvenanceFrom(open: bool, s: seq<byte>, o: nat) returns (marks: seq<(int, int)>)
    requires o <= |s| && (open ==> o > 0 && s[o - 1] == FRAME_CHAR)
    ensures Accounts(s, marks, Parse(open, s[o..]))
    ensures marks != [] ==> marks[0].0 >= if open then o - 1 else o
    decreases |s| - o
  {
    hide Decode, FrameAt, FlagFree, Parse;
    var n := FirstFlag(s[o..]);
    ParseUnfold(open, s[o..]);
    if o + n == |s| {
      marks := [];
    } else {
      hide Accounts;
      var t := s[o..o + n];
      assert s[o..][..n] == t;
      assert s[o..][n + 1..] == s[o + n + 1..];
      assert s[o..][n] == s[o + n];
      if open && Decode(t).Some? {
        DecodedFrame(s, o - 1, o + n, Decode(t).value);
        marks := ProvenanceFrom(false, s, o + n + 1);
        AccountsFor(s, (o - 1, o + n), marks, Decode(t).value, Parse(false, s[o + n + 1..]));
        marks := [(o - 1, o + n)] + marks;
      } else {
        marks := ProvenanceFrom(true, s, o + n + 1);
      }
    }
  }

  lemma DecodedFrame(s: seq<byte>, i: int, j: int, p: Packet)
    requires 0 <= i < j < |s| && s[i] == FRAME_CHAR && s[j] == FRAME_CHAR
    requires FlagFree(s[i + 1..j]) && Decode(s[i + 1..j]) == Some(p)
    ensures FrameAt(s, i, j, p)
  {
    hide Decode, Interior;
    DecodeExactly(s[i + 1..j], p);
  }

  /** Everything delivered stood on the wire as a well-formed frame of its own. */
  lemma Provenance(limit: nat, rx: Rx, s: seq<byte>)
    requires Roomy(limit) && rx.state == WaitingForSync
    ensures exists marks :: Accounts(s, marks, Run(limit, rx, s).packets)
  {
    hide Run, Parse, Accounts;
    Refines(limit, rx, s);
    var marks := ProvenanceFrom(false, s, 0);
    assert s[0..] == s;
  }

  // ------------------------------------------------------------ the receiver's invariant

  /** The bytes after the last frame character. */
  function LastPiece(s: seq<byte>): seq<byte>
    decreases |s|
  {
    if FlagFree(s) then s else LastPiece(s[FirstFlag(s) + 1..])
  }

  lemma {:induction false} LastPieceExtends(s: seq<byte>, b: byte)
    ensures LastPiece(s + [b]) == if b == FRAME_CHAR then [] else LastPiece(s) + [b]
    decreases |s|
  {
    var s' := s + [b];
    if FlagFree(s) {
      if b == FRAME_CHAR {
        FirstFlagAt(s, []);
        assert s + [FRAME_CHAR] + [] == s' && s'[|s|] == FRAME_CHAR;
        assert s'[|s| + 1..] == [];
      } else {
        assert FlagFree(s');
      }
    } else {
      var n := FirstFlag(s);
      assert s == s[..n] + [FRAME_CHAR] + s[n + 1..];
      FirstFlagAt(s[..n], s[n + 1..] + [b]);
      assert s' == s[..n] + [FRAME_CHAR] + (s[n + 1..] + [b]);
      assert s'[n] == FRAME_CHAR && s'[n + 1..] == s[n + 1..] + [b];
      LastPieceExtends(s[n + 1..], b);
    }
  }

  /** The collected bytes are a frame character and the content of the last piece so far. */
  predicate Collected(limit: nat, buf: seq<byte>, t: seq<byte>) {
    |buf| <= limit && Unstuff(t).Some? && buf == [FRAME_CHAR] + Unstuff(t).value
  }

  predicate Consistent(limit: nat, rx: Rx, s: seq<byte>) {
    var t := LastPiece(s);
    match rx.state
    case WaitingForSync => |rx.inProgress| <= limit + 1
    case Body => !FlagFree(s) && Collected(limit, rx.inProgress, t)
    case Escape =>
      !FlagFree(s) && t != [] && t[|t| - 1] == ESCAPE_CHAR && Collected(limit, rx.inProgress, t[..|t| - 1])
  }

  /** How many bytes the first escape unit takes, and what it stands for. */
  function UnitSize(t: seq<byte>): nat
    requires t != []
  {
    if t[0] == ESCAPE_CHAR then 2 else 1
  }

  function UnitContent(t: seq<byte>): byte
    requires t != [] && |t| >= UnitSize(t)
  {
    if t[0] == ESCAPE_CHAR then t[1] + 0x20 else t[0]
  }

  lemma UnstuffFirstUnit(t: seq<byte>, u: seq<byte>)
    requires t != [] && Unstuff(t).Some?
    ensures |t| >= UnitSize(t) && Unstuff(t + u) == Prepend(UnitContent(t), Unstuff(t[UnitSize(t)..] + u))
  {
    assert (t + u)[UnitSize(t)..] == t[UnitSize(t)..] + u;
  }

  lemma {:induction false} UnstuffAppend(t: seq<byte>, u: seq<byte>)
    requires Unstuff(t).Some? && Unstuff(u).Some?
    ensures Unstuff(t + u) == Some(Unstuff(t).value + Unstuff(u).value)
    decreases |t|
  {
    hide Unstuff, UnitContent;
    var w := Unstuff(u).value;
    if t == [] {
      UnstuffNothing();
      assert t + u == u && [] + w == w;
    } else {
      UnstuffFirstUnit(t, u);
      var rest := t[UnitSize(t)..];
      UnstuffFirstUnit(t, []);
      assert t + [] == t && rest + [] == rest;
      UnstuffAppend(rest, u);
      assert [UnitContent(t)] + (Unstuff(rest).value + w) == ([UnitContent(t)] + Unstuff(rest).value) + w;
    }
  }

  lemma UnstuffOneUnit(b: byte)
    ensures b != ESCAPE_CHAR ==> Unstuff([b]) == Some([b])
    ensures IsEscapeCode(b) ==> Unstuff([ESCAPE_CHAR, b]) == Some([b + 0x20])
  {
    var plain, escaped := [b], [ESCAPE_CHAR, b];
    assert plain[1..] == [] && escaped[2..] == [];
    assert Unstuff([]) == Some([]);
    assert [b] + [] == [b] && [b + 0x20] + [] == [b + 0x20];
  }

  lemma UnstuffExtends(t: seq<byte>, b: byte)
    requires Unstuff(t).Some?
    ensures b != ESCAPE_CHAR ==> Unstuff(t + [b]) == Some(Unstuff(t).value + [b])
    ensures IsEscapeCode(b) ==> Unstuff(t + [ESCAPE_CHAR, b]) == Some(Unstuff(t).value + [b + 0x20])
  {
    hide Unstuff;
    UnstuffOneUnit(b);
    if b != ESCAPE_CHAR {
      UnstuffAppend(t, [b]);
    }
    if IsEscapeCode(b) {
      UnstuffAppend(t, [ESCAPE_CHAR, b]);
    }
  }

  lemma BodyConsistent(limit: nat, buf: seq<byte>, s: seq<byte>, b: byte)
    requires limit > 0 && Consistent(limit, Rx(Body, buf), s)
    ensures Consistent(limit, Step(limit, Rx(Body, buf), b).rx, s + [b])
  {
    hide Validate, LastPiece, FlagFree, Unstuff;
    var t := LastPiece(s);
    LastPieceExtends(s, b);
    FlagFreeExtends(s, b);
    UnstuffExtends(t, b);
    assert (t + [b])[..|t|] == t;
    if b == FRAME_CHAR {
      UnstuffNothing();
      if Validate(buf + [FRAME_CHAR]) {
        ValidSize(buf + [FRAME_CHAR]);
      }
    }
  }

  lemma EscapeConsistent(limit: nat, buf: seq<byte>, s: seq<byte>, b: byte)
    requires limit > 0 && Consistent(limit, Rx(Escape, buf), s)
    ensures Consistent(limit, Step(limit, Rx(Escape, buf), b).rx, s + [b])
  {
    hide LastPiece, FlagFree, Unstuff;
    var t := LastPiece(s);
    var t' := t[..|t| - 1];
    LastPieceExtends(s, b);
    FlagFreeExtends(s, b);
    UnstuffExtends(t', b);
    UnstuffNothing();
    assert t + [b] == t' + [ESCAPE_CHAR, b];
  }

  lemma FlagFreeExtends(s: seq<byte>, b: byte)
    ensures FlagFree(s + [b]) <==> FlagFree(s) && b != FRAME_CHAR
  {
    assert (s + [b])[|s|] == b;
  }

  lemma UnstuffNothing()
    ensures Unstuff([]) == Some([])
  {}

  lemma StepConsistent(limit: nat, rx: Rx, s: seq<byte>, b: byte)
    requires limit > 0 && Consistent(limit, rx, s)
    ensures Consistent(limit, Step(limit, rx, b).rx, s + [b])
  {
    match rx.state
    case WaitingForSync =>
      hide LastPiece, FlagFree, Unstuff;
      LastPieceExtends(s, b);
      FlagFreeExtends(s, b);
      UnstuffNothing();
    case Body =>
      BodyConsistent(limit, rx.inProgress, s, b);
    case Escape =>
      EscapeConsistent(limit, rx.inProgress, s, b);
  }

  lemma {:induction false} RunConsistent(limit: nat, rx: Rx, s: seq<byte>, more: seq<byte>)
    requires limit > 0 && Consistent(limit, rx, s)
    ensures Consistent(limit, Run(limit, rx, more).rx, s + more)
    decreases |more|
  {
    hide Step, Consistent;
    if more == [] {
      assert s + more == s;
    } else {
      StepConsistent(limit, rx, s, more[0]);
      RunConsistent(limit, Step(limit, rx, more[0]).rx, s + [more[0]], more[1..]);
      assert s + more == s + [more[0]] + more[1..];
    }
  }

  /** After any stream: in a frame, the collected bytes are the opening flag and the content of all
   *  complete escape units since; they never exceed the cutoff, outside a frame by at most one. */
  lemma ReceiverInvariant(limit: nat, s: seq<byte>)
    requires limit > 0
    ensures Consistent(limit, Run(limit, Rx(WaitingForSync, []), s).rx, s)
  {
    RunConsistent(limit, Rx(WaitingForSync, []), [], s);
    assert [] + s == s;
  }
}
