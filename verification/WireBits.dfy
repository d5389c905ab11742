/** Bits flipped on the wire, where a flip can also make a flag or an escape, or unmake one. */
module WireBits {
  import opened Bytes
  import opened Fcs
  import opened Stuffing
  import opened Frame
  import opened Detection
  import opened BitErrors
  import opened Receiver
  import opened Streams
  import opened WireDamage

  /** What changed was neither a flag nor an escape character, and did not become one. */
  predicate OrdinaryChange(w: seq<byte>, w': seq<byte>) {
    && |w| == |w'|
    && forall j :: 0 <= j < |w| && w[j] != w'[j] ==> !IsSpecial(w[j]) && !IsSpecial(w'[j])
  }

  lemma OrdinaryTail(w: seq<byte>, w': seq<byte>)
    requires OrdinaryChange(w, w') && w != []
    ensures OrdinaryChange(w[1..], w'[1..])
    ensures BitDistance(w, w') == Ones(XorByte(w[0], w'[0])) + BitDistance(w[1..], w'[1..])
    ensures w[0] == w'[0] || (!IsSpecial(w[0]) && !IsSpecial(w'[0]))
  {
    hide IsSpecial, Ones, XorByte;
    forall j | 0 <= j < |w[1..]| && w[1..][j] != w'[1..][j]
      ensures !IsSpecial(w[1..][j]) && !IsSpecial(w'[1..][j])
    {
      assert w[j + 1] != w'[j + 1];
    }
  }

  lemma EscapedDistance(b: byte, c: byte)
    requires IsSpecial(b) && IsEscapeCode(c)
    ensures XorByte(b, c + 0x20) == XorByte(b - 0x20, c)
  {}

  lemma NoChange(b: byte)
    ensures Ones(XorByte(b, b)) == 0
  {
    hide XorByte, Ones;
    XorByteZeroIff(b, b);
    ZeroHasNoBits();
  }

  /** Bits flipped in the ordinary bytes of a stuffed sequence break an escape, or are as many flipped
   *  bits of the content. */
  lemma {:induction false} OrdinaryChangeOfStuffed(s: seq<byte>, t: seq<byte>)
    requires OrdinaryChange(Stuff(s), t)
    ensures var u := Unstuff(t);
            u.None? || (|u.value| == |s| && BitDistance(s, u.value) == BitDistance(Stuff(s), t))
  {
    hide XorByte, Ones;
    if s != [] {
      var w, b, rest := Stuff(s), s[0], s[1..];
      OrdinaryTail(w, t);
      if !IsSpecial(b) {
        assert w[1..] == Stuff(rest);
        OrdinaryChangeOfStuffed(rest, t[1..]);
      } else {
        assert w[2..] == Stuff(rest) && w[1..][1..] == w[2..] && t[1..][1..] == t[2..];
        OrdinaryTail(w[1..], t[1..]);
        OrdinaryChangeOfStuffed(rest, t[2..]);
        NoChange(ESCAPE_CHAR);
        if IsEscapeCode(t[1]) {
          EscapedDistance(b, t[1]);
        }
      }
    }
  }

  lemma {:induction false} DistanceAppend(a: seq<byte>, a': seq<byte>, b: seq<byte>, b': seq<byte>)
    requires |a| == |a'| && |b| == |b'|
    ensures BitDistance(a + b, a' + b') == BitDistance(a, a') + BitDistance(b, b')
  {
    hide Ones, XorByte;
    if a == [] {
      assert a + b == b && a' + b' == b';
    } else {
      assert (a + b)[1..] == a[1..] + b && (a' + b')[1..] == a'[1..] + b';
      DistanceAppend(a[1..], a'[1..], b, b');
    }
  }

  lemma OrdinaryMiddle(w: seq<byte>, w': seq<byte>)
    requires OrdinaryChange(w, w') && |w| >= 2
    ensures OrdinaryChange(w[1..|w| - 1], w'[1..|w| - 1])
  {
    hide IsSpecial;
    var t, t' := w[1..|w| - 1], w'[1..|w| - 1];
    forall k | 0 <= k < |t| && t[k] != t'[k]
      ensures !IsSpecial(t[k]) && !IsSpecial(t'[k])
    {
      assert w[k + 1] != w'[k + 1];
    }
  }

  lemma OrdinaryKeepsFlags(t: seq<byte>, t': seq<byte>)
    requires OrdinaryChange(t, t') && FlagFree(t)
    ensures FlagFree(t')
  {
    hide IsSpecial;
    FlagIsSpecial();
  }

  lemma DistanceFramed(t: seq<byte>, t': seq<byte>)
    requires |t| == |t'|
    ensures BitDistance([FRAME_CHAR] + t + [FRAME_CHAR], [FRAME_CHAR] + t' + [FRAME_CHAR]) == BitDistance(t, t')
  {
    hide BitDistance;
    DistanceAppend([FRAME_CHAR] + t, [FRAME_CHAR] + t', [FRAME_CHAR], [FRAME_CHAR]);
    DistanceAppend([FRAME_CHAR], [FRAME_CHAR], t, t');
    NoDistanceToItself([FRAME_CHAR]);
  }

  lemma OrdinaryChangeOfFrame(m: Packet, w: seq<byte>)
    requires OrdinaryChange(Encode(m), w)
    ensures |w| >= 2
    ensures var t, t' := Stuff(Interior(SERIAL_REV, m)), w[1..|w| - 1];
            && w == [FRAME_CHAR] + t' + [FRAME_CHAR] && FlagFree(t')
            && OrdinaryChange(t, t') && BitDistance(t, t') == BitDistance(Encode(m), w)
  {
    hide Stuff, Interior, BitDistance, IsSpecial;
    var e, t, n := Encode(m), Stuff(Interior(SERIAL_REV, m)), |w|;
    var t' := w[1..n - 1];
    StuffFlagFree(Interior(SERIAL_REV, m));
    FlagIsSpecial();
    assert e[0] == w[0] && e[n - 1] == w[n - 1];
    OrdinaryMiddle(e, w);
    hide OrdinaryChange;
    assert e[1..n - 1] == t;
    assert w == [FRAME_CHAR] + t' + [FRAME_CHAR];
    OrdinaryKeepsFlags(t, t');
    DistanceFramed(t, t');
  }

  lemma FlagIsSpecial()
    ensures IsSpecial(FRAME_CHAR)
  {}

  lemma FlipsAreRefused(m: Packet, u: seq<byte>)
    requires var d := Interior(SERIAL_REV, m);
             |u| == |d| && var k := BitDistance(d, u); 0 < k <= 3 || k % 2 == 1
    ensures Payload(u).None?
  {
    hide Interior, Payload, BitDistance;
    PayloadInterior(SERIAL_REV, m);
    if Deliverable(m) {
      CloseIsRefused(Interior(SERIAL_REV, m), u);
    } else if Payload(u).Some? {
      InteriorHeader(m);
      PayloadSize(u);
    }
  }

  /** One, two, three, or any odd number of bits flipped on the wire, in bytes that are and stay ordinary: the
   *  frame is dropped, and all the frames around it arrive. */
  lemma WireBitsFlipped(limit: nat, rx: Rx, before: seq<Packet>, m: Packet, w: seq<byte>, after: seq<Packet>)
    requires Roomy(limit) && Clean(rx) && OrdinaryChange(Encode(m), w)
    requires var k := BitDistance(Encode(m), w); 0 < k <= 3 || k % 2 == 1
    ensures Run(limit, rx, EncodeAll(before) + w + EncodeAll(after)).packets == Sieve(before) + Sieve(after)
  {
    hide Run, EncodeAll, Sieve, Payload, Interior, Stuff, Unstuff, OrdinaryChange, BitDistance;
    OrdinaryChangeOfFrame(m, w);
    var d, t := Interior(SERIAL_REV, m), w[1..|w| - 1];
    OrdinaryChangeOfStuffed(d, t);
    if Unstuff(t).Some? {
      FlipsAreRefused(m, Unstuff(t).value);
    }
    DamageIsContained(limit, rx, before, t, after);
  }

  // ------------------------------------------------------------ flags and escapes are different

  /** A message whose frame holds another one: before the inner header the register is back at its start. */
  const OUTER: Packet := [0x32, 0x2f, 0x7f, 0x01, 0x05, 0x01, 0x08, 0x09, 0xd3, 0x05]
  const INNER: Packet := [0x01, 0x08, 0x09, 0xd3, 0x05]
  const OUTER_START: seq<byte> := [0x01, 0x0a, 0x32, 0x2f, 0x7f]

  lemma StartIsInvisible()
    ensures Fcs.Fcs(INITFCS, OUTER_START) == INITFCS
  {}

  predicate Plain(s: seq<byte>) {
    forall i :: 0 <= i < |s| ==> !IsSpecial(s[i])
  }

  lemma {:induction false} CutAfterPlain(s: seq<byte>, k: nat)
    requires k <= |s| && Plain(s[..k])
    ensures k <= |Stuff(s)| && Stuff(s)[..k] == s[..k]
    ensures CutHead(s, k) == [] && CutIndex(s, k) == k
  {
    if k > 0 {
      assert s[0] == s[..k][0];
      var rest := s[1..][..k - 1];
      forall i | 0 <= i < |rest|
        ensures !IsSpecial(rest[i])
      {
        assert rest[i] == s[..k][i + 1];
      }
      CutAfterPlain(s[1..], k - 1);
      assert s[..k] == [s[0]] + s[1..][..k - 1];
    }
  }

  lemma SizeByteIs(n: nat, b: byte)
    requires n < 256 && Value(b) == n
    ensures SizeByte(n) == b
  {
    hide SizeByte, Value;
    SizeByteValue(n);
    ValueInjective(SizeByte(n), b);
  }

  lemma FlagInOuter()
    ensures |Encode(OUTER)| > 6 && Encode(OUTER)[5] == 0x7f && Instead(OUTER, 5, FRAME_CHAR) == [INNER]
  {
    hide Interior, Stuff, Instead, CutHead, CutIndex, SizeByte, Fcs.Fcs;
    var d := Interior(SERIAL_REV, OUTER);
    InteriorHeader(OUTER);
    InteriorParts(SERIAL_REV, OUTER);
    SizeByteIs(10, 0x0a);
    SizeByteIs(5, 0x05);
    assert d == d[..2] + OUTER + d[|d| - 2..];
    assert d[..5] == OUTER_START;
    CutAfterPlain(d, 5);
    StartIsInvisible();
    EmptyCheck(INITFCS);
    FlagInFrame(OUTER, 5);
    var u := [] + d[5..];
    assert u[2..|u| - 2] == OUTER[5..];
  }

  /** One flipped bit on the wire that makes a flag can deliver a packet that nobody sent. */
  lemma OneFlipMakesAFlag(limit: nat, rx: Rx, before: seq<Packet>, after: seq<Packet>)
    requires Roomy(limit) && Clean(rx)
    ensures |Encode(OUTER)| > 6
    ensures Run(limit, rx, EncodeAll(before) + Flip(Encode(OUTER), 40) + EncodeAll(after)).packets
         == Sieve(before) + [INNER] + Sieve(after)
  {
    hide Run, EncodeAll, Encode, Sieve, Instead;
    FlagInOuter();
    OneByteAnywhere(limit, rx, before, OUTER, 5, FRAME_CHAR, after);
    LowestBitOf7f();
  }

  lemma LowestBitOf7f()
    ensures XorByte(0x7f, Mask(0)) == FRAME_CHAR
  {}

  /** Two messages of one check, which differ by the place of an escape. */
  const EARLY: Packet := [0x01, 0x08, 0x09, 0xd3, 0x7d, 0x39, 0x50, 0x3f, 0x25, 0x7c, 0x5d]
  const LATE: Packet := [0x01, 0x08, 0x09, 0xd3, 0x7c, 0x5d, 0x39, 0x50, 0x3f, 0x25, 0x7d]
  const FRONT: seq<byte> := [0x01, 0x0b, 0x01, 0x08, 0x09, 0xd3]
  const MIDDLE: seq<byte> := [0x39, 0x50, 0x3f, 0x25]
  const EARLY_END: seq<byte> := [0x7d, 0x39, 0x50, 0x3f, 0x25, 0x7c, 0x5d]
  const LATE_END: seq<byte> := [0x7c, 0x5d, 0x39, 0x50, 0x3f, 0x25, 0x7d]
  const END_DIFFERENCE: seq<byte> := [0x01, 0x64, 0x69, 0x6f, 0x1a, 0x59, 0x20]

  lemma DifferenceOfEnds()
    ensures Difference(EARLY_END, LATE_END) == END_DIFFERENCE
  {
    var a, b := EARLY_END, LATE_END;
    DifferenceOfThree(a[4..], b[4..]);
    assert Difference(a[3..], b[3..]) == [0x6f] + Difference(a[4..], b[4..]);
    assert Difference(a[2..], b[2..]) == [0x69] + Difference(a[3..], b[3..]);
    assert Difference(a[1..], b[1..]) == [0x64] + Difference(a[2..], b[2..]);
  }

  lemma FcsStep(r: bv16, s: seq<byte>, i: nat, r': bv16)
    requires i < |s| && FcsByte(r, s[i]) == r'
    ensures Fcs.Fcs(r, s[i..]) == Fcs.Fcs(r', s[i + 1..])
  {
    assert s[i..][1..] == s[i + 1..];
  }

  lemma FirstSteps()
    ensures FcsByte(0, 0x01) == 0x1189 && FcsByte(0x1189, 0x64) == 0x3cfa
    ensures FcsByte(0x3cfa, 0x69) == 0xa62e && FcsByte(0xa62e, 0x6f) == 0x532b
  {}

  lemma LastSteps()
    ensures FcsByte(0x532b, 0x1a) == 0x2059 && FcsByte(0x2059, 0x59) == 0x0020 && FcsByte(0x0020, 0x20) == 0
  {}

  lemma EndsAreInvisible()
    ensures Fcs.Fcs(0, END_DIFFERENCE) == 0
  {
    hide Fcs.Fcs, FcsByte;
    var s := END_DIFFERENCE;
    FirstSteps();
    LastSteps();
    assert s[0..] == s && s[7..] == [];
    FcsStep(0, s, 0, 0x1189);
    FcsStep(0x1189, s, 1, 0x3cfa);
    FcsStep(0x3cfa, s, 2, 0xa62e);
    FcsStep(0xa62e, s, 3, 0x532b);
    FcsStep(0x532b, s, 4, 0x2059);
    FcsStep(0x2059, s, 5, 0x0020);
    FcsStep(0x0020, s, 6, 0);
    EmptyCheck(0);
  }

  lemma OneCheck()
    ensures Fcs.Fcs(INITFCS, FRONT + EARLY_END) == Fcs.Fcs(INITFCS, FRONT + LATE_END)
  {
    hide Fcs.Fcs, XorWord, Difference;
    DifferenceOfTails(INITFCS, FRONT, EARLY_END, LATE_END);
    DifferenceOfEnds();
    EndsAreInvisible();
    XorZero(Fcs.Fcs(INITFCS, FRONT + EARLY_END), Fcs.Fcs(INITFCS, FRONT + LATE_END));
  }

  lemma {:induction false} PlainIsNotStuffed(s: seq<byte>)
    requires Plain(s)
    ensures Stuff(s) == s
  {
    if s != [] {
      PlainIsNotStuffed(s[1..]);
    }
  }

  lemma StuffEscape()
    ensures Stuff([ESCAPE_CHAR]) == [0x7d, 0x5d]
  {
    assert [ESCAPE_CHAR][1..] == [];
  }

  lemma StuffEnds()
    ensures Stuff(FRONT + EARLY_END) == FRONT + ([0x7d, 0x5d] + MIDDLE + [0x7c, 0x5d])
    ensures Stuff(FRONT + LATE_END) == FRONT + ([0x7c, 0x5d] + MIDDLE + [0x7d, 0x5d])
  {
    hide Stuff;
    StuffEscape();
    PlainIsNotStuffed(FRONT);
    PlainIsNotStuffed(MIDDLE);
    PlainIsNotStuffed([0x7c, 0x5d]);
    StuffAppend(FRONT, EARLY_END);
    StuffAppend(FRONT, LATE_END);
    assert EARLY_END == [0x7d] + MIDDLE + [0x7c, 0x5d];
    StuffAppend([0x7d] + MIDDLE, [0x7c, 0x5d]);
    StuffAppend([0x7d], MIDDLE);
    assert LATE_END == [0x7c, 0x5d] + MIDDLE + [0x7d];
    StuffAppend([0x7c, 0x5d] + MIDDLE, [0x7d]);
    StuffAppend([0x7c, 0x5d], MIDDLE);
  }

  /** The frames of the two messages: the same before, between and after the two bytes that differ. */
  lemma EncodeEnds() returns (check: seq<byte>)
    ensures Encode(EARLY) ==
            [FRAME_CHAR] + FRONT + ([0x7d, 0x5d] + MIDDLE + [0x7c, 0x5d]) + check + [FRAME_CHAR]
    ensures Encode(LATE) ==
            [FRAME_CHAR] + FRONT + ([0x7c, 0x5d] + MIDDLE + [0x7d, 0x5d]) + check + [FRAME_CHAR]
  {
    hide Stuff, Fcs.Fcs, SizeByte;
    SizeByteIs(11, 0x0b);
    assert Covered(SERIAL_REV, EARLY) == FRONT + EARLY_END;
    assert Covered(SERIAL_REV, LATE) == FRONT + LATE_END;
    OneCheck();
    StuffEnds();
    var field := CheckField(FRONT + EARLY_END);
    check := Stuff(field);
    StuffAppend(FRONT + EARLY_END, field);
    StuffAppend(FRONT + LATE_END, field);
  }

  predicate FlipsTo(w: seq<byte>, ps: seq<nat>, w': seq<byte>) {
    InRange(w, ps) && Flips(w, ps) == w'
  }

  /** Two bits flipped on the wire that move an escape turn the frame of one packet into that of another. */
  lemma TwoFlipsMoveAnEscape()
    ensures Deliverable(EARLY) && Deliverable(LATE) && EARLY != LATE
    ensures FlipsTo(Encode(EARLY), [56, 104], Encode(LATE))
  {
    hide Encode, XorByte, Mask;
    var check := EncodeEnds();
    assert EARLY[4] != LATE[4];
    var w := Encode(EARLY);
    assert w[7] == 0x7d && w[13] == 0x7c;
    LowestBits();
    assert Flip(w, 56) == w[7 := 0x7c];
    assert Flip(w[7 := 0x7c], 104) == w[7 := 0x7c][13 := 0x7d];
    assert [56, 104][1..] == [104] && [104][1..] == [];
    hide Flip;
    assert Flips(w, [56, 104]) == w[7 := 0x7c][13 := 0x7d];
    assert w[7 := 0x7c][13 := 0x7d] == Encode(LATE);
  }

  lemma LowestBits()
    ensures XorByte(0x7d, Mask(0)) == 0x7c && XorByte(0x7c, Mask(0)) == 0x7d
  {}
}
