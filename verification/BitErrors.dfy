/** Errors in an interior as the receiver sees it, after unstuffing, check included. Bit p of a sequence is
 *  bit p % 8 of byte p / 8, least significant first. No three flipped bits go unnoticed, some four do; of the
 *  bursts of sixteen bits twelve do, where the message ends and the check begins. */
module BitErrors {
  import opened Bytes
  import opened Fcs
  import opened Frame
  import opened Detection
  import opened Period

  function Mask(a: nat): byte
    requires a < 8
  {
    match a
    case 0 => 0x01 case 1 => 0x02 case 2 => 0x04 case 3 => 0x08
    case 4 => 0x10 case 5 => 0x20 case 6 => 0x40 case _ => 0x80
  }

  function Flip(s: seq<byte>, p: nat): (t: seq<byte>)
    requires p < 8 * |s|
    ensures |t| == |s|
  {
    s[p / 8 := XorByte(s[p / 8], Mask(p % 8))]
  }

  function Flips(s: seq<byte>, ps: seq<nat>): (t: seq<byte>)
    requires forall i :: 0 <= i < |ps| ==> ps[i] < 8 * |s|
    ensures |t| == |s|
    decreases |ps|
  {
    if ps == [] then s else Flips(Flip(s, ps[0]), ps[1..])
  }

  // ------------------------------------------------------------ one flipped bit and the check

  lemma XorWithZero(f: bv16)
    ensures XorWord(f, 0) == f
  {}

  lemma XorByteWithZero(b: byte)
    ensures XorByte(b, 0) == b
  {}

  lemma TwoShifts(r: bv16)
    ensures Shift2(r) == Shifts(2, r)
  {
    hide Shift;
    assert Shifts(1, r) == Shift(r);
  }

  lemma FourShifts(r: bv16)
    ensures Shift4(r) == Shifts(4, r)
  {
    hide Shifts, Shift2;
    TwoShifts(r);
    TwoShifts(Shift2(r));
    ShiftsAdd(2, 2, r);
  }

  lemma EightShifts(r: bv16)
    ensures Shift8(r) == Shifts(8, r)
  {
    hide Shifts, Shift4;
    FourShifts(r);
    FourShifts(Shift4(r));
    ShiftsAdd(4, 4, r);
  }

  lemma FcsByteOfZero(r: bv16)
    ensures FcsByte(r, 0) == Shifts(8, r)
  {
    hide Shift8, XorWord, Shifts, Widen;
    WidenZero();
    XorWithZero(r);
    EightShifts(r);
  }

  /** A difference in the register travels through the bytes that follow as if they were zero. */
  lemma {:induction false} FcsOfSum(f: bv16, g: bv16, s: seq<byte>)
    ensures Fcs.Fcs(XorWord(f, g), s) == XorWord(Fcs.Fcs(f, s), Shifts(8 * |s|, g))
    decreases |s|
  {
    hide FcsByte, XorWord, XorByte, Shifts;
    if s == [] {
      assert Shifts(0, g) == g by { NoShifts(g); }
    } else {
      ByteLinear(f, g, s[0], 0);
      XorByteWithZero(s[0]);
      FcsByteOfZero(g);
      FcsOfSum(FcsByte(f, s[0]), FcsByte(g, 0), s[1..]);
      ShiftsAdd(8 * |s[1..]|, 8, g);
    }
  }

  lemma NoShifts(r: bv16)
    ensures Shifts(0, r) == r
  {}

  lemma MaskShiftsDown(a: nat)
    requires 0 < a < 8
    ensures Shifts(1, Widen(Mask(a))) == Widen(Mask(a - 1))
  {
    assert Shifts(0, Widen(Mask(a))) == Widen(Mask(a));
  }

  lemma {:induction false} MaskShiftsOut(a: nat)
    requires a < 8
    ensures Shifts(a, Widen(Mask(a))) == 1
  {
    if a == 0 {
      assert Widen(Mask(0)) == 1;
    } else {
      hide Mask, Widen, Shifts;
      MaskShiftsDown(a);
      MaskShiftsOut(a - 1);
      ShiftsAdd(a - 1, 1, Widen(Mask(a)));
    }
  }

  lemma FlipEntersRegister(a: nat)
    requires a < 8
    ensures FcsByte(0, Mask(a)) == Shifts(8 - a, 1)
  {
    hide Shift8, XorWord, Shifts, Widen;
    XorFromZero(Widen(Mask(a)));
    EightShifts(Widen(Mask(a)));
    ShiftsAdd(8 - a, a, Widen(Mask(a)));
    MaskShiftsOut(a);
  }

  lemma SplitAt(s: seq<byte>, p: nat)
    requires p < 8 * |s|
    ensures var i := p / 8;
            && s == s[..i] + [s[i]] + s[i + 1..]
            && Flip(s, p) == s[..i] + [XorByte(s[i], Mask(p % 8))] + s[i + 1..]
  {}

  /** One flipped bit adds to the check a 1 shifted once for every bit from there to the end. */
  lemma FlipShows(r: bv16, s: seq<byte>, p: nat)
    requires p < 8 * |s|
    ensures Fcs.Fcs(r, Flip(s, p)) == XorWord(Fcs.Fcs(r, s), Shifts(8 * |s| - p, 1))
  {
    hide Fcs.Fcs, FcsByte, XorWord, XorByte, Shifts, Mask, Flip;
    var i, a := p / 8, p % 8;
    var b, rest := s[i], s[i + 1..];
    var f := Fcs.Fcs(r, s[..i]);
    SplitAt(s, p);
    FcsAround(r, s[..i], [b], rest);
    FcsAround(r, s[..i], [XorByte(b, Mask(a))], rest);
    OneByte(f, b);
    OneByte(f, XorByte(b, Mask(a)));
    ByteLinear(f, 0, b, Mask(a));
    XorWithZero(f);
    FlipEntersRegister(a);
    FcsOfSum(FcsByte(f, b), FcsByte(0, Mask(a)), rest);
    ShiftsAdd(8 * |rest|, 8 - a, 1);
    assert 8 * |rest| + (8 - a) == 8 * |s| - p;
  }

  lemma TwoSums(f: bv16, a: bv16, b: bv16)
    ensures XorWord(XorWord(f, a), b) == f <==> a == b
  {
    hide XorWord;
    XorAssociative(f, a, b);
    XorZero(a, b);
    XorWithZero(f);
    XorCommutative(f, XorWord(a, b));
    XorCommutative(f, 0);
    if XorWord(f, XorWord(a, b)) == f {
      XorCancels(XorWord(a, b), 0, f);
    }
  }

  /** Two flipped bits leave the check as it was exactly if a multiple of 32767 bits lies between them. */
  lemma TwoFlipsShow(r: bv16, s: seq<byte>, p: nat, q: nat)
    requires p <= q < 8 * |s|
    ensures Fcs.Fcs(r, Flip(Flip(s, p), q)) == Fcs.Fcs(r, s) <==> (q - p) % 32767 == 0
  {
    hide Fcs.Fcs, XorWord, Shifts, Flip;
    var n := 8 * |s|;
    FlipShows(r, s, p);
    FlipShows(r, Flip(s, p), q);
    TwoSums(Fcs.Fcs(r, s), Shifts(n - p, 1), Shifts(n - q, 1));
    ShiftsAdd(n - q, q - p, 1);
    PeriodExact(q - p);
    if Shifts(n - p, 1) == Shifts(n - q, 1) {
      ShiftsInjective(n - q, Shifts(q - p, 1), 1);
    }
  }

  // ------------------------------------------------------------ flipped bits in a frame

  /** The difference between the check of what is covered and the check that was received. */
  function Syndrome(d: seq<byte>): bv16
    requires |d| >= 2
  {
    var n := |d| - 2;
    XorWord(Fcs.Fcs(INITFCS, d[..n]), Word(d[n], d[n + 1]))
  }

  /** The power of x that a flipped bit adds to the syndrome. In the check field, whose two bytes
   *  travel in the wrong order, the eight lower powers come first. */
  function Exponent(d: seq<byte>, p: nat): nat
    requires |d| >= 2 && p < 8 * |d|
  {
    var n := 8 * (|d| - 2);
    if p < n then n - p + 15 else if p < n + 8 then n + 7 - p else n + 23 - p
  }

  lemma ExponentsDiffer(d: seq<byte>, p: nat, q: nat)
    requires |d| >= 2 && p < 8 * |d| && q < 8 * |d| && p != q
    ensures Exponent(d, p) != Exponent(d, q) && Exponent(d, p) < 8 * |d|
  {}

  lemma PowersDiffer(j: nat, k: nat)
    requires j < k < 32767
    ensures Power(j) != Power(k)
  {
    hide Shifts;
    ShiftsAdd(j, k - j, ONE);
    PeriodOfOne(k - j);
    if Power(j) == Power(k) {
      ShiftsInjective(j, Power(k - j), ONE);
    }
  }

  /** In either byte a flip of the next lower bit is one shift of the flip above it. */
  lemma NextMask(a: nat)
    requires a < 7
    ensures Widen(Mask(a)) == Shift(Widen(Mask(a + 1)))
    ensures Widen(Mask(a)) << 8 == Shift(Widen(Mask(a + 1)) << 8)
  {}

  lemma HighestMask()
    ensures Widen(Mask(7)) << 8 == Power(0) && Widen(Mask(7)) == Power(8)
  {
    PowerOne();
    Twice(1, 0x4000, 0x2000);
    Twice(2, 0x2000, 0x0800);
    Twice(4, 0x0800, 0x0080);
  }

  lemma {:induction false} MaskIsPower(a: nat)
    requires a < 8
    ensures Widen(Mask(a)) == Power(15 - a) && Widen(Mask(a)) << 8 == Power(7 - a)
    decreases 8 - a
  {
    hide Mask, Widen, Shift;
    if a == 7 {
      HighestMask();
    } else {
      MaskIsPower(a + 1);
      NextMask(a);
    }
  }

  lemma FieldFlip(hi: byte, lo: byte, a: nat)
    requires a < 8
    ensures Word(XorByte(hi, Mask(a)), lo) == XorWord(Word(hi, lo), Power(7 - a))
    ensures Word(hi, XorByte(lo, Mask(a))) == XorWord(Word(hi, lo), Power(15 - a))
  {
    hide Power;
    MaskIsPower(a);
  }

  lemma FlipInSyndrome(d: seq<byte>, p: nat)
    requires |d| >= 2 && p < 8 * |d|
    ensures Syndrome(Flip(d, p)) == XorWord(Syndrome(d), Power(Exponent(d, p)))
  {
    hide Fcs.Fcs, XorWord, XorByte, Shifts, Mask, Word;
    var n := |d| - 2;
    var u := Flip(d, p);
    var fcs, field, e := Fcs.Fcs(INITFCS, d[..n]), Word(d[n], d[n + 1]), Power(Exponent(d, p));
    if p < 8 * n {
      assert u[..n] == Flip(d[..n], p);
      FlipShows(INITFCS, d[..n], p);
      OneAtTheLowEnd();
      ShiftsAdd(8 * n - p, 15, ONE);
      XorAssociative(fcs, e, field);
      XorCommutative(e, field);
      XorAssociative(fcs, field, e);
    } else {
      assert u[..n] == d[..n];
      FieldFlip(d[n], d[n + 1], p % 8);
      XorAssociative(fcs, field, e);
    }
  }

  lemma AcceptedHasNoSyndrome(d: seq<byte>)
    requires Payload(d).Some?
    ensures |d| >= 4 && Syndrome(d) == 0
  {
    hide Fcs.Fcs, Word;
    InteriorIff(d);
    XorSelf(Fcs.Fcs(INITFCS, d[..|d| - 2]));
  }

  lemma TwoFlipsRefused(d: seq<byte>, p: nat, q: nat)
    requires p < 8 * |d| && q < 8 * |d| && p != q && Payload(d).Some?
    ensures Payload(Flip(Flip(d, p), q)).None?
  {
    hide Payload, Syndrome, XorWord, Flip, Power;
    PayloadSize(d);
    var u := Flip(Flip(d, p), q);
    var j, k := Exponent(d, p), Exponent(d, q);
    ExponentsDiffer(d, p, q);
    ExponentsDiffer(d, q, p);
    FlipInSyndrome(d, p);
    FlipInSyndrome(Flip(d, p), q);
    AcceptedHasNoSyndrome(d);
    if Payload(u).Some? {
      AcceptedHasNoSyndrome(u);
      TwoSums(0, Power(j), Power(k));
      PowersDiffer(if j < k then j else k, if j < k then k else j);
    }
  }

  lemma FlipTwice(s: seq<byte>, p: nat)
    requires p < 8 * |s|
    ensures Flip(Flip(s, p), p) == s
  {
    assert forall b: byte, m: byte :: XorByte(XorByte(b, m), m) == b;
  }

  lemma {:induction false} ShiftsKeepParity(k: nat, r: bv16)
    ensures OddWord(Shifts(k, r)) == OddWord(r)
  {
    hide Shift, OddWord;
    if k > 0 {
      ShiftsKeepParity(k - 1, r);
      ShiftKeepsParity(Shifts(k - 1, r));
    }
  }

  lemma MaskIsOdd(a: nat)
    requires a < 8
    ensures OddWord(Widen(Mask(a)))
  {
    hide Shifts, Mask, Widen, OddWord;
    MaskShiftsOut(a);
    ShiftsKeepParity(a, Widen(Mask(a)));
    OddWordUnfold(1);
    ZeroIsEven();
  }

  lemma FlipChangesParity(s: seq<byte>, p: nat)
    requires p < 8 * |s|
    ensures Odd(Flip(s, p)) != Odd(s)
  {
    hide OddWord, Widen, XorByte, XorWord, Mask, Odd;
    var i, m := p / 8, Mask(p % 8);
    SplitAt(s, p);
    OddAppend(s[..i] + [s[i]], s[i + 1..]);
    OddAppend(s[..i], [s[i]]);
    OddAppend(s[..i] + [XorByte(s[i], m)], s[i + 1..]);
    OddAppend(s[..i], [XorByte(s[i], m)]);
    OddOneByte(s[i]);
    OddOneByte(XorByte(s[i], m));
    WidenXor(s[i], m);
    OddXor(Widen(s[i]), Widen(m));
    MaskIsOdd(p % 8);
  }

  lemma OddOneByte(b: byte)
    ensures Odd([b]) == OddWord(Widen(b))
  {
    hide OddWord, Widen;
    assert [b][1..] == [];
  }

  lemma OddFlipsRefused(d: seq<byte>, u: seq<byte>)
    requires Payload(d).Some?
    ensures Odd(u) != Odd(d) ==> Payload(u).None?
  {
    hide Payload, Odd;
    AcceptedIsEven(d);
    if Payload(u).Some? {
      AcceptedIsEven(u);
    }
  }

  /** Up to three flipped bits anywhere in an accepted interior -- revision, byte count, message, check --
   *  are always noticed, unless they cancel out. */
  lemma ThreeFlipsRefused(d: seq<byte>, ps: seq<nat>)
    requires Payload(d).Some? && |ps| <= 3 && forall i :: 0 <= i < |ps| ==> ps[i] < 8 * |d|
    ensures Flips(d, ps) != d ==> Payload(Flips(d, ps)).None?
  {
    hide Payload, Flip, Odd;
    if ps != [] {
      var d1, ps1 := Flip(d, ps[0]), ps[1..];
      FlipChangesParity(d, ps[0]);
      OddFlipsRefused(d, d1);
      if ps1 != [] {
        var d2, ps2 := Flip(d1, ps1[0]), ps1[1..];
        if ps[0] == ps[1] {
          FlipTwice(d, ps[0]);
        } else {
          TwoFlipsRefused(d, ps[0], ps[1]);
        }
        assert Flips(d, ps) == Flips(d2, ps2);
        if ps2 != [] {
          var d3 := Flip(d2, ps2[0]);
          assert ps2[1..] == [] && Flips(d3, []) == d3;
          assert Flips(d2, ps2) == d3;
          FlipChangesParity(d1, ps1[0]);
          FlipChangesParity(d2, ps2[0]);
          OddFlipsRefused(d, d3);
        }
      }
    }
  }

  // ------------------------------------------------------------ four bits are too many

  lemma Power5()
    ensures Power(5) == 0x0400
  {
    PowerOne();
    Twice(1, 0x4000, 0x2000);
    TwiceAndOne(2, 0x2000, 0x0400);
  }

  lemma Power12()
    ensures Power(12) == 0x0008
  {
    PowerOne();
    TwiceAndOne(1, 0x4000, 0x1000);
    Twice(3, 0x1000, 0x0200);
    Twice(6, 0x0200, 0x0008);
  }

  lemma Power16()
    ensures Power(16) == 0x8408
  {
    PowerOne();
    Twice(1, 0x4000, 0x2000);
    Twice(2, 0x2000, 0x0800);
    Twice(4, 0x0800, 0x0080);
    Twice(8, 0x0080, 0x8408);
  }

  /** The polynomial of the register is 1 + x^5 + x^12 + x^16. */
  lemma FeedbackTerms()
    ensures XorWord(XorWord(Power(16), Power(12)), XorWord(Power(5), Power(0))) == 0
  {
    Power5();
    Power12();
    Power16();
  }

  /** Four flipped bits at the distances that the register cannot see. */
  function FourFlips(d: seq<byte>, p: nat): (u: seq<byte>)
    requires p + 16 < 8 * |d|
    ensures |u| == |d|
  {
    Flip(Flip(Flip(Flip(d, p), p + 4), p + 11), p + 16)
  }

  lemma FeedbackVanishes(e: nat)
    ensures XorWord(XorWord(Power(e + 16), Power(e + 12)), XorWord(Power(e + 5), Power(e))) == 0
  {
    hide XorWord, Shifts;
    FeedbackTerms();
    ShiftsAdd(e, 16, ONE);
    ShiftsAdd(e, 12, ONE);
    ShiftsAdd(e, 5, ONE);
    ShiftsAdd(e, 0, ONE);
    ShiftsLinear(e, Power(16), Power(12));
    ShiftsLinear(e, Power(5), Power(0));
    ShiftsLinear(e, XorWord(Power(16), Power(12)), XorWord(Power(5), Power(0)));
    ShiftsLinear(e, 0, 0);
    XorSelf(0);
    XorSelf(Shifts(e, 0));
  }

  predicate HasBit(x: byte, a: nat)
    requires a < 8
  {
    x & Mask(a) != 0
  }

  predicate Bit(s: seq<byte>, p: nat)
    requires p < 8 * |s|
  {
    HasBit(s[p / 8], p % 8)
  }

  lemma MaskHitsItsBit(x: byte, a: nat, b: nat)
    requires a < 8 && b < 8
    ensures HasBit(XorByte(x, Mask(a)), b) == (HasBit(x, b) != (a == b))
  {}

  lemma FlipHitsItsBit(s: seq<byte>, p: nat, q: nat)
    requires p < 8 * |s| && q < 8 * |s|
    ensures Bit(Flip(s, p), q) == (Bit(s, q) != (p == q))
  {
    hide XorByte, Mask, HasBit;
    var i, j := p / 8, q / 8;
    if i == j {
      MaskHitsItsBit(s[i], p % 8, q % 8);
    }
  }

  lemma FourFlipsKeepSyndrome(d: seq<byte>, p: nat)
    requires |d| >= 2 && p + 16 < 8 * (|d| - 2)
    ensures Syndrome(FourFlips(d, p)) == Syndrome(d)
  {
    hide Syndrome, XorWord, Flip, Power;
    var e := 8 * (|d| - 2) - p - 1;
    var d1 := Flip(d, p);
    var d2 := Flip(d1, p + 4);
    var d3 := Flip(d2, p + 11);
    FlipInSyndrome(d, p);
    FlipInSyndrome(d1, p + 4);
    FlipInSyndrome(d2, p + 11);
    FlipInSyndrome(d3, p + 16);
    FeedbackVanishes(e);
    FourSums(Syndrome(d), Power(e + 16), Power(e + 12), Power(e + 5), Power(e));
  }

  lemma FourSums(w: bv16, a: bv16, b: bv16, c: bv16, z: bv16)
    requires XorWord(XorWord(a, b), XorWord(c, z)) == 0
    ensures XorWord(XorWord(XorWord(XorWord(w, a), b), c), z) == w
  {
    hide XorWord;
    XorAssociative(w, a, b);
    XorAssociative(XorWord(w, XorWord(a, b)), c, z);
    XorAssociative(w, XorWord(a, b), XorWord(c, z));
    XorWithZero(w);
  }

  lemma FourFlipsChange(d: seq<byte>, p: nat)
    requires p + 16 < 8 * |d|
    ensures FourFlips(d, p) != d
  {
    hide Flip, Bit;
    var d1 := Flip(d, p);
    var d2 := Flip(d1, p + 4);
    var d3 := Flip(d2, p + 11);
    FlipHitsItsBit(d, p, p);
    FlipHitsItsBit(d1, p + 4, p);
    FlipHitsItsBit(d2, p + 11, p);
    FlipHitsItsBit(d3, p + 16, p);
  }

  lemma FlipKeepsHeader(d: seq<byte>, p: nat)
    requires 16 <= p < 8 * |d|
    ensures Flip(d, p)[..2] == d[..2]
  {}

  /** Three is the most: every accepted interior is four flipped bits away from another one. */
  lemma FourFlipsAccepted(d: seq<byte>, p: nat)
    requires Payload(d).Some? && 16 <= p && p + 16 < 8 * (|d| - 2)
    ensures var u := FourFlips(d, p); u != d && Payload(u).Some?
  {
    hide Syndrome, Flip, Fcs.Fcs, XorWord, Word, Payload;
    PayloadSize(d);
    PayloadCount(d);
    var u := FourFlips(d, p);
    FourFlipsChange(d, p);
    FlipKeepsHeader(d, p);
    FlipKeepsHeader(Flip(d, p), p + 4);
    FlipKeepsHeader(Flip(Flip(d, p), p + 4), p + 11);
    FlipKeepsHeader(Flip(Flip(Flip(d, p), p + 4), p + 11), p + 16);
    assert u[1] == u[..2][1] == d[..2][1] == d[1];
    FourFlipsKeepSyndrome(d, p);
    AcceptedHasNoSyndrome(d);
    NoSyndromeIsAccepted(u);
  }

  lemma PayloadCount(d: seq<byte>)
    requires Payload(d).Some?
    ensures |d| >= 4 && d[1] == SizeByte(|d| - 4)
  {
    hide Fcs.Fcs, Word;
    InteriorIff(d);
  }

  lemma NoSyndromeIsAccepted(u: seq<byte>)
    requires |u| >= 4 && Deliverable(u[2..|u| - 2]) && u[1] == SizeByte(|u| - 4) && Syndrome(u) == 0
    ensures Payload(u).Some?
  {
    hide Fcs.Fcs, XorWord, Word;
    InteriorIff(u);
    XorZero(Fcs.Fcs(INITFCS, u[..|u| - 2]), Word(u[|u| - 2], u[|u| - 1]));
  }

  // ------------------------------------------------------------ the number of bits that differ

  function OnesFrom(b: byte, a: nat): nat
    requires a <= 8
    decreases 8 - a
  {
    if a == 8 then 0 else (if HasBit(b, a) then 1 else 0) + OnesFrom(b, a + 1)
  }

  function Ones(b: byte): nat {
    OnesFrom(b, 0)
  }

  /** In how many bits two sequences of one length differ. */
  function BitDistance(s: seq<byte>, u: seq<byte>): nat
    requires |s| == |u|
  {
    if s == [] then 0 else Ones(XorByte(s[0], u[0])) + BitDistance(s[1..], u[1..])
  }

  lemma {:induction false} OnesAfterFlip(b: byte, a: nat, p: nat)
    requires a <= 8 && p < 8 && HasBit(b, p)
    ensures OnesFrom(XorByte(b, Mask(p)), a) == OnesFrom(b, a) - (if a <= p then 1 else 0)
    decreases 8 - a
  {
    hide HasBit, XorByte, Mask;
    if a < 8 {
      MaskHitsItsBit(b, p, a);
      OnesAfterFlip(b, a + 1, p);
    }
  }

  lemma {:induction false} SomeBit(b: byte, a: nat) returns (p: nat)
    requires a <= 8 && OnesFrom(b, a) > 0
    ensures p < 8 && HasBit(b, p)
    decreases 8 - a
  {
    hide HasBit;
    if HasBit(b, a) {
      p := a;
    } else {
      p := SomeBit(b, a + 1);
    }
  }

  lemma NoOnes(b: byte)
    requires Ones(b) == 0
    ensures b == 0
  {}

  lemma XorByteZeroIff(a: byte, b: byte)
    ensures XorByte(a, b) == 0 <==> a == b
  {}

  lemma XorByteExchange(b: byte, c: byte, m: byte)
    ensures XorByte(XorByte(b, m), c) == XorByte(XorByte(b, c), m)
  {}

  lemma FlipHead(s: seq<byte>, p: nat)
    requires s != [] && p < 8 * |s|
    ensures p < 8 ==> Flip(s, p) == [XorByte(s[0], Mask(p))] + s[1..]
    ensures p >= 8 ==> Flip(s, p) == [s[0]] + Flip(s[1..], p - 8)
  {
    hide XorByte, Mask;
    if p >= 8 {
      assert (p - 8) / 8 == p / 8 - 1 && (p - 8) % 8 == p % 8;
    }
  }

  /** Some flip brings one sequence nearer to the other. */
  lemma {:induction false} NearerFlip(s: seq<byte>, u: seq<byte>) returns (p: nat)
    requires |s| == |u| && BitDistance(s, u) > 0
    ensures p < 8 * |s| && BitDistance(Flip(s, p), u) == BitDistance(s, u) - 1
    decreases |s|
  {
    hide XorByte, Mask, HasBit, OnesFrom, Flip;
    var x := XorByte(s[0], u[0]);
    if Ones(x) > 0 {
      p := SomeBit(x, 0);
      FlipHead(s, p);
      XorByteExchange(s[0], u[0], Mask(p));
      OnesAfterFlip(x, 0, p);
      assert Flip(s, p)[1..] == s[1..];
    } else {
      p := NearerFlip(s[1..], u[1..]);
      p := p + 8;
      FlipHead(s, p);
      assert Flip(s, p)[1..] == Flip(s[1..], p - 8);
    }
  }

  lemma {:induction false} NoDistance(s: seq<byte>, u: seq<byte>)
    requires |s| == |u|
    ensures BitDistance(s, u) == 0 ==> s == u
  {
    hide XorByte, Ones;
    if s != [] && BitDistance(s, u) == 0 {
      NoOnes(XorByte(s[0], u[0]));
      XorByteZeroIff(s[0], u[0]);
      NoDistance(s[1..], u[1..]);
      assert s == [s[0]] + s[1..] && u == [u[0]] + u[1..];
    }
  }

  predicate InRange(s: seq<byte>, ps: seq<nat>) {
    forall i :: 0 <= i < |ps| ==> ps[i] < 8 * |s|
  }

  lemma {:induction false} FlipsBetween(s: seq<byte>, u: seq<byte>) returns (ps: seq<nat>)
    requires |s| == |u|
    ensures |ps| == BitDistance(s, u) && InRange(s, ps) && Flips(s, ps) == u
    decreases BitDistance(s, u)
  {
    hide BitDistance, Flip;
    if BitDistance(s, u) == 0 {
      NoDistance(s, u);
      ps := [];
    } else {
      var p := NearerFlip(s, u);
      var rest := FlipsBetween(Flip(s, p), u);
      ps := [p] + rest;
      assert ps[1..] == rest;
    }
  }

  lemma {:induction false} FlipsParity(s: seq<byte>, ps: seq<nat>)
    requires InRange(s, ps)
    ensures Odd(Flips(s, ps)) == (Odd(s) != (|ps| % 2 == 1))
    decreases |ps|
  {
    hide Odd, Flip;
    if ps != [] {
      FlipChangesParity(s, ps[0]);
      FlipsParity(Flip(s, ps[0]), ps[1..]);
    }
  }

  /** An interior that differs from an accepted one in one, two, three, or any odd number of bits is refused. */
  lemma CloseIsRefused(d: seq<byte>, u: seq<byte>)
    requires Payload(d).Some? && |u| == |d|
    requires var k := BitDistance(d, u); 0 < k <= 3 || k % 2 == 1
    ensures Payload(u).None?
  {
    hide Payload, Flips, BitDistance, Odd;
    var ps := FlipsBetween(d, u);
    if |ps| % 2 == 1 {
      FlipsParity(d, ps);
      OddFlipsRefused(d, u);
    } else {
      ThreeFlipsRefused(d, ps);
      assert d != u by { NoDistanceToItself(d); }
    }
  }

  lemma {:induction false} NoDistanceToItself(s: seq<byte>)
    ensures BitDistance(s, s) == 0
  {
    hide XorByte, HasBit;
    if s != [] {
      XorByteZeroIff(s[0], s[0]);
      ZeroHasNoBits();
      NoDistanceToItself(s[1..]);
    }
  }

  lemma ZeroHasNoBits()
    ensures Ones(0) == 0
  {
    assert OnesFrom(0, 4) == 0;
  }

  // ------------------------------------------------------------ bursts across the border of message and check

  /** Changes of the last two covered bytes and the first check byte that the register cannot see. */
  predicate SlipsBefore(a: byte, b: byte, c: byte) {
    || (a == 0x00 && b == 0x91 && c == 0x85) || (a == 0x10 && b == 0xa3 && c == 0x02)
    || (a == 0x40 && b == 0xac && c == 0x29) || (a == 0x88 && b == 0x51 && c == 0x01)
    || (a == 0x98 && b == 0xf2 && c == 0x03)
  }

  /** Changes of the last covered byte and the two check bytes that the register cannot see. */
  predicate SlipsAfter(a: byte, b: byte, c: byte) {
    || (a == 0x20 && b == 0x21 && c == 0x02) || (a == 0x40 && b == 0x42 && c == 0x04)
    || (a == 0x60 && b == 0x63 && c == 0x06) || (a == 0x80 && b == 0x84 && c == 0x08)
    || (a == 0x91 && b == 0x85 && c == 0x00) || (a == 0xa0 && b == 0xa5 && c == 0x0a)
    || (a == 0xc0 && b == 0xc6 && c == 0x0c) || (a == 0xe0 && b == 0xe7 && c == 0x0e)
  }

  lemma ResidueBefore(a: byte, b: byte, c: byte, m: byte)
    requires BurstAt([a, b, c], m)
    ensures Shift8(XorWord(Shift8(Widen(a)), Widen(b))) == Widen(c) << 8 <==>
            (a == 0 && b == 0 && c == 0) || SlipsBefore(a, b, c)
  {}

  lemma ResidueAfter(a: byte, b: byte, c: byte, m: byte)
    requires BurstAt([a, b, c], m)
    ensures Shift8(Widen(a)) == Word(b, c) <==> (a == 0 && b == 0 && c == 0) || SlipsAfter(a, b, c)
  {}

  lemma WordDifference(a: byte, b: byte, c: byte, d: byte)
    ensures XorWord(Word(a, b), Word(c, d)) == Word(XorByte(a, c), XorByte(b, d))
  {}

  lemma WordOfHigh(c: byte)
    ensures Word(c, 0) == Widen(c) << 8
  {}

  lemma DifferenceOfTails(r: bv16, p: seq<byte>, x: seq<byte>, y: seq<byte>)
    requires |x| == |y|
    ensures XorWord(Fcs.Fcs(r, p + x), Fcs.Fcs(r, p + y)) == Fcs.Fcs(0, Difference(x, y))
  {
    hide Fcs.Fcs, XorWord, Difference;
    var f := Fcs.Fcs(r, p);
    FcsAppend(r, p, x);
    FcsAppend(r, p, y);
    FcsLinear(f, f, x, y);
    XorSelf(f);
  }

  lemma CheckOfOne(a: byte)
    ensures Fcs.Fcs(0, [a]) == Shift8(Widen(a))
  {
    hide Fcs.Fcs, Shift8, XorWord, Widen;
    OneByte(0, a);
    XorFromZero(Widen(a));
  }

  lemma CheckOfTwo(a: byte, b: byte)
    ensures Fcs.Fcs(0, [a, b]) == Shift8(XorWord(Shift8(Widen(a)), Widen(b)))
  {
    hide Fcs.Fcs, Shift8, XorWord, Widen;
    assert [a, b] == [a] + [b];
    FcsAppend(0, [a], [b]);
    CheckOfOne(a);
    OneByte(Shift8(Widen(a)), b);
  }

  lemma DifferenceOfTwo(x: seq<byte>, y: seq<byte>)
    requires |x| == |y| == 2
    ensures Difference(x, y) == [XorByte(x[0], y[0]), XorByte(x[1], y[1])]
  {
    assert Difference(x[1..], y[1..]) == [XorByte(x[1], y[1])] + Difference(x[2..], y[2..]);
  }

  lemma DifferenceOfThree(x: seq<byte>, y: seq<byte>)
    requires |x| == |y| == 3
    ensures Difference(x, y) == [XorByte(x[0], y[0]), XorByte(x[1], y[1]), XorByte(x[2], y[2])]
  {
    DifferenceOfTwo(x[1..], y[1..]);
  }

  lemma TwoEqualSums(a: bv16, b: bv16, c: bv16)
    ensures XorWord(a, b) == XorWord(a, c) <==> b == c
  {
    hide XorWord;
    XorCommutative(a, b);
    XorCommutative(a, c);
    if XorWord(a, b) == XorWord(a, c) {
      XorCancels(b, c, a);
    }
  }

  /** Next to an accepted interior, another one with the same byte count is accepted exactly if its check
   *  changed as much as its check field did. */
  lemma AcceptedByDifference(d: seq<byte>, u: seq<byte>)
    requires Payload(d).Some? && |u| == |d| && u[1] == d[1]
    ensures var n := |d| - 2;
            Payload(u).Some? <==>
            XorWord(Fcs.Fcs(INITFCS, d[..n]), Fcs.Fcs(INITFCS, u[..n])) ==
            Word(XorByte(d[n], u[n]), XorByte(d[n + 1], u[n + 1]))
  {
    hide Payload, Fcs.Fcs, XorWord, XorByte, Word;
    PayloadSize(d);
    PayloadCount(d);
    var n := |d| - 2;
    var f, g, v, w := Fcs.Fcs(INITFCS, d[..n]), Fcs.Fcs(INITFCS, u[..n]), Word(d[n], d[n + 1]), Word(u[n], u[n + 1]);
    WordDifference(d[n], d[n + 1], u[n], u[n + 1]);
    AcceptedHasNoSyndrome(d);
    XorZero(f, v);
    TwoEqualSums(f, g, w);
    XorZero(g, w);
    if Payload(u).Some? {
      AcceptedHasNoSyndrome(u);
    } else if Syndrome(u) == 0 {
      NoSyndromeIsAccepted(u);
    }
  }

  /** Two interiors of one length that differ in three successive bytes at most, and there in no more than
   *  sixteen successive bits. */
  predicate BurstApart(d: seq<byte>, u: seq<byte>, i: nat, m: byte) {
    && |d| == |u| && i + 3 <= |d|
    && u[..i] == d[..i] && u[i + 3..] == d[i + 3..]
    && BurstAt(Difference(d[i..i + 3], u[i..i + 3]), m)
  }

  /** Whether a burst at byte `i` falls on one of the places and differences that the byte order leaves open. */
  predicate Slips(d: seq<byte>, u: seq<byte>, i: nat)
    requires |d| == |u| && i + 3 <= |d|
  {
    var a, b, c := XorByte(d[i], u[i]), XorByte(d[i + 1], u[i + 1]), XorByte(d[i + 2], u[i + 2]);
    || (i + 4 == |d| && SlipsBefore(a, b, c))
    || (i + 3 == |d| && SlipsAfter(a, b, c))
  }

  lemma BurstBefore(d: seq<byte>, u: seq<byte>, i: nat, m: byte)
    requires Payload(d).Some? && BurstApart(d, u, i, m) && i + 4 == |d|
    ensures Payload(u).Some? <==> d == u || Slips(d, u, i)
  {
    hide Payload, Fcs.Fcs, Shift8, XorWord, XorByte, Widen, Word, Difference, BurstAt, SlipsBefore, SlipsAfter;
    PayloadSize(d);
    var n := |d| - 2;
    var a, b, c := XorByte(d[i], u[i]), XorByte(d[i + 1], u[i + 1]), XorByte(d[i + 2], u[i + 2]);
    assert u[..i][1] == d[..i][1];
    assert u[i + 3..][0] == d[i + 3..][0];
    AcceptedByDifference(d, u);
    DifferenceOfThree(d[i..i + 3], u[i..i + 3]);
    DifferenceOfTwo(d[i..i + 2], u[i..i + 2]);
    assert d[..n] == d[..i] + d[i..i + 2] && u[..n] == d[..i] + u[i..i + 2];
    DifferenceOfTails(INITFCS, d[..i], d[i..i + 2], u[i..i + 2]);
    CheckOfTwo(a, b);
    WordOfHigh(c);
    XorByteZeroIff(d[n + 1], u[n + 1]);
    ResidueBefore(a, b, c, m);
    SameBytes(d, u, i);
  }

  lemma BurstAfter(d: seq<byte>, u: seq<byte>, i: nat, m: byte)
    requires Payload(d).Some? && BurstApart(d, u, i, m) && i + 3 == |d|
    ensures Payload(u).Some? <==> d == u || Slips(d, u, i)
  {
    hide Payload, Fcs.Fcs, Shift8, XorWord, XorByte, Widen, Word, Difference, BurstAt, SlipsBefore, SlipsAfter;
    PayloadSize(d);
    var n := |d| - 2;
    var a, b, c := XorByte(d[i], u[i]), XorByte(d[i + 1], u[i + 1]), XorByte(d[i + 2], u[i + 2]);
    assert u[..i][1] == d[..i][1];
    AcceptedByDifference(d, u);
    DifferenceOfThree(d[i..i + 3], u[i..i + 3]);
    assert d[..n] == d[..i] + [d[i]] && u[..n] == d[..i] + [u[i]];
    DifferenceOfTails(INITFCS, d[..i], [d[i]], [u[i]]);
    assert Difference([d[i]], [u[i]]) == [a] by { DifferenceOfOne(d[i], u[i]); }
    CheckOfOne(a);
    ResidueAfter(a, b, c, m);
    SameBytes(d, u, i);
  }

  lemma DifferenceOfOne(x: byte, y: byte)
    ensures Difference([x], [y]) == [XorByte(x, y)]
  {}

  lemma SameBytes(d: seq<byte>, u: seq<byte>, i: nat)
    requires |d| == |u| && i + 3 <= |d| && u[..i] == d[..i] && u[i + 3..] == d[i + 3..]
    ensures d == u <==>
            XorByte(d[i], u[i]) == 0 && XorByte(d[i + 1], u[i + 1]) == 0 && XorByte(d[i + 2], u[i + 2]) == 0
  {
    hide XorByte;
    XorByteZeroIff(d[i], u[i]);
    XorByteZeroIff(d[i + 1], u[i + 1]);
    XorByteZeroIff(d[i + 2], u[i + 2]);
    assert d == d[..i] + [d[i], d[i + 1], d[i + 2]] + d[i + 3..];
    assert u == u[..i] + [u[i], u[i + 1], u[i + 2]] + u[i + 3..];
  }

  /** Bursts of at most sixteen bits anywhere in an accepted interior, check included: all are noticed but
   *  twelve differences where the message ends and the check, in the wrong byte order, begins. */
  lemma BurstAccepted(d: seq<byte>, u: seq<byte>, i: nat, m: byte)
    requires Payload(d).Some? && BurstApart(d, u, i, m)
    ensures Payload(u).Some? <==> d == u || Slips(d, u, i)
  {
    hide Payload, BurstAt, Difference, SlipsBefore, SlipsAfter;
    if i + 4 == |d| {
      BurstBefore(d, u, i, m);
    } else if i + 3 == |d| {
      BurstAfter(d, u, i, m);
    } else if d != u {
      BurstDetected(d, u, i, m);
    }
  }

  /** The last covered byte and the first check byte together: of all changes exactly one goes unnoticed. */
  lemma BorderChangeAccepted(d: seq<byte>, u: seq<byte>)
    requires Payload(d).Some? && |u| == |d|
    requires var n := |d| - 2; n > 1 && u[..n - 1] == d[..n - 1] && u[n + 1] == d[n + 1]
    ensures var n := |d| - 2;
            Payload(u).Some? <==> d == u || (XorByte(d[n - 1], u[n - 1]) == 0x91 && XorByte(d[n], u[n]) == 0x85)
  {
    hide Payload, XorByte, Difference;
    var i := |d| - 4;
    assert d[i] == d[..i + 1][i] == u[..i + 1][i] == u[i];
    DifferenceOfThree(d[i..i + 3], u[i..i + 3]);
    TwoBytesAreABurst(d[i..i + 3], u[i..i + 3]);
    XorByteZeroIff(d[i], u[i]);
    assert u[..i] == d[..i + 1][..i] == d[..i];
    assert u[i + 3..] == [u[i + 3]] && d[i + 3..] == [d[i + 3]];
    BurstAccepted(d, u, i, 255);
  }
}
