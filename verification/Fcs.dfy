/** The frame check sequence of the serial link: a 16-bit CRC with the reflected polynomial 0x8408.
 *  `Fcs` is the shift register; the program computes it through a 256-entry table.
 *
 *  Exclusive or is a named function here, so that a proof which needs only its algebra
 *  can hide the bits (`hide`) and leave the solver nothing to blast. */
module Fcs {
  import opened Bytes

  const INITFCS: bv16 := 0xffff
  const POLYNOMIAL: bv16 := 0x8408

  // ------------------------------------------------------------ the shift register

  function XorWord(a: bv16, b: bv16): bv16 { a ^ b }

  function Half(r: bv16): bv16 { r >> 1 }

  function XorByte(a: byte, b: byte): byte { a ^ b }

  function Widen(b: byte): bv16 { b as bv16 }

  /** One shift to the right; a bit that falls out feeds the polynomial back. */
  function Shift(r: bv16): bv16 {
    if r & 1 == 1 then XorWord(Half(r), POLYNOMIAL) else Half(r)
  }

  function Shift2(r: bv16): bv16 { Shift(Shift(r)) }

  function Shift4(r: bv16): bv16 { Shift2(Shift2(r)) }

  function Shift8(r: bv16): bv16 { Shift4(Shift4(r)) }

  /** One data byte enters the register, which then shifts once for each of its bits. */
  function FcsByte(r: bv16, b: byte): bv16 {
    Shift8(XorWord(r, Widen(b)))
  }

  function Fcs(r: bv16, s: seq<byte>): bv16
    decreases |s|
  {
    if s == [] then r else Fcs(FcsByte(r, s[0]), s[1..])
  }

  // ------------------------------------------------------------ the table

  function Pick(c: bv8, v0: bv16, v1: bv16, v2: bv16, v3: bv16, v4: bv16, v5: bv16, v6: bv16, v7: bv16): bv16 {
    match c & 7
    case 0 => v0 case 1 => v1 case 2 => v2 case 3 => v3
    case 4 => v4 case 5 => v5 case 6 => v6 case _ => v7
  }

  /** The constant table, in the source's layout of eight entries a row. */
  function FcsTab(i: bv8): bv16 {
    match i >> 3
    case 0x00 => Pick(i, 0x0000, 0x1189, 0x2312, 0x329b, 0x4624, 0x57ad, 0x6536, 0x74bf)
    case 0x01 => Pick(i, 0x8c48, 0x9dc1, 0xaf5a, 0xbed3, 0xca6c, 0xdbe5, 0xe97e, 0xf8f7)
    case 0x02 => Pick(i, 0x1081, 0x0108, 0x3393, 0x221a, 0x56a5, 0x472c, 0x75b7, 0x643e)
    case 0x03 => Pick(i, 0x9cc9, 0x8d40, 0xbfdb, 0xae52, 0xdaed, 0xcb64, 0xf9ff, 0xe876)
    case 0x04 => Pick(i, 0x2102, 0x308b, 0x0210, 0x1399, 0x6726, 0x76af, 0x4434, 0x55bd)
    case 0x05 => Pick(i, 0xad4a, 0xbcc3, 0x8e58, 0x9fd1, 0xeb6e, 0xfae7, 0xc87c, 0xd9f5)
    case 0x06 => Pick(i, 0x3183, 0x200a, 0x1291, 0x0318, 0x77a7, 0x662e, 0x54b5, 0x453c)
    case 0x07 => Pick(i, 0xbdcb, 0xac42, 0x9ed9, 0x8f50, 0xfbef, 0xea66, 0xd8fd, 0xc974)
    case 0x08 => Pick(i, 0x4204, 0x538d, 0x6116, 0x709f, 0x0420, 0x15a9, 0x2732, 0x36bb)
    case 0x09 => Pick(i, 0xce4c, 0xdfc5, 0xed5e, 0xfcd7, 0x8868, 0x99e1, 0xab7a, 0xbaf3)
    case 0x0a => Pick(i, 0x5285, 0x430c, 0x7197, 0x601e, 0x14a1, 0x0528, 0x37b3, 0x263a)
    case 0x0b => Pick(i, 0xdecd, 0xcf44, 0xfddf, 0xec56, 0x98e9, 0x8960, 0xbbfb, 0xaa72)
    case 0x0c => Pick(i, 0x6306, 0x728f, 0x4014, 0x519d, 0x2522, 0x34ab, 0x0630, 0x17b9)
    case 0x0d => Pick(i, 0xef4e, 0xfec7, 0xcc5c, 0xddd5, 0xa96a, 0xb8e3, 0x8a78, 0x9bf1)
    case 0x0e => Pick(i, 0x7387, 0x620e, 0x5095, 0x411c, 0x35a3, 0x242a, 0x16b1, 0x0738)
    case 0x0f => Pick(i, 0xffcf, 0xee46, 0xdcdd, 0xcd54, 0xb9eb, 0xa862, 0x9af9, 0x8b70)
    case 0x10 => Pick(i, 0x8408, 0x9581, 0xa71a, 0xb693, 0xc22c, 0xd3a5, 0xe13e, 0xf0b7)
    case 0x11 => Pick(i, 0x0840, 0x19c9, 0x2b52, 0x3adb, 0x4e64, 0x5fed, 0x6d76, 0x7cff)
    case 0x12 => Pick(i, 0x9489, 0x8500, 0xb79b, 0xa612, 0xd2ad, 0xc324, 0xf1bf, 0xe036)
    case 0x13 => Pick(i, 0x18c1, 0x0948, 0x3bd3, 0x2a5a, 0x5ee5, 0x4f6c, 0x7df7, 0x6c7e)
    case 0x14 => Pick(i, 0xa50a, 0xb483, 0x8618, 0x9791, 0xe32e, 0xf2a7, 0xc03c, 0xd1b5)
    case 0x15 => Pick(i, 0x2942, 0x38cb, 0x0a50, 0x1bd9, 0x6f66, 0x7eef, 0x4c74, 0x5dfd)
    case 0x16 => Pick(i, 0xb58b, 0xa402, 0x9699, 0x8710, 0xf3af, 0xe226, 0xd0bd, 0xc134)
    case 0x17 => Pick(i, 0x39c3, 0x284a, 0x1ad1, 0x0b58, 0x7fe7, 0x6e6e, 0x5cf5, 0x4d7c)
    case 0x18 => Pick(i, 0xc60c, 0xd785, 0xe51e, 0xf497, 0x8028, 0x91a1, 0xa33a, 0xb2b3)
    case 0x19 => Pick(i, 0x4a44, 0x5bcd, 0x6956, 0x78df, 0x0c60, 0x1de9, 0x2f72, 0x3efb)
    case 0x1a => Pick(i, 0xd68d, 0xc704, 0xf59f, 0xe416, 0x90a9, 0x8120, 0xb3bb, 0xa232)
    case 0x1b => Pick(i, 0x5ac5, 0x4b4c, 0x79d7, 0x685e, 0x1ce1, 0x0d68, 0x3ff3, 0x2e7a)
    case 0x1c => Pick(i, 0xe70e, 0xf687, 0xc41c, 0xd595, 0xa12a, 0xb0a3, 0x8238, 0x93b1)
    case 0x1d => Pick(i, 0x6b46, 0x7acf, 0x4854, 0x59dd, 0x2d62, 0x3ceb, 0x0e70, 0x1ff9)
    case 0x1e => Pick(i, 0xf78f, 0xe606, 0xd49d, 0xc514, 0xb1ab, 0xa022, 0x92b9, 0x8330)
    case _    => Pick(i, 0x7bc7, 0x6a4e, 0x58d5, 0x495c, 0x3de3, 0x2c6a, 0x1ef1, 0x0f78)
  }

  /** The update of the register as the source computes it. */
  function TableUpdate(r: bv16, b: byte): bv16 {
    XorWord(r >> 8, FcsTab(LowByte(XorWord(r, Widen(b)))))
  }

  // Every two rows of the table are a small problem of their own.
  lemma TableRows0(i: byte) requires i >> 4 == 0 ensures FcsTab(i) == Shift8(Widen(i)) {}

  lemma TableRows1(i: byte) requires i >> 4 == 1 ensures FcsTab(i) == Shift8(Widen(i)) {}

  lemma TableRows2(i: byte) requires i >> 4 == 2 ensures FcsTab(i) == Shift8(Widen(i)) {}

  lemma TableRows3(i: byte) requires i >> 4 == 3 ensures FcsTab(i) == Shift8(Widen(i)) {}

  lemma TableRows4(i: byte) requires i >> 4 == 4 ensures FcsTab(i) == Shift8(Widen(i)) {}

  lemma TableRows5(i: byte) requires i >> 4 == 5 ensures FcsTab(i) == Shift8(Widen(i)) {}

  lemma TableRows6(i: byte) requires i >> 4 == 6 ensures FcsTab(i) == Shift8(Widen(i)) {}

  lemma TableRows7(i: byte) requires i >> 4 == 7 ensures FcsTab(i) == Shift8(Widen(i)) {}

  lemma TableRows8(i: byte) requires i >> 4 == 8 ensures FcsTab(i) == Shift8(Widen(i)) {}

  lemma TableRows9(i: byte) requires i >> 4 == 9 ensures FcsTab(i) == Shift8(Widen(i)) {}

  lemma TableRows10(i: byte) requires i >> 4 == 10 ensures FcsTab(i) == Shift8(Widen(i)) {}

  lemma TableRows11(i: byte) requires i >> 4 == 11 ensures FcsTab(i) == Shift8(Widen(i)) {}

  lemma TableRows12(i: byte) requires i >> 4 == 12 ensures FcsTab(i) == Shift8(Widen(i)) {}

  lemma TableRows13(i: byte) requires i >> 4 == 13 ensures FcsTab(i) == Shift8(Widen(i)) {}

  lemma TableRows14(i: byte) requires i >> 4 == 14 ensures FcsTab(i) == Shift8(Widen(i)) {}

  lemma TableRows15(i: byte) requires i >> 4 == 15 ensures FcsTab(i) == Shift8(Widen(i)) {}

  /** Every entry of the table is eight shifts of its own index. */
  lemma TableEntry(i: byte)
    ensures FcsTab(i) == Shift8(Widen(i))
  {
    hide FcsTab, Shift8;
    match i >> 4
    case 0 => TableRows0(i);
    case 1 => TableRows1(i);
    case 2 => TableRows2(i);
    case 3 => TableRows3(i);
    case 4 => TableRows4(i);
    case 5 => TableRows5(i);
    case 6 => TableRows6(i);
    case 7 => TableRows7(i);
    case 8 => TableRows8(i);
    case 9 => TableRows9(i);
    case 10 => TableRows10(i);
    case 11 => TableRows11(i);
    case 12 => TableRows12(i);
    case 13 => TableRows13(i);
    case 14 => TableRows14(i);
    case _ => TableRows15(i);
  }

  /** The table-driven update of the register is the update of the shift register. */
  lemma TableIsShiftRegister(r: bv16, b: byte)
    ensures TableUpdate(r, b) == FcsByte(r, b)
  {
    hide FcsTab, Shift8, XorWord, Widen;
    var x := XorWord(r, Widen(b));
    var lo := LowByte(x);
    HalvesOfWord(x);
    Shift8Linear(x & 0xff00, Widen(lo));
    HighHalfShiftsOut(x);
    HighHalfIgnoresData(r, b);
    TableEntry(lo);
  }

  lemma HalvesOfWord(x: bv16)
    ensures XorWord(x & 0xff00, Widen(LowByte(x))) == x
  {
    assert Widen(LowByte(x)) == x & 0xff;
    assert XorWord(x & 0xff00, x & 0xff) == x;
  }

  lemma HighHalfShiftsOut(x: bv16)
    ensures Shift8(x & 0xff00) == x >> 8
  {}

  lemma HighHalfIgnoresData(r: bv16, b: byte)
    ensures XorWord(r, Widen(b)) >> 8 == r >> 8
  {}

  // ------------------------------------------------------------ algebra of exclusive or

  lemma XorAssociative(a: bv16, b: bv16, c: bv16)
    ensures XorWord(XorWord(a, b), c) == XorWord(a, XorWord(b, c))
  {
    assert XorWord(a ^ b, c) == a ^ b ^ c;
    assert XorWord(a, b ^ c) == a ^ b ^ c;
  }

  lemma XorCommutative(a: bv16, b: bv16)
    ensures XorWord(a, b) == XorWord(b, a)
  {}

  lemma XorSelf(a: bv16)
    ensures XorWord(a, a) == 0
  {}

  lemma XorIsZero(a: bv16, b: bv16)
    requires XorWord(a, b) == 0
    ensures a == b
  {}

  lemma XorZero(a: bv16, b: bv16)
    ensures XorWord(a, b) == 0 <==> a == b
  {
    hide XorWord;
    if a == b {
      XorSelf(a);
    } else if XorWord(a, b) == 0 {
      XorIsZero(a, b);
    }
  }

  lemma XorCancels(a: bv16, b: bv16, c: bv16)
    requires XorWord(a, c) == XorWord(b, c)
    ensures a == b
  {}

  lemma WidenXor(a: byte, b: byte)
    ensures Widen(XorByte(a, b)) == XorWord(Widen(a), Widen(b))
  {}

  lemma XorExchange(a: bv16, b: bv16, c: bv16, d: bv16)
    ensures XorWord(XorWord(a, b), XorWord(c, d)) == XorWord(XorWord(a, c), XorWord(b, d))
  {
    hide XorWord;
    XorAssociative(a, b, XorWord(c, d));
    XorAssociative(b, c, d);
    XorCommutative(b, c);
    XorAssociative(c, b, d);
    XorAssociative(a, c, XorWord(b, d));
  }

  // ------------------------------------------------------------ linearity

  lemma ShiftLinearEven(f: bv16, g: bv16)
    requires f & 1 == 0 && g & 1 == 0
    ensures Shift(XorWord(f, g)) == XorWord(Shift(f), Shift(g))
  {}

  lemma ShiftLinearMixed(f: bv16, g: bv16)
    requires f & 1 == 1 && g & 1 == 0
    ensures Shift(XorWord(f, g)) == XorWord(Shift(f), Shift(g))
  {}

  lemma ShiftLinearOdd(f: bv16, g: bv16)
    requires f & 1 == 1 && g & 1 == 1
    ensures Shift(XorWord(f, g)) == XorWord(Shift(f), Shift(g))
  {}

  lemma LowBit(r: bv16)
    ensures r & 1 == 0 || r & 1 == 1
  {}

  lemma ShiftLinear(f: bv16, g: bv16)
    ensures Shift(XorWord(f, g)) == XorWord(Shift(f), Shift(g))
  {
    hide Shift, XorWord;
    LowBit(f);
    LowBit(g);
    if f & 1 == 0 && g & 1 == 0 {
      ShiftLinearEven(f, g);
    } else if f & 1 == 1 && g & 1 == 1 {
      ShiftLinearOdd(f, g);
    } else if f & 1 == 1 {
      ShiftLinearMixed(f, g);
    } else {
      ShiftLinearMixed(g, f);
      XorCommutative(f, g);
      XorCommutative(Shift(f), Shift(g));
    }
  }

  lemma Shift2Linear(f: bv16, g: bv16)
    ensures Shift2(XorWord(f, g)) == XorWord(Shift2(f), Shift2(g))
  {
    hide Shift, XorWord;
    ShiftLinear(f, g);
    ShiftLinear(Shift(f), Shift(g));
  }

  lemma Shift4Linear(f: bv16, g: bv16)
    ensures Shift4(XorWord(f, g)) == XorWord(Shift4(f), Shift4(g))
  {
    hide Shift2, XorWord;
    Shift2Linear(f, g);
    Shift2Linear(Shift2(f), Shift2(g));
  }

  lemma Shift8Linear(f: bv16, g: bv16)
    ensures Shift8(XorWord(f, g)) == XorWord(Shift8(f), Shift8(g))
  {
    hide Shift4, XorWord;
    Shift4Linear(f, g);
    Shift4Linear(Shift4(f), Shift4(g));
  }

  lemma ByteLinear(f: bv16, g: bv16, a: byte, b: byte)
    ensures FcsByte(XorWord(f, g), XorByte(a, b)) == XorWord(FcsByte(f, a), FcsByte(g, b))
  {
    hide Shift8, XorWord, XorByte, Widen;
    WidenXor(a, b);
    XorExchange(f, g, Widen(a), Widen(b));
    Shift8Linear(XorWord(f, Widen(a)), XorWord(g, Widen(b)));
  }

  /** The bytewise difference of two sequences of one length. */
  function Difference(a: seq<byte>, b: seq<byte>): (c: seq<byte>)
    requires |a| == |b|
    ensures |c| == |a|
  {
    if a == [] then [] else [XorByte(a[0], b[0])] + Difference(a[1..], b[1..])
  }

  lemma {:induction false} FcsLinear(f: bv16, g: bv16, a: seq<byte>, b: seq<byte>)
    requires |a| == |b|
    ensures Fcs(XorWord(f, g), Difference(a, b)) == XorWord(Fcs(f, a), Fcs(g, b))
    decreases |a|
  {
    hide FcsByte, XorWord, XorByte;
    if a != [] {
      ByteLinear(f, g, a[0], b[0]);
      FcsLinear(FcsByte(f, a[0]), FcsByte(g, b[0]), a[1..], b[1..]);
      assert Difference(a, b)[1..] == Difference(a[1..], b[1..]);
    }
  }

  /** Whether two sequences of one length share a check depends on nothing but their difference. */
  lemma FcsCollision(r: bv16, a: seq<byte>, b: seq<byte>)
    requires |a| == |b|
    ensures Fcs(r, a) == Fcs(r, b) <==> Fcs(0, Difference(a, b)) == 0
  {
    hide Fcs, XorWord, Difference;
    FcsLinear(r, r, a, b);
    XorZero(r, r);
    XorZero(Fcs(r, a), Fcs(r, b));
  }

  // ------------------------------------------------------------ what the check detects

  lemma ShiftInjective(f: bv16, g: bv16)
    requires Shift(f) == Shift(g)
    ensures f == g
  {}

  lemma Shift2Injective(f: bv16, g: bv16)
    requires Shift2(f) == Shift2(g)
    ensures f == g
  {
    hide Shift;
    ShiftInjective(Shift(f), Shift(g));
    ShiftInjective(f, g);
  }

  lemma Shift4Injective(f: bv16, g: bv16)
    requires Shift4(f) == Shift4(g)
    ensures f == g
  {
    hide Shift2;
    Shift2Injective(Shift2(f), Shift2(g));
    Shift2Injective(f, g);
  }

  lemma Shift8Injective(f: bv16, g: bv16)
    requires Shift8(f) == Shift8(g)
    ensures f == g
  {
    hide Shift4;
    Shift4Injective(Shift4(f), Shift4(g));
    Shift4Injective(f, g);
  }

  /** A byte update loses neither the register (for a known byte) nor the byte (for a known register). */
  lemma ByteInjective(f: bv16, g: bv16, a: byte, b: byte)
    requires f == g || a == b
    requires FcsByte(f, a) == FcsByte(g, b)
    ensures f == g && a == b
  {
    hide Shift8, XorWord, Widen;
    Shift8Injective(XorWord(f, Widen(a)), XorWord(g, Widen(b)));
    XorCommutative(f, Widen(a));
    XorCommutative(g, Widen(b));
    if a == b {
      XorCancels(f, g, Widen(a));
    } else {
      XorCancels(Widen(a), Widen(b), f);
      WidenInjective(a, b);
    }
  }

  lemma WidenInjective(a: byte, b: byte)
    requires Widen(a) == Widen(b)
    ensures a == b
  {}

  lemma {:induction false} FcsAppend(r: bv16, a: seq<byte>, b: seq<byte>)
    ensures Fcs(r, a + b) == Fcs(Fcs(r, a), b)
    decreases |a|
  {
    hide FcsByte;
    if a == [] {
      assert a + b == b;
    } else {
      assert (a + b)[1..] == a[1..] + b;
      FcsAppend(FcsByte(r, a[0]), a[1..], b);
    }
  }

  /** Registers that differ stay different, whatever equal bytes follow. */
  lemma {:induction false} FcsInjective(f: bv16, g: bv16, s: seq<byte>)
    requires f != g
    ensures Fcs(f, s) != Fcs(g, s)
    decreases |s|
  {
    hide FcsByte;
    if s != [] {
      if FcsByte(f, s[0]) == FcsByte(g, s[0]) {
        ByteInjective(f, g, s[0], s[0]);
      }
      FcsInjective(FcsByte(f, s[0]), FcsByte(g, s[0]), s[1..]);
    }
  }

  lemma FcsAround(r: bv16, p: seq<byte>, x: seq<byte>, s: seq<byte>)
    ensures Fcs(r, p + x + s) == Fcs(Fcs(Fcs(r, p), x), s)
  {
    hide Fcs;
    FcsAppend(r, p + x, s);
    FcsAppend(r, p, x);
  }

  lemma EmptyCheck(r: bv16)
    ensures Fcs(r, []) == r
  {}

  lemma OneByte(r: bv16, x: byte)
    ensures Fcs(r, [x]) == FcsByte(r, x)
  {
    hide FcsByte;
    assert [x][1..] == [];
  }

  /** Any change of a single byte changes the check. */
  lemma OneByteChangeShows(r: bv16, p: seq<byte>, x: byte, y: byte, s: seq<byte>)
    requires x != y
    ensures Fcs(r, p + [x] + s) != Fcs(r, p + [y] + s)
  {
    hide Fcs, FcsByte;
    var f := Fcs(r, p);
    FcsAround(r, p, [x], s);
    FcsAround(r, p, [y], s);
    OneByte(f, x);
    OneByte(f, y);
    if FcsByte(f, x) == FcsByte(f, y) {
      ByteInjective(f, f, x, y);
    }
    FcsInjective(FcsByte(f, x), FcsByte(f, y), s);
  }

  /** The bits set in three successive bytes lie within sixteen consecutive ones, in the order of
   *  transmission: they skip the bits of the low mask `m` in the first byte and fit it in the third. */
  predicate BurstAt(d: seq<byte>, m: byte)
    requires |d| == 3
  {
    m & (m + 1) == 0 && d[0] & m == 0 && d[2] & m == d[2]
  }

  lemma BurstLeavesResidue(a: byte, b: byte, c: byte, m: byte)
    requires m & (m + 1) == 0 && a & m == 0 && c & m == c
    requires Shift8(XorWord(Shift8(Widen(a)), Widen(b))) == Widen(c)
    ensures a == 0 && b == 0
  {}

  /** A nonzero burst of at most sixteen bits cannot drive the zero register back to zero. */
  lemma BurstResidue(d: seq<byte>, m: byte)
    requires |d| == 3 && BurstAt(d, m) && Fcs(0, d) == 0
    ensures d == [0, 0, 0]
  {
    hide Fcs, Shift8, XorWord, Widen;
    ThreeBytes(0, d);
    var a, b, c := Widen(d[0]), Widen(d[1]), Widen(d[2]);
    XorFromZero(a);
    var f := Shift8(XorWord(Shift8(a), b));
    assert f == c by {
      ShiftsFromZero();
      Shift8Injective(XorWord(f, c), 0);
      XorZero(f, c);
    }
    BurstLeavesResidue(d[0], d[1], d[2], m);
    assert c == Shift8(XorWord(Shift8(0), 0)) by {
      WidenZero();
    }
    ShiftsFromZero();
    WidenZero();
    WidenInjective(d[2], 0);
  }

  lemma XorFromZero(a: bv16)
    ensures XorWord(0, a) == a
  {}

  lemma WidenZero()
    ensures Widen(0) == 0
  {}

  lemma ShiftsFromZero()
    ensures Shift8(0) == 0 && Shift8(XorWord(Shift8(0), 0)) == 0
  {}

  lemma ThreeBytes(r: bv16, d: seq<byte>)
    requires |d| == 3
    ensures Fcs(r, d) == FcsByte(FcsByte(FcsByte(r, d[0]), d[1]), d[2])
  {
    hide Fcs, FcsByte;
    assert d == [d[0]] + [d[1]] + [d[2]];
    FcsAround(r, [d[0]], [d[1]], [d[2]]);
    OneByte(r, d[0]);
    OneByte(FcsByte(r, d[0]), d[1]);
    OneByte(FcsByte(FcsByte(r, d[0]), d[1]), d[2]);
  }

  /** Any burst error of at most sixteen bits changes the check; a change of two adjacent bytes is one. */
  lemma BurstShows(r: bv16, p: seq<byte>, x: seq<byte>, y: seq<byte>, m: byte, s: seq<byte>)
    requires |x| == |y| == 3 && x != y && BurstAt(Difference(x, y), m)
    ensures Fcs(r, p + x + s) != Fcs(r, p + y + s)
  {
    hide Fcs, BurstAt, Difference;
    var f := Fcs(r, p);
    FcsAround(r, p, x, s);
    FcsAround(r, p, y, s);
    if Fcs(f, x) == Fcs(f, y) {
      FcsCollision(f, x, y);
      BurstResidue(Difference(x, y), m);
      NoDifference(x, y);
    }
    FcsInjective(Fcs(f, x), Fcs(f, y), s);
  }

  lemma XorByteZero(a: byte, b: byte)
    requires XorByte(a, b) == 0
    ensures a == b
  {}

  lemma {:induction false} NoDifference(x: seq<byte>, y: seq<byte>)
    requires |x| == |y|
    requires forall i :: 0 <= i < |x| ==> Difference(x, y)[i] == 0
    ensures x == y
  {
    hide XorByte;
    if x != [] {
      var d := Difference(x, y);
      assert d[0] == 0;
      XorByteZero(x[0], y[0]);
      forall i | 0 <= i < |x| - 1
        ensures Difference(x[1..], y[1..])[i] == 0
      {
        assert d[i + 1] == 0;
      }
      NoDifference(x[1..], y[1..]);
      assert x == [x[0]] + x[1..] && y == [y[0]] + y[1..];
    }
  }

  // ------------------------------------------------------------ parity

  /** Whether a word holds an odd number of 1 bits. */
  function OddWord(r: bv16): bool
    decreases r
  {
    if r == 0 then false else (r & 1 == 1) != OddWord(Half(r))
  }

  /** Whether a byte sequence holds an odd number of 1 bits. */
  function Odd(s: seq<byte>): bool
    decreases |s|
  {
    if s == [] then false else OddWord(Widen(s[0])) != Odd(s[1..])
  }

  lemma OddWordUnfold(r: bv16)
    ensures OddWord(r) == ((r & 1 == 1) != OddWord(Half(r)))
  {}

  lemma Halving(a: bv16)
    ensures a != 0 ==> Half(a) < a
    ensures a == 0 ==> Half(a) == 0
  {}

  lemma XorLowBit(a: bv16, b: bv16)
    ensures (XorWord(a, b) & 1 == 1) == ((a & 1 == 1) != (b & 1 == 1))
  {}

  lemma XorHalves(a: bv16, b: bv16)
    ensures Half(XorWord(a, b)) == XorWord(Half(a), Half(b))
  {
    assert Half(a ^ b) == (a >> 1) ^ (b >> 1);
    assert XorWord(a >> 1, b >> 1) == (a >> 1) ^ (b >> 1);
  }

  lemma {:induction false} OddXor(a: bv16, b: bv16)
    ensures OddWord(XorWord(a, b)) == (OddWord(a) != OddWord(b))
    decreases a, b
  {
    hide XorWord, Half;
    if a == 0 && b == 0 {
      XorSelf(a);
    } else {
      hide OddWord;
      OddWordUnfold(a);
      OddWordUnfold(b);
      OddWordUnfold(XorWord(a, b));
      XorLowBit(a, b);
      XorHalves(a, b);
      Halving(a);
      Halving(b);
      OddXor(Half(a), Half(b));
    }
  }

  /** The polynomial has three taps: what a shift drops, the feedback puts back. */
  lemma PolynomialIsOdd()
    ensures OddWord(POLYNOMIAL)
  {
    hide OddWord;
    OddWordUnfold(0x8408);
    OddWordUnfold(0x4204);
    OddWordUnfold(0x2102);
    OddWordUnfold(0x1081);
    OddWordUnfold(0x0840);
    OddWordUnfold(0x0420);
    OddWordUnfold(0x0210);
    OddWordUnfold(0x0108);
    OddWordUnfold(0x0084);
    OddWordUnfold(0x0042);
    OddWordUnfold(0x0021);
    OddWordUnfold(0x0010);
    OddWordUnfold(0x0008);
    OddWordUnfold(0x0004);
    OddWordUnfold(0x0002);
    OddWordUnfold(0x0001);
    ZeroIsEven();
  }

  lemma ZeroIsEven()
    ensures !OddWord(0)
  {}

  lemma ShiftKeepsParity(r: bv16)
    ensures OddWord(Shift(r)) == OddWord(r)
  {
    hide XorWord, OddWord, Half;
    OddWordUnfold(r);
    PolynomialIsOdd();
    OddXor(Half(r), POLYNOMIAL);
  }

  lemma Shift8KeepsParity(r: bv16)
    ensures OddWord(Shift8(r)) == OddWord(r)
  {
    hide Shift, OddWord;
    ShiftKeepsParity(r);
    ShiftKeepsParity(Shift(r));
    ShiftKeepsParity(Shift2(r));
    ShiftKeepsParity(Shift(Shift2(r)));
    ShiftKeepsParity(Shift4(r));
    ShiftKeepsParity(Shift(Shift4(r)));
    ShiftKeepsParity(Shift2(Shift4(r)));
    ShiftKeepsParity(Shift(Shift2(Shift4(r))));
  }

  lemma {:induction false} FcsParity(r: bv16, s: seq<byte>)
    ensures OddWord(Fcs(r, s)) == (OddWord(r) != Odd(s))
    decreases |s|
  {
    hide OddWord, Shift8, XorWord, Widen;
    if s != [] {
      Shift8KeepsParity(XorWord(r, Widen(s[0])));
      OddXor(r, Widen(s[0]));
      FcsParity(FcsByte(r, s[0]), s[1..]);
    }
  }
}
