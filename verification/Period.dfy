/** How long the shift register runs before it repeats: a word, shifted k times, comes back exactly if
 *  32767 divides k. A word stands for a polynomial over the two-element field, its highest bit for the
 *  constant term, and a shift for multiplication by x; squaring doubles the number of shifts. */
module Period {
  import opened Fcs

  function Shifts(k: nat, r: bv16): bv16 {
    if k == 0 then r else Shift(Shifts(k - 1, r))
  }

  lemma {:induction false} ShiftsAdd(j: nat, k: nat, r: bv16)
    ensures Shifts(j + k, r) == Shifts(j, Shifts(k, r))
  {
    hide Shift;
    if j > 0 {
      ShiftsAdd(j - 1, k, r);
    }
  }

  lemma {:induction false} ShiftsInjective(k: nat, f: bv16, g: bv16)
    requires Shifts(k, f) == Shifts(k, g)
    ensures f == g
  {
    hide Shift;
    if k > 0 {
      ShiftInjective(Shifts(k - 1, f), Shifts(k - 1, g));
      ShiftsInjective(k - 1, f, g);
    }
  }

  lemma {:induction false} ShiftsLinear(k: nat, f: bv16, g: bv16)
    ensures Shifts(k, XorWord(f, g)) == XorWord(Shifts(k, f), Shifts(k, g))
  {
    hide Shift, XorWord;
    if k > 0 {
      ShiftsLinear(k - 1, f, g);
      ShiftLinear(Shifts(k - 1, f), Shifts(k - 1, g));
    }
  }

  // ------------------------------------------------------------ squaring

  /** The polynomial 1, and its k-th multiple by x. */
  const ONE: bv16 := 0x8000

  function Power(k: nat): bv16 {
    Shifts(k, ONE)
  }

  function Term(v: bv16, bit: bv16, square: bv16): bv16 {
    if v & bit != 0 then square else 0
  }

  function Terms(v: bv16, bit: bv16, s0: bv16, s1: bv16, s2: bv16, s3: bv16): bv16 {
    XorWord(XorWord(Term(v, bit, s0), Term(v, bit >> 1, s1)), XorWord(Term(v, bit >> 2, s2), Term(v, bit >> 3, s3)))
  }

  function HighTerms(v: bv16): bv16 {
    XorWord(Terms(v, 0x8000, 0x8000, 0x2000, 0x0800, 0x0200), Terms(v, 0x0800, 0x0080, 0x0020, 0x0008, 0x0002))
  }

  function LowTerms(v: bv16): bv16 {
    XorWord(Terms(v, 0x0080, 0x8408, 0x2102, 0x8c48, 0x2312), Terms(v, 0x0008, 0x8ccc, 0x2333, 0xcec0, 0x33b0))
  }

  /** The square of a polynomial: each power of x that occurs in it is squared and reduced. */
  function Square(v: bv16): bv16 {
    XorWord(HighTerms(v), LowTerms(v))
  }

  lemma TermLinear(a: bv16, b: bv16, bit: bv16, s: bv16)
    requires bit & (bit - 1) == 0
    ensures Term(XorWord(a, b), bit, s) == XorWord(Term(a, bit, s), Term(b, bit, s))
  {
    hide XorWord;
    MaskOfXor(a, b, bit);
    OneBit(a, bit);
    OneBit(b, bit);
    XorSelf(bit);
    XorSelf(s);
    XorFromZero(bit);
    XorFromZero(s);
    XorCommutative(0, bit);
    XorCommutative(0, s);
    XorSelf(0);
  }

  lemma MaskOfXor(a: bv16, b: bv16, bit: bv16)
    ensures XorWord(a, b) & bit == XorWord(a & bit, b & bit)
  {}

  lemma OneBit(v: bv16, bit: bv16)
    requires bit & (bit - 1) == 0
    ensures v & bit == 0 || v & bit == bit
  {}

  lemma TermsLinear(a: bv16, b: bv16, bit: bv16, s0: bv16, s1: bv16, s2: bv16, s3: bv16)
    requires bit & (bit - 1) == 0
    ensures Terms(XorWord(a, b), bit, s0, s1, s2, s3) ==
            XorWord(Terms(a, bit, s0, s1, s2, s3), Terms(b, bit, s0, s1, s2, s3))
  {
    hide Term, XorWord;
    HalfOfPower(bit);
    TermLinear(a, b, bit, s0);
    TermLinear(a, b, bit >> 1, s1);
    TermLinear(a, b, bit >> 2, s2);
    TermLinear(a, b, bit >> 3, s3);
    XorExchange(Term(a, bit, s0), Term(b, bit, s0), Term(a, bit >> 1, s1), Term(b, bit >> 1, s1));
    XorExchange(Term(a, bit >> 2, s2), Term(b, bit >> 2, s2), Term(a, bit >> 3, s3), Term(b, bit >> 3, s3));
    XorExchange(XorWord(Term(a, bit, s0), Term(a, bit >> 1, s1)), XorWord(Term(b, bit, s0), Term(b, bit >> 1, s1)),
                XorWord(Term(a, bit >> 2, s2), Term(a, bit >> 3, s3)),
                XorWord(Term(b, bit >> 2, s2), Term(b, bit >> 3, s3)));
  }

  lemma HalfOfPower(bit: bv16)
    requires bit & (bit - 1) == 0
    ensures (bit >> 1) & ((bit >> 1) - 1) == 0
    ensures (bit >> 2) & ((bit >> 2) - 1) == 0
    ensures (bit >> 3) & ((bit >> 3) - 1) == 0
  {}

  lemma SquareLinear(a: bv16, b: bv16)
    ensures Square(XorWord(a, b)) == XorWord(Square(a), Square(b))
  {
    hide Terms, XorWord;
    TermsLinear(a, b, 0x8000, 0x8000, 0x2000, 0x0800, 0x0200);
    TermsLinear(a, b, 0x0800, 0x0080, 0x0020, 0x0008, 0x0002);
    TermsLinear(a, b, 0x0080, 0x8408, 0x2102, 0x8c48, 0x2312);
    TermsLinear(a, b, 0x0008, 0x8ccc, 0x2333, 0xcec0, 0x33b0);
    XorExchange(Terms(a, 0x8000, 0x8000, 0x2000, 0x0800, 0x0200), Terms(b, 0x8000, 0x8000, 0x2000, 0x0800, 0x0200),
                Terms(a, 0x0800, 0x0080, 0x0020, 0x0008, 0x0002), Terms(b, 0x0800, 0x0080, 0x0020, 0x0008, 0x0002));
    XorExchange(Terms(a, 0x0080, 0x8408, 0x2102, 0x8c48, 0x2312), Terms(b, 0x0080, 0x8408, 0x2102, 0x8c48, 0x2312),
                Terms(a, 0x0008, 0x8ccc, 0x2333, 0xcec0, 0x33b0), Terms(b, 0x0008, 0x8ccc, 0x2333, 0xcec0, 0x33b0));
    XorExchange(HighTerms(a), HighTerms(b), LowTerms(a), LowTerms(b));
  }

  /** Words of a few bits each; every other word is a sum of such. */
  lemma SquareOfShift0(v: bv16) requires v & 0xfffe == 0 ensures Square(Shift(v)) == Shift(Shift(Square(v))) {}

  lemma SquareOfShift1(v: bv16) requires v & 0xfff1 == 0 ensures Square(Shift(v)) == Shift(Shift(Square(v))) {}

  lemma SquareOfShift2(v: bv16) requires v & 0xff0f == 0 ensures Square(Shift(v)) == Shift(Shift(Square(v))) {}

  lemma SquareOfShift3(v: bv16) requires v & 0xf0ff == 0 ensures Square(Shift(v)) == Shift(Shift(Square(v))) {}

  lemma SquareOfShift4(v: bv16) requires v & 0x0fff == 0 ensures Square(Shift(v)) == Shift(Shift(Square(v))) {}

  lemma SquareOfShiftSum(a: bv16, b: bv16)
    requires Square(Shift(a)) == Shift(Shift(Square(a))) && Square(Shift(b)) == Shift(Shift(Square(b)))
    ensures Square(Shift(XorWord(a, b))) == Shift(Shift(Square(XorWord(a, b))))
  {
    hide Square, Shift, XorWord;
    ShiftLinear(a, b);
    SquareLinear(Shift(a), Shift(b));
    SquareLinear(a, b);
    ShiftLinear(Square(a), Square(b));
    ShiftLinear(Shift(Square(a)), Shift(Square(b)));
  }

  lemma Nibbles(v: bv16)
    ensures v == XorWord(XorWord(v & 0x000f, v & 0x00f0), XorWord(v & 0x0f00, v & 0xf000))
    ensures (v & 0x000f) & 0xfff0 == 0 && (v & 0x00f0) & 0xff0f == 0
    ensures (v & 0x0f00) & 0xf0ff == 0 && (v & 0xf000) & 0x0fff == 0
  {}

  lemma LowNibble(v: bv16)
    requires v & 0xfff0 == 0
    ensures v == XorWord(v & 0x0001, v & 0x000e)
    ensures (v & 0x0001) & 0xfffe == 0 && (v & 0x000e) & 0xfff1 == 0
  {}

  lemma SquareOfShift(v: bv16)
    ensures Square(Shift(v)) == Shift(Shift(Square(v)))
  {
    hide Square, Shift, XorWord;
    Nibbles(v);
    LowNibble(v & 0x000f);
    var v0, v1, v2, v3 := v & 0x000f, v & 0x00f0, v & 0x0f00, v & 0xf000;
    SquareOfShift0(v0 & 0x0001);
    SquareOfShift1(v0 & 0x000e);
    SquareOfShiftSum(v0 & 0x0001, v0 & 0x000e);
    SquareOfShift2(v1);
    SquareOfShift3(v2);
    SquareOfShift4(v3);
    SquareOfShiftSum(v0, v1);
    SquareOfShiftSum(v2, v3);
    SquareOfShiftSum(XorWord(v0, v1), XorWord(v2, v3));
  }

  lemma {:induction false} SquareOfShifts(k: nat, r: bv16)
    ensures Square(Shifts(k, r)) == Shifts(2 * k, Square(r))
  {
    hide Square, Shift;
    if k > 0 {
      SquareOfShift(Shifts(k - 1, r));
      SquareOfShifts(k - 1, r);
      assert Shifts(2 * k, Square(r)) == Shift(Shifts(2 * k - 1, Square(r)));
    }
  }

  // ------------------------------------------------------------ the period

  lemma SquareOfOne()
    ensures Square(ONE) == ONE
  {}

  lemma Twice(k: nat, w: bv16, w': bv16)
    requires Power(k) == w && Square(w) == w'
    ensures Power(2 * k) == w'
  {
    hide Square, Shift;
    SquareOfShifts(k, ONE);
    SquareOfOne();
  }

  lemma TwiceAndOne(k: nat, w: bv16, w': bv16)
    requires Power(k) == w && Shift(Square(w)) == w'
    ensures Power(2 * k + 1) == w'
  {
    hide Square, Shift;
    SquareOfShifts(k, ONE);
    SquareOfOne();
  }

  lemma PowerOne()
    ensures Power(1) == 0x4000
  {}

  lemma Power217()
    ensures Power(217) == 0xc712
  {
    PowerOne();
    TwiceAndOne(1, 0x4000, 0x1000);
    Twice(3, 0x1000, 0x0200);
    TwiceAndOne(6, 0x0200, 0x0004);
    TwiceAndOne(13, 0x0004, 0x9591);
    Twice(27, 0x9591, 0x1688);
    Twice(54, 0x1688, 0x0aec);
    TwiceAndOne(108, 0x0aec, 0xc712);
  }

  lemma Power1057()
    ensures Power(1057) == 0xf54f
  {
    PowerOne();
    Twice(1, 0x4000, 0x2000);
    Twice(2, 0x2000, 0x0800);
    Twice(4, 0x0800, 0x0080);
    Twice(8, 0x0080, 0x8408);
    TwiceAndOne(16, 0x8408, 0x0676);
    Twice(33, 0x0676, 0x6383);
    Twice(66, 0x6383, 0x5172);
    Twice(132, 0x5172, 0x629a);
    Twice(264, 0x629a, 0xcd1e);
    TwiceAndOne(528, 0xcd1e, 0xf54f);
  }

  lemma Power4681()
    ensures Power(4681) == 0x4234
  {
    PowerOne();
    Twice(1, 0x4000, 0x2000);
    Twice(2, 0x2000, 0x0800);
    TwiceAndOne(4, 0x0800, 0x0040);
    Twice(9, 0x0040, 0x2102);
    Twice(18, 0x2102, 0xc6c2);
    TwiceAndOne(36, 0xc6c2, 0x65f1);
    Twice(73, 0x65f1, 0x11c2);
    Twice(146, 0x11c2, 0x69c8);
    TwiceAndOne(292, 0x69c8, 0x00a2);
    Twice(585, 0x00a2, 0xc680);
    Twice(1170, 0xc680, 0x2420);
    TwiceAndOne(2340, 0x2420, 0x4234);
  }

  lemma Power32768()
    ensures Power(32768) == 0x4000
  {
    PowerOne();
    Twice(1, 0x4000, 0x2000);
    Twice(2, 0x2000, 0x0800);
    Twice(4, 0x0800, 0x0080);
    Twice(8, 0x0080, 0x8408);
    Twice(16, 0x8408, 0x0cec);
    Twice(32, 0x0cec, 0x861d);
    Twice(64, 0x861d, 0x3f75);
    Twice(128, 0x3f75, 0x9471);
    Twice(256, 0x9471, 0x3fc8);
    Twice(512, 0x3fc8, 0x236c);
    Twice(1024, 0x236c, 0x0abf);
    Twice(2048, 0x0abf, 0x7955);
    Twice(4096, 0x7955, 0x3811);
    Twice(8192, 0x3811, 0x1a22);
    Twice(16384, 0x1a22, 0x4000);
  }

  predicate Returns(k: nat) {
    Power(k) == ONE
  }

  lemma ReturnsDifference(a: nat, b: nat)
    requires Returns(b)
    ensures Returns(a + b) <==> Returns(a)
  {
    hide Shifts;
    ShiftsAdd(a, b, ONE);
  }

  lemma {:induction false} ReturnsMultiple(c: nat, n: nat)
    requires Returns(c)
    ensures Returns(c * n)
  {
    hide Returns;
    if n == 0 {
      assert Returns(0) by { ReturnsAtOnce(); }
    } else {
      ReturnsMultiple(c, n - 1);
      ReturnsDifference(c * (n - 1), c);
      assert c * n == c * (n - 1) + c;
    }
  }

  lemma ReturnsAtOnce()
    ensures Returns(0)
  {}

  /** The remainders of exponents that return, scaled by `c`, return as well. */
  lemma ReturnsRemainder(c: nat, a: nat, b: nat)
    requires b > 0 && Returns(c * a) && Returns(c * b)
    ensures Returns(c * (a % b))
  {
    hide Returns;
    ReturnsMultiple(c * b, a / b);
    assert c * a == c * (a % b) + c * b * (a / b) by {
      assert a == a % b + b * (a / b);
    }
    ReturnsDifference(c * (a % b), c * b * (a / b));
  }

  ghost predicate Prime(p: nat) {
    p > 1 && forall j :: 1 < j < p ==> p % j != 0
  }

  /** Euclid's descent: among the multiples of `c`, those that return have a common step. */
  lemma {:induction false} Descent(c: nat, p: nat, j: nat)
    requires Prime(p) && 0 < j < p && Returns(c * p) && Returns(c * j)
    ensures Returns(c)
    decreases j
  {
    hide Returns;
    if j > 1 {
      ReturnsRemainder(c, p, j);
      Descent(c, p, p % j);
    }
  }

  lemma PrimeDivides(c: nat, p: nat, k: nat)
    requires Prime(p) && Returns(c * p) && !Returns(c) && Returns(k)
    ensures k % p == 0
  {
    hide Returns;
    if k % p != 0 {
      ReturnsMultiple(k, c);
      assert k * c == c * k;
      ReturnsRemainder(c, k, p);
      Descent(c, p, k % p);
    }
  }

  lemma ProductAtLeast(i: nat, k: nat)
    requires k > 0
    ensures i * k >= i
  {}

  lemma OnlyMultiplesLeaveNothing(i: nat, j: nat, q: nat, r: nat)
    requires i * j == i * q + r && r < i
    ensures r == 0
  {
    if j > q {
      var k := j - q;
      assert i * j == i * q + i * k;
      ProductAtLeast(i, k);
    } else if j < q {
      var k := q - j;
      assert i * q == i * j + i * k;
      ProductAtLeast(i, k);
    }
  }

  lemma NoSmallFactor(p: nat)
    requires 1 < p < 169 && forall i :: 2 <= i < 13 && i < p ==> p % i != 0
    ensures Prime(p)
  {
    forall j | 1 < j < p
      ensures p % j != 0
    {
      var q := p / j;
      if j >= 13 && p % j == 0 {
        assert p == j * q && q < 13;
        OnlyMultiplesLeaveNothing(q, j, p / q, p % q);
      }
    }
  }

  lemma ThreePrimes()
    ensures Prime(7) && Prime(31) && Prime(151)
  {
    NoSmallFactor(7);
    NoSmallFactor(31);
    NoSmallFactor(151);
  }

  lemma ThreeFactors(k: nat, a: nat, b: nat, c: nat)
    requires k == 7 * a && k == 31 * b && k == 151 * c
    ensures k % 32767 == 0
  {
    var e := 9 * b - 2 * a;
    assert k == 217 * e;
    assert k == 32767 * (135 * c - 194 * e);
  }

  lemma ShorterPowers()
    ensures !Returns(4681) && !Returns(1057) && !Returns(217)
  {
    Power4681();
    Power1057();
    Power217();
  }

  lemma FullPeriod()
    ensures Returns(32767)
  {
    hide Shifts;
    Power32768();
    PowerOne();
    ShiftsAdd(1, 32767, ONE);
    ShiftsInjective(1, Power(32767), ONE);
  }

  /** 32767 is 7 times 31 times 151, and no proper divisor of it will do. */
  lemma PeriodOfOne(k: nat)
    ensures Power(k) == ONE <==> k % 32767 == 0
  {
    hide Power;
    FullPeriod();
    if Returns(k) {
      ThreePrimes();
      ShorterPowers();
      PrimeDivides(4681, 7, k);
      PrimeDivides(1057, 31, k);
      PrimeDivides(217, 151, k);
      ThreeFactors(k, k / 7, k / 31, k / 151);
    }
    if k % 32767 == 0 {
      ReturnsMultiple(32767, k / 32767);
    }
  }

  /** A single 1 bit that enters the register comes back after every multiple of 32767 shifts, and only then. */
  lemma PeriodExact(k: nat)
    ensures Shifts(k, 1) == 1 <==> k % 32767 == 0
  {
    hide Shifts;
    OneAtTheLowEnd();
    ShiftsAdd(k, 15, ONE);
    ShiftsAdd(15, k, ONE);
    PeriodOfOne(k);
    if Shifts(15, Power(k)) == Shifts(15, ONE) {
      ShiftsInjective(15, Power(k), ONE);
    }
  }

  lemma OneAtTheLowEnd()
    ensures Shifts(15, ONE) == 1
  {
    PowerOne();
    TwiceAndOne(1, 0x4000, 0x1000);
    TwiceAndOne(3, 0x1000, 0x0100);
    TwiceAndOne(7, 0x0100, 0x0001);
  }
}
