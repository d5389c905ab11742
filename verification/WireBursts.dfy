/** Bursts on the wire: changes within sixteen successive bits, in bytes that are and stay ordinary. An escape
 *  character among them takes room on the wire and none in the content, so that the burst can only shrink. */
module WireBursts {
  import opened Bytes
  import opened Fcs
  import opened Stuffing
  import opened Frame
  import opened Detection
  import opened BitErrors
  import opened Receiver
  import opened Streams
  import opened WireDamage
  import opened WireBits

  /** All bits in which two sequences of one length differ lie in this range. */
  predicate DiffersIn(s: seq<byte>, u: seq<byte>, lo: int, hi: int)
    requires |s| == |u|
  {
    forall p: nat :: p < 8 * |s| && Bit(s, p) != Bit(u, p) ==> lo <= p < hi
  }

  lemma BitOfTail(s: seq<byte>, p: nat)
    requires s != [] && p < 8 * |s[1..]|
    ensures Bit(s[1..], p) == Bit(s, p + 8)
  {
    hide HasBit;
    assert (p + 8) / 8 == p / 8 + 1 && (p + 8) % 8 == p % 8;
  }

  lemma DiffersTail(s: seq<byte>, u: seq<byte>, lo: int, hi: int)
    requires |s| == |u| && s != [] && DiffersIn(s, u, lo, hi)
    ensures DiffersIn(s[1..], u[1..], lo - 8, hi - 8)
  {
    hide Bit;
    forall p: nat | p < 8 * |s[1..]| && Bit(s[1..], p) != Bit(u[1..], p)
      ensures lo - 8 <= p < hi - 8
    {
      BitOfTail(s, p);
      BitOfTail(u, p);
    }
  }

  /** The same for the bits of one byte. */
  predicate ByteDiffersIn(x: byte, y: byte, lo: int, hi: int) {
    forall a: nat :: a < 8 && HasBit(x, a) != HasBit(y, a) ==> lo <= a < hi
  }

  lemma DiffersHead(s: seq<byte>, u: seq<byte>, lo: int, hi: int)
    requires |s| == |u| && s != [] && DiffersIn(s, u, lo, hi)
    ensures ByteDiffersIn(s[0], u[0], lo, hi)
  {
    hide HasBit;
    forall a: nat | a < 8 && HasBit(s[0], a) != HasBit(u[0], a)
      ensures lo <= a < hi
    {
      assert Bit(s, a) == HasBit(s[0], a) && Bit(u, a) == HasBit(u[0], a);
    }
  }

  lemma DiffersCons(s: seq<byte>, u: seq<byte>, lo: int, hi: int)
    requires |s| == |u| && s != []
    requires ByteDiffersIn(s[0], u[0], lo, hi) && DiffersIn(s[1..], u[1..], lo - 8, hi - 8)
    ensures DiffersIn(s, u, lo, hi)
  {
    forall p: nat | p < 8 * |s| && Bit(s, p) != Bit(u, p)
      ensures lo <= p < hi
    {
      if p < 8 {
        hide HasBit;
        assert Bit(s, p) == HasBit(s[0], p) && Bit(u, p) == HasBit(u[0], p);
      } else {
        BitOfTail(s, p - 8);
        BitOfTail(u, p - 8);
        hide Bit;
      }
    }
  }

  lemma SameBits(x: byte, y: byte)
    requires forall a: nat :: a < 8 ==> HasBit(x, a) == HasBit(y, a)
    ensures x == y
  {
    assert HasBit(x, 0) == HasBit(y, 0) && HasBit(x, 1) == HasBit(y, 1) && HasBit(x, 2) == HasBit(y, 2);
    assert HasBit(x, 3) == HasBit(y, 3) && HasBit(x, 4) == HasBit(y, 4) && HasBit(x, 5) == HasBit(y, 5);
    assert HasBit(x, 6) == HasBit(y, 6) && HasBit(x, 7) == HasBit(y, 7);
  }

  lemma BitOfDifference(x: byte, y: byte, a: nat)
    requires a < 8
    ensures HasBit(XorByte(x, y), a) == (HasBit(x, a) != HasBit(y, a))
  {}

  lemma EscapedBits(b: byte, c: byte, lo: int, hi: int)
    requires IsSpecial(b) && IsEscapeCode(c) && ByteDiffersIn(b - 0x20, c, lo, hi)
    ensures ByteDiffersIn(b, c + 0x20, lo, hi)
  {
    forall a: nat | a < 8
      ensures (HasBit(b, a) != HasBit(c + 0x20, a)) == (HasBit(b - 0x20, a) != HasBit(c, a))
    {
      BitOfDifference(b, c + 0x20, a);
      BitOfDifference(b - 0x20, c, a);
      EscapedDistance(b, c);
    }
  }

  // ------------------------------------------------------------ from the wire to the content

  /** The first unit of a changed stuffed sequence that still unstuffs. */
  lemma FirstUnit(s: seq<byte>, t: seq<byte>)
    requires s != [] && OrdinaryChange(Stuff(s), t) && Unstuff(t).Some?
    ensures var n := |StuffByte(s[0])|; var u := Unstuff(t).value;
            && n <= |t| && Stuff(s)[n..] == Stuff(s[1..]) && OrdinaryChange(Stuff(s[1..]), t[n..])
            && Unstuff(t[n..]).Some? && u != [] && u[1..] == Unstuff(t[n..]).value
            && (n == 1 ==> u[0] == t[0] && Stuff(s)[0] == s[0])
            && (n == 2 ==> IsSpecial(s[0]) && IsEscapeCode(t[1]) && u[0] == t[1] + 0x20 &&
                           Stuff(s)[1] == s[0] - 0x20)
  {
    var w := Stuff(s);
    OrdinaryTail(w, t);
    if IsSpecial(s[0]) {
      OrdinaryTail(w[1..], t[1..]);
      assert w[1..][1..] == w[2..] && t[1..][1..] == t[2..];
    }
    assert w[|StuffByte(s[0])|..] == Stuff(s[1..]);
  }

  lemma LengthKept(s: seq<byte>, t: seq<byte>)
    requires OrdinaryChange(Stuff(s), t) && Unstuff(t).Some?
    ensures |Unstuff(t).value| == |s|
  {
    hide Stuff, Unstuff, OrdinaryChange;
    OrdinaryChangeOfStuffed(s, t);
  }

  /** A unit of two bytes: what differs in its second byte differs in the content. */
  lemma UnitDiffers(s: seq<byte>, t: seq<byte>, lo: int, hi: int)
    requires s != [] && OrdinaryChange(Stuff(s), t) && Unstuff(t).Some? && DiffersIn(Stuff(s), t, lo, hi)
    ensures var k := 8 * (|StuffByte(s[0])| - 1); var u := Unstuff(t).value;
            && u != [] && ByteDiffersIn(s[0], u[0], lo - k, hi - k)
            && |StuffByte(s[0])| <= |t| && Stuff(s)[|StuffByte(s[0])|..] == Stuff(s[1..])
            && |t[|StuffByte(s[0])|..]| == |Stuff(s[1..])|
            && DiffersIn(Stuff(s[1..]), t[|StuffByte(s[0])|..], lo - k - 8, hi - k - 8)
  {
    FirstUnit(s, t);
    hide Stuff, Unstuff, OrdinaryChange, DiffersIn, ByteDiffersIn;
    var w := Stuff(s);
    DiffersTail(w, t, lo, hi);
    if |StuffByte(s[0])| == 1 {
      DiffersHead(w, t, lo, hi);
    } else {
      DiffersHead(w[1..], t[1..], lo - 8, hi - 8);
      DiffersTail(w[1..], t[1..], lo - 8, hi - 8);
      EscapedBits(s[0], t[1], lo - 8, hi - 8);
      assert w[1..][1..] == w[2..] && t[1..][1..] == t[2..];
    }
  }

  lemma Widened(s: seq<byte>, u: seq<byte>, lo: int, hi: int, lo': int, hi': int)
    requires |s| == |u| && DiffersIn(s, u, lo, hi) && (lo' <= lo || lo' <= 0) && hi <= hi'
    ensures DiffersIn(s, u, lo', hi')
  {
    hide Bit;
  }

  lemma ByteWidened(x: byte, y: byte, lo: int, hi: int, lo': int, hi': int)
    requires ByteDiffersIn(x, y, lo, hi) && (lo' <= lo || lo' <= 0) && hi <= hi'
    ensures ByteDiffersIn(x, y, lo', hi')
  {
    hide HasBit;
  }

  /** Where the wire agrees from some bit on, the content agrees from that bit on. */
  lemma {:induction false} ContentEnds(s: seq<byte>, t: seq<byte>, lo: int, hi: int)
    requires OrdinaryChange(Stuff(s), t) && Unstuff(t).Some? && DiffersIn(Stuff(s), t, lo, hi)
    ensures |Unstuff(t).value| == |s| && DiffersIn(s, Unstuff(t).value, 0, hi)
    decreases |s|
  {
    LengthKept(s, t);
    if s != [] {
      FirstUnit(s, t);
      hide Stuff, Unstuff, OrdinaryChange, DiffersIn, ByteDiffersIn;
      var k, n := 8 * (|StuffByte(s[0])| - 1), |StuffByte(s[0])|;
      var u := Unstuff(t).value;
      UnitDiffers(s, t, lo, hi);
      ContentEnds(s[1..], t[n..], lo - k - 8, hi - k - 8);
      Widened(s[1..], u[1..], 0, hi - k - 8, -8, hi - 8);
      ByteWidened(s[0], u[0], lo - k, hi - k, 0, hi);
      DiffersCons(s, u, 0, hi);
    } else {
      hide *;
      assert |Unstuff(t).value| == 0;
    }
  }

  lemma SomeBitDiffers(x: byte, y: byte, lo: int, hi: int)
    requires x != y && ByteDiffersIn(x, y, lo, hi)
    ensures lo < 8
  {
    hide HasBit;
    if forall a: nat :: a < 8 ==> HasBit(x, a) == HasBit(y, a) {
      SameBits(x, y);
    }
  }

  lemma SameByte(x: byte, lo: int, hi: int)
    ensures ByteDiffersIn(x, x, lo, hi)
  {}

  /** A burst on the wire is a burst, at most as long, in the content. */
  lemma {:induction false} BurstShrinks(s: seq<byte>, t: seq<byte>, lo: int, hi: int) returns (at: int)
    requires OrdinaryChange(Stuff(s), t) && Unstuff(t).Some? && DiffersIn(Stuff(s), t, lo, hi)
    ensures |Unstuff(t).value| == |s| && DiffersIn(s, Unstuff(t).value, at, at + (hi - lo))
    decreases |s|
  {
    LengthKept(s, t);
    if s == [] {
      at := 0;
    } else {
      FirstUnit(s, t);
      hide Stuff, Unstuff, OrdinaryChange, DiffersIn, ByteDiffersIn;
      var k, n := 8 * (|StuffByte(s[0])| - 1), |StuffByte(s[0])|;
      var u := Unstuff(t).value;
      UnitDiffers(s, t, lo, hi);
      if s[0] == u[0] {
        at := BurstShrinks(s[1..], t[n..], lo - k - 8, hi - k - 8);
        at := at + 8;
        SameByte(s[0], at, at + (hi - lo));
      } else {
        at := lo - k;
        SomeBitDiffers(s[0], u[0], lo - k, hi - k);
        ContentEnds(s[1..], t[n..], lo - k - 8, hi - k - 8);
        Widened(s[1..], u[1..], 0, hi - k - 8, at - 8, hi - k - 8);
      }
      DiffersCons(s, u, at, at + (hi - lo));
    }
  }

  // ------------------------------------------------------------ sixteen bits are a burst

  function LowMask(k: nat): byte
    requires k <= 8
  {
    match k
    case 0 => 0x00 case 1 => 0x01 case 2 => 0x03 case 3 => 0x07 case 4 => 0x0f
    case 5 => 0x1f case 6 => 0x3f case 7 => 0x7f case _ => 0xff
  }

  lemma LowMaskIsLow(k: nat)
    requires k <= 8
    ensures LowMask(k) & (LowMask(k) + 1) == 0
  {}

  lemma NoLowBits(x: byte, k: nat)
    requires k <= 8 && forall a: nat :: a < k ==> !HasBit(x, a)
    ensures x & LowMask(k) == 0
  {
    assert k > 0 ==> !HasBit(x, 0);
    assert k > 1 ==> !HasBit(x, 1);
    assert k > 2 ==> !HasBit(x, 2);
    assert k > 3 ==> !HasBit(x, 3);
    assert k > 4 ==> !HasBit(x, 4);
    assert k > 5 ==> !HasBit(x, 5);
    assert k > 6 ==> !HasBit(x, 6);
    assert k > 7 ==> !HasBit(x, 7);
  }

  lemma OnlyLowBits(x: byte, k: nat)
    requires k <= 8 && forall a: nat :: k <= a < 8 ==> !HasBit(x, a)
    ensures x & LowMask(k) == x
  {
    assert k <= 0 ==> !HasBit(x, 0);
    assert k <= 1 ==> !HasBit(x, 1);
    assert k <= 2 ==> !HasBit(x, 2);
    assert k <= 3 ==> !HasBit(x, 3);
    assert k <= 4 ==> !HasBit(x, 4);
    assert k <= 5 ==> !HasBit(x, 5);
    assert k <= 6 ==> !HasBit(x, 6);
    assert k <= 7 ==> !HasBit(x, 7);
  }

  lemma ByteOutside(d: seq<byte>, u: seq<byte>, lo: int, hi: int, j: nat)
    requires |d| == |u| && j < |d| && DiffersIn(d, u, lo, hi) && (8 * j + 8 <= lo || hi <= 8 * j)
    ensures d[j] == u[j]
  {
    hide HasBit;
    forall a: nat | a < 8
      ensures HasBit(d[j], a) == HasBit(u[j], a)
    {
      assert (8 * j + a) / 8 == j && (8 * j + a) % 8 == a;
      assert Bit(d, 8 * j + a) == HasBit(d[j], a) && Bit(u, 8 * j + a) == HasBit(u[j], a);
    }
    SameBits(d[j], u[j]);
  }

  lemma BitOutside(d: seq<byte>, u: seq<byte>, lo: int, hi: int, j: nat, a: nat)
    requires |d| == |u| && j < |d| && a < 8 && DiffersIn(d, u, lo, hi) && !(lo <= 8 * j + a < hi)
    ensures !HasBit(XorByte(d[j], u[j]), a)
  {
    hide HasBit, XorByte;
    assert (8 * j + a) / 8 == j && (8 * j + a) % 8 == a;
    assert Bit(d, 8 * j + a) == HasBit(d[j], a) && Bit(u, 8 * j + a) == HasBit(u[j], a);
    BitOfDifference(d[j], u[j], a);
  }

  lemma FirstByteOfWindow(d: seq<byte>, u: seq<byte>, lo: nat, i: nat, k: nat)
    requires |d| == |u| && i < |d| && k <= 8 && DiffersIn(d, u, lo, lo + 16) && 8 * i + k <= lo
    ensures XorByte(d[i], u[i]) & LowMask(k) == 0
  {
    hide HasBit, XorByte, DiffersIn, LowMask;
    forall a: nat | a < k
      ensures !HasBit(XorByte(d[i], u[i]), a)
    {
      BitOutside(d, u, lo, lo + 16, i, a);
    }
    NoLowBits(XorByte(d[i], u[i]), k);
  }

  lemma ThirdByteOfWindow(d: seq<byte>, u: seq<byte>, lo: nat, i: nat, k: nat)
    requires |d| == |u| && i < |d| && k <= 8 && DiffersIn(d, u, lo, lo + 16) && (k == 8 || lo + 16 <= 8 * i + k)
    ensures XorByte(d[i], u[i]) & LowMask(k) == XorByte(d[i], u[i])
  {
    hide HasBit, XorByte, DiffersIn, LowMask;
    forall a: nat | k <= a < 8
      ensures !HasBit(XorByte(d[i], u[i]), a)
    {
      BitOutside(d, u, lo, lo + 16, i, a);
    }
    OnlyLowBits(XorByte(d[i], u[i]), k);
  }

  lemma OutsideWindow(d: seq<byte>, u: seq<byte>, lo: nat, i: nat)
    requires |d| == |u| && i + 3 <= |d| && DiffersIn(d, u, lo, lo + 16)
    requires 8 * i <= lo && (lo < 8 * i + 8 || i + 3 == |d|)
    ensures u[..i] == d[..i] && u[i + 3..] == d[i + 3..]
  {
    hide DiffersIn;
    forall j | 0 <= j < i
      ensures d[j] == u[j]
    {
      ByteOutside(d, u, lo, lo + 16, j);
    }
    forall j | i + 3 <= j < |d|
      ensures d[j] == u[j]
    {
      ByteOutside(d, u, lo, lo + 16, j);
    }
  }

  lemma BurstFits(d: seq<byte>, u: seq<byte>, i: nat, k: nat)
    requires |d| == |u| && i + 3 <= |d| && k <= 8
    requires XorByte(d[i], u[i]) & LowMask(k) == 0
    requires XorByte(d[i + 2], u[i + 2]) & LowMask(k) == XorByte(d[i + 2], u[i + 2])
    ensures BurstAt(Difference(d[i..i + 3], u[i..i + 3]), LowMask(k))
  {
    hide XorByte, LowMask, Difference;
    LowMaskIsLow(k);
    DifferenceOfThree(d[i..i + 3], u[i..i + 3]);
  }

  lemma WindowIsBurst(d: seq<byte>, u: seq<byte>, at: int) returns (i: nat, m: byte)
    requires |d| == |u| && |d| >= 3 && DiffersIn(d, u, at, at + 16)
    ensures BurstApart(d, u, i, m)
  {
    hide DiffersIn, XorByte, Difference, LowMask, BurstAt;
    var lo := if at < 0 then 0 else at;
    Widened(d, u, at, at + 16, lo, lo + 16);
    var q, r := lo / 8, lo % 8;
    assert lo == 8 * q + r;
    var k := if q + 3 <= |d| then r else 8;
    i := if q + 3 <= |d| then q else |d| - 3;
    m := LowMask(k);
    OutsideWindow(d, u, lo, i);
    FirstByteOfWindow(d, u, lo, i, k);
    ThirdByteOfWindow(d, u, lo, i + 2, k);
    BurstFits(d, u, i, k);
  }

  // ------------------------------------------------------------ in a stream

  /** A burst that the byte order of the check leaves open: nothing else differs. */
  predicate SlipsThrough(d: seq<byte>, u: seq<byte>) {
    && |u| == |d| && |d| >= 4
    && var n := |d| - 2;
       || (u[..n - 2] == d[..n - 2] && u[n + 1] == d[n + 1] &&
           SlipsBefore(XorByte(d[n - 2], u[n - 2]), XorByte(d[n - 1], u[n - 1]), XorByte(d[n], u[n])))
       || (u[..n - 1] == d[..n - 1] &&
           SlipsAfter(XorByte(d[n - 1], u[n - 1]), XorByte(d[n], u[n]), XorByte(d[n + 1], u[n + 1])))
  }

  lemma DiffersInit(s: seq<byte>, u: seq<byte>, lo: int, hi: int)
    requires |s| == |u| && s != [] && DiffersIn(s, u, lo, hi)
    ensures DiffersIn(s[..|s| - 1], u[..|s| - 1], lo, hi)
  {
    hide HasBit;
    var s', u' := s[..|s| - 1], u[..|s| - 1];
    forall p: nat | p < 8 * |s'| && Bit(s', p) != Bit(u', p)
      ensures lo <= p < hi
    {
      assert Bit(s, p) == Bit(s', p) && Bit(u, p) == Bit(u', p);
    }
  }

  /** The bits below the lowest one that is set. */
  function Below(a: byte): byte {
    (a - 1) & !a
  }

  lemma SlipsAreBursts(a: byte, b: byte, c: byte)
    requires SlipsBefore(a, b, c) || SlipsAfter(a, b, c)
    ensures BurstAt([a, b, c], Below(a))
  {}

  lemma SlipsAtAreApart(d: seq<byte>, u: seq<byte>, i: nat)
    requires |u| == |d| && i + 3 <= |d| && u[..i] == d[..i] && u[i + 3..] == d[i + 3..]
    requires var a, b, c := XorByte(d[i], u[i]), XorByte(d[i + 1], u[i + 1]), XorByte(d[i + 2], u[i + 2]);
             SlipsBefore(a, b, c) || SlipsAfter(a, b, c)
    ensures BurstApart(d, u, i, Below(XorByte(d[i], u[i])))
  {
    hide XorByte, SlipsBefore, SlipsAfter, Below, BurstAt, Difference;
    SlipsAreBursts(XorByte(d[i], u[i]), XorByte(d[i + 1], u[i + 1]), XorByte(d[i + 2], u[i + 2]));
    DifferenceOfThree(d[i..i + 3], u[i..i + 3]);
  }

  lemma SlipIsApart(d: seq<byte>, u: seq<byte>) returns (i: nat)
    requires SlipsThrough(d, u)
    ensures i + 3 <= |d| == |u| && BurstApart(d, u, i, Below(XorByte(d[i], u[i]))) && Slips(d, u, i)
  {
    hide XorByte, SlipsBefore, SlipsAfter, Below, BurstApart;
    var n := |d| - 2;
    i := n - 1;
    if !SlipsAfter(XorByte(d[n - 1], u[n - 1]), XorByte(d[n], u[n]), XorByte(d[n + 1], u[n + 1])) ||
       u[..n - 1] != d[..n - 1] {
      i := n - 2;
      assert u[n + 1..] == [u[n + 1]] && d[n + 1..] == [d[n + 1]];
    }
    SlipsAtAreApart(d, u, i);
  }

  lemma ApartSlips(d: seq<byte>, u: seq<byte>, i: nat, m: byte)
    requires BurstApart(d, u, i, m) && Slips(d, u, i) && |d| >= 4
    ensures SlipsThrough(d, u)
  {
    hide XorByte, SlipsBefore, SlipsAfter, BurstAt, Difference;
    if i + 4 == |d| {
      assert u[i + 3..][0] == d[i + 3..][0];
    }
  }

  lemma BurstOfContent(m: Packet, u: seq<byte>, at: int)
    requires var d := Interior(SERIAL_REV, m); |u| == |d| && u != d && DiffersIn(d, u, at, at + 16)
    ensures Payload(u).Some? <==> Deliverable(m) && SlipsThrough(Interior(SERIAL_REV, m), u)
  {
    hide Interior, Payload, DiffersIn, Slips, SlipsThrough, BurstApart;
    var d := Interior(SERIAL_REV, m);
    InteriorHeader(m);
    PayloadInterior(SERIAL_REV, m);
    if Deliverable(m) {
      var i, k := WindowIsBurst(d, u, at);
      ApartInRange(d, u, i, k);
      BurstAccepted(d, u, i, k);
      if SlipsThrough(d, u) {
        var i' := SlipIsApart(d, u);
        BurstAccepted(d, u, i', Below(XorByte(d[i'], u[i'])));
      } else if Slips(d, u, i) {
        ApartSlips(d, u, i, k);
      }
    } else if Payload(u).Some? {
      PayloadSize(u);
    }
  }

  lemma ApartInRange(d: seq<byte>, u: seq<byte>, i: nat, m: byte)
    requires BurstApart(d, u, i, m)
    ensures |d| == |u| && i + 3 <= |d|
  {}

  lemma PayloadOf(u: seq<byte>)
    requires Payload(u).Some?
    ensures |u| >= 4 && Payload(u).value == u[2..|u| - 2]
  {}

  /** What a piece with a burst in it delivers in place of `m`: nothing, unless the byte order of the check
   *  lets it through. */
  function SlippedPacket(m: Packet, t: seq<byte>): seq<Packet> {
    var u := Unstuff(t);
    if Deliverable(m) && u.Some? && SlipsThrough(Interior(SERIAL_REV, m), u.value)
    then [u.value[2..|u.value| - 2]]
    else []
  }

  lemma PieceWithBurst(m: Packet, t: seq<byte>, lo: int)
    requires var t0 := Stuff(Interior(SERIAL_REV, m));
             FlagFree(t) && t != t0 && OrdinaryChange(t0, t) && DiffersIn(t0, t, lo, lo + 16)
    ensures Optional(Decode(t)) == SlippedPacket(m, t)
  {
    hide Payload, Interior, Stuff, Unstuff, OrdinaryChange, DiffersIn, SlipsThrough;
    var d := Interior(SERIAL_REV, m);
    if Unstuff(t).Some? {
      var u := Unstuff(t).value;
      var at := BurstShrinks(d, t, lo, lo + 16);
      StuffUnstuff(t);
      BurstOfContent(m, u, at);
      if Payload(u).Some? {
        PayloadOf(u);
      }
    }
  }

  lemma DiffersInside(m: Packet, w: seq<byte>, lo: int, hi: int)
    requires |w| == |Encode(m)| && DiffersIn(Encode(m), w, lo, hi)
    ensures |w| >= 2 && |w[1..|w| - 1]| == |Stuff(Interior(SERIAL_REV, m))|
    ensures DiffersIn(Stuff(Interior(SERIAL_REV, m)), w[1..|w| - 1], lo - 8, hi - 8)
  {
    hide DiffersIn, Stuff, Interior;
    var e, n := Encode(m), |w|;
    DiffersTail(e, w, lo, hi);
    DiffersInit(e[1..], w[1..], lo - 8, hi - 8);
    assert e[1..][..n - 2] == Stuff(Interior(SERIAL_REV, m)) && w[1..][..n - 2] == w[1..n - 1];
  }

  /** A burst of at most sixteen bits on the wire, in bytes that are and stay ordinary: all the frames around
   *  arrive, and nothing in place of the frame, but for the twelve differences at the end of the message. */
  lemma WireBurst(limit: nat, rx: Rx, before: seq<Packet>, m: Packet, w: seq<byte>, lo: int, after: seq<Packet>)
    requires Roomy(limit) && Clean(rx) && OrdinaryChange(Encode(m), w)
    requires w != Encode(m) && DiffersIn(Encode(m), w, lo, lo + 16)
    ensures |w| >= 2
    ensures Run(limit, rx, EncodeAll(before) + w + EncodeAll(after)).packets
         == Sieve(before) + SlippedPacket(m, w[1..|w| - 1]) + Sieve(after)
  {
    assert |w| == |Encode(m)|;
    hide Run, EncodeAll, Sieve, Decode, Interior, Stuff, OrdinaryChange, DiffersIn, SlippedPacket;
    OrdinaryChangeOfFrame(m, w);
    DiffersInside(m, w, lo, lo + 16);
    var t := w[1..|w| - 1];
    PieceWithBurst(m, t, lo - 8);
    AnyPiece(limit, rx, before, t, after);
  }
}
