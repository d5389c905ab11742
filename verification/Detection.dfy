/** Which corruptions of a frame's interior the receiver is certain to notice. */
module Detection {
  import opened Bytes
  import opened Fcs
  import opened Stuffing
  import opened Frame

  /** Two accepted interiors of one length agree on the check field only if they agree on the check. */
  lemma SameFieldSameCheck(d: seq<byte>, u: seq<byte>)
    requires |d| == |u| && Payload(d).Some? && Payload(u).Some?
    ensures var n := |d| - 2;
            d[1] == u[1] && (d[n..] == u[n..] <==> Fcs.Fcs(INITFCS, d[..n]) == Fcs.Fcs(INITFCS, u[..n]))
  {
    hide Fcs.Fcs, Interior, Word;
    InteriorIff(d);
    InteriorIff(u);
    var n := |d| - 2;
    BytesOfWord(d[n], d[n + 1]);
    BytesOfWord(u[n], u[n + 1]);
    assert d[n..] == [d[n], d[n + 1]] && u[n..] == [u[n], u[n + 1]];
  }

  lemma ByteChangeInCovered(d: seq<byte>, u: seq<byte>, j: nat, n: nat)
    requires j < n <= |d| == |u| && d[j] != u[j] && u == d[j := u[j]]
    ensures d[n..] == u[n..] && Fcs.Fcs(INITFCS, d[..n]) != Fcs.Fcs(INITFCS, u[..n])
  {
    hide Fcs.Fcs;
    var p, s := d[..j], d[j + 1..n];
    OneByteChangeShows(INITFCS, p, d[j], u[j], s);
    assert d[..n] == p + [d[j]] + s;
    assert u[..n] == p + [u[j]] + s;
  }

  lemma ByteChangeInField(d: seq<byte>, u: seq<byte>, j: nat, n: nat)
    requires n <= j < |d| == |u| && d[j] != u[j] && u == d[j := u[j]]
    ensures d[n..] != u[n..] && d[..n] == u[..n]
  {
    assert d[n..][j - n] != u[n..][j - n];
  }

  /** No change of a single byte, be it revision, count, message or check, goes unnoticed. */
  lemma OneByteDetected(d: seq<byte>, u: seq<byte>)
    requires Payload(d).Some? && OneByteApart(d, u)
    ensures Payload(u).None?
  {
    hide Fcs.Fcs, Payload;
    PayloadSize(d);
    var n := |d| - 2;
    var j :| 0 <= j < |d| && d[j] != u[j] && u == d[j := u[j]];
    if j < n {
      ByteChangeInCovered(d, u, j, n);
    } else {
      ByteChangeInField(d, u, j, n);
    }
    if Payload(u).Some? {
      SameFieldSameCheck(d, u);
    }
  }

  lemma PayloadSize(d: seq<byte>)
    requires Payload(d).Some?
    ensures MIN_MESSAGE + 4 <= |d| <= MAX_MESSAGE + 4 && |Payload(d).value| == |d| - 4
  {}

  /** No burst of at most sixteen bits in the covered region goes unnoticed;
   *  any change of two adjacent bytes is such a burst. */
  lemma BurstDetected(d: seq<byte>, u: seq<byte>, i: nat, m: byte)
    requires |d| == |u| && i + 5 <= |d| && d != u && Payload(d).Some?
    requires u[..i] == d[..i] && u[i + 3..] == d[i + 3..]
    requires BurstAt(Difference(d[i..i + 3], u[i..i + 3]), m)
    ensures Payload(u).None?
  {
    hide Fcs.Fcs, Payload;
    BurstInCovered(d, u, i, m, |d| - 2);
    if Payload(u).Some? {
      PayloadSize(d);
      SameFieldSameCheck(d, u);
    }
  }

  lemma BurstInCovered(d: seq<byte>, u: seq<byte>, i: nat, m: byte, n: nat)
    requires i + 3 <= n <= |d| == |u| && d != u
    requires u[..i] == d[..i] && u[i + 3..] == d[i + 3..]
    requires BurstAt(Difference(d[i..i + 3], u[i..i + 3]), m)
    ensures d[n..] == u[n..] && Fcs.Fcs(INITFCS, d[..n]) != Fcs.Fcs(INITFCS, u[..n])
  {
    hide Fcs.Fcs, BurstAt, Difference;
    var p, x, y, s := d[..i], d[i..i + 3], u[i..i + 3], d[i + 3..n];
    assert d == p + x + d[i + 3..];
    assert u == p + y + d[i + 3..];
    BurstShows(INITFCS, p, x, y, m, s);
    assert d[..n] == p + x + s;
    assert s == u[i + 3..][..n - i - 3];
    assert u[..n] == p + y + s;
    assert d[n..] == d[i + 3..][n - i - 3..];
    assert u[n..] == u[i + 3..][n - i - 3..];
  }

  /** Any change confined to two adjacent bytes is a burst of at most sixteen bits. */
  lemma TwoBytesAreABurst(x: seq<byte>, y: seq<byte>)
    requires |x| == |y| == 3
    ensures x[2] == y[2] ==> BurstAt(Difference(x, y), 0)
    ensures x[0] == y[0] ==> BurstAt(Difference(x, y), 255)
  {
    var d := Difference(x, y);
    assert d[0] == XorByte(x[0], y[0]);
    assert d[2] == XorByte(x[2], y[2]) by {
      assert Difference(x[1..], y[1..])[1..] == Difference(x[2..], y[2..]);
    }
  }

  // ------------------------------------------------------------ parity

  lemma HighByteParity(h: bv16)
    requires h & 0xff == 0
    ensures OddWord(h) == OddWord(Widen(HighByte(h)))
  {
    hide OddWord;
    var h1 := Half(h);
    var h2 := Half(h1);
    var h3 := Half(h2);
    var h4 := Half(h3);
    var h5 := Half(h4);
    var h6 := Half(h5);
    var h7 := Half(h6);
    OddWordUnfold(h);
    OddWordUnfold(h1);
    OddWordUnfold(h2);
    OddWordUnfold(h3);
    OddWordUnfold(h4);
    OddWordUnfold(h5);
    OddWordUnfold(h6);
    OddWordUnfold(h7);
    assert Half(h7) == Widen(HighByte(h));
  }

  lemma WordParity(w: bv16)
    ensures OddWord(w) == (OddWord(Widen(HighByte(w))) != OddWord(Widen(LowByte(w))))
  {
    hide OddWord, XorWord, Widen, LowByte;
    HalvesOfWord(w);
    OddXor(w & 0xff00, Widen(LowByte(w)));
    assert (w & 0xff00) & 0xff == 0 && HighByte(w & 0xff00) == HighByte(w);
    HighByteParity(w & 0xff00);
  }

  lemma {:induction false} OddAppend(a: seq<byte>, b: seq<byte>)
    ensures Odd(a + b) == (Odd(a) != Odd(b))
  {
    hide OddWord, Widen;
    if a == [] {
      assert a + b == b;
    } else {
      assert (a + b)[1..] == a[1..] + b;
      OddAppend(a[1..], b);
    }
  }

  lemma OddPair(a: byte, b: byte)
    ensures Odd([a, b]) == (OddWord(Widen(a)) != OddWord(Widen(b)))
  {
    hide OddWord, Widen;
    assert [a, b][1..] == [b];
    assert [b][1..] == [];
    assert Odd([b]) == OddWord(Widen(b));
  }

  lemma {:induction false} OddDifference(a: seq<byte>, b: seq<byte>)
    requires |a| == |b|
    ensures Odd(Difference(a, b)) == (Odd(a) != Odd(b))
  {
    hide OddWord, Widen, XorByte, XorWord;
    if a != [] {
      OddDifference(a[1..], b[1..]);
      assert Difference(a, b)[1..] == Difference(a[1..], b[1..]);
      WidenXor(a[0], b[0]);
      OddXor(Widen(a[0]), Widen(b[0]));
    }
  }

  lemma EqualHalvesAreEven(w: bv16)
    requires HighByte(w) == LowByte(w)
    ensures !OddWord(w)
  {
    hide OddWord;
    WordParity(w);
  }

  /** Every frame the receiver accepts carries an even number of 1 bits between its frame characters,
   *  check included: the polynomial is divisible by x + 1. */
  lemma AcceptedIsEven(d: seq<byte>)
    requires Payload(d).Some?
    ensures !Odd(d)
  {
    hide OddWord, Widen, Fcs.Fcs, Odd;
    var c := Covered(d[0], d[2..|d| - 2]);
    var fcs := Fcs.Fcs(INITFCS, c);
    assert d == c + [HighByte(fcs), LowByte(fcs)];
    FcsParity(INITFCS, c);
    EqualHalvesAreEven(INITFCS);
    WordParity(fcs);
    OddPair(HighByte(fcs), LowByte(fcs));
    OddAppend(c, [HighByte(fcs), LowByte(fcs)]);
  }

  /** Hence no odd number of flipped bits, wherever they fall, goes unnoticed. */
  lemma OddErrorDetected(d: seq<byte>, u: seq<byte>)
    requires |d| == |u| && Payload(d).Some? && Odd(Difference(d, u))
    ensures Payload(u).None?
  {
    OddDifference(d, u);
    AcceptedIsEven(d);
    if Payload(u).Some? {
      AcceptedIsEven(u);
    }
  }
}
