/** The frame of DMTF DSP0253 as this program sends and checks it:
 *  frame character, revision, byte count, message, check (most significant byte first), frame character. */
module Frame {
  import opened Bytes
  import opened Fcs
  import opened Stuffing

  const MIN_MESSAGE := 5
  const MAX_MESSAGE := 255

  predicate Deliverable(m: Packet) {
    MIN_MESSAGE <= |m| <= MAX_MESSAGE
  }

  /** The region the check covers: it leaves out the frame character. */
  function Covered(rev: byte, m: Packet): seq<byte> {
    [rev, SizeByte(|m|)] + m
  }

  function CheckField(covered: seq<byte>): seq<byte> {
    var fcs := Fcs.Fcs(INITFCS, covered);
    [HighByte(fcs), LowByte(fcs)]
  }

  /** All that a sender puts between the two frame characters, before stuffing. */
  function Interior(rev: byte, m: Packet): (d: seq<byte>)
    ensures |d| == |m| + 4
  {
    Covered(rev, m) + CheckField(Covered(rev, m))
  }

  /** The bytes on the wire for one message. */
  function Encode(m: Packet): seq<byte> {
    [FRAME_CHAR] + Stuff(Interior(SERIAL_REV, m)) + [FRAME_CHAR]
  }

  function EncodeAll(ms: seq<Packet>): seq<byte> {
    if ms == [] then [] else Encode(ms[0]) + EncodeAll(ms[1..])
  }

  /** The message inside an interior, if it is one that some sender (of any revision) could have built. */
  function Payload(d: seq<byte>): Option<Packet> {
    if 4 <= |d| && Deliverable(d[2..|d| - 2]) && d == Interior(d[0], d[2..|d| - 2])
    then Some(d[2..|d| - 2])
    else None
  }

  /** The message in a stuffed segment between two frame characters. */
  function Decode(segment: seq<byte>): Option<Packet> {
    var d := Unstuff(segment);
    if d.None? then None else Payload(d.value)
  }

  // ------------------------------------------------------------ the receiver's own test

  /** The test of a frame with both its frame characters, as the source computes it:
   *  minimum size, byte count against a 16-bit size, check against the two bytes before the end. */
  predicate Validate(buf: seq<byte>) {
    && |buf| >= 11
    && Value(buf[2]) == |buf| % 0x1_0000 - 6
    && Fcs.Fcs(INITFCS, buf[1..|buf| - 3]) == Word(buf[|buf| - 3], buf[|buf| - 2])
  }

  lemma ValidSize(buf: seq<byte>)
    requires Validate(buf)
    ensures |buf| >= 11
  {}

  /** An interior is well formed exactly if its byte count and its two check bytes are right. */
  lemma InteriorIff(d: seq<byte>)
    requires |d| >= 4
    ensures var n := |d| - 4;
            d == Interior(d[0], d[2..n + 2]) <==>
            d[1] == SizeByte(n) && Fcs.Fcs(INITFCS, d[..n + 2]) == Word(d[n + 2], d[n + 3])
  {
    hide Fcs.Fcs, Word, HighByte, LowByte;
    var n := |d| - 4;
    var m := d[2..n + 2];
    var c := Covered(d[0], m);
    WordOfBytes(Fcs.Fcs(INITFCS, c));
    BytesOfWord(d[n + 2], d[n + 3]);
    assert d == [d[0], d[1]] + m + [d[n + 2], d[n + 3]];
    assert d[..n + 2] == [d[0], d[1]] + m;
    assert c[1] == SizeByte(n);
    assert Interior(d[0], m)[..n + 2] == c;
    assert Interior(d[0], m)[n + 2..] == CheckField(c);
  }

  /** The test accepts exactly what a sender could have built, as long as the size, reduced to
   *  sixteen bits, cannot come round to a byte count again. */
  lemma ValidateIsPayload(f: byte, d: seq<byte>, g: byte)
    requires |d| + 2 < 0x1_0000 + 6
    ensures Validate([f] + d + [g]) <==> Payload(d).Some?
  {
    hide Fcs.Fcs, Word, Interior, Value, SizeByte;
    var buf := [f] + d + [g];
    if |d| >= 9 {
      var n := |d| - 4;
      InteriorIff(d);
      SizeByteValue(n);
      ValueInjective(d[1], SizeByte(n));
      assert buf[1..|buf| - 3] == d[..n + 2];
    }
  }

  lemma ValueInjective(a: byte, b: byte)
    ensures Value(a) == Value(b) ==> a == b
  {}

  // ------------------------------------------------------------ sender and receiver agree

  lemma InteriorParts(rev: byte, m: Packet)
    ensures var d := Interior(rev, m); d[0] == rev && d[2..|d| - 2] == m
  {}

  /** What is built is recovered, and messages of other lengths are refused. */
  lemma PayloadInterior(rev: byte, m: Packet)
    ensures Payload(Interior(rev, m)) == if Deliverable(m) then Some(m) else None
  {
    hide Fcs.Fcs;
    InteriorParts(rev, m);
  }

  lemma DecodeStuffed(rev: byte, m: Packet)
    ensures Decode(Stuff(Interior(rev, m))) == if Deliverable(m) then Some(m) else None
  {
    UnstuffStuff(Interior(rev, m));
    PayloadInterior(rev, m);
  }

  /** The segments that decode are exactly the ones that some sender emits. */
  lemma DecodeExactly(t: seq<byte>, m: Packet)
    requires FlagFree(t)
    ensures Decode(t) == Some(m) <==> Deliverable(m) && exists rev :: t == Stuff(Interior(rev, m))
  {
    hide Interior;
    if Decode(t) == Some(m) {
      StuffUnstuff(t);
      var d := Unstuff(t).value;
      assert t == Stuff(Interior(d[0], m));
    }
    if rev :| Deliverable(m) && t == Stuff(Interior(rev, m)) {
      DecodeStuffed(rev, m);
    }
  }

  /** The wire form of a message: frame characters at the two ends only, and its exact size. */
  lemma EncodeShape(m: Packet)
    ensures var w, d := Encode(m), Interior(SERIAL_REV, m);
            && |w| == |m| + 6 + Specials(d) <= 2 * |m| + 9
            && w[0] == w[|w| - 1] == FRAME_CHAR
            && FlagFree(w[1..|w| - 1])
            && Unstuff(w[1..|w| - 1]) == Some(d)
  {
    var d := Interior(SERIAL_REV, m);
    StuffLength(d);
    StuffLength(d[1..]);
    StuffFlagFree(d);
    UnstuffStuff(d);
    assert Encode(m)[1..|Encode(m)| - 1] == Stuff(d);
  }
}
