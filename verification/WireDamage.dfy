/** One byte of the wire changed in any way, flags and escapes included: what arrives in place of the
 *  damaged frame. The frames around it always arrive. */
module WireDamage {
  import opened Bytes
  import opened Fcs
  import opened Stuffing
  import opened Frame
  import opened Detection
  import opened BitErrors
  import opened Receiver
  import opened Streams

  /** What arrives in place of `m` when byte `i` of its frame is replaced by `v`: nothing if that was one of
   *  its flags; if it is a flag now, one of the two parts; otherwise the changed piece, if it still decodes. */
  function Instead(m: Packet, i: nat, v: byte): seq<Packet>
    requires i < |Encode(m)|
  {
    var w := Encode(m);
    if i == 0 || i == |w| - 1 then []
    else if v != FRAME_CHAR then Optional(Decode(w[i := v][1..|w| - 1]))
    else
      var first := Decode(w[1..i]);
      Optional(if first.Some? then first else Decode(w[i + 1..|w| - 1]))
  }

  // ------------------------------------------------------------ pieces of the wrong size

  /** Content with a frame's byte count but of another size, as long as the difference is less than 256. */
  lemma CountMismatch(m: Packet, u: seq<byte>)
    requires |u| >= 2 && u[1] == SizeByte(|m|) && |u| - 4 != |m| && |u| - 4 - |m| < 256 && |m| - |u| + 4 < 256
    ensures Payload(u).None?
  {
    hide Payload, SizeByte;
    if Payload(u).Some? {
      PayloadCount(u);
      SizeByteValue(|m|);
      SizeByteValue(|u| - 4);
    }
  }

  /** A piece of a frame cut short by a flag. A long message keeps its byte count modulo 256 only,
   *  so that the beginning of its frame may be a frame. */
  lemma CutShortIsRefused(m: Packet, k: nat)
    requires |m| <= MAX_MESSAGE && k < |Stuff(Interior(SERIAL_REV, m))|
    ensures Decode(Stuff(Interior(SERIAL_REV, m))[..k]).None?
  {
    hide Payload, Interior, Stuff, Unstuff;
    var d := Interior(SERIAL_REV, m);
    var u := Unstuff(Stuff(d)[..k]);
    StuffCutShort(d, k);
    InteriorHeader(m);
    if u.Some? && |u.value| >= 4 {
      assert u.value[1] == d[1];
      CountMismatch(m, u.value);
    } else if u.Some? {
      ShortIsRefused(u.value);
    }
  }

  lemma ShortIsRefused(u: seq<byte>)
    requires |u| < 4
    ensures Payload(u).None?
  {}

  lemma InteriorHeader(m: Packet)
    ensures var d := Interior(SERIAL_REV, m); |d| == |m| + 4 && d[0] == SERIAL_REV && d[1] == SizeByte(|m|)
  {}

  // ------------------------------------------------------------ where the damage is

  lemma OpeningFlagRefused(m: Packet, v: byte)
    ensures Decode([v] + Stuff(Interior(SERIAL_REV, m))).None?
  {
    hide Payload, Interior, Stuff, SizeByte;
    var d := Interior(SERIAL_REV, m);
    InteriorHeader(m);
    if v == ESCAPE_CHAR {
      StuffHead(d);
    } else {
      var u := [v] + d;
      UnstuffStuff(d);
      assert ([v] + Stuff(d))[1..] == Stuff(d);
      if Payload(u).Some? {
        PayloadSize(u);
        PayloadCount(u);
        SizeByteValue(|u| - 4);
      }
    }
  }

  lemma StuffHead(d: seq<byte>)
    requires d != [] && !IsSpecial(d[0])
    ensures Stuff(d) != [] && Stuff(d)[0] == d[0]
  {}

  lemma ClosingFlagRefused(m: Packet, v: byte)
    requires v != FRAME_CHAR
    ensures Decode(Stuff(Interior(SERIAL_REV, m)) + [v]).None?
  {
    hide Payload, Interior, Stuff, SizeByte;
    var d := Interior(SERIAL_REV, m);
    InteriorHeader(m);
    UnstuffAfter(d, [v]);
    if v != ESCAPE_CHAR {
      UnstuffOneUnit(v);
      CountMismatch(m, d + [v]);
    } else {
      assert Unstuff([v]).None?;
    }
  }

  lemma ParseUnclosedLast(open: bool, t: seq<byte>)
    requires FlagFree(t)
    ensures Parse(open, [FRAME_CHAR] + t) == []
  {
    hide Parse, Decode;
    ParsePiece(open, [], t);
    ParseUnended(true, t);
    NothingDecodesFromNothing();
    assert [] + [FRAME_CHAR] + t == [FRAME_CHAR] + t;
  }

  /** The frames after a frame whose closing flag was changed. */
  lemma ParseUnclosed(open: bool, t: seq<byte>, after: seq<Packet>)
    requires FlagFree(t) && Decode(t).None?
    ensures Parse(open, [FRAME_CHAR] + t + EncodeAll(after)) == Sieve(after)
  {
    hide Parse, Decode, Stuff, Interior, FlagFree;
    if after == [] {
      ParseUnclosedLast(open, t);
      assert [FRAME_CHAR] + t + [] == [FRAME_CHAR] + t;
    } else {
      EncodeAllOpens(after);
      hide EncodeAll, Deliverable;
      var rest := Stuff(Interior(SERIAL_REV, after[0])) + [FRAME_CHAR] + EncodeAll(after[1..]);
      assert [FRAME_CHAR] + t + EncodeAll(after) == [FRAME_CHAR] + t + [FRAME_CHAR] + rest;
      ParseFramed(open, t, rest);
      ParseAfterOpening(true, after[0], after[1..]);
    }
  }

  lemma ParseUnended(open: bool, t: seq<byte>)
    requires FlagFree(t)
    ensures Parse(open, t) == []
  {}

  /** A frame with one byte changed, between any others. */
  lemma ParseDamaged(open: bool, m: Packet, i: nat, v: byte, after: seq<Packet>)
    requires i < |Encode(m)| && v != Encode(m)[i]
    ensures Parse(open, Encode(m)[i := v] + EncodeAll(after)) == Instead(m, i, v) + Sieve(after)
  {
    hide Parse, Decode, Interior, Stuff, EncodeAll, Sieve;
    var w, t, rest := Encode(m), Stuff(Interior(SERIAL_REV, m)), EncodeAll(after);
    var n := |w|;
    StuffFlagFree(Interior(SERIAL_REV, m));
    ParseAll(false, after);
    ParseAll(true, after);
    if i == 0 {
      assert w[i := v] + rest == ([v] + t) + [FRAME_CHAR] + rest;
      ParsePiece(open, [v] + t, rest);
      OpeningFlagRefused(m, v);
    } else if i == n - 1 {
      assert w[i := v] + rest == [FRAME_CHAR] + (t + [v]) + rest;
      ClosingFlagRefused(m, v);
      ParseUnclosed(open, t + [v], after);
    } else if v != FRAME_CHAR {
      var t' := t[i - 1 := v];
      assert w[i := v][1..n - 1] == t';
      assert w[i := v] + rest == [FRAME_CHAR] + t' + [FRAME_CHAR] + rest;
      ParseFramed(open, t', rest);
    } else {
      var t1, t2 := t[..i - 1], t[i..];
      assert w[1..i] == t1 && w[i + 1..n - 1] == t2;
      assert w[i := v] + rest == [FRAME_CHAR] + t1 + [FRAME_CHAR] + (t2 + [FRAME_CHAR] + rest);
      ParseFramed(open, t1, t2 + [FRAME_CHAR] + rest);
      ParsePiece(Decode(t1).None?, t2, rest);
    }
  }

  /** Whichever byte of a frame is changed, and whatever it becomes, all the frames around it arrive, and
   *  in its place what `Instead` says: at most one packet. */
  lemma OneByteAnywhere(limit: nat, rx: Rx, before: seq<Packet>, m: Packet, i: nat, v: byte, after: seq<Packet>)
    requires Roomy(limit) && Clean(rx) && i < |Encode(m)| && v != Encode(m)[i]
    ensures Run(limit, rx, EncodeAll(before) + Encode(m)[i := v] + EncodeAll(after)).packets
         == Sieve(before) + Instead(m, i, v) + Sieve(after)
  {
    hide Run, Parse, Encode, EncodeAll, Sieve, Instead;
    var rest := Encode(m)[i := v] + EncodeAll(after);
    var open := rx == OPENED;
    assert EncodeAll(before) + Encode(m)[i := v] + EncodeAll(after) == EncodeAll(before) + rest;
    Refines(limit, rx, EncodeAll(before) + rest);
    ParseEncodeAll(open, before, rest);
    ParseDamaged(OpenAfter(open, before), m, i, v, after);
  }

  /** The bytes that the revision and the byte count take on the wire. */
  function HeaderSize(m: Packet): nat {
    |Stuff([SERIAL_REV, SizeByte(|m|)])|
  }

  lemma FirstTwo(d: seq<byte>)
    requires |d| >= 2
    ensures d == [d[0], d[1]] + d[2..]
  {}

  lemma HeaderFirst(m: Packet)
    ensures var hdr, d := [SERIAL_REV, SizeByte(|m|)], Interior(SERIAL_REV, m);
            d == hdr + d[2..] && Stuff(d) == Stuff(hdr) + Stuff(d[2..])
  {
    hide Stuff, Interior, SizeByte;
    var hdr, d := [SERIAL_REV, SizeByte(|m|)], Interior(SERIAL_REV, m);
    InteriorHeader(m);
    FirstTwo(d);
    StuffAppend(hdr, d[2..]);
  }

  /** An escape character that appears or disappears after the byte count leaves the wrong size. */
  lemma ResizedIsRefused(m: Packet, k: nat, v: byte)
    requires var t := Stuff(Interior(SERIAL_REV, m));
             && HeaderSize(m) <= k < |t| && v != t[k] && v != FRAME_CHAR
             && (v == ESCAPE_CHAR || t[k] == ESCAPE_CHAR)
    ensures Decode(Stuff(Interior(SERIAL_REV, m))[k := v]).None?
  {
    hide Payload, Interior, Stuff, Unstuff, SizeByte;
    var hdr, d := [SERIAL_REV, SizeByte(|m|)], Interior(SERIAL_REV, m);
    var tail, h := d[2..], HeaderSize(m);
    HeaderFirst(m);
    StuffResized(tail, k - h, v);
    var t' := Stuff(tail)[k - h := v];
    UnstuffAfter(hdr, t');
    assert Stuff(d)[k := v] == Stuff(hdr) + t';
    if Unstuff(t').Some? {
      CountMismatch(m, hdr + Unstuff(t').value);
    }
  }

  lemma OrdinaryIsRefused(m: Packet, k: nat, v: byte)
    requires var t := Stuff(Interior(SERIAL_REV, m)); k < |t| && v != t[k] && !IsSpecial(v) && !IsSpecial(t[k])
    ensures Decode(Stuff(Interior(SERIAL_REV, m))[k := v]).None?
  {
    hide Payload, Interior, Stuff, Unstuff, Noticeable, IsSpecial;
    var d := Interior(SERIAL_REV, m);
    StuffOneByteReplaced(d, k, v);
    var u := Unstuff(Stuff(d)[k := v]);
    if u.Some? {
      OneByteIsNoticeable(d, u.value);
      NoticeableIsRefused(m, u.value);
    }
  }

  // ------------------------------------------------------------ another beginning, the same end

  /** Content that shares its end with a frame's is accepted exactly if its byte count is right and the two
   *  beginnings leave the register in the same state. */
  lemma TailAccepted(m: Packet, q: seq<byte>, j: nat)
    requires j <= |m| + 2
    ensures var d := Interior(SERIAL_REV, m); var u := q + d[j..];
            Payload(u).Some? <==>
            && |u| >= 4 && Deliverable(u[2..|u| - 2]) && u[1] == SizeByte(|u| - 4)
            && Fcs.Fcs(INITFCS, q) == Fcs.Fcs(INITFCS, d[..j])
  {
    hide Fcs.Fcs, Word, Interior, SizeByte;
    var d := Interior(SERIAL_REV, m);
    var u, n := q + d[j..], |m| + 2;
    InteriorHeader(m);
    if |u| >= 4 {
      InteriorIff(u);
      InteriorIff(d);
      InteriorParts(SERIAL_REV, m);
      assert u[..|u| - 2] == q + d[j..n];
      assert d[..n] == d[..j] + d[j..n];
      FcsAppend(INITFCS, q, d[j..n]);
      FcsAppend(INITFCS, d[..j], d[j..n]);
      if Fcs.Fcs(INITFCS, q) != Fcs.Fcs(INITFCS, d[..j]) {
        FcsInjective(Fcs.Fcs(INITFCS, q), Fcs.Fcs(INITFCS, d[..j]), d[j..n]);
      }
    }
  }

  lemma RegistersDiffer0()
    ensures Fcs.Fcs(INITFCS, [0x7d]) != Fcs.Fcs(INITFCS, [0x01, 0x5d])
  {}

  lemma RegistersDiffer1()
    ensures Fcs.Fcs(INITFCS, [0x7e]) != Fcs.Fcs(INITFCS, [0x01, 0x5e])
  {}

  lemma RegistersDiffer2()
    ensures Fcs.Fcs(INITFCS, [0x01, 0x7e]) != Fcs.Fcs(INITFCS, [0x01, 0x7f, 0x5e])
  {}

  lemma SizeByteSmall(n: nat, b: byte)
    requires n < 256 && SizeByte(n) == b
    ensures n == Value(b)
  {
    hide SizeByte, Value;
    SizeByteValue(n);
  }

  // ------------------------------------------------------------ the header

  lemma UnstuffPlain(b: byte, t: seq<byte>)
    requires b != ESCAPE_CHAR
    ensures Unstuff([b] + t) == Prepend(b, Unstuff(t))
  {
    assert ([b] + t)[1..] == t;
  }

  lemma UnstuffEscaped(b: byte, t: seq<byte>)
    ensures Unstuff([ESCAPE_CHAR, b] + t) == if IsEscapeCode(b) then Prepend(b + 0x20, Unstuff(t)) else None
  {
    assert ([ESCAPE_CHAR, b] + t)[2..] == t;
  }

  /** An escape character before a stuffed sequence. */
  lemma UnstuffEscapedUnit(b: byte, t: seq<byte>)
    ensures Unstuff([ESCAPE_CHAR] + (StuffByte(b) + t)) ==
            if IsEscapeCode(b) then Prepend(b + 0x20, Unstuff(t)) else None
  {
    if IsSpecial(b) {
      assert [ESCAPE_CHAR] + (StuffByte(b) + t) == [ESCAPE_CHAR, ESCAPE_CHAR] + ([b - 0x20] + t);
      UnstuffEscaped(ESCAPE_CHAR, [b - 0x20] + t);
    } else {
      assert [ESCAPE_CHAR] + (StuffByte(b) + t) == [ESCAPE_CHAR, b] + t;
      UnstuffEscaped(b, t);
    }
  }

  lemma StuffUnfold(s: seq<byte>)
    requires s != []
    ensures Stuff(s) == StuffByte(s[0]) + Stuff(s[1..])
  {}

  /** An escape character in place of the revision takes in the byte count. */
  lemma RevisionEscaped(m: Packet)
    ensures var c := SizeByte(|m|);
            Decode([ESCAPE_CHAR] + (StuffByte(c) + Stuff(Interior(SERIAL_REV, m)[2..]))).None?
  {
    hide Payload, Interior, Stuff, SizeByte, Fcs.Fcs, Unstuff, StuffByte;
    var d, c := Interior(SERIAL_REV, m), SizeByte(|m|);
    InteriorHeader(m);
    UnstuffEscapedUnit(c, Stuff(d[2..]));
    UnstuffStuff(d[2..]);
    if IsEscapeCode(c) {
      assert d[..2] == [0x01, c];
      TailAccepted(m, [c + 0x20], 2);
      RegistersDiffer0();
      RegistersDiffer1();
    }
  }

  /** An escape character in place of an ordinary byte count takes in the first byte of the message. */
  lemma CountEscaped(m: Packet)
    requires !IsSpecial(SizeByte(|m|))
    ensures Decode([SERIAL_REV] + ([ESCAPE_CHAR] + Stuff(Interior(SERIAL_REV, m)[2..]))).None?
  {
    hide Payload, Interior, Stuff, SizeByte, Fcs.Fcs, Unstuff, StuffByte;
    var d := Interior(SERIAL_REV, m);
    var tail := d[2..];
    InteriorHeader(m);
    StuffUnfold(tail);
    UnstuffPlain(SERIAL_REV, [ESCAPE_CHAR] + Stuff(tail));
    UnstuffEscapedUnit(tail[0], Stuff(tail[1..]));
    UnstuffStuff(tail[1..]);
    if IsEscapeCode(tail[0]) {
      var u := [SERIAL_REV, tail[0] + 0x20] + d[3..];
      assert [SERIAL_REV] + ([tail[0] + 0x20] + tail[1..]) == u;
      CountEscapedContent(m);
    }
  }

  lemma CountEscapedContent(m: Packet)
    requires !IsSpecial(SizeByte(|m|)) && IsEscapeCode(Interior(SERIAL_REV, m)[2])
    ensures var d := Interior(SERIAL_REV, m); Payload([SERIAL_REV, d[2] + 0x20] + d[3..]).None?
  {
    hide Payload, Interior, SizeByte, Fcs.Fcs, Value;
    var d, c := Interior(SERIAL_REV, m), SizeByte(|m|);
    var e := d[2];
    var u := [SERIAL_REV, e + 0x20] + d[3..];
    InteriorHeader(m);
    if Payload(u).Some? {
      PayloadSize(u);
      PayloadCount(u);
      SizeByteSmall(|u| - 4, e + 0x20);
      EscapeCodeValue(e);
      SizeByteSmall(|m|, c);
      EscapedCounts(c, e, |m|);
      assert d[..3] == [0x01, 0x7f, 0x5e];
      RegistersDiffer2();
      TailAccepted(m, [SERIAL_REV, e + 0x20], 3);
    }
  }

  lemma EscapeCodeValue(e: byte)
    requires IsEscapeCode(e)
    ensures Value(e + 0x20) <= 126
  {}

  lemma EscapedCounts(c: byte, e: byte, n: nat)
    requires Value(c) == n && Value(e + 0x20) == n - 1 && IsEscapeCode(e) && !IsSpecial(c)
    ensures c == 0x7f && e == 0x5e
  {}

  /** An ordinary byte in place of the escape character of the byte count sets its code free. */
  lemma CountUnescaped(m: Packet, v: byte)
    requires IsSpecial(SizeByte(|m|)) && !IsSpecial(v)
    ensures Decode([SERIAL_REV] + ([v] + ([SizeByte(|m|) - 0x20] + Stuff(Interior(SERIAL_REV, m)[2..])))).None?
  {
    hide Payload, Interior, Stuff, SizeByte, Fcs.Fcs, Unstuff;
    var d, c := Interior(SERIAL_REV, m), SizeByte(|m|);
    var tail, e := d[2..], c - 0x20;
    InteriorHeader(m);
    UnstuffPlain(SERIAL_REV, [v] + ([e] + Stuff(tail)));
    UnstuffPlain(v, [e] + Stuff(tail));
    UnstuffPlain(e, Stuff(tail));
    UnstuffStuff(tail);
    var u := [SERIAL_REV, v, e] + tail;
    assert [SERIAL_REV] + ([v] + ([e] + tail)) == u;
    if Payload(u).Some? {
      PayloadSize(u);
      PayloadCount(u);
      SizeByteSmall(|u| - 4, v);
      SizeByteSmall(|m|, c);
      UnescapedCounts(c, v, |m|);
      assert d[..2] == [0x01, c];
      RegistersDiffer2();
      TailAccepted(m, [SERIAL_REV, v, e], 2);
    }
  }

  lemma UnescapedCounts(c: byte, v: byte, n: nat)
    requires Value(c) == n && Value(v) == n + 1 && IsSpecial(c) && !IsSpecial(v)
    ensures c == 0x7e && v == 0x7f
  {}

  lemma StuffTwo(s: seq<byte>)
    requires |s| >= 2
    ensures Stuff(s) == StuffByte(s[0]) + (StuffByte(s[1]) + Stuff(s[2..]))
  {
    hide Stuff, StuffByte;
    StuffUnfold(s);
    StuffUnfold(s[1..]);
    assert s[1..][1..] == s[2..];
  }

  lemma RevisionIsPlain()
    ensures StuffByte(SERIAL_REV) == [SERIAL_REV]
  {}

  lemma HeaderOfStuffed(m: Packet)
    ensures var d := Interior(SERIAL_REV, m);
            Stuff(d) == [SERIAL_REV] + (StuffByte(SizeByte(|m|)) + Stuff(d[2..]))
    ensures HeaderSize(m) == 1 + |StuffByte(SizeByte(|m|))|
  {
    hide Stuff, Interior, SizeByte, StuffByte;
    InteriorHeader(m);
    RevisionIsPlain();
    StuffTwo(Interior(SERIAL_REV, m));
    StuffTwo([SERIAL_REV, SizeByte(|m|)]);
    assert [SERIAL_REV, SizeByte(|m|)][2..] == [];
    StuffNothing();
  }

  /** An escape character that appears or disappears in the header. */
  lemma HeaderIsRefused(m: Packet, k: nat, v: byte)
    requires var t := Stuff(Interior(SERIAL_REV, m));
             && k < HeaderSize(m) && k < |t| && v != t[k] && v != FRAME_CHAR
             && (v == ESCAPE_CHAR || t[k] == ESCAPE_CHAR)
    ensures Decode(Stuff(Interior(SERIAL_REV, m))[k := v]).None?
  {
    hide Payload, Interior, Stuff, Unstuff, SizeByte;
    var d, c := Interior(SERIAL_REV, m), SizeByte(|m|);
    var rest := Stuff(d[2..]);
    var t' := Stuff(d)[k := v];
    HeaderOfStuffed(m);
    if k == 0 {
      assert t' == [ESCAPE_CHAR] + (StuffByte(c) + rest);
      RevisionEscaped(m);
    } else if !IsSpecial(c) {
      assert t' == [SERIAL_REV] + ([ESCAPE_CHAR] + rest);
      CountEscaped(m);
    } else if k == 1 {
      assert t' == [SERIAL_REV] + ([v] + ([c - 0x20] + rest));
      CountUnescaped(m, v);
    } else {
      assert t' == [SERIAL_REV] + ([ESCAPE_CHAR, ESCAPE_CHAR] + rest);
      UnstuffPlain(SERIAL_REV, [ESCAPE_CHAR, ESCAPE_CHAR] + rest);
      UnstuffEscaped(ESCAPE_CHAR, rest);
    }
  }

  // ------------------------------------------------------------ only a flag can do it

  /** Whatever byte of a frame becomes whatever other than a flag, nothing arrives in its place. */
  lemma InsteadNothing(m: Packet, i: nat, v: byte)
    requires i < |Encode(m)| && v != Encode(m)[i] && v != FRAME_CHAR
    ensures Instead(m, i, v) == []
  {
    hide Decode, Interior, Stuff, HeaderSize;
    var w, t := Encode(m), Stuff(Interior(SERIAL_REV, m));
    StuffFlagFree(Interior(SERIAL_REV, m));
    if 0 < i < |w| - 1 {
      assert w[i] == t[i - 1];
      assert w[i := v][1..|w| - 1] == t[i - 1 := v];
      if !IsSpecial(v) && !IsSpecial(t[i - 1]) {
        OrdinaryIsRefused(m, i - 1, v);
      } else if i > HeaderSize(m) {
        ResizedIsRefused(m, i - 1, v);
      } else {
        HeaderIsRefused(m, i - 1, v);
      }
    }
  }

  /** Any wire byte of a frame -- flag, header, message, check or escape -- that becomes anything but a flag:
   *  the frame is dropped, and all the frames around it arrive. */
  lemma WireByteReplaced(limit: nat, rx: Rx, before: seq<Packet>, m: Packet, i: nat, v: byte, after: seq<Packet>)
    requires Roomy(limit) && Clean(rx) && i < |Encode(m)| && v != Encode(m)[i] && v != FRAME_CHAR
    ensures Run(limit, rx, EncodeAll(before) + Encode(m)[i := v] + EncodeAll(after)).packets
         == Sieve(before) + Sieve(after)
  {
    hide Run, Encode, EncodeAll, Sieve, Instead;
    OneByteAnywhere(limit, rx, before, m, i, v, after);
    InsteadNothing(m, i, v);
    assert Sieve(before) + [] == Sieve(before);
  }

  // ------------------------------------------------------------ when a flag does it

  /** What is left of a stuffed sequence without its first `k` bytes stands for: a code that lost its
   *  escape character, if the cut went through an escape, ... */
  function CutHead(s: seq<byte>, k: nat): seq<byte>
    requires k <= |Stuff(s)|
  {
    if k == 0 then []
    else if k < |StuffByte(s[0])| then [s[0] - 0x20]
    else CutHead(s[1..], k - |StuffByte(s[0])|)
  }

  /** ... and the content from this index on. */
  function CutIndex(s: seq<byte>, k: nat): (j: nat)
    requires k <= |Stuff(s)|
    ensures j <= |s|
  {
    if k == 0 then 0
    else if k < |StuffByte(s[0])| then 1
    else 1 + CutIndex(s[1..], k - |StuffByte(s[0])|)
  }

  lemma CutEscape(b: byte, t: seq<byte>, k: nat)
    requires 0 < k < |StuffByte(b)|
    ensures (StuffByte(b) + t)[k..] == [b - 0x20] + t && b - 0x20 != ESCAPE_CHAR
  {}

  lemma StuffByteSize(b: byte)
    ensures 1 <= |StuffByte(b)| <= 2
  {}

  lemma {:induction false} UnstuffCut(s: seq<byte>, k: nat)
    requires k <= |Stuff(s)|
    ensures |CutHead(s, k)| <= 1
    ensures Unstuff(Stuff(s)[k..]) == Some(CutHead(s, k) + s[CutIndex(s, k)..])
  {
    hide Stuff, Unstuff, StuffByte;
    if k == 0 {
      UnstuffStuff(s);
      assert Stuff(s)[0..] == Stuff(s) && [] + s[0..] == s;
    } else {
      StuffSize(s);
      StuffUnfold(s);
      StuffByteSize(s[0]);
      var n, rest := |StuffByte(s[0])|, s[1..];
      if k < n {
        UnstuffStuff(rest);
        CutEscape(s[0], Stuff(rest), k);
        UnstuffPlain(s[0] - 0x20, Stuff(rest));
      } else {
        UnstuffCut(rest, k - n);
        assert Stuff(s)[k..] == Stuff(rest)[k - n..];
        assert s[1 + CutIndex(rest, k - n)..] == rest[CutIndex(rest, k - n)..];
      }
    }
  }

  lemma StuffSize(s: seq<byte>)
    ensures Stuff(s) != [] ==> s != []
  {}

  /** A flag in place of an inner byte `i` of the frame of a message of at most 255 bytes: exactly when what
   *  follows it is delivered as a packet of its own. Before the common end the register must be where the
   *  new frame has it, which is at its start unless an escape was cut through. */
  lemma FlagInFrame(m: Packet, i: nat)
    requires 0 < i < |Encode(m)| - 1 && |m| <= MAX_MESSAGE
    ensures var d := Interior(SERIAL_REV, m); var q, j := CutHead(d, i), CutIndex(d, i); var u := q + d[j..];
            Instead(m, i, FRAME_CHAR) ==
            if |u| >= MIN_MESSAGE + 4 && u[1] == SizeByte(|u| - 4) && Fcs.Fcs(INITFCS, q) == Fcs.Fcs(INITFCS, d[..j])
            then [u[2..|u| - 2]]
            else []
  {
    hide Interior, Stuff, Fcs.Fcs, CutHead, CutIndex, Unstuff, SizeByte;
    var d := Interior(SERIAL_REV, m);
    var w, t, q, j := Encode(m), Stuff(d), CutHead(d, i), CutIndex(d, i);
    var u := q + d[j..];
    assert w[1..i] == t[..i - 1] && w[i + 1..|w| - 1] == t[i..];
    CutShortIsRefused(m, i - 1);
    UnstuffCut(d, i);
    if |u| >= MIN_MESSAGE + 4 {
      assert |u| <= |m| + 4 by { CutIndexGrows(d, i); }
      TailAccepted(m, q, j);
    }
  }

  lemma CutIndexGrows(s: seq<byte>, k: nat)
    requires 0 < k <= |Stuff(s)|
    ensures CutIndex(s, k) >= 1
  {}
}
