/** Byte stuffing as in section 4.2 of RFC 1662, with the escapes of this link only:
 *  a frame or escape character inside a frame travels as the escape character
 *  followed by the original less 0x20. */
module Stuffing {
  import opened Bytes

  predicate IsSpecial(b: byte) {
    b == FRAME_CHAR || b == ESCAPE_CHAR
  }

  predicate IsEscapeCode(b: byte) {
    b == ESCAPE_CHAR - 0x20 || b == FRAME_CHAR - 0x20
  }

  function StuffByte(b: byte): seq<byte> {
    if IsSpecial(b) then [ESCAPE_CHAR, b - 0x20] else [b]
  }

  function Stuff(s: seq<byte>): seq<byte> {
    if s == [] then [] else StuffByte(s[0]) + Stuff(s[1..])
  }

  lemma StuffNothing()
    ensures Stuff([]) == []
  {}

  /** What the receiver makes of the bytes between two frame characters;
   *  `None` for an unknown or a dangling escape. */
  function Unstuff(t: seq<byte>): Option<seq<byte>> {
    if t == [] then Some([])
    else if t[0] != ESCAPE_CHAR then Prepend(t[0], Unstuff(t[1..]))
    else if |t| >= 2 && IsEscapeCode(t[1]) then Prepend(t[1] + 0x20, Unstuff(t[2..]))
    else None
  }

  function Prepend(b: byte, s: Option<seq<byte>>): Option<seq<byte>> {
    if s.None? then None else Some([b] + s.value)
  }

  predicate FlagFree(t: seq<byte>) {
    FRAME_CHAR !in t
  }

  lemma {:induction false} StuffFlagFree(s: seq<byte>)
    ensures FlagFree(Stuff(s))
  {
    if s != [] {
      StuffFlagFree(s[1..]);
    }
  }

  lemma {:induction false} UnstuffStuff(s: seq<byte>)
    ensures Unstuff(Stuff(s)) == Some(s)
  {
    if s != [] {
      UnstuffStuff(s[1..]);
      assert Stuff(s)[|StuffByte(s[0])|..] == Stuff(s[1..]);
      assert s == [s[0]] + s[1..];
    }
  }

  /** Between two frame characters, every sequence that can be unstuffed is the stuffing of its content. */
  lemma {:induction false} StuffUnstuff(t: seq<byte>)
    requires FlagFree(t) && Unstuff(t).Some?
    ensures Stuff(Unstuff(t).value) == t
    decreases |t|
  {
    if t != [] {
      var n := if t[0] != ESCAPE_CHAR then 1 else 2;
      var b := if n == 1 then t[0] else t[1] + 0x20;
      StuffUnstuff(t[n..]);
      assert Unstuff(t).value[1..] == Unstuff(t[n..]).value;
      assert t == StuffByte(b) + t[n..];
    }
  }

  lemma {:induction false} StuffAppend(a: seq<byte>, b: seq<byte>)
    ensures Stuff(a + b) == Stuff(a) + Stuff(b)
  {
    if a == [] {
      assert a + b == b;
    } else {
      assert (a + b)[1..] == a[1..] + b;
      StuffAppend(a[1..], b);
    }
  }

  /** How many bytes of a sequence need an escape. */
  function Specials(s: seq<byte>): nat {
    if s == [] then 0 else (if IsSpecial(s[0]) then 1 else 0) + Specials(s[1..])
  }

  lemma {:induction false} StuffLength(s: seq<byte>)
    ensures |Stuff(s)| == |s| + Specials(s) <= 2 * |s|
  {
    if s != [] {
      StuffLength(s[1..]);
    }
  }

  /** Two sequences of one length that differ in exactly one place. */
  ghost predicate OneByteApart(s: seq<byte>, u: seq<byte>) {
    |s| == |u| && exists j :: 0 <= j < |s| && s[j] != u[j] && u == s[j := u[j]]
  }

  lemma OneByteApartTail(b: byte, s: seq<byte>, u: seq<byte>)
    requires OneByteApart(s, u)
    ensures OneByteApart([b] + s, [b] + u)
  {
    var j :| 0 <= j < |s| && s[j] != u[j] && u == s[j := u[j]];
    var s', u' := [b] + s, [b] + u;
    assert s'[j + 1] != u'[j + 1] && u' == s'[j + 1 := u'[j + 1]];
  }

  lemma OneByteApartHead(b: byte, c: byte, s: seq<byte>)
    requires b != c
    ensures OneByteApart([b] + s, [c] + s)
  {
    var s', u' := [b] + s, [c] + s;
    assert s'[0] != u'[0] && u' == s'[0 := u'[0]];
  }

  /** The escape unit of the first byte was hit. */
  lemma FirstUnitReplaced(b: byte, rest: seq<byte>, i: nat, v: byte)
    requires i < |StuffByte(b)| && !IsSpecial(StuffByte(b)[i]) && !IsSpecial(v) && StuffByte(b)[i] != v
    ensures var u := Unstuff(StuffByte(b)[i := v] + Stuff(rest));
            u.None? || (|u.value| > 0 && u.value[0] != b && u.value == [u.value[0]] + rest)
  {
    UnstuffStuff(rest);
    var t := StuffByte(b)[i := v] + Stuff(rest);
    if |StuffByte(b)| == 1 {
      assert t[1..] == Stuff(rest);
    } else {
      assert t[2..] == Stuff(rest);
    }
  }

  /** A stuffed sequence with one ordinary byte replaced by another ordinary byte: either an escape
   *  broke, or exactly one byte of the content changed. */
  lemma {:induction false} StuffOneByteReplaced(s: seq<byte>, i: nat, v: byte)
    requires i < |Stuff(s)| && !IsSpecial(Stuff(s)[i]) && !IsSpecial(v) && Stuff(s)[i] != v
    ensures var u := Unstuff(Stuff(s)[i := v]); u.None? || OneByteApart(s, u.value)
  {
    hide Unstuff, StuffByte;
    var head, rest := StuffByte(s[0]), s[1..];
    var n, t := |head|, Stuff(s)[i := v];
    var u := Unstuff(t);
    assert s == [s[0]] + rest;
    if i < n {
      assert t == head[i := v] + Stuff(rest);
      FirstUnitReplaced(s[0], rest, i, v);
      if u.Some? {
        OneByteApartHead(s[0], u.value[0], rest);
      }
    } else {
      var t' := Stuff(rest)[i - n := v];
      StuffOneByteReplaced(rest, i - n, v);
      assert t == head + t';
      UnstuffUnit(s[0], t');
      if u.Some? {
        OneByteApartTail(s[0], rest, Unstuff(t').value);
      }
    }
  }

  lemma UnstuffUnit(b: byte, t: seq<byte>)
    ensures Unstuff(StuffByte(b) + t) == Prepend(b, Unstuff(t))
  {
    assert (StuffByte(b) + t)[|StuffByte(b)|..] == t;
  }

  /** The escape unit of the first byte was hit and an escape character appeared or disappeared. */
  lemma FirstUnitResized(b: byte, rest: seq<byte>, i: nat, v: byte)
    requires i < |StuffByte(b)| && v != StuffByte(b)[i] && v != FRAME_CHAR
    requires v == ESCAPE_CHAR || StuffByte(b)[i] == ESCAPE_CHAR
    ensures var u := Unstuff(StuffByte(b)[i := v] + Stuff(rest));
            u.None? || |u.value| == |rest| || |u.value| == |rest| + 2
  {
    UnstuffStuff(rest);
    var t := StuffByte(b)[i := v] + Stuff(rest);
    if |StuffByte(b)| == 1 {
      assert t[1..] == Stuff(rest);
      if rest != [] {
        UnstuffStuff(rest[1..]);
        assert IsEscapeCode(t[1]) ==> t[2..] == Stuff(rest[1..]);
      }
    } else if i == 0 {
      assert t[1..][1..] == Stuff(rest);
    }
  }

  /** A stuffed sequence in which an escape character was put in or taken away, other than by a flag:
   *  either an escape broke, or the content grew or shrank by one byte. */
  lemma {:induction false} StuffResized(s: seq<byte>, i: nat, v: byte)
    requires i < |Stuff(s)| && v != Stuff(s)[i] && v != FRAME_CHAR
    requires v == ESCAPE_CHAR || Stuff(s)[i] == ESCAPE_CHAR
    ensures var u := Unstuff(Stuff(s)[i := v]); u.None? || |u.value| == |s| - 1 || |u.value| == |s| + 1
  {
    hide Unstuff, StuffByte;
    var head, rest := StuffByte(s[0]), s[1..];
    var n, t := |head|, Stuff(s)[i := v];
    if i < n {
      assert t == head[i := v] + Stuff(rest);
      FirstUnitResized(s[0], rest, i, v);
    } else {
      StuffResized(rest, i - n, v);
      UnstuffUnit(s[0], Stuff(rest)[i - n := v]);
      assert t == head + Stuff(rest)[i - n := v];
    }
  }

  /** What is left of a stuffed sequence that is cut short. */
  lemma {:induction false} StuffCutShort(s: seq<byte>, k: nat)
    requires k < |Stuff(s)|
    ensures var u := Unstuff(Stuff(s)[..k]); u.None? || (|u.value| < |s| && u.value == s[..|u.value|])
  {
    var head, rest := StuffByte(s[0]), s[1..];
    var n := |head|;
    if k >= n {
      var t' := Stuff(rest)[..k - n];
      StuffCutShort(rest, k - n);
      assert Stuff(s)[..k] == head + t';
      UnstuffUnit(s[0], t');
      if Unstuff(t').Some? {
        var u := Unstuff(t').value;
        assert s[..|u| + 1] == [s[0]] + rest[..|u|];
      }
    }
  }

  lemma {:induction false} UnstuffAfter(s: seq<byte>, t: seq<byte>)
    ensures Unstuff(Stuff(s) + t) == if Unstuff(t).None? then None else Some(s + Unstuff(t).value)
  {
    hide Unstuff, StuffByte;
    if s == [] {
      assert Stuff(s) + t == t;
      assert Unstuff(t).Some? ==> s + Unstuff(t).value == Unstuff(t).value;
    } else {
      UnstuffAfter(s[1..], t);
      UnstuffUnit(s[0], Stuff(s[1..]) + t);
      assert Stuff(s) + t == StuffByte(s[0]) + (Stuff(s[1..]) + t);
      if Unstuff(t).Some? {
        assert s + Unstuff(t).value == [s[0]] + (s[1..] + Unstuff(t).value);
      }
    }
  }
}
