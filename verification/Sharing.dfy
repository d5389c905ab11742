/** Frames that share the flag between them, as RFC 1662 allows: when the receiver gets them all. */
module Sharing {
  import opened Bytes
  import opened Stuffing
  import opened Frame
  import opened Receiver

  /** Pieces of a stream, each closed by the flag that opens the next one. */
  function Chain(ts: seq<seq<byte>>): seq<byte> {
    if ts == [] then [] else ts[0] + [FRAME_CHAR] + Chain(ts[1..])
  }

  /** What the pieces would deliver, each in a frame of its own. */
  function Decodings(ts: seq<seq<byte>>): seq<Packet> {
    if ts == [] then []
    else (if Decode(ts[0]).Some? then [Decode(ts[0]).value] else []) + Decodings(ts[1..])
  }

  /** No two neighbours both decode, and the first piece only in an open frame. */
  predicate Apart(open: bool, ts: seq<seq<byte>>) {
    && (ts != [] && Decode(ts[0]).Some? ==> open)
    && (forall i, j :: 0 <= i && j == i + 1 < |ts| ==> Decode(ts[i]).None? || Decode(ts[j]).None?)
  }

  lemma ApartTail(open: bool, ts: seq<seq<byte>>)
    requires ts != []
    ensures Apart(open, ts) <==> (Decode(ts[0]).Some? ==> open) && Apart(Decode(ts[0]).None?, ts[1..])
  {
    hide Decode;
    var rest := ts[1..];
    if Apart(open, ts) {
      forall i, j | 0 <= i && j == i + 1 < |rest|
        ensures Decode(rest[i]).None? || Decode(rest[j]).None?
      {
        assert rest[i] == ts[i + 1] && rest[j] == ts[j + 1];
      }
      assert rest != [] ==> rest[0] == ts[1];
    }
    if (Decode(ts[0]).Some? ==> open) && Apart(Decode(ts[0]).None?, rest) {
      forall i, j | 0 <= i && j == i + 1 < |ts|
        ensures Decode(ts[i]).None? || Decode(ts[j]).None?
      {
        assert rest[j - 1] == ts[j];
        assert i > 0 ==> rest[i - 1] == ts[i];
      }
    }
  }

  lemma {:induction false} ParseChain(open: bool, ts: seq<seq<byte>>)
    requires forall t :: t in ts ==> FlagFree(t)
    ensures |Parse(open, Chain(ts))| <= |Decodings(ts)|
    ensures Parse(open, Chain(ts)) == Decodings(ts) <==> Apart(open, ts)
    decreases |ts|
  {
    hide Parse, Decode, Apart;
    if ts == [] {
      ParseNothing(open);
      assert Apart(open, []) by { NothingIsApart(open); }
    } else {
      ParsePiece(open, ts[0], Chain(ts[1..]));
      ParseChain(false, ts[1..]);
      ParseChain(true, ts[1..]);
      ApartTail(open, ts);
      if open && Decode(ts[0]).Some? {
        var v, p, q := Decode(ts[0]).value, Parse(false, Chain(ts[1..])), Decodings(ts[1..]);
        assert ([v] + p)[1..] == p && ([v] + q)[1..] == q;
      }
    }
  }

  lemma NothingIsApart(open: bool)
    ensures Apart(open, [])
  {}

  /** Pieces that share their flags all arrive exactly if no two neighbours decode -- nor, for a receiver
   *  outside a frame, the first piece. */
  lemma SharedFlags(limit: nat, rx: Rx, ts: seq<seq<byte>>)
    requires Roomy(limit) && Clean(rx) && forall t :: t in ts ==> FlagFree(t)
    ensures Run(limit, rx, Chain(ts)).packets == Decodings(ts) <==> Apart(rx == OPENED, ts)
  {
    hide Run, Parse, Decode, Apart, Decodings, Chain;
    Refines(limit, rx, Chain(ts));
    ParseChain(rx == OPENED, ts);
  }

  // ------------------------------------------------------------ messages

  function Pieces(ms: seq<Packet>): (ts: seq<seq<byte>>)
    ensures |ts| == |ms|
  {
    if ms == [] then [] else [Stuff(Interior(SERIAL_REV, ms[0]))] + Pieces(ms[1..])
  }

  /** One flag, and then every message followed by one. */
  function EncodeSharing(ms: seq<Packet>): seq<byte> {
    [FRAME_CHAR] + Chain(Pieces(ms))
  }

  lemma {:induction false} PiecesOfMessages(ms: seq<Packet>)
    ensures forall t :: t in Pieces(ms) ==> FlagFree(t)
    ensures Decodings(Pieces(ms)) == Sieve(ms)
    ensures forall i :: 0 <= i < |ms| ==> (Decode(Pieces(ms)[i]).Some? <==> Deliverable(ms[i]))
  {
    hide Decode, Interior;
    if ms != [] {
      StuffFlagFree(Interior(SERIAL_REV, ms[0]));
      DecodeStuffed(SERIAL_REV, ms[0]);
      PiecesOfMessages(ms[1..]);
      assert Pieces(ms)[1..] == Pieces(ms[1..]);
    }
  }

  lemma OpenChain(open: bool, ts: seq<seq<byte>>)
    ensures Parse(open, [FRAME_CHAR] + Chain(ts)) == Parse(true, Chain(ts))
  {
    hide Parse, Decode;
    ParsePiece(open, [], Chain(ts));
    NothingDecodesFromNothing();
    assert [] + [FRAME_CHAR] + Chain(ts) == [FRAME_CHAR] + Chain(ts);
  }

  /** A sender that shares flags loses nothing exactly if it never puts two deliverable messages
   *  next to each other. */
  lemma SharingLosesNothing(limit: nat, rx: Rx, ms: seq<Packet>)
    requires Roomy(limit) && Clean(rx)
    ensures Run(limit, rx, EncodeSharing(ms)).packets == Sieve(ms) <==>
            forall i :: 0 < i < |ms| ==> !Deliverable(ms[i - 1]) || !Deliverable(ms[i])
  {
    hide Run, Parse, Decode, Chain, Pieces, Sieve, Decodings, Deliverable;
    var ts := Pieces(ms);
    Refines(limit, rx, EncodeSharing(ms));
    OpenChain(rx == OPENED, ts);
    PiecesOfMessages(ms);
    ParseChain(true, ts);
    if Apart(true, ts) {
      forall i | 0 < i < |ms|
        ensures !Deliverable(ms[i - 1]) || !Deliverable(ms[i])
      {
        assert Decode(ts[i - 1]).None? || Decode(ts[i]).None?;
      }
    }
  }

  function EverySecond(ms: seq<Packet>): seq<Packet> {
    if |ms| <= 1 then ms else [ms[0]] + EverySecond(ms[2..])
  }

  lemma {:induction false} ParseSharing(ms: seq<Packet>)
    requires forall m :: m in ms ==> Deliverable(m)
    ensures Parse(true, Chain(Pieces(ms))) == EverySecond(ms)
    decreases |ms|
  {
    hide Parse, Decode, Interior;
    if ms == [] {
      ParseNothing(true);
    } else {
      PiecesOfMessages(ms);
      var rest := Chain(Pieces(ms[1..]));
      DecodeStuffed(SERIAL_REV, ms[0]);
      ParsePiece(true, Pieces(ms)[0], rest);
      if |ms| == 1 {
        ParseNothing(false);
      } else {
        ParsePiece(false, Pieces(ms[1..])[0], Chain(Pieces(ms[2..])));
        assert ms[1..][1..] == ms[2..];
        PiecesOfMessages(ms[1..]);
        ParseSharing(ms[2..]);
      }
    }
  }

  /** If all are deliverable, the first, the third, the fifth and so on arrive. */
  lemma SharingLosesEverySecond(limit: nat, rx: Rx, ms: seq<Packet>)
    requires Roomy(limit) && Clean(rx) && forall m :: m in ms ==> Deliverable(m)
    ensures Run(limit, rx, EncodeSharing(ms)).packets == EverySecond(ms)
  {
    hide Run, Parse, Chain, Pieces;
    Refines(limit, rx, EncodeSharing(ms));
    OpenChain(rx == OPENED, Pieces(ms));
    ParseSharing(ms);
  }
}
