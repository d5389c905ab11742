/** Bytes, packets and the two conversions between numbers and bytes that the frame format needs. */
module Bytes {
  type byte = bv8
  type Packet = seq<byte>

  datatype Option<+T> = None | Some(value: T)

  const FRAME_CHAR: byte := 0x7E
  const ESCAPE_CHAR: byte := 0x7D
  const SERIAL_REV: byte := 0x01

  /** A size narrowed to one unsigned byte: counting up in a byte that wraps around. */
  function SizeByte(n: nat): byte {
    if n == 0 then 0 else SizeByte(n - 1) + 1
  }

  function Value(b: byte): (n: nat)
    ensures n < 256
  {
    b as int
  }

  lemma {:induction false} SizeByteValue(n: nat)
    ensures Value(SizeByte(n)) == n % 256
  {
    hide Value;
    if n == 0 {
      ZeroValue();
    } else {
      SizeByteValue(n - 1);
      SuccessorValue(SizeByte(n - 1));
    }
  }

  lemma ZeroValue()
    ensures Value(0) == 0
  {}

  lemma SuccessorValue(b: byte)
    ensures Value(b + 1) == (Value(b) + 1) % 256
  {
    if b == 255 {
      assert Value(b) == 255 && Value(0) == 0;
    } else {
      NoWrap(b);
    }
  }

  lemma NoWrap(b: byte)
    requires b < 255
    ensures (b + 1) as int == b as int + 1
  {}

  function HighByte(w: bv16): byte {
    (w >> 8) as byte
  }

  function LowByte(w: bv16): byte {
    (w & 0xff) as byte
  }

  /** A 16-bit word put together from its most and its least significant byte. */
  function Word(hi: byte, lo: byte): bv16 {
    ((hi as bv16) << 8) + (lo as bv16)
  }

  lemma WordOfBytes(w: bv16)
    ensures Word(HighByte(w), LowByte(w)) == w
  {}

  lemma BytesOfWord(hi: byte, lo: byte)
    ensures HighByte(Word(hi, lo)) == hi && LowByte(Word(hi, lo)) == lo
  {}
}
