/** Bytes and the bit-level step of dynamic truncation: four bytes masked,
    shifted and or-ed into one 32-bit word, and what that word is as a number. */
module Bits {
  type Byte = bv8

  /** `((b0 & 0x7f) << 24) | ((b1 & 0xff) << 16) | ((b2 & 0xff) << 8) | (b3 & 0xff)`
      on 32 bits. */
  function JoinBytes(b0: Byte, b1: Byte, b2: Byte, b3: Byte): (w: bv32)
    ensures w as int == (b0 as int % 128) * 0x100_0000 + b1 as int * 0x1_0000 + b2 as int * 0x100 + b3 as int
  {
    var w := ((b0 & 0x7f) as bv32 << 24) | ((b1 as bv32 & 0xff) << 16) | ((b2 as bv32 & 0xff) << 8) | (b3 as bv32 & 0xff);
    ShiftOrIsSum(b0, b1, b2, b3);
    MaskIsMod(b0);
    w
  }

  /** The shifted bytes occupy disjoint bit ranges, so `|` adds them. */
  lemma ShiftOrIsSum(b0: Byte, b1: Byte, b2: Byte, b3: Byte)
    ensures (((b0 & 0x7f) as bv32 << 24) | ((b1 as bv32 & 0xff) << 16) | ((b2 as bv32 & 0xff) << 8) | (b3 as bv32 & 0xff)) as int
      == (b0 & 0x7f) as int * 0x100_0000 + b1 as int * 0x1_0000 + b2 as int * 0x100 + b3 as int
  {
  }

  /** The byte whose value is `x`, as the cast `(byte)x` gives it. It is
      built from its bits, most significant first, rather than written
      `x as bv8`, because proving that the cast keeps the value is unstable
      for the solver once the rest of the model is in scope; this
      definition needs only the byte-to-number direction. */
  function ToByte(x: int): (b: Byte)
    requires 0 <= x < 256
    ensures b as int == x
  {
    if x < 2 then (if x == 0 then 0 else 1)
    else
      var high := ToByte(x / 2);
      ShiftInBit(high, x % 2);
      (high << 1) | (if x % 2 == 0 then 0 else 1)
  }

  /** Shifting a byte below 128 left by one and or-ing in a bit doubles it and adds the bit. */
  lemma ShiftInBit(high: Byte, bit: int)
    requires high as int < 128 && 0 <= bit < 2
    ensures ((high << 1) | (if bit == 0 then 0 else 1)) as int == 2 * high as int + bit
  {
  }

  /** Masking with 0x7f keeps the byte's value modulo 128. */
  lemma MaskIsMod(b: Byte)
    ensures (b & 0x7f) as int == b as int % 128
  {
  }
}
