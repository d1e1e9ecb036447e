/**
 * CRC-16/MODBUS, the checksum the banner stores for each of its versions
 * (section 6.2.2 of the MODBUS over Serial Line Specification V1.02): the
 * register starts at 0xffff; each byte is xored into its low end and then
 * shifted out one bit at a time, least significant first, folding in the
 * reflected polynomial 0xa001 whenever a one falls out. There is no final
 * xor.
 */
module Crc16 {
  import opened Common

  /** The generator x^16 + x^15 + x^2 + 1, bit-reversed. */
  const Poly: u16 := 0xa001

  const Init: u16 := 0xffff

  /** Exclusive or of a register and a value below 2^16. */
  function Xor16(a: u16, b: nat): u16 {
    Pow2Facts();
    XorBits(a, b, 16)
  }

  /** One bit: shift right, folding in the polynomial when a one falls out. */
  function ShiftBit(crc: u16): u16 {
    if crc % 2 == 1 then Xor16(crc / 2, Poly) else crc / 2
  }

  function ShiftBits(crc: u16, n: nat): u16
    decreases n
  {
    if n == 0 then crc else ShiftBits(ShiftBit(crc), n - 1)
  }

  /** One byte into the register. */
  function Update(crc: u16, b: byte): u16 {
    ShiftBits(Xor16(crc, b), 8)
  }

  /** The register after the bytes of `data`, in order. */
  function Fold(crc: u16, data: seq<byte>): u16
    decreases |data|
  {
    if data == [] then crc else Fold(Update(crc, data[0]), data[1..])
  }

  /** The checksum of a message. */
  function Checksum(data: seq<byte>): u16 {
    Fold(Init, data)
  }

  /** The checksum can be computed piece by piece: the register after `a` is the start for `b`. */
  lemma {:induction false} FoldAppend(crc: u16, a: seq<byte>, b: seq<byte>)
    ensures Fold(crc, a + b) == Fold(Fold(crc, a), b)
    decreases |a|
  {
    if a == [] {
      assert a + b == b;
    } else {
      assert (a + b)[0] == a[0];
      assert (a + b)[1..] == a[1..] + b;
      FoldAppend(Update(crc, a[0]), a[1..], b);
    }
  }
}
