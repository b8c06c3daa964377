/**
  Fixed-width integers and the point type shared by the regions.

  Floating-point arithmetic is not modelled: a double is carried as its
  64-bit IEEE 754 bit pattern, which is all that encoding and decoding
  ever look at.
 */
module Primitives {

  const TWO_TO_THE_64: nat := 0x1_0000_0000_0000_0000

  /** `std::uint8_t` */
  type uint8 = x: int | 0 <= x < 256

  /** `std::uint64_t` */
  type uint64 = x: int | 0 <= x < TWO_TO_THE_64

  /** A `double`, as the 64-bit pattern the codec writes. */
  type DoubleBits = uint64

  /** `UnitVector3d`: three coordinates; normalisation is not checked. */
  datatype UnitVector3d = UnitVector3d(x: DoubleBits, y: DoubleBits, z: DoubleBits)
}
