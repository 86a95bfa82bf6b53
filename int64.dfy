/** Java's signed 64-bit `long`, the type of commit and create times. */
module Int64 {

  newtype Long = x: int | -0x8000_0000_0000_0000 <= x <= 0x7fff_ffff_ffff_ffff
}
