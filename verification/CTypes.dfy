/** The machine integers of the source, and optional values. */
module CTypes {
  datatype Option<+T> = None | Some(value: T)

  const INT_MAX := 0x7FFF_FFFF
  const LONG_MAX := 0x7FFF_FFFF_FFFF_FFFF

  /** The 32-bit `int`. */
  type CInt = x: int | -0x8000_0000 <= x <= INT_MAX

  /** The value an `int` takes when it is given x. */
  function Int32(x: int): (r: CInt)
    ensures (r - x) % 0x1_0000_0000 == 0
    ensures -0x8000_0000 <= x <= INT_MAX ==> r == x
  {
    (x + 0x8000_0000) % 0x1_0000_0000 - 0x8000_0000
  }

  /** The value an `unsigned int` takes. */
  function U32(x: int): (r: nat)
    ensures r < 0x1_0000_0000
    ensures 0 <= x < 0x1_0000_0000 ==> r == x
  {
    x % 0x1_0000_0000
  }

  /** The value a `size_t` takes. */
  function U64(x: int): (r: nat)
    ensures r < 0x1_0000_0000_0000_0000
    ensures 0 <= x < 0x1_0000_0000_0000_0000 ==> r == x
  {
    x % 0x1_0000_0000_0000_0000
  }

  /** Unsigned arithmetic is modulo the size of the type. */
  lemma UnsignedWraps(x: int)
    ensures (U32(x) - x) % 0x1_0000_0000 == 0 && (U64(x) - x) % 0x1_0000_0000_0000_0000 == 0
  {
  }
}
