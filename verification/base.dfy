/** Small shared vocabulary: tape cells and optional values. */
module Base {

  /** One tape cell. The C code stores cells in `char`; every operation on
      them is arithmetic modulo 256, so a cell is an unsigned byte here. */
  type Byte = b: int | 0 <= b < 256

  /** A value that may be absent, used where the C code returns NULL. */
  datatype Option<T> = None | Some(value: T)

  /** The byte that `getchar`'s end-of-file value (-1) becomes once it is
      stored into a `char` cell. */
  const EofByte: Byte := 255

  /** Adds `d` to a cell with 8-bit wrap-around. */
  function Wrap(b: Byte, d: int): (r: Byte)
    ensures (r - b - d) % 256 == 0
    ensures d == 1 ==> (b == 255 <==> r == 0)
    ensures d == -1 ==> (b == 0 <==> r == 255)
  {
    (b + d) % 256
  }
}
