/** Shared vocabulary: optional values, 64-bit unsigned integers and the cells that
    stand for the caller's variables behind output pointers. */
module Common {

  datatype Option<+T> = None | Some(value: T)

  const TWO_TO_THE_64: int := 0x1_0000_0000_0000_0000

  type uint64 = x: int | 0 <= x < 0x1_0000_0000_0000_0000

  /** Unsigned subtraction: the difference modulo 2 to the 64. */
  function WrapSub(a: uint64, b: uint64): (r: uint64)
    ensures a >= b ==> r == a - b
    ensures a < b ==> r == a - b + TWO_TO_THE_64
  {
    (a - b) % TWO_TO_THE_64
  }

  /** A variable of the caller, reached through a pointer. */
  class Cell<T> {
    var value: T

    constructor (value: T)
      ensures this.value == value
    {
      this.value := value;
    }
  }
}
