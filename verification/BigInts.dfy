/** math/big: integer objects that are shared by reference and updated in place. */
module BigInts {
  class BigInt {
    var value: int

    constructor (value: int)
      ensures this.value == value
    {
      this.value := value;
    }

    /** Sets this to x; the two stay separate objects. */
    method Set(x: BigInt)
      modifies this
      ensures value == old(x.value)
    {
      value := x.value;
    }

    /** Sets this to x + y; either may be this very object. */
    method Add(x: BigInt, y: BigInt)
      modifies this
      ensures value == old(x.value) + old(y.value)
    {
      value := x.value + y.value;
    }

    method AddInt(x: BigInt, n: int)
      modifies this
      ensures value == old(x.value) + n
    {
      value := x.value + n;
    }

    /** Sets this to x divided by a positive n, rounding down. */
    method DivInt(x: BigInt, n: int)
      requires n > 0
      modifies this
      ensures value == old(x.value) / n
    {
      value := x.value / n;
    }
  }
}
