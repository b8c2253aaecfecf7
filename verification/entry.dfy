/**
 This module defines a catalog entry: one product record of the shop catalog,
 with the machine representations of Java's `int` and `double` it stores.
 */
module CatalogEntry {

  const INT32_MIN: int := -0x8000_0000
  const INT32_MAX: int := 0x7FFF_FFFF

  /** A Java `int`: a 32-bit two's-complement integer. */
  type Int32 = x: int | INT32_MIN <= x <= INT32_MAX

  /** A Java `double`, kept as its raw IEEE-754 binary64 bit pattern. */
  type DoubleBits = x: int | 0 <= x < 0x1_0000_0000_0000_0000

  /** One product of the catalog. Entries are values: two entries with the same
      fields are the same entry, and no entry is ever changed in place. */
  datatype Entry = Entry(
    productName: string,
    unitOfMeasure: string,
    quantity: Int32,
    unitPrice: DoubleBits,
    arrivalDate: string,
    description: seq<string>
  )

  /** Wraps an unbounded integer into the 32-bit range, as Java's `int`
      arithmetic does on overflow. */
  function WrapInt32(x: int): (r: Int32)
    ensures (r - x) % 0x1_0000_0000 == 0
    ensures INT32_MIN <= x <= INT32_MAX ==> r == x
  {
    var m := x % 0x1_0000_0000;
    if m <= INT32_MAX then m else m - 0x1_0000_0000
  }

  /** Java's `/` on `int`: the quotient is truncated toward zero, which differs
      from Dafny's Euclidean division when the dividend is negative. */
  function JavaDiv(a: int, b: int): (q: int)
    requires b > 0
    ensures a >= 0 ==> 0 <= a - q * b < b
    ensures a < 0 ==> -b < a - q * b <= 0
  {
    if a >= 0 then a / b else -((-a) / b)
  }
}
