/** The C types' widths, where they matter. */
module CInts {
  const INT_LIMIT: int := 0x8000_0000
  const INT64_LIMIT: int := 0x8000_0000_0000_0000

  /** Conversion to a 32-bit `int`, with two's complement wrap-around. */
  function ToInt32(n: int): (r: int)
    ensures -INT_LIMIT <= r < INT_LIMIT
    ensures -INT_LIMIT <= n < INT_LIMIT ==> r == n
  {
    (n + INT_LIMIT) % (2 * INT_LIMIT) - INT_LIMIT
  }
}
