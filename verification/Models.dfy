/** Values shared by the gateway's components. */
module Models {

  /** The fields of an origin server that load balancing looks at; `id` is the printed UUID. */
  datatype Origin = Origin(id: string, url: string)

  /** How a call ends: with a value, with an error value, or in a run-time panic. */
  datatype Outcome<+T> = Ok(value: T) | Err(message: string) | Panic

  /** The range of the 64-bit `int`, in which sums wrap around. */
  const MAX_INT: int := 0x7FFF_FFFF_FFFF_FFFF
  const MIN_INT: int := -0x8000_0000_0000_0000

  /** Values of the 64-bit `int`, and those that can be a count or a length. */
  type Int = x: int | MIN_INT <= x <= MAX_INT
  type Size = x: int | 0 <= x <= MAX_INT

  function WrappingAdd(a: int, b: int): int {
    if a + b > MAX_INT then a + b + 2 * MIN_INT
    else if a + b < MIN_INT then a + b - 2 * MIN_INT
    else a + b
  }

  function WrappingInc(x: Int): (r: Int)
    ensures r == if x == MAX_INT then MIN_INT else x + 1
  {
    WrappingAdd(x, 1)
  }

  const NO_ORIGINS := "no origins available"

  ghost predicate DistinctIds(origins: seq<Origin>) {
    forall i, j :: 0 <= i < j < |origins| ==> origins[i].id != origins[j].id
  }
}
