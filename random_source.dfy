/** The generator calls the shuffle makes, `RandomState.randint(low, high)`,
    seen only through what they promise: a value in [low, high) decided by the
    generator's state, or a ValueError when the range is empty. The state is
    an opaque raw `draw`; the generator's own algorithm is not modelled. */
module RandomSource {

  /** The ValueErrors the core raises. */
  datatype Error =
    | EmptyRange          // randint(low, high) with low >= high
    | BothSubDecksEmpty   // the merge rule asked with no card left in either packet

  datatype Result<T> = Ok(value: T) | Err(error: Error)

  /** The position of a raw draw within a range of `size` values: what is
      left of it once whole ranges are taken away. */
  function Reduce(draw: nat, size: nat): (k: nat)
    requires size > 0
    ensures k < size
    ensures draw < size ==> k == draw
    decreases draw
  {
    if draw < size then draw else Reduce(draw - size, size)
  }

  /** `randint(low=low, high=high)` on a generator whose next raw output is `draw`. */
  function RandInt(low: int, high: int, draw: nat): (r: Result<int>)
    ensures r.Ok? <==> low < high
    ensures r.Err? ==> r.error == EmptyRange
    ensures r.Ok? ==> low <= r.value < high
  {
    if low < high then Ok(low + Reduce(draw, high - low)) else Err(EmptyRange)
  }

  /** Every value of a non-empty range is the outcome of some draw. */
  lemma RandIntReachesAll(low: int, high: int, v: int)
    requires low <= v < high
    ensures RandInt(low, high, v - low) == Ok(v)
  {
  }
}
