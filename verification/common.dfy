/** Vocabulary shared by every component of the simulation model. */
module Common {

  /** An absent or present value (Python's `None` or a value). */
  datatype Option<+T> = None | Some(value: T)

  /** The exceptions the modelled code can raise. */
  datatype Error =
    | UnknownDistribution        // `ValueError("Unknown distribution type")`
    | SampleLargerThanPopulation // `random.sample` asked for more items than the list holds
    | EmptyChoice                // `random.choice` on an empty list
    | IndexOutOfRange            // list indexing outside `-len .. len-1`

  /** The outcome of an operation that may raise one of the errors above. */
  datatype Result<+T> = Ok(value: T) | Err(error: Error)

  /** A grid position `(first index, second index)`, as the Python tuples. */
  type Coords = (int, int)

  /** No element occurs twice. */
  predicate NoDup<T(==)>(s: seq<T>) {
    forall i, j :: 0 <= i < j < |s| ==> s[i] != s[j]
  }

  /** Python's `int()` applied to a float: truncation toward zero. */
  function Trunc(x: real): (n: int)
    ensures 0.0 <= x ==> n as real <= x < n as real + 1.0
    ensures x < 0.0 ==> n as real - 1.0 < x <= n as real
  {
    if 0.0 <= x then x.Floor else -((-x).Floor)
  }

  function MaxInt(a: int, b: int): int { if a < b then b else a }

  function MinInt(a: int, b: int): int { if b < a then b else a }
}
