/**
 * Two-dimensional grids as sequences of rows (the NumPy arrays and the
 * nested lists of the source). `g[c.0][c.1]` is the cell at `c`.
 */
module Grids {
  import opened Common

  /** Every row has the same length, as for a NumPy array of shape `(|g|, |g[0]|)`. */
  predicate Rect<T>(g: seq<seq<T>>) {
    forall i, j :: 0 <= i < |g| && 0 <= j < |g| ==> |g[i]| == |g[j]|
  }

  /** `0 <= c[0] < len(g) and 0 <= c[1] < len(g[0])`, the bounds test the source writes. */
  predicate Within<T>(g: seq<seq<T>>, c: Coords) {
    0 <= c.0 < |g| && 0 <= c.1 < |g[0]|
  }

  function At<T>(g: seq<seq<T>>, c: Coords): T
    requires Rect(g) && Within(g, c)
  {
    g[c.0][c.1]
  }

  /** Assigns `g[c.0][c.1] = v`. */
  function Put<T>(g: seq<seq<T>>, c: Coords, v: T): (r: seq<seq<T>>)
    requires Rect(g) && Within(g, c)
    ensures Rect(r) && SameShape(g, r)
    ensures At(r, c) == v
    ensures forall d :: Within(g, d) && d != c ==> At(r, d) == At(g, d)
  {
    g[c.0 := g[c.0][c.1 := v]]
  }

  /** Both grids have the same dimensions. */
  predicate SameShape<T, U>(g: seq<seq<T>>, h: seq<seq<U>>) {
    |g| == |h| && forall i :: 0 <= i < |g| ==> |g[i]| == |h[i]|
  }
}
