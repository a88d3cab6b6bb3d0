/** Two-dimensional images as sequences of rows: label images and intensity
    images hold integers, masks hold booleans. */
module Grids {

  type Grid = seq<seq<int>>
  type Mask = seq<seq<bool>>

  /** `g` has `h` rows of `w` pixels each (the shape of a 2-D array). */
  predicate IsShape<T>(g: seq<seq<T>>, h: nat, w: nat) {
    |g| == h && forall r :: 0 <= r < h ==> |g[r]| == w
  }

  /** The number of columns: the length of the first row. */
  function Width<T>(g: seq<seq<T>>): nat {
    if |g| == 0 then 0 else |g[0]|
  }

  /** Every row has the same length, as in a 2-D array. */
  predicate Rectangular<T>(g: seq<seq<T>>) {
    IsShape(g, |g|, Width(g))
  }

  /** The pixels in row-major order. */
  function Flatten(g: Grid): (s: seq<int>)
    ensures |g| == 0 ==> s == []
  {
    if |g| == 0 then [] else Flatten(g[..|g| - 1]) + g[|g| - 1]
  }

  /** The sum of all pixels. */
  function Total(g: Grid): int {
    if |g| == 0 then 0 else Total(g[..|g| - 1]) + RowTotal(g[|g| - 1])
  }

  function RowTotal(row: seq<int>): int {
    if |row| == 0 then 0 else RowTotal(row[..|row| - 1]) + row[|row| - 1]
  }
}
