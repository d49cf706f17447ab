/** The 4x4 integer matrix of one pressure mat, as a value and as an `int[4,4]` array. */
module Grids {
  const Size: int := 4

  type Grid = seq<seq<int>>

  predicate IsGrid(g: Grid) {
    |g| == Size && forall r :: 0 <= r < Size ==> |g[r]| == Size
  }

  predicate Is4x4(m: array2<int>) {
    m.Length0 == Size && m.Length1 == Size
  }

  /** The cells of a 4x4 array, row by row. */
  ghost function Snapshot(m: array2<int>): (g: Grid)
    requires Is4x4(m)
    reads m
    ensures IsGrid(g)
    ensures forall r, c :: 0 <= r < Size && 0 <= c < Size ==> g[r][c] == m[r, c]
  {
    Rows(m, Size)
  }

  /** The first `n` rows of a 4x4 array. */
  ghost function Rows(m: array2<int>, n: nat): (g: Grid)
    requires Is4x4(m) && n <= Size
    reads m
    ensures |g| == n
    ensures forall r :: 0 <= r < n ==> |g[r]| == Size
    ensures forall r, c :: 0 <= r < n && 0 <= c < Size ==> g[r][c] == m[r, c]
  {
    if n == 0 then [] else Rows(m, n - 1) + [[m[n - 1, 0], m[n - 1, 1], m[n - 1, 2], m[n - 1, 3]]]
  }

  /** The all-zero grid a fresh `new int[4,4]` holds. */
  function Zero(): (g: Grid)
    ensures IsGrid(g)
  {
    [[0, 0, 0, 0], [0, 0, 0, 0], [0, 0, 0, 0], [0, 0, 0, 0]]
  }

  /** Two grids that agree on every cell are equal. */
  lemma GridEq(g: Grid, h: Grid)
    requires IsGrid(g) && IsGrid(h)
    requires forall r, c :: 0 <= r < Size && 0 <= c < Size ==> g[r][c] == h[r][c]
    ensures g == h
  {
    forall r | 0 <= r < Size ensures g[r] == h[r] {
      assert forall c :: 0 <= c < Size ==> g[r][c] == h[r][c];
    }
  }
}
