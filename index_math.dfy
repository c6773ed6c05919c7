/** Small facts about integer division and row-major flattening, used by the
    index arithmetic of the stencil tiles and of the packed ghost buffers. */
module IndexMath {

  /** Euclidean division of `q * m + r` by `m` gives back `q` and `r`. */
  lemma DivModOf(q: int, r: int, m: int)
    requires 0 < m && 0 <= r < m
    ensures (q * m + r) / m == q
    ensures (q * m + r) % m == r
  {
    var x := q * m + r;
    var d := x / m - q;
    assert m * d == r - x % m;
    assert d >= 1 ==> m * (d - 1) >= 0;
    assert d <= -1 ==> m * (-1 - d) >= 0;
  }

  /** A row-major position (row `a`, column `b`) lies inside a `rows` by `cols` block. */
  lemma FlatBelow(a: int, b: int, cols: int, rows: int)
    requires 0 <= a < rows && 0 <= b < cols
    ensures 0 <= a * cols + b < rows * cols
  {
    var e := rows - a - 1;
    assert e * cols >= 0;
    assert rows * cols == a * cols + cols + e * cols;
    assert a * cols >= 0;
  }

  /** Every position of a `rows` by `cols` block splits into a row and a column inside it. */
  lemma Unflatten(k: int, cols: int, rows: int)
    requires 0 <= cols && 0 <= rows && 0 <= k < cols * rows
    ensures 0 < cols
    ensures 0 <= k / cols < rows && 0 <= k % cols < cols
    ensures k == (k / cols) * cols + k % cols
  {
  }
}
