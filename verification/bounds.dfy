/**
 * Row-major grid arithmetic and the rectangle test that both the functional
 * tile-area API and the TileArea class use.
 */
module Bounds {

  /** Row-major position of cell (x, y) in a grid `width` cells wide. */
  function Index(width: int, x: int, y: int): int
  {
    y * width + x
  }

  /** Cell (x, y) lies in a width x height grid. */
  predicate InGrid(width: int, height: int, x: int, y: int)
  {
    0 <= x < width && 0 <= y < height
  }

  /**
   * The rectangle test as the library writes it, including the inclusive
   * `y > height` term. Because `y + h > height` with `h > 0` is also tested,
   * that term never decides the outcome: the rectangle must lie wholly inside
   * the grid.
   */
  predicate RectInRange(width: int, height: int, x: int, y: int, w: int, h: int): (r: bool)
    ensures r <==> 0 < w && 0 < h && 0 <= x && x + w <= width && 0 <= y && y + h <= height
  {
    !(x < 0 || x >= width ||
      y < 0 || y > height ||
      w <= 0 || x + w > width ||
      h <= 0 || y + h > height)
  }

  lemma {:induction false} MulNonNeg(a: int, b: int)
    requires 0 <= a && 0 <= b
    ensures 0 <= a * b
  {
    if a > 0 {
      MulNonNeg(a - 1, b);
      assert a * b == (a - 1) * b + b;
    }
  }

  /** Division by the width recovers the coordinates of a row-major index. */
  lemma IndexDivMod(width: int, x: int, y: int)
    requires 0 <= x < width
    ensures Index(width, x, y) / width == y && Index(width, x, y) % width == x
  {
    var i := y * width + x;
    var q, r := i / width, i % width;
    assert i == q * width + r;
    var d := q - y;
    assert d * width == x - r;
    if d > 0 {
      assert d * width == (d - 1) * width + width;
      MulNonNeg(d - 1, width);
    } else if d < 0 {
      assert -d * width == (-d - 1) * width + width;
      MulNonNeg(-d - 1, width);
    }
  }

  /** A cell of the grid has an index inside the tile array. */
  lemma IndexBelow(width: int, height: int, x: int, y: int)
    requires InGrid(width, height, x, y)
    ensures 0 <= Index(width, x, y) < width * height
  {
    MulNonNeg(y, width);
    MulNonNeg(height - 1 - y, width);
    assert width * height == y * width + width + (height - 1 - y) * width;
  }

  lemma AllIndicesBelow(width: int, height: int)
    ensures forall x, y :: InGrid(width, height, x, y) ==> 0 <= Index(width, x, y) < width * height
  {
    forall x, y | InGrid(width, height, x, y)
      ensures 0 <= Index(width, x, y) < width * height
    {
      IndexBelow(width, height, x, y);
    }
  }

  /** Distinct cells of a grid have distinct indices. */
  lemma IndexInjective(width: int, x: int, y: int, x': int, y': int)
    requires 0 <= x < width && 0 <= x' < width
    requires Index(width, x, y) == Index(width, x', y')
    ensures x == x' && y == y'
  {
    IndexDivMod(width, x, y);
    IndexDivMod(width, x', y');
  }

  /** Every index of a width x height tile array is the index of a cell. */
  lemma IndexCovers(width: int, height: int, i: int)
    requires 0 < width && 0 <= i < width * height
    ensures InGrid(width, height, i % width, i / width)
    ensures Index(width, i % width, i / width) == i
  {
    var q, r := i / width, i % width;
    assert i == q * width + r;
    if q < 0 {
      assert -q * width == (-q - 1) * width + width;
      MulNonNeg(-q - 1, width);
    } else if q >= height {
      MulNonNeg(q - height, width);
    }
  }

  /** The remainder of JavaScript's `%`: it takes the sign of the dividend. */
  function JsRemainder(a: int, b: int): (r: int)
    requires b > 0
    ensures -b < r < b
    ensures a >= 0 ==> r == a % b
  {
    if a >= 0 then a % b else -((-a) % b)
  }

  /** Adding whole multiples of the divisor does not change a remainder. */
  lemma ModShift(a: int, k: int, b: int)
    requires b > 0
    ensures (a + k * b) % b == a % b
  {
    var q, r := a / b, a % b;
    assert a == q * b + r;
    assert a + k * b == (q + k) * b + r;
    IndexDivMod(b, r, q + k);
  }
}
