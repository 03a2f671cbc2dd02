/**
 * Row-major flat indexing and the small arithmetic facts the model relies on.
 * Flat indexing is shared by the simulation grid (`row*ynum+col`)
 * and by the sample map, whose entries are laid out as an sr-by-sr table.
 */
module Index {

  /** The flat position of row `i`, column `j` in a row-major layout of width `w`. */
  function At(i: int, j: int, w: int): (p: int)
  {
    i * w + j
  }

  /** Every (row, column) pair of an h-by-w layout lands inside `[0, h*w)`,
      and strictly after every position of an earlier row. */
  lemma AtBounds(i: int, j: int, h: int, w: int)
    requires 0 <= i < h && 0 <= j < w
    ensures 0 <= i * w <= At(i, j, w) < (i + 1) * w <= h * w
  {
    assert (i + 1) * w == i * w + w;
    MulMonotone(i + 1, h, w);
    MulMonotone(0, i, w);
  }

  lemma MulMonotone(a: int, b: int, w: int)
    requires 0 <= a <= b && 0 <= w
    ensures a * w <= b * w
  {
    assert b * w == a * w + (b - a) * w;
    assert (b - a) * w >= 0;
  }

  /** Two cells of a width-`w` layout share a position only when they are the same cell. */
  lemma AtInjective(i1: int, j1: int, i2: int, j2: int, w: int)
    requires 0 <= j1 < w && 0 <= j2 < w && 0 <= i1 && 0 <= i2
    requires At(i1, j1, w) == At(i2, j2, w)
    ensures i1 == i2 && j1 == j2
  {
    if i1 < i2 {
      assert (i1 + 1) * w == i1 * w + w;
      MulMonotone(i1 + 1, i2, w);
      assert false;
    } else if i2 < i1 {
      assert (i2 + 1) * w == i2 * w + w;
      MulMonotone(i2 + 1, i1, w);
      assert false;
    }
  }

  /** Decoding a position with `/` and `%` recovers its row and column. */
  lemma AtDecode(i: int, j: int, w: int)
    requires 0 <= i && 0 <= j < w
    ensures At(i, j, w) / w == i && At(i, j, w) % w == j
  {
    var p := At(i, j, w);
    AtInjective(p / w, p % w, i, j, w);
  }

  /** Every position of `[0, h*w)` is the position of some cell of the layout. */
  lemma AtCovers(p: int, h: int, w: int)
    requires 0 <= p < h * w && 0 < w
    ensures 0 <= p / w < h && 0 <= p % w < w && p == At(p / w, p % w, w)
  {
    var q, r := p / w, p % w;
    assert p == q * w + r && 0 <= r < w;
    assert 0 <= q;
    assert q < h by {
      if q >= h {
        MulMonotone(h, q, w);
      }
    }
  }

  /** Row-major order: a cell in an earlier row, or earlier in the same row,
      has the smaller position. */
  lemma AtLexLess(a: int, b: int, c: int, d: int, w: int)
    requires 0 <= b < w && 0 <= d < w
    requires a < c || (a == c && b < d)
    ensures At(a, b, w) < At(c, d, w)
  {
    if a < c {
      MulMonotone(0, c - (a + 1), w);
      assert c * w == a * w + w + (c - (a + 1)) * w;
    }
  }

  /** Two multiples of `w` less than `w` apart are equal. */
  lemma MultiplesApart(a: int, b: int, w: int)
    requires 0 < w && a % w == 0 && b % w == 0 && a <= b < a + w
    ensures a == b
  {
    var qa, qb := a / w, b / w;
    assert a == qa * w && b == qb * w;
    if qa < qb {
      assert (qb - qa) * w == b - a;
      MulMonotone(1, qb - qa, w);
    } else if qb < qa {
      assert (qa - qb) * w == a - b;
      MulMonotone(1, qa - qb, w);
    }
  }

  /** Scaling by a non-negative real keeps order. */
  lemma ScaleMonotone(a: real, b: real, k: real)
    requires a <= b && 0.0 <= k
    ensures a * k <= b * k
  {
    var d := b - a;
    assert 0.0 <= d * k;
    assert b * k - a * k == d * k;
  }

  function Square(k: int): (sq: int)
  {
    k * k
  }

  /** `n` is the square of a natural number. */
  ghost predicate IsPerfectSquare(n: int)
  {
    exists k: nat :: Square(k) == n
  }

  /** Squares of naturals are strictly ordered like their roots. */
  lemma SquareMonotone(a: nat, b: nat)
    requires a < b
    ensures Square(a) < Square(b)
  {
    MulMonotone(a, b, a);
    MulMonotone(a, b, b);
    assert a * b < b * b by {
      assert b * b - a * b == (b - a) * b;
    }
  }
}
