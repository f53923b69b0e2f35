/** Division and remainder of natural numbers: the few facts the ring buffer,
    the feature plan, the file codec and the decimal printer share. */
module Arithmetic {

  /** A non-zero multiple of d is at least d away from zero. */
  lemma MultipleSize(k: int, d: int)
    requires d > 0
    ensures k >= 1 ==> k * d >= d
    ensures k <= -1 ==> k * d <= -d
  {
    if k >= 1 {
      MulMonotone(1, k, d);
    } else if k <= -1 {
      MulMonotone(k, -1, d);
    }
  }

  /** Quotient and remainder are the only decomposition of x by d. */
  lemma DivModUnique(x: int, d: int, q: int, r: int)
    requires d > 0 && x == q * d + r && 0 <= r < d
    ensures x / d == q && x % d == r
  {
    var k := x / d - q;
    assert x == (x / d) * d + x % d;
    assert k * d == r - x % d;
    MultipleSize(k, d);
  }

  lemma AddMultiple(x: int, q: int, d: int)
    requires d > 0
    ensures (x + q * d) / d == x / d + q
    ensures (x + q * d) % d == x % d
  {
    assert x + q * d == (x / d + q) * d + x % d;
    DivModUnique(x + q * d, d, x / d + q, x % d);
  }

  /** Positions closer than one turn of a ring of size d never meet. */
  lemma DistinctInRing(x: int, y: int, d: int)
    requires 0 < y - x < d
    ensures x % d != y % d
  {
    var k := y / d - x / d;
    assert y - x == k * d + (y % d - x % d);
    MultipleSize(k, d);
  }

  /** A row index taken modulo the row count scales to its offset modulo the whole. */
  lemma ScaleMod(k: int, rows: int, width: int)
    requires rows > 0 && width > 0
    ensures rows * width > 0
    ensures (k % rows) * width == (k * width) % (rows * width)
  {
    assert rows * width > 0;
    var q, r := k / rows, k % rows;
    CellOfRow(k, 0, rows, width, q, r);
    DivModUnique(k * width, rows * width, q, r * width);
  }

  /** Cell `offset` of row k, in a ring of `rows` rows. */
  lemma CellInRing(k: int, offset: int, rows: int, width: int)
    requires rows > 0 && 0 <= offset < width
    ensures rows * width > 0
    ensures (k * width + offset) / width == k
    ensures (k * width + offset) % (rows * width) == (k % rows) * width + offset
  {
    DivModUnique(k * width + offset, width, k, offset);
    var q, r := k / rows, k % rows;
    CellOfRow(k, offset, rows, width, q, r);
    DivModUnique(k * width + offset, rows * width, q, r * width + offset);
  }

  lemma CellOfRow(k: int, offset: int, rows: int, width: int, q: int, r: int)
    requires rows > 0 && 0 <= offset < width && k == q * rows + r && 0 <= r < rows
    ensures rows * width > 0
    ensures k * width + offset == q * (rows * width) + (r * width + offset)
    ensures 0 <= r * width + offset < rows * width
  {
    Distribute(q * rows, r, width);
    Associate(q, rows, width);
    MulMonotone(r, rows - 1, width);
    MulMonotone(0, r, width);
    Distribute(rows, -1, width);
  }

  lemma Distribute(a: int, b: int, c: int)
    ensures (a + b) * c == a * c + b * c
  {
  }

  lemma Associate(a: int, b: int, c: int)
    ensures (a * b) * c == a * (b * c)
  {
  }

  /** Dividing a position in the ring gives the row in the ring. */
  lemma RowInRing(x: int, rows: int, width: int)
    requires rows > 0 && width > 0
    ensures rows * width > 0
    ensures (x % (rows * width)) / width == (x / width) % rows
  {
    CellInRing(x / width, x % width, rows, width);
    assert x == (x / width) * width + x % width;
    var r := (x / width) % rows;
    DivModUnique(x % (rows * width), width, r, x % width);
  }

  lemma DivMonotone(x: int, y: int, d: int)
    requires d > 0 && x <= y
    ensures x / d <= y / d
  {
    var k := x / d - y / d;
    assert x - y == k * d + (x % d - y % d);
    MultipleSize(k, d);
  }

  lemma MulMonotone(x: int, y: int, d: int)
    requires d >= 0 && x <= y
    ensures x * d <= y * d
  {
  }

  /** A common factor cancels. */
  lemma DivCancel(k: int, d: int, factor: int)
    requires d > 0 && factor > 0
    ensures d * factor > 0 && (k * factor) / (d * factor) == k / d
  {
    var q, r := k / d, k % d;
    assert d * factor > 0;
    assert k * factor == q * (d * factor) + r * factor by {
      assert k == q * d + r;
    }
    MulMonotone(r, d - 1, factor);
    MulMonotone(0, r, factor);
    assert (d - 1) * factor == d * factor - factor;
    DivModUnique(k * factor, d * factor, q, r * factor);
  }

  /** The row of a position a little after x, found from x taken around the ring. */
  lemma RowAfter(x: int, after: int, rows: int, width: int)
    requires rows > 0 && width > 0
    ensures rows * width > 0
    ensures ((x % (rows * width) + after) / width) % rows == ((x + after) / width) % rows
  {
    assert rows * width > 0;
    var turns := x / (rows * width);
    var y := x % (rows * width) + after;
    assert x + after == y + (turns * rows) * width by {
      assert x == turns * (rows * width) + x % (rows * width);
      assert turns * (rows * width) == (turns * rows) * width;
    }
    AddMultiple(y, turns * rows, width);
    AddMultiple(y / width, turns, rows);
  }

  /** Less than a row further on lies the same row or the next. */
  lemma NextRowAtMost(x: int, after: int, width: int)
    requires 0 <= after < width
    ensures x / width <= (x + after) / width <= x / width + 1
  {
    DivMonotone(x, x + after, width);
    DivMonotone(x + after, x + width, width);
    AddMultiple(x, 1, width);
  }

  /** Stepping j cells on around a ring of size d, from the reduced position. */
  lemma ModAfter(x: int, j: int, d: int)
    requires d > 0 && 0 <= j < d
    ensures (x + j) % d == if x % d + j >= d then x % d + j - d else x % d + j
  {
    var q, r := x / d, x % d;
    assert x == q * d + r;
    if r + j >= d {
      assert x + j == (q + 1) * d + (r + j - d);
      DivModUnique(x + j, d, q + 1, r + j - d);
    } else {
      DivModUnique(x + j, d, q, r + j);
    }
  }

  /** A window shorter than a row, starting inside a ring of at least two rows, runs past
      the end exactly when its last cell's row, around the ring, is before its first's. */
  lemma WrapByRows(x: int, after: int, rows: int, width: int)
    requires rows >= 2 && 0 <= after < width && 0 <= x < rows * width
    ensures ((x + after) / width) % rows < x / width <==> x + after >= rows * width
  {
    NextRowAtMost(x, after, width);
    RowBound(x, rows, width);
    RowBound(x + after, rows, width);
    WrappedRow(x / width, (x + after) / width, rows);
  }

  /** The same in terms of rows alone. */
  lemma WrappedRow(first: int, last: int, rows: int)
    requires rows >= 2 && 0 <= first < rows && first <= last <= first + 1
    ensures last % rows < first <==> last >= rows
  {
    ModInRing(last, rows);
  }

  lemma RowBound(x: int, rows: int, width: int)
    requires rows > 0 && width > 0 && 0 <= x
    ensures x / width >= 0
    ensures x / width < rows <==> x < rows * width
  {
    var k := x / width - rows;
    assert x - rows * width == k * width + x % width;
    MultipleSize(k, width);
  }

  /** Less than one turn past the end, the remainder is a subtraction. */
  lemma ModInRing(x: int, d: int)
    requires 0 <= x < 2 * d
    ensures x % d == if x < d then x else x - d
  {
    DivModUnique(x, d, if x < d then 0 else 1, if x < d then x else x - d);
  }

  /** Dividing twice is dividing by the product. */
  lemma DivDiv(x: int, a: int, b: int)
    requires a > 0 && b > 0
    ensures a * b > 0 && (x / a) / b == x / (a * b)
  {
    var y, r := x / a, x % a;
    var z, s := y / b, y % b;
    assert a * b > 0;
    MulMonotone(s, b - 1, a);
    MulMonotone(0, s, a);
    assert (b - 1) * a == a * b - a;
    Recombine(x, a, y, r, b, z, s);
    DivModUnique(x, a * b, z, s * a + r);
  }

  lemma Recombine(x: int, a: int, y: int, r: int, b: int, z: int, s: int)
    requires x == a * y + r && y == b * z + s
    ensures x == z * (a * b) + (s * a + r)
  {
    assert a * (b * z) == z * (a * b);
    assert a * (b * z + s) == a * (b * z) + s * a;
  }
}
