/** Cell coordinates of the board (Runtime/BoardPoint.cs).

    A point carries a linear cell index together with its column `x` and
    row `y`; the two `Set` overloads of the source become the two
    constructors `FromIndex` and `FromXY`. The source's `%` and `/` are C#
    operators, which truncate toward zero, so they are modelled explicitly
    by `TruncDiv` and `TruncRem` rather than by Dafny's Euclidean ones.
 */
module Coord {

  function Abs(a: int): nat {
    if a < 0 then -a else a
  }

  function Max(a: int, b: int): int {
    if a < b then b else a
  }

  /** C# integer division: the quotient is rounded toward zero. */
  function TruncDiv(a: int, b: int): (q: int)
    requires b != 0
    ensures Abs(a - b * q) < Abs(b)
    ensures a >= 0 ==> a - b * q >= 0
    ensures a <= 0 ==> a - b * q <= 0
    ensures a >= 0 && b > 0 ==> q == a / b
  {
    var q0 := Abs(a) / Abs(b);
    EuclidFacts(Abs(a), Abs(b));
    NegMul(b, q0);
    if (a < 0) == (b < 0) then q0 else -q0
  }

  lemma EuclidFacts(n: nat, d: int)
    requires d > 0
    ensures 0 <= n - d * (n / d) < d
  {
  }

  lemma NegMul(b: int, q: int)
    ensures b * -q == -(b * q)
    ensures -b * q == -(b * q)
    ensures -b * -q == b * q
  {
  }

  /** C# remainder `a % b`: what is left after truncating division, so it
      has the sign of `a`. */
  function TruncRem(a: int, b: int): (r: int)
    requires b != 0
    ensures a == b * TruncDiv(a, b) + r
    ensures Abs(r) < Abs(b)
    ensures a >= 0 && b > 0 ==> r == a % b
  {
    a - b * TruncDiv(a, b)
  }

  datatype Point = Point(index: int, x: int, y: int)

  /** `BoardPoint.Set(idx, boardCols)`: decode a linear index. */
  function FromIndex(idx: int, cols: int): (p: Point)
    requires cols != 0
    ensures p.index == idx
    ensures p.index == p.y * cols + p.x
    ensures Abs(p.x) < Abs(cols)
    ensures idx >= 0 && cols > 0 ==> 0 <= p.x < cols && 0 <= p.y
    ensures idx >= 0 && cols > 0 ==> p.x == idx % cols && p.y == idx / cols
  {
    Point(idx, TruncRem(idx, cols), TruncDiv(idx, cols))
  }

  /** `BoardPoint.Set(posX, posY, boardCols)`: encode a column and row. */
  function FromXY(x: int, y: int, cols: int): (p: Point)
    ensures p.x == x && p.y == y
    ensures p.index == p.y * cols + p.x
  {
    Point(y * cols + x, x, y)
  }

  /** A column inside the board and a row determine the index uniquely:
      two such positions with the same linear index are the same position. */
  lemma {:induction false} IndexInjective(x1: int, y1: int, x2: int, y2: int, cols: int)
    requires 0 <= x1 < cols && 0 <= x2 < cols
    requires y1 * cols + x1 == y2 * cols + x2
    ensures x1 == x2 && y1 == y2
  {
    var d := y1 - y2;
    Distribute(y1, y2, cols);
    assert d * cols == x2 - x1;
    if d > 0 {
      MulAtLeast(d, cols);
    } else if d < 0 {
      Distribute(y2, y1, cols);
      MulAtLeast(-d, cols);
    }
  }

  lemma Distribute(a: int, b: int, c: int)
    ensures (a - b) * c == a * c - b * c
  {
  }

  lemma MulAtLeast(d: int, c: int)
    requires d >= 1 && c >= 0
    ensures d * c >= c
  {
  }

  /** Encoding an in-board column and a non-negative row, then decoding the
      index, gives back the same point. */
  lemma {:induction false} XYRoundTrip(x: int, y: int, cols: int)
    requires 0 <= x < cols && 0 <= y
    ensures FromIndex(FromXY(x, y, cols).index, cols) == FromXY(x, y, cols)
  {
    var idx := y * cols + x;
    assert idx >= 0;
    var q := FromIndex(idx, cols);
    IndexInjective(q.x, q.y, x, y, cols);
  }

  /** Decoding an index and encoding the resulting column and row gives back
      the same index, for every index (negative ones included, where the
      truncating operators apply). */
  lemma IndexRoundTrip(idx: int, cols: int)
    requires cols != 0
    ensures FromXY(FromIndex(idx, cols).x, FromIndex(idx, cols).y, cols) == FromIndex(idx, cols)
    ensures FromXY(FromIndex(idx, cols).x, FromIndex(idx, cols).y, cols).index == idx
  {
  }

  /** Every in-board column and row encodes to an index of the board. */
  lemma {:induction false} IndexInRange(x: int, y: int, cols: int, rows: int)
    requires 0 <= x < cols && 0 <= y < rows
    ensures 0 <= y * cols + x < cols * rows
  {
    assert y * cols <= (rows - 1) * cols;
    assert (rows - 1) * cols + x < cols * rows;
  }

  /** C# division agrees with Euclidean division on non-negative operands
      but differs on negative dividends: -1 / 2 is 0 in C#. */
  lemma TruncDivNegative()
    ensures TruncDiv(-1, 2) == 0 && TruncRem(-1, 2) == -1
    ensures (-1) / 2 == -1 && (-1) % 2 == 1
  {
  }
}
