/** Board cells and their fixed adjacency lists (Runtime/BoardSpot.cs).

    `InitNeighbours` tests the eight compass directions one after the
    other and appends the index of each neighbour whose position lies on
    the board. Here the directions are a table in the source's order (east,
    west, south, north, then north-west, south-east, north-east,
    south-west), and `Fits` repeats the source's one-sided bound tests
    (`x < cols - 1` before stepping east, `x > 0` before stepping west,
    and likewise for rows).
 */
module Spot {
  import opened Coord

  /** One board cell: its coordinate, the grid attributes set by the
      mutators, the transient search fields and its adjacency list. */
  datatype Cell = Cell(
    position: Point,
    walkable: bool,
    cost: int,
    height: int,
    g: int,
    h: int,
    f: int,
    previousIdx: int,
    neighbours: seq<int>)

  /** (dx, dy) steps in the order the source appends them; y grows
      southwards. The first four are the orthogonal links. */
  const Directions: seq<(int, int)> :=
    [(1, 0), (-1, 0), (0, 1), (0, -1), (-1, -1), (1, 1), (1, -1), (-1, 1)]

  function LinkDirections(diagonalLinks: bool): seq<(int, int)> {
    if diagonalLinks then Directions else Directions[..4]
  }

  /** The source's bound test before a step of `dv` (-1, 0 or 1) along an
      axis of length `bound` from coordinate `v`. */
  predicate Fits(v: int, dv: int, bound: int) {
    if dv > 0 then v < bound - 1
    else if dv < 0 then v > 0
    else true
  }

  predicate StepFits(p: Point, cols: int, rows: int, d: (int, int)) {
    Fits(p.x, d.0, cols) && Fits(p.y, d.1, rows)
  }

  /** Index of the cell one step `d` away from `p`. */
  function Target(p: Point, cols: int, d: (int, int)): int {
    (p.y + d.1) * cols + p.x + d.0
  }

  /** Appends, in order, the target of every direction of `ds` that fits. */
  function Collect(p: Point, cols: int, rows: int, ds: seq<(int, int)>): (ns: seq<int>)
    ensures |ns| <= |ds|
    ensures forall n :: n in ns ==> exists d :: d in ds && StepFits(p, cols, rows, d) && n == Target(p, cols, d)
  {
    if ds == [] then []
    else
      var rest := Collect(p, cols, rows, ds[1..]);
      if StepFits(p, cols, rows, ds[0]) then [Target(p, cols, ds[0])] + rest else rest
  }

  /** `BoardSpot.InitNeighbours(boardCols, boardRows, diagonalLinks)`. */
  function InitNeighbours(p: Point, cols: int, rows: int, diagonalLinks: bool): (ns: seq<int>)
    ensures |ns| <= if diagonalLinks then 8 else 4
  {
    Collect(p, cols, rows, LinkDirections(diagonalLinks))
  }

  predicate OnBoard(p: Point, cols: int, rows: int) {
    0 <= p.x < cols && 0 <= p.y < rows
  }

  /** Grid adjacency, stated independently of the direction table: a
      different cell at most one step away along each axis, and along one
      axis only unless diagonal links are enabled. */
  predicate Adjacent(a: Point, b: Point, diagonalLinks: bool) {
    var dx := b.x - a.x;
    var dy := b.y - a.y;
    && Abs(dx) <= 1 && Abs(dy) <= 1
    && (dx != 0 || dy != 0)
    && (diagonalLinks || dx == 0 || dy == 0)
  }

  predicate Distinct(s: seq<int>) {
    forall i, j :: 0 <= i < j < |s| ==> s[i] != s[j]
  }

  /** The direction table holds exactly the steps that `Adjacent` allows. */
  lemma LinkDirectionsAreAdjacency(diagonalLinks: bool, d: (int, int))
    ensures d in LinkDirections(diagonalLinks) <==>
      (Abs(d.0) <= 1 && Abs(d.1) <= 1 && (d.0 != 0 || d.1 != 0) && (diagonalLinks || d.0 == 0 || d.1 == 0))
  {
    var ds := LinkDirections(diagonalLinks);
    if Abs(d.0) <= 1 && Abs(d.1) <= 1 && (d.0 != 0 || d.1 != 0) && (diagonalLinks || d.0 == 0 || d.1 == 0) {
      if d.0 == 1 && d.1 == 0 { assert ds[0] == d; }
      else if d.0 == -1 && d.1 == 0 { assert ds[1] == d; }
      else if d.0 == 0 && d.1 == 1 { assert ds[2] == d; }
      else if d.0 == 0 && d.1 == -1 { assert ds[3] == d; }
      else if d.0 == -1 && d.1 == -1 { assert ds[4] == d; }
      else if d.0 == 1 && d.1 == 1 { assert ds[5] == d; }
      else if d.0 == 1 && d.1 == -1 { assert ds[6] == d; }
      else { assert ds[7] == d; }
    }
  }

  /** On the board, a direction fits exactly when the cell it reaches is on
      the board too: the one-sided tests of the source lose nothing. */
  lemma FitsIsOnBoard(p: Point, cols: int, rows: int, d: (int, int))
    requires OnBoard(p, cols, rows)
    requires Abs(d.0) <= 1 && Abs(d.1) <= 1
    ensures StepFits(p, cols, rows, d) <==> 0 <= p.x + d.0 < cols && 0 <= p.y + d.1 < rows
  {
  }

  /** Every neighbour of an on-board cell is the index of an on-board cell
      adjacent to it: no index leaves [0, cols*rows) and no step wraps
      around a row edge, because decoding the index gives back the stepped
      column. */
  lemma {:induction false} NeighbourIsAdjacent(p: Point, cols: int, rows: int, diagonalLinks: bool, n: int)
    requires OnBoard(p, cols, rows)
    requires n in InitNeighbours(p, cols, rows, diagonalLinks)
    ensures 0 <= n < cols * rows
    ensures Adjacent(p, FromIndex(n, cols), diagonalLinks)
  {
    var d :| d in LinkDirections(diagonalLinks) && StepFits(p, cols, rows, d) && n == Target(p, cols, d);
    LinkDirectionsAreAdjacency(diagonalLinks, d);
    var x, y := p.x + d.0, p.y + d.1;
    assert n == y * cols + x;
    IndexInRange(x, y, cols, rows);
    XYRoundTrip(x, y, cols);
  }

  /** The converse: the index of every on-board cell adjacent to `p` is in
      the list. Together with `NeighbourIsAdjacent` the list is exactly
      the on-board adjacency of the cell. */
  lemma {:induction false} AdjacentIsNeighbour(p: Point, cols: int, rows: int, diagonalLinks: bool, n: int)
    requires OnBoard(p, cols, rows)
    requires 0 <= n < cols * rows
    requires Adjacent(p, FromIndex(n, cols), diagonalLinks)
    ensures n in InitNeighbours(p, cols, rows, diagonalLinks)
  {
    var q := FromIndex(n, cols);
    var d := (q.x - p.x, q.y - p.y);
    LinkDirectionsAreAdjacency(diagonalLinks, d);
    OnBoardOfIndex(n, cols, rows);
    CollectContains(p, cols, rows, LinkDirections(diagonalLinks), d);
  }

  lemma MulMono(a: int, b: int, c: int)
    requires a <= b && c >= 0
    ensures a * c <= b * c
  {
  }

  lemma {:induction false} CollectContains(p: Point, cols: int, rows: int, ds: seq<(int, int)>, d: (int, int))
    requires d in ds && StepFits(p, cols, rows, d)
    ensures Target(p, cols, d) in Collect(p, cols, rows, ds)
    decreases |ds|
  {
    if ds[0] != d {
      CollectContains(p, cols, rows, ds[1..], d);
    }
  }

  /** Steps that all reach on-board cells and are pairwise different give
      pairwise different indices. */
  lemma {:induction false} CollectDistinct(p: Point, cols: int, rows: int, ds: seq<(int, int)>)
    requires OnBoard(p, cols, rows)
    requires forall i :: 0 <= i < |ds| ==> Abs(ds[i].0) <= 1 && Abs(ds[i].1) <= 1
    requires forall i, j :: 0 <= i < j < |ds| ==> ds[i] != ds[j]
    ensures Distinct(Collect(p, cols, rows, ds))
    decreases |ds|
  {
    if ds != [] {
      var rest := Collect(p, cols, rows, ds[1..]);
      CollectDistinct(p, cols, rows, ds[1..]);
      if StepFits(p, cols, rows, ds[0]) {
        var t := Target(p, cols, ds[0]);
        if t in rest {
          var d :| d in ds[1..] && StepFits(p, cols, rows, d) && t == Target(p, cols, d);
          IndexInjective(p.x + ds[0].0, p.y + ds[0].1, p.x + d.0, p.y + d.1, cols);
          assert false;
        }
        var ns := [t] + rest;
        forall i, j | 0 <= i < j < |ns|
          ensures ns[i] != ns[j]
        {
          if i == 0 {
            assert ns[j] == rest[j - 1];
          } else {
            assert ns[i] == rest[i - 1] && ns[j] == rest[j - 1];
          }
        }
      }
    }
  }

  /** The adjacency list never holds the same index twice. */
  lemma NeighboursDistinct(p: Point, cols: int, rows: int, diagonalLinks: bool)
    requires OnBoard(p, cols, rows)
    ensures Distinct(InitNeighbours(p, cols, rows, diagonalLinks))
  {
    CollectDistinct(p, cols, rows, LinkDirections(diagonalLinks));
  }

  lemma {:induction false} CollectAll(p: Point, cols: int, rows: int, ds: seq<(int, int)>)
    requires forall i :: 0 <= i < |ds| ==> StepFits(p, cols, rows, ds[i])
    ensures |Collect(p, cols, rows, ds)| == |ds|
    decreases |ds|
  {
    if ds != [] {
      CollectAll(p, cols, rows, ds[1..]);
    }
  }

  /** An interior cell has all 4 orthogonal neighbours, or all 8 when
      diagonal links are enabled. */
  lemma InteriorNeighbourCount(p: Point, cols: int, rows: int, diagonalLinks: bool)
    requires 0 < p.x < cols - 1 && 0 < p.y < rows - 1
    ensures |InitNeighbours(p, cols, rows, diagonalLinks)| == if diagonalLinks then 8 else 4
  {
    CollectAll(p, cols, rows, LinkDirections(diagonalLinks));
  }

  /** Links are symmetric: for the same board and diagonal setting, if cell
      `b` is in the list of cell `a`, then `a` is in the list of `b`. */
  lemma NeighbourSymmetric(cols: int, rows: int, diagonalLinks: bool, a: int, b: int)
    requires 0 < cols && 0 <= a < cols * rows && 0 <= b < cols * rows
    requires b in InitNeighbours(FromIndex(a, cols), cols, rows, diagonalLinks)
    ensures a in InitNeighbours(FromIndex(b, cols), cols, rows, diagonalLinks)
  {
    var pa, pb := FromIndex(a, cols), FromIndex(b, cols);
    OnBoardOfIndex(a, cols, rows);
    OnBoardOfIndex(b, cols, rows);
    NeighbourIsAdjacent(pa, cols, rows, diagonalLinks, b);
    AdjacentIsNeighbour(pb, cols, rows, diagonalLinks, a);
  }

  /** Decoding an index of the board gives an on-board position. */
  lemma OnBoardOfIndex(i: int, cols: int, rows: int)
    requires 0 < cols && 0 <= i < cols * rows
    ensures OnBoard(FromIndex(i, cols), cols, rows)
  {
    var p := FromIndex(i, cols);
    if p.y >= rows {
      MulMono(rows, p.y, cols);
      assert false;
    }
  }

  /** The links come in the source's order: the middle cell of a 3x3 board
      lists east, west, south, north, and with diagonal links then
      north-west, south-east, north-east, south-west; a corner cell lists
      only the links that stay on the board. */
  lemma NeighbourOrderExample()
    ensures InitNeighbours(Point(4, 1, 1), 3, 3, false) == [5, 3, 7, 1]
    ensures InitNeighbours(Point(4, 1, 1), 3, 3, true) == [5, 3, 7, 1, 0, 8, 2, 6]
    ensures InitNeighbours(Point(0, 0, 0), 3, 3, true) == [1, 3, 4]
  {
    var mid, corner := Point(4, 1, 1), Point(0, 0, 0);
    var ds := Directions;
    assert Collect(mid, 3, 3, ds[8..]) == [];
    assert Collect(mid, 3, 3, ds[7..]) == [6];
    assert Collect(mid, 3, 3, ds[6..]) == [2, 6];
    assert Collect(mid, 3, 3, ds[5..]) == [8, 2, 6];
    assert Collect(mid, 3, 3, ds[4..]) == [0, 8, 2, 6];
    assert Collect(mid, 3, 3, ds[3..]) == [1, 0, 8, 2, 6];
    assert Collect(mid, 3, 3, ds[2..]) == [7, 1, 0, 8, 2, 6];
    assert Collect(mid, 3, 3, ds[1..]) == [3, 7, 1, 0, 8, 2, 6];
    var os := Directions[..4];
    assert Collect(mid, 3, 3, os[4..]) == [];
    assert Collect(mid, 3, 3, os[3..]) == [1];
    assert Collect(mid, 3, 3, os[2..]) == [7, 1];
    assert Collect(mid, 3, 3, os[1..]) == [3, 7, 1];
    assert Collect(corner, 3, 3, ds[8..]) == [];
    assert Collect(corner, 3, 3, ds[7..]) == [];
    assert Collect(corner, 3, 3, ds[6..]) == [];
    assert Collect(corner, 3, 3, ds[5..]) == [4];
    assert Collect(corner, 3, 3, ds[4..]) == [4];
    assert Collect(corner, 3, 3, ds[3..]) == [4];
    assert Collect(corner, 3, 3, ds[2..]) == [3, 4];
    assert Collect(corner, 3, 3, ds[1..]) == [3, 4];
  }
}
