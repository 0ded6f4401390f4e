/** The engine state of Runtime/Pathfinder.cs and the operations that do
    not search: the heuristic, construction, `Reset` and the grid mutators.

    The C# class mutates a `BoardSpot[]` and two `HashSet<int>` in place;
    here the whole state is an immutable `Engine` value and every operation
    returns the next state. Integers are unbounded: C# overflow of `g`,
    `f`, `cost` or the heuristic is not modelled.
 */
module Pathfinder {
  import opened Coord
  import opened Spot

  /** `_cols`, `_rows`, `_from`, `_to`, `_heightStep`, `_map`, `_open`,
      `_closed` and `Result`, in that order. */
  datatype Engine = Engine(
    cols: int,
    rows: int,
    from: int,
    to: int,
    heightStep: int,
    cells: seq<Cell>,
    open: set<int>,
    closed: set<int>,
    result: seq<Point>)

  /** The engine shape fixed at construction: a cols*rows board whose cell
      `i` sits at the decoded position of `i` and carries the adjacency list
      for the given diagonal setting. */
  ghost predicate WfLinks(e: Engine, diagonalLinks: bool) {
    && 0 < e.cols && 0 < e.rows
    && |e.cells| == e.cols * e.rows
    && forall i :: 0 <= i < |e.cells| ==>
         && e.cells[i].position == FromIndex(i, e.cols)
         && e.cells[i].neighbours == InitNeighbours(e.cells[i].position, e.cols, e.rows, diagonalLinks)
  }

  ghost predicate Wf(e: Engine) {
    WfLinks(e, false) || WfLinks(e, true)
  }

  /** Two cell arrays agree on everything but the transient search fields
      `g`, `h`, `f` and `previousIdx`. */
  ghost predicate SameGrid(a: seq<Cell>, b: seq<Cell>) {
    && |a| == |b|
    && forall i :: 0 <= i < |a| ==>
         && a[i].position == b[i].position
         && a[i].walkable == b[i].walkable
         && a[i].cost == b[i].cost
         && a[i].height == b[i].height
         && a[i].neighbours == b[i].neighbours
  }

  lemma SameGridSymmetric(a: seq<Cell>, b: seq<Cell>)
    requires SameGrid(a, b)
    ensures SameGrid(b, a)
  {
  }

  lemma SameGridTransitive(a: seq<Cell>, b: seq<Cell>, c: seq<Cell>)
    requires SameGrid(a, b) && SameGrid(b, c)
    ensures SameGrid(a, c)
  {
  }

  /** An engine shape is a property of the grid alone, so any array that
      agrees with a well-formed one outside the search fields is well
      formed too. */
  lemma SameGridWf(a: Engine, b: Engine)
    requires Wf(a) && b.cols == a.cols && b.rows == a.rows && SameGrid(a.cells, b.cells)
    ensures Wf(b)
  {
  }

  /** `XY2Idx`: the cell index of an on-board column and row, whose cell
      sits at exactly that column and row. */
  function XY2Idx(e: Engine, x: int, y: int): (idx: int)
    requires Wf(e)
    requires 0 <= x < e.cols && 0 <= y < e.rows
    ensures 0 <= idx < |e.cells|
    ensures e.cells[idx].position.x == x && e.cells[idx].position.y == y
    ensures e.cells[idx].position.index == idx
  {
    IndexInRange(x, y, e.cols, e.rows);
    XYRoundTrip(x, y, e.cols);
    y * e.cols + x
  }

  /** `CalculateHeuristic`, on the two cells' positions: ten times the
      Manhattan distance, except that when both axis distances are equal
      the result is one and a half times the distance along one axis. */
  function Heuristic(a: Point, b: Point): (d: int)
    ensures d >= 0
    ensures d == 0 <==> a.x == b.x && a.y == b.y
    ensures 10 * Max(Abs(b.x - a.x), Abs(b.y - a.y)) <= d <= 10 * (Abs(b.x - a.x) + Abs(b.y - a.y))
  {
    var diffX := Abs(b.x - a.x) * 10;
    var diffY := Abs(b.y - a.y) * 10;
    if diffX == diffY then (diffX * 3) / 2 else diffX + diffY
  }

  /** The heuristic does not depend on the direction of travel. */
  lemma HeuristicSymmetric(a: Point, b: Point)
    ensures Heuristic(a, b) == Heuristic(b, a)
  {
  }

  /** The integer halving never truncates: equal axis distances of `k`
      cells cost exactly 15 per cell. */
  lemma HeuristicDiagonal(a: Point, b: Point)
    requires Abs(b.x - a.x) == Abs(b.y - a.y)
    ensures Heuristic(a, b) == 15 * Abs(b.x - a.x)
  {
  }

  /** Between linked cells the heuristic is the edge cost: 10 for an
      orthogonal step and 15 for a diagonal one. */
  lemma HeuristicStep(a: Point, b: Point, diagonalLinks: bool)
    requires Adjacent(a, b, diagonalLinks)
    ensures a.x == b.x || a.y == b.y ==> Heuristic(a, b) == 10
    ensures a.x != b.x && a.y != b.y ==> Heuristic(a, b) == 15
  {
  }

  /** The heuristic is not consistent: from (k+1, k) the goal (0, 0) is
      estimated at 10(2k+1), yet the neighbour (k, k), one orthogonal step
      of cost 10 away, is estimated at only 15k. */
  lemma HeuristicNotConsistent(k: int, cols: int)
    requires k > 0
    ensures var goal, a, b := FromXY(0, 0, cols), FromXY(k + 1, k, cols), FromXY(k, k, cols);
      && Heuristic(a, b) == 10
      && Heuristic(a, goal) > Heuristic(a, b) + Heuristic(b, goal)
  {
  }

  /** With diagonal links the heuristic can overestimate: from (2, 1) to
      (0, 0) it says 30, but one diagonal step (15) and one orthogonal step
      (10) cost 25. */
  lemma HeuristicOverestimates(cols: int)
    ensures var a, m, goal := FromXY(2, 1, cols), FromXY(1, 0, cols), FromXY(0, 0, cols);
      && Adjacent(a, m, true) && Adjacent(m, goal, true)
      && Heuristic(a, m) + Heuristic(m, goal) == 25
      && Heuristic(a, goal) == 30
  {
  }

  function NewCell(i: int, cols: int, rows: int, diagonalLinks: bool): Cell
    requires cols != 0
  {
    var p := FromIndex(i, cols);
    Cell(p, true, 0, 0, 0, 0, 0, -1, InitNeighbours(p, cols, rows, diagonalLinks))
  }

  /** The constructor `Pathfinder(cols, rows, diagonalLinks)`. A negative
      cell count would make the array allocation throw; a zero count gives
      an engine without cells. */
  function Create(cols: int, rows: int, diagonalLinks: bool): (e: Engine)
    requires cols * rows >= 0
    ensures 0 < cols && 0 < rows ==> WfLinks(e, diagonalLinks)
    ensures e.cols == cols && e.rows == rows
    ensures |e.cells| == cols * rows
    ensures forall i :: 0 <= i < |e.cells| ==>
      && e.cells[i].position.index == i
      && e.cells[i].walkable
      && e.cells[i].previousIdx == -1
      && e.cells[i].cost == 0
      && e.cells[i].height == 0
    ensures e.open == {} && e.closed == {} && e.result == []
    ensures e.from == 0 && e.to == 0 && e.heightStep == 1
  {
    var n := cols * rows;
    assert cols == 0 ==> n == 0;
    Engine(cols, rows, 0, 0, 1, seq(n, i requires 0 <= i < n => NewCell(i, cols, rows, diagonalLinks)), {}, {}, [])
  }

  /** `Reset`: clears every cell's search fields, the open and closed sets,
      the result and the recorded start and goal. */
  function Reset(e: Engine): (r: Engine)
    ensures SameGrid(e.cells, r.cells)
    ensures forall i :: 0 <= i < |r.cells| ==>
      r.cells[i].g == 0 && r.cells[i].h == 0 && r.cells[i].f == 0 && r.cells[i].previousIdx == -1
    ensures r.open == {} && r.closed == {} && r.result == []
    ensures r.from == -1 && r.to == -1
    ensures r.cols == e.cols && r.rows == e.rows && r.heightStep == e.heightStep
  {
    var cells := seq(|e.cells|, i requires 0 <= i < |e.cells| =>
      e.cells[i].(h := 0, g := 0, f := 0, previousIdx := -1));
    e.(cells := cells, open := {}, closed := {}, result := [], from := -1, to := -1)
  }

  /** Resetting twice is resetting once, and a reset keeps the engine
      shape. */
  lemma ResetIdempotent(e: Engine)
    ensures Reset(Reset(e)) == Reset(e)
    ensures Wf(e) ==> Wf(Reset(e))
  {
    var r, rr := Reset(e), Reset(Reset(e));
    assert rr.cells == r.cells;
  }

  /** `SetObstacle(x, y, isObstacle)`: the cell at (x, y) becomes walkable
      exactly when it is not an obstacle; nothing else changes. */
  function SetObstacle(e: Engine, x: int, y: int, isObstacle: bool): (r: Engine)
    requires Wf(e)
    requires 0 <= x < e.cols && 0 <= y < e.rows
    ensures Wf(r)
    ensures r == e.(cells := r.cells) && |r.cells| == |e.cells|
    ensures var idx := XY2Idx(e, x, y);
      && r.cells[idx].walkable == !isObstacle
      && r.cells[idx] == e.cells[idx].(walkable := r.cells[idx].walkable)
      && forall i :: 0 <= i < |e.cells| && i != idx ==> r.cells[i] == e.cells[i]
  {
    var idx := XY2Idx(e, x, y);
    e.(cells := e.cells[idx := e.cells[idx].(walkable := !isObstacle)])
  }

  /** `SetCost(x, y, cost)`: only the cost of the cell at (x, y) changes. */
  function SetCost(e: Engine, x: int, y: int, cost: int): (r: Engine)
    requires Wf(e)
    requires 0 <= x < e.cols && 0 <= y < e.rows
    ensures Wf(r)
    ensures r == e.(cells := r.cells) && |r.cells| == |e.cells|
    ensures var idx := XY2Idx(e, x, y);
      && r.cells[idx].cost == cost
      && r.cells[idx] == e.cells[idx].(cost := r.cells[idx].cost)
      && forall i :: 0 <= i < |e.cells| && i != idx ==> r.cells[i] == e.cells[i]
  {
    var idx := XY2Idx(e, x, y);
    e.(cells := e.cells[idx := e.cells[idx].(cost := cost)])
  }

  /** `ResetObstacles`: every cell walkable, nothing else changes. */
  function ResetObstacles(e: Engine): (r: Engine)
    ensures r == e.(cells := r.cells) && |r.cells| == |e.cells|
    ensures forall i :: 0 <= i < |r.cells| ==>
      r.cells[i].walkable && r.cells[i] == e.cells[i].(walkable := r.cells[i].walkable)
  {
    e.(cells := seq(|e.cells|, i requires 0 <= i < |e.cells| => e.cells[i].(walkable := true)))
  }

  /** `ResetCosts`: every cost 0, nothing else changes. */
  function ResetCosts(e: Engine): (r: Engine)
    ensures r == e.(cells := r.cells) && |r.cells| == |e.cells|
    ensures forall i :: 0 <= i < |r.cells| ==>
      r.cells[i].cost == 0 && r.cells[i] == e.cells[i].(cost := r.cells[i].cost)
  {
    e.(cells := seq(|e.cells|, i requires 0 <= i < |e.cells| => e.cells[i].(cost := 0)))
  }

  /** `ResetHeight`: every height 0, nothing else changes. */
  function ResetHeight(e: Engine): (r: Engine)
    ensures r == e.(cells := r.cells) && |r.cells| == |e.cells|
    ensures forall i :: 0 <= i < |r.cells| ==>
      r.cells[i].height == 0 && r.cells[i] == e.cells[i].(height := r.cells[i].height)
  {
    e.(cells := seq(|e.cells|, i requires 0 <= i < |e.cells| => e.cells[i].(height := 0)))
  }

  /** Placing an obstacle and lifting it again restores a cell that was
      walkable; placing one twice is placing it once. */
  lemma SetObstacleUndo(e: Engine, x: int, y: int)
    requires Wf(e)
    requires 0 <= x < e.cols && 0 <= y < e.rows
    requires e.cells[XY2Idx(e, x, y)].walkable
    ensures SetObstacle(SetObstacle(e, x, y, true), x, y, false) == e
    ensures SetObstacle(SetObstacle(e, x, y, true), x, y, true) == SetObstacle(e, x, y, true)
  {
    var once := SetObstacle(e, x, y, true);
    assert SetObstacle(once, x, y, false).cells == e.cells;
    assert SetObstacle(once, x, y, true).cells == once.cells;
  }

  /** A bulk reset overrides every earlier per-cell change of its field:
      obstacles placed before `ResetObstacles` leave no trace, and costs set
      before `ResetCosts` neither. */
  lemma BulkResetOverrides(e: Engine, x: int, y: int, isObstacle: bool, cost: int)
    requires Wf(e)
    requires 0 <= x < e.cols && 0 <= y < e.rows
    ensures ResetObstacles(SetObstacle(e, x, y, isObstacle)) == ResetObstacles(e)
    ensures ResetCosts(SetCost(e, x, y, cost)) == ResetCosts(e)
  {
    assert ResetObstacles(SetObstacle(e, x, y, isObstacle)).cells == ResetObstacles(e).cells;
    assert ResetCosts(SetCost(e, x, y, cost)).cells == ResetCosts(e).cells;
  }

  /** On a fresh engine the bulk resets change nothing: they restore the
      constructor's defaults. */
  lemma BulkResetsRestoreDefaults(cols: int, rows: int, diagonalLinks: bool)
    requires cols * rows >= 0
    ensures ResetObstacles(Create(cols, rows, diagonalLinks)) == Create(cols, rows, diagonalLinks)
    ensures ResetCosts(Create(cols, rows, diagonalLinks)) == Create(cols, rows, diagonalLinks)
    ensures ResetHeight(Create(cols, rows, diagonalLinks)) == Create(cols, rows, diagonalLinks)
  {
    var e := Create(cols, rows, diagonalLinks);
    assert ResetObstacles(e).cells == e.cells;
    assert ResetCosts(e).cells == e.cells;
    assert ResetHeight(e).cells == e.cells;
  }

  /** The grid mutators only touch grid attributes, so they commute with
      the search-state `Reset`. */
  lemma ResetCommutesWithMutators(e: Engine, x: int, y: int, isObstacle: bool, cost: int)
    requires Wf(e)
    requires 0 <= x < e.cols && 0 <= y < e.rows
    ensures Reset(SetObstacle(e, x, y, isObstacle)) == SetObstacle(Reset(e), x, y, isObstacle)
    ensures Reset(SetCost(e, x, y, cost)) == SetCost(Reset(e), x, y, cost)
    ensures Reset(ResetObstacles(e)) == ResetObstacles(Reset(e))
    ensures Reset(ResetCosts(e)) == ResetCosts(Reset(e))
    ensures Reset(ResetHeight(e)) == ResetHeight(Reset(e))
  {
    ResetIdempotent(e);
    assert Reset(SetObstacle(e, x, y, isObstacle)).cells == SetObstacle(Reset(e), x, y, isObstacle).cells;
    assert Reset(SetCost(e, x, y, cost)).cells == SetCost(Reset(e), x, y, cost).cells;
    assert Reset(ResetObstacles(e)).cells == ResetObstacles(Reset(e)).cells;
    assert Reset(ResetCosts(e)).cells == ResetCosts(Reset(e)).cells;
    assert Reset(ResetHeight(e)).cells == ResetHeight(Reset(e)).cells;
  }
}
