/** The search state of Runtime/Pathfinder.cs and the facts the search
    loop keeps about it.

    `FindPath` and `Tick` run the same expansion step with two differences,
    captured by `Mode`: `FindPath` refuses a neighbour whose height differs
    from the current cell's by more than `heightStep` and prices a step by
    the heuristic alone; `Tick` has no height test and adds the current
    cell's `cost` to every step out of it.
 */
module SearchState {
  import opened Coord
  import opened Spot
  import opened Pathfinder

  datatype Mode = Synchronous(heightStep: int) | Incremental

  /** Cell arrays the search can run on: every link stays inside the
      array and cell `i` knows its own index. */
  ghost predicate GridOk(cells: seq<Cell>) {
    && (forall i, n :: 0 <= i < |cells| && n in cells[i].neighbours ==> 0 <= n < |cells|)
    && (forall i :: 0 <= i < |cells| ==> cells[i].position.index == i)
  }

  /** A well-formed engine's cells are fit for searching. */
  lemma WfGridOk(e: Engine)
    requires Wf(e)
    ensures GridOk(e.cells)
  {
    var diagonalLinks := WfLinks(e, true);
    forall i, n | 0 <= i < |e.cells| && n in e.cells[i].neighbours
      ensures 0 <= n < |e.cells|
    {
      OnBoardOfIndex(i, e.cols, e.rows);
      NeighbourIsAdjacent(e.cells[i].position, e.cols, e.rows, diagonalLinks, n);
    }
  }

  lemma SameGridOk(a: seq<Cell>, b: seq<Cell>)
    requires GridOk(a) && SameGrid(a, b)
    ensures GridOk(b)
  {
  }

  /** Whether the search may step from cell `c` into cell `n`: the skip test
      of the neighbour loop, less the closed-set test. */
  predicate Admits(cells: seq<Cell>, mode: Mode, c: int, n: int)
    requires 0 <= c < |cells| && 0 <= n < |cells|
  {
    && cells[n].walkable
    && (mode.Synchronous? ==> Abs(cells[n].height - cells[c].height) <= mode.heightStep)
  }

  /** The price of the step from `c` to `n` added to `g`. */
  function StepCost(cells: seq<Cell>, mode: Mode, c: int, n: int): int
    requires 0 <= c < |cells| && 0 <= n < |cells|
  {
    Heuristic(cells[c].position, cells[n].position) + if mode.Incremental? then cells[c].cost else 0
  }

  /** A sequence of cell indices in which every cell after the first is a
      listed neighbour of the one before that the search may enter. */
  ghost predicate IsWalk(cells: seq<Cell>, mode: Mode, p: seq<int>) {
    && |p| >= 1
    && (forall i :: 0 <= i < |p| ==> 0 <= p[i] < |cells|)
    && (forall i :: 0 < i < |p| ==> p[i] in cells[p[i - 1]].neighbours && Admits(cells, mode, p[i - 1], p[i]))
  }

  ghost predicate Reachable(cells: seq<Cell>, mode: Mode, a: int, b: int) {
    exists p :: IsWalk(cells, mode, p) && p[0] == a && p[|p| - 1] == b
  }

  /** A route as `Result` holds it: the coordinates of the cells after the
      start up to and including the goal, each a neighbour of the cell
      before it (the first one of the start) that the search may enter. */
  ghost predicate RouteOk(cells: seq<Cell>, mode: Mode, from: int, to: int, route: seq<Point>) {
    && 0 <= from < |cells|
    && |route| > 0
    && (forall i :: 0 <= i < |route| ==>
          && 0 <= route[i].index < |cells|
          && cells[route[i].index].position == route[i]
          && route[i].index != from)
    && route[|route| - 1].index == to
    && route[0].index in cells[from].neighbours
    && Admits(cells, mode, from, route[0].index)
    && (forall i :: 0 < i < |route| ==>
          route[i].index in cells[route[i - 1].index].neighbours
          && Admits(cells, mode, route[i - 1].index, route[i].index))
  }

  /** Walks, reachability and routes only look at the grid, not at the
      search fields. */
  lemma WalkSameGrid(a: seq<Cell>, b: seq<Cell>, mode: Mode, p: seq<int>)
    requires SameGrid(a, b)
    ensures IsWalk(a, mode, p) <==> IsWalk(b, mode, p)
  {
  }

  lemma ReachableSameGrid(a: seq<Cell>, b: seq<Cell>, mode: Mode, x: int, y: int)
    requires SameGrid(a, b)
    ensures Reachable(a, mode, x, y) <==> Reachable(b, mode, x, y)
  {
    if Reachable(a, mode, x, y) {
      var p :| IsWalk(a, mode, p) && p[0] == x && p[|p| - 1] == y;
      WalkSameGrid(a, b, mode, p);
    }
    if Reachable(b, mode, x, y) {
      var p :| IsWalk(b, mode, p) && p[0] == x && p[|p| - 1] == y;
      WalkSameGrid(a, b, mode, p);
    }
  }

  lemma RouteSameGrid(a: seq<Cell>, b: seq<Cell>, mode: Mode, from: int, to: int, route: seq<Point>)
    requires SameGrid(a, b) && RouteOk(a, mode, from, to, route)
    ensures RouteOk(b, mode, from, to, route)
  {
  }

  /** A route is a walk from the start to the goal, so the goal is
      reachable; its last cell, the goal, is walkable. */
  lemma {:induction false} RouteReachable(cells: seq<Cell>, mode: Mode, from: int, to: int, route: seq<Point>)
    requires RouteOk(cells, mode, from, to, route)
    ensures Reachable(cells, mode, from, to)
    ensures cells[to].walkable && to != from
  {
    var p := [from] + seq(|route|, i requires 0 <= i < |route| => route[i].index);
    forall i | 0 < i < |p|
      ensures p[i] in cells[p[i - 1]].neighbours && Admits(cells, mode, p[i - 1], p[i])
    {
      if i > 1 {
        assert p[i] == route[i - 1].index && p[i - 1] == route[i - 2].index;
      }
    }
    assert IsWalk(cells, mode, p);
    assert p[|p| - 1] == route[|route| - 1].index;
    if |route| > 1 {
      assert Admits(cells, mode, route[|route| - 2].index, route[|route| - 1].index);
    }
  }

  /** Predecessor links of a cell set that lead, rank by rank downwards, to
      cells of the set, each cell knowing its own index. */
  ghost predicate ChainRanked(cells: seq<Cell>, chain: set<int>, rank: map<int, nat>) {
    forall c :: c in chain ==>
      && 0 <= c < |cells|
      && cells[c].position.index == c
      && c in rank
      && (cells[c].previousIdx >= 0 ==>
            cells[c].previousIdx in chain && cells[c].previousIdx in rank && rank[cells[c].previousIdx] < rank[c])
  }

  /** What predecessor link reconstruction from `finalIdx` yields: empty when
      the cell has no predecessor, and otherwise the positions along the
      predecessor link chain, oldest first, ending with `finalIdx` and
      starting just after the chain's root (the cell without a
      predecessor). */
  ghost predicate Reconstructs(cells: seq<Cell>, chain: set<int>, finalIdx: int, route: seq<Point>)
    requires finalIdx in chain && forall c :: c in chain ==> 0 <= c < |cells|
  {
    && (route == [] <==> cells[finalIdx].previousIdx < 0)
    && (route != [] ==> route[|route| - 1] == cells[finalIdx].position)
    && (forall i :: 0 <= i < |route| ==>
          && route[i].index in chain
          && cells[route[i].index].position == route[i]
          && cells[route[i].index].previousIdx >= 0)
    && (forall i :: 0 < i < |route| ==> cells[route[i].index].previousIdx == route[i - 1].index)
    && (route != [] ==>
          cells[route[0].index].previousIdx in chain
          && cells[cells[route[0].index].previousIdx].previousIdx < 0)
  }

  /** Cell `c` was entered from a closed cell it is linked to and that the
      search could step from. */
  ghost predicate Linked(cells: seq<Cell>, mode: Mode, closed: set<int>, c: int)
    requires 0 <= c < |cells|
  {
    var p := cells[c].previousIdx;
    && 0 <= p < |cells|
    && p in closed
    && c in cells[p].neighbours
    && Admits(cells, mode, p, c)
  }

  /** The search-loop invariant. `rank` numbers the closed cells in the
      order they were closed; `skip` is a closed cell whose neighbours are
      not yet processed (the goal is never processed). */
  ghost predicate SearchInv(
    cells: seq<Cell>, mode: Mode, from: int, to: int,
    open: set<int>, closed: set<int>, rank: map<int, nat>, skip: int)
  {
    && GridOk(cells)
    && 0 <= from < |cells| && 0 <= to < |cells|
    && (forall c :: c in open ==> 0 <= c < |cells|)
    && (forall c :: c in closed ==> 0 <= c < |cells|)
    // open and closed are disjoint
    && open !! closed
    // the start is the first cell closed and keeps no predecessor
    && cells[from].previousIdx == -1
    && (closed == {} ==> open == {from})
    && (closed != {} ==> from in closed)
    // every other discovered cell hangs off a closed cell
    && (forall c :: c in open && c != from ==> Linked(cells, mode, closed, c))
    && (forall c :: c in closed && c != from ==> Linked(cells, mode, closed, c))
    // ... that was closed before it
    && (forall c :: c in closed ==> c in rank && rank[c] < |closed|)
    && (forall c :: c in closed && c != from ==> rank[cells[c].previousIdx] < rank[c])
    // the neighbours of processed closed cells have all been discovered
    && (forall c, n :: c in closed && c != to && c != skip && n in cells[c].neighbours && Admits(cells, mode, c, n) ==>
          n in open || n in closed)
  }

  /** The state right after the start is seeded. */
  lemma SeedInv(cells: seq<Cell>, mode: Mode, from: int, to: int)
    requires GridOk(cells)
    requires 0 <= from < |cells| && 0 <= to < |cells|
    requires cells[from].previousIdx == -1
    ensures SearchInv(cells, mode, from, to, {from}, {}, map[], to)
  {
  }

  /** The closed set is a ranked predecessor link chain. */
  lemma InvChain(cells: seq<Cell>, mode: Mode, from: int, to: int, open: set<int>, closed: set<int>, rank: map<int, nat>, skip: int)
    requires SearchInv(cells, mode, from, to, open, closed, rank, skip)
    ensures ChainRanked(cells, closed, rank)
  {
  }

  /** Moving any open cell to the closed set keeps the invariant, with
      that cell still to be processed. */
  lemma PopInv(cells: seq<Cell>, mode: Mode, from: int, to: int, open: set<int>, closed: set<int>, rank: map<int, nat>, cur: int)
    requires SearchInv(cells, mode, from, to, open, closed, rank, to)
    requires cur in open
    ensures SearchInv(cells, mode, from, to, open - {cur}, closed + {cur}, rank[cur := |closed|], cur)
  {
    var open', closed', rank' := open - {cur}, closed + {cur}, rank[cur := |closed|];
    assert |closed'| == |closed| + 1;
    assert from in closed' by {
      if closed == {} {
        assert open == {from};
      }
    }
    forall c | (c in open' || c in closed') && c != from
      ensures Linked(cells, mode, closed', c)
    {
      assert Linked(cells, mode, closed, c);
    }
    forall c | c in closed'
      ensures c in rank' && rank'[c] < |closed'|
    {
    }
    forall c | c in closed' && c != from
      ensures rank'[cells[c].previousIdx] < rank'[c]
    {
      assert Linked(cells, mode, closed, c);
    }
    forall c, n | c in closed' && c != to && c != cur && n in cells[c].neighbours && Admits(cells, mode, c, n)
      ensures n in open' || n in closed'
    {
    }
  }

  /** The set of neighbours of `cur` that the expansion adds to `open`. */
  ghost function NewlyOpened(cells: seq<Cell>, mode: Mode, open: set<int>, closed: set<int>, cur: int): set<int>
    requires GridOk(cells) && 0 <= cur < |cells|
  {
    set n | n in cells[cur].neighbours && n !in closed && n !in open && Admits(cells, mode, cur, n)
  }

  /** Cell `i` of `after` is cell `i` of `before` re-entered from `cur`:
      `g` is `cur`'s `g` plus the step cost, `h` the heuristic to the goal,
      `f = g + h` and the predecessor link `cur`. */
  ghost predicate Relaxed(before: seq<Cell>, after: seq<Cell>, mode: Mode, closed: set<int>, cur: int, to: int, i: int)
    requires GridOk(before) && |after| == |before|
    requires 0 <= cur < |before| && 0 <= to < |before| && 0 <= i < |before|
  {
    var g := before[cur].g + StepCost(before, mode, cur, i);
    var h := Heuristic(before[i].position, before[to].position);
    && i in before[cur].neighbours
    && i !in closed
    && Admits(before, mode, cur, i)
    && after[i] == before[i].(g := g, h := h, f := g + h, previousIdx := cur)
  }

  /** What one neighbour loop does: only search fields change; the
      admissible, unclosed, undiscovered neighbours of `cur` join `open`;
      a changed cell was relaxed through `cur`, and a cell that was already
      open only changes to a strictly smaller `g`. */
  ghost predicate Relaxes(
    before: seq<Cell>, after: seq<Cell>, mode: Mode,
    open: set<int>, open': set<int>, closed: set<int>, cur: int, to: int)
    requires GridOk(before) && 0 <= cur < |before| && 0 <= to < |before|
  {
    && SameGrid(before, after)
    && open' == open + NewlyOpened(before, mode, open, closed, cur)
    && (forall i :: 0 <= i < |before| ==> after[i] == before[i] || Relaxed(before, after, mode, closed, cur, to, i))
    && (forall i :: i in open' && i !in open ==> 0 <= i < |before| && Relaxed(before, after, mode, closed, cur, to, i))
    && (forall i :: i in open && 0 <= i < |before| && after[i] != before[i] ==> after[i].g < before[i].g)
    && (forall i :: i in before[cur].neighbours && i !in closed && Admits(before, mode, cur, i) ==>
          after[i].g <= before[cur].g + StepCost(before, mode, cur, i))
  }

  /** `Relaxes` for the neighbours of `cur` processed so far, `done`. */
  ghost predicate PartlyRelaxed(
    before: seq<Cell>, after: seq<Cell>, mode: Mode,
    open: set<int>, open': set<int>, closed: set<int>, cur: int, to: int, done: seq<int>)
    requires GridOk(before) && 0 <= cur < |before| && 0 <= to < |before|
  {
    && SameGrid(before, after)
    && open' == open + (set n | n in done && 0 <= n < |before| && n !in closed && n !in open && Admits(before, mode, cur, n))
    && (forall i :: 0 <= i < |before| ==> after[i] == before[i] || Relaxed(before, after, mode, closed, cur, to, i))
    && (forall i :: i in open' && i !in open ==> 0 <= i < |before| && Relaxed(before, after, mode, closed, cur, to, i))
    && (forall i :: i in open && 0 <= i < |before| && after[i] != before[i] ==> after[i].g < before[i].g)
    && (forall i :: i in done && 0 <= i < |before| && i !in closed && Admits(before, mode, cur, i) ==>
          i in open' && after[i].g <= before[cur].g + StepCost(before, mode, cur, i))
  }

  /** Before the first neighbour nothing is relaxed. */
  lemma PartlyRelaxedStart(cells: seq<Cell>, mode: Mode, open: set<int>, closed: set<int>, cur: int, to: int)
    requires GridOk(cells) && 0 <= cur < |cells| && 0 <= to < |cells|
    ensures PartlyRelaxed(cells, cells, mode, open, open, closed, cur, to, [])
  {
  }

  /** A neighbour the loop skips, or an open one whose `g` is no larger
      than the new price, leaves everything as it is. */
  lemma {:induction false} PartlyRelaxedKeep(
    before: seq<Cell>, after: seq<Cell>, mode: Mode,
    open: set<int>, open': set<int>, closed: set<int>, cur: int, to: int, done: seq<int>, n: int)
    requires GridOk(before) && 0 <= cur < |before| && 0 <= to < |before|
    requires cur in closed
    requires n in before[cur].neighbours
    requires PartlyRelaxed(before, after, mode, open, open', closed, cur, to, done)
    requires n in closed || !Admits(after, mode, cur, n) ||
      (n in open' && after[n].g <= after[cur].g + StepCost(after, mode, cur, n))
    ensures PartlyRelaxed(before, after, mode, open, open', closed, cur, to, done + [n])
  {
    UnrelaxedCur(before, after, mode, open, open', closed, cur, to, done);
    var done' := done + [n];
    var added := set m | m in done && 0 <= m < |before| && m !in closed && m !in open && Admits(before, mode, cur, m);
    var added' := set m | m in done' && 0 <= m < |before| && m !in closed && m !in open && Admits(before, mode, cur, m);
    assert added' <= added + {n};
    if n in added' {
      assert n in open';
    }
    assert added' == added;
  }

  /** The expanded cell is closed, so the loop never changes it, and the
      grid fields of every cell stay as they were. */
  lemma UnrelaxedCur(
    before: seq<Cell>, after: seq<Cell>, mode: Mode,
    open: set<int>, open': set<int>, closed: set<int>, cur: int, to: int, done: seq<int>)
    requires GridOk(before) && 0 <= cur < |before| && 0 <= to < |before|
    requires cur in closed
    requires PartlyRelaxed(before, after, mode, open, open', closed, cur, to, done)
    ensures |after| == |before| && after[cur] == before[cur]
    ensures forall n :: 0 <= n < |before| ==>
      Admits(after, mode, cur, n) == Admits(before, mode, cur, n) &&
      StepCost(after, mode, cur, n) == StepCost(before, mode, cur, n) &&
      after[n].position == before[n].position
  {
    assert after[cur] == before[cur] || Relaxed(before, after, mode, closed, cur, to, cur);
  }

  /** The cell array after re-entering `n` from `cur`. */
  ghost function RelaxAt(after: seq<Cell>, mode: Mode, cur: int, to: int, n: int): (r: seq<Cell>)
    requires 0 <= cur < |after| && 0 <= to < |after| && 0 <= n < |after|
    ensures |r| == |after| && r[n].previousIdx == cur
    ensures forall i :: 0 <= i < |after| && i != n ==> r[i] == after[i]
  {
    var g := after[cur].g + StepCost(after, mode, cur, n);
    var h := Heuristic(after[n].position, after[to].position);
    after[n := after[n].(g := g, h := h, f := g + h, previousIdx := cur)]
  }

  /** A neighbour that is opened, or re-entered at a strictly smaller `g`,
      takes its new score and predecessor link; the result is `after` updated at
      `n` and `n` in `open`. */
  lemma {:induction false} PartlyRelaxedUpdate(
    before: seq<Cell>, after: seq<Cell>, mode: Mode,
    open: set<int>, open': set<int>, closed: set<int>, cur: int, to: int, done: seq<int>, n: int)
    requires GridOk(before) && 0 <= cur < |before| && 0 <= to < |before|
    requires cur in closed
    requires PartlyRelaxed(before, after, mode, open, open', closed, cur, to, done)
    requires n in before[cur].neighbours && n !in closed && Admits(after, mode, cur, n)
    requires n in open' ==> after[n].g > after[cur].g + StepCost(after, mode, cur, n)
    ensures PartlyRelaxed(before, RelaxAt(after, mode, cur, to, n), mode, open, open' + {n}, closed, cur, to, done + [n])
  {
    UnrelaxedCur(before, after, mode, open, open', closed, cur, to, done);
    var after' := RelaxAt(after, mode, cur, to, n);
    assert SameGrid(before, after');
    assert Relaxed(before, after', mode, closed, cur, to, n);
    assert n in open ==> after[n].g <= before[n].g;
    forall i | 0 <= i < |before| && i != n
      ensures after'[i] == before[i] || Relaxed(before, after', mode, closed, cur, to, i)
    {
      assert after[i] == before[i] || Relaxed(before, after, mode, closed, cur, to, i);
    }
    var done' := done + [n];
    var added := set m | m in done && 0 <= m < |before| && m !in closed && m !in open && Admits(before, mode, cur, m);
    var added' := set m | m in done' && 0 <= m < |before| && m !in closed && m !in open && Admits(before, mode, cur, m);
    if n in open {
      assert added' == added;
    } else {
      assert added' == added + {n};
    }
  }

  /** Once every neighbour is processed, the neighbour loop has done what
      `Relaxes` describes. */
  lemma PartlyRelaxedDone(
    before: seq<Cell>, after: seq<Cell>, mode: Mode,
    open: set<int>, open': set<int>, closed: set<int>, cur: int, to: int)
    requires GridOk(before) && 0 <= cur < |before| && 0 <= to < |before|
    requires PartlyRelaxed(before, after, mode, open, open', closed, cur, to, before[cur].neighbours)
    ensures Relaxes(before, after, mode, open, open', closed, cur, to)
  {
  }

  /** Processing the neighbours of the freshly closed cell restores the
      loop invariant. */
  lemma RelaxInv(
    cells: seq<Cell>, cells': seq<Cell>, mode: Mode, from: int, to: int,
    open: set<int>, open': set<int>, closed: set<int>, rank: map<int, nat>, cur: int)
    requires SearchInv(cells, mode, from, to, open, closed, rank, cur)
    requires cur in closed
    requires Relaxes(cells, cells', mode, open, open', closed, cur, to)
    ensures SearchInv(cells', mode, from, to, open', closed, rank, to)
  {
    SameGridOk(cells, cells');
    assert from in closed;
    assert forall i :: 0 <= i < |cells| ==> cells'[i].position == cells[i].position;
    forall c | c in closed
      ensures cells'[c] == cells[c]
    {
      assert cells'[c] == cells[c] || Relaxed(cells, cells', mode, closed, cur, to, c);
    }
    forall c | c in open' && c != from
      ensures Linked(cells', mode, closed, c)
    {
      if cells'[c] == cells[c] {
        assert Linked(cells, mode, closed, c);
      } else {
        assert Relaxed(cells, cells', mode, closed, cur, to, c);
      }
    }
    forall c | c in closed && c != from
      ensures Linked(cells', mode, closed, c)
    {
      assert Linked(cells, mode, closed, c);
    }
    forall c, n | c in closed && c != to && n in cells'[c].neighbours && Admits(cells', mode, c, n)
      ensures n in open' || n in closed
    {
      assert Admits(cells, mode, c, n);
      if c == cur && n !in closed && n !in open {
        assert n in NewlyOpened(cells, mode, open, closed, cur);
      }
    }
  }

  /** A walk that starts in a cell set closed under admissible steps stays
      in it. */
  lemma {:induction false} WalkStaysClosed(cells: seq<Cell>, mode: Mode, closed: set<int>, p: seq<int>)
    requires IsWalk(cells, mode, p)
    requires p[0] in closed
    requires forall c, n :: 0 <= c < |cells| && 0 <= n < |cells| && c in closed && n in cells[c].neighbours && Admits(cells, mode, c, n) ==> n in closed
    ensures p[|p| - 1] in closed
    decreases |p|
  {
    if |p| > 1 {
      var q := p[..|p| - 1];
      assert IsWalk(cells, mode, q) by {
        forall i | 0 < i < |q|
          ensures q[i] in cells[q[i - 1]].neighbours && Admits(cells, mode, q[i - 1], q[i])
        {
          assert q[i] == p[i] && q[i - 1] == p[i - 1];
        }
      }
      WalkStaysClosed(cells, mode, closed, q);
      assert p[|p| - 1] in cells[p[|p| - 2]].neighbours;
    }
  }

  /** Once `open` runs empty without the goal being closed, no walk leads
      from the start to the goal. */
  lemma Exhausted(cells: seq<Cell>, mode: Mode, from: int, to: int, closed: set<int>, rank: map<int, nat>)
    requires SearchInv(cells, mode, from, to, {}, closed, rank, to)
    requires to !in closed
    ensures !Reachable(cells, mode, from, to)
  {
    if Reachable(cells, mode, from, to) {
      var p :| IsWalk(cells, mode, p) && p[0] == from && p[|p| - 1] == to;
      WalkStaysClosed(cells, mode, closed, p);
    }
  }

  /** Reconstruction from a closed goal yields nothing exactly when the goal
      is the start, and otherwise a route from the start to the goal. */
  lemma FoundRoute(
    cells: seq<Cell>, mode: Mode, from: int, to: int,
    open: set<int>, closed: set<int>, rank: map<int, nat>, skip: int, route: seq<Point>)
    requires SearchInv(cells, mode, from, to, open, closed, rank, skip)
    requires to in closed
    requires Reconstructs(cells, closed, to, route)
    ensures route == [] <==> to == from
    ensures route != [] ==> RouteOk(cells, mode, from, to, route)
  {
    if to != from {
      assert Linked(cells, mode, closed, to);
    }
    if route != [] {
      var root := cells[route[0].index].previousIdx;
      assert root == from || Linked(cells, mode, closed, root);
      assert Linked(cells, mode, closed, route[0].index);
      forall i | 0 < i < |route|
        ensures route[i].index in cells[route[i - 1].index].neighbours
        ensures Admits(cells, mode, route[i - 1].index, route[i].index)
      {
        assert Linked(cells, mode, closed, route[i].index);
      }
      assert route[|route| - 1].index == to;
    }
  }
}
