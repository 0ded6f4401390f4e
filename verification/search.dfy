/** The searches of Runtime/Pathfinder.cs: the synchronous `FindPath`, the
    incremental `Init` + `Tick`, and the pieces they share (choosing the
    open cell to expand, relaxing its neighbours, rebuilding the route
    from predecessor links).

    The engine never promises a shortest route (the heuristic is neither
    consistent nor, with diagonal links, admissible, and closed cells are
    never reopened), so the contracts speak of what is returned, not of
    its length.
 */
module Search {
  import opened Coord
  import opened Spot
  import opened Pathfinder
  import opened SearchState

  /** The open-set scan: an open cell whose `f` is no larger than any other
      open cell's. As in the source, a candidate replaces the best so far
      only when its `f` is strictly smaller, and -1 marks "none yet"; the
      enumeration order of the hash set is not modelled, so among equal
      `f` any open cell may win. */
  method SelectMin(cells: seq<Cell>, open: set<int>) returns (best: int)
    requires open != {}
    requires forall i :: i in open ==> 0 <= i < |cells|
    ensures best in open
    ensures forall i :: i in open ==> cells[best].f <= cells[i].f
  {
    best := -1;
    var rest := open;
    while rest != {}
      invariant rest <= open
      invariant best == -1 ==> rest == open
      invariant best != -1 ==> best in open && forall i :: i in open && i !in rest ==> cells[best].f <= cells[i].f
      decreases rest
    {
      HasMember(rest);
      var candidate :| candidate in rest;
      if best == -1 || cells[candidate].f < cells[best].f {
        best := candidate;
      }
      rest := rest - {candidate};
    }
  }

  /** A set of which no integer is a member is the empty set. */
  lemma NoMemberIsEmpty(s: set<int>)
    ensures (forall y :: y !in s) ==> s == {}
  {
    if forall y :: y !in s {
      assert forall y :: y in s <==> y in {};
    }
  }

  /** A non-empty set has a member to pick. */
  lemma HasMember(s: set<int>)
    requires s != {}
    ensures exists y :: y in s
  {
    NoMemberIsEmpty(s);
  }

  /** The neighbour loop of an expansion of the closed cell `cur`: skip
      closed cells and cells the mode does not admit; a neighbour not yet
      open is opened and always takes the new score, one already open only
      when the new `g` is strictly smaller. */
  method Relax(cells: seq<Cell>, open: set<int>, closed: set<int>, cur: int, to: int, mode: Mode)
      returns (cells': seq<Cell>, open': set<int>)
    requires GridOk(cells)
    requires 0 <= cur < |cells| && 0 <= to < |cells|
    requires cur in closed
    ensures Relaxes(cells, cells', mode, open, open', closed, cur, to)
  {
    cells', open' := cells, open;
    var ns := cells[cur].neighbours;
    PartlyRelaxedStart(cells, mode, open, closed, cur, to);
    var k := 0;
    while k < |ns|
      invariant 0 <= k <= |ns|
      invariant PartlyRelaxed(cells, cells', mode, open, open', closed, cur, to, ns[..k])
    {
      assert ns[..k + 1] == ns[..k] + [ns[k]];
      cells', open' := RelaxNeighbour(cells, cells', open, open', closed, cur, to, mode, ns[..k], ns[k]);
      k := k + 1;
    }
    assert ns[..k] == ns;
    PartlyRelaxedDone(cells, cells', mode, open, open', closed, cur, to);
  }

  /** One pass of the neighbour loop, for neighbour `n`. */
  method RelaxNeighbour(
      cells: seq<Cell>, cells': seq<Cell>, open: set<int>, open': set<int>, closed: set<int>,
      cur: int, to: int, mode: Mode, ghost done: seq<int>, n: int)
      returns (cells'': seq<Cell>, open'': set<int>)
    requires GridOk(cells)
    requires 0 <= cur < |cells| && 0 <= to < |cells|
    requires cur in closed
    requires n in cells[cur].neighbours
    requires forall m :: m in done ==> m in cells[cur].neighbours
    requires PartlyRelaxed(cells, cells', mode, open, open', closed, cur, to, done)
    ensures PartlyRelaxed(cells, cells'', mode, open, open'', closed, cur, to, done + [n])
  {
    cells'', open'' := cells', open';
    if n in closed || !Admits(cells', mode, cur, n) {
      // skipped, as the source's `continue`
      PartlyRelaxedKeep(cells, cells', mode, open, open', closed, cur, to, done, n);
    } else {
      var foundNew := false;
      var potentialG := cells'[cur].g + StepCost(cells', mode, cur, n);
      if n in open' {
        if cells'[n].g > potentialG {
          foundNew := true;
        }
      } else {
        open'' := open' + {n};
        foundNew := true;
      }
      if foundNew {
        var h := Heuristic(cells'[n].position, cells'[to].position);
        PartlyRelaxedUpdate(cells, cells', mode, open, open', closed, cur, to, done, n);
        cells'' := cells'[n := cells'[n].(g := potentialG, h := h, f := potentialG + h, previousIdx := cur)];
        assert cells'' == RelaxAt(cells', mode, cur, to, n);
        open'' := open' + {n};
      } else {
        PartlyRelaxedKeep(cells, cells', mode, open, open', closed, cur, to, done, n);
      }
    }
  }

  /** The indices of an array of `n` cells. */
  ghost function CellIndices(n: nat): (s: set<int>)
    ensures forall i :: i in s <==> 0 <= i < n
  {
    if n == 0 then {} else CellIndices(n - 1) + {n - 1}
  }

  /** `IndexesToPositions`: follow predecessor links from `finalIdx` until a cell
      without predecessor, collecting the positions of the cells passed
      (the cell without predecessor excluded), oldest first. The source
      appends and then reverses the list; prepending gives the same list.
      The ghost `rank` shows the walk ends. */
  method IndexesToPositions(cells: seq<Cell>, finalIdx: int, ghost chain: set<int>, ghost rank: map<int, nat>)
      returns (route: seq<Point>)
    requires finalIdx in chain
    requires ChainRanked(cells, chain, rank)
    ensures Reconstructs(cells, chain, finalIdx, route)
  {
    route := [];
    var current := finalIdx;
    while cells[current].previousIdx >= 0
      invariant current in chain
      invariant route == [] ==> current == finalIdx
      invariant route != [] ==> route[|route| - 1] == cells[finalIdx].position
      invariant forall i :: 0 <= i < |route| ==>
        && route[i].index in chain
        && cells[route[i].index].position == route[i]
        && cells[route[i].index].previousIdx >= 0
      invariant route != [] ==> cells[route[0].index].previousIdx == current
      invariant forall i :: 0 < i < |route| ==> cells[route[i].index].previousIdx == route[i - 1].index
      decreases rank[current]
    {
      route := [cells[current].position] + route;
      current := cells[current].previousIdx;
    }
  }

  /** One pass of the search loop, shared by `FindPath` and `Tick`: move an
      open cell `cur` with minimal `f` to the closed set; if it is the goal,
      rebuild the route to it and stop; otherwise relax its neighbours. The
      loop invariant holds again afterwards, and the ghost `rank'` records
      when `cur` was closed. */
  method Expand(cells: seq<Cell>, mode: Mode, from: int, to: int, open: set<int>, closed: set<int>, ghost rank: map<int, nat>)
      returns (cells': seq<Cell>, open': set<int>, closed': set<int>, ghost rank': map<int, nat>, cur: int, route: seq<Point>)
    requires SearchInv(cells, mode, from, to, open, closed, rank, to)
    requires open != {}
    ensures cur in open && forall o :: o in open ==> cells[cur].f <= cells[o].f
    ensures closed' == closed + {cur}
    ensures SameGrid(cells, cells')
    ensures cur == to ==>
      && cells' == cells && open' == open - {cur}
      && SearchInv(cells', mode, from, to, open', closed', rank', cur)
      && Reconstructs(cells, closed', to, route)
      && (route == [] <==> to == from)
      && (route != [] ==> RouteOk(cells, mode, from, to, route))
    ensures cur != to ==>
      && route == []
      && Relaxes(cells, cells', mode, open - {cur}, open', closed', cur, to)
      && SearchInv(cells', mode, from, to, open', closed', rank', to)
  {
    cur := SelectMin(cells, open);
    PopInv(cells, mode, from, to, open, closed, rank, cur);
    rank' := rank[cur := |closed|];
    open' := open - {cur};
    closed' := closed + {cur};
    if cells[cur].position.index == to {
      InvChain(cells, mode, from, to, open', closed', rank', cur);
      route := IndexesToPositions(cells, cur, closed', rank');
      FoundRoute(cells, mode, from, to, open', closed', rank', cur, route);
      cells' := cells;
      return;
    }
    route := [];
    var open'' := open';
    cells', open' := Relax(cells, open'', closed', cur, to, mode);
    RelaxInv(cells, cells', mode, from, to, open'', open', closed', rank', cur);
  }

  /** `FindPath(fromX, fromY, toX, toY, heightStep)`. Returns the final
      engine state together with its `Result`.

      The route is empty when the start is not walkable, when the goal is
      the start, when the goal is not walkable, and exactly when no walk
      through walkable cells within the height step leads from start to
      goal; otherwise it runs from the first cell after the start to the
      goal, each cell a walkable neighbour of the one before within the
      height step. Like the source, the call leaves the recorded start and
      goal at -1, since `Reset` clears them and `FindPath` never sets them. */
  method FindPath(e: Engine, fromX: int, fromY: int, toX: int, toY: int, heightStep: int)
      returns (r: Engine, route: seq<Point>)
    requires Wf(e)
    requires 0 <= fromX < e.cols && 0 <= fromY < e.rows
    requires 0 <= toX < e.cols && 0 <= toY < e.rows
    ensures Wf(r) && SameGrid(e.cells, r.cells)
    ensures r.cols == e.cols && r.rows == e.rows
    ensures r.from == -1 && r.to == -1 && r.heightStep == heightStep
    ensures r.result == route
    ensures var from, to := XY2Idx(e, fromX, fromY), XY2Idx(e, toX, toY);
      && (!e.cells[from].walkable ==> route == [])
      && (!e.cells[to].walkable ==> route == [])
      && (from == to ==> route == [])
      && (route != [] ==> RouteOk(e.cells, Synchronous(heightStep), from, to, route))
      && (e.cells[from].walkable && from != to ==>
            (route != [] <==> Reachable(e.cells, Synchronous(heightStep), from, to)))
  {
    var s := Reset(e).(heightStep := heightStep);
    SameGridWf(e, s);
    var from := XY2Idx(s, fromX, fromY);
    var to := XY2Idx(s, toX, toY);
    var mode := Synchronous(heightStep);
    if !s.cells[from].walkable {
      return s, s.result;
    }
    WfGridOk(e);
    var cells := s.cells[from := s.cells[from].(g := 0)];
    assert SameGrid(s.cells, cells);
    SameGridTransitive(e.cells, s.cells, cells);
    SameGridOk(e.cells, cells);
    var cells', open, closed;
    cells', open, closed, route := RunSearch(cells, mode, from, to);
    SameGridTransitive(e.cells, cells, cells');
    SearchOutcome(e.cells, cells, mode, from, to, route);
    r := s.(cells := cells', open := open, closed := closed, result := route);
    SameGridWf(e, r);
  }

  /** What the search loop promises about its working copy of the cells
      holds of any array with the same grid. */
  lemma SearchOutcome(cells: seq<Cell>, cells': seq<Cell>, mode: Mode, from: int, to: int, route: seq<Point>)
    requires SameGrid(cells, cells') && 0 <= from < |cells| && 0 <= to < |cells|
    requires from == to ==> route == []
    requires route != [] ==> RouteOk(cells', mode, from, to, route)
    requires from != to ==> (route != [] <==> Reachable(cells', mode, from, to))
    ensures route != [] ==> RouteOk(cells, mode, from, to, route) && cells[to].walkable
    ensures from != to ==> (route != [] <==> Reachable(cells, mode, from, to))
  {
    SameGridSymmetric(cells, cells');
    ReachableSameGrid(cells', cells, mode, from, to);
    if route != [] {
      RouteSameGrid(cells', cells, mode, from, to, route);
      RouteReachable(cells, mode, from, to, route);
    }
  }

  /** The search loop of `FindPath`, from the seeded start until the goal is
      closed or no open cell is left. The route is empty when the goal is
      the start; otherwise it is non-empty exactly when the goal is
      reachable, and then it is a route from the start to the goal. */
  method RunSearch(cells: seq<Cell>, mode: Mode, from: int, to: int)
      returns (cells': seq<Cell>, open: set<int>, closed: set<int>, route: seq<Point>)
    requires GridOk(cells)
    requires 0 <= from < |cells| && 0 <= to < |cells|
    requires cells[from].previousIdx == -1
    ensures SameGrid(cells, cells')
    ensures from == to ==> route == []
    ensures route != [] ==> RouteOk(cells, mode, from, to, route)
    ensures from != to ==> (route != [] <==> Reachable(cells, mode, from, to))
  {
    cells', open, closed := cells, {from}, {};
    ghost var rank: map<int, nat> := map[];
    SeedInv(cells, mode, from, to);
    while open != {}
      invariant SameGrid(cells, cells')
      invariant SearchInv(cells', mode, from, to, open, closed, rank, to)
      invariant to !in closed
      decreases CellIndices(|cells'|) - closed
    {
      var cells'', open', closed', cur, route';
      cells'', open', closed', rank, cur, route' := Expand(cells', mode, from, to, open, closed, rank);
      if cells'[cur].position.index == to {
        if route' != [] {
          RouteSameGrid(cells', cells, mode, from, to, route');
          RouteReachable(cells, mode, from, to, route');
        }
        return cells', open', closed', route';
      }
      cells', open, closed := cells'', open', closed';
    }
    Exhausted(cells', mode, from, to, closed, rank);
    ReachableSameGrid(cells', cells, mode, from, to);
    route := [];
  }

  /** The state `Tick` works on: a well-formed engine whose recorded start
      and goal are cells, whose open and closed sets satisfy the search-loop
      invariant of the incremental mode, and whose `Result` is empty or a
      route from the start to the goal. A closed goal other than the start
      has its route in `Result`. */
  ghost predicate TickInv(e: Engine) {
    && Wf(e)
    && GridOk(e.cells)
    && 0 <= e.from < |e.cells| && 0 <= e.to < |e.cells|
    && (exists rank :: SearchInv(e.cells, Incremental, e.from, e.to, e.open, e.closed, rank, e.to))
    && (e.to in e.closed && e.to != e.from ==> e.result != [])
    && (e.result != [] ==> RouteOk(e.cells, Incremental, e.from, e.to, e.result))
  }

  /** `Init(fromX, fromY, toX, toY)`: reset the search state, record start
      and goal, and open the start with `g = 0`. The height step of the
      engine is kept. */
  function Init(e: Engine, fromX: int, fromY: int, toX: int, toY: int): (r: Engine)
    requires Wf(e)
    requires 0 <= fromX < e.cols && 0 <= fromY < e.rows
    requires 0 <= toX < e.cols && 0 <= toY < e.rows
    ensures TickInv(r)
    ensures SameGrid(e.cells, r.cells)
    ensures r.cols == e.cols && r.rows == e.rows && r.heightStep == e.heightStep
    ensures r.from == XY2Idx(e, fromX, fromY) && r.to == XY2Idx(e, toX, toY)
    ensures r.open == {r.from} && r.closed == {} && r.result == []
    ensures forall i :: 0 <= i < |r.cells| ==>
      r.cells[i].g == 0 && r.cells[i].h == 0 && r.cells[i].f == 0 && r.cells[i].previousIdx == -1
  {
    WfGridOk(e);
    var s := Reset(e);
    var from := XY2Idx(e, fromX, fromY);
    var to := XY2Idx(e, toX, toY);
    var cells := s.cells[from := s.cells[from].(g := 0)];
    SeedInv(cells, Incremental, from, to);
    var r := s.(from := from, to := to, cells := cells, open := {from});
    SameGridWf(e, r);
    r
  }

  /** `Tick`: one expansion of the incremental search. Nothing happens when
      the start or the goal is not walkable, when `Result` is already
      filled, or when `open` is empty. Otherwise exactly one open cell with
      minimal `f` moves to the closed set; if it is the goal, `Result`
      receives the route; if not, its walkable neighbours (no height test)
      that are not closed are opened or improved at the price `g` plus
      heuristic plus the expanded cell's `cost`, and no other cell changes.
      `cur` is the expanded cell, or -1 when nothing happens. */
  method Tick(e: Engine) returns (r: Engine, cur: int)
    requires TickInv(e)
    ensures TickInv(r)
    ensures SameGrid(e.cells, r.cells)
    ensures r.cols == e.cols && r.rows == e.rows && r.heightStep == e.heightStep
    ensures r.from == e.from && r.to == e.to
    ensures !e.cells[e.from].walkable || !e.cells[e.to].walkable || e.result != [] || e.open == {} ==> r == e
    ensures e.closed <= r.closed && |r.closed| <= |e.closed| + 1
    ensures e.cells[e.from].walkable && e.cells[e.to].walkable && e.result == [] && e.open != {} ==>
      |r.closed| == |e.closed| + 1
    ensures forall c :: c in r.closed && c !in e.closed ==>
      c in e.open && forall o :: o in e.open ==> e.cells[c].f <= e.cells[o].f
    ensures forall c, n :: c in r.closed && c !in e.closed && n in r.open && n !in e.open ==>
      && 0 <= c < |e.cells| && 0 <= n < |e.cells|
      && r.cells[n].previousIdx == c
      && r.cells[n].g == e.cells[c].g + Heuristic(e.cells[c].position, e.cells[n].position) + e.cells[c].cost
    ensures forall c, n :: c in r.closed && c !in e.closed && c != e.to && n in e.cells[c].neighbours && e.cells[n].walkable ==>
      n in r.open || n in r.closed
    ensures e.result == [] && r.result != [] ==> RouteOk(e.cells, Incremental, e.from, e.to, r.result)
    ensures !e.cells[e.from].walkable || !e.cells[e.to].walkable || e.result != [] || e.open == {} ==> cur == -1
    ensures e.cells[e.from].walkable && e.cells[e.to].walkable && e.result == [] && e.open != {} ==>
      && cur in e.open && 0 <= cur < |e.cells| && r.closed == e.closed + {cur}
      && (cur == e.to ==> r.cells == e.cells && r.open == e.open - {cur} && Reconstructs(e.cells, r.closed, e.to, r.result))
      && (cur != e.to ==> r.result == [])
      && (cur != e.to ==> Relaxes(e.cells, r.cells, Incremental, e.open - {cur}, r.open, r.closed, cur, e.to))
  {
    r, cur := e, -1;
    if !e.cells[e.from].walkable || !e.cells[e.to].walkable || |e.result| > 0 {
      return;
    }
    if e.open != {} {
      var mode := Incremental;
      ghost var rank :| SearchInv(e.cells, mode, e.from, e.to, e.open, e.closed, rank, e.to);
      var cells, open, closed, route;
      cells, open, closed, rank, cur, route := Expand(e.cells, mode, e.from, e.to, e.open, e.closed, rank);
      r := e.(cells := cells, open := open, closed := closed, result := route);
      TickKeepsInv(e, cells, open, closed, rank, cur, route);
      ClosesOne(e.cells, e.open, e.closed, closed, cur);
      ExpandCovers(e.cells, cells, e.from, e.to, open, e.closed, closed, rank, cur);
      ExpandOpens(e.cells, cells, e.open, open, e.closed, closed, cur, e.to);
    }
  }

  /** Exactly the selected open cell joins the closed set. */
  lemma ClosesOne(cells: seq<Cell>, open: set<int>, closed: set<int>, closed': set<int>, cur: int)
    requires cur in open && open !! closed && closed' == closed + {cur}
    requires forall o :: o in open ==> 0 <= o < |cells|
    requires forall o :: o in open ==> cells[cur].f <= cells[o].f
    ensures closed <= closed' && |closed'| == |closed| + 1
    ensures forall c :: c in closed' && c !in closed ==> c in open && forall o :: o in open ==> cells[c].f <= cells[o].f
  {
  }

  /** An expanded cell other than the goal has all its walkable neighbours
      discovered. */
  lemma ExpandCovers(
    cells: seq<Cell>, cells': seq<Cell>, from: int, to: int,
    open': set<int>, closed: set<int>, closed': set<int>, rank: map<int, nat>, cur: int)
    requires SameGrid(cells, cells') && closed' == closed + {cur}
    requires cur != to ==> SearchInv(cells', Incremental, from, to, open', closed', rank, to)
    ensures forall c, n :: c in closed' && c !in closed && c != to && n in cells[c].neighbours && cells[n].walkable ==>
      n in open' || n in closed'
  {
    forall c, n | c in closed' && c !in closed && c != to && n in cells[c].neighbours && cells[n].walkable
      ensures n in open' || n in closed'
    {
      assert c == cur;
      assert 0 <= n < |cells'| && Admits(cells', Incremental, c, n);
    }
  }

  /** A cell the expansion newly opens hangs off the expanded cell, at the
      incremental price. */
  lemma ExpandOpens(
    cells: seq<Cell>, cells': seq<Cell>, open: set<int>, open': set<int>,
    closed: set<int>, closed': set<int>, cur: int, to: int)
    requires GridOk(cells) && 0 <= cur < |cells| && 0 <= to < |cells|
    requires closed' == closed + {cur}
    requires cur == to ==> open' == open - {cur}
    requires cur != to ==> Relaxes(cells, cells', Incremental, open - {cur}, open', closed', cur, to)
    ensures forall c, n :: c in closed' && c !in closed && n in open' && n !in open ==>
      && 0 <= c < |cells| && 0 <= n < |cells| && |cells'| == |cells|
      && cells'[n].previousIdx == c
      && cells'[n].g == cells[c].g + Heuristic(cells[c].position, cells[n].position) + cells[c].cost
  {
    forall c, n | c in closed' && c !in closed && n in open' && n !in open
      ensures 0 <= c < |cells| && 0 <= n < |cells| && |cells'| == |cells| && cells'[n].previousIdx == c
      ensures cells'[n].g == cells[c].g + Heuristic(cells[c].position, cells[n].position) + cells[c].cost
    {
      assert c == cur;
      assert Relaxed(cells, cells', Incremental, closed', cur, to, n);
    }
  }

  /** The state after one expansion satisfies the `Tick` invariant again. */
  lemma TickKeepsInv(e: Engine, cells: seq<Cell>, open: set<int>, closed: set<int>, rank: map<int, nat>, cur: int, route: seq<Point>)
    requires TickInv(e) && e.result == []
    requires cur in e.open && closed == e.closed + {cur}
    requires SameGrid(e.cells, cells)
    requires cur == e.to ==>
      && cells == e.cells
      && SearchInv(cells, Incremental, e.from, e.to, open, closed, rank, cur)
      && (route == [] <==> e.to == e.from)
      && (route != [] ==> RouteOk(cells, Incremental, e.from, e.to, route))
    requires cur != e.to ==> route == [] && SearchInv(cells, Incremental, e.from, e.to, open, closed, rank, e.to)
    ensures TickInv(e.(cells := cells, open := open, closed := closed, result := route))
  {
    var r := e.(cells := cells, open := open, closed := closed, result := route);
    SameGridWf(e, r);
    assert SearchInv(r.cells, Incremental, r.from, r.to, r.open, r.closed, rank, r.to);
  }

  /** An incremental search that has run out of open cells without a route
      and whose goal is not its start proves the goal unreachable through
      walkable cells; a filled `Result` proves it reachable. */
  lemma TickOutcome(e: Engine)
    requires TickInv(e)
    ensures e.open == {} && e.result == [] && e.from != e.to ==> !Reachable(e.cells, Incremental, e.from, e.to)
    ensures e.result != [] ==> Reachable(e.cells, Incremental, e.from, e.to)
  {
    var rank :| SearchInv(e.cells, Incremental, e.from, e.to, e.open, e.closed, rank, e.to);
    if e.open == {} && e.result == [] && e.from != e.to {
      Exhausted(e.cells, Incremental, e.from, e.to, e.closed, rank);
    }
    if e.result != [] {
      RouteReachable(e.cells, Incremental, e.from, e.to, e.result);
    }
  }
}
