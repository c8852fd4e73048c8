/** The four searches of the grid: run the shared loop, rebuild the path
    from the parent links, reset the grid's search bookkeeping, and return
    the path together with the number of traversed cells. */
module Searches {
  import opened Wrappers
  import opened Cells
  import opened Grids
  import opened Geometry
  import opened SearchCore
  import opened SearchInvariant
  import opened SearchCoverage
  import opened Layers

  /** `path` is what following parent links back from the cell at `goal`
      collects, nearest-the-start first: each cell a current grid cell with
      a parent, each linked to the one before it, and the first one linked
      to a cell without a parent, which is left out. */
  ghost predicate TracesBack(e: Env, cells: seq<seq<Cell>>, path: seq<Cell>)
    requires Shaped(cells, e.w, e.h) && InGrid(e.goal, e.w, e.h)
  {
    if |path| == 0 then At(cells, e.goal).parentCell.None?
    else
      && path[|path| - 1] == At(cells, e.goal)
      && (forall i :: 0 <= i < |path| ==>
            && InGrid(PosOf(path[i]), e.w, e.h)
            && path[i] == At(cells, PosOf(path[i]))
            && path[i].parentCell.Some?)
      && (forall i :: 0 <= i < |path| - 1 ==> path[i + 1].parentCell == Some(PosOf(path[i])))
      && InGrid(path[0].parentCell.value, e.w, e.h)
      && At(cells, path[0].parentCell.value).parentCell.None?
  }

  /** The path a search returns once its loop has ended: empty if the fringe
      ran out; the goal-flagged cell alone if it has no parent; otherwise
      the trace back from `goalPos`. */
  ghost predicate PathMatches(e: Env, fin: SearchState, path: seq<Cell>)
    requires Shaped(fin.cells, e.w, e.h) && InGrid(e.goal, e.w, e.h)
  {
    match fin.reached
    case None => path == []
    case Some(c) => if c.parentCell.None? then path == [c] else TracesBack(e, fin.cells, path)
  }

  /** A walk through the grid: cells inside it that a search may step onto,
      each 4-adjacent to the next, no position twice. */
  ghost predicate Walk(e: Env, path: seq<Cell>)
  {
    && (forall i :: 0 <= i < |path| ==> InGrid(PosOf(path[i]), e.w, e.h) && Passable(path[i]))
    && (forall i :: 0 <= i < |path| - 1 ==> Adjacent(PosOf(path[i]), PosOf(path[i + 1])))
    && (forall i, j :: 0 <= i < j < |path| ==> PosOf(path[i]) != PosOf(path[j]))
  }

  /** The walk begins next to `s` and never comes back to it. */
  ghost predicate LeavesStart(s: Pos, path: seq<Cell>)
  {
    |path| > 0 ==>
      && Adjacent(s, PosOf(path[0]))
      && forall i :: 0 <= i < |path| ==> PosOf(path[i]) != s
  }

  /** The loop stopped, if at all, at a goal-flagged cell, and that is the
      only visited cell flagged as the goal in `base`. */
  ghost predicate StopsAtFirstGoal(e: Env, base: seq<seq<Cell>>, fin: SearchState)
    requires Shaped(base, e.w, e.h) && Shaped(fin.cells, e.w, e.h)
  {
    && (fin.reached.Some? ==> fin.reached.value.goalCell)
    && forall q | InGrid(q, e.w, e.h) && At(fin.cells, q).visited && At(base, q).goalCell ::
         fin.reached.Some? && q == PosOf(fin.reached.value)
  }

  /** The cells visited are exactly those a route from the start reaches
      over the tiles of `base`, so the count is the number of such cells. */
  ghost predicate VisitsAllReachable(e: Env, base: seq<seq<Cell>>, s: Pos, fin: SearchState)
    requires Shaped(base, e.w, e.h) && Shaped(fin.cells, e.w, e.h)
  {
    && VisitedSet(fin.cells, e.w, e.h) == ReachableSet(e, base, s)
    && fin.traversed == |ReachableSet(e, base, s)|
  }

  /** What a search on `g` returns. */
  ghost predicate SearchContract(kind: Strategy, g: Grid, path: seq<Cell>, traversed: nat, after: Grid)
    requires SearchReady(g)
  {
    InitInv(g);
    var e := EnvOf(g);
    var s := PosOf(g.startPos);
    var fin := Run(kind, e, Init(g));
    && after == g
    && traversed == fin.traversed
    && traversed == |VisitedSet(fin.cells, e.w, e.h)|
    && traversed <= g.sizeX * g.sizeY
    && PathMatches(e, fin, path)
    && (fin.reached.None? ==> |fin.fringe| == 0 && path == [])
    && Walk(e, path)
    && (path == [At(g.cells, s)] || LeavesStart(s, path))
    && (fin.reached.Some? && fin.reached.value.parentCell.None? ==> path == [At(g.cells, s)] && At(g.cells, s).goalCell)
    && (Marked(g) ==>
          && (|path| > 0 <==> fin.reached.Some?)
          && (|path| > 0 ==> PosOf(path[|path| - 1]) == PosOf(g.goalPos)))
    && StopsAtFirstGoal(e, g.cells, fin)
    && (fin.reached.None? ==> NoGoalReachable(e, g.cells, s))
    && (fin.reached.None? ==> VisitsAllReachable(e, g.cells, s, fin))
    && (Marked(g) ==> (|path| > 0 <==> Reachable(e, g.cells, s, PosOf(g.goalPos))))
  }

  /** The visit order of `q`, or the traversal count for a cell not visited yet. */
  ghost function Rank(order: Order, t: nat, q: Pos): nat
  {
    if q in order then order[q] else t
  }

  /** Every parent link leads inside the grid to a cell of lower rank. */
  ghost predicate LinksRanked(e: Env, cells: seq<seq<Cell>>, order: Order, t: nat)
    requires Shaped(cells, e.w, e.h)
  {
    forall q | InGrid(q, e.w, e.h) && At(cells, q).parentCell.Some? ::
      && InGrid(At(cells, q).parentCell.value, e.w, e.h)
      && Rank(order, t, At(cells, q).parentCell.value) < Rank(order, t, q)
  }

  /** The search invariant ranks the parent links by visit order. */
  lemma InvRanksLinks(e: Env, s: Pos, base: seq<seq<Cell>>, st: SearchState, order: Order)
    requires Inv(e, s, base, st, order)
    ensures LinksRanked(e, st.cells, order, st.traversed)
  {
    forall q | InGrid(q, e.w, e.h) && At(st.cells, q).parentCell.Some?
      ensures Rank(order, st.traversed, At(st.cells, q).parentCell.value) < Rank(order, st.traversed, q)
    {
      assert At(st.cells, q).parentCell.value in order;
    }
  }

  /** Following the parent links back from the cell at `goalPos` until a
      cell without a parent. */
  method Reconstruct(e: Env, fin: SearchState, ghost order: Order) returns (path: seq<Cell>)
    requires Wf(e, fin) && LinksRanked(e, fin.cells, order, fin.traversed)
    ensures PathMatches(e, fin, path)
  {
    if fin.reached.None? {
      return [];
    }
    var cur := fin.reached.value;
    if cur.parentCell.None? {
      return [cur];
    }
    var cells := fin.cells;
    var inwards := At(cells, e.goal);
    path := [];
    while inwards.parentCell.Some?
      invariant InGrid(PosOf(inwards), e.w, e.h) && inwards == At(cells, PosOf(inwards))
      invariant forall i :: 0 <= i < |path| ==>
        && InGrid(PosOf(path[i]), e.w, e.h)
        && path[i] == At(cells, PosOf(path[i]))
        && path[i].parentCell.Some?
      invariant forall i :: 0 <= i < |path| - 1 ==> path[i + 1].parentCell == Some(PosOf(path[i]))
      invariant |path| == 0 ==> inwards == At(cells, e.goal)
      invariant |path| > 0 ==> path[|path| - 1] == At(cells, e.goal) && path[0].parentCell == Some(PosOf(inwards))
      decreases Rank(order, fin.traversed, PosOf(inwards))
    {
      var pp := inwards.parentCell.value;
      path := [inwards] + path;
      inwards := At(cells, pp);
    }
  }

  /** Ranks that grow at every step grow along the whole sequence. */
  lemma {:induction false} ChainIncreases(r: seq<int>, i: nat, j: nat)
    requires forall k :: 0 <= k < |r| - 1 ==> r[k] < r[k + 1]
    requires i < j < |r|
    ensures r[i] < r[j]
    decreases j - i
  {
    if j > i + 1 {
      ChainIncreases(r, i, j - 1);
    }
  }

  /** A trace back from the goal is a walk that starts next to the start
      cell and never includes it. */
  lemma TraceIsWalk(e: Env, s: Pos, base: seq<seq<Cell>>, fin: SearchState, order: Order, path: seq<Cell>)
    requires Inv(e, s, base, fin, order) && TracesBack(e, fin.cells, path)
    ensures Walk(e, path) && LeavesStart(s, path)
  {
    var cells := fin.cells;
    var ranks := seq(|path|, i requires 0 <= i < |path| => Rank(order, fin.traversed, PosOf(path[i])));
    forall i | 0 <= i < |path| - 1
      ensures ranks[i] < ranks[i + 1] && Adjacent(PosOf(path[i]), PosOf(path[i + 1]))
    {
      var q := PosOf(path[i + 1]);
      assert At(cells, q).parentCell == Some(PosOf(path[i]));
    }
    forall i, j | 0 <= i < j < |path|
      ensures PosOf(path[i]) != PosOf(path[j])
    {
      ChainIncreases(ranks, i, j);
    }
    forall i | 0 <= i < |path|
      ensures Passable(path[i]) && PosOf(path[i]) != s
    {
      assert At(cells, PosOf(path[i])).parentCell.Some?;
    }
    if |path| > 0 {
      var pp := path[0].parentCell.value;
      assert At(cells, PosOf(path[0])).parentCell == Some(pp);
      assert pp in order;
      assert At(cells, pp).visited;
    }
  }

  /** What the final state tells about the returned path. */
  lemma OutcomeFacts(kind: Strategy, g: Grid, fin: SearchState, order: Order, path: seq<Cell>)
    requires SearchReady(g)
    requires Inv(EnvOf(g), PosOf(g.startPos), g.cells, fin, order) && Done(fin)
    requires PathMatches(EnvOf(g), fin, path)
    ensures fin.traversed <= g.sizeX * g.sizeY
    ensures Walk(EnvOf(g), path)
    ensures path == [At(g.cells, PosOf(g.startPos))] || LeavesStart(PosOf(g.startPos), path)
    ensures fin.reached.Some? && fin.reached.value.parentCell.None? ==>
      path == [At(g.cells, PosOf(g.startPos))] && At(g.cells, PosOf(g.startPos)).goalCell
    ensures Marked(g) ==>
      && (|path| > 0 <==> fin.reached.Some?)
      && (|path| > 0 ==> PosOf(path[|path| - 1]) == PosOf(g.goalPos))
  {
    var e := EnvOf(g);
    var s := PosOf(g.startPos);
    VisitedAtMostArea(fin.cells, e.w, e.h);
    if fin.reached.Some? {
      var c := fin.reached.value;
      var pc := PosOf(c);
      if c.parentCell.None? {
        assert pc == s;
        assert c == At(g.cells, s);
      } else {
        TraceIsWalk(e, s, g.cells, fin, order, path);
        if Marked(g) {
          assert pc == e.goal;
        }
      }
    }
  }

  /** The loop, the path and the reset shared by the four searches. */
  method Search(kind: Strategy, g: Grid) returns (path: seq<Cell>, traversed: nat, after: Grid)
    requires SearchReady(g)
    ensures SearchContract(kind, g, path, traversed, after)
  {
    var e := EnvOf(g);
    InitInv(g);
    var st := Init(g);
    while !Done(st)
      invariant Wf(e, st)
      invariant Run(kind, e, st) == Run(kind, e, Init(g))
      decreases |Pending(e, st.cells)|, |st.fringe|
    {
      StepProgress(kind, e, st);
      st := Step(kind, e, st);
    }
    ghost var order := RunKeepsInv(kind, e, PosOf(g.startPos), g.cells, Init(g), map[]);
    InvRanksLinks(e, PosOf(g.startPos), g.cells, st, order);
    path := Reconstruct(e, st, order);
    traversed := st.traversed;
    after := ResetCellSearchSettings(g.(cells := st.cells));
    ContractHolds(kind, g, st, order, path, after);
  }

  /** The final state, the rebuilt path and the reset grid meet the contract. */
  lemma ContractHolds(kind: Strategy, g: Grid, fin: SearchState, order: Order, path: seq<Cell>, after: Grid)
    requires SearchReady(g)
    requires fin == Run(kind, EnvOf(g), Init(g))
    requires Inv(EnvOf(g), PosOf(g.startPos), g.cells, fin, order)
    requires PathMatches(EnvOf(g), fin, path)
    requires after == ResetCellSearchSettings(g.(cells := fin.cells))
    ensures SearchContract(kind, g, path, fin.traversed, after)
  {
    ResetRestores(fin.cells, g.cells, g.sizeX, g.sizeY);
    OutcomeFacts(kind, g, fin, order, path);
    SuccessFacts(kind, g, fin, order, path);
  }

  /** When the loop stops and what that says about the goal: it stops at
      the one goal-flagged cell it visited, and if it ran out instead, no
      route from the start reaches a goal-flagged cell. With the start and
      goal marked, a path comes back exactly when the goal is reachable. */
  lemma SuccessFacts(kind: Strategy, g: Grid, fin: SearchState, order: Order, path: seq<Cell>)
    requires SearchReady(g)
    requires fin == Run(kind, EnvOf(g), Init(g))
    requires Inv(EnvOf(g), PosOf(g.startPos), g.cells, fin, order)
    requires PathMatches(EnvOf(g), fin, path)
    ensures StopsAtFirstGoal(EnvOf(g), g.cells, fin)
    ensures fin.reached.None? ==> NoGoalReachable(EnvOf(g), g.cells, PosOf(g.startPos))
    ensures fin.reached.None? ==> VisitsAllReachable(EnvOf(g), g.cells, PosOf(g.startPos), fin)
    ensures Marked(g) ==> (|path| > 0 <==> Reachable(EnvOf(g), g.cells, PosOf(g.startPos), PosOf(g.goalPos)))
  {
    var e := EnvOf(g);
    var s := PosOf(g.startPos);
    InitExplored(g);
    RunKeepsExplored(kind, e, s, Init(g));
    StaticFlags(e, s, g.cells, fin, order);
    NoGoalOnRoutes(e, s, g.cells, fin);
    if fin.reached.None? {
      ExhaustionVisitsReachable(e, s, g.cells, fin, order);
    }
    if Marked(g) {
      MarkedReachable(kind, g, fin, order, path);
    }
  }

  /** The search leaves the tiles and the goal flags of `base` as they were. */
  lemma StaticFlags(e: Env, s: Pos, base: seq<seq<Cell>>, fin: SearchState, order: Order)
    requires Inv(e, s, base, fin, order)
    ensures forall q | InGrid(q, e.w, e.h) ::
      At(fin.cells, q).goalCell == At(base, q).goalCell && Passable(At(fin.cells, q)) == Passable(At(base, q))
  {
    forall q | InGrid(q, e.w, e.h)
      ensures At(fin.cells, q).goalCell == At(base, q).goalCell && Passable(At(fin.cells, q)) == Passable(At(base, q))
    {
      assert SameStatic(At(fin.cells, q), At(base, q));
    }
  }

  /** Every visited cell is reachable from the start: following parent
      links from it leads back, through cells visited earlier, to the
      start, the only visited cell without a parent. */
  lemma {:induction false} VisitedIsReachable(e: Env, s: Pos, base: seq<seq<Cell>>, st: SearchState, order: Order, q: Pos)
    requires Inv(e, s, base, st, order)
    requires InGrid(q, e.w, e.h) && At(st.cells, q).visited
    ensures Reachable(e, st.cells, s, q)
    decreases order[q]
  {
    if q == s {
      assert Route(e, st.cells, s, [s]);
    } else {
      var pp := At(st.cells, q).parentCell.value;
      assert InGrid(pp, e.w, e.h) && pp in order && Adjacent(q, pp) && Passable(At(st.cells, q));
      assert order[pp] < order[q];
      assert At(st.cells, pp).visited;
      VisitedIsReachable(e, s, base, st, order, pp);
      var route :| Route(e, st.cells, s, route) && route[|route| - 1] == pp;
      assert Adjacent(pp, q);
      RouteExtend(e, st.cells, s, route, q);
      assert (route + [q])[|route + [q]| - 1] == q;
    }
  }

  /** A loop that ran out of fringe visited exactly the cells reachable
      from the start over the tiles of `base`. */
  lemma ExhaustionVisitsReachable(e: Env, s: Pos, base: seq<seq<Cell>>, fin: SearchState, order: Order)
    requires Inv(e, s, base, fin, order) && Explored(e, s, fin)
    requires Done(fin) && fin.reached.None?
    ensures VisitsAllReachable(e, base, s, fin)
  {
    VisitedIffReachable(e, s, base, fin, order);
    ReachableSetIsVisited(e, s, base, fin.cells);
  }

  /** Cell by cell: visited at exhaustion exactly when reachable. */
  lemma VisitedIffReachable(e: Env, s: Pos, base: seq<seq<Cell>>, fin: SearchState, order: Order)
    requires Inv(e, s, base, fin, order) && Explored(e, s, fin)
    requires Done(fin) && fin.reached.None?
    ensures forall t | InGrid(t, e.w, e.h) :: At(fin.cells, t).visited <==> Reachable(e, base, s, t)
  {
    StaticFlags(e, s, base, fin, order);
    RoutesAgree(e, fin.cells, base, s);
    ExhaustionCoversRoutes(e, s, fin);
    forall t | InGrid(t, e.w, e.h)
      ensures At(fin.cells, t).visited <==> Reachable(e, base, s, t)
    {
      if At(fin.cells, t).visited {
        VisitedIsReachable(e, s, base, fin, order, t);
      }
    }
  }

  /** Visited flags that agree cell by cell with reachability give the same set. */
  lemma ReachableSetIsVisited(e: Env, s: Pos, base: seq<seq<Cell>>, cells: seq<seq<Cell>>)
    requires Shaped(base, e.w, e.h) && Shaped(cells, e.w, e.h)
    requires forall t | InGrid(t, e.w, e.h) :: At(cells, t).visited <==> Reachable(e, base, s, t)
    ensures VisitedSet(cells, e.w, e.h) == ReachableSet(e, base, s)
  {
    forall t | t in VisitedSet(cells, e.w, e.h)
      ensures t in ReachableSet(e, base, s)
    {
      assert t == (t.0, t.1);
    }
    forall t | t in ReachableSet(e, base, s)
      ensures t in VisitedSet(cells, e.w, e.h)
    {
      assert t == (t.0, t.1);
    }
  }

  /** A loop that ended without a goal ran out of fringe, so no route from
      the start, over the tiles of `base`, ends at a goal-flagged cell. */
  lemma NoGoalOnRoutes(e: Env, s: Pos, base: seq<seq<Cell>>, fin: SearchState)
    requires Explored(e, s, fin) && Done(fin) && Shaped(base, e.w, e.h)
    requires forall q | InGrid(q, e.w, e.h) ::
      At(fin.cells, q).goalCell == At(base, q).goalCell && Passable(At(fin.cells, q)) == Passable(At(base, q))
    ensures fin.reached.None? ==> NoGoalReachable(e, base, s)
  {
    if fin.reached.None? {
      ExhaustionCoversRoutes(e, s, fin);
      forall route | Route(e, base, s, route)
        ensures !At(base, route[|route| - 1]).goalCell
      {
        assert Route(e, fin.cells, s, route);
      }
    }
  }

  /** With the start and goal marked, a path comes back exactly when some
      route from the start reaches `goalPos`. */
  lemma MarkedReachable(kind: Strategy, g: Grid, fin: SearchState, order: Order, path: seq<Cell>)
    requires SearchReady(g) && Marked(g)
    requires fin == Run(kind, EnvOf(g), Init(g))
    requires Inv(EnvOf(g), PosOf(g.startPos), g.cells, fin, order)
    requires PathMatches(EnvOf(g), fin, path)
    requires fin.reached.None? ==> NoGoalReachable(EnvOf(g), g.cells, PosOf(g.startPos))
    ensures |path| > 0 <==> Reachable(EnvOf(g), g.cells, PosOf(g.startPos), PosOf(g.goalPos))
  {
    var e := EnvOf(g);
    var s := PosOf(g.startPos);
    OutcomeFacts(kind, g, fin, order, path);
    if |path| > 0 {
      FoundRoute(kind, g, fin, order, path);
    }
    if Reachable(e, g.cells, s, PosOf(g.goalPos)) {
      var route :| Route(e, g.cells, s, route) && route[|route| - 1] == PosOf(g.goalPos);
      assert At(g.cells, route[|route| - 1]).goalCell;
    }
  }

  /** The positions a returned path passes through, preceded by the start
      unless the path begins there. */
  function PathRoute(s: Pos, path: seq<Cell>): (r: seq<Pos>)
    ensures |r| > 0 && r[0] == s
    ensures |r| == if |path| > 0 && PosOf(path[0]) == s then |path| else |path| + 1
  {
    if |path| > 0 && PosOf(path[0]) == s then Positions(path) else [s] + Positions(path)
  }

  /** A returned path, preceded by the start, is a route to `goalPos`. */
  lemma FoundRoute(kind: Strategy, g: Grid, fin: SearchState, order: Order, path: seq<Cell>)
    requires SearchReady(g) && Marked(g)
    requires Inv(EnvOf(g), PosOf(g.startPos), g.cells, fin, order) && Done(fin)
    requires PathMatches(EnvOf(g), fin, path) && |path| > 0
    ensures var route := PathRoute(PosOf(g.startPos), path);
      Route(EnvOf(g), g.cells, PosOf(g.startPos), route) && route[|route| - 1] == PosOf(g.goalPos)
    ensures Reachable(EnvOf(g), g.cells, PosOf(g.startPos), PosOf(g.goalPos))
  {
    var e := EnvOf(g);
    var s := PosOf(g.startPos);
    OutcomeFacts(kind, g, fin, order, path);
    var c := fin.reached.value;
    if c.parentCell.None? {
      assert PosOf(At(g.cells, s)) == s;
      assert PathRoute(s, path) == [s];
      assert Route(e, g.cells, s, [s]);
    } else {
      TraceRoute(e, s, g.cells, fin, order, path);
      assert PathRoute(s, path) == [s] + Positions(path);
    }
  }

  /** A trace back, preceded by the start, is a route over the tiles of `base`. */
  lemma TraceRoute(e: Env, s: Pos, base: seq<seq<Cell>>, fin: SearchState, order: Order, path: seq<Cell>)
    requires Inv(e, s, base, fin, order) && TracesBack(e, fin.cells, path) && |path| > 0
    ensures PosOf(path[0]) != s && Route(e, base, s, [s] + Positions(path))
  {
    TraceIsWalk(e, s, base, fin, order, path);
    assert forall i :: 0 <= i < |path| ==> path[i] == At(fin.cells, PosOf(path[i]));
    forall i | 0 <= i < |path|
      ensures Passable(At(base, PosOf(path[i])))
    {
      assert SameStatic(At(fin.cells, PosOf(path[i])), At(base, PosOf(path[i])));
    }
    RouteThrough(e, base, s, path);
  }

  /** A walk that begins next to `s`, preceded by `s`, is a route from `s`
      to the walk's last cell. */
  lemma RouteThrough(e: Env, cells: seq<seq<Cell>>, s: Pos, path: seq<Cell>)
    requires Shaped(cells, e.w, e.h) && InGrid(s, e.w, e.h)
    requires Walk(e, path) && |path| > 0 && Adjacent(s, PosOf(path[0]))
    requires forall i :: 0 <= i < |path| ==> Passable(At(cells, PosOf(path[i])))
    ensures Route(e, cells, s, [s] + Positions(path))
    ensures Reachable(e, cells, s, PosOf(path[|path| - 1]))
  {
    var route := [s] + Positions(path);
    assert forall i :: 1 <= i < |route| ==> route[i] == PosOf(path[i - 1]);
    forall i | 0 <= i < |route| - 1
      ensures Adjacent(route[i], route[i + 1])
    {
      if i > 0 {
        assert Adjacent(PosOf(path[i - 1]), PosOf(path[i]));
      }
    }
    assert Route(e, cells, s, route);
  }

  /** `DepthFirstSearch()`: the fringe is a stack. */
  method DepthFirstSearch(g: Grid) returns (path: seq<Cell>, traversed: nat, after: Grid)
    requires SearchReady(g)
    ensures SearchContract(DepthFirst, g, path, traversed, after)
  {
    path, traversed, after := Search(DepthFirst, g);
  }

  /** `BreadthFirstSearch()`: the fringe is a queue, so with the start and
      goal marked a returned path, preceded by the start, is a shortest
      route to `goalPos`. */
  method BreadthFirstSearch(g: Grid) returns (path: seq<Cell>, traversed: nat, after: Grid)
    requires SearchReady(g)
    ensures SearchContract(BreadthFirst, g, path, traversed, after)
    ensures Marked(g) && |path| > 0 ==>
      ShortestRoute(EnvOf(g), g.cells, PosOf(g.startPos), PathRoute(PosOf(g.startPos), path), PosOf(g.goalPos))
  {
    path, traversed, after := Search(BreadthFirst, g);
    if Marked(g) && |path| > 0 {
      InitInv(g);
      BreadthFirstShortest(g, Run(BreadthFirst, EnvOf(g), Init(g)), path);
    }
  }

  /** The breadth-first loop stops at the goal only after reaching it by a
      route no other route beats: every cell gets the length of a shortest
      route as its depth, and the parent links climb one depth at a time. */
  lemma BreadthFirstShortest(g: Grid, fin: SearchState, path: seq<Cell>)
    requires SearchReady(g) && Marked(g)
    requires fin == Run(BreadthFirst, EnvOf(g), Init(g))
    requires PathMatches(EnvOf(g), fin, path) && |path| > 0
    ensures ShortestRoute(EnvOf(g), g.cells, PosOf(g.startPos), PathRoute(PosOf(g.startPos), path), PosOf(g.goalPos))
  {
    var e := EnvOf(g);
    var s := PosOf(g.startPos);
    InitInv(g);
    InitLayered(g);
    var order := RunKeepsInv(BreadthFirst, e, s, g.cells, Init(g), map[]);
    var dm := BfsRun(e, s, g.cells, Init(g), map[], map[], [0]);
    OutcomeFacts(BreadthFirst, g, fin, order, path);
    FoundRoute(BreadthFirst, g, fin, order, path);
    var route := PathRoute(s, path);
    var c := fin.reached.value;
    if c.parentCell.Some? {
      assert At(fin.cells, PosOf(c)).visited && PosOf(c) == PosOf(g.goalPos);
      TraceDepth(e, s, g.cells, fin.cells, dm, path);
    }
  }

  /** Along a trace back from the goal, with depths that are shortest
      route lengths, the goal's depth is the length of the trace, so no
      route to it is shorter than the trace preceded by the start. */
  lemma TraceDepth(e: Env, s: Pos, base: seq<seq<Cell>>, cells: seq<seq<Cell>>, dm: Depths, path: seq<Cell>)
    requires Shaped(base, e.w, e.h) && Shaped(cells, e.w, e.h) && InGrid(e.goal, e.w, e.h) && InGrid(s, e.w, e.h)
    requires DepthsOk(e, s, base, cells, dm)
    requires At(cells, s).parentCell.None?
    requires forall q | InGrid(q, e.w, e.h) && At(cells, q).visited && At(cells, q).parentCell.None? :: q == s
    requires TracesBack(e, cells, path) && |path| > 0 && At(cells, PosOf(path[|path| - 1])).visited
    ensures NoShorter(e, base, s, PosOf(path[|path| - 1]), |path| + 1)
  {
    ChainDepths(e, s, cells, dm, path, 0);
    var q0 := PosOf(path[0]);
    assert At(cells, q0).parentCell.Some?;
    var s0 := At(cells, q0).parentCell.value;
    assert s0 in dm && At(cells, s0).visited;
    assert s0 == s;
    assert Route(e, base, s, [s]) && [s][0] == s;
    assert dm[s] == 0;
  }

  /** Along a trace back, each cell is one depth below the next, so cell `i`
      is `|path| - 1 - i` depths above the last. */
  lemma {:induction false} ChainDepths(e: Env, s: Pos, cells: seq<seq<Cell>>, dm: Depths, path: seq<Cell>, i: nat)
    requires Shaped(cells, e.w, e.h) && InGrid(e.goal, e.w, e.h) && InGrid(s, e.w, e.h)
    requires TracesBack(e, cells, path) && |path| > 0 && i < |path|
    requires ChainOk(e, s, cells, dm) && At(cells, s).parentCell.None?
    requires PosOf(path[|path| - 1]) in dm
    ensures PosOf(path[i]) in dm && dm[PosOf(path[i])] + (|path| - 1 - i) == dm[PosOf(path[|path| - 1])]
    decreases |path| - i
  {
    if i < |path| - 1 {
      ChainDepths(e, s, cells, dm, path, i + 1);
      var q := PosOf(path[i + 1]);
      assert At(cells, q).parentCell.Some?;
      assert q != s;
      assert ParentOneUp(e, cells, dm, q);
      assert At(cells, q).parentCell.value == PosOf(path[i]);
    }
  }

  /** `GreedySearch()`: the fringe entry of least `h` goes first. */
  method GreedySearch(g: Grid) returns (path: seq<Cell>, traversed: nat, after: Grid)
    requires SearchReady(g)
    ensures SearchContract(Greedy, g, path, traversed, after)
  {
    path, traversed, after := Search(Greedy, g);
  }

  /** `AStarSearch()`: the fringe entry of least `g + h` goes first. */
  method AStarSearch(g: Grid) returns (path: seq<Cell>, traversed: nat, after: Grid)
    requires SearchReady(g)
    ensures SearchContract(AStar, g, path, traversed, after)
  {
    path, traversed, after := Search(AStar, g);
  }

  // ---------------------------------------------------------------------
  // Determinism
  // ---------------------------------------------------------------------

  /** Two traces back from the goal agree from the goal end onwards. */
  lemma {:induction false} SuffixAligned(e: Env, cells: seq<seq<Cell>>, p1: seq<Cell>, p2: seq<Cell>, n: nat)
    requires Shaped(cells, e.w, e.h) && InGrid(e.goal, e.w, e.h)
    requires TracesBack(e, cells, p1) && TracesBack(e, cells, p2)
    requires n <= |p1| && n <= |p2|
    ensures forall i :: |p1| - n <= i < |p1| ==> p1[i] == p2[i + |p2| - |p1|]
  {
    if n > 0 {
      SuffixAligned(e, cells, p1, p2, n - 1);
      if n >= 2 {
        var a := |p1| - n;
        var b := |p2| - n;
        assert p1[a + 1] == p2[(a + 1) + |p2| - |p1|];
        assert p1[a + 1].parentCell == Some(PosOf(p1[a]));
        assert p2[b + 1].parentCell == Some(PosOf(p2[b]));
      }
    }
  }

  /** The parent links determine the trace back from the goal. */
  lemma TracesBackUnique(e: Env, cells: seq<seq<Cell>>, p1: seq<Cell>, p2: seq<Cell>)
    requires Shaped(cells, e.w, e.h) && InGrid(e.goal, e.w, e.h)
    requires TracesBack(e, cells, p1) && TracesBack(e, cells, p2)
    ensures p1 == p2
  {
    if |p1| > 0 && |p2| > 0 {
      var m := if |p1| < |p2| then |p1| else |p2|;
      SuffixAligned(e, cells, p1, p2, m);
      var k1 := |p1| - m;
      var k2 := |p2| - m;
      assert p1[k1] == p2[k2];
      assert k2 > 0 ==> p2[k2].parentCell == Some(PosOf(p2[k2 - 1]));
      assert k1 > 0 ==> p1[k1].parentCell == Some(PosOf(p1[k1 - 1]));
      assert |p1| == |p2|;
    }
  }

  /** The trace flag plays no part: searching a grid, or the same grid with
      the flag set either way, gives the same path and count. A repeated
      search of the grid a search hands back is the case `g2 == after1`. */
  lemma SearchIsDeterministic(kind: Strategy, g1: Grid, g2: Grid,
                              path1: seq<Cell>, t1: nat, after1: Grid,
                              path2: seq<Cell>, t2: nat, after2: Grid)
    requires SearchReady(g1) && g2 == g1.(displayAllTraversedCells := g2.displayAllTraversedCells)
    requires SearchContract(kind, g1, path1, t1, after1)
    requires SearchContract(kind, g2, path2, t2, after2)
    ensures path1 == path2 && t1 == t2
    ensures after2 == after1.(displayAllTraversedCells := g2.displayAllTraversedCells)
  {
    InitInv(g1);
    var e := EnvOf(g1);
    assert EnvOf(g2) == e && Init(g2) == Init(g1);
    var fin := Run(kind, e, Init(g1));
    if fin.reached.Some? && fin.reached.value.parentCell.Some? {
      TracesBackUnique(e, fin.cells, path1, path2);
    }
  }

  /** Searching again the grid a search hands back gives the same result. */
  lemma SearchIsRepeatable(kind: Strategy, g: Grid,
                           path1: seq<Cell>, t1: nat, after1: Grid,
                           path2: seq<Cell>, t2: nat, after2: Grid)
    requires SearchReady(g)
    requires SearchContract(kind, g, path1, t1, after1)
    requires SearchContract(kind, after1, path2, t2, after2)
    ensures path1 == path2 && t1 == t2 && after2 == g
  {
    SearchIsDeterministic(kind, g, after1, path1, t1, after1, path2, t2, after2);
  }
}
