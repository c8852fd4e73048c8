/** Why a search that runs out of fringe entries has looked everywhere it
    could: every cell it expanded left each passable neighbour visited or
    waiting on the fringe, and the start cell was visited or waiting too.
    Once the fringe is empty, the visited cells are closed under stepping
    onto passable neighbours, so every route from the start stays among
    them, and none of them is flagged as the goal. */
module SearchCoverage {
  import opened Cells
  import opened Grids
  import opened SearchCore

  /** A search stops at the first goal-flagged cell it visits: while the
      loop runs no visited cell carries the goal flag, and once it has
      stopped the only one that does is the cell it stopped at. */
  ghost predicate GoalsOk(e: Env, st: SearchState)
    requires Shaped(st.cells, e.w, e.h)
  {
    forall q | InGrid(q, e.w, e.h) && At(st.cells, q).visited && At(st.cells, q).goalCell ::
      st.reached.Some? && q == PosOf(st.reached.value)
  }

  /** Every visited cell not flagged as the goal has been expanded: each
      passable neighbour is visited or on the fringe. */
  ghost predicate FrontierOk(e: Env, st: SearchState)
    requires Shaped(st.cells, e.w, e.h)
  {
    forall q, n | && InGrid(q, e.w, e.h) && InGrid(n, e.w, e.h) && Adjacent(n, q)
                  && At(st.cells, q).visited && !At(st.cells, q).goalCell && Passable(At(st.cells, n)) ::
      At(st.cells, n).visited || n in st.fringe
  }

  ghost predicate Explored(e: Env, s: Pos, st: SearchState)
  {
    && Wf(e, st)
    && InGrid(s, e.w, e.h)
    && (At(st.cells, s).visited || s in st.fringe)
    && GoalsOk(e, st)
    && FrontierOk(e, st)
  }

  /** Before the loop nothing is visited and the start is on the fringe. */
  lemma InitExplored(g: Grid)
    requires SearchReady(g)
    ensures Explored(EnvOf(g), PosOf(g.startPos), Init(g))
  {
  }

  /** Discarding a visited entry keeps the frontier: the entries that stay
      are all still there. */
  lemma DiscardKeepsExplored(e: Env, s: Pos, st: SearchState, p: Pos, rest: seq<Pos>)
    requires Explored(e, s, st) && InGrid(p, e.w, e.h) && At(st.cells, p).visited
    requires forall q :: q in rest ==> q in st.fringe
    requires forall q :: q in st.fringe && q != p ==> q in rest
    ensures Explored(e, s, st.(fringe := rest))
  {
  }

  /** Visiting an unvisited entry keeps the frontier: the visited cell is
      either the goal, where the loop stops, or expanded. */
  lemma VisitKeepsExplored(kind: Strategy, e: Env, s: Pos, st: SearchState, p: Pos, rest: seq<Pos>)
    requires Explored(e, s, st) && st.reached.None?
    requires InGrid(p, e.w, e.h) && !At(st.cells, p).visited
    requires forall q :: q in rest ==> q in st.fringe
    requires forall q :: q in st.fringe && q != p ==> q in rest
    ensures Explored(e, s, Visit(kind, e, st.cells, p, rest, st.traversed))
  {
    var r := Visit(kind, e, st.cells, p, rest, st.traversed);
    VisitEffect(kind, e, st.cells, p, rest, st.traversed);
    assert GoalsOk(e, r) by {
      forall q | InGrid(q, e.w, e.h) && At(r.cells, q).visited && At(r.cells, q).goalCell
        ensures r.reached.Some? && q == PosOf(r.reached.value)
      {
        assert q == p;
        assert PosOf(At(st.cells, p)) == p;
      }
    }
    assert FrontierOk(e, r) by {
      forall q, n | && InGrid(q, e.w, e.h) && InGrid(n, e.w, e.h) && Adjacent(n, q)
                    && At(r.cells, q).visited && !At(r.cells, q).goalCell && Passable(At(r.cells, n))
        ensures At(r.cells, n).visited || n in r.fringe
      {
        assert Passable(At(st.cells, n));
        if q != p {
          assert At(st.cells, q).visited;
          assert At(st.cells, n).visited || n == p || n in rest;
        }
      }
    }
  }

  /** One iteration keeps the frontier. */
  lemma StepKeepsExplored(kind: Strategy, e: Env, s: Pos, st: SearchState)
    requires Explored(e, s, st) && !Done(st)
    ensures Explored(e, s, Step(kind, e, st))
  {
    var p := Chosen(kind, e, st);
    var rest := Remaining(kind, e, st);
    RemainingKeepsOthers(kind, e, st);
    if At(st.cells, p).visited {
      DiscardKeepsExplored(e, s, st, p, rest);
    } else {
      VisitKeepsExplored(kind, e, s, st, p, rest);
    }
  }

  /** The frontier holds when the loop ends. */
  lemma RunKeepsExplored(kind: Strategy, e: Env, s: Pos, st: SearchState)
    requires Explored(e, s, st)
    ensures Explored(e, s, Run(kind, e, st))
    decreases |Pending(e, st.cells)|, |st.fringe|
  {
    if !Done(st) {
      StepProgress(kind, e, st);
      StepKeepsExplored(kind, e, s, st);
      RunKeepsExplored(kind, e, s, Step(kind, e, st));
    }
  }

  /** A route from `s`: it starts at `s`, stays inside the grid, moves
      between 4-adjacent positions, and after `s` steps only onto cells a
      search may step onto. */
  ghost predicate Route(e: Env, cells: seq<seq<Cell>>, s: Pos, route: seq<Pos>)
    requires Shaped(cells, e.w, e.h)
  {
    && |route| > 0 && route[0] == s
    && (forall i :: 0 <= i < |route| ==> InGrid(route[i], e.w, e.h) && (i > 0 ==> Passable(At(cells, route[i]))))
    && (forall i :: 0 <= i < |route| - 1 ==> Adjacent(route[i], route[i + 1]))
  }

  /** Some route from `s` ends at `t`. */
  ghost predicate Reachable(e: Env, cells: seq<seq<Cell>>, s: Pos, t: Pos)
    requires Shaped(cells, e.w, e.h)
  {
    exists route :: Route(e, cells, s, route) && route[|route| - 1] == t
  }

  /** The positions some route from `s` reaches. */
  ghost function ReachableSet(e: Env, cells: seq<seq<Cell>>, s: Pos): set<Pos>
    requires Shaped(cells, e.w, e.h)
  {
    set i, j | 0 <= i < e.w && 0 <= j < e.h && Reachable(e, cells, s, (i, j)) :: (i, j)
  }

  /** A route followed by one more step onto a passable 4-neighbour is a route. */
  lemma RouteExtend(e: Env, cells: seq<seq<Cell>>, s: Pos, route: seq<Pos>, q: Pos)
    requires Shaped(cells, e.w, e.h) && Route(e, cells, s, route)
    requires InGrid(q, e.w, e.h) && Passable(At(cells, q)) && Adjacent(route[|route| - 1], q)
    ensures Route(e, cells, s, route + [q])
  {
    var r := route + [q];
    assert forall i :: 0 <= i < |route| ==> r[i] == route[i];
  }

  /** Routes depend only on which cells are passable. */
  lemma RoutesAgree(e: Env, a: seq<seq<Cell>>, b: seq<seq<Cell>>, s: Pos)
    requires Shaped(a, e.w, e.h) && Shaped(b, e.w, e.h)
    requires forall q | InGrid(q, e.w, e.h) :: Passable(At(a, q)) == Passable(At(b, q))
    ensures forall route :: Route(e, a, s, route) <==> Route(e, b, s, route)
    ensures forall t :: Reachable(e, a, s, t) <==> Reachable(e, b, s, t)
  {
  }

  /** No route from `s` ends at a goal-flagged cell. */
  ghost predicate NoGoalReachable(e: Env, cells: seq<seq<Cell>>, s: Pos)
    requires Shaped(cells, e.w, e.h)
  {
    forall route | Route(e, cells, s, route) :: !At(cells, route[|route| - 1]).goalCell
  }

  /** When the fringe has run out without reaching a goal-flagged cell,
      every position on a route from the start up to index `i` is visited. */
  lemma {:induction false} RouteVisitedUpTo(e: Env, s: Pos, fin: SearchState, route: seq<Pos>, i: nat)
    requires Explored(e, s, fin) && fin.reached.None? && |fin.fringe| == 0
    requires Route(e, fin.cells, s, route) && i < |route|
    ensures At(fin.cells, route[i]).visited
    decreases i
  {
    if i > 0 {
      RouteVisitedUpTo(e, s, fin, route, i - 1);
      var q, n := route[i - 1], route[i];
      assert InGrid(q, e.w, e.h) && InGrid(n, e.w, e.h) && Adjacent(q, n) && Passable(At(fin.cells, n));
      assert !At(fin.cells, q).goalCell;
      assert Adjacent(n, q);
    }
  }

  /** A search whose fringe ran out visited every cell a route from the
      start can reach, and none of them is flagged as the goal. */
  lemma ExhaustionCoversRoutes(e: Env, s: Pos, fin: SearchState)
    requires Explored(e, s, fin) && fin.reached.None? && |fin.fringe| == 0
    ensures forall route | Route(e, fin.cells, s, route) ::
      At(fin.cells, route[|route| - 1]).visited && !At(fin.cells, route[|route| - 1]).goalCell
  {
    forall route | Route(e, fin.cells, s, route)
      ensures At(fin.cells, route[|route| - 1]).visited && !At(fin.cells, route[|route| - 1]).goalCell
    {
      RouteVisitedUpTo(e, s, fin, route, |route| - 1);
    }
  }
}
