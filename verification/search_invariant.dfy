/** What every iteration of a search loop keeps true, stated over a ghost
    visit order: the iteration at which each visited cell was taken off the
    fringe. Parent links only ever point at cells visited earlier, so
    following them always ends, and it ends at the start cell. */
module SearchInvariant {
  import opened Wrappers
  import opened Cells
  import opened Grids
  import opened Geometry
  import opened SearchCore

  /** For each visited cell, the value of the traversal count just before it was visited. */
  type Order = map<Pos, nat>

  /** Tiles, coordinates and role flags are those of `base`, and a cell
      without a parent has never been given a `g` or an `h`. */
  ghost predicate StaticKept(e: Env, cells: seq<seq<Cell>>, base: seq<seq<Cell>>)
    requires Shaped(cells, e.w, e.h) && Shaped(base, e.w, e.h)
  {
    forall q | InGrid(q, e.w, e.h) ::
      && SameStatic(At(cells, q), At(base, q))
      && (At(cells, q).parentCell.None? ==> At(cells, q).g == 0 && At(cells, q).h == 0)
  }

  /** The visited cells are exactly those in the order, each ordered before
      the current count, and the count is the number of visited cells. */
  ghost predicate OrderOk(e: Env, st: SearchState, order: Order)
    requires Shaped(st.cells, e.w, e.h)
  {
    && (forall q :: q in order ==> InGrid(q, e.w, e.h) && order[q] < st.traversed)
    && (forall q | InGrid(q, e.w, e.h) :: At(st.cells, q).visited <==> q in order)
    && st.traversed == |VisitedSet(st.cells, e.w, e.h)|
  }

  /** A parent is an adjacent cell that has been visited, and it was visited
      before its child if the child has been visited too; a cell with a
      parent is one a search may step onto. */
  ghost predicate ParentsOk(e: Env, cells: seq<seq<Cell>>, order: Order)
    requires Shaped(cells, e.w, e.h)
  {
    forall q | InGrid(q, e.w, e.h) && At(cells, q).parentCell.Some? ::
      var pp := At(cells, q).parentCell.value;
      && InGrid(pp, e.w, e.h)
      && pp in order
      && Adjacent(q, pp)
      && Passable(At(cells, q))
      && (q in order ==> order[pp] < order[q])
  }

  /** The start cell never gets a parent and is the only visited cell
      without one; it is visited first; every fringe entry other than the
      start has a parent. */
  ghost predicate RootOk(e: Env, s: Pos, st: SearchState, order: Order)
    requires Shaped(st.cells, e.w, e.h) && InGrid(s, e.w, e.h)
  {
    && At(st.cells, s).parentCell.None?
    && (forall q | InGrid(q, e.w, e.h) && At(st.cells, q).visited && At(st.cells, q).parentCell.None? :: q == s)
    && (st.traversed > 0 ==> s in order)
    && (forall q | q in st.fringe && InGrid(q, e.w, e.h) :: q == s || At(st.cells, q).parentCell.Some?)
  }

  /** The goal-flagged cell a search stopped at is the copy taken just
      before it was marked visited. */
  ghost predicate ReachedOk(e: Env, st: SearchState)
    requires Shaped(st.cells, e.w, e.h)
  {
    st.reached.Some? ==>
      var c := st.reached.value;
      && InGrid(PosOf(c), e.w, e.h)
      && c.goalCell
      && At(st.cells, PosOf(c)).visited
      && c == At(st.cells, PosOf(c)).(visited := false)
  }

  ghost predicate Inv(e: Env, s: Pos, base: seq<seq<Cell>>, st: SearchState, order: Order)
  {
    && Wf(e, st)
    && Shaped(base, e.w, e.h)
    && AllReset(base, e.w, e.h)
    && InGrid(s, e.w, e.h)
    && StaticKept(e, st.cells, base)
    && OrderOk(e, st, order)
    && ParentsOk(e, st.cells, order)
    && RootOk(e, s, st, order)
    && ReachedOk(e, st)
  }

  /** A grid ready for a search satisfies the invariant before the loop,
      with nothing visited. */
  lemma InitInv(g: Grid)
    requires SearchReady(g)
    ensures Inv(EnvOf(g), PosOf(g.startPos), g.cells, Init(g), map[])
  {
    var e := EnvOf(g);
    VisitedMembership(g.cells, e.w, e.h);
    assert VisitedSet(g.cells, e.w, e.h) == {};
  }

  /** Taking an unvisited fringe entry `p` off the fringe and marking it
      visited keeps the invariant, with `p` ordered last. */
  lemma VisitKeepsInv(e: Env, s: Pos, base: seq<seq<Cell>>, st: SearchState, order: Order, p: Pos, rest: seq<Pos>)
    requires Inv(e, s, base, st, order) && st.reached.None?
    requires p in st.fringe && !At(st.cells, p).visited
    requires forall q :: q in rest ==> q in st.fringe
    ensures var cells1 := Update(st.cells, e.w, e.h, p, At(st.cells, p).(visited := true));
      && Inv(e, s, base, SearchState(cells1, rest, st.traversed + 1, None), order[p := st.traversed])
      && (At(st.cells, p).goalCell ==>
            Inv(e, s, base, SearchState(cells1, rest, st.traversed + 1, Some(At(st.cells, p))), order[p := st.traversed]))
  {
    var cur := At(st.cells, p);
    var cells1 := Update(st.cells, e.w, e.h, p, cur.(visited := true));
    var order' := order[p := st.traversed];
    var mid := SearchState(cells1, rest, st.traversed + 1, None);
    assert p !in order;
    VisitKeepsOrder(e, s, base, st, order, p, rest);
    VisitKeepsParents(e, st.cells, cells1, order, p, st.traversed);
    VisitKeepsRoot(e, s, base, st, order, p, rest);
    if cur.goalCell {
      assert ReachedOk(e, mid.(reached := Some(cur)));
    }
  }

  lemma VisitKeepsOrder(e: Env, s: Pos, base: seq<seq<Cell>>, st: SearchState, order: Order, p: Pos, rest: seq<Pos>)
    requires Inv(e, s, base, st, order)
    requires p in st.fringe && !At(st.cells, p).visited
    requires forall q :: q in rest ==> q in st.fringe
    ensures var cells1 := Update(st.cells, e.w, e.h, p, At(st.cells, p).(visited := true));
      var mid := SearchState(cells1, rest, st.traversed + 1, None);
      Wf(e, mid) && StaticKept(e, cells1, base) && OrderOk(e, mid, order[p := st.traversed])
  {
    var cells1 := Update(st.cells, e.w, e.h, p, At(st.cells, p).(visited := true));
    VisitKeepsWf(e, st, p, rest);
    VisitKeepsStatic(e, st.cells, base, p);
    VisitKeepsCount(e, st, order, p, rest);
  }

  lemma VisitKeepsWf(e: Env, st: SearchState, p: Pos, rest: seq<Pos>)
    requires Wf(e, st) && InGrid(p, e.w, e.h)
    requires forall q :: q in rest ==> q in st.fringe
    ensures var cells1 := Update(st.cells, e.w, e.h, p, At(st.cells, p).(visited := true));
      Wf(e, SearchState(cells1, rest, st.traversed + 1, None))
  {
  }

  lemma VisitKeepsStatic(e: Env, cells: seq<seq<Cell>>, base: seq<seq<Cell>>, p: Pos)
    requires Shaped(cells, e.w, e.h) && Shaped(base, e.w, e.h) && InGrid(p, e.w, e.h)
    requires StaticKept(e, cells, base)
    ensures StaticKept(e, Update(cells, e.w, e.h, p, At(cells, p).(visited := true)), base)
  {
  }

  lemma VisitKeepsCount(e: Env, st: SearchState, order: Order, p: Pos, rest: seq<Pos>)
    requires Shaped(st.cells, e.w, e.h) && InGrid(p, e.w, e.h)
    requires OrderOk(e, st, order) && !At(st.cells, p).visited
    ensures var cells1 := Update(st.cells, e.w, e.h, p, At(st.cells, p).(visited := true));
      OrderOk(e, SearchState(cells1, rest, st.traversed + 1, None), order[p := st.traversed])
  {
    var cells1 := Update(st.cells, e.w, e.h, p, At(st.cells, p).(visited := true));
    var order' := order[p := st.traversed];
    VisitAddsOne(st.cells, cells1, e.w, e.h, p);
    assert |VisitedSet(cells1, e.w, e.h)| == |VisitedSet(st.cells, e.w, e.h)| + 1;
    forall q | q in order'
      ensures InGrid(q, e.w, e.h) && order'[q] < st.traversed + 1
    {
      if q != p {
        assert q in order;
      }
    }
    forall q | InGrid(q, e.w, e.h)
      ensures At(cells1, q).visited <==> q in order'
    {
      if q != p {
        assert At(cells1, q) == At(st.cells, q);
      }
    }
  }

  lemma VisitKeepsParents(e: Env, cells: seq<seq<Cell>>, cells1: seq<seq<Cell>>, order: Order, p: Pos, t: nat)
    requires Shaped(cells, e.w, e.h) && InGrid(p, e.w, e.h)
    requires ParentsOk(e, cells, order)
    requires forall q :: q in order ==> order[q] < t
    requires p !in order
    requires cells1 == Update(cells, e.w, e.h, p, At(cells, p).(visited := true))
    ensures ParentsOk(e, cells1, order[p := t])
  {
    var order' := order[p := t];
    forall q | InGrid(q, e.w, e.h) && At(cells1, q).parentCell.Some?
      ensures var pp := At(cells1, q).parentCell.value;
        InGrid(pp, e.w, e.h) && pp in order' && Adjacent(q, pp) && Passable(At(cells1, q))
        && (q in order' ==> order'[pp] < order'[q])
    {
      var pp := At(cells1, q).parentCell.value;
      assert At(cells, q).parentCell == Some(pp);
      assert pp in order;
    }
  }

  lemma VisitKeepsRoot(e: Env, s: Pos, base: seq<seq<Cell>>, st: SearchState, order: Order, p: Pos, rest: seq<Pos>)
    requires Inv(e, s, base, st, order)
    requires p in st.fringe && !At(st.cells, p).visited
    requires forall q :: q in rest ==> q in st.fringe
    ensures var cells1 := Update(st.cells, e.w, e.h, p, At(st.cells, p).(visited := true));
      RootOk(e, s, SearchState(cells1, rest, st.traversed + 1, None), order[p := st.traversed])
  {
    var cur := At(st.cells, p);
    if cur.parentCell.Some? {
      var pp := cur.parentCell.value;
      assert pp in order;
      assert st.traversed > 0;
    }
  }

  /** Giving the unvisited neighbour `q` of the visited cell `p` its parent
      and pushing it keeps the invariant. */
  lemma PushKeepsInv(kind: Strategy, e: Env, s: Pos, base: seq<seq<Cell>>, st: SearchState, order: Order, p: Pos, q: Pos)
    requires Inv(e, s, base, st, order) && st.reached.None?
    requires InGrid(p, e.w, e.h) && p in order
    requires InGrid(q, e.w, e.h) && q != p && Adjacent(q, p)
    requires Passable(At(st.cells, q)) && !At(st.cells, q).visited
    ensures var c := Relax(kind, e, At(st.cells, q), p, At(st.cells, p).g);
      Inv(e, s, base, SearchState(Update(st.cells, e.w, e.h, q, c), st.fringe + [q], st.traversed, None), order)
  {
    var c := Relax(kind, e, At(st.cells, q), p, At(st.cells, p).g);
    var cells' := Update(st.cells, e.w, e.h, q, c);
    var st' := SearchState(cells', st.fringe + [q], st.traversed, None);
    assert s in order;
    assert q != s;
    SameFlagsSameVisited(st.cells, cells', e.w, e.h);
    assert CoordsMatch(cells', e.w, e.h);
    assert ParentsOk(e, cells', order) by {
      forall x | InGrid(x, e.w, e.h) && At(cells', x).parentCell.Some?
        ensures var pp := At(cells', x).parentCell.value;
          InGrid(pp, e.w, e.h) && pp in order && Adjacent(x, pp) && Passable(At(cells', x))
          && (x in order ==> order[pp] < order[x])
      {
        if x != q {
          assert At(cells', x) == At(st.cells, x);
        }
      }
    }
    assert RootOk(e, s, st', order) by {
      forall x | x in st'.fringe
        ensures x == s || At(cells', x).parentCell.Some?
      {
        if x != q {
          assert x in st.fringe;
        }
      }
    }
  }

  /** The whole neighbour loop keeps the invariant. */
  lemma {:induction false} ExpandKeepsInv(kind: Strategy, e: Env, s: Pos, base: seq<seq<Cell>>, st: SearchState, order: Order,
                                          p: Pos, nbrs: seq<Cell>)
    requires Inv(e, s, base, st, order) && st.reached.None?
    requires InGrid(p, e.w, e.h) && p in order
    requires forall n :: n in nbrs ==>
      && InGrid(PosOf(n), e.w, e.h) && PosOf(n) != p && Adjacent(PosOf(n), p)
      && Passable(At(st.cells, PosOf(n))) && n.visited == At(st.cells, PosOf(n)).visited
    ensures var r := Expand(kind, e, st.cells, p, nbrs, st.fringe);
      Inv(e, s, base, SearchState(r.0, r.1, st.traversed, None), order)
    decreases |nbrs|
  {
    if |nbrs| > 0 {
      var n := nbrs[0];
      var q := PosOf(n);
      assert n in nbrs;
      assert forall m :: m in nbrs[1..] ==> m in nbrs;
      if n.visited {
        assert Expand(kind, e, st.cells, p, nbrs, st.fringe) == Expand(kind, e, st.cells, p, nbrs[1..], st.fringe);
        ExpandKeepsInv(kind, e, s, base, st, order, p, nbrs[1..]);
      } else {
        var c := Relax(kind, e, At(st.cells, q), p, At(st.cells, p).g);
        var next := Update(st.cells, e.w, e.h, q, c);
        assert Expand(kind, e, st.cells, p, nbrs, st.fringe) == Expand(kind, e, next, p, nbrs[1..], st.fringe + [q]);
        PushKeepsInv(kind, e, s, base, st, order, p, q);
        var st' := SearchState(next, st.fringe + [q], st.traversed, None);
        forall m | m in nbrs[1..]
          ensures Passable(At(next, PosOf(m))) && m.visited == At(next, PosOf(m)).visited
        {
          assert m in nbrs;
        }
        ExpandKeepsInv(kind, e, s, base, st', order, p, nbrs[1..]);
      }
    }
  }

  /** Discarding a fringe entry keeps the invariant. */
  lemma DiscardKeepsInv(e: Env, s: Pos, base: seq<seq<Cell>>, st: SearchState, order: Order, rest: seq<Pos>)
    requires Inv(e, s, base, st, order)
    requires forall q :: q in rest ==> q in st.fringe
    ensures Inv(e, s, base, st.(fringe := rest), order)
  {
  }

  /** Visiting an unvisited fringe entry, and expanding it unless it is
      flagged as the goal, keeps the invariant. */
  lemma VisitStepKeepsInv(kind: Strategy, e: Env, s: Pos, base: seq<seq<Cell>>, st: SearchState, order: Order, p: Pos, rest: seq<Pos>)
    requires Inv(e, s, base, st, order) && st.reached.None?
    requires p in st.fringe && !At(st.cells, p).visited
    requires forall q :: q in rest ==> q in st.fringe
    ensures Inv(e, s, base, Visit(kind, e, st.cells, p, rest, st.traversed), order[p := st.traversed])
  {
    var order' := order[p := st.traversed];
    var cur := At(st.cells, p);
    VisitKeepsInv(e, s, base, st, order, p, rest);
    var cells1 := Update(st.cells, e.w, e.h, p, cur.(visited := true));
    if !cur.goalCell {
      var mid := SearchState(cells1, rest, st.traversed + 1, None);
      var nbrs := GetValidNeighbors(cells1, e.w, e.h, p.0, p.1);
      forall n | n in nbrs
        ensures && InGrid(PosOf(n), e.w, e.h) && PosOf(n) != p && Adjacent(PosOf(n), p)
                && Passable(At(cells1, PosOf(n))) && n.visited == At(cells1, PosOf(n)).visited
      {
        var i :| 0 <= i < |nbrs| && nbrs[i] == n;
      }
      ExpandKeepsInv(kind, e, s, base, mid, order', p, nbrs);
    }
  }

  /** One iteration keeps the invariant, for an extended visit order. */
  lemma StepKeepsInv(kind: Strategy, e: Env, s: Pos, base: seq<seq<Cell>>, st: SearchState, order: Order)
    returns (order': Order)
    requires Inv(e, s, base, st, order) && !Done(st)
    ensures Inv(e, s, base, Step(kind, e, st), order')
  {
    var p := Chosen(kind, e, st);
    var rest := Remaining(kind, e, st);
    if At(st.cells, p).visited {
      order' := order;
      DiscardKeepsInv(e, s, base, st, order, rest);
    } else {
      order' := order[p := st.traversed];
      VisitStepKeepsInv(kind, e, s, base, st, order, p, rest);
    }
  }

  /** The invariant holds when the loop ends. */
  lemma RunKeepsInv(kind: Strategy, e: Env, s: Pos, base: seq<seq<Cell>>, st: SearchState, order: Order)
    returns (order': Order)
    requires Inv(e, s, base, st, order)
    ensures Inv(e, s, base, Run(kind, e, st), order')
    decreases |Pending(e, st.cells)|, |st.fringe|
  {
    if Done(st) {
      order' := order;
    } else {
      StepProgress(kind, e, st);
      var mid := StepKeepsInv(kind, e, s, base, st, order);
      order' := RunKeepsInv(kind, e, s, base, Step(kind, e, st), mid);
    }
  }
}
