/** Why the breadth-first search returns a shortest path.

    Each visited cell gets a ghost depth, the number of steps of its parent
    chain, and each queue entry a ghost label, one more than the depth of
    the cell that pushed it. The labels never decrease along the queue and
    span at most two consecutive values, so every cell a route of fewer
    steps than the front label reaches is already visited. Every step on
    the grid changes the parity of x + y, so a cell taken off the front is
    visited at exactly the depth of its label, and no route reaches it in
    fewer steps. */
module Layers {
  import opened Wrappers
  import opened Cells
  import opened Grids
  import opened Geometry
  import opened SearchCore
  import opened SearchInvariant
  import opened SearchCoverage

  /** For each visited cell, the number of steps of its parent chain. */
  type Depths = map<Pos, nat>

  /** 0 when `q` is an even number of steps from `s`, 1 when odd. */
  function Parity(s: Pos, q: Pos): int
  {
    (q.0 + q.1 - s.0 - s.1) % 2
  }

  /** A 4-step flips the parity. */
  lemma StepFlipsParity(s: Pos, p: Pos, q: Pos)
    requires Adjacent(p, q)
    ensures Parity(s, q) == 1 - Parity(s, p)
  {
  }

  /** Some route from `s` to `q` has exactly `n` positions. */
  ghost predicate HasRoute(e: Env, base: seq<seq<Cell>>, s: Pos, q: Pos, n: nat)
    requires Shaped(base, e.w, e.h)
  {
    exists route :: Route(e, base, s, route) && route[|route| - 1] == q && |route| == n
  }

  /** No route from `s` to `q` has fewer than `n` positions. */
  ghost predicate NoShorter(e: Env, base: seq<seq<Cell>>, s: Pos, q: Pos, n: nat)
    requires Shaped(base, e.w, e.h)
  {
    forall route | Route(e, base, s, route) && route[|route| - 1] == q :: n <= |route|
  }

  /** `route` runs from `s` to `t` and no route from `s` to `t` is shorter. */
  ghost predicate ShortestRoute(e: Env, base: seq<seq<Cell>>, s: Pos, route: seq<Pos>, t: Pos)
    requires Shaped(base, e.w, e.h)
  {
    Route(e, base, s, route) && route[|route| - 1] == t && NoShorter(e, base, s, t, |route|)
  }

  /** The visited cell at `q` has a visited parent one step less deep. */
  ghost predicate ParentOneUp(e: Env, cells: seq<seq<Cell>>, dm: Depths, q: Pos)
    requires Shaped(cells, e.w, e.h) && InGrid(q, e.w, e.h)
  {
    && q in dm
    && At(cells, q).parentCell.Some?
    && At(cells, q).parentCell.value in dm
    && dm[q] == dm[At(cells, q).parentCell.value] + 1
  }

  /** The depths are exactly those of the visited cells. */
  ghost predicate DomainOk(e: Env, cells: seq<seq<Cell>>, dm: Depths)
    requires Shaped(cells, e.w, e.h)
  {
    && (forall q :: q in dm ==> InGrid(q, e.w, e.h))
    && (forall q | InGrid(q, e.w, e.h) :: At(cells, q).visited <==> q in dm)
  }

  /** No route reaches a visited cell in fewer steps than its depth. */
  ghost predicate ShortestOk(e: Env, s: Pos, base: seq<seq<Cell>>, dm: Depths)
    requires Shaped(base, e.w, e.h)
  {
    forall q :: q in dm ==> NoShorter(e, base, s, q, dm[q] + 1)
  }

  /** Below the start, depth grows by one along every parent link. */
  ghost predicate ChainOk(e: Env, s: Pos, cells: seq<seq<Cell>>, dm: Depths)
    requires Shaped(cells, e.w, e.h)
  {
    forall q :: q in dm && q != s ==> InGrid(q, e.w, e.h) && ParentOneUp(e, cells, dm, q)
  }

  /** The depths of the visited cells, each a shortest route length, and
      consistent with the parent links. */
  ghost predicate DepthsOk(e: Env, s: Pos, base: seq<seq<Cell>>, cells: seq<seq<Cell>>, dm: Depths)
    requires Shaped(base, e.w, e.h) && Shaped(cells, e.w, e.h)
  {
    DomainOk(e, cells, dm) && ShortestOk(e, s, base, dm) && ChainOk(e, s, cells, dm)
  }

  /** `n` has an entry on the queue whose label is at most `bound`. */
  ghost predicate Queued(fringe: seq<Pos>, labels: seq<nat>, n: Pos, bound: nat)
  {
    exists i :: 0 <= i < |fringe| && i < |labels| && fringe[i] == n && labels[i] <= bound
  }

  /** One label per queue entry; they never decrease, stay within one of
      the front label, and have the parity of their entry. */
  ghost predicate LabelsOk(s: Pos, fringe: seq<Pos>, labels: seq<nat>)
  {
    && |labels| == |fringe|
    && (forall i, j :: 0 <= i <= j < |labels| ==> labels[i] <= labels[j])
    && (forall i :: 0 <= i < |labels| ==> labels[i] <= labels[0] + 1 && labels[i] % 2 == Parity(s, fringe[i]))
  }

  /** Every visited cell is reached by a route as long as its depth, and
      its depth has its parity. */
  ghost predicate RoutesOk(e: Env, s: Pos, base: seq<seq<Cell>>, dm: Depths)
    requires Shaped(base, e.w, e.h)
  {
    forall q :: q in dm ==> HasRoute(e, base, s, q, dm[q] + 1) && dm[q] % 2 == Parity(s, q)
  }

  /** No visited cell is deeper than the front label, and the start is
      visited or waits at the front with label 0. */
  ghost predicate FrontOk(e: Env, s: Pos, cells: seq<seq<Cell>>, fringe: seq<Pos>, dm: Depths, labels: seq<nat>)
    requires Shaped(cells, e.w, e.h) && InGrid(s, e.w, e.h)
  {
    && (|labels| > 0 ==> forall q :: q in dm ==> dm[q] <= labels[0])
    && (At(cells, s).visited || (|labels| > 0 && |fringe| > 0 && fringe[0] == s && labels[0] == 0))
  }

  /** Every passable neighbour of a visited cell is visited, or waits on the
      queue with a label at most one more than that cell's depth. */
  ghost predicate CoverOk(e: Env, base: seq<seq<Cell>>, cells: seq<seq<Cell>>, fringe: seq<Pos>, dm: Depths, labels: seq<nat>)
    requires Shaped(base, e.w, e.h) && Shaped(cells, e.w, e.h)
  {
    forall q, n | q in dm && InGrid(n, e.w, e.h) && Adjacent(n, q) && Passable(At(base, n)) ::
      At(cells, n).visited || Queued(fringe, labels, n, dm[q] + 1)
  }

  /** The breadth-first loop's layering, while no goal has been reached. */
  ghost predicate Layered(e: Env, s: Pos, base: seq<seq<Cell>>, cells: seq<seq<Cell>>, fringe: seq<Pos>, dm: Depths, labels: seq<nat>)
    requires Shaped(base, e.w, e.h) && Shaped(cells, e.w, e.h) && InGrid(s, e.w, e.h)
  {
    && DepthsOk(e, s, base, cells, dm)
    && RoutesOk(e, s, base, dm)
    && LabelsOk(s, fringe, labels)
    && FrontOk(e, s, cells, fringe, dm, labels)
    && CoverOk(e, base, cells, fringe, dm, labels)
  }

  /** A prefix of a route is a route. */
  lemma RoutePrefix(e: Env, base: seq<seq<Cell>>, s: Pos, route: seq<Pos>, k: nat)
    requires Shaped(base, e.w, e.h) && Route(e, base, s, route) && 0 < k <= |route|
    ensures Route(e, base, s, route[..k]) && route[..k][k - 1] == route[k - 1]
  {
  }

  /** Every position on a route up to index `i`, with `i` below the front
      label, is visited: its predecessor is visited and shallow enough that
      the entry for it would already have left the queue. */
  lemma {:induction false} NearVisited(e: Env, s: Pos, base: seq<seq<Cell>>, cells: seq<seq<Cell>>, fringe: seq<Pos>,
                                       dm: Depths, labels: seq<nat>, route: seq<Pos>, i: nat)
    requires Shaped(base, e.w, e.h) && Shaped(cells, e.w, e.h) && InGrid(s, e.w, e.h)
    requires DepthsOk(e, s, base, cells, dm) && CoverOk(e, base, cells, fringe, dm, labels)
    requires |labels| > 0 && forall j :: 0 <= j < |labels| ==> labels[0] <= labels[j]
    requires At(cells, s).visited || labels[0] == 0
    requires Route(e, base, s, route) && i < |route| && i < labels[0]
    ensures At(cells, route[i]).visited
    decreases i
  {
    if i > 0 {
      NearVisited(e, s, base, cells, fringe, dm, labels, route, i - 1);
      var q, n := route[i - 1], route[i];
      assert InGrid(q, e.w, e.h);
      assert q in dm;
      NearStep(e, s, base, dm, route, i);
      assert Adjacent(n, q) && Passable(At(base, n)) && InGrid(n, e.w, e.h);
    }
  }

  /** A visited cell at index `i - 1` of a route is at most `i - 1` deep. */
  lemma NearStep(e: Env, s: Pos, base: seq<seq<Cell>>, dm: Depths, route: seq<Pos>, i: nat)
    requires Shaped(base, e.w, e.h) && Route(e, base, s, route) && 0 < i < |route|
    requires route[i - 1] in dm && NoShorter(e, base, s, route[i - 1], dm[route[i - 1]] + 1)
    ensures dm[route[i - 1]] + 1 <= i
  {
    RoutePrefix(e, base, s, route, i);
  }

  /** Every route with fewer positions than the front label plus one ends
      at a visited cell. */
  lemma CloseRoutesVisited(e: Env, s: Pos, base: seq<seq<Cell>>, cells: seq<seq<Cell>>, fringe: seq<Pos>, dm: Depths, labels: seq<nat>)
    requires Shaped(base, e.w, e.h) && Shaped(cells, e.w, e.h) && InGrid(s, e.w, e.h)
    requires DepthsOk(e, s, base, cells, dm) && CoverOk(e, base, cells, fringe, dm, labels)
    requires |labels| > 0 && forall j :: 0 <= j < |labels| ==> labels[0] <= labels[j]
    requires At(cells, s).visited || labels[0] == 0
    ensures forall route | Route(e, base, s, route) && |route| <= labels[0] :: At(cells, route[|route| - 1]).visited
  {
    forall route | Route(e, base, s, route) && |route| <= labels[0]
      ensures At(cells, route[|route| - 1]).visited
    {
      NearVisited(e, s, base, cells, fringe, dm, labels, route, |route| - 1);
    }
  }

  /** Before the loop: nothing visited, the start alone on the queue with label 0. */
  lemma InitLayered(g: Grid)
    requires SearchReady(g)
    ensures Layered(EnvOf(g), PosOf(g.startPos), g.cells, g.cells, [PosOf(g.startPos)], map[], [0])
  {
    var s := PosOf(g.startPos);
    assert Parity(s, s) == 0;
  }

  /** Dropping the front entry keeps the labels in order. */
  lemma DropLabels(s: Pos, fringe: seq<Pos>, labels: seq<nat>)
    requires LabelsOk(s, fringe, labels) && |fringe| > 0
    ensures LabelsOk(s, fringe[1..], labels[1..])
  {
    forall i | 0 <= i < |labels[1..]|
      ensures labels[1..][i] <= labels[1..][0] + 1
    {
      assert labels[0] <= labels[1];
    }
  }

  /** Dropping a front entry whose cell is visited keeps every unvisited
      neighbour of a visited cell on the queue. */
  lemma DropCover(e: Env, base: seq<seq<Cell>>, cells: seq<seq<Cell>>, fringe: seq<Pos>, dm: Depths, labels: seq<nat>)
    requires Shaped(base, e.w, e.h) && Shaped(cells, e.w, e.h)
    requires CoverOk(e, base, cells, fringe, dm, labels) && |fringe| > 0 && |labels| == |fringe|
    requires InGrid(fringe[0], e.w, e.h) && At(cells, fringe[0]).visited
    ensures CoverOk(e, base, cells, fringe[1..], dm, labels[1..])
  {
    forall q, n | q in dm && InGrid(n, e.w, e.h) && Adjacent(n, q) && Passable(At(base, n))
      ensures At(cells, n).visited || Queued(fringe[1..], labels[1..], n, dm[q] + 1)
    {
      if !At(cells, n).visited {
        assert Queued(fringe, labels, n, dm[q] + 1);
        var j :| 0 <= j < |fringe| && j < |labels| && fringe[j] == n && labels[j] <= dm[q] + 1;
        assert fringe[1..][j - 1] == n && labels[1..][j - 1] == labels[j];
      }
    }
  }

  /** Discarding the visited front entry keeps the layering. */
  lemma DiscardLayered(e: Env, s: Pos, base: seq<seq<Cell>>, st: SearchState, dm: Depths, labels: seq<nat>)
    requires Shaped(base, e.w, e.h) && Wf(e, st) && InGrid(s, e.w, e.h)
    requires Layered(e, s, base, st.cells, st.fringe, dm, labels) && |st.fringe| > 0 && At(st.cells, st.fringe[0]).visited
    ensures Layered(e, s, base, st.cells, st.fringe[1..], dm, labels[1..])
  {
    DropLabels(s, st.fringe, labels);
    DropCover(e, base, st.cells, st.fringe, dm, labels);
    DropFront(e, s, st.cells, st.fringe, dm, labels);
  }

  /** Dropping a visited front entry keeps every depth within the new
      front label, and leaves the start visited. */
  lemma DropFront(e: Env, s: Pos, cells: seq<seq<Cell>>, fringe: seq<Pos>, dm: Depths, labels: seq<nat>)
    requires Shaped(cells, e.w, e.h) && InGrid(s, e.w, e.h)
    requires FrontOk(e, s, cells, fringe, dm, labels) && LabelsOk(s, fringe, labels)
    requires |fringe| > 0 && InGrid(fringe[0], e.w, e.h) && At(cells, fringe[0]).visited
    ensures FrontOk(e, s, cells, fringe[1..], dm, labels[1..])
  {
    if |labels| > 1 {
      assert labels[0] <= labels[1] && labels[1..][0] == labels[1];
    }
  }

  /** The unvisited front entry is reached by no route shorter than its label. */
  lemma FrontNoShorter(e: Env, s: Pos, base: seq<seq<Cell>>, st: SearchState, dm: Depths, labels: seq<nat>)
    requires Shaped(base, e.w, e.h) && Wf(e, st) && InGrid(s, e.w, e.h)
    requires Layered(e, s, base, st.cells, st.fringe, dm, labels)
    requires |st.fringe| > 0 && !At(st.cells, st.fringe[0]).visited
    ensures NoShorter(e, base, s, st.fringe[0], labels[0] + 1)
  {
    var p := st.fringe[0];
    assert forall j :: 0 <= j < |labels| ==> labels[0] <= labels[j];
    assert At(st.cells, s).visited || labels[0] == 0;
    CloseRoutesVisited(e, s, base, st.cells, st.fringe, dm, labels);
    forall route | Route(e, base, s, route) && route[|route| - 1] == p
      ensures labels[0] + 1 <= |route|
    {
    }
  }

  /** A visited neighbour of the front entry is at least one label
      shallower: no deeper than the label, and of the opposite parity. */
  lemma FrontParent(e: Env, s: Pos, base: seq<seq<Cell>>, cells: seq<seq<Cell>>, dm: Depths, labels: seq<nat>, p: Pos, pp: Pos)
    requires Shaped(base, e.w, e.h) && Shaped(cells, e.w, e.h)
    requires InGrid(pp, e.w, e.h) && Adjacent(p, pp) && At(cells, pp).visited
    requires DomainOk(e, cells, dm) && RoutesOk(e, s, base, dm)
    requires |labels| > 0 && (forall q :: q in dm ==> dm[q] <= labels[0]) && labels[0] % 2 == Parity(s, p)
    ensures pp in dm && dm[pp] + 1 <= labels[0]
  {
    assert dm[pp] % 2 == Parity(s, pp);
    StepFlipsParity(s, p, pp);
  }

  /** A route to a cell, extended by one passable neighbour. */
  lemma HasRouteExtend(e: Env, s: Pos, base: seq<seq<Cell>>, pp: Pos, p: Pos, n: nat)
    requires Shaped(base, e.w, e.h) && HasRoute(e, base, s, pp, n)
    requires InGrid(p, e.w, e.h) && Passable(At(base, p)) && Adjacent(p, pp)
    ensures HasRoute(e, base, s, p, n + 1)
  {
    var route :| Route(e, base, s, route) && route[|route| - 1] == pp && |route| == n;
    RouteExtend(e, base, s, route, p);
    assert (route + [p])[|route + [p]| - 1] == p;
  }

  /** The front entry, when unvisited, is at the depth of its label: its
      parent is one label shallower, and no route reaches it in fewer steps. */
  lemma VisitDepth(e: Env, s: Pos, base: seq<seq<Cell>>, st: SearchState, order: Order, dm: Depths, labels: seq<nat>)
    requires Inv(e, s, base, st, order) && Layered(e, s, base, st.cells, st.fringe, dm, labels)
    requires |st.fringe| > 0 && !At(st.cells, st.fringe[0]).visited
    ensures var p := st.fringe[0];
      && NoShorter(e, base, s, p, labels[0] + 1)
      && HasRoute(e, base, s, p, labels[0] + 1)
      && (p == s ==> labels[0] == 0)
      && (p != s ==> At(st.cells, p).parentCell.Some? && At(st.cells, p).parentCell.value in dm
                     && dm[At(st.cells, p).parentCell.value] + 1 == labels[0])
  {
    var p := st.fringe[0];
    FrontNoShorter(e, s, base, st, dm, labels);
    if p == s {
      assert Route(e, base, s, [s]);
      assert [s][|[s]| - 1] == p;
      assert labels[0] == 0;
    } else {
      assert p in st.fringe;
      var pp := At(st.cells, p).parentCell.value;
      assert InGrid(pp, e.w, e.h) && pp in order && Adjacent(p, pp) && Passable(At(st.cells, p));
      assert SameStatic(At(st.cells, p), At(base, p));
      assert labels[0] % 2 == Parity(s, p);
      FrontParent(e, s, base, st.cells, dm, labels, p, pp);
      assert HasRoute(e, base, s, pp, dm[pp] + 1);
      HasRouteExtend(e, s, base, pp, p, dm[pp] + 1);
      var route :| Route(e, base, s, route) && route[|route| - 1] == p && |route| == dm[pp] + 2;
    }
  }

  /** Giving the newly visited cell its depth keeps the domain. */
  lemma DomainAfterVisit(e: Env, cells: seq<seq<Cell>>, cells': seq<seq<Cell>>, dm: Depths, p: Pos, d: nat)
    requires Shaped(cells, e.w, e.h) && Shaped(cells', e.w, e.h) && InGrid(p, e.w, e.h)
    requires DomainOk(e, cells, dm)
    requires forall q | InGrid(q, e.w, e.h) :: At(cells', q).visited == (q == p || At(cells, q).visited)
    ensures DomainOk(e, cells', dm[p := d])
  {
  }

  /** Giving the newly visited cell a depth no route beats keeps depths shortest. */
  lemma ShortestAfterVisit(e: Env, s: Pos, base: seq<seq<Cell>>, dm: Depths, p: Pos, d: nat)
    requires Shaped(base, e.w, e.h) && ShortestOk(e, s, base, dm) && NoShorter(e, base, s, p, d + 1)
    ensures ShortestOk(e, s, base, dm[p := d])
  {
  }

  /** Giving the newly visited cell one more than its parent's depth, with
      the parent links of visited cells untouched, keeps the chain. */
  lemma ChainAfterVisit(e: Env, s: Pos, cells: seq<seq<Cell>>, cells': seq<seq<Cell>>, dm: Depths, p: Pos, d: nat)
    requires Shaped(cells, e.w, e.h) && Shaped(cells', e.w, e.h) && InGrid(p, e.w, e.h)
    requires ChainOk(e, s, cells, dm) && p !in dm
    requires forall q :: q in dm ==> InGrid(q, e.w, e.h)
    requires forall q | InGrid(q, e.w, e.h) && (q == p || q in dm) ::
      At(cells', q).parentCell == At(cells, q).parentCell
    requires p != s ==> At(cells, p).parentCell.Some? && At(cells, p).parentCell.value in dm
                        && dm[At(cells, p).parentCell.value] + 1 == d
    ensures ChainOk(e, s, cells', dm[p := d])
  {
    var dm' := dm[p := d];
    forall q | q in dm' && q != s
      ensures InGrid(q, e.w, e.h) && ParentOneUp(e, cells', dm', q)
    {
      if q != p {
        ChainLinkKept(e, cells, cells', dm, p, d, q);
      }
    }
  }

  /** A parent link of a cell visited earlier survives the new depth. */
  lemma ChainLinkKept(e: Env, cells: seq<seq<Cell>>, cells': seq<seq<Cell>>, dm: Depths, p: Pos, d: nat, q: Pos)
    requires Shaped(cells, e.w, e.h) && Shaped(cells', e.w, e.h) && InGrid(q, e.w, e.h)
    requires ParentOneUp(e, cells, dm, q) && p !in dm
    requires At(cells', q).parentCell == At(cells, q).parentCell
    ensures ParentOneUp(e, cells', dm[p := d], q)
  {
  }

  /** Marking the front cell visited at the depth of its label, with the
      parent links of visited cells untouched, keeps the depths. */
  lemma DepthsAfterVisit(e: Env, s: Pos, base: seq<seq<Cell>>, cells: seq<seq<Cell>>, cells': seq<seq<Cell>>,
                         dm: Depths, p: Pos, d: nat)
    requires Shaped(base, e.w, e.h) && Shaped(cells, e.w, e.h) && Shaped(cells', e.w, e.h)
    requires InGrid(p, e.w, e.h) && InGrid(s, e.w, e.h)
    requires DepthsOk(e, s, base, cells, dm) && p !in dm
    requires forall q | InGrid(q, e.w, e.h) :: At(cells', q).visited == (q == p || At(cells, q).visited)
    requires forall q | InGrid(q, e.w, e.h) && (q == p || At(cells, q).visited) ::
      At(cells', q).parentCell == At(cells, q).parentCell
    requires NoShorter(e, base, s, p, d + 1)
    requires p != s ==> At(cells, p).parentCell.Some? && At(cells, p).parentCell.value in dm
                        && dm[At(cells, p).parentCell.value] + 1 == d
    ensures DepthsOk(e, s, base, cells', dm[p := d])
  {
    DomainAfterVisit(e, cells, cells', dm, p, d);
    ShortestAfterVisit(e, s, base, dm, p, d);
    ChainAfterVisit(e, s, cells, cells', dm, p, d);
  }

  /** Every position `Unseen` keeps is that of a neighbour adjacent to `p`. */
  lemma UnseenAdjacent(nbrs: seq<Cell>, p: Pos)
    requires forall k :: 0 <= k < |nbrs| ==> Adjacent(PosOf(nbrs[k]), p)
    ensures forall i :: 0 <= i < |Unseen(nbrs)| ==> Adjacent(Unseen(nbrs)[i], p)
  {
    var r := Unseen(nbrs);
    forall i | 0 <= i < |r|
      ensures Adjacent(r[i], p)
    {
      UnseenAt(nbrs, i);
    }
  }

  /** The neighbour loop leaves every visited cell as it was. */
  lemma ExpandSparesVisited(kind: Strategy, e: Env, cells: seq<seq<Cell>>, p: Pos, nbrs: seq<Cell>, rest: seq<Pos>)
    requires Shaped(cells, e.w, e.h) && InGrid(p, e.w, e.h)
    requires forall n :: n in nbrs ==> InGrid(PosOf(n), e.w, e.h) && PosOf(n) != p
    requires forall k :: 0 <= k < |nbrs| ==> InGrid(PosOf(nbrs[k]), e.w, e.h) && nbrs[k] == At(cells, PosOf(nbrs[k]))
    ensures var r := Expand(kind, e, cells, p, nbrs, rest);
      forall q | InGrid(q, e.w, e.h) && At(cells, q).visited :: At(r.0, q) == At(cells, q)
  {
    ExpandEffect(kind, e, cells, p, nbrs, rest);
    var u := Unseen(nbrs);
    forall q | InGrid(q, e.w, e.h) && At(cells, q).visited && q in u
      ensures false
    {
      var i :| 0 <= i < |u| && u[i] == q;
      UnseenAt(nbrs, i);
    }
  }

  /** What visiting a cell that is not the goal does to the queue and the
      parent links: the rest of the queue stays in front, every pushed
      entry is a neighbour of the cell, and no visited cell is re-parented. */
  lemma VisitShape(kind: Strategy, e: Env, cells: seq<seq<Cell>>, p: Pos, rest: seq<Pos>, t: nat)
    requires Wf(e, SearchState(cells, rest, t, None)) && InGrid(p, e.w, e.h)
    requires !At(cells, p).visited && !At(cells, p).goalCell
    ensures var r := Visit(kind, e, cells, p, rest, t);
      && |rest| <= |r.fringe| && r.fringe[..|rest|] == rest
      && (forall i :: |rest| <= i < |r.fringe| ==> Adjacent(r.fringe[i], p))
      && (forall q | InGrid(q, e.w, e.h) && (q == p || At(cells, q).visited) ::
            At(r.cells, q).parentCell == At(cells, q).parentCell)
  {
    var cells1 := Update(cells, e.w, e.h, p, At(cells, p).(visited := true));
    var nbrs := GetValidNeighbors(cells1, e.w, e.h, p.0, p.1);
    var x := Expand(kind, e, cells1, p, nbrs, rest);
    assert Visit(kind, e, cells, p, rest, t) == SearchState(x.0, x.1, t + 1, None);
    assert forall n :: n in nbrs ==> InGrid(PosOf(n), e.w, e.h) && PosOf(n) != p;
    UnseenAdjacent(nbrs, p);
    ExpandSparesVisited(kind, e, cells1, p, nbrs, rest);
    assert x.1 == rest + Unseen(nbrs);
    forall i | |rest| <= i < |x.1|
      ensures Adjacent(x.1[i], p)
    {
      assert x.1[i] == Unseen(nbrs)[i - |rest|];
    }
    forall q | InGrid(q, e.w, e.h) && (q == p || At(cells, q).visited)
      ensures At(x.0, q).parentCell == At(cells, q).parentCell
    {
      assert At(cells1, q).visited;
    }
  }

  /** The labels after visiting the front entry at depth `d`: the rest of
      the queue keeps its labels, and the `n` pushed entries get `d + 1`. */
  function PushLabels(labels: seq<nat>, d: nat, n: nat): (r: seq<nat>)
    requires |labels| > 0
    ensures |r| == |labels| - 1 + n
    ensures forall i :: 0 <= i < |labels| - 1 ==> r[i] == labels[i + 1]
    ensures forall i :: |labels| - 1 <= i < |r| ==> r[i] == d + 1
  {
    labels[1..] + seq(n, _ => d + 1)
  }

  /** The queue after a visit keeps the labels in order: the rest of the
      queue is unchanged in front, and every pushed entry is a neighbour of
      the visited cell, labelled one more than its depth. */
  lemma PushLabelsOk(s: Pos, fringe: seq<Pos>, labels: seq<nat>, fringe': seq<Pos>)
    requires LabelsOk(s, fringe, labels) && |fringe| > 0
    requires |fringe| - 1 <= |fringe'| && fringe'[..|fringe| - 1] == fringe[1..]
    requires forall i :: |fringe| - 1 <= i < |fringe'| ==> Adjacent(fringe'[i], fringe[0])
    ensures LabelsOk(s, fringe', PushLabels(labels, labels[0], |fringe'| - (|fringe| - 1)))
  {
    var d, m := labels[0], |fringe| - 1;
    var r := PushLabels(labels, d, |fringe'| - m);
    forall i | 0 <= i < |r|
      ensures d <= r[i] <= d + 1 && r[i] % 2 == Parity(s, fringe'[i])
    {
      if i < m {
        assert fringe'[i] == fringe'[..m][i] == fringe[i + 1];
        assert labels[0] <= labels[i + 1];
      } else {
        StepFlipsParity(s, fringe[0], fringe'[i]);
      }
    }
    forall i, j | 0 <= i <= j < |r|
      ensures r[i] <= r[j]
    {
      if j < m {
        assert labels[i + 1] <= labels[j + 1];
      }
    }
  }

  /** After a visit every depth is within the new front label, and the
      start is visited. */
  lemma PushFrontOk(e: Env, s: Pos, cells: seq<seq<Cell>>, cells': seq<seq<Cell>>, fringe: seq<Pos>, fringe': seq<Pos>,
                    dm: Depths, labels: seq<nat>)
    requires Shaped(cells, e.w, e.h) && Shaped(cells', e.w, e.h) && InGrid(s, e.w, e.h)
    requires FrontOk(e, s, cells, fringe, dm, labels) && LabelsOk(s, fringe, labels) && |fringe| > 0
    requires |fringe| - 1 <= |fringe'|
    requires forall q | InGrid(q, e.w, e.h) :: At(cells', q).visited == (q == fringe[0] || At(cells, q).visited)
    ensures FrontOk(e, s, cells', fringe', dm[fringe[0] := labels[0]], PushLabels(labels, labels[0], |fringe'| - (|fringe| - 1)))
  {
    var r := PushLabels(labels, labels[0], |fringe'| - (|fringe| - 1));
    if |r| > 0 {
      assert labels[0] <= r[0] by {
        if |fringe| > 1 {
          assert labels[0] <= labels[1];
        }
      }
    }
  }

  /** After a visit every passable neighbour of a visited cell is visited
      or queued within one more than that cell's depth: the visited cell's
      own neighbours because the visit pushed them, and the others because
      their entries stay on the queue with the same labels. */
  lemma PushCoverOk(e: Env, base: seq<seq<Cell>>, cells: seq<seq<Cell>>, cells': seq<seq<Cell>>,
                    fringe: seq<Pos>, fringe': seq<Pos>, dm: Depths, labels: seq<nat>)
    requires Shaped(base, e.w, e.h) && Shaped(cells, e.w, e.h) && Shaped(cells', e.w, e.h)
    requires CoverOk(e, base, cells, fringe, dm, labels) && |fringe| > 0 && |labels| == |fringe|
    requires forall i :: 0 <= i < |labels| ==> labels[i] <= labels[0] + 1
    requires |fringe| - 1 <= |fringe'| && fringe'[..|fringe| - 1] == fringe[1..]
    requires forall q | InGrid(q, e.w, e.h) :: At(cells', q).visited == (q == fringe[0] || At(cells, q).visited)
    requires forall n | InGrid(n, e.w, e.h) && Adjacent(n, fringe[0]) && Passable(At(base, n)) ::
      At(cells', n).visited || n in fringe'
    ensures CoverOk(e, base, cells', fringe', dm[fringe[0] := labels[0]], PushLabels(labels, labels[0], |fringe'| - (|fringe| - 1)))
  {
    var p, d, m := fringe[0], labels[0], |fringe| - 1;
    var dm', r := dm[p := d], PushLabels(labels, d, |fringe'| - m);
    forall q, n | q in dm' && InGrid(n, e.w, e.h) && Adjacent(n, q) && Passable(At(base, n))
      ensures At(cells', n).visited || Queued(fringe', r, n, dm'[q] + 1)
    {
      if !At(cells', n).visited {
        if q == p {
          var i :| 0 <= i < |fringe'| && fringe'[i] == n;
          if i < m {
            assert fringe'[..m][i] == fringe[i + 1];
          }
          assert r[i] <= d + 1;
        } else {
          assert Queued(fringe, labels, n, dm[q] + 1);
          var j :| 0 <= j < |fringe| && j < |labels| && fringe[j] == n && labels[j] <= dm[q] + 1;
          assert fringe'[..m][j - 1] == fringe[j];
          assert fringe'[j - 1] == n && r[j - 1] == labels[j];
        }
      }
    }
  }

  /** Giving the newly visited cell a depth it is reached in, of its parity,
      keeps the routes. */
  lemma RoutesAfterVisit(e: Env, s: Pos, base: seq<seq<Cell>>, dm: Depths, p: Pos, d: nat)
    requires Shaped(base, e.w, e.h) && RoutesOk(e, s, base, dm)
    requires HasRoute(e, base, s, p, d + 1) && d % 2 == Parity(s, p)
    ensures RoutesOk(e, s, base, dm[p := d])
  {
  }

  /** Marking the front entry visited at the depth of its label, pushing
      only its neighbours, covering all of its passable neighbours and
      re-parenting no visited cell keeps the layering. */
  lemma PushLayered(e: Env, s: Pos, base: seq<seq<Cell>>, cells: seq<seq<Cell>>, cells': seq<seq<Cell>>,
                    fringe: seq<Pos>, fringe': seq<Pos>, dm: Depths, labels: seq<nat>)
    requires Shaped(base, e.w, e.h) && Shaped(cells, e.w, e.h) && Shaped(cells', e.w, e.h) && InGrid(s, e.w, e.h)
    requires Layered(e, s, base, cells, fringe, dm, labels) && |fringe| > 0 && InGrid(fringe[0], e.w, e.h)
    requires !At(cells, fringe[0]).visited
    requires forall q | InGrid(q, e.w, e.h) :: At(cells', q).visited == (q == fringe[0] || At(cells, q).visited)
    requires forall q | InGrid(q, e.w, e.h) && (q == fringe[0] || At(cells, q).visited) ::
      At(cells', q).parentCell == At(cells, q).parentCell
    requires |fringe| - 1 <= |fringe'| && fringe'[..|fringe| - 1] == fringe[1..]
    requires forall i :: |fringe| - 1 <= i < |fringe'| ==> Adjacent(fringe'[i], fringe[0])
    requires forall n | InGrid(n, e.w, e.h) && Adjacent(n, fringe[0]) && Passable(At(base, n)) ::
      At(cells', n).visited || n in fringe'
    requires NoShorter(e, base, s, fringe[0], labels[0] + 1) && HasRoute(e, base, s, fringe[0], labels[0] + 1)
    requires fringe[0] != s ==> At(cells, fringe[0]).parentCell.Some? && At(cells, fringe[0]).parentCell.value in dm
                                && dm[At(cells, fringe[0]).parentCell.value] + 1 == labels[0]
    ensures Layered(e, s, base, cells', fringe', dm[fringe[0] := labels[0]],
                    PushLabels(labels, labels[0], |fringe'| - (|fringe| - 1)))
  {
    var p := fringe[0];
    assert p !in dm;
    DepthsAfterVisit(e, s, base, cells, cells', dm, p, labels[0]);
    RoutesAfterVisit(e, s, base, dm, p, labels[0]);
    PushLabelsOk(s, fringe, labels, fringe');
    PushFrontOk(e, s, cells, cells', fringe, fringe', dm, labels);
    PushCoverOk(e, base, cells, cells', fringe, fringe', dm, labels);
  }

  /** A cell is passable exactly when it is in the grid before the search. */
  lemma PassableAgrees(e: Env, cells: seq<seq<Cell>>, base: seq<seq<Cell>>)
    requires Shaped(cells, e.w, e.h) && Shaped(base, e.w, e.h) && StaticKept(e, cells, base)
    ensures forall n | InGrid(n, e.w, e.h) :: Passable(At(base, n)) == Passable(At(cells, n))
  {
  }

  /** The breadth-first iteration that visits the unvisited front entry. */
  function VisitFront(e: Env, st: SearchState): (r: SearchState)
    requires Wf(e, st) && |st.fringe| > 0 && InGrid(st.fringe[0], e.w, e.h) && !At(st.cells, st.fringe[0]).visited
    ensures Wf(e, r)
  {
    TailMembers(st.fringe);
    Visit(BreadthFirst, e, st.cells, st.fringe[0], st.fringe[1..], st.traversed)
  }

  /** Visiting the unvisited front entry, when it is not the goal, keeps
      the layering: the entry gets the depth of its label and its pushed
      neighbours one more. */
  lemma VisitLayered(e: Env, s: Pos, base: seq<seq<Cell>>, st: SearchState, order: Order, dm: Depths, labels: seq<nat>)
    requires Inv(e, s, base, st, order) && Layered(e, s, base, st.cells, st.fringe, dm, labels)
    requires |st.fringe| > 0 && InGrid(st.fringe[0], e.w, e.h)
    requires !At(st.cells, st.fringe[0]).visited && !At(st.cells, st.fringe[0]).goalCell
    ensures var r := VisitFront(e, st);
      Layered(e, s, base, r.cells, r.fringe, dm[st.fringe[0] := labels[0]],
                 PushLabels(labels, labels[0], |r.fringe| - (|st.fringe| - 1)))
  {
    var p, rest := st.fringe[0], st.fringe[1..];
    assert p in st.fringe;
    TailMembers(st.fringe);
    var r := Visit(BreadthFirst, e, st.cells, p, rest, st.traversed);
    assert r == VisitFront(e, st);
    VisitEffect(BreadthFirst, e, st.cells, p, rest, st.traversed);
    VisitShape(BreadthFirst, e, st.cells, p, rest, st.traversed);
    VisitDepth(e, s, base, st, order, dm, labels);
    PassableAgrees(e, st.cells, base);
    forall n | InGrid(n, e.w, e.h) && Adjacent(n, p) && Passable(At(base, n))
      ensures At(r.cells, n).visited || n in r.fringe
    {
    }
    PushLayered(e, s, base, st.cells, r.cells, st.fringe, r.fringe, dm, labels);
  }

  /** Visiting the unvisited front entry when it is the goal: the search
      stops and the entry gets the depth of its label. */
  lemma GoalDepths(e: Env, s: Pos, base: seq<seq<Cell>>, st: SearchState, order: Order, dm: Depths, labels: seq<nat>)
    requires Inv(e, s, base, st, order) && Layered(e, s, base, st.cells, st.fringe, dm, labels)
    requires |st.fringe| > 0 && InGrid(st.fringe[0], e.w, e.h)
    requires !At(st.cells, st.fringe[0]).visited && At(st.cells, st.fringe[0]).goalCell
    ensures DepthsOk(e, s, base, VisitFront(e, st).cells, dm[st.fringe[0] := labels[0]])
  {
    var p := st.fringe[0];
    assert p in st.fringe;
    TailMembers(st.fringe);
    var r := Visit(BreadthFirst, e, st.cells, p, st.fringe[1..], st.traversed);
    assert r == VisitFront(e, st);
    assert r.cells == Update(st.cells, e.w, e.h, p, At(st.cells, p).(visited := true));
    VisitDepth(e, s, base, st, order, dm, labels);
    DepthsAfterVisit(e, s, base, st.cells, r.cells, dm, p, labels[0]);
  }

  /** One breadth-first iteration keeps the layering, for extended depths
      and labels; if it stops at the goal, the depths still hold. */
  lemma BfsStep(e: Env, s: Pos, base: seq<seq<Cell>>, st: SearchState, order: Order, dm: Depths, labels: seq<nat>)
    returns (dm': Depths, labels': seq<nat>)
    requires Inv(e, s, base, st, order) && Layered(e, s, base, st.cells, st.fringe, dm, labels) && !Done(st)
    ensures var r := Step(BreadthFirst, e, st);
      && Shaped(r.cells, e.w, e.h)
      && (r.reached.None? ==> Layered(e, s, base, r.cells, r.fringe, dm', labels'))
      && (r.reached.Some? ==> DepthsOk(e, s, base, r.cells, dm'))
  {
    var p := st.fringe[0];
    assert p in st.fringe;
    assert Chosen(BreadthFirst, e, st) == p;
    assert Remaining(BreadthFirst, e, st) == st.fringe[1..] by {
      assert st.fringe[..0] + st.fringe[1..] == st.fringe[1..];
    }
    if At(st.cells, p).visited {
      dm', labels' := dm, labels[1..];
      DiscardLayered(e, s, base, st, dm, labels);
    } else {
      assert Step(BreadthFirst, e, st) == VisitFront(e, st);
      dm' := dm[p := labels[0]];
      labels' := PushLabels(labels, labels[0], |VisitFront(e, st).fringe| - (|st.fringe| - 1));
      if At(st.cells, p).goalCell {
        GoalDepths(e, s, base, st, order, dm, labels);
      } else {
        VisitLayered(e, s, base, st, order, dm, labels);
      }
    }
  }

  /** The breadth-first loop, run to its end from a layered state, stops
      at the goal only with depths that are shortest route lengths. */
  lemma BfsRun(e: Env, s: Pos, base: seq<seq<Cell>>, st: SearchState, order: Order, dm: Depths, labels: seq<nat>)
    returns (dm': Depths)
    requires Inv(e, s, base, st, order) && Layered(e, s, base, st.cells, st.fringe, dm, labels) && st.reached.None?
    ensures var fin := Run(BreadthFirst, e, st);
      fin.reached.Some? ==> DepthsOk(e, s, base, fin.cells, dm')
    decreases |Pending(e, st.cells)|, |st.fringe|
  {
    if Done(st) {
      dm' := dm;
    } else {
      StepProgress(BreadthFirst, e, st);
      var order1 := StepKeepsInv(BreadthFirst, e, s, base, st, order);
      var dm1, labels1 := BfsStep(e, s, base, st, order, dm, labels);
      var r := Step(BreadthFirst, e, st);
      if r.reached.Some? {
        dm' := dm1;
        assert Run(BreadthFirst, e, st) == r;
      } else {
        dm' := BfsRun(e, s, base, r, order1, dm1, labels1);
      }
    }
  }
}
