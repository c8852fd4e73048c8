/** The protocol the four searches share, one loop iteration at a time: pick
    a fringe entry, discard it if it was visited, otherwise mark and count
    it, stop on a goal-flagged cell, and else give every unvisited valid
    neighbour this cell as parent and push it. */
module SearchCore {
  import opened Wrappers
  import opened Cells
  import opened Grids
  import opened Geometry

  /** Which of `DepthFirstSearch`, `BreadthFirstSearch`, `GreedySearch` and
      `AStarSearch` is running; they differ only in the entry they pick and
      in what they write into a neighbour besides its parent. */
  datatype Strategy = DepthFirst | BreadthFirst | Greedy | AStar

  /** What a search reads from the grid besides its cells: the extents and
      the position of `goalPos`. The trace flag is not part of it. */
  datatype Env = Env(w: nat, h: nat, goal: Pos)

  /** The locals of a search loop: the grid's cells, the fringe (by
      position; the C++ searches look each entry up in the grid), the count of
      traversed cells, and the copy of the goal-flagged cell once one has
      been taken off the fringe. */
  datatype SearchState = SearchState(
    cells: seq<seq<Cell>>,
    fringe: seq<Pos>,
    traversed: nat,
    reached: Option<Cell>)

  function EnvOf(g: Grid): Env
  {
    Env(g.sizeX, g.sizeY, PosOf(g.goalPos))
  }

  /** The state before the loop: the fringe holds the start cell only. */
  function Init(g: Grid): SearchState
  {
    SearchState(g.cells, [PosOf(g.startPos)], 0, None)
  }

  ghost predicate Wf(e: Env, st: SearchState)
  {
    && Shaped(st.cells, e.w, e.h)
    && CoordsMatch(st.cells, e.w, e.h)
    && InGrid(e.goal, e.w, e.h)
    && forall q :: q in st.fringe ==> InGrid(q, e.w, e.h)
  }

  /** A search loop stops when it has taken a goal-flagged cell off the
      fringe or when the fringe is empty. */
  predicate Done(st: SearchState)
  {
    st.reached.Some? || |st.fringe| == 0
  }

  // ---------------------------------------------------------------------
  // Visited cells
  // ---------------------------------------------------------------------

  ghost function AllPos(w: nat, h: nat): set<Pos>
  {
    set i, j | 0 <= i < w && 0 <= j < h :: (i, j)
  }

  ghost function VisitedSet(cells: seq<seq<Cell>>, w: nat, h: nat): set<Pos>
    requires Shaped(cells, w, h)
  {
    set i, j | 0 <= i < w && 0 <= j < h && cells[i][j].visited :: (i, j)
  }

  /** The cells not yet visited: they bound how many more cells can be expanded. */
  ghost function Pending(e: Env, cells: seq<seq<Cell>>): set<Pos>
    requires Shaped(cells, e.w, e.h)
  {
    AllPos(e.w, e.h) - VisitedSet(cells, e.w, e.h)
  }

  lemma VisitedMembership(cells: seq<seq<Cell>>, w: nat, h: nat)
    requires Shaped(cells, w, h)
    ensures forall q | InGrid(q, w, h) :: q in AllPos(w, h) && (q in VisitedSet(cells, w, h) <==> At(cells, q).visited)
    ensures forall q :: q in AllPos(w, h) ==> InGrid(q, w, h)
    ensures VisitedSet(cells, w, h) <= AllPos(w, h)
  {
    forall q | InGrid(q, w, h)
      ensures q in AllPos(w, h) && (q in VisitedSet(cells, w, h) <==> At(cells, q).visited)
    {
      assert q == (q.0, q.1);
    }
  }

  /** Two grids with the same visited flags have the same visited set. */
  lemma SameFlagsSameVisited(a: seq<seq<Cell>>, b: seq<seq<Cell>>, w: nat, h: nat)
    requires Shaped(a, w, h) && Shaped(b, w, h)
    requires forall q | InGrid(q, w, h) :: At(a, q).visited == At(b, q).visited
    ensures VisitedSet(a, w, h) == VisitedSet(b, w, h)
  {
    VisitedMembership(a, w, h);
    VisitedMembership(b, w, h);
  }

  /** Marking one unvisited cell adds exactly that cell to the visited set. */
  lemma VisitAddsOne(a: seq<seq<Cell>>, b: seq<seq<Cell>>, w: nat, h: nat, p: Pos)
    requires Shaped(a, w, h) && Shaped(b, w, h) && InGrid(p, w, h)
    requires !At(a, p).visited && At(b, p).visited
    requires forall q | InGrid(q, w, h) && q != p :: At(a, q).visited == At(b, q).visited
    ensures p !in VisitedSet(a, w, h) && p in AllPos(w, h)
    ensures VisitedSet(b, w, h) == VisitedSet(a, w, h) + {p}
  {
    VisitedMembership(a, w, h);
    VisitedMembership(b, w, h);
  }

  lemma SubsetCard(a: set<Pos>, b: set<Pos>)
    requires a <= b
    ensures |a| <= |b|
  {
    assert b == a + (b - a);
  }

  ghost function Column(x: int, h: nat): set<Pos>
  {
    set j | 0 <= j < h :: (x, j)
  }

  lemma {:induction false} ColumnCard(x: int, h: nat)
    ensures |Column(x, h)| == h
  {
    if h > 0 {
      ColumnCard(x, h - 1);
      assert Column(x, h) == Column(x, h - 1) + {(x, h - 1)};
    } else {
      assert Column(x, h) == {};
    }
  }

  /** A `w` by `h` grid has `w * h` positions. */
  lemma {:induction false} AllPosCard(w: nat, h: nat)
    ensures |AllPos(w, h)| == w * h
  {
    if w > 0 {
      var before, last := AllPos(w - 1, h), Column(w - 1, h);
      AllPosCard(w - 1, h);
      ColumnCard(w - 1, h);
      LastColumnSplits(w, h);
      assert |before + last| == |before| + |last|;
      assert (w - 1) * h + h == w * h;
    } else {
      assert AllPos(w, h) == {};
    }
  }

  /** The positions of a `w` by `h` grid are those of the first `w - 1`
      columns and, apart from them, those of the last column. */
  lemma LastColumnSplits(w: nat, h: nat)
    requires w > 0
    ensures AllPos(w, h) == AllPos(w - 1, h) + Column(w - 1, h)
    ensures AllPos(w - 1, h) !! Column(w - 1, h)
  {
    forall p | p in AllPos(w, h)
      ensures p in AllPos(w - 1, h) + Column(w - 1, h)
    {
      if p.0 < w - 1 {
        assert p in AllPos(w - 1, h);
      } else {
        assert p in Column(w - 1, h);
      }
    }
  }

  /** No more cells can be visited than the grid has. */
  lemma VisitedAtMostArea(cells: seq<seq<Cell>>, w: nat, h: nat)
    requires Shaped(cells, w, h)
    ensures |VisitedSet(cells, w, h)| <= w * h
  {
    VisitedMembership(cells, w, h);
    SubsetCard(VisitedSet(cells, w, h), AllPos(w, h));
    AllPosCard(w, h);
  }

  // ---------------------------------------------------------------------
  // Choosing the fringe entry
  // ---------------------------------------------------------------------

  /** The value an informed search minimises: `h` for the greedy search,
      `GetF()` for A*. */
  function Key(kind: Strategy, c: Cell): int
  {
    if kind == Greedy then c.h else GetF(c)
  }

  /** The keys of the fringe entries, read from the grid as the C++ searches do. */
  function Keys(kind: Strategy, cells: seq<seq<Cell>>, w: nat, h: nat, fringe: seq<Pos>): (r: seq<int>)
    requires Shaped(cells, w, h)
    requires forall q :: q in fringe ==> InGrid(q, w, h)
    ensures |r| == |fringe|
    ensures forall i :: 0 <= i < |r| ==> InGrid(fringe[i], w, h) && r[i] == Key(kind, At(cells, fringe[i]))
  {
    if |fringe| == 0 then []
    else
      assert InGrid(fringe[0], w, h);
      [Key(kind, At(cells, fringe[0]))] + Keys(kind, cells, w, h, fringe[1..])
  }

  predicate IsMinimum(keys: seq<int>, k: int)
  {
    0 <= k < |keys| && forall j :: 0 <= j < |keys| ==> keys[k] <= keys[j]
  }

  /** `k` holds the minimal key and every later entry's key is larger. */
  predicate LastMinimum(keys: seq<int>, k: int)
  {
    IsMinimum(keys, k) && forall j :: k < j < |keys| ==> keys[k] < keys[j]
  }

  /** `k` holds the minimal key and every earlier entry's key is larger. */
  predicate FirstMinimum(keys: seq<int>, k: int)
  {
    IsMinimum(keys, k) && forall j :: 0 <= j < k ==> keys[k] < keys[j]
  }

  /** The greedy scan: move to entry `i` whenever the best key so far is
      `>=` its key, so a later tie wins. */
  function ScanLast(keys: seq<int>, best: nat, i: nat): (k: nat)
    requires best < i <= |keys|
    requires forall j :: 0 <= j < i ==> keys[best] <= keys[j]
    requires forall j :: best < j < i ==> keys[best] < keys[j]
    ensures LastMinimum(keys, k)
    decreases |keys| - i
  {
    if i == |keys| then best
    else if keys[best] >= keys[i] then ScanLast(keys, i, i + 1)
    else ScanLast(keys, best, i + 1)
  }

  /** The A* scan: move to entry `i` only when the best key so far is `>`
      its key, so the earliest tie stays. */
  function ScanFirst(keys: seq<int>, best: nat, i: nat): (k: nat)
    requires best < i <= |keys|
    requires forall j :: 0 <= j < i ==> keys[best] <= keys[j]
    requires forall j :: 0 <= j < best ==> keys[best] < keys[j]
    ensures FirstMinimum(keys, k)
    decreases |keys| - i
  {
    if i == |keys| then best
    else if keys[best] > keys[i] then ScanFirst(keys, i, i + 1)
    else ScanFirst(keys, best, i + 1)
  }

  /** The position of the fringe entry each search expands next: the stack
      top, the queue front, the last entry of least `h`, the first entry of
      least `g + h`. */
  function SelectIndex(kind: Strategy, cells: seq<seq<Cell>>, w: nat, h: nat, fringe: seq<Pos>): (k: nat)
    requires Shaped(cells, w, h) && |fringe| > 0
    requires forall q :: q in fringe ==> InGrid(q, w, h)
    ensures k < |fringe|
    ensures kind == DepthFirst ==> k == |fringe| - 1
    ensures kind == BreadthFirst ==> k == 0
    ensures kind == Greedy ==> LastMinimum(Keys(kind, cells, w, h, fringe), k)
    ensures kind == AStar ==> FirstMinimum(Keys(kind, cells, w, h, fringe), k)
  {
    match kind
    case DepthFirst => |fringe| - 1
    case BreadthFirst => 0
    case Greedy => ScanLast(Keys(kind, cells, w, h, fringe), 0, 1)
    case AStar => ScanFirst(Keys(kind, cells, w, h, fringe), 0, 1)
  }

  /** The tie-breaking rules leave no choice: at most one entry is the last
      minimum and at most one is the first. */
  lemma SelectionIsUnique(keys: seq<int>, a: int, b: int)
    ensures LastMinimum(keys, a) && LastMinimum(keys, b) ==> a == b
    ensures FirstMinimum(keys, a) && FirstMinimum(keys, b) ==> a == b
  {
    if (LastMinimum(keys, a) && LastMinimum(keys, b)) || (FirstMinimum(keys, a) && FirstMinimum(keys, b)) {
      assert keys[a] <= keys[b] && keys[b] <= keys[a];
    }
  }

  // ---------------------------------------------------------------------
  // Expanding a cell
  // ---------------------------------------------------------------------

  /** What a search writes into an unvisited neighbour of the cell at `p`,
      whose `g` is `pg`: the parent link always; the truncated Euclidean
      distance to the goal as `h` for the greedy search and A*; `pg + 1` as
      `g` for A*. */
  function Relax(kind: Strategy, e: Env, c: Cell, p: Pos, pg: int): (r: Cell)
    ensures SameStatic(r, c) && r.visited == c.visited && r.parentCell == Some(p)
    ensures r.h == if kind == Greedy || kind == AStar then GetEuclidianDistance(e.w, e.h, c.x, c.y, e.goal.0, e.goal.1) else c.h
    ensures r.g == if kind == AStar then pg + 1 else c.g
  {
    match kind
    case DepthFirst => c.(parentCell := Some(p))
    case BreadthFirst => c.(parentCell := Some(p))
    case Greedy => c.(parentCell := Some(p), h := GetEuclidianDistance(e.w, e.h, c.x, c.y, e.goal.0, e.goal.1))
    case AStar => c.(parentCell := Some(p), h := GetEuclidianDistance(e.w, e.h, c.x, c.y, e.goal.0, e.goal.1), g := pg + 1)
  }

  /** The key an informed search reads off a neighbour it has just relaxed
      from a cell whose `g` is `pg`: the truncated distance to the goal for
      the greedy search, and for A* one step more than the parent's cost
      plus that distance. */
  lemma RelaxedKeys(e: Env, c: Cell, p: Pos, pg: int)
    ensures Key(Greedy, Relax(Greedy, e, c, p, pg)) == GetEuclidianDistance(e.w, e.h, c.x, c.y, e.goal.0, e.goal.1)
    ensures GetF(Relax(AStar, e, c, p, pg)) == pg + 1 + GetEuclidianDistance(e.w, e.h, c.x, c.y, e.goal.0, e.goal.1)
  {
  }

  /** The positions of the neighbours whose copy says they are unvisited,
      in neighbour order: the entries a search pushes. */
  function Unseen(nbrs: seq<Cell>): (r: seq<Pos>)
    ensures |r| <= |nbrs|
  {
    if |nbrs| == 0 then []
    else (if nbrs[0].visited then [] else [PosOf(nbrs[0])]) + Unseen(nbrs[1..])
  }

  /** A position is pushed exactly when some neighbour at it has an unvisited copy. */
  lemma UnseenMembers(nbrs: seq<Cell>)
    ensures forall i :: 0 <= i < |Unseen(nbrs)| ==>
      exists k :: 0 <= k < |nbrs| && Unseen(nbrs)[i] == PosOf(nbrs[k]) && !nbrs[k].visited
    ensures forall k :: 0 <= k < |nbrs| && !nbrs[k].visited ==> PosOf(nbrs[k]) in Unseen(nbrs)
  {
    var r := Unseen(nbrs);
    forall i | 0 <= i < |r|
      ensures exists k :: 0 <= k < |nbrs| && r[i] == PosOf(nbrs[k]) && !nbrs[k].visited
    {
      UnseenAt(nbrs, i);
    }
    UnseenComplete(nbrs);
  }

  /** The `i`-th pushed position belongs to a neighbour with an unvisited copy. */
  lemma {:induction false} UnseenAt(nbrs: seq<Cell>, i: nat)
    requires i < |Unseen(nbrs)|
    ensures exists k :: 0 <= k < |nbrs| && Unseen(nbrs)[i] == PosOf(nbrs[k]) && !nbrs[k].visited
    decreases |nbrs|
  {
    UnseenStep(nbrs);
    if nbrs[0].visited {
      UnseenAt(nbrs[1..], i);
      var k :| 0 <= k < |nbrs[1..]| && Unseen(nbrs[1..])[i] == PosOf(nbrs[1..][k]) && !nbrs[1..][k].visited;
      assert nbrs[1..][k] == nbrs[k + 1];
    } else if i == 0 {
      assert Unseen(nbrs)[0] == PosOf(nbrs[0]);
    } else {
      UnseenAt(nbrs[1..], i - 1);
      assert Unseen(nbrs)[i] == Unseen(nbrs[1..])[i - 1];
      var k :| 0 <= k < |nbrs[1..]| && Unseen(nbrs[1..])[i - 1] == PosOf(nbrs[1..][k]) && !nbrs[1..][k].visited;
      assert nbrs[1..][k] == nbrs[k + 1];
    }
  }

  /** Every neighbour with an unvisited copy has its position pushed. */
  lemma {:induction false} UnseenComplete(nbrs: seq<Cell>)
    ensures forall k :: 0 <= k < |nbrs| && !nbrs[k].visited ==> PosOf(nbrs[k]) in Unseen(nbrs)
  {
    if |nbrs| > 0 {
      UnseenComplete(nbrs[1..]);
      UnseenStep(nbrs);
      var r := Unseen(nbrs);
      assert !nbrs[0].visited ==> r[0] == PosOf(nbrs[0]);
      forall k | 1 <= k < |nbrs| && !nbrs[k].visited
        ensures PosOf(nbrs[k]) in r
      {
        assert nbrs[1..][k - 1] == nbrs[k];
      }
    }
  }

  /** The neighbour loop of a search: every neighbour whose copy is
      unvisited gets `p` as parent (overwriting any earlier parent) and the
      strategy's `h` and `g`, and is pushed; nothing else in the grid
      changes. */
  function Expand(kind: Strategy, e: Env, cells: seq<seq<Cell>>, p: Pos, nbrs: seq<Cell>, fringe: seq<Pos>)
    : (r: (seq<seq<Cell>>, seq<Pos>))
    requires Shaped(cells, e.w, e.h) && InGrid(p, e.w, e.h)
    requires forall n :: n in nbrs ==> InGrid(PosOf(n), e.w, e.h) && PosOf(n) != p
    ensures Shaped(r.0, e.w, e.h)
    ensures r.1 == fringe + Unseen(nbrs)
    decreases |nbrs|
  {
    if |nbrs| == 0 then (cells, fringe)
    else
      var q := PosOf(nbrs[0]);
      UnseenStep(nbrs);
      TailMembers(nbrs);
      assert nbrs[0] in nbrs;
      assert InGrid(q, e.w, e.h);
      if nbrs[0].visited then
        Expand(kind, e, cells, p, nbrs[1..], fringe)
      else
        var c := Relax(kind, e, At(cells, q), p, At(cells, p).g);
        var next := Update(cells, e.w, e.h, q, c);
        var r := Expand(kind, e, next, p, nbrs[1..], fringe + [q]);
        assert fringe + [q] + Unseen(nbrs[1..]) == fringe + ([q] + Unseen(nbrs[1..]));
        r
  }

  /** `Unseen` takes the first neighbour's position exactly when its copy is unvisited. */
  lemma UnseenStep(nbrs: seq<Cell>)
    requires |nbrs| > 0
    ensures nbrs[0].visited ==> Unseen(nbrs) == Unseen(nbrs[1..])
    ensures !nbrs[0].visited ==> Unseen(nbrs) == [PosOf(nbrs[0])] + Unseen(nbrs[1..])
  {
    if nbrs[0].visited {
      assert [] + Unseen(nbrs[1..]) == Unseen(nbrs[1..]);
    }
  }

  lemma TailMembers<T>(s: seq<T>)
    requires |s| > 0
    ensures forall x :: x in s[1..] ==> x in s
  {
  }

  /** The cells `Expand` writes: exactly the pushed neighbours, each relaxed
      from `p` as it stood before the loop; nothing else changes. */
  lemma {:induction false} ExpandEffect(kind: Strategy, e: Env, cells: seq<seq<Cell>>, p: Pos, nbrs: seq<Cell>, fringe: seq<Pos>)
    requires Shaped(cells, e.w, e.h) && InGrid(p, e.w, e.h)
    requires forall n :: n in nbrs ==> InGrid(PosOf(n), e.w, e.h) && PosOf(n) != p
    ensures var r := Expand(kind, e, cells, p, nbrs, fringe);
      forall q | InGrid(q, e.w, e.h) ::
        At(r.0, q) == if q in Unseen(nbrs) then Relax(kind, e, At(cells, q), p, At(cells, p).g) else At(cells, q)
    decreases |nbrs|
  {
    if |nbrs| > 0 {
      var q := PosOf(nbrs[0]);
      assert nbrs[0] in nbrs;
      assert forall n :: n in nbrs[1..] ==> n in nbrs;
      if nbrs[0].visited {
        assert Unseen(nbrs) == Unseen(nbrs[1..]);
        ExpandEffect(kind, e, cells, p, nbrs[1..], fringe);
      } else {
        var next := Update(cells, e.w, e.h, q, Relax(kind, e, At(cells, q), p, At(cells, p).g));
        assert Unseen(nbrs) == [q] + Unseen(nbrs[1..]);
        ExpandEffect(kind, e, next, p, nbrs[1..], fringe + [q]);
        ExpandHead(kind, e, cells, p, q, next, Unseen(nbrs[1..]), Expand(kind, e, next, p, nbrs[1..], fringe + [q]).0);
      }
    }
  }

  /** `Expand` keeps the cells' coordinates and pushes only positions inside the grid. */
  lemma ExpandKeepsWf(kind: Strategy, e: Env, st: SearchState, p: Pos, nbrs: seq<Cell>)
    requires Wf(e, st) && InGrid(p, e.w, e.h)
    requires forall n :: n in nbrs ==> InGrid(PosOf(n), e.w, e.h) && PosOf(n) != p
    ensures var r := Expand(kind, e, st.cells, p, nbrs, st.fringe);
      Wf(e, st.(cells := r.0, fringe := r.1))
  {
    var r := Expand(kind, e, st.cells, p, nbrs, st.fringe);
    ExpandEffect(kind, e, st.cells, p, nbrs, st.fringe);
    UnseenMembers(nbrs);
    forall q | q in r.1
      ensures InGrid(q, e.w, e.h)
    {
      if q !in st.fringe {
        var i :| 0 <= i < |Unseen(nbrs)| && Unseen(nbrs)[i] == q;
        var k :| 0 <= k < |nbrs| && q == PosOf(nbrs[k]) && !nbrs[k].visited;
        assert nbrs[k] in nbrs;
      }
    }
  }

  /** Relaxing a cell twice from the same parent is relaxing it once. */
  lemma RelaxTwice(kind: Strategy, e: Env, c: Cell, p: Pos, pg: int)
    ensures Relax(kind, e, Relax(kind, e, c, p, pg), p, pg) == Relax(kind, e, c, p, pg)
  {
  }

  /** The inductive step of `Expand`: relaxing the first pushed neighbour
      `q`, then the rest. */
  lemma ExpandHead(kind: Strategy, e: Env, cells: seq<seq<Cell>>, p: Pos, q: Pos,
                   next: seq<seq<Cell>>, later: seq<Pos>, after: seq<seq<Cell>>)
    requires Shaped(cells, e.w, e.h) && InGrid(p, e.w, e.h) && InGrid(q, e.w, e.h) && q != p
    requires next == Update(cells, e.w, e.h, q, Relax(kind, e, At(cells, q), p, At(cells, p).g))
    requires Shaped(after, e.w, e.h)
    requires forall x | InGrid(x, e.w, e.h) ::
      At(after, x) == if x in later then Relax(kind, e, At(next, x), p, At(next, p).g) else At(next, x)
    ensures forall x | InGrid(x, e.w, e.h) ::
      At(after, x) == if x in [q] + later then Relax(kind, e, At(cells, x), p, At(cells, p).g) else At(cells, x)
  {
    forall x | InGrid(x, e.w, e.h)
      ensures At(after, x) == if x in [q] + later then Relax(kind, e, At(cells, x), p, At(cells, p).g) else At(cells, x)
    {
      assert At(next, p) == At(cells, p);
      if x == q {
        RelaxTwice(kind, e, At(cells, q), p, At(cells, p).g);
      }
    }
  }

  // ---------------------------------------------------------------------
  // One iteration and the whole loop
  // ---------------------------------------------------------------------

  /** Taking the unvisited cell at `p` off the fringe, leaving `rest`:
      mark it visited and count it; stop if it is flagged as the goal, and
      otherwise expand it. */
  function Visit(kind: Strategy, e: Env, cells: seq<seq<Cell>>, p: Pos, rest: seq<Pos>, traversed: nat): (r: SearchState)
    requires Wf(e, SearchState(cells, rest, traversed, None)) && InGrid(p, e.w, e.h)
    requires !At(cells, p).visited
    ensures Wf(e, r) && r.traversed == traversed + 1
    ensures VisitedSet(r.cells, e.w, e.h) == VisitedSet(cells, e.w, e.h) + {p}
    ensures r.reached.Some? <==> At(cells, p).goalCell
    ensures r.reached.Some? ==> r.reached.value == At(cells, p) && r.fringe == rest
  {
    var cur := At(cells, p);
    var cells1 := Update(cells, e.w, e.h, p, cur.(visited := true));
    VisitAddsOne(cells, cells1, e.w, e.h, p);
    if cur.goalCell then
      SearchState(cells1, rest, traversed + 1, Some(cur))
    else
      var nbrs := GetValidNeighbors(cells1, e.w, e.h, p.0, p.1);
      var r := Expand(kind, e, cells1, p, nbrs, rest);
      ExpandKeepsWf(kind, e, SearchState(cells1, rest, traversed + 1, None), p, nbrs);
      ExpandEffect(kind, e, cells1, p, nbrs, rest);
      SameFlagsSameVisited(cells1, r.0, e.w, e.h);
      SearchState(r.0, r.1, traversed + 1, None)
  }

  /** What visiting the cell at `p` does besides counting it: `p` becomes
      visited and no other cell changes its visited flag, tile or role
      flags; the rest of the fringe stays on it; and unless the search
      stops at `p`, every passable neighbour of `p` is afterwards visited
      or on the fringe. */
  lemma VisitEffect(kind: Strategy, e: Env, cells: seq<seq<Cell>>, p: Pos, rest: seq<Pos>, traversed: nat)
    requires Wf(e, SearchState(cells, rest, traversed, None)) && InGrid(p, e.w, e.h)
    requires !At(cells, p).visited
    ensures var r := Visit(kind, e, cells, p, rest, traversed);
      && Shaped(r.cells, e.w, e.h)
      && (forall q | InGrid(q, e.w, e.h) ::
            SameStatic(At(r.cells, q), At(cells, q)) && At(r.cells, q).visited == (q == p || At(cells, q).visited))
      && (forall q :: q in rest ==> q in r.fringe)
      && (r.reached.None? ==>
            forall n | InGrid(n, e.w, e.h) && Adjacent(n, p) && Passable(At(cells, n)) ::
              At(r.cells, n).visited || n in r.fringe)
  {
    var cur := At(cells, p);
    var cells1 := Update(cells, e.w, e.h, p, cur.(visited := true));
    if !cur.goalCell {
      var nbrs := GetValidNeighbors(cells1, e.w, e.h, p.0, p.1);
      var r := Expand(kind, e, cells1, p, nbrs, rest);
      assert Visit(kind, e, cells, p, rest, traversed) == SearchState(r.0, r.1, traversed + 1, None);
      ExpandFlags(kind, e, cells, cells1, p, nbrs, rest);
      ExpandCovers(kind, e, cells, cells1, p, nbrs, rest);
    }
  }

  /** The neighbour loop changes no visited flag, tile or role flag. */
  lemma ExpandFlags(kind: Strategy, e: Env, cells: seq<seq<Cell>>, cells1: seq<seq<Cell>>, p: Pos, nbrs: seq<Cell>, rest: seq<Pos>)
    requires Shaped(cells, e.w, e.h) && InGrid(p, e.w, e.h)
    requires cells1 == Update(cells, e.w, e.h, p, At(cells, p).(visited := true))
    requires forall n :: n in nbrs ==> InGrid(PosOf(n), e.w, e.h) && PosOf(n) != p
    ensures var r := Expand(kind, e, cells1, p, nbrs, rest);
      forall q | InGrid(q, e.w, e.h) ::
        SameStatic(At(r.0, q), At(cells, q)) && At(r.0, q).visited == (q == p || At(cells, q).visited)
  {
    ExpandEffect(kind, e, cells1, p, nbrs, rest);
  }

  /** After the neighbour loop, every passable neighbour of `p` is visited or pushed. */
  lemma ExpandCovers(kind: Strategy, e: Env, cells: seq<seq<Cell>>, cells1: seq<seq<Cell>>, p: Pos, nbrs: seq<Cell>, rest: seq<Pos>)
    requires Shaped(cells, e.w, e.h) && CoordsMatch(cells, e.w, e.h) && InGrid(p, e.w, e.h)
    requires cells1 == Update(cells, e.w, e.h, p, At(cells, p).(visited := true))
    requires CoordsMatch(cells1, e.w, e.h)
    requires nbrs == GetValidNeighbors(cells1, e.w, e.h, p.0, p.1)
    ensures var r := Expand(kind, e, cells1, p, nbrs, rest);
      forall n | InGrid(n, e.w, e.h) && Adjacent(n, p) && Passable(At(cells, n)) :: At(r.0, n).visited || n in r.1
  {
    var r := Expand(kind, e, cells1, p, nbrs, rest);
    ExpandEffect(kind, e, cells1, p, nbrs, rest);
    UnseenMembers(nbrs);
    forall n | InGrid(n, e.w, e.h) && Adjacent(n, p) && Passable(At(cells, n))
      ensures At(r.0, n).visited || n in r.1
    {
      AdjacentIsCandidate(p, n);
      assert At(cells1, n) == At(cells, n);
      assert At(cells1, n) in nbrs;
      var k :| 0 <= k < |nbrs| && nbrs[k] == At(cells1, n);
      assert PosOf(nbrs[k]) == n;
    }
  }

  /** One iteration of a search loop. */
  function Step(kind: Strategy, e: Env, st: SearchState): (r: SearchState)
    requires Wf(e, st) && !Done(st)
    ensures Wf(e, r)
  {
    var p := Chosen(kind, e, st);
    var rest := Remaining(kind, e, st);
    if At(st.cells, p).visited then st.(fringe := rest)
    else Visit(kind, e, st.cells, p, rest, st.traversed)
  }

  /** The fringe entry an iteration takes out. */
  function Chosen(kind: Strategy, e: Env, st: SearchState): (p: Pos)
    requires Wf(e, st) && !Done(st)
    ensures p in st.fringe && InGrid(p, e.w, e.h)
  {
    var k := SelectIndex(kind, st.cells, e.w, e.h, st.fringe);
    assert st.fringe[k] in st.fringe;
    st.fringe[k]
  }

  /** The fringe once that entry is taken out. */
  function Remaining(kind: Strategy, e: Env, st: SearchState): (r: seq<Pos>)
    requires Wf(e, st) && !Done(st)
    ensures |r| == |st.fringe| - 1
    ensures forall q :: q in r ==> q in st.fringe
  {
    var k := SelectIndex(kind, st.cells, e.w, e.h, st.fringe);
    st.fringe[..k] + st.fringe[k + 1..]
  }

  /** Taking the chosen entry out leaves every other entry on the fringe. */
  lemma RemainingKeepsOthers(kind: Strategy, e: Env, st: SearchState)
    requires Wf(e, st) && !Done(st)
    ensures forall q :: q in st.fringe && q != Chosen(kind, e, st) ==> q in Remaining(kind, e, st)
  {
    var k := SelectIndex(kind, st.cells, e.w, e.h, st.fringe);
    assert Chosen(kind, e, st) == st.fringe[k];
    assert Remaining(kind, e, st) == st.fringe[..k] + st.fringe[k + 1..];
    DropKeepsOthers(st.fringe, k);
  }

  /** Removing the entry at `k` keeps every value other than `s[k]`. */
  lemma DropKeepsOthers<T>(s: seq<T>, k: nat)
    requires k < |s|
    ensures forall x :: x in s && x != s[k] ==> x in s[..k] + s[k + 1..]
  {
    forall x | x in s && x != s[k]
      ensures x in s[..k] + s[k + 1..]
    {
      var i :| 0 <= i < |s| && s[i] == x;
      if i < k {
        assert s[..k][i] == x;
      } else {
        assert s[k + 1..][i - k - 1] == x;
      }
    }
  }

  /** Each iteration either discards one fringe entry and changes nothing
      else, or visits one cell that was not visited before and counts it. */
  lemma StepProgress(kind: Strategy, e: Env, st: SearchState)
    requires Wf(e, st) && !Done(st)
    ensures var r := Step(kind, e, st);
      || (r.cells == st.cells && |r.fringe| == |st.fringe| - 1 && r.traversed == st.traversed && r.reached.None?)
      || (r.traversed == st.traversed + 1 && |Pending(e, r.cells)| == |Pending(e, st.cells)| - 1)
  {
    var r := Step(kind, e, st);
    var p := Chosen(kind, e, st);
    if !At(st.cells, p).visited {
      VisitedMembership(st.cells, e.w, e.h);
      PendingLosesOne(AllPos(e.w, e.h), VisitedSet(st.cells, e.w, e.h), VisitedSet(r.cells, e.w, e.h), p);
    }
  }

  lemma PendingLosesOne(all: set<Pos>, before: set<Pos>, after: set<Pos>, p: Pos)
    requires p in all && p !in before && after == before + {p}
    ensures |all - after| == |all - before| - 1
  {
    assert all - before == (all - after) + {p};
  }

  /** A search loop run to its end. */
  function Run(kind: Strategy, e: Env, st: SearchState): (r: SearchState)
    requires Wf(e, st)
    ensures Wf(e, r) && Done(r)
    decreases |Pending(e, st.cells)|, |st.fringe|
  {
    if Done(st) then st
    else
      StepProgress(kind, e, st);
      Run(kind, e, Step(kind, e, st))
  }
}
