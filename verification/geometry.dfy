/** Neighbour and distance queries of the grid. */
module Geometry {
  import opened Cells
  import opened Grids

  /** The four positions the neighbour query examines, in its order:
      west, north, east, south. */
  function Candidates(p: Pos): seq<Pos>
  {
    [(p.0 - 1, p.1), (p.0, p.1 - 1), (p.0 + 1, p.1), (p.0, p.1 + 1)]
  }

  /** Rank of the 4-neighbour `q` of `p` in the order of `Candidates(p)`. */
  function DirIndex(p: Pos, q: Pos): int
  {
    if q == (p.0 - 1, p.1) then 0
    else if q == (p.0, p.1 - 1) then 1
    else if q == (p.0 + 1, p.1) then 2
    else 3
  }

  /** The four candidates are exactly the 4-neighbours. */
  lemma AdjacentIsCandidate(p: Pos, q: Pos)
    ensures Adjacent(q, p) <==> q in Candidates(p)
  {
  }

  function Positions(cs: seq<Cell>): (r: seq<Pos>)
    ensures |r| == |cs| && forall k :: 0 <= k < |cs| ==> r[k] == PosOf(cs[k])
  {
    seq(|cs|, k requires 0 <= k < |cs| => PosOf(cs[k]))
  }

  /** One probe of the neighbour query: the cell at `q` when the probe's
      range test passes and the cell is floor or the goal. */
  function Probe(cells: seq<seq<Cell>>, w: nat, h: nat, q: Pos, inRange: bool): (r: seq<Cell>)
    requires Shaped(cells, w, h) && CoordsMatch(cells, w, h)
    requires inRange <==> InGrid(q, w, h)
    ensures |r| <= 1
    ensures |r| == 1 ==> InGrid(q, w, h) && r[0] == At(cells, q) && PosOf(r[0]) == q && Passable(r[0])
    ensures InGrid(q, w, h) && Passable(At(cells, q)) ==> r == [At(cells, q)]
  {
    if inRange && Passable(At(cells, q)) then [At(cells, q)] else []
  }

  /** `GetValidNeighbors(x, y)`: copies of the adjacent cells that are inside
      the grid and either floor or flagged as the goal, west, north, east,
      south. */
  function GetValidNeighbors(cells: seq<seq<Cell>>, w: nat, h: nat, x: int, y: int): (r: seq<Cell>)
    requires Shaped(cells, w, h) && CoordsMatch(cells, w, h) && InGrid((x, y), w, h)
    ensures |r| <= 4
    ensures forall k :: 0 <= k < |r| ==>
      && InGrid(PosOf(r[k]), w, h)
      && r[k] == At(cells, PosOf(r[k]))
      && Passable(r[k])
      && Adjacent(PosOf(r[k]), (x, y))
    ensures forall q :: q in Candidates((x, y)) && InGrid(q, w, h) && Passable(At(cells, q)) ==> At(cells, q) in r
    ensures forall k, l :: 0 <= k < l < |r| ==> DirIndex((x, y), PosOf(r[k])) < DirIndex((x, y), PosOf(r[l]))
  {
    var west := Probe(cells, w, h, (x - 1, y), x - 1 >= 0);
    var north := Probe(cells, w, h, (x, y - 1), y - 1 >= 0);
    var east := Probe(cells, w, h, (x + 1, y), x + 1 < w);
    var south := Probe(cells, w, h, (x, y + 1), y + 1 < h);
    NeighboursSound(cells, w, h, x, y, west, north, east, south);
    NeighboursComplete(cells, w, h, x, y, west, north, east, south);
    NeighboursInOrder(x, y, west, north, east, south);
    west + north + east + south
  }

  /** Each probe result, if any, is the passable in-grid cell at its position. */
  predicate ProbedAt(cells: seq<seq<Cell>>, w: nat, h: nat, q: Pos, part: seq<Cell>)
    requires Shaped(cells, w, h)
  {
    && |part| <= 1
    && (|part| == 1 ==> InGrid(q, w, h) && part[0] == At(cells, q) && PosOf(part[0]) == q && Passable(part[0]))
    && (InGrid(q, w, h) && Passable(At(cells, q)) ==> part == [At(cells, q)])
  }

  /** The concatenated probes hold only passable in-grid neighbours of (x, y). */
  lemma NeighboursSound(cells: seq<seq<Cell>>, w: nat, h: nat, x: int, y: int,
                        west: seq<Cell>, north: seq<Cell>, east: seq<Cell>, south: seq<Cell>)
    requires Shaped(cells, w, h)
    requires ProbedAt(cells, w, h, (x - 1, y), west) && ProbedAt(cells, w, h, (x, y - 1), north)
    requires ProbedAt(cells, w, h, (x + 1, y), east) && ProbedAt(cells, w, h, (x, y + 1), south)
    ensures var r := west + north + east + south;
      forall k :: 0 <= k < |r| ==>
        && InGrid(PosOf(r[k]), w, h)
        && r[k] == At(cells, PosOf(r[k]))
        && Passable(r[k])
        && Adjacent(PosOf(r[k]), (x, y))
  {
    var r := west + north + east + south;
    forall k | 0 <= k < |r|
      ensures InGrid(PosOf(r[k]), w, h) && r[k] == At(cells, PosOf(r[k])) && Passable(r[k]) && Adjacent(PosOf(r[k]), (x, y))
    {
      var a, b, c := |west|, |west| + |north|, |west| + |north| + |east|;
      if k < a {
        assert r[k] == west[0];
      } else if k < b {
        assert r[k] == north[0];
      } else if k < c {
        assert r[k] == east[0];
      } else {
        assert r[k] == south[0];
      }
    }
  }

  /** Every passable in-grid neighbour of (x, y) is among the concatenated probes. */
  lemma NeighboursComplete(cells: seq<seq<Cell>>, w: nat, h: nat, x: int, y: int,
                           west: seq<Cell>, north: seq<Cell>, east: seq<Cell>, south: seq<Cell>)
    requires Shaped(cells, w, h)
    requires ProbedAt(cells, w, h, (x - 1, y), west) && ProbedAt(cells, w, h, (x, y - 1), north)
    requires ProbedAt(cells, w, h, (x + 1, y), east) && ProbedAt(cells, w, h, (x, y + 1), south)
    ensures var r := west + north + east + south;
      forall q :: q in Candidates((x, y)) && InGrid(q, w, h) && Passable(At(cells, q)) ==> At(cells, q) in r
  {
  }

  /** Concatenating the four probes keeps their west, north, east, south order. */
  lemma NeighboursInOrder(x: int, y: int, west: seq<Cell>, north: seq<Cell>, east: seq<Cell>, south: seq<Cell>)
    requires |west| <= 1 && |north| <= 1 && |east| <= 1 && |south| <= 1
    requires |west| == 1 ==> PosOf(west[0]) == (x - 1, y)
    requires |north| == 1 ==> PosOf(north[0]) == (x, y - 1)
    requires |east| == 1 ==> PosOf(east[0]) == (x + 1, y)
    requires |south| == 1 ==> PosOf(south[0]) == (x, y + 1)
    ensures var r := west + north + east + south;
      forall k, l :: 0 <= k < l < |r| ==> DirIndex((x, y), PosOf(r[k])) < DirIndex((x, y), PosOf(r[l]))
  {
    var r := west + north + east + south;
    var idx := seq(|r|, k requires 0 <= k < |r| => DirIndex((x, y), PosOf(r[k])));
    var expected := (if |west| == 1 then [0] else []) + (if |north| == 1 then [1] else [])
      + (if |east| == 1 then [2] else []) + (if |south| == 1 then [3] else []);
    assert idx == expected;
  }

  // ---------------------------------------------------------------------
  // Distances
  // ---------------------------------------------------------------------

  /** Squared Euclidean distance. */
  function SqDist(x1: int, y1: int, x2: int, y2: int): nat
  {
    (x2 - x1) * (x2 - x1) + (y2 - y1) * (y2 - y1)
  }

  lemma SquareMonotone(a: nat, b: nat)
    requires a <= b
    ensures a * a <= b * b
  {
  }

  /** The integer square root, found by counting up from `r`. */
  function IsqrtFrom(n: nat, r: nat): (s: nat)
    requires r * r <= n
    ensures s * s <= n < (s + 1) * (s + 1)
    decreases n - r
  {
    if (r + 1) * (r + 1) > n then r
    else
      SquareMonotone(r + 1, (r + 1) * (r + 1));
      IsqrtFrom(n, r + 1)
  }

  /** The largest `s` with `s * s <= n`: the square root rounded down, which
      is what storing the floating-point root in an `int` keeps. */
  function Isqrt(n: nat): (s: nat)
    ensures s * s <= n < (s + 1) * (s + 1)
  {
    IsqrtFrom(n, 0)
  }

  /** Only one natural number has the defining property of the integer root. */
  lemma IsqrtUnique(n: nat, a: nat, b: nat)
    requires a * a <= n < (a + 1) * (a + 1)
    requires b * b <= n < (b + 1) * (b + 1)
    ensures a == b
  {
    if a < b {
      SquareMonotone(a + 1, b);
    } else if b < a {
      SquareMonotone(b + 1, a);
    }
  }

  /** The range check both distance functions open with, as written: x
      against `[0, gridSizeX)`, y against `[0, gridSizeY]`. */
  predicate ArgsAdmitted(w: nat, h: nat, x1: int, y1: int, x2: int, y2: int)
  {
    !((x1 < 0 || x1 >= w || x2 < 0 || x2 >= w) || (y1 < 0 || y1 > h || y2 < 0 || y2 > h))
  }

  /** `GetEuclidianDistance` as it lands in the integer field `h`: −1 for
      points outside the admitted range, otherwise the distance rounded down. */
  function GetEuclidianDistance(w: nat, h: nat, x1: int, y1: int, x2: int, y2: int): (d: int)
    ensures d == -1 <==> !ArgsAdmitted(w, h, x1, y1, x2, y2)
    ensures ArgsAdmitted(w, h, x1, y1, x2, y2) ==> d >= 0
    ensures d >= 0 ==> d * d <= SqDist(x1, y1, x2, y2) < (d + 1) * (d + 1)
  {
    if !ArgsAdmitted(w, h, x1, y1, x2, y2) then -1
    else Isqrt(SqDist(x1, y1, x2, y2))
  }

  /** The distance does not depend on the order of the two points, and it is
      zero exactly when they coincide. */
  lemma {:induction false} EuclidSymmetricAndDefinite(w: nat, h: nat, x1: int, y1: int, x2: int, y2: int)
    requires ArgsAdmitted(w, h, x1, y1, x2, y2)
    ensures GetEuclidianDistance(w, h, x1, y1, x2, y2) == GetEuclidianDistance(w, h, x2, y2, x1, y1)
    ensures GetEuclidianDistance(w, h, x1, y1, x2, y2) == 0 <==> x1 == x2 && y1 == y2
  {
    var n := SqDist(x1, y1, x2, y2);
    assert SqDist(x2, y2, x1, y1) == n by {
      assert (x1 - x2) * (x1 - x2) == (x2 - x1) * (x2 - x1);
      assert (y1 - y2) * (y1 - y2) == (y2 - y1) * (y2 - y1);
    }
    var d := GetEuclidianDistance(w, h, x1, y1, x2, y2);
    SqDistZero(x1, y1, x2, y2);
    if n == 0 {
      IsqrtUnique(0, d, 0);
    }
  }

  lemma SquarePositive(a: int)
    requires a != 0
    ensures a * a > 0
  {
  }

  lemma SqDistZero(x1: int, y1: int, x2: int, y2: int)
    ensures SqDist(x1, y1, x2, y2) == 0 <==> x1 == x2 && y1 == y2
  {
    if x1 != x2 {
      SquarePositive(x2 - x1);
    }
    if y1 != y2 {
      SquarePositive(y2 - y1);
    }
  }

  function Abs(v: int): nat
  {
    if v < 0 then -v else v
  }

  /** `GetManhattanDistance` as written: the y difference is not made absolute. */
  function ManhattanAsWritten(w: nat, h: nat, x1: int, y1: int, x2: int, y2: int): (d: int)
    ensures !ArgsAdmitted(w, h, x1, y1, x2, y2) ==> d == -1
    ensures ArgsAdmitted(w, h, x1, y1, x2, y2) ==> d - (y1 - y2) == Abs(x1 - x2)
  {
    if !ArgsAdmitted(w, h, x1, y1, x2, y2) then -1
    else Abs(x1 - x2) + (y1 - y2)
  }

  /** Two points in one column of a 3-by-3 grid: the written formula gives a
      negative distance one way round and a positive one the other. */
  lemma ManhattanAsWrittenIsSigned()
    ensures ManhattanAsWritten(3, 3, 1, 0, 1, 2) == -2
    ensures ManhattanAsWritten(3, 3, 1, 2, 1, 0) == 2
  {
  }

  /** The Manhattan distance the name promises: |dx| + |dy|. */
  function ManhattanDistance(w: nat, h: nat, x1: int, y1: int, x2: int, y2: int): (d: int)
    ensures !ArgsAdmitted(w, h, x1, y1, x2, y2) ==> d == -1
    ensures ArgsAdmitted(w, h, x1, y1, x2, y2) ==>
      && d >= 0
      && (d == 0 <==> x1 == x2 && y1 == y2)
      && (d == 1 <==> Adjacent((x1, y1), (x2, y2)))
  {
    if !ArgsAdmitted(w, h, x1, y1, x2, y2) then -1
    else Abs(x1 - x2) + Abs(y1 - y2)
  }

  /** Unlike the written formula, the intended distance is symmetric. */
  lemma ManhattanSymmetric(w: nat, h: nat, x1: int, y1: int, x2: int, y2: int)
    ensures ManhattanDistance(w, h, x1, y1, x2, y2) == ManhattanDistance(w, h, x2, y2, x1, y1)
  {
  }
}
