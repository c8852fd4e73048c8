/** The `Grid`: its extents, its cells indexed [x][y], the cached start and
    goal cells, and the lifecycle operations that build and edit it. */
module Grids {
  import opened Wrappers
  import opened Cells

  /** `startPos` and `goalPos` are copies of cells, as in `Grid.h`; only
      their coordinates are used to locate the marked cells. */
  datatype Grid = Grid(
    sizeX: nat,
    sizeY: nat,
    cells: seq<seq<Cell>>,
    startPos: Cell,
    goalPos: Cell,
    displayAllTraversedCells: bool)

  predicate InGrid(p: Pos, w: int, h: int)
  {
    0 <= p.0 < w && 0 <= p.1 < h
  }

  /** `cells` has `w` columns of `h` cells each. */
  predicate Shaped(cells: seq<seq<Cell>>, w: nat, h: nat)
  {
    |cells| == w && forall i :: 0 <= i < w ==> |cells[i]| == h
  }

  function At(cells: seq<seq<Cell>>, p: Pos): Cell
    requires 0 <= p.0 < |cells| && 0 <= p.1 < |cells[p.0]|
  {
    cells[p.0][p.1]
  }

  /** Every cell records its own coordinates. */
  ghost predicate CoordsMatch(cells: seq<seq<Cell>>, w: nat, h: nat)
    requires Shaped(cells, w, h)
  {
    forall p | InGrid(p, w, h) :: PosOf(At(cells, p)) == p
  }

  /** The cell storage agrees with the recorded extents. */
  predicate Sized(g: Grid)
  {
    Shaped(g.cells, g.sizeX, g.sizeY)
  }

  ghost predicate WellShaped(g: Grid)
  {
    Sized(g) && CoordsMatch(g.cells, g.sizeX, g.sizeY)
  }

  /** Exactly one cell carries the start flag, the one at `startPos`, and
      exactly one carries the goal flag, the one at `goalPos`. */
  ghost predicate Marked(g: Grid)
    requires Sized(g)
  {
    && (forall q | InGrid(q, g.sizeX, g.sizeY) :: At(g.cells, q).startCell <==> q == PosOf(g.startPos))
    && (forall q | InGrid(q, g.sizeX, g.sizeY) :: At(g.cells, q).goalCell <==> q == PosOf(g.goalPos))
  }

  /** No cell carries any search bookkeeping. */
  ghost predicate AllReset(cells: seq<seq<Cell>>, w: nat, h: nat)
    requires Shaped(cells, w, h)
  {
    forall q | InGrid(q, w, h) :: IsReset(At(cells, q))
  }

  /** What a search needs of the grid: consistent storage, no leftover search
      state, and start and goal positions inside the grid. */
  ghost predicate SearchReady(g: Grid)
  {
    && WellShaped(g)
    && AllReset(g.cells, g.sizeX, g.sizeY)
    && InGrid(PosOf(g.startPos), g.sizeX, g.sizeY)
    && InGrid(PosOf(g.goalPos), g.sizeX, g.sizeY)
  }

  /** The state every grid built and edited through the operations below is in. */
  ghost predicate Valid(g: Grid)
  {
    SearchReady(g) && Marked(g)
  }

  /** Replaces the cell at `p`. */
  function Update(cells: seq<seq<Cell>>, w: nat, h: nat, p: Pos, c: Cell): (r: seq<seq<Cell>>)
    requires Shaped(cells, w, h) && InGrid(p, w, h)
    ensures Shaped(r, w, h)
    ensures forall q | InGrid(q, w, h) :: At(r, q) == if q == p then c else At(cells, q)
  {
    cells[p.0 := cells[p.0][p.1 := c]]
  }

  predicate OnBorder(p: Pos, w: int, h: int)
  {
    p.0 == 0 || p.0 == w - 1 || p.1 == 0 || p.1 == h - 1
  }

  /** The tile a resize (and the first pass of `PepperWalls`) gives a position. */
  function BorderTile(p: Pos, w: int, h: int): Tile
  {
    if OnBorder(p, w, h) then Wall else Floor
  }

  // ---------------------------------------------------------------------
  // Construction
  // ---------------------------------------------------------------------

  /** The field defaults of the class, before any constructor body runs. */
  function DefaultGrid(): (r: Grid)
    ensures !r.displayAllTraversedCells
    ensures r.sizeX == 2 && r.sizeY == 2 && r.cells == []
    ensures r.startPos == NewCell() && r.goalPos == NewCell()
  {
    Grid(2, 2, [], NewCell(), NewCell(), false)
  }

  /** `ResizeGrid(x, y)`: a blank x-by-y grid with a wall border and a floor
      interior. The cached start and goal cells are left as they were. */
  function ResizeGrid(g: Grid, x: nat, y: nat): (r: Grid)
    ensures r.sizeX == x && r.sizeY == y && WellShaped(r)
    ensures forall p | InGrid(p, x, y) :: At(r.cells, p).tileType == (if OnBorder(p, x, y) then Wall else Floor)
    ensures forall p | InGrid(p, x, y) :: !At(r.cells, p).startCell && !At(r.cells, p).goalCell
    ensures AllReset(r.cells, x, y)
    ensures r.startPos == g.startPos && r.goalPos == g.goalPos
    ensures r.displayAllTraversedCells == g.displayAllTraversedCells
  {
    var cells := seq(x, i requires 0 <= i < x =>
      seq(y, j requires 0 <= j < y => NewCellAt(i, j).(tileType := BorderTile((i, j), x, y))));
    g.(sizeX := x, sizeY := y, cells := cells)
  }

  /** `ResizeGrid(x)`: the square case. */
  function ResizeSquare(g: Grid, x: nat): (r: Grid)
    ensures r.sizeX == x && r.sizeY == x && WellShaped(r)
    ensures forall p | InGrid(p, x, x) :: At(r.cells, p).tileType == (if OnBorder(p, x, x) then Wall else Floor)
    ensures forall p | InGrid(p, x, x) :: !At(r.cells, p).startCell && !At(r.cells, p).goalCell
    ensures AllReset(r.cells, x, x)
    ensures r.startPos == g.startPos && r.goalPos == g.goalPos
    ensures r.displayAllTraversedCells == g.displayAllTraversedCells
  {
    ResizeGrid(g, x, x)
  }

  /** One `rand() % (size - 2) + 1` draw: a coordinate strictly inside the border. */
  function DrawCoord(d: nat, size: nat): (c: int)
    requires size >= 3
    ensures 1 <= c <= size - 2
  {
    d % (size - 2) + 1
  }

  function DrawPos(d: (nat, nat), w: nat, h: nat): (p: Pos)
    requires w >= 3 && h >= 3
    ensures InGrid(p, w, h) && !OnBorder(p, w, h)
  {
    (DrawCoord(d.0, w), DrawCoord(d.1, h))
  }

  /** The retry loop of `SetRandomStartGoal`: the index, from `k` on, of the
      first goal draw that lands away from the start, if there is one. */
  function FirstDistinct(draws: seq<(nat, nat)>, w: nat, h: nat, start: Pos, k: nat): (r: Option<nat>)
    requires w >= 3 && h >= 3 && k <= |draws|
    ensures r.Some? ==> k <= r.value < |draws| && DrawPos(draws[r.value], w, h) != start
    ensures r.Some? ==> forall j :: k <= j < r.value ==> DrawPos(draws[j], w, h) == start
    ensures r.None? ==> forall j :: k <= j < |draws| ==> DrawPos(draws[j], w, h) == start
    decreases |draws| - k
  {
    if k == |draws| then None
    else if DrawPos(draws[k], w, h) != start then Some(k)
    else FirstDistinct(draws, w, h, start, k + 1)
  }

  /** `SetRandomStartGoal` with the random draws supplied: the start comes
      from `startDraw`, the goal from the first of `goalDraws` that differs
      from it. `None` when every supplied goal draw repeats the start (the
      C++ loop keeps drawing). Existing flags are not cleared. */
  function SetRandomStartGoal(g: Grid, startDraw: (nat, nat), goalDraws: seq<(nat, nat)>): (r: Option<Grid>)
    requires WellShaped(g) && g.sizeX >= 3 && g.sizeY >= 3
    ensures r.None? <==>
      forall j :: 0 <= j < |goalDraws| ==> DrawPos(goalDraws[j], g.sizeX, g.sizeY) == DrawPos(startDraw, g.sizeX, g.sizeY)
    ensures r.Some? ==>
      var s, t, w, h := PosOf(r.value.startPos), PosOf(r.value.goalPos), g.sizeX, g.sizeY;
      && s == DrawPos(startDraw, w, h)
      && InGrid(s, w, h) && !OnBorder(s, w, h)
      && InGrid(t, w, h) && !OnBorder(t, w, h)
      && s != t
      && (exists k :: 0 <= k < |goalDraws| && t == DrawPos(goalDraws[k], w, h)
           && forall j :: 0 <= j < k ==> DrawPos(goalDraws[j], w, h) == s)
      && r.value.startPos == NewCellAt(s.0, s.1)
      && r.value.goalPos == NewCellAt(t.0, t.1)
      && r.value == g.(cells := r.value.cells, startPos := r.value.startPos, goalPos := r.value.goalPos)
      && Shaped(r.value.cells, w, h)
      && forall q | InGrid(q, w, h) ::
           At(r.value.cells, q) == At(g.cells, q).(startCell := At(g.cells, q).startCell || q == s,
                                                   goalCell := At(g.cells, q).goalCell || q == t)
  {
    var w, h := g.sizeX, g.sizeY;
    var s := DrawPos(startDraw, w, h);
    match FirstDistinct(goalDraws, w, h, s, 0)
    case None => None
    case Some(k) =>
      var t := DrawPos(goalDraws[k], w, h);
      var c1 := Update(g.cells, w, h, s, At(g.cells, s).(startCell := true));
      var c2 := Update(c1, w, h, t, At(c1, t).(goalCell := true));
      Some(g.(cells := c2, startPos := NewCellAt(s.0, s.1), goalPos := NewCellAt(t.0, t.1)))
  }

  /** What a constructor builds from its draws: a valid `x` by `y` grid
      with a wall border and a floor interior, the start at the start draw,
      the goal at the first goal draw away from it (both strictly inside
      the border), and the trace flag off. */
  ghost predicate Placed(g: Grid, x: nat, y: nat, startDraw: (nat, nat), goalDraws: seq<(nat, nat)>)
    requires x >= 3 && y >= 3
  {
    var s, t := PosOf(g.startPos), PosOf(g.goalPos);
    && Valid(g) && g.sizeX == x && g.sizeY == y
    && (forall p | InGrid(p, x, y) :: At(g.cells, p).tileType == (if OnBorder(p, x, y) then Wall else Floor))
    && s == DrawPos(startDraw, x, y) && !OnBorder(s, x, y)
    && s != t && !OnBorder(t, x, y)
    && (exists k :: 0 <= k < |goalDraws| && t == DrawPos(goalDraws[k], x, y)
          && forall j :: 0 <= j < k ==> DrawPos(goalDraws[j], x, y) == s)
    && !g.displayAllTraversedCells
  }

  /** The constructors `Grid(x, y)` and `Grid(x)`: resize, then place a
      random start and goal. */
  function NewGrid(x: nat, y: nat, startDraw: (nat, nat), goalDraws: seq<(nat, nat)>): (r: Option<Grid>)
    requires x >= 3 && y >= 3
    ensures r.None? <==> forall j :: 0 <= j < |goalDraws| ==> DrawPos(goalDraws[j], x, y) == DrawPos(startDraw, x, y)
    ensures r.Some? ==> Placed(r.value, x, y, startDraw, goalDraws)
  {
    var blank := ResizeGrid(DefaultGrid(), x, y);
    var r := SetRandomStartGoal(blank, startDraw, goalDraws);
    if r.Some? then
      FreshPlacementIsValid(blank, startDraw, goalDraws);
      r
    else
      r
  }

  /** Placing start and goal on a freshly resized grid gives a valid grid. */
  lemma FreshPlacementIsValid(g: Grid, startDraw: (nat, nat), goalDraws: seq<(nat, nat)>)
    requires WellShaped(g) && g.sizeX >= 3 && g.sizeY >= 3
    requires AllReset(g.cells, g.sizeX, g.sizeY)
    requires forall q | InGrid(q, g.sizeX, g.sizeY) :: !At(g.cells, q).startCell && !At(g.cells, q).goalCell
    requires SetRandomStartGoal(g, startDraw, goalDraws).Some?
    ensures Valid(SetRandomStartGoal(g, startDraw, goalDraws).value)
  {
  }

  /** The default constructor `Grid()`: a 10-by-10 grid. */
  function NewDefaultGrid(startDraw: (nat, nat), goalDraws: seq<(nat, nat)>): (r: Option<Grid>)
    ensures r.None? <==> forall j :: 0 <= j < |goalDraws| ==> DrawPos(goalDraws[j], 10, 10) == DrawPos(startDraw, 10, 10)
    ensures r.Some? ==> Placed(r.value, 10, 10, startDraw, goalDraws)
  {
    NewGrid(10, 10, startDraw, goalDraws)
  }

  // ---------------------------------------------------------------------
  // Bounds-checked access
  // ---------------------------------------------------------------------

  /** The bounds test of the accessors and mutators, with a strict upper bound. */
  predicate InBounds(g: Grid, x: int, y: int)
  {
    InGrid((x, y), g.sizeX, g.sizeY)
  }

  /** The bounds test as `Grid.cpp` writes it: `x > gridSizeX` and
      `y > gridSizeY` reject, so `x == gridSizeX` and `y == gridSizeY` pass. */
  predicate AdmittedAsWritten(g: Grid, x: int, y: int)
  {
    !(x < 0 || x > g.sizeX || y < 0 || y > g.sizeY)
  }

  /** The test as written lets through a column index one past the end of the storage. */
  lemma AsWrittenAdmitsOnePastEnd(g: Grid)
    requires Sized(g)
    ensures AdmittedAsWritten(g, g.sizeX, 0) && g.sizeX >= |g.cells|
  {
  }

  /** The strict test admits exactly the indexable positions. */
  lemma {:induction false} InBoundsIsIndexable(g: Grid, x: int, y: int)
    requires Sized(g) && g.sizeX > 0
    ensures InBounds(g, x, y) <==> 0 <= x < |g.cells| && 0 <= y < |g.cells[0]|
    ensures InBounds(g, x, y) ==> AdmittedAsWritten(g, x, y)
  {
    assert |g.cells[0]| == g.sizeY;
  }

  /** `SetCell(x, y, tile)`: writes the tile of one in-bounds cell and
      reports whether it did. */
  function SetCell(g: Grid, x: int, y: int, tile: Tile): (r: (bool, Grid))
    requires Sized(g)
    ensures r.0 <==> InBounds(g, x, y)
    ensures !r.0 ==> r.1 == g
    ensures r.0 ==>
      && r.1 == g.(cells := r.1.cells)
      && Shaped(r.1.cells, g.sizeX, g.sizeY)
      && At(r.1.cells, (x, y)) == At(g.cells, (x, y)).(tileType := tile)
      && forall q | InGrid(q, g.sizeX, g.sizeY) && q != (x, y) :: At(r.1.cells, q) == At(g.cells, q)
  {
    if !InBounds(g, x, y) then (false, g)
    else
      var c := At(g.cells, (x, y));
      (true, g.(cells := Update(g.cells, g.sizeX, g.sizeY, (x, y), c.(tileType := tile))))
  }

  /** `SetCell(Cell, Tile)` as written: it stores the tile of the cell
      argument and ignores the `tile` argument. */
  function SetCellFrom(g: Grid, cell: Cell, tile: Tile): (r: (bool, Grid))
    requires Sized(g)
    ensures r.0 <==> InBounds(g, cell.x, cell.y)
    ensures !r.0 ==> r.1 == g
    ensures r.0 ==> r.1 == g.(cells := r.1.cells) && Sized(r.1)
    ensures r.0 ==> At(r.1.cells, (cell.x, cell.y)) == At(g.cells, (cell.x, cell.y)).(tileType := cell.tileType)
    ensures r.0 ==> forall q | InGrid(q, g.sizeX, g.sizeY) && q != (cell.x, cell.y) :: At(r.1.cells, q) == At(g.cells, q)
  {
    SetCell(g, cell.x, cell.y, cell.tileType)
  }

  /** `SetCell(Cell, Tile)` as its declaration describes it: the cell at the
      argument's coordinates receives `tile`. */
  function SetCellFromIntended(g: Grid, cell: Cell, tile: Tile): (r: (bool, Grid))
    requires Sized(g)
    ensures r.0 <==> InBounds(g, cell.x, cell.y)
    ensures !r.0 ==> r.1 == g
    ensures r.0 ==> r.1 == g.(cells := r.1.cells) && Sized(r.1)
    ensures r.0 ==> At(r.1.cells, (cell.x, cell.y)) == At(g.cells, (cell.x, cell.y)).(tileType := tile)
    ensures r.0 ==> forall q | InGrid(q, g.sizeX, g.sizeY) && q != (cell.x, cell.y) :: At(r.1.cells, q) == At(g.cells, q)
  {
    SetCell(g, cell.x, cell.y, tile)
  }

  /** Asking for a wall with a floor-typed cell argument reports success and
      leaves the floor in place. */
  lemma SetCellFromIgnoresTile(g: Grid)
    requires Sized(g) && g.sizeX > 0 && g.sizeY > 0
    ensures var r := SetCellFrom(g, NewCell(), Wall);
      r.0 && At(r.1.cells, (0, 0)).tileType == Floor
  {
  }

  /** `GetCell(x, y)`: the cell at an in-bounds position, a blank `Cell()` otherwise. */
  function GetCell(g: Grid, x: int, y: int): (c: Cell)
    requires Sized(g)
    ensures InBounds(g, x, y) ==> c == At(g.cells, (x, y))
    ensures !InBounds(g, x, y) ==> c == NewCell()
  {
    if InBounds(g, x, y) then At(g.cells, (x, y)) else NewCell()
  }

  /** `GetCell(Cell)`: the same lookup at the argument's coordinates. */
  function GetCellFrom(g: Grid, cell: Cell): (c: Cell)
    requires Sized(g)
    ensures InBounds(g, cell.x, cell.y) ==> c == At(g.cells, (cell.x, cell.y))
    ensures !InBounds(g, cell.x, cell.y) ==> c == NewCell()
  {
    GetCell(g, cell.x, cell.y)
  }

  /** Reading back after a write: an accepted write is seen at its position
      and nowhere else; a rejected one reads as a blank cell. */
  lemma SetThenGet(g: Grid, x: int, y: int, t: Tile, u: int, v: int)
    requires Sized(g)
    ensures var r := SetCell(g, x, y, t);
      && (r.0 ==> GetCell(r.1, x, y).tileType == t)
      && (!r.0 ==> GetCell(r.1, x, y) == NewCell())
      && ((u, v) != (x, y) ==> GetCell(r.1, u, v) == GetCell(g, u, v))
  {
  }

  /** `SetCell` keeps a grid valid: it touches only a tile. */
  lemma SetCellKeepsValid(g: Grid, x: int, y: int, t: Tile)
    requires Valid(g)
    ensures Valid(SetCell(g, x, y, t).1)
  {
  }

  // ---------------------------------------------------------------------
  // Start and goal
  // ---------------------------------------------------------------------

  /** `GetStartPos()`: the cached start cell, which locates the start-flagged cell. */
  function GetStartPos(g: Grid): (c: Cell)
    ensures Valid(g) ==> InGrid(PosOf(c), g.sizeX, g.sizeY) && At(g.cells, PosOf(c)).startCell
    ensures Valid(g) ==> forall q | InGrid(q, g.sizeX, g.sizeY) && At(g.cells, q).startCell :: q == PosOf(c)
  {
    g.startPos
  }

  /** `GetGoalPos()`: the cached goal cell, which locates the goal-flagged cell. */
  function GetGoalPos(g: Grid): (c: Cell)
    ensures Valid(g) ==> InGrid(PosOf(c), g.sizeX, g.sizeY) && At(g.cells, PosOf(c)).goalCell
    ensures Valid(g) ==> forall q | InGrid(q, g.sizeX, g.sizeY) && At(g.cells, q).goalCell :: q == PosOf(c)
  {
    g.goalPos
  }

  /** `SetStartPos(x, y)`: clears the flag at the old start, caches a copy of
      the cell at (x, y) as the start and flags it. Out of bounds: no change. */
  function SetStartPos(g: Grid, x: int, y: int): (r: Grid)
    requires WellShaped(g)
    requires InBounds(g, x, y) ==> InGrid(PosOf(g.startPos), g.sizeX, g.sizeY)
    ensures !InBounds(g, x, y) ==> r == g
    ensures InBounds(g, x, y) ==>
      && r == g.(cells := r.cells, startPos := r.startPos)
      && WellShaped(r)
      && PosOf(r.startPos) == (x, y)
      && r.startPos == At(r.cells, (x, y)).(startCell := r.startPos.startCell)
      && forall q | InGrid(q, g.sizeX, g.sizeY) ::
           At(r.cells, q) == At(g.cells, q).(startCell :=
             if q == (x, y) then true else if q == PosOf(g.startPos) then false else At(g.cells, q).startCell)
  {
    if !InBounds(g, x, y) then g
    else
      var prev := PosOf(g.startPos);
      var c1 := Update(g.cells, g.sizeX, g.sizeY, prev, At(g.cells, prev).(startCell := false));
      var copy := At(c1, (x, y));
      var c2 := Update(c1, g.sizeX, g.sizeY, (x, y), copy.(startCell := true));
      g.(cells := c2, startPos := copy)
  }

  /** `SetGoalPos(x, y)`: the same relocation for the goal. */
  function SetGoalPos(g: Grid, x: int, y: int): (r: Grid)
    requires WellShaped(g)
    requires InBounds(g, x, y) ==> InGrid(PosOf(g.goalPos), g.sizeX, g.sizeY)
    ensures !InBounds(g, x, y) ==> r == g
    ensures InBounds(g, x, y) ==>
      && r == g.(cells := r.cells, goalPos := r.goalPos)
      && WellShaped(r)
      && PosOf(r.goalPos) == (x, y)
      && r.goalPos == At(r.cells, (x, y)).(goalCell := r.goalPos.goalCell)
      && forall q | InGrid(q, g.sizeX, g.sizeY) ::
           At(r.cells, q) == At(g.cells, q).(goalCell :=
             if q == (x, y) then true else if q == PosOf(g.goalPos) then false else At(g.cells, q).goalCell)
  {
    if !InBounds(g, x, y) then g
    else
      var prev := PosOf(g.goalPos);
      var c1 := Update(g.cells, g.sizeX, g.sizeY, prev, At(g.cells, prev).(goalCell := false));
      var copy := At(c1, (x, y));
      var c2 := Update(c1, g.sizeX, g.sizeY, (x, y), copy.(goalCell := true));
      g.(cells := c2, goalPos := copy)
  }

  /** Relocating keeps exactly one start and one goal flag, and the getters
      then report the new position. */
  lemma RelocationKeepsValid(g: Grid, x: int, y: int)
    requires Valid(g)
    ensures Valid(SetStartPos(g, x, y)) && Valid(SetGoalPos(g, x, y))
    ensures InBounds(g, x, y) ==> PosOf(GetStartPos(SetStartPos(g, x, y))) == (x, y)
    ensures InBounds(g, x, y) ==> PosOf(GetGoalPos(SetGoalPos(g, x, y))) == (x, y)
  {
  }

  // ---------------------------------------------------------------------
  // Wall scattering
  // ---------------------------------------------------------------------

  /** First pass of `PepperWalls`: border to wall, interior to floor. */
  function Refloor(cells: seq<seq<Cell>>, w: nat, h: nat): (r: seq<seq<Cell>>)
    requires Shaped(cells, w, h)
    ensures Shaped(r, w, h)
    ensures forall q | InGrid(q, w, h) :: At(r, q) == At(cells, q).(tileType := BorderTile(q, w, h))
  {
    seq(w, i requires 0 <= i < w =>
      seq(h, j requires 0 <= j < h => cells[i][j].(tileType := BorderTile((i, j), w, h))))
  }

  /** Second pass: an interior cell becomes a wall when its draw modulo 100 is below 25. */
  function Scatter(cells: seq<seq<Cell>>, w: nat, h: nat, roll: Pos -> nat): (r: seq<seq<Cell>>)
    requires Shaped(cells, w, h)
    ensures Shaped(r, w, h)
    ensures forall q | InGrid(q, w, h) ::
      At(r, q) == if !OnBorder(q, w, h) && roll(q) % 100 < 25 then At(cells, q).(tileType := Wall) else At(cells, q)
  {
    seq(w, i requires 0 <= i < w =>
      seq(h, j requires 0 <= j < h =>
        if !OnBorder((i, j), w, h) && roll((i, j)) % 100 < 25 then cells[i][j].(tileType := Wall) else cells[i][j]))
  }

  /** `PepperWalls` with the draw for each interior cell supplied by `roll`. */
  function PepperWalls(g: Grid, roll: Pos -> nat): (r: Grid)
    requires Sized(g)
    ensures r == g.(cells := r.cells) && Sized(r)
    ensures forall q | InGrid(q, g.sizeX, g.sizeY) ::
      && SameStatic(At(r.cells, q).(tileType := At(g.cells, q).tileType), At(g.cells, q))
      && At(r.cells, q).tileType == (if OnBorder(q, g.sizeX, g.sizeY) || roll(q) % 100 < 25 then Wall else Floor)
      && At(r.cells, q) == At(g.cells, q).(tileType := At(r.cells, q).tileType)
  {
    g.(cells := Scatter(Refloor(g.cells, g.sizeX, g.sizeY), g.sizeX, g.sizeY, roll))
  }

  /** Scattering walls keeps a grid valid: flags and bookkeeping are untouched. */
  lemma PepperWallsKeepsValid(g: Grid, roll: Pos -> nat)
    requires Valid(g)
    ensures Valid(PepperWalls(g, roll))
  {
  }

  // ---------------------------------------------------------------------
  // Search bookkeeping and the trace flag
  // ---------------------------------------------------------------------

  /** Every cell's `visited`, parent, `g` and `h` back at their defaults. */
  function ResetCells(cells: seq<seq<Cell>>, w: nat, h: nat): (r: seq<seq<Cell>>)
    requires Shaped(cells, w, h)
    ensures Shaped(r, w, h)
    ensures forall q | InGrid(q, w, h) :: IsReset(At(r, q)) && SameStatic(At(r, q), At(cells, q))
  {
    seq(w, i requires 0 <= i < w =>
      seq(h, j requires 0 <= j < h => cells[i][j].(visited := false, parentCell := None, h := 0, g := 0)))
  }

  /** `ResetCellSearchSettings`. */
  function ResetCellSearchSettings(g: Grid): (r: Grid)
    requires Sized(g)
    ensures r == g.(cells := r.cells) && Sized(r)
    ensures AllReset(r.cells, g.sizeX, g.sizeY)
    ensures forall q | InGrid(q, g.sizeX, g.sizeY) :: SameStatic(At(r.cells, q), At(g.cells, q))
  {
    g.(cells := ResetCells(g.cells, g.sizeX, g.sizeY))
  }

  /** Resetting gives back any grid that agrees with the reset grid on the
      fields a search never writes, when that grid carries no bookkeeping. */
  lemma {:induction false} ResetRestores(cells: seq<seq<Cell>>, base: seq<seq<Cell>>, w: nat, h: nat)
    requires Shaped(cells, w, h) && Shaped(base, w, h)
    requires AllReset(base, w, h)
    requires forall q | InGrid(q, w, h) :: SameStatic(At(cells, q), At(base, q))
    ensures ResetCells(cells, w, h) == base
  {
    var r := ResetCells(cells, w, h);
    forall i | 0 <= i < w
      ensures r[i] == base[i]
    {
      forall j | 0 <= j < h
        ensures r[i][j] == base[i][j]
      {
        assert At(r, (i, j)) == At(base, (i, j));
      }
    }
  }

  /** Resetting twice is resetting once, and a grid with no bookkeeping is its own reset. */
  lemma ResetIdempotent(g: Grid)
    requires Sized(g)
    ensures ResetCellSearchSettings(ResetCellSearchSettings(g)) == ResetCellSearchSettings(g)
    ensures AllReset(g.cells, g.sizeX, g.sizeY) ==> ResetCellSearchSettings(g) == g
  {
    var r := ResetCellSearchSettings(g);
    ResetRestores(r.cells, r.cells, g.sizeX, g.sizeY);
    if AllReset(g.cells, g.sizeX, g.sizeY) {
      ResetRestores(g.cells, g.cells, g.sizeX, g.sizeY);
    }
  }

  function SetDisplayAllTraversedCells(g: Grid, flag: bool): (r: Grid)
    ensures r.displayAllTraversedCells == flag
    ensures r.(displayAllTraversedCells := g.displayAllTraversedCells) == g
  {
    g.(displayAllTraversedCells := flag)
  }

  /** `GetDisplayAllTraversedCells()`: storing the value read leaves the grid as it is. */
  function GetDisplayAllTraversedCells(g: Grid): (flag: bool)
    ensures SetDisplayAllTraversedCells(g, flag) == g
  {
    g.displayAllTraversedCells
  }

  /** The getter returns what the setter stored, and the flag touches nothing else. */
  lemma DisplayFlagRoundTrip(g: Grid, flag: bool)
    ensures GetDisplayAllTraversedCells(SetDisplayAllTraversedCells(g, flag)) == flag
    ensures SetDisplayAllTraversedCells(g, GetDisplayAllTraversedCells(g)) == g
    ensures Valid(g) ==> Valid(SetDisplayAllTraversedCells(g, flag))
  {
  }
}
