/** The `Cell` record: one grid position with its search bookkeeping. */
module Cells {
  import opened Wrappers

  /** A grid coordinate (x, y). A cell's parent is recorded by coordinate
      rather than by pointer. */
  type Pos = (int, int)

  /** Tile type of a cell. `Cell.h` stores each value as a display character. */
  datatype Tile = Floor | Wall | Start | Goal

  /** The character code behind each tile: 177 and 219 are the shaded and
      solid block characters of code page 437, 83 is 'S' and 71 is 'G'. */
  function TileCode(t: Tile): bv8
  {
    match t
    case Floor => 177
    case Wall => 219
    case Start => 83
    case Goal => 71
  }

  /** The four tiles have four different character codes. */
  lemma TileCodesDistinct(a: Tile, b: Tile)
    ensures TileCode(a) == TileCode(b) <==> a == b
  {
  }

  /** A cell. `g` is the cost from the start, `h` the estimate to the goal;
      both are integers, so a heuristic stored here is already truncated. */
  datatype Cell = Cell(
    x: int,
    y: int,
    g: int,
    h: int,
    tileType: Tile,
    startCell: bool,
    goalCell: bool,
    visited: bool,
    parentCell: Option<Pos>)

  /** `Cell(x, y)`: a fresh cell at the given coordinates. */
  function NewCellAt(x: int, y: int): (c: Cell)
    ensures c.x == x && c.y == y
    ensures c.parentCell == None && c.tileType == Floor
    ensures !c.startCell && !c.goalCell && !c.visited
  {
    Cell(x, y, 0, 0, Floor, false, false, false, None)
  }

  /** `Cell()`: a fresh cell at the origin. */
  function NewCell(): (c: Cell)
    ensures c.x == 0 && c.y == 0
    ensures c.parentCell == None && c.tileType == Floor
    ensures !c.startCell && !c.goalCell && !c.visited
  {
    NewCellAt(0, 0)
  }

  /** The two constructors agree on everything `Cell(0, 0)` sets. */
  lemma DefaultCellIsOrigin()
    ensures var a, b := NewCell(), NewCellAt(0, 0);
      && a.x == b.x && a.y == b.y && a.tileType == b.tileType && a.parentCell == b.parentCell
      && a.startCell == b.startCell && a.goalCell == b.goalCell && a.visited == b.visited
  {
  }

  /** `GetF`: the A* ordering key, cost so far plus estimate to go. */
  function GetF(c: Cell): (f: int)
    ensures IsReset(c) ==> f == 0
  {
    c.g + c.h
  }

  function PosOf(c: Cell): Pos
  {
    (c.x, c.y)
  }

  /** A cell a search may step onto: a floor tile or the goal, whatever its tile. */
  predicate Passable(c: Cell)
  {
    c.tileType == Floor || c.goalCell
  }

  /** 4-adjacency: the two positions differ by one step along one axis. */
  predicate Adjacent(p: Pos, q: Pos)
  {
    || (p.0 == q.0 && (p.1 - q.1 == 1 || q.1 - p.1 == 1))
    || (p.1 == q.1 && (p.0 - q.0 == 1 || q.0 - p.0 == 1))
  }

  /** The fields a search never writes: coordinates, tile and the two role flags. */
  predicate SameStatic(a: Cell, b: Cell)
  {
    a.x == b.x && a.y == b.y && a.tileType == b.tileType
    && a.startCell == b.startCell && a.goalCell == b.goalCell
  }

  /** A cell whose search bookkeeping is at its defaults. */
  predicate IsReset(c: Cell)
  {
    !c.visited && c.parentCell.None? && c.g == 0 && c.h == 0
  }
}
