/** The maze grid: tiles, positions, the fixed 21 x 21 board, and the
    vocabulary the generator, the goal scan and the session share.

    The game keeps the maze as a vector of rows, indexed `maze[y][x]`. The
    model keeps it as a two-dimensional array indexed `[y, x]`, and states
    what is known about it on a value snapshot of type `Grid` (a sequence of
    rows) that `Mirrors` ties to the array. */
module MazeGrid {

  const Width: int := 21
  const Height: int := 21

  datatype Tile = Wall | Path

  datatype Option<T> = None | Some(value: T)

  /** A cell coordinate: column `x`, row `y`. */
  datatype Pos = Pos(x: int, y: int)

  /** A snapshot of the maze, row by row. */
  type Grid = seq<seq<Tile>>

  /** Where the player starts and where carving begins. */
  const Start: Pos := Pos(1, 1)

  predicate InBounds(p: Pos) {
    0 <= p.x < Width && 0 <= p.y < Height
  }

  /** Strictly inside the boundary ring. */
  predicate Interior(p: Pos) {
    0 < p.x < Width - 1 && 0 < p.y < Height - 1
  }

  /** A room: an interior cell with odd column and odd row. Carving moves
      between rooms two cells apart. */
  predicate Room(p: Pos) {
    Interior(p) && p.x % 2 == 1 && p.y % 2 == 1
  }

  /** A link: an interior cell with exactly one even coordinate, the wall
      between two horizontally or vertically neighbouring rooms. */
  predicate Link(p: Pos) {
    Interior(p) && (p.x % 2 == 0) != (p.y % 2 == 0)
  }

  /** The two rooms a link lies between. */
  function LinkEnds(p: Pos): (ends: (Pos, Pos))
    requires Link(p)
    ensures Room(ends.0) && Room(ends.1)
    ensures Adjacent(ends.0, p) && Adjacent(p, ends.1)
  {
    if p.x % 2 == 0 then (Pos(p.x - 1, p.y), Pos(p.x + 1, p.y))
    else (Pos(p.x, p.y - 1), Pos(p.x, p.y + 1))
  }

  /** Four-neighbours: one step along one axis. */
  predicate Adjacent(a: Pos, b: Pos) {
    (a.x == b.x && (a.y - b.y == 1 || b.y - a.y == 1)) ||
    (a.y == b.y && (a.x - b.x == 1 || b.x - a.x == 1))
  }

  predicate WellSized(g: Grid) {
    |g| == Height && forall y :: 0 <= y < Height ==> |g[y]| == Width
  }

  /** `p` is a cell of `g` and holds a path tile. */
  predicate IsPath(g: Grid, p: Pos) {
    0 <= p.y < |g| && 0 <= p.x < |g[p.y]| && g[p.y][p.x] == Path
  }

  /** The grid with its every tile a wall, as `generate_maze` starts it. */
  function AllWalls(): (g: Grid)
    ensures WellSized(g)
    ensures forall p :: !IsPath(g, p)
  {
    seq(Height, _ => seq(Width, _ => Wall))
  }

  /** `g` with cell `p` turned into a path tile. */
  function WithPath(g: Grid, p: Pos): (r: Grid)
    requires WellSized(g) && InBounds(p)
    ensures WellSized(r)
    ensures forall q :: IsPath(r, q) <==> q == p || IsPath(g, q)
  {
    g[p.y := g[p.y][p.x := Path]]
  }

  /** The array `maze` holds exactly the tiles of `g`. */
  ghost predicate Mirrors(maze: array2<Tile>, g: Grid)
    reads maze
  {
    maze.Length0 == Height && maze.Length1 == Width && WellSized(g) &&
    forall y, x :: 0 <= y < Height && 0 <= x < Width ==> maze[y, x] == g[y][x]
  }

  /** Every path tile of `g` is still a path tile of `h`. */
  ghost predicate Extends(g: Grid, h: Grid) {
    forall p :: IsPath(g, p) ==> IsPath(h, p)
  }

  /** A walk: a non-empty run of path cells, each a four-neighbour of the
      one before. */
  ghost predicate IsWalk(g: Grid, w: seq<Pos>) {
    |w| > 0 &&
    (forall i :: 0 <= i < |w| ==> IsPath(g, w[i])) &&
    (forall i, j :: 0 <= i && j == i + 1 && j < |w| ==> Adjacent(w[i], w[j]))
  }

  /** `p` can be reached from the start cell by single steps over path cells. */
  ghost predicate Reaches(g: Grid, p: Pos) {
    exists w :: IsWalk(g, w) && w[0] == Start && w[|w| - 1] == p
  }

  /** Every path cell is reachable from the start cell. */
  ghost predicate Connected(g: Grid) {
    forall p :: p in PathCells(g) ==> Reaches(g, p)
  }

  /** All cells of the board. */
  const Cells: set<Pos> := set x, y | 0 <= x < Width && 0 <= y < Height :: Pos(x, y)

  /** The path cells of `g`. */
  ghost function PathCells(g: Grid): set<Pos> {
    set p | p in Cells && IsPath(g, p)
  }

  /** The rooms of `g` that have been carved. */
  ghost function CarvedRooms(g: Grid): set<Pos> {
    set p | p in Cells && Room(p) && IsPath(g, p)
  }

  /** The links of `g` that have been carved. */
  ghost function CarvedLinks(g: Grid): set<Pos> {
    set p | p in Cells && Link(p) && IsPath(g, p)
  }

  lemma InCells(p: Pos)
    requires InBounds(p)
    ensures p in Cells
  {
    assert p == Pos(p.x, p.y);
  }

  /** Walks survive a grid that only gains path tiles. */
  lemma {:induction false} WalkExtends(g: Grid, h: Grid, w: seq<Pos>)
    requires Extends(g, h) && IsWalk(g, w)
    ensures IsWalk(h, w)
  {
    forall i | 0 <= i < |w| ensures IsPath(h, w[i]) {
      assert IsPath(g, w[i]);
    }
  }

  /** Turning one wall into a path adds that cell, and only that cell, to
      the path cells and to the carved rooms or the carved links. */
  lemma CarvedSetsAfter(g: Grid, p: Pos)
    requires WellSized(g) && InBounds(p) && !IsPath(g, p)
    ensures p in Cells && p !in PathCells(g) && PathCells(WithPath(g, p)) == PathCells(g) + {p}
    ensures CarvedRooms(WithPath(g, p)) == if Room(p) then CarvedRooms(g) + {p} else CarvedRooms(g)
    ensures CarvedLinks(WithPath(g, p)) == if Link(p) then CarvedLinks(g) + {p} else CarvedLinks(g)
  {
    InCells(p);
  }

  /** The number of cells of the board. */
  const CellCount: nat := Width * Height

  /** The `k`-th cell in row-major order. */
  function CellAt(k: nat): Pos {
    Pos(k % Width, k / Width)
  }

  /** Row-major order lists every cell of the board exactly once. */
  lemma CellIndex(p: Pos, i: nat)
    requires InBounds(p)
    ensures CellAt(i) == p <==> i == p.y * Width + p.x
    ensures p.y * Width + p.x < CellCount
  {
    if CellAt(i) == p {
      assert i == Width * (i / Width) + i % Width;
    }
  }

  /** Column `x` of row `y` is cell `y * Width + x`. */
  lemma CellAtRowCol(x: nat, y: nat)
    requires x < Width && y < Height
    ensures CellAt(y * Width + x) == Pos(x, y)
  {
    CellIndex(Pos(x, y), y * Width + x);
  }

  /** Which cells a count is over. */
  datatype Kind = AnyCell | RoomCell | LinkCell

  predicate OfKind(kind: Kind, p: Pos) {
    match kind
    case AnyCell => true
    case RoomCell => Room(p)
    case LinkCell => Link(p)
  }

  /** How many of the first `k` cells in row-major order are path cells of
      the given kind. */
  ghost function CountPath(g: Grid, kind: Kind, k: nat): (n: nat)
    ensures n <= k
  {
    if k == 0 then 0
    else CountPath(g, kind, k - 1) + if OfKind(kind, CellAt(k - 1)) && IsPath(g, CellAt(k - 1)) then 1 else 0
  }

  /** The number of path cells of `g`. */
  ghost function PathCount(g: Grid): nat {
    CountPath(g, AnyCell, CellCount)
  }

  /** The number of carved rooms of `g`. */
  ghost function RoomCount(g: Grid): nat {
    CountPath(g, RoomCell, CellCount)
  }

  /** The number of carved links of `g`. */
  ghost function LinkCount(g: Grid): nat {
    CountPath(g, LinkCell, CellCount)
  }

  /** A grid without path cells counts none. */
  lemma {:induction false} CountNone(g: Grid, kind: Kind, k: nat)
    requires forall p :: !IsPath(g, p)
    ensures CountPath(g, kind, k) == 0
  {
    if k > 0 {
      CountNone(g, kind, k - 1);
    }
  }

  /** Turning one wall into a path raises the count of its kind by one, if
      it lies among the cells counted, and leaves every other count alone. */
  lemma {:induction false} CountAfter(g: Grid, p: Pos, kind: Kind, k: nat)
    requires WellSized(g) && InBounds(p) && !IsPath(g, p)
    ensures CountPath(WithPath(g, p), kind, k) ==
            CountPath(g, kind, k) + if OfKind(kind, p) && p.y * Width + p.x < k then 1 else 0
  {
    if k > 0 {
      CountAfter(g, p, kind, k - 1);
      CellIndex(p, k - 1);
    }
  }

  /** When every path cell is a room or a link, the path cells are the
      carved rooms and the carved links together. */
  lemma {:induction false} CountSplit(g: Grid, k: nat)
    requires forall p :: IsPath(g, p) ==> Room(p) || Link(p)
    ensures CountPath(g, AnyCell, k) == CountPath(g, RoomCell, k) + CountPath(g, LinkCell, k)
  {
    if k > 0 {
      CountSplit(g, k - 1);
    }
  }

  /** How many of the first `k` cells in row-major order are rooms. */
  function RoomsBefore(k: nat): nat {
    if k == 0 then 0 else RoomsBefore(k - 1) + if Room(CellAt(k - 1)) then 1 else 0
  }

  /** Within row `y` the rooms are the odd columns, and only odd rows have
      any. */
  lemma {:induction false} RoomsInRow(y: nat, x: nat)
    requires y < Height && x <= Width
    ensures RoomsBefore(y * Width + x) == RoomsBefore(y * Width) + if y % 2 == 1 then x / 2 else 0
  {
    if x > 0 {
      RoomsInRow(y, x - 1);
      CellAtRowCol(x - 1, y);
      if y % 2 == 1 {
        assert Room(Pos(x - 1, y)) <==> (x - 1) % 2 == 1;
        assert x / 2 == (x - 1) / 2 + (x - 1) % 2;
      } else {
        assert !Room(Pos(x - 1, y));
      }
    }
  }

  /** The rows above row `y` hold ten rooms for each odd row. */
  lemma {:induction false} RoomsInRows(y: nat)
    requires y <= Height
    ensures RoomsBefore(y * Width) == 10 * (y / 2)
  {
    if y > 0 {
      RoomsInRows(y - 1);
      RoomsInRow(y - 1, Width);
      assert (y - 1) * Width + Width == y * Width;
      assert y / 2 == (y - 1) / 2 + if (y - 1) % 2 == 1 then 1 else 0;
    }
  }

  /** The board has 10 x 10 rooms. */
  lemma RoomTotal()
    ensures RoomsBefore(CellCount) == 100
  {
    RoomsInRows(Height);
  }

  /** With every room carved, the carved-room count is the room count. */
  lemma {:induction false} AllRoomsCounted(g: Grid, k: nat)
    requires forall p :: Room(p) ==> IsPath(g, p)
    ensures CountPath(g, RoomCell, k) == RoomsBefore(k)
  {
    if k > 0 {
      AllRoomsCounted(g, k - 1);
    }
  }
}
