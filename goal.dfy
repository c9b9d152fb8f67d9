/** The goal scan, run by `setup` and again by `restart_button_system`:
    rows from `MAZE_HEIGHT - 2` down to 1, and in each row the columns from
    `MAZE_WIDTH - 2` down to 1; the first path tile found is the goal. When
    there is none the goal stays at its starting value (W-2, H-2).

    `ScanRow`, `ScanRows` and `LocateGoal` say on a `Grid` what the scan
    finds; `FindGoal` is the scan itself, on the array, with the labelled
    break of the game's code. */
module GoalScan {
  import opened MazeGrid
  import opened MazeGen

  /** The goal's value before the scan: the far corner room. */
  const Fallback: Pos := Pos(Width - 2, Height - 2)

  /** `q` is interior and the scan reaches it before `p`: a higher row, or
      the same row and a higher column. */
  predicate ScannedBefore(q: Pos, p: Pos) {
    q.y > p.y || (q.y == p.y && q.x > p.x)
  }

  /** The first path tile of row `y` among columns `x`, `x - 1`, ..., 1. */
  function ScanRow(g: Grid, y: int, x: int): Option<Pos>
    decreases x
  {
    if x < 1 then None
    else if IsPath(g, Pos(x, y)) then Some(Pos(x, y))
    else ScanRow(g, y, x - 1)
  }

  /** The first path tile of rows `y`, `y - 1`, ..., 1, each row scanned
      from column `Width - 2` down to column 1. */
  function ScanRows(g: Grid, y: int): Option<Pos>
    decreases y
  {
    if y < 1 then None
    else
      match ScanRow(g, y, Width - 2)
      case Some(p) => Some(p)
      case None => ScanRows(g, y - 1)
  }

  /** Where the goal ends up: the scan's find, or the fallback. */
  function LocateGoal(g: Grid): Pos {
    match ScanRows(g, Height - 2)
    case Some(p) => p
    case None => Fallback
  }

  /** The row scan finds the path tile of the row with the largest column
      up to `x`, and finds nothing exactly when there is none. */
  lemma {:induction false} ScanRowFinds(g: Grid, y: int, x: int)
    ensures var r := ScanRow(g, y, x);
              && (r.Some? ==> r.value.y == y && 1 <= r.value.x <= x && IsPath(g, r.value))
              && (r.Some? ==> forall c :: r.value.x < c <= x ==> !IsPath(g, Pos(c, y)))
              && (r.None? <==> forall c :: 1 <= c <= x ==> !IsPath(g, Pos(c, y)))
    decreases x
  {
    if x >= 1 && !IsPath(g, Pos(x, y)) {
      ScanRowFinds(g, y, x - 1);
    }
  }

  /** The scan of rows `y` down to 1 finds an interior path tile with no
      path tile of the scanned region before it, and finds nothing exactly
      when the region has no path tile. */
  lemma {:induction false} ScanRowsFinds(g: Grid, y: int)
    ensures var r := ScanRows(g, y);
              && (r.Some? ==> 1 <= r.value.y <= y && 1 <= r.value.x <= Width - 2 && IsPath(g, r.value))
              && (r.Some? ==> forall q: Pos :: 1 <= q.x <= Width - 2 && q.y <= y && ScannedBefore(q, r.value) ==> !IsPath(g, q))
              && (r.None? <==> forall q: Pos :: 1 <= q.x <= Width - 2 && 1 <= q.y <= y ==> !IsPath(g, q))
    decreases y
  {
    if y >= 1 {
      ScanRowFinds(g, y, Width - 2);
      if ScanRow(g, y, Width - 2).None? {
        ScanRowsFinds(g, y - 1);
        assert forall q: Pos :: 1 <= q.x <= Width - 2 && q.y == y ==> !IsPath(g, Pos(q.x, y));
      }
    }
  }

  /** The goal is the interior path tile the scan meets first: no interior
      path tile comes before it. When the grid has no interior path tile the
      scan finds nothing and the goal is the fallback. */
  lemma GoalIsFirstInScanOrder(g: Grid)
    ensures ScanRows(g, Height - 2).Some? <==> exists q :: Interior(q) && IsPath(g, q)
    ensures ScanRows(g, Height - 2).Some? ==>
              var goal := LocateGoal(g);
              Interior(goal) && IsPath(g, goal) &&
              forall q :: Interior(q) && ScannedBefore(q, goal) ==> !IsPath(g, q)
    ensures ScanRows(g, Height - 2).None? ==> LocateGoal(g) == Fallback
  {
    ScanRowsFinds(g, Height - 2);
    var r := ScanRows(g, Height - 2);
    if r.Some? {
      assert Interior(r.value) && IsPath(g, r.value);
    } else {
      forall q | Interior(q) ensures !IsPath(g, q) {
        assert 1 <= q.x <= Width - 2 && 1 <= q.y <= Height - 2;
      }
    }
  }

  /** Only one interior path tile has no interior path tile before it in
      scan order, so that property alone picks out the goal. */
  lemma GoalUnique(g: Grid, p: Pos)
    requires Interior(p) && IsPath(g, p)
    requires forall q :: Interior(q) && ScannedBefore(q, p) ==> !IsPath(g, q)
    ensures LocateGoal(g) == p
  {
    GoalIsFirstInScanOrder(g);
  }

  /** With the start tile carved the scan always finds a tile: the fallback
      is never needed for its own sake. */
  lemma ScanFindsPath(g: Grid)
    requires IsPath(g, Start)
    ensures ScanRows(g, Height - 2).Some?
  {
    GoalIsFirstInScanOrder(g);
  }

  /** In a generated maze every room is carved, so the scan stops at once
      on the far corner room: the goal is (W-2, H-2), the same cell as the
      fallback. */
  lemma GoalOfGenerated(g: Grid)
    requires Generated(g)
    ensures LocateGoal(g) == Fallback && LocateGoal(g) != Start
  {
    assert Room(Fallback);
    ScanRowFinds(g, Height - 2, Width - 2);
  }

  /** The goal scan on the maze array: nested reverse scans with a labelled
      break, the goal starting at the fallback. */
  method FindGoal(maze: array2<Tile>, ghost g: Grid) returns (goal: Pos)
    requires Mirrors(maze, g)
    ensures goal == LocateGoal(g)
  {
    goal := Fallback;
    label outer:
    for y := Height - 1 downto 1
      invariant goal == Fallback
      invariant ScanRows(g, Height - 2) == ScanRows(g, y - 1)
    {
      for x := Width - 1 downto 1
        invariant goal == Fallback
        invariant ScanRow(g, y, Width - 2) == ScanRow(g, y, x - 1)
      {
        if maze[y, x] == Path {
          goal := Pos(x, y);
          assert ScanRow(g, y, x) == Some(goal);
          break outer;
        }
      }
    }
  }
}
