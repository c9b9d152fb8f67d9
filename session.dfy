/** The game session: the maze resource, the player's position, the goal,
    the won state, the start instant and the move timer, with the frame
    handler `player_input` and the state resets of `restart_button_system`.

    The game's won state is "a `WinText` entity exists"; the model keeps it
    as the field `won`. Keys, frame durations, clock readings and the
    shuffle are parameters. */
module Game {
  import opened MazeGrid
  import opened MazeGen
  import opened GoalScan
  import opened MoveTimer
  import opened WinClock

  /** The arrow keys held down in a frame. */
  datatype Keys = Keys(up: bool, down: bool, left: bool, right: bool)

  predicate NonePressed(keys: Keys) {
    !keys.up && !keys.down && !keys.left && !keys.right
  }

  /** The arrow keys in order of precedence, each with the step it asks
      for; up is towards larger `y`. */
  function Precedence(keys: Keys): seq<(bool, (int, int))> {
    [(keys.up, (0, 1)), (keys.down, (0, -1)), (keys.left, (-1, 0)), (keys.right, (1, 0))]
  }

  /** The step of the first pressed key in a precedence list, or none. */
  function FirstPressed(keys: seq<(bool, (int, int))>): (int, int) {
    if |keys| == 0 then (0, 0)
    else if keys[0].0 then keys[0].1
    else FirstPressed(keys[1..])
  }

  /** Taking the first pressed key in precedence order is the chain of
      tests up, else down, else left, else right. */
  lemma PrecedenceOrder(keys: Keys)
    ensures FirstPressed(Precedence(keys)) ==
            if keys.up then (0, 1)
            else if keys.down then (0, -1)
            else if keys.left then (-1, 0)
            else if keys.right then (1, 0)
            else (0, 0)
  {
    var k0 := Precedence(keys);
    var k1 := k0[1..];
    var k2 := k1[1..];
    var k3 := k2[1..];
    assert k1[0] == (keys.down, (0, -1)) && k2[0] == (keys.left, (-1, 0)) && k3[0] == (keys.right, (1, 0));
    assert FirstPressed(k3[1..]) == (0, 0);
    assert FirstPressed(k3) == if keys.right then (1, 0) else (0, 0);
    assert FirstPressed(k2) == if keys.left then (-1, 0) else FirstPressed(k3);
    assert FirstPressed(k1) == if keys.down then (0, -1) else FirstPressed(k2);
  }

  /** The step a frame's keys ask for: the highest-precedence pressed key
      wins, the others are ignored. */
  function Delta(keys: Keys): (d: (int, int))
    ensures d == (0, 0) <==> NonePressed(keys)
    ensures d in {(0, 0), (0, 1), (0, -1), (-1, 0), (1, 0)}
  {
    PrecedenceOrder(keys);
    FirstPressed(Precedence(keys))
  }

  /** The cell one step `d` from `p`. */
  function StepFrom(p: Pos, d: (int, int)): Pos {
    Pos(p.x + d.0, p.y + d.1)
  }

  /** Where an admitted frame leaves a player at `p`: the target of the
      keys' step, if there is a step and the target is on the board and a
      path tile, else `p`. */
  function NextPos(g: Grid, p: Pos, keys: Keys): (q: Pos)
    ensures q == p || (Adjacent(p, q) && IsPath(g, q))
    ensures NonePressed(keys) ==> q == p
    ensures q != p <==> !NonePressed(keys) && InBounds(StepFrom(p, Delta(keys))) && IsPath(g, StepFrom(p, Delta(keys)))
  {
    var d := Delta(keys);
    var t := StepFrom(p, d);
    if d != (0, 0) && 0 <= t.x < Width && 0 <= t.y < Height && IsPath(g, t) then t else p
  }

  /** Keys whose step goes from `p` to the neighbour `q`. */
  function KeysToward(p: Pos, q: Pos): Keys {
    if q.y == p.y + 1 then Keys(true, false, false, false)
    else if q.y == p.y - 1 then Keys(false, true, false, false)
    else if q.x == p.x - 1 then Keys(false, false, true, false)
    else Keys(false, false, false, true)
  }

  /** A player can always step onto a neighbouring path tile. */
  lemma StepToward(g: Grid, p: Pos, q: Pos)
    requires WellSized(g) && Adjacent(p, q) && IsPath(g, q)
    ensures NextPos(g, p, KeysToward(p, q)) == q
  {
    assert Delta(KeysToward(p, q)) == (q.x - p.x, q.y - p.y);
  }

  /** Where a run of admitted frames leads. */
  function Follow(g: Grid, p: Pos, keys: seq<Keys>): (q: Pos)
    ensures IsPath(g, p) ==> IsPath(g, q)
    decreases |keys|
  {
    if |keys| == 0 then p else Follow(g, NextPos(g, p, keys[0]), keys[1..])
  }

  /** The keys that walk along `w`. */
  function KeysAlong(w: seq<Pos>): seq<Keys>
    requires |w| > 0
    decreases |w|
  {
    if |w| == 1 then [] else [KeysToward(w[0], w[1])] + KeysAlong(w[1..])
  }

  /** Following the keys along a walk arrives at the walk's end. */
  lemma {:induction false} FollowWalk(g: Grid, w: seq<Pos>)
    requires WellSized(g) && IsWalk(g, w)
    ensures Follow(g, w[0], KeysAlong(w)) == w[|w| - 1]
    decreases |w|
  {
    if |w| > 1 {
      assert Adjacent(w[0], w[1]) && IsPath(g, w[1]);
      StepToward(g, w[0], w[1]);
      var rest := w[1..];
      assert IsWalk(g, rest) by {
        forall i, j | 0 <= i && j == i + 1 && j < |rest| ensures Adjacent(rest[i], rest[j]) {
          assert rest[i] == w[i + 1] && rest[j] == w[j + 1];
        }
      }
      FollowWalk(g, rest);
    }
  }

  /** Every generated maze can be won: some run of key presses takes the
      player from the start to the goal. */
  lemma Winnable(g: Grid)
    requires Generated(g)
    ensures exists keys :: Follow(g, Start, keys) == LocateGoal(g)
  {
    var goal := LocateGoal(g);
    GoalOfGenerated(g);
    assert Room(goal);
    InCells(goal);
    assert goal in PathCells(g);
    var w :| IsWalk(g, w) && w[0] == Start && w[|w| - 1] == goal;
    FollowWalk(g, w);
  }

  class Session {
    var maze: array2<Tile>
    ghost var grid: Grid
    var pos: Pos
    var goal: Pos
    var won: bool
    /** The start instant, on a millisecond clock. */
    var startMs: nat
    /** The move timer's elapsed time, in milliseconds. */
    var timer: nat

    /** The array holds a generated maze, the player stands on a path
        tile, the goal is the scan's result for the maze, and the game is
        won exactly when the player stands on the goal. */
    ghost predicate Valid()
      reads this, maze
    {
      && Mirrors(maze, grid)
      && Generated(grid)
      && IsPath(grid, pos)
      && goal == LocateGoal(grid)
      && timer < Period
      && (won <==> pos == goal)
    }

    /** `main` and `setup`: a fresh maze, the player at (1, 1), the goal
        scanned, the clock started and the timer at zero. */
    constructor (shuffle: (int, int) -> nat, nowMs: nat)
      ensures Valid() && fresh(maze)
      ensures pos == Start && !won && goal == LocateGoal(grid)
      ensures startMs == nowMs && timer == 0
    {
      var m: array2<Tile>;
      ghost var g: Grid, carves: nat;
      m, g, carves := GenerateMaze(shuffle);
      var found := FindGoal(m, g);
      GoalOfGenerated(g);
      maze, grid := m, g;
      pos := Start;
      goal := found;
      won := false;
      startMs := nowMs;
      timer := 0;
    }

    /** `player_input` for one frame with the given keys held, the frame
        lasting `deltaMs`, at clock reading `nowMs`. Once won nothing
        changes. Otherwise the timer ticks; on a frame where it finishes
        the player takes the step the keys ask for (`MoveStep`). Returns
        the time shown in the win message, on the frame that wins. */
    method PlayerInput(keys: Keys, deltaMs: nat, nowMs: nat) returns (shown: Option<WinTime>)
      requires Valid()
      modifies this
      ensures Valid()
      ensures maze == old(maze) && grid == old(grid) && goal == old(goal) && startMs == old(startMs)
      ensures old(won) ==> won && pos == old(pos) && timer == old(timer) && shown == None
      ensures !old(won) ==>
                var t := Tick(old(timer), deltaMs);
                && timer == t.elapsed
                && pos == (if t.justFinished then NextPos(grid, old(pos), keys) else old(pos))
                && shown == (if won then Some(Split(Elapsed(startMs, nowMs))) else None)
    {
      shown := None;
      if won {
        return;
      }
      var t := Tick(timer, deltaMs);
      timer := t.elapsed;
      if !t.justFinished {
        return;
      }
      shown := MoveStep(keys, nowMs);
    }

    /** The rest of `player_input` on a frame the timer admits: the step
        of the highest-precedence pressed key, taken only onto a path tile
        of the board; the game is won when the step lands on the goal, and
        the win message then shows the time since the start. */
    method MoveStep(keys: Keys, nowMs: nat) returns (shown: Option<WinTime>)
      requires Valid() && !won
      modifies this
      ensures Valid()
      ensures maze == old(maze) && grid == old(grid) && goal == old(goal) && startMs == old(startMs)
      ensures timer == old(timer) && pos == NextPos(grid, old(pos), keys)
      ensures shown == (if won then Some(Split(Elapsed(startMs, nowMs))) else None)
    {
      shown := None;
      var dx, dy := 0, 0;
      if keys.up {
        dy := dy + 1;
      } else if keys.down {
        dy := dy - 1;
      } else if keys.left {
        dx := dx - 1;
      } else if keys.right {
        dx := dx + 1;
      }
      PrecedenceOrder(keys);
      assert (dx, dy) == Delta(keys);
      if dx == 0 && dy == 0 {
        return;
      }
      var newX, newY := pos.x + dx, pos.y + dy;
      if 0 <= newX < Width && 0 <= newY < Height && maze[newY, newX] == Path {
        pos := Pos(newX, newY);
        if pos == goal && !won {
          won := true;
          shown := Some(Split(Elapsed(startMs, nowMs)));
        }
      }
    }

    /** The state resets of `restart_button_system`: a new maze, the player
        back at (1, 1), the goal scanned anew, the win cleared and the clock
        restarted. The move timer is left as it was. */
    method Restart(shuffle: (int, int) -> nat, nowMs: nat)
      requires Valid()
      modifies this
      ensures Valid() && fresh(maze)
      ensures pos == Start && !won && goal == LocateGoal(grid)
      ensures startMs == nowMs && timer == old(timer)
    {
      var m: array2<Tile>;
      ghost var g: Grid, carves: nat;
      m, g, carves := GenerateMaze(shuffle);
      maze, grid := m, g;
      pos := Start;
      goal := FindGoal(maze, grid);
      GoalOfGenerated(grid);
      won := false;
      startMs := nowMs;
    }
  }
}
