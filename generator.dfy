/** Maze generation: `generate_maze` and its nested `carve`, a randomized
    depth-first carving over the rooms (the odd/odd interior cells) of an
    all-wall board.

    The game shuffles the four moves with a fresh thread-local random
    generator on every call of `carve`. The model takes the shuffle as an
    oracle `shuffle`, a total function from the cell being carved to an
    index that selects one ordering of the four moves (`Permutation`); since
    `carve` is entered at most once per cell, an oracle keyed by the cell
    can describe any run of the random generator. */
module MazeGen {
  import opened MazeGrid

  /** The four carving moves, two cells along one axis, in the order the
      game lists them before shuffling. */
  const Moves: seq<(int, int)> := [(2, 0), (-2, 0), (0, 2), (0, -2)]

  predicate IsMove(d: (int, int)) {
    d == (2, 0) || d == (-2, 0) || d == (0, 2) || d == (0, -2)
  }

  lemma MovesAre(d: (int, int))
    ensures d in Moves <==> IsMove(d)
  {
    assert Moves[0] == (2, 0) && Moves[1] == (-2, 0) && Moves[2] == (0, 2) && Moves[3] == (0, -2);
  }

  /** The `k`-th ordering of `s`, reading `k` in the factorial number
      system: digit `k % |s|` picks the first element, the rest of `k`
      orders what is left. */
  function Permutation<T>(s: seq<T>, k: nat): (r: seq<T>)
    ensures multiset(r) == multiset(s)
    decreases |s|
  {
    if |s| == 0 then []
    else
      var i := k % |s|;
      assert s == s[..i] + [s[i]] + s[i + 1..];
      [s[i]] + Permutation(s[..i] + s[i + 1..], k / |s|)
  }

  lemma {:induction false} MulAtLeast(n: nat, t: nat)
    requires t >= 1
    ensures n * t >= n
  {
    if t > 1 {
      MulAtLeast(n, t - 1);
      assert n * t == n * (t - 1) + n;
    }
  }

  /** The index whose last factorial-base digit (base `n`) is `r` and whose
      remaining digits make `q`. */
  lemma ComposeIndex(q: nat, n: nat, r: nat) returns (k: nat)
    requires r < n
    ensures k % n == r && k / n == q
  {
    k := r + n * q;
    var q', r' := k / n, k % n;
    assert k == n * q' + r';
    if q' < q {
      MulAtLeast(n, q - q');
    } else if q' > q {
      MulAtLeast(n, q' - q);
    }
  }

  /** Taking the first element of `p` out of `s` leaves what `p[1..]` holds. */
  lemma RestAfterPick<T>(s: seq<T>, p: seq<T>, i: nat)
    requires multiset(p) == multiset(s) && i < |s| && |p| > 0 && s[i] == p[0]
    ensures multiset(p[1..]) == multiset(s[..i] + s[i + 1..])
  {
    var rest := s[..i] + s[i + 1..];
    assert p == [p[0]] + p[1..];
    assert s == s[..i] + [s[i]] + s[i + 1..];
    assert multiset(p) == multiset{p[0]} + multiset(p[1..]);
    assert multiset(s) == multiset(s[..i]) + multiset{s[i]} + multiset(s[i + 1..]);
    assert multiset(rest) == multiset(s[..i]) + multiset(s[i + 1..]);
    assert multiset(s) == multiset{s[i]} + multiset(rest);
    assert multiset(p[1..]) == multiset(p) - multiset{p[0]};
  }

  /** A permutation of a non-empty sequence starts with one of its elements. */
  lemma HeadOccurs<T>(s: seq<T>, p: seq<T>)
    requires multiset(p) == multiset(s) && |s| > 0
    ensures |p| == |s| && exists i :: 0 <= i < |s| && s[i] == p[0]
  {
    assert |p| == |s| by { assert |multiset(p)| == |multiset(s)|; }
    assert p[0] in multiset(s);
  }

  /** An index whose last digit `i` picks `p[0]` and whose other digits
      `q` order the rest as `p[1..]` orders `s` as `p`. */
  lemma PermutationCons<T>(s: seq<T>, p: seq<T>, k: nat, i: nat, q: nat)
    requires 0 < |s| && |p| == |s| && k % |s| == i && k / |s| == q
    requires i < |s| && s[i] == p[0] && Permutation(s[..i] + s[i + 1..], q) == p[1..]
    ensures Permutation(s, k) == p
  {
    assert Permutation(s, k) == [s[i]] + Permutation(s[..i] + s[i + 1..], q);
    assert p == [p[0]] + p[1..];
  }

  /** Every ordering of the moves is available to the oracle: the shuffle is
      an arbitrary permutation. */
  lemma {:induction false} EveryOrderReachable<T>(s: seq<T>, p: seq<T>)
    requires multiset(p) == multiset(s)
    ensures exists k: nat :: Permutation(s, k) == p
    decreases |s|
  {
    if |s| == 0 {
      assert Permutation(s, 0) == p;
    } else {
      HeadOccurs(s, p);
      var i :| 0 <= i < |s| && s[i] == p[0];
      RestAfterPick(s, p, i);
      EveryOrderReachable(s[..i] + s[i + 1..], p[1..]);
      var q: nat :| Permutation(s[..i] + s[i + 1..], q) == p[1..];
      var k := ComposeIndex(q, |s|, i);
      PermutationCons(s, p, k, i, q);
    }
  }

  function Offset(c: Pos, d: (int, int)): Pos {
    Pos(c.x + d.0, c.y + d.1)
  }

  /** The wall cell between `c` and `Offset(c, d)`. */
  function Midpoint(c: Pos, d: (int, int)): Pos {
    Pos(c.x + d.0 / 2, c.y + d.1 / 2)
  }

  /** A cell two steps away needs no more carving: it is no room (it lies
      on or beyond the boundary ring) or it is carved already. */
  predicate Settled(g: Grid, n: Pos) {
    Room(n) ==> IsPath(g, n)
  }

  /** Every room two cells from `c` is carved. */
  predicate Closed(g: Grid, c: Pos) {
    Settled(g, Pos(c.x + 2, c.y)) && Settled(g, Pos(c.x - 2, c.y)) &&
    Settled(g, Pos(c.x, c.y + 2)) && Settled(g, Pos(c.x, c.y - 2))
  }

  /** Carving writes rooms and the links between them and nothing else. */
  ghost predicate Shaped(g: Grid) {
    forall p :: IsPath(g, p) ==> Room(p) || Link(p)
  }

  /** A carved link always joins two carved rooms. */
  ghost predicate Joined(g: Grid) {
    forall p :: p in CarvedLinks(g) ==> IsPath(g, LinkEnds(p).0) && IsPath(g, LinkEnds(p).1)
  }

  /** What holds of the maze between carving steps: after `steps` steps it
      has `steps + 1` rooms and `steps` links carved (so every step carves a
      room and a link that were walls), every path cell is reachable from
      the start, and every carved room has all its neighbouring rooms carved
      unless it is in `open` (on the recursion stack). */
  ghost predicate Carving(g: Grid, open: set<Pos>, steps: nat) {
    && WellSized(g)
    && IsPath(g, Start)
    && Shaped(g)
    && Joined(g)
    && Connected(g)
    && RoomCount(g) == steps + 1
    && LinkCount(g) == steps
    && forall p :: p in CarvedRooms(g) && p !in open ==> Closed(g, p)
  }

  /** What `generate_maze` delivers: the boundary ring is wall, every room
      is carved, every path cell is reachable from the start, and there is
      one carved link fewer than there are carved rooms. With rooms as
      vertices and carved links as edges this is a spanning tree. */
  ghost predicate Generated(g: Grid) {
    && WellSized(g)
    && IsPath(g, Start)
    && (forall p :: InBounds(p) && !Interior(p) ==> !IsPath(g, p))
    && (forall p :: Room(p) ==> IsPath(g, p))
    && Shaped(g)
    && Joined(g)
    && Connected(g)
    && LinkCount(g) + 1 == RoomCount(g)
  }

  /** Reachable cells stay reachable as the grid gains path tiles. */
  lemma ReachesExtends(g: Grid, h: Grid, q: Pos)
    requires Extends(g, h) && Reaches(g, q)
    ensures Reaches(h, q)
  {
    var w :| IsWalk(g, w) && w[0] == Start && w[|w| - 1] == q;
    WalkExtends(g, h, w);
  }

  /** A path cell next to a reachable cell is reachable. */
  lemma ReachesStep(g: Grid, q: Pos, r: Pos)
    requires Reaches(g, q) && Adjacent(q, r) && IsPath(g, r)
    ensures Reaches(g, r)
  {
    var w :| IsWalk(g, w) && w[0] == Start && w[|w| - 1] == q;
    var w' := w + [r];
    assert IsWalk(g, w') && w'[0] == Start && w'[|w'| - 1] == r;
  }

  /** Extending a connected grid by a link `m` next to a reachable cell `c`
      and a room `n` next to `m` keeps it connected. */
  lemma ConnectedAfterCarve(g: Grid, h: Grid, c: Pos, m: Pos, n: Pos)
    requires WellSized(g) && Connected(g) && Extends(g, h) && IsPath(g, c)
    requires Adjacent(c, m) && Adjacent(m, n) && IsPath(h, m) && IsPath(h, n)
    requires forall q :: IsPath(h, q) ==> IsPath(g, q) || q == m || q == n
    ensures Connected(h)
  {
    InCells(c);
    assert c in PathCells(g);
    ReachesExtends(g, h, c);
    ReachesStep(h, c, m);
    ReachesStep(h, m, n);
    forall q | q in PathCells(h) ensures Reaches(h, q) {
      if q != m && q != n {
        assert q in PathCells(g);
        ReachesExtends(g, h, q);
      }
    }
  }

  /** Where a move from a room lands: `n` is two cells away, `m` is the link
      between `c` and `n`, and `m` has `c` and `n` as its ends. */
  lemma MoveGeometry(c: Pos, d: (int, int))
    requires Room(c) && IsMove(d) && Room(Offset(c, d))
    ensures var n, m := Offset(c, d), Midpoint(c, d);
              Link(m) && !Link(n) && n != m && Adjacent(c, m) && Adjacent(m, n) &&
              (LinkEnds(m) == (c, n) || LinkEnds(m) == (n, c))
  {
    if d == (2, 0) || d == (-2, 0) {
      assert Midpoint(c, d) == Pos(c.x + d.0 / 2, c.y);
      assert (c.x + d.0 / 2) % 2 == 0;
    } else {
      assert Midpoint(c, d) == Pos(c.x, c.y + d.1 / 2);
      assert (c.y + d.1 / 2) % 2 == 0;
    }
  }

  /** Carved rooms stay closed when the grid gains path tiles. */
  lemma ClosedExtends(g: Grid, h: Grid, p: Pos)
    requires Extends(g, h) && Closed(g, p)
    ensures Closed(h, p)
  {
    assert Settled(g, Pos(p.x + 2, p.y)) && Settled(g, Pos(p.x - 2, p.y));
    assert Settled(g, Pos(p.x, p.y + 2)) && Settled(g, Pos(p.x, p.y - 2));
  }

  /** Carving the link `m` between two carved rooms keeps every carved link
      joined. */
  lemma JoinedAfterCarve(g: Grid, h: Grid, m: Pos)
    requires Joined(g) && Extends(g, h) && Link(m)
    requires IsPath(h, LinkEnds(m).0) && IsPath(h, LinkEnds(m).1)
    requires CarvedLinks(h) == CarvedLinks(g) + {m}
    ensures Joined(h)
  {
    forall p | p in CarvedLinks(h) ensures IsPath(h, LinkEnds(p).0) && IsPath(h, LinkEnds(p).1) {
      if p != m {
        assert p in CarvedLinks(g);
      }
    }
  }

  /** Carving the room `n` and the link `m` raises each count by one and
      adds each to its set. */
  lemma CountsAfterCarve(g: Grid, n: Pos, m: Pos)
    requires WellSized(g) && Room(n) && Link(m) && !IsPath(g, n) && !IsPath(g, m)
    ensures var h := WithPath(WithPath(g, n), m);
              && RoomCount(h) == RoomCount(g) + 1 && LinkCount(h) == LinkCount(g) + 1
              && CarvedRooms(h) == CarvedRooms(g) + {n} && CarvedLinks(h) == CarvedLinks(g) + {m}
              && PathCells(h) == PathCells(g) + {n, m}
  {
    var g1 := WithPath(g, n);
    CarvedSetsAfter(g, n);
    CountAfter(g, n, RoomCell, CellCount);
    CountAfter(g, n, LinkCell, CellCount);
    CarvedSetsAfter(g1, m);
    CountAfter(g1, m, RoomCell, CellCount);
    CountAfter(g1, m, LinkCell, CellCount);
    CellIndex(n, 0);
    CellIndex(m, 0);
  }

  /** One carving step from the carved room `c` along move `d` into the
      walled-up room `n`: the midpoint was a wall too, and after carving `n`
      and the midpoint the carving invariant holds with one step more and
      `n` open, while fewer rooms are walled up. */
  lemma CarveStep(g: Grid, open: set<Pos>, steps: nat, c: Pos, d: (int, int))
    requires Carving(g, open, steps) && Room(c) && IsPath(g, c) && IsMove(d)
    requires Room(Offset(c, d)) && !IsPath(g, Offset(c, d))
    ensures !IsPath(g, Midpoint(c, d))
    ensures var h := WithPath(WithPath(g, Offset(c, d)), Midpoint(c, d));
              Carving(h, open + {Offset(c, d)}, steps + 1) && Extends(g, h)
  {
    var n, m := Offset(c, d), Midpoint(c, d);
    MoveGeometry(c, d);
    InCells(m);
    assert !IsPath(g, m);
    var h := WithPath(WithPath(g, n), m);
    CountsAfterCarve(g, n, m);
    assert Extends(g, h);
    ConnectedAfterCarve(g, h, c, m, n);
    JoinedAfterCarve(g, h, m);
    forall p | p in CarvedRooms(h) && p !in open + {n} ensures Closed(h, p) {
      assert p in CarvedRooms(g);
      ClosedExtends(g, h, p);
    }
  }

  /** A carved start whose every carved room is closed has every room
      carved: closedness spreads from the start across the whole lattice. */
  lemma {:induction false} RoomCarved(g: Grid, p: Pos)
    requires IsPath(g, Start)
    requires forall q :: q in CarvedRooms(g) ==> Closed(g, q)
    requires Room(p)
    ensures IsPath(g, p)
    decreases p.x + p.y
  {
    if p.x > 1 {
      var q := Pos(p.x - 2, p.y);
      RoomCarved(g, q);
      InCells(q);
      assert q in CarvedRooms(g);
    } else if p.y > 1 {
      var q := Pos(p.x, p.y - 2);
      RoomCarved(g, q);
      InCells(q);
      assert q in CarvedRooms(g);
    }
  }

  /** `dirs.shuffle(&mut rng)` on the four moves: the oracle's index picks
      the ordering. */
  method ShuffleMoves(k: nat) returns (dirs: seq<(int, int)>)
    ensures multiset(dirs) == multiset(Moves)
  {
    dirs := Permutation(Moves, k);
  }

  /** `maze[p.y][p.x] = Tile::Path`. */
  method OpenCell(maze: array2<Tile>, p: Pos, ghost g: Grid) returns (ghost h: Grid)
    requires Mirrors(maze, g) && InBounds(p)
    modifies maze
    ensures h == WithPath(g, p) && Mirrors(maze, h)
  {
    maze[p.y, p.x] := Path;
    h := WithPath(g, p);
  }

  /** A room whose neighbouring rooms are all carved can leave the stack. */
  lemma LeaveStack(g: Grid, stack: set<Pos>, c: Pos, steps: nat)
    requires Carving(g, stack + {c}, steps) && Closed(g, c)
    ensures Carving(g, stack, steps)
  {
  }

  /** Settled targets stay settled as the grid gains path tiles. */
  lemma SettledPrefix(g: Grid, h: Grid, c: Pos, dirs: seq<(int, int)>, i: nat)
    requires i < |dirs| && Extends(g, h)
    requires forall k :: 0 <= k < i ==> Settled(g, Offset(c, dirs[k]))
    requires Settled(h, Offset(c, dirs[i]))
    ensures forall k :: 0 <= k < i + 1 ==> Settled(h, Offset(c, dirs[k]))
  {
    forall k | 0 <= k < i + 1 ensures Settled(h, Offset(c, dirs[k])) {
      if k < i {
        assert Settled(g, Offset(c, dirs[k]));
      }
    }
  }

  /** Having settled the target of every move in some ordering of the four
      moves, the room is closed. */
  lemma ClosedByMoves(g: Grid, c: Pos, dirs: seq<(int, int)>)
    requires multiset(dirs) == multiset(Moves)
    requires forall k :: 0 <= k < |dirs| ==> Settled(g, Offset(c, dirs[k]))
    ensures Closed(g, c)
  {
    assert Moves[0] == (2, 0) && Moves[1] == (-2, 0) && Moves[2] == (0, 2) && Moves[3] == (0, -2);
    assert (2, 0) in multiset(dirs) && (-2, 0) in multiset(dirs);
    assert (0, 2) in multiset(dirs) && (0, -2) in multiset(dirs);
    var k0 :| 0 <= k0 < |dirs| && dirs[k0] == (2, 0);
    var k1 :| 0 <= k1 < |dirs| && dirs[k1] == (-2, 0);
    var k2 :| 0 <= k2 < |dirs| && dirs[k2] == (0, 2);
    var k3 :| 0 <= k3 < |dirs| && dirs[k3] == (0, -2);
    assert Settled(g, Offset(c, dirs[k0])) && Settled(g, Offset(c, dirs[k1]));
    assert Settled(g, Offset(c, dirs[k2])) && Settled(g, Offset(c, dirs[k3]));
  }

  /** `carve(x, y)` with `c` the cell (x, y): visit the four moves in the
      oracle's order and try each (`CarveToward`). On return every room two
      cells from `c` is carved. */
  method Carve(maze: array2<Tile>, c: Pos, shuffle: (int, int) -> nat,
               ghost g: Grid, ghost stack: set<Pos>, ghost steps: nat)
    returns (ghost h: Grid, ghost steps': nat)
    requires Mirrors(maze, g) && Room(c) && IsPath(g, c)
    requires Carving(g, stack + {c}, steps)
    modifies maze
    decreases CellCount - RoomCount(g), 1
    ensures Mirrors(maze, h) && Extends(g, h)
    ensures Carving(h, stack, steps') && steps <= steps'
    ensures Closed(h, c)
  {
    var dirs := ShuffleMoves(shuffle(c.x, c.y));
    h, steps' := g, steps;
    for i := 0 to |dirs|
      invariant Mirrors(maze, h) && Extends(g, h)
      invariant Carving(h, stack + {c}, steps') && steps <= steps'
      invariant forall k :: 0 <= k < i ==> Settled(h, Offset(c, dirs[k]))
    {
      assert dirs[i] in multiset(Moves);
      MovesAre(dirs[i]);
      ghost var before := h;
      h, steps' := CarveToward(maze, c, dirs[i], shuffle, h, stack, steps');
      SettledPrefix(before, h, c, dirs, i);
    }
    ClosedByMoves(h, c, dirs);
    LeaveStack(h, stack, c, steps');
  }

  /** One turn of the loop in `carve`, for the move `d` from `c`: when the
      target `n` is strictly inside the boundary ring and still a wall, turn
      it and the cell between into path and carve on from `n`. Either way
      the target is settled afterwards. */
  method CarveToward(maze: array2<Tile>, c: Pos, d: (int, int), shuffle: (int, int) -> nat,
                     ghost g: Grid, ghost stack: set<Pos>, ghost steps: nat)
    returns (ghost h: Grid, ghost steps': nat)
    requires Mirrors(maze, g) && Room(c) && IsPath(g, c) && IsMove(d)
    requires Carving(g, stack + {c}, steps)
    modifies maze
    decreases CellCount - RoomCount(g), 0
    ensures Mirrors(maze, h) && Extends(g, h)
    ensures Carving(h, stack + {c}, steps') && steps <= steps'
    ensures Settled(h, Offset(c, d))
  {
    var n := Offset(c, d);
    h, steps' := g, steps;
    if n.x > 0 && n.y > 0 && n.x < Width - 1 && n.y < Height - 1 {
      if maze[n.y, n.x] == Wall {
        CarveStep(g, stack + {c}, steps, c, d);
        h := OpenCell(maze, n, h);
        h := OpenCell(maze, Midpoint(c, d), h);
        h, steps' := Carve(maze, n, shuffle, h, stack + {c}, steps + 1);
      }
    }
  }

  /** The all-wall board with only the start carved is where carving
      begins: no step taken, the start on the stack. */
  lemma InitialCarving()
    ensures Carving(WithPath(AllWalls(), Start), {Start}, 0)
  {
    var g := AllWalls();
    CountNone(g, RoomCell, CellCount);
    CountNone(g, LinkCell, CellCount);
    CountAfter(g, Start, RoomCell, CellCount);
    CountAfter(g, Start, LinkCell, CellCount);
    CarvedSetsAfter(g, Start);
    var h := WithPath(g, Start);
    assert IsWalk(h, [Start]);
  }

  /** Carving that has emptied its stack has produced a finished maze. */
  lemma CarvingDone(g: Grid, steps: nat)
    requires Carving(g, {}, steps)
    ensures Generated(g) && LinkCount(g) == steps && PathCount(g) == 1 + 2 * steps
  {
    RoomCarvedEverywhere(g);
    CountSplit(g, CellCount);
  }

  /** A generated maze has all 100 rooms carved, 99 links joining them and
      199 path tiles. */
  lemma GeneratedCounts(g: Grid)
    requires Generated(g)
    ensures RoomCount(g) == 100 && LinkCount(g) == 99 && PathCount(g) == 199
  {
    AllRoomsCounted(g, CellCount);
    RoomTotal();
    CountSplit(g, CellCount);
  }

  /** `generate_maze`: an all-wall board, the start made path, then carving
      from the start. `carves` counts the carving steps: the maze has
      exactly `1 + 2 * carves` path cells, and there are 99 steps. */
  method GenerateMaze(shuffle: (int, int) -> nat) returns (maze: array2<Tile>, ghost g: Grid, ghost carves: nat)
    ensures fresh(maze) && Mirrors(maze, g) && Generated(g)
    ensures LinkCount(g) == carves && PathCount(g) == 1 + 2 * carves && carves == 99
  {
    maze := new Tile[Height, Width]((_, _) => Wall);
    g := AllWalls();
    g := OpenCell(maze, Start, g);
    InitialCarving();
    g, carves := Carve(maze, Start, shuffle, g, {}, 0);
    CarvingDone(g, carves);
    GeneratedCounts(g);
  }

  lemma RoomCarvedEverywhere(g: Grid)
    requires IsPath(g, Start)
    requires forall q :: q in CarvedRooms(g) ==> Closed(g, q)
    ensures forall p :: Room(p) ==> IsPath(g, p)
  {
    forall p | Room(p) ensures IsPath(g, p) {
      RoomCarved(g, p);
    }
  }
}
