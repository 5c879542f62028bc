/** The maze generator: an iterative randomized depth-first search (recursive
    backtracker) that carves "rooms" at odd coordinates and the "passages"
    between them out of a grid that starts as solid wall. */
module MazeGenerator {
  import opened Cells
  import opened Paths

  /** The carving starts at (1, 1); the player also starts there. */
  const Start := Pos(1, 1)

  /** The goal cell, (cols - 2, rows - 2). */
  function Goal(cols: int, rows: int): Pos {
    Pos(cols - 2, rows - 2)
  }

  /** Strictly inside the outer ring of the grid. */
  predicate Interior(cols: int, rows: int, p: Pos) {
    0 < p.x < cols - 1 && 0 < p.y < rows - 1
  }

  /** On the outer ring of the grid. */
  predicate OnBorder(cols: int, rows: int, p: Pos) {
    InBounds(cols, rows, p) && !Interior(cols, rows, p)
  }

  predicate Odd(n: int) {
    n % 2 == 1
  }

  /** A room: an interior cell with two odd coordinates. */
  predicate Room(cols: int, rows: int, p: Pos) {
    Odd(p.x) && Odd(p.y) && Interior(cols, rows, p)
  }

  /** A passage: the cell midway between two rooms that are next to each
      other along one axis. */
  predicate Passage(cols: int, rows: int, p: Pos) {
    || (Room(cols, rows, Pos(p.x - 1, p.y)) && Room(cols, rows, Pos(p.x + 1, p.y)))
    || (Room(cols, rows, Pos(p.x, p.y - 1)) && Room(cols, rows, Pos(p.x, p.y + 1)))
  }

  /** The only cells the carving loop can open. */
  predicate Carvable(cols: int, rows: int, p: Pos) {
    Room(cols, rows, p) || Passage(cols, rows, p)
  }

  /** `b` is exactly two cells from `a` along one axis. */
  predicate TwoApart(a: Pos, b: Pos) {
    || (a.x == b.x && (b.y == a.y - 2 || b.y == a.y + 2))
    || (a.y == b.y && (b.x == a.x - 2 || b.x == a.x + 2))
  }

  /** The search order of the neighbour scan: up, right, down, left. */
  const Directions: seq<Pos> := [Pos(0, -2), Pos(2, 0), Pos(0, 2), Pos(-2, 0)]

  function Offset(p: Pos, d: Pos): Pos {
    Pos(p.x + d.x, p.y + d.y)
  }

  /** Where `n` comes in the search order around `c`
      (0 up, 1 right, 2 down, 3 anything else). */
  function Rank(c: Pos, n: Pos): int {
    if n == Pos(c.x, c.y - 2) then 0
    else if n == Pos(c.x + 2, c.y) then 1
    else if n == Pos(c.x, c.y + 2) then 2
    else 3
  }

  lemma RankOfDirection(c: Pos, j: int)
    requires 0 <= j < |Directions|
    ensures Rank(c, Offset(c, Directions[j])) == j
  {
  }

  lemma TwoApartIsDirection(c: Pos, n: Pos)
    ensures TwoApart(c, n) <==> exists j :: 0 <= j < |Directions| && n == Offset(c, Directions[j])
  {
    if TwoApart(c, n) {
      if n == Offset(c, Directions[0]) {
      } else if n == Offset(c, Directions[1]) {
      } else if n == Offset(c, Directions[2]) {
      } else {
        assert n == Offset(c, Directions[3]);
      }
    }
  }

  /** The candidate test of the neighbour scan: two steps away along one
      axis, strictly inside the border, and still a wall. */
  predicate IsUnvisitedNeighbor(g: Grid, cols: int, rows: int, c: Pos, n: Pos) {
    TwoApart(c, n) && Interior(cols, rows, n) && IsWall(g, n)
  }

  /** The scan over `Directions[i..]`. */
  function ScanDirections(g: Grid, cols: int, rows: int, c: Pos, i: nat): (r: seq<Pos>)
    requires i <= |Directions|
    ensures |r| <= |Directions| - i
    ensures forall n :: n in r <==>
      (exists j :: i <= j < |Directions| && n == Offset(c, Directions[j]) && Interior(cols, rows, n) && IsWall(g, n))
    ensures forall a :: 0 <= a < |r| ==> i <= Rank(c, r[a])
    ensures forall a, b :: 0 <= a < b < |r| ==> Rank(c, r[a]) < Rank(c, r[b])
    decreases |Directions| - i
  {
    if i == |Directions| then []
    else
      var n := Offset(c, Directions[i]);
      var rest := ScanDirections(g, cols, rows, c, i + 1);
      RankOfDirection(c, i);
      forall m ensures (exists j :: i <= j < |Directions| && m == Offset(c, Directions[j]) && Interior(cols, rows, m) && IsWall(g, m))
                   <==> (m == n && Interior(cols, rows, n) && IsWall(g, n)) || m in rest {
        if exists j :: i <= j < |Directions| && m == Offset(c, Directions[j]) && Interior(cols, rows, m) && IsWall(g, m) {
          var j :| i <= j < |Directions| && m == Offset(c, Directions[j]) && Interior(cols, rows, m) && IsWall(g, m);
          if j != i {
            assert m in rest;
          }
        }
      }
      if Interior(cols, rows, n) && IsWall(g, n) then [n] + rest else rest
  }

  /** The unvisited neighbours of room `c`, in the order up, right, down, left. */
  function UnvisitedNeighbors(g: Grid, cols: int, rows: int, c: Pos): (r: seq<Pos>)
    ensures |r| <= 4
    ensures forall n :: n in r <==> IsUnvisitedNeighbor(g, cols, rows, c, n)
    ensures forall a, b :: 0 <= a < b < |r| ==> Rank(c, r[a]) < Rank(c, r[b])
  {
    forall n ensures TwoApart(c, n) <==> exists j :: 0 <= j < |Directions| && n == Offset(c, Directions[j]) {
      TwoApartIsDirection(c, n);
    }
    ScanDirections(g, cols, rows, c, 0)
  }

  /** The passage cell between a room and the neighbour chosen from it.
      The difference of the two coordinates is 0 or 2 in magnitude, so the
      halving is exact. */
  function Midpoint(a: Pos, b: Pos): (m: Pos)
    requires TwoApart(a, b)
    ensures a.x + b.x == 2 * m.x && a.y + b.y == 2 * m.y
    ensures UnitStep(a, m) && UnitStep(m, b)
  {
    Pos(a.x + (b.x - a.x) / 2, a.y + (b.y - a.y) / 2)
  }

  /** The state of the carving loop: the grid and the stack of rooms. */
  datatype Carving = Carving(maze: Grid, stack: seq<Pos>)

  function Top(stack: seq<Pos>): Pos
    requires |stack| > 0
  {
    stack[|stack| - 1]
  }

  /** What one iteration of the loop needs: a shaped grid and a stack whose
      top is an interior cell. */
  predicate CanStep(cols: int, rows: int, s: Carving) {
    && |s.stack| > 0
    && Shaped(s.maze, cols, rows)
    && Interior(cols, rows, Top(s.stack))
  }

  /** One iteration of the carving loop. Either a still-walled neighbour of
      the top is opened together with the cell midway, and pushed, or the top
      has none and is popped. The neighbour taken is the one at index
      `pick % |ns|`: `pick` stands for the random draw, and every index in
      range is taken for some `pick`. */
  function Step(cols: int, rows: int, s: Carving, pick: nat): (t: Carving)
    requires CanStep(cols, rows, s)
    ensures Opens(s.maze, t.maze)
    ensures WallCells(t.maze) < WallCells(s.maze) || (t.maze == s.maze && |t.stack| < |s.stack|)
    ensures || (exists n :: (IsUnvisitedNeighbor(s.maze, cols, rows, Top(s.stack), n) && t.stack == s.stack + [n]
                                 && IsOpen(t.maze, n) && IsOpen(t.maze, Midpoint(Top(s.stack), n))
                                 && t.maze == Carve(s.maze, Top(s.stack), n)))
            || (UnvisitedNeighbors(s.maze, cols, rows, Top(s.stack)) == []
                && t == Carving(s.maze, s.stack[..|s.stack| - 1]))
  {
    var current := Top(s.stack);
    var ns := UnvisitedNeighbors(s.maze, cols, rows, current);
    if |ns| > 0 then
      var next := ns[pick % |ns|];
      assert IsUnvisitedNeighbor(s.maze, cols, rows, current, next);
      var h := Carve(s.maze, current, next);
      OpeningShrinksWalls(s.maze, h, next);
      Carving(h, s.stack + [next])
    else
      Carving(s.maze, s.stack[..|s.stack| - 1])
  }

  /** Every room two steps from `p` is open. */
  ghost predicate NeighborsOpen(g: Grid, cols: int, rows: int, p: Pos) {
    forall n :: TwoApart(p, n) && Room(cols, rows, n) ==> IsOpen(g, n)
  }

  /** Only rooms and passages are open. */
  ghost predicate CarvedOnly(g: Grid, cols: int, rows: int) {
    forall p :: IsOpen(g, p) ==> Carvable(cols, rows, p)
  }

  /** The stack is a path of open rooms from the start: each entry two cells
      from the one below it, with the cell between them open, and no room on
      it twice. */
  ghost predicate StackPath(g: Grid, cols: int, rows: int, stack: seq<Pos>) {
    && (forall i :: 0 <= i < |stack| ==> Room(cols, rows, stack[i]) && IsOpen(g, stack[i]))
    && (forall i :: 0 <= i < |stack| - 1 ==>
          TwoApart(stack[i], stack[i + 1]) && IsOpen(g, Midpoint(stack[i], stack[i + 1])))
    && (forall i, j :: 0 <= i < j < |stack| ==> stack[i] != stack[j])
    && (|stack| > 0 ==> stack[0] == Start)
  }

  /** The invariant of the carving loop. An open room off the stack has no
      walled room left next to it, and every open room is connected to the
      start. */
  ghost predicate Invariant(cols: int, rows: int, s: Carving) {
    && Shaped(s.maze, cols, rows)
    && IsOpen(s.maze, Start)
    && CarvedOnly(s.maze, cols, rows)
    && StackPath(s.maze, cols, rows, s.stack)
    && (forall p :: Room(cols, rows, p) && IsOpen(s.maze, p) && p !in s.stack ==>
          NeighborsOpen(s.maze, cols, rows, p))
    && (forall p {:trigger Reachable(s.maze, Start, p)} :: Room(cols, rows, p) && IsOpen(s.maze, p) ==> Reachable(s.maze, Start, p))
  }

  /** A room two steps from a room is a room; the cell between is a passage. */
  lemma NextIsRoom(cols: int, rows: int, c: Pos, n: Pos)
    requires Room(cols, rows, c) && TwoApart(c, n) && Interior(cols, rows, n)
    ensures Room(cols, rows, n)
    ensures Passage(cols, rows, Midpoint(c, n)) && !Room(cols, rows, Midpoint(c, n))
  {
  }

  /** A popped room has no walled room next to it. */
  lemma PoppedIsFinished(g: Grid, cols: int, rows: int, c: Pos)
    requires Shaped(g, cols, rows)
    requires forall n :: !IsUnvisitedNeighbor(g, cols, rows, c, n)
    ensures NeighborsOpen(g, cols, rows, c)
  {
    forall n | TwoApart(c, n) && Room(cols, rows, n) ensures IsOpen(g, n) {
      assert !IsUnvisitedNeighbor(g, cols, rows, c, n);
    }
  }

  lemma InitialInvariant(cols: int, rows: int, g: Grid)
    requires cols >= 3 && rows >= 3
    requires Shaped(g, cols, rows)
    requires forall p :: IsOpen(g, p) <==> p == Start
    ensures Invariant(cols, rows, Carving(g, [Start]))
  {
    ReachableFromItself(g, Start);
  }

  /** The grid after a push: `next` and the cell midway opened. */
  function Carve(g: Grid, current: Pos, next: Pos): (h: Grid)
    requires TwoApart(current, next)
    requires InGrid(g, Midpoint(current, next)) && InGrid(g, next)
    ensures Opens(g, h)
    ensures IsOpen(h, next) && IsOpen(h, Midpoint(current, next))
    ensures forall q :: IsOpen(h, q) ==> q == next || q == Midpoint(current, next) || IsOpen(g, q)
  {
    SetOpen(SetOpen(g, Midpoint(current, next)), next)
  }

  /** A push opens only a room and a passage. */
  lemma PushKeepsCarved(cols: int, rows: int, g: Grid, current: Pos, next: Pos)
    requires CarvedOnly(g, cols, rows) && Shaped(g, cols, rows)
    requires Room(cols, rows, current) && IsUnvisitedNeighbor(g, cols, rows, current, next)
    ensures CarvedOnly(Carve(g, current, next), cols, rows)
  {
    NextIsRoom(cols, rows, current, next);
  }

  /** A push extends the stack path by one room. */
  lemma PushKeepsStackPath(cols: int, rows: int, g: Grid, stack: seq<Pos>, next: Pos)
    requires Shaped(g, cols, rows) && StackPath(g, cols, rows, stack) && |stack| > 0
    requires IsUnvisitedNeighbor(g, cols, rows, Top(stack), next)
    ensures StackPath(Carve(g, Top(stack), next), cols, rows, stack + [next])
  {
    var current := Top(stack);
    NextIsRoom(cols, rows, current, next);
    var h := Carve(g, current, next);
    var t := stack + [next];
    assert next !in stack;
    forall i | 0 <= i < |t| - 1
      ensures TwoApart(t[i], t[i + 1]) && IsOpen(h, Midpoint(t[i], t[i + 1]))
    {
      if i < |stack| - 1 {
        assert t[i] == stack[i] && t[i + 1] == stack[i + 1];
      } else {
        assert t[i] == current && t[i + 1] == next;
      }
    }
    forall i | 0 <= i < |t| ensures Room(cols, rows, t[i]) && IsOpen(h, t[i]) {
      if i < |stack| {
        assert t[i] == stack[i];
      }
    }
  }

  /** A push leaves finished rooms finished. */
  lemma PushKeepsFinished(cols: int, rows: int, g: Grid, stack: seq<Pos>, next: Pos)
    requires Shaped(g, cols, rows) && |stack| > 0 && Room(cols, rows, Top(stack))
    requires forall p :: Room(cols, rows, p) && IsOpen(g, p) && p !in stack ==> NeighborsOpen(g, cols, rows, p)
    requires IsUnvisitedNeighbor(g, cols, rows, Top(stack), next)
    ensures var h := Carve(g, Top(stack), next);
      forall p :: Room(cols, rows, p) && IsOpen(h, p) && p !in stack + [next] ==> NeighborsOpen(h, cols, rows, p)
  {
    var current := Top(stack);
    NextIsRoom(cols, rows, current, next);
    var h := Carve(g, current, next);
    forall p | Room(cols, rows, p) && IsOpen(h, p) && p !in stack + [next]
      ensures NeighborsOpen(h, cols, rows, p)
    {
      assert p != next && p != Midpoint(current, next);
      assert IsOpen(g, p) && p !in stack;
      assert NeighborsOpen(g, cols, rows, p);
    }
  }

  /** A push keeps every open room connected to the start. */
  lemma PushKeepsConnected(cols: int, rows: int, g: Grid, current: Pos, next: Pos)
    requires Shaped(g, cols, rows) && Room(cols, rows, current) && IsOpen(g, current)
    requires forall p {:trigger Reachable(g, Start, p)} :: Room(cols, rows, p) && IsOpen(g, p) ==> Reachable(g, Start, p)
    requires IsUnvisitedNeighbor(g, cols, rows, current, next)
    ensures var h := Carve(g, current, next);
      forall p {:trigger Reachable(h, Start, p)} :: Room(cols, rows, p) && IsOpen(h, p) ==> Reachable(h, Start, p)
  {
    NextIsRoom(cols, rows, current, next);
    var wall := Midpoint(current, next);
    var h := Carve(g, current, next);
    ReachableSurvivesOpening(g, h, Start);
    assert Reachable(h, Start, current);
    ReachableStep(h, Start, current, wall);
    ReachableStep(h, Start, wall, next);
    forall p | Room(cols, rows, p) && IsOpen(h, p) ensures Reachable(h, Start, p) {
      if p != next {
        assert p != wall;
        assert IsOpen(g, p);
      }
    }
  }

  /** A pop keeps the invariant: the popped room has no walled room left
      next to it. */
  lemma PopKeepsInvariant(cols: int, rows: int, s: Carving)
    requires Invariant(cols, rows, s) && |s.stack| > 0
    requires NeighborsOpen(s.maze, cols, rows, Top(s.stack))
    ensures Invariant(cols, rows, Carving(s.maze, s.stack[..|s.stack| - 1]))
  {
    var stack := s.stack;
    var current := Top(stack);
    var rest := stack[..|stack| - 1];
    forall p | p in stack ensures p in rest || p == current {
      var i :| 0 <= i < |stack| && stack[i] == p;
      if i < |stack| - 1 {
        assert rest[i] == p;
      }
    }
    assert StackPath(s.maze, cols, rows, rest) by {
      forall i | 0 <= i < |rest| ensures rest[i] == stack[i] { }
    }
  }

  /** A push keeps the invariant. */
  lemma PushKeepsInvariant(cols: int, rows: int, s: Carving, next: Pos)
    requires Invariant(cols, rows, s) && |s.stack| > 0
    requires IsUnvisitedNeighbor(s.maze, cols, rows, Top(s.stack), next)
    ensures Invariant(cols, rows, Carving(Carve(s.maze, Top(s.stack), next), s.stack + [next]))
  {
    var g, stack := s.maze, s.stack;
    var current := Top(stack);
    assert Room(cols, rows, current);
    PushKeepsCarved(cols, rows, g, current, next);
    PushKeepsStackPath(cols, rows, g, stack, next);
    PushKeepsFinished(cols, rows, g, stack, next);
    PushKeepsConnected(cols, rows, g, current, next);
  }

  /** One iteration keeps the invariant. */
  lemma StepPreservesInvariant(cols: int, rows: int, s: Carving, pick: nat)
    requires Invariant(cols, rows, s) && |s.stack| > 0
    ensures CanStep(cols, rows, s)
    ensures Invariant(cols, rows, Step(cols, rows, s, pick))
  {
    var g, stack := s.maze, s.stack;
    var current := Top(stack);
    assert Room(cols, rows, current);
    var ns := UnvisitedNeighbors(g, cols, rows, current);
    if |ns| > 0 {
      var next := ns[pick % |ns|];
      assert IsUnvisitedNeighbor(g, cols, rows, current, next);
      assert Step(cols, rows, s, pick) == Carving(Carve(g, current, next), stack + [next]);
      PushKeepsInvariant(cols, rows, s, next);
    } else {
      PoppedIsFinished(g, cols, rows, current);
      PopKeepsInvariant(cols, rows, s);
    }
  }

  /** With every open room finished, every room is open: the grid of rooms
      is connected, so the search cannot have missed one. */
  lemma {:induction false} RoomOpen(g: Grid, cols: int, rows: int, p: Pos)
    requires IsOpen(g, Start)
    requires forall q :: Room(cols, rows, q) && IsOpen(g, q) ==> NeighborsOpen(g, cols, rows, q)
    requires Room(cols, rows, p)
    ensures IsOpen(g, p)
    decreases p.x + p.y
  {
    if p == Start {
    } else if p.x > 1 {
      var q := Pos(p.x - 2, p.y);
      assert Room(cols, rows, q);
      RoomOpen(g, cols, rows, q);
      assert TwoApart(q, p);
    } else {
      var q := Pos(p.x, p.y - 2);
      assert Room(cols, rows, q);
      RoomOpen(g, cols, rows, q);
      assert TwoApart(q, p);
    }
  }

  /** Builds the grid of `rows` rows of `cols` walls. */
  method FillWalls(cols: nat, rows: nat) returns (g: Grid)
    ensures Shaped(g, cols, rows)
    ensures forall p :: InBounds(cols, rows, p) ==> IsWall(g, p)
  {
    g := [];
    var y := 0;
    while y < rows
      invariant 0 <= y <= rows
      invariant |g| == y
      invariant forall i :: 0 <= i < y ==> |g[i]| == cols
      invariant forall i, j :: 0 <= i < y && 0 <= j < cols ==> g[i][j] == Wall
    {
      var row := [];
      var x := 0;
      while x < cols
        invariant 0 <= x <= cols
        invariant |row| == x
        invariant forall j :: 0 <= j < x ==> row[j] == Wall
      {
        row := row + [Wall];
        x := x + 1;
      }
      g := g + [row];
      y := y + 1;
    }
  }

  /** The defensive step after the loop: open the start and the goal. */
  function OpenEnds(g: Grid, cols: int, rows: int): (h: Grid)
    requires InGrid(g, Start) && InGrid(g, Goal(cols, rows))
    ensures Opens(g, h)
    ensures IsOpen(h, Start) && IsOpen(h, Goal(cols, rows))
    ensures forall q :: q != Start && q != Goal(cols, rows) ==> (IsOpen(h, q) <==> IsOpen(g, q))
  {
    SetOpen(SetOpen(g, Start), Goal(cols, rows))
  }

  /** Re-opening the ends of a grid whose ends are open changes nothing. */
  lemma OpenEndsIdempotent(g: Grid, cols: int, rows: int)
    requires InGrid(g, Start) && InGrid(g, Goal(cols, rows))
    ensures OpenEnds(OpenEnds(g, cols, rows), cols, rows) == OpenEnds(g, cols, rows)
    ensures IsOpen(g, Start) && IsOpen(g, Goal(cols, rows)) ==> OpenEnds(g, cols, rows) == g
  {
    var h := OpenEnds(g, cols, rows);
    assert SetOpen(h, Start) == h;
  }

  /** The carving loop, from the grid whose only open cell is the start
      until the stack is empty. The random choice of a neighbour is any index
      in range. */
  method Search(cols: int, rows: int, initial: Grid) returns (carved: Grid)
    requires cols >= 3 && rows >= 3
    requires Shaped(initial, cols, rows)
    requires forall p :: IsOpen(initial, p) <==> p == Start
    ensures Shaped(carved, cols, rows) && Opens(initial, carved)
    ensures CarvedOnly(carved, cols, rows)
    ensures forall p :: Room(cols, rows, p) ==> IsOpen(carved, p)
    ensures forall p {:trigger Reachable(carved, Start, p)} :: Room(cols, rows, p) ==> Reachable(carved, Start, p)
  {
    InitialInvariant(cols, rows, initial);
    var s := Carving(initial, [Start]);
    while |s.stack| > 0
      invariant Invariant(cols, rows, s)
      invariant Opens(initial, s.maze)
      decreases WallCells(s.maze), |s.stack|
    {
      var ns := UnvisitedNeighbors(s.maze, cols, rows, Top(s.stack));
      var pick: nat := 0;
      if |ns| > 0 {
        pick :| pick < |ns|;
      }
      StepPreservesInvariant(cols, rows, s, pick);
      s := Step(cols, rows, s, pick);
    }
    carved := s.maze;
    forall p | Room(cols, rows, p) ensures IsOpen(carved, p) {
      RoomOpen(carved, cols, rows, p);
    }
  }

  /** What the grid looks like once the ends are opened. */
  lemma Finish(cols: int, rows: int, carved: Grid)
    requires cols >= 3 && rows >= 3
    requires Shaped(carved, cols, rows) && CarvedOnly(carved, cols, rows)
    requires forall p :: Room(cols, rows, p) ==> IsOpen(carved, p)
    requires forall p {:trigger Reachable(carved, Start, p)} :: Room(cols, rows, p) ==> Reachable(carved, Start, p)
    ensures var g := OpenEnds(carved, cols, rows);
      && (forall p :: OnBorder(cols, rows, p) ==> IsWall(g, p))
      && (forall p :: IsOpen(g, p) ==> Carvable(cols, rows, p) || p == Goal(cols, rows))
      && (forall p {:trigger Reachable(g, Start, p)} :: IsOpen(g, p) && Carvable(cols, rows, p) ==> Reachable(g, Start, p))
  {
    var g := OpenEnds(carved, cols, rows);
    forall p | OnBorder(cols, rows, p) ensures IsWall(g, p) {
      assert InGrid(g, p);
      assert !Carvable(cols, rows, p);
    }
    ReachableSurvivesOpening(carved, g, Start);
    forall p | IsOpen(g, p) && Carvable(cols, rows, p) ensures Reachable(g, Start, p) {
      if !Room(cols, rows, p) {
        var r := if Room(cols, rows, Pos(p.x - 1, p.y)) && Room(cols, rows, Pos(p.x + 1, p.y))
          then Pos(p.x - 1, p.y) else Pos(p.x, p.y - 1);
        assert Room(cols, rows, r) && UnitStep(r, p);
        ReachableStep(g, Start, r, p);
      }
    }
  }

  /** Generates a maze of `cols` by `rows` cells. */
  method Generate(cols: int, rows: int) returns (g: Grid)
    requires cols >= 3 && rows >= 3
    ensures Shaped(g, cols, rows)
    ensures forall p :: OnBorder(cols, rows, p) ==> IsWall(g, p)
    ensures forall p :: IsOpen(g, p) ==> Carvable(cols, rows, p) || p == Goal(cols, rows)
    ensures IsOpen(g, Start) && IsOpen(g, Goal(cols, rows))
    ensures forall p :: Room(cols, rows, p) ==> IsOpen(g, p)
    ensures forall p {:trigger Reachable(g, Start, p)} :: IsOpen(g, p) && Carvable(cols, rows, p) ==> Reachable(g, Start, p)
  {
    g := FillWalls(cols, rows);
    assert forall p :: !IsOpen(g, p) by {
      forall p | InGrid(g, p) ensures IsWall(g, p) {
        assert InBounds(cols, rows, p);
      }
    }
    g := SetOpen(g, Start);
    var carved := Search(cols, rows, g);
    g := OpenEnds(carved, cols, rows);
    Finish(cols, rows, carved);
  }
}
