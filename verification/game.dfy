/** The player's side of the game: the key bindings, the move rule checked
    against the generated maze, and the goal test after each accepted move. */
module Game {
  import opened Cells
  import opened Paths
  import opened MazeGenerator
  import opened Wrappers

  /** The shipped grid size: 20 columns by 20 rows. */
  const ShippedCols := 20
  const ShippedRows := 20

  /** A step of the player. */
  datatype Delta = Delta(dx: int, dy: int)

  /** One cell along one axis. */
  predicate UnitDelta(d: Delta) {
    || (d.dx == 0 && (d.dy == 1 || d.dy == -1))
    || (d.dy == 0 && (d.dx == 1 || d.dx == -1))
  }

  function Target(p: Pos, d: Delta): Pos {
    Pos(p.x + d.dx, p.y + d.dy)
  }

  /** The difference between two cells, as a step. */
  function DeltaBetween(a: Pos, b: Pos): (d: Delta)
    ensures Target(a, d) == b
    ensures UnitStep(a, b) <==> UnitDelta(d)
  {
    Delta(b.x - a.x, b.y - a.y)
  }

  /** The keys bound to each direction: the arrow key and its letter in
      either case. */
  const UpKeys: set<string> := {"ArrowUp", "w", "W"}
  const DownKeys: set<string> := {"ArrowDown", "s", "S"}
  const LeftKeys: set<string> := {"ArrowLeft", "a", "A"}
  const RightKeys: set<string> := {"ArrowRight", "d", "D"}

  /** The twelve keys the handler reacts to. */
  const MoveKeys: set<string> := UpKeys + DownKeys + LeftKeys + RightKeys

  const ArrowKeys: set<string> := {"ArrowUp", "ArrowDown", "ArrowLeft", "ArrowRight"}

  /** The key handler's dispatch: arrow keys and WASD, either case. Up is
      towards row 0, left towards column 0. */
  function KeyStep(key: string): (r: Option<Delta>)
    ensures r.Some? <==> key in MoveKeys
    ensures r.Some? ==> UnitDelta(r.value)
    ensures r == Some(Delta(0, -1)) <==> key in UpKeys
    ensures r == Some(Delta(0, 1)) <==> key in DownKeys
    ensures r == Some(Delta(-1, 0)) <==> key in LeftKeys
    ensures r == Some(Delta(1, 0)) <==> key in RightKeys
  {
    if key == "ArrowUp" || key == "w" || key == "W" then Some(Delta(0, -1))
    else if key == "ArrowDown" || key == "s" || key == "S" then Some(Delta(0, 1))
    else if key == "ArrowLeft" || key == "a" || key == "A" then Some(Delta(-1, 0))
    else if key == "ArrowRight" || key == "d" || key == "D" then Some(Delta(1, 0))
    else None
  }

  /** An arrow key for each unit step: every unit step is reachable from the
      keyboard. */
  function KeyFor(d: Delta): (key: string)
    requires UnitDelta(d)
    ensures key in ArrowKeys
    ensures KeyStep(key) == Some(d)
  {
    if d == Delta(0, -1) then "ArrowUp"
    else if d == Delta(0, 1) then "ArrowDown"
    else if d == Delta(-1, 0) then "ArrowLeft"
    else "ArrowRight"
  }

  /** The arrow key and both cases of its letter give the same step. */
  lemma KeysAgree(arrow: string, lower: string, upper: string)
    requires || (arrow, lower, upper) == ("ArrowUp", "w", "W")
             || (arrow, lower, upper) == ("ArrowDown", "s", "S")
             || (arrow, lower, upper) == ("ArrowLeft", "a", "A")
             || (arrow, lower, upper) == ("ArrowRight", "d", "D")
    ensures KeyStep(arrow).Some?
    ensures KeyStep(lower) == KeyStep(arrow) && KeyStep(upper) == KeyStep(arrow)
  {
  }

  /** The player after a move, and whether the goal test fired. */
  datatype MoveResult = MoveResult(player: Pos, reachedGoal: bool)

  /** The move rule: the player steps to the target when it lies in the
      `cols` by `rows` grid and is open; otherwise nothing changes. The goal
      test runs only after an accepted step. */
  function MovePlayer(g: Grid, cols: int, rows: int, goal: Pos, player: Pos, d: Delta): (r: MoveResult)
    requires Shaped(g, cols, rows)
    ensures IsOpen(g, Target(player, d)) ==> r.player == Target(player, d)
    ensures !IsOpen(g, Target(player, d)) ==> r.player == player
    ensures r.reachedGoal <==> IsOpen(g, Target(player, d)) && Target(player, d) == goal
  {
    var newX := player.x + d.dx;
    var newY := player.y + d.dy;
    if newX >= 0 && newX < cols && newY >= 0 && newY < rows && g[newY][newX] == Open then
      MoveResult(Pos(newX, newY), newX == goal.x && newY == goal.y)
    else
      MoveResult(player, false)
  }

  /** One key press. */
  function HandleKey(g: Grid, cols: int, rows: int, goal: Pos, player: Pos, key: string): (r: MoveResult)
    requires Shaped(g, cols, rows)
    ensures r.player == player || (UnitStep(player, r.player) && IsOpen(g, r.player))
    ensures key !in MoveKeys ==> r == MoveResult(player, false)
    ensures r.reachedGoal ==> r.player == goal && UnitStep(player, r.player)
    ensures key in MoveKeys ==> r == MovePlayer(g, cols, rows, goal, player, KeyStep(key).value)
  {
    match KeyStep(key)
    case None => MoveResult(player, false)
    case Some(d) =>
      var r := MovePlayer(g, cols, rows, goal, player, d);
      assert r.player != player ==> r.player == Target(player, d);
      r
  }

  /** A sequence of key presses within one level. The level ends at the
      first move that reaches the goal; later keys belong to the next level. */
  function Play(g: Grid, cols: int, rows: int, goal: Pos, player: Pos, keys: seq<string>): (r: MoveResult)
    requires Shaped(g, cols, rows)
    ensures IsOpen(g, player) ==> IsOpen(g, r.player)
    ensures r.reachedGoal ==> r.player == goal
    decreases |keys|
  {
    if keys == [] then MoveResult(player, false)
    else
      var m := HandleKey(g, cols, rows, goal, player, keys[0]);
      if m.reachedGoal then m else Play(g, cols, rows, goal, m.player, keys[1..])
  }

  /** With both sizes even, no carvable cell touches the goal: a passage
      next to it would need a room on the border. */
  lemma GoalWalledIn(g: Grid, cols: int, rows: int)
    requires cols >= 4 && rows >= 4 && !Odd(cols) && !Odd(rows)
    requires forall p :: IsOpen(g, p) ==> Carvable(cols, rows, p) || p == Goal(cols, rows)
    ensures forall q :: UnitStep(q, Goal(cols, rows)) ==> !IsOpen(g, q)
  {
    var goal := Goal(cols, rows);
    forall q | UnitStep(q, goal) ensures !Carvable(cols, rows, q) {
    }
  }

  /** With both sizes even, a player who starts on an open cell other than
      the goal never reaches it, whatever keys are pressed. */
  lemma {:induction false} NeverReachesGoal(g: Grid, cols: int, rows: int, player: Pos, keys: seq<string>)
    requires Shaped(g, cols, rows)
    requires cols >= 4 && rows >= 4 && !Odd(cols) && !Odd(rows)
    requires forall p :: IsOpen(g, p) ==> Carvable(cols, rows, p) || p == Goal(cols, rows)
    requires IsOpen(g, player) && player != Goal(cols, rows)
    ensures !Play(g, cols, rows, Goal(cols, rows), player, keys).reachedGoal
    ensures Play(g, cols, rows, Goal(cols, rows), player, keys).player != Goal(cols, rows)
    decreases |keys|
  {
    var goal := Goal(cols, rows);
    if keys != [] {
      GoalWalledIn(g, cols, rows);
      var m := HandleKey(g, cols, rows, goal, player, keys[0]);
      assert m.player != goal;
      NeverReachesGoal(g, cols, rows, m.player, keys[1..]);
    }
  }

  /** The shipped 20 by 20 level cannot be won: the goal (18, 18) is opened
      only by the forcing step and is walled in on all four sides. */
  lemma ShippedLevelUnwinnable(g: Grid, keys: seq<string>)
    requires Shaped(g, ShippedCols, ShippedRows)
    requires forall p :: IsOpen(g, p) ==>
      Carvable(ShippedCols, ShippedRows, p) || p == Goal(ShippedCols, ShippedRows)
    requires IsOpen(g, Start)
    ensures !Play(g, ShippedCols, ShippedRows, Goal(ShippedCols, ShippedRows), Start, keys).reachedGoal
  {
    NeverReachesGoal(g, ShippedCols, ShippedRows, Start, keys);
  }

  /** The keys that walk along `path`, one per step. */
  function KeysAlong(path: seq<Pos>): (keys: seq<string>)
    requires forall i :: 0 <= i < |path| - 1 ==> UnitStep(path[i], path[i + 1])
    ensures |keys| == if path == [] then 0 else |path| - 1
    ensures forall i :: 0 <= i < |keys| ==> KeyStep(keys[i]) == Some(DeltaBetween(path[i], path[i + 1]))
  {
    if |path| <= 1 then []
    else
      var first := DeltaBetween(path[0], path[1]);
      [KeyFor(first)] + KeysAlong(path[1..])
  }

  /** Pressing the keys along a walk over open cells that ends at the goal
      reaches the goal. */
  lemma {:induction false} FollowPath(g: Grid, cols: int, rows: int, goal: Pos, path: seq<Pos>)
    requires Shaped(g, cols, rows)
    requires IsPath(g, path) && path[0] != goal && path[|path| - 1] == goal
    ensures Play(g, cols, rows, goal, path[0], KeysAlong(path)).reachedGoal
    decreases |path|
  {
    var keys := KeysAlong(path);
    assert |path| >= 2;
    var m := HandleKey(g, cols, rows, goal, path[0], keys[0]);
    assert Target(path[0], DeltaBetween(path[0], path[1])) == path[1];
    assert IsOpen(g, path[1]);
    assert m.player == path[1];
    if !m.reachedGoal {
      var rest := path[1..];
      assert IsPath(g, rest);
      assert KeysAlong(rest) == keys[1..];
      FollowPath(g, cols, rows, goal, rest);
    }
  }

  /** With both sizes odd the goal is a room, and a maze as generated can be
      won from the start (unless the grid is 3 by 3, where the start is the
      goal and no move is ever accepted). */
  lemma OddLevelWinnable(g: Grid, cols: int, rows: int)
    requires Shaped(g, cols, rows)
    requires cols >= 3 && rows >= 3 && Odd(cols) && Odd(rows) && (cols > 3 || rows > 3)
    requires IsOpen(g, Goal(cols, rows))
    requires forall p {:trigger Reachable(g, Start, p)} :: IsOpen(g, p) && Carvable(cols, rows, p) ==> Reachable(g, Start, p)
    ensures exists keys :: Play(g, cols, rows, Goal(cols, rows), Start, keys).reachedGoal
  {
    var goal := Goal(cols, rows);
    assert Room(cols, rows, goal);
    assert Reachable(g, Start, goal);
    var path :| IsPath(g, path) && path[0] == Start && path[|path| - 1] == goal;
    FollowPath(g, cols, rows, goal, path);
  }

  /** A new level: a freshly generated maze, the player at (1, 1) and the
      goal at (cols - 2, rows - 2). Whether it can be won depends on the
      parity of the sizes. */
  method StartLevel(cols: int, rows: int) returns (g: Grid, player: Pos, goal: Pos)
    requires cols >= 3 && rows >= 3
    ensures Shaped(g, cols, rows) && IsOpen(g, player) && IsOpen(g, goal)
    ensures player == Start && goal == Goal(cols, rows)
    ensures !Odd(cols) && !Odd(rows) ==>
      forall keys :: !Play(g, cols, rows, goal, player, keys).reachedGoal
    ensures Odd(cols) && Odd(rows) && (cols > 3 || rows > 3) ==>
      exists keys :: Play(g, cols, rows, goal, player, keys).reachedGoal
  {
    g := Generate(cols, rows);
    player := Start;
    goal := Goal(cols, rows);
    if !Odd(cols) && !Odd(rows) {
      forall keys ensures !Play(g, cols, rows, goal, player, keys).reachedGoal {
        NeverReachesGoal(g, cols, rows, player, keys);
      }
    }
    if Odd(cols) && Odd(rows) && (cols > 3 || rows > 3) {
      OddLevelWinnable(g, cols, rows);
    }
  }

  /** The level as shipped, 20 by 20: no key sequence wins it. */
  method StartShippedLevel() returns (g: Grid, player: Pos, goal: Pos)
    ensures Shaped(g, ShippedCols, ShippedRows)
    ensures player == Start && goal == Pos(18, 18) && IsOpen(g, goal)
    ensures forall keys :: !Play(g, ShippedCols, ShippedRows, goal, player, keys).reachedGoal
  {
    g, player, goal := StartLevel(ShippedCols, ShippedRows);
  }
}
