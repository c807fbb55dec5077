/**
 * The orthogonal explorer (`Explorer` of the A* solver with backtracking):
 * four neighbours, unit step cost, Manhattan heuristic.  Its fields are the
 * source's; the maze it reads never changes.
 */
module Enhanced {
  import opened Wrappers
  import opened Seqs
  import opened Grid
  import opened Explorers
  import AStar
  import Recovery

  /** `direction` after `turn_right`: `(x, y)` becomes `(-y, x)`, a quarter turn
      clockwise on a grid whose `y` grows downwards. */
  function TurnedRight(d: Cell): (r: Cell)
    ensures Abs(r.x) + Abs(r.y) == Abs(d.x) + Abs(d.y)
  {
    Cell(-d.y, d.x)
  }

  /** A right turn is a quarter turn: the new facing is perpendicular to the
      old one and lies clockwise of it (the grid's `y` grows downwards). */
  lemma TurnIsQuarter(d: Cell)
    ensures TurnedRight(d).x * d.x + TurnedRight(d).y * d.y == 0
    ensures d.x * TurnedRight(d).y - d.y * TurnedRight(d).x == d.x * d.x + d.y * d.y
  {
  }

  /** `direction` after `turn_left`: a right turn undoes it. */
  function TurnedLeft(d: Cell): (r: Cell)
    ensures TurnedRight(r) == d
  {
    Cell(d.y, -d.x)
  }

  /** Turning keeps a unit orthogonal step one. */
  lemma TurnsKeepMoves(d: Cell)
    requires IsMove(Orthogonal, d)
    ensures IsMove(Orthogonal, TurnedRight(d)) && IsMove(Orthogonal, TurnedLeft(d))
  {
  }

  /** A left turn undoes a right one and is the same as three right turns;
      four right turns face the original way again. */
  lemma FourRightTurns(d: Cell)
    ensures TurnedLeft(TurnedRight(d)) == d
    ensures TurnedLeft(d) == TurnedRight(TurnedRight(TurnedRight(d)))
    ensures TurnedRight(TurnedRight(TurnedRight(TurnedRight(d)))) == d
  {
  }

  class Explorer {
    const maze: Maze
    var x: int
    var y: int
    var direction: Cell
    var moves: seq<Cell>
    var moveHistory: seq<Cell>
    var backtrackPath: seq<Cell>
    var backtrackCount: nat
    var lastJunction: Option<Cell>

    /** The facing is an orthogonal unit step, the history deque holds the last
        three moves, and a recorded junction is one. */
    ghost predicate Valid()
      reads this
    {
      && IsMove(Orthogonal, direction)
      && moveHistory == Recent(moves)
      && (lastJunction.Some? ==> IsJunction(maze, Orthogonal, lastJunction.value))
    }

    function Position(): Cell
      reads this
    {
      Cell(x, y)
    }

    /** `__init__`: at the maze's start, facing right, with nothing recorded. */
    constructor (maze: Maze)
      ensures Valid()
      ensures this.maze == maze && Position() == maze.startPos && direction == Cell(1, 0)
      ensures moves == [] && moveHistory == [] && backtrackPath == [] && backtrackCount == 0
      ensures lastJunction == None
    {
      this.maze := maze;
      x, y := maze.startPos.x, maze.startPos.y;
      direction := Cell(1, 0);
      moves := [];
      moveHistory := [];
      backtrackPath := [];
      backtrackCount := 0;
      lastJunction := None;
    }

    method TurnRight()
      requires Valid()
      modifies this
      ensures Valid()
      ensures direction == TurnedRight(old(direction))
      ensures x == old(x) && y == old(y) && moves == old(moves) && moveHistory == old(moveHistory)
      ensures backtrackPath == old(backtrackPath) && backtrackCount == old(backtrackCount)
      ensures lastJunction == old(lastJunction)
    {
      TurnsKeepMoves(direction);
      direction := Cell(-direction.y, direction.x);
    }

    method TurnLeft()
      requires Valid()
      modifies this
      ensures Valid()
      ensures direction == TurnedLeft(old(direction))
      ensures x == old(x) && y == old(y) && moves == old(moves) && moveHistory == old(moveHistory)
      ensures backtrackPath == old(backtrackPath) && backtrackCount == old(backtrackCount)
      ensures lastJunction == old(lastJunction)
    {
      TurnsKeepMoves(direction);
      direction := Cell(direction.y, -direction.x);
    }

    /** `can_move_forward`: the cell ahead is in bounds and free, and then the
        current cell has at least one free neighbour. */
    method CanMoveForward() returns (r: bool)
      requires Valid()
      ensures r <==> IsFree(maze, Add(Position(), direction))
      ensures r ==> Choices(maze, Orthogonal, Position()) >= 1
    {
      var nx, ny := x + direction.x, y + direction.y;
      r := 0 <= nx < maze.width && 0 <= ny < maze.height && maze.grid[ny][nx] == 0;
      if r {
        OffsetsAreMoves(Orthogonal);
        CountFreePositive(maze, Position(), Offsets(Orthogonal), direction);
      }
    }

    /** `moves.append(c)` and `move_history.append(c)`: the deque keeps the last three moves. */
    method Record(c: Cell)
      requires Valid()
      modifies this
      ensures Valid()
      ensures moves == old(moves) + [c] && moveHistory == Recent(moves)
      ensures x == old(x) && y == old(y) && direction == old(direction)
      ensures backtrackPath == old(backtrackPath) && backtrackCount == old(backtrackCount)
      ensures lastJunction == old(lastJunction)
    {
      DequeHoldsRecent(moves, c);
      moves := moves + [c];
      moveHistory := DequeAppend(moveHistory, c);
    }

    /** `move_forward`: one step in the facing direction, recorded in `moves`
        and in the history deque.  There is no wall or bounds check. */
    method MoveForward()
      requires Valid()
      modifies this
      ensures Valid()
      ensures Position() == Add(old(Position()), direction)
      ensures moves == old(moves) + [Position()]
      ensures direction == old(direction)
      ensures backtrackPath == old(backtrackPath) && backtrackCount == old(backtrackCount)
      ensures lastJunction == old(lastJunction)
    {
      x := x + direction.x;
      y := y + direction.y;
      var current := Cell(x, y);
      Record(current);
    }

    /** `is_stuck`: the last three moves went to the same cell. */
    method IsStuck() returns (r: bool)
      requires Valid()
      ensures r <==> |moves| >= 3 && moves[|moves| - 1] == moves[|moves| - 2] == moves[|moves| - 3]
    {
      if |moveHistory| < 3 {
        return false;
      }
      r := moveHistory[0] == moveHistory[1] == moveHistory[2];
    }

    /** `count_available_choices(pos)`: between 0 and 4. */
    method CountAvailableChoices(pos: Cell) returns (choices: nat)
      ensures choices == Choices(maze, Orthogonal, pos) && choices <= 4
    {
      choices := Recovery.CountAvailableChoices(maze, Orthogonal, pos);
    }

    /** `find_backtrack_path`, on the current moves and junction. */
    method FindBacktrackPath() returns (path: seq<Cell>)
      ensures path == Recovery.BacktrackPath(maze, Orthogonal, moves, lastJunction)
    {
      path := Recovery.FindBacktrackPath(maze, Orthogonal, moves, lastJunction);
    }

    /**
     * `backtrack`: when the pending path is empty it is recomputed; then the
     * explorer steps onto its first cell, which is removed, and the counter
     * goes up.  With no path at all nothing changes and the answer is False.
     * The moves and the junction are never touched.
     */
    method Backtrack() returns (ok: bool)
      requires Valid()
      modifies this
      ensures Valid()
      ensures var p := if old(backtrackPath) != [] then old(backtrackPath)
                       else Recovery.BacktrackPath(maze, Orthogonal, old(moves), old(lastJunction));
              && (ok <==> p != [])
              && (ok ==> Position() == p[0] && backtrackPath == p[1..] && backtrackCount == old(backtrackCount) + 1)
              && (!ok ==> Position() == old(Position()) && backtrackPath == [] && backtrackCount == old(backtrackCount))
      ensures moves == old(moves) && moveHistory == old(moveHistory) && lastJunction == old(lastJunction)
      ensures direction == old(direction)
    {
      if backtrackPath == [] {
        backtrackPath := FindBacktrackPath();
      }
      if backtrackPath != [] {
        var next := backtrackPath[0];
        backtrackPath := backtrackPath[1..];
        x, y := next.x, next.y;
        backtrackCount := backtrackCount + 1;
        return true;
      }
      return false;
    }

    /**
     * `astar(start, goal)`: a shortest route by orthogonal steps over free
     * cells, or None exactly when the goal cannot be reached; relaxed
     * neighbours that are junctions are recorded.
     */
    method Astar(start: Cell, goal: Cell) returns (path: Option<seq<Cell>>)
      requires Valid()
      modifies this
      ensures Valid()
      ensures path.Some? ==> ValidPath(maze, Orthogonal, path.value, start, goal)
      ensures path.Some? ==> forall q :: ValidPath(maze, Orthogonal, q, start, goal) ==> |path.value| <= |q|
      ensures path.None? <==> forall q :: !ValidPath(maze, Orthogonal, q, start, goal)
      ensures lastJunction == old(lastJunction) || (lastJunction.Some? && IsJunction(maze, Orthogonal, lastJunction.value))
      ensures x == old(x) && y == old(y) && direction == old(direction)
      ensures moves == old(moves) && moveHistory == old(moveHistory)
      ensures backtrackPath == old(backtrackPath) && backtrackCount == old(backtrackCount)
    {
      path, lastJunction := AStar.Search(maze, Orthogonal, start, goal, lastJunction);
      if path.Some? {
        forall q | ValidPath(maze, Orthogonal, q, start, goal) ensures |path.value| <= |q| {
          OrthogonalCostIsLength(q);
          OrthogonalCostIsLength(path.value);
        }
      }
    }

    /** One step of the replay in `solve`: move onto `pos`, record it, and
        record it as the junction when it has more than two free neighbours. */
    method ReplayStep(pos: Cell)
      requires Valid()
      modifies this
      ensures Valid()
      ensures Position() == pos && moves == old(moves) + [pos]
      ensures lastJunction == (if IsJunction(maze, Orthogonal, pos) then Some(pos) else old(lastJunction))
      ensures direction == old(direction)
      ensures backtrackPath == old(backtrackPath) && backtrackCount == old(backtrackCount)
    {
      x, y := pos.x, pos.y;
      Record(pos);
      var choices := CountAvailableChoices(pos);
      if choices > 2 {
        lastJunction := Some(pos);
      }
    }

    /** Walk the route after its first cell, as `solve` does on success. */
    method Replay(route: seq<Cell>)
      requires Valid() && |route| >= 1 && route[0] == Position()
      modifies this
      ensures Valid()
      ensures moves == old(moves) + route[1..]
      ensures Position() == route[|route| - 1]
      ensures lastJunction == ReplayedJunction(maze, Orthogonal, route[1..], old(lastJunction))
      ensures direction == old(direction)
      ensures backtrackPath == old(backtrackPath) && backtrackCount == old(backtrackCount)
    {
      var rest := route[1..];
      for i := 0 to |rest|
        invariant Valid()
        invariant moves == old(moves) + rest[..i]
        invariant Position() == route[i]
        invariant lastJunction == ReplayedJunction(maze, Orthogonal, rest[..i], old(lastJunction))
        invariant direction == old(direction)
        invariant backtrackPath == old(backtrackPath) && backtrackCount == old(backtrackCount)
      {
        TakeOneMore(rest, i);
        ReplayedJunctionStep(maze, Orthogonal, rest, i, old(lastJunction));
        ReplayStep(rest[i]);
      }
      assert rest[..|rest|] == rest;
    }

    /**
     * `solve`: search from the current position to the end; on success walk
     * the route; otherwise backtrack until the end is reached or no recovery
     * path is left, taking at most `fuel` backtracking steps.  Returns the
     * moves, as the source does (the timing is not modelled).
     */
    method Solve(fuel: nat) returns (outcome: Outcome, route: Option<seq<Cell>>, movesMade: seq<Cell>)
      requires Valid()
      modifies this
      ensures Valid()
      ensures movesMade == moves
      ensures outcome == Replayed <==> route.Some?
      ensures route.Some? ==> && ValidPath(maze, Orthogonal, route.value, old(Position()), maze.endPos)
                              && (forall q :: ValidPath(maze, Orthogonal, q, old(Position()), maze.endPos) ==> |route.value| <= |q|)
                              && moves == old(moves) + route.value[1..]
                              && Position() == maze.endPos
      ensures route.None? ==> && (forall q :: !ValidPath(maze, Orthogonal, q, old(Position()), maze.endPos))
                              && moves == old(moves)
      ensures outcome == Reached ==> Position() == maze.endPos
      ensures direction == old(direction)
      // Walking a found route takes no backtracking step.
      ensures route.Some? ==> backtrackPath == old(backtrackPath) && backtrackCount == old(backtrackCount)
      // The junction is the last one on the walked route, else the one the search left.
      ensures route.Some? ==> exists j :: && (j == old(lastJunction) || (j.Some? && IsJunction(maze, Orthogonal, j.value)))
                                         && lastJunction == ReplayedJunction(maze, Orthogonal, route.value[1..], j)
      // Each pass of the backtracking loop takes one step.
      ensures route.None? ==> old(backtrackCount) <= backtrackCount <= old(backtrackCount) + fuel
      ensures outcome == NoBacktrackPath ==> backtrackPath == [] && Recovery.BacktrackPath(maze, Orthogonal, moves, lastJunction) == []
      // From a fresh explorer a failed search ends after one fruitless backtrack.
      ensures route.None? && old(moves) == [] && old(backtrackPath) == [] && fuel > 0 ==>
                outcome == NoBacktrackPath && Position() == old(Position()) && backtrackCount == old(backtrackCount)
      // If the recovery path avoids the end, backtracking goes round it forever.
      ensures var p := Recovery.BacktrackPath(maze, Orthogonal, moves, lastJunction);
              route.None? && p != [] && maze.endPos !in p && maze.endPos !in old(backtrackPath) ==> outcome == OutOfSteps
    {
      ghost var start := Position();
      ghost var pending := backtrackPath;
      route := Astar(Position(), maze.endPos);
      if route.Some? && route.value != [] {
        ghost var found := lastJunction;
        Replay(route.value);
        assert lastJunction == ReplayedJunction(maze, Orthogonal, route.value[1..], found);
        outcome := Replayed;
      } else {
        assert ValidPath(maze, Orthogonal, [start], start, start);
        ghost var junction := lastJunction;
        ghost var p := Recovery.BacktrackPath(maze, Orthogonal, moves, lastJunction);
        ghost var trapped := p != [] && maze.endPos !in p && maze.endPos !in pending;
        ghost var unmoved := moves == [] && pending == [];
        if unmoved {
          Recovery.FallbackPathCells(maze, Orthogonal, moves);
        }
        var left := fuel;
        outcome := Reached;
        while Position() != maze.endPos
          invariant Valid()
          invariant moves == old(moves) && lastJunction == junction
          invariant p == Recovery.BacktrackPath(maze, Orthogonal, moves, lastJunction)
          invariant outcome == Reached
          invariant direction == old(direction)
          invariant 0 <= left <= fuel && backtrackCount == old(backtrackCount) + (fuel - left)
          invariant trapped ==> maze.endPos !in backtrackPath && Position() != maze.endPos
          invariant unmoved ==> left == fuel && Position() == start && backtrackCount == old(backtrackCount) && backtrackPath == []
          decreases left
        {
          if left == 0 {
            outcome := OutOfSteps;
            break;
          }
          var ok := Backtrack();
          if !ok {
            outcome := NoBacktrackPath;
            break;
          }
          left := left - 1;
        }
      }
      movesMade := moves;
    }
  }
}
