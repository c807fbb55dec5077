/**
 * The diagonal explorer (`Explorer` of the A* solver with diagonal movement):
 * eight king-move neighbours, step cost 1 or 1.4142 (10000 or 14142 in the
 * fixed point of the model), octile heuristic.  It has no turning or forward
 * moves; its recovery path and its `solve` are those of the orthogonal one.
 */
module DiagonalEnhanced {
  import opened Wrappers
  import opened Seqs
  import opened Grid
  import opened Explorers
  import AStar
  import Recovery

  class Explorer {
    const maze: Maze
    var x: int
    var y: int
    var direction: Cell
    var moves: seq<Cell>
    var moveHistory: seq<Cell>
    var backtrackPath: seq<Cell>
    var backtrackCount: nat
    var lastJunction: Option<Cell>

    /** The history deque holds the last three moves, and a recorded junction is one. */
    ghost predicate Valid()
      reads this
    {
      && moveHistory == Recent(moves)
      && (lastJunction.Some? ==> IsJunction(maze, Octile, lastJunction.value))
    }

    function Position(): Cell
      reads this
    {
      Cell(x, y)
    }

    /** `__init__`: at the maze's start, facing right, with nothing recorded. */
    constructor (maze: Maze)
      ensures Valid()
      ensures this.maze == maze && Position() == maze.startPos && direction == Cell(1, 0)
      ensures moves == [] && moveHistory == [] && backtrackPath == [] && backtrackCount == 0
      ensures lastJunction == None
    {
      this.maze := maze;
      x, y := maze.startPos.x, maze.startPos.y;
      direction := Cell(1, 0);
      moves := [];
      moveHistory := [];
      backtrackPath := [];
      backtrackCount := 0;
      lastJunction := None;
    }

    /** `count_available_choices(pos)`: between 0 and 8. */
    method CountAvailableChoices(pos: Cell) returns (choices: nat)
      ensures choices == Choices(maze, Octile, pos) && choices <= 8
    {
      choices := Recovery.CountAvailableChoices(maze, Octile, pos);
    }

    /** `find_backtrack_path`, on the current moves and junction. */
    method FindBacktrackPath() returns (path: seq<Cell>)
      ensures path == Recovery.BacktrackPath(maze, Octile, moves, lastJunction)
    {
      path := Recovery.FindBacktrackPath(maze, Octile, moves, lastJunction);
    }

    /**
     * `backtrack`: when the pending path is empty it is recomputed; then the
     * explorer steps onto its first cell, which is removed, and the counter
     * goes up.  With no path at all nothing changes and the answer is False.
     * The moves and the junction are never touched.
     */
    method Backtrack() returns (ok: bool)
      requires Valid()
      modifies this
      ensures Valid()
      ensures var p := if old(backtrackPath) != [] then old(backtrackPath)
                       else Recovery.BacktrackPath(maze, Octile, old(moves), old(lastJunction));
              && (ok <==> p != [])
              && (ok ==> Position() == p[0] && backtrackPath == p[1..] && backtrackCount == old(backtrackCount) + 1)
              && (!ok ==> Position() == old(Position()) && backtrackPath == [] && backtrackCount == old(backtrackCount))
      ensures moves == old(moves) && moveHistory == old(moveHistory) && lastJunction == old(lastJunction)
      ensures direction == old(direction)
    {
      if backtrackPath == [] {
        backtrackPath := FindBacktrackPath();
      }
      if backtrackPath != [] {
        var next := backtrackPath[0];
        backtrackPath := backtrackPath[1..];
        x, y := next.x, next.y;
        backtrackCount := backtrackCount + 1;
        return true;
      }
      return false;
    }

    /**
     * `astar(start, goal)`: a cheapest route by king moves over free cells,
     * or None exactly when the goal cannot be reached; relaxed neighbours that
     * are junctions are recorded.
     */
    method Astar(start: Cell, goal: Cell) returns (path: Option<seq<Cell>>)
      requires Valid()
      modifies this
      ensures Valid()
      ensures path.Some? ==> ValidPath(maze, Octile, path.value, start, goal)
      ensures path.Some? ==> forall q :: ValidPath(maze, Octile, q, start, goal) ==> Cost(Octile, path.value) <= Cost(Octile, q)
      ensures path.None? <==> forall q :: !ValidPath(maze, Octile, q, start, goal)
      ensures lastJunction == old(lastJunction) || (lastJunction.Some? && IsJunction(maze, Octile, lastJunction.value))
      ensures x == old(x) && y == old(y) && direction == old(direction)
      ensures moves == old(moves) && moveHistory == old(moveHistory)
      ensures backtrackPath == old(backtrackPath) && backtrackCount == old(backtrackCount)
    {
      path, lastJunction := AStar.Search(maze, Octile, start, goal, lastJunction);
    }

    /** `moves.append(c)` and `move_history.append(c)`: the deque keeps the last three moves. */
    method Record(c: Cell)
      requires Valid()
      modifies this
      ensures Valid()
      ensures moves == old(moves) + [c] && moveHistory == Recent(moves)
      ensures x == old(x) && y == old(y) && direction == old(direction)
      ensures backtrackPath == old(backtrackPath) && backtrackCount == old(backtrackCount)
      ensures lastJunction == old(lastJunction)
    {
      DequeHoldsRecent(moves, c);
      moves := moves + [c];
      moveHistory := DequeAppend(moveHistory, c);
    }

    /** One step of the replay in `solve`: move onto `pos`, record it, and
        record it as the junction when it has more than two free neighbours. */
    method ReplayStep(pos: Cell)
      requires Valid()
      modifies this
      ensures Valid()
      ensures Position() == pos && moves == old(moves) + [pos]
      ensures lastJunction == (if IsJunction(maze, Octile, pos) then Some(pos) else old(lastJunction))
      ensures direction == old(direction)
      ensures backtrackPath == old(backtrackPath) && backtrackCount == old(backtrackCount)
    {
      x, y := pos.x, pos.y;
      Record(pos);
      var choices := CountAvailableChoices(pos);
      if choices > 2 {
        lastJunction := Some(pos);
      }
    }

    /** Walk the route after its first cell, as `solve` does on success. */
    method Replay(route: seq<Cell>)
      requires Valid() && |route| >= 1 && route[0] == Position()
      modifies this
      ensures Valid()
      ensures moves == old(moves) + route[1..]
      ensures Position() == route[|route| - 1]
      ensures lastJunction == ReplayedJunction(maze, Octile, route[1..], old(lastJunction))
      ensures direction == old(direction)
      ensures backtrackPath == old(backtrackPath) && backtrackCount == old(backtrackCount)
    {
      var rest := route[1..];
      for i := 0 to |rest|
        invariant Valid()
        invariant moves == old(moves) + rest[..i]
        invariant Position() == route[i]
        invariant lastJunction == ReplayedJunction(maze, Octile, rest[..i], old(lastJunction))
        invariant direction == old(direction)
        invariant backtrackPath == old(backtrackPath) && backtrackCount == old(backtrackCount)
      {
        TakeOneMore(rest, i);
        ReplayedJunctionStep(maze, Octile, rest, i, old(lastJunction));
        ReplayStep(rest[i]);
      }
      assert rest[..|rest|] == rest;
    }

    /**
     * `solve`: search from the current position to the end; on success walk
     * the route; otherwise backtrack until the end is reached or no recovery
     * path is left, taking at most `fuel` backtracking steps.  Returns the
     * moves, as the source does (the timing is not modelled).
     */
    method Solve(fuel: nat) returns (outcome: Outcome, route: Option<seq<Cell>>, movesMade: seq<Cell>)
      requires Valid()
      modifies this
      ensures Valid()
      ensures movesMade == moves
      ensures outcome == Replayed <==> route.Some?
      ensures route.Some? ==> && ValidPath(maze, Octile, route.value, old(Position()), maze.endPos)
                              && (forall q :: ValidPath(maze, Octile, q, old(Position()), maze.endPos) ==> Cost(Octile, route.value) <= Cost(Octile, q))
                              && moves == old(moves) + route.value[1..]
                              && Position() == maze.endPos
      ensures route.None? ==> && (forall q :: !ValidPath(maze, Octile, q, old(Position()), maze.endPos))
                              && moves == old(moves)
      ensures outcome == Reached ==> Position() == maze.endPos
      ensures direction == old(direction)
      // Walking a found route takes no backtracking step.
      ensures route.Some? ==> backtrackPath == old(backtrackPath) && backtrackCount == old(backtrackCount)
      // The junction is the last one on the walked route, else the one the search left.
      ensures route.Some? ==> exists j :: && (j == old(lastJunction) || (j.Some? && IsJunction(maze, Octile, j.value)))
                                         && lastJunction == ReplayedJunction(maze, Octile, route.value[1..], j)
      // Each pass of the backtracking loop takes one step.
      ensures route.None? ==> old(backtrackCount) <= backtrackCount <= old(backtrackCount) + fuel
      ensures outcome == NoBacktrackPath ==> backtrackPath == [] && Recovery.BacktrackPath(maze, Octile, moves, lastJunction) == []
      // From a fresh explorer a failed search ends after one fruitless backtrack.
      ensures route.None? && old(moves) == [] && old(backtrackPath) == [] && fuel > 0 ==>
                outcome == NoBacktrackPath && Position() == old(Position()) && backtrackCount == old(backtrackCount)
      // If the recovery path avoids the end, backtracking goes round it forever.
      ensures var p := Recovery.BacktrackPath(maze, Octile, moves, lastJunction);
              route.None? && p != [] && maze.endPos !in p && maze.endPos !in old(backtrackPath) ==> outcome == OutOfSteps
    {
      ghost var start := Position();
      ghost var pending := backtrackPath;
      route := Astar(Position(), maze.endPos);
      if route.Some? && route.value != [] {
        ghost var found := lastJunction;
        Replay(route.value);
        assert lastJunction == ReplayedJunction(maze, Octile, route.value[1..], found);
        outcome := Replayed;
      } else {
        assert ValidPath(maze, Octile, [start], start, start);
        ghost var junction := lastJunction;
        ghost var p := Recovery.BacktrackPath(maze, Octile, moves, lastJunction);
        ghost var trapped := p != [] && maze.endPos !in p && maze.endPos !in pending;
        ghost var unmoved := moves == [] && pending == [];
        if unmoved {
          Recovery.FallbackPathCells(maze, Octile, moves);
        }
        var left := fuel;
        outcome := Reached;
        while Position() != maze.endPos
          invariant Valid()
          invariant moves == old(moves) && lastJunction == junction
          invariant p == Recovery.BacktrackPath(maze, Octile, moves, lastJunction)
          invariant outcome == Reached
          invariant direction == old(direction)
          invariant 0 <= left <= fuel && backtrackCount == old(backtrackCount) + (fuel - left)
          invariant trapped ==> maze.endPos !in backtrackPath && Position() != maze.endPos
          invariant unmoved ==> left == fuel && Position() == start && backtrackCount == old(backtrackCount) && backtrackPath == []
          decreases left
        {
          if left == 0 {
            outcome := OutOfSteps;
            break;
          }
          var ok := Backtrack();
          if !ok {
            outcome := NoBacktrackPath;
            break;
          }
          left := left - 1;
        }
      }
      movesMade := moves;
    }
  }
}
