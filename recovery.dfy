/**
 * The recovery path of both explorers (`find_backtrack_path`) and the
 * junction counter that drives it (`count_available_choices`).
 *
 * When the last recorded junction occurs among the visited cells, the path
 * is the visited cells from its first occurrence on, in reverse: it starts at
 * the last move and ends at the junction.  Otherwise the visited cells are
 * scanned from the last one back, skipping repeats, until a cell with more
 * than one free neighbour is taken; the cells taken are returned in reverse
 * order of taking, so that path starts at that cell and ends at the last move.
 */
module Recovery {
  import opened Wrappers
  import opened Seqs
  import opened Grid

  /** `count_available_choices(pos)`: the counter loop over the offsets. */
  method CountAvailableChoices(m: Maze, mv: Movement, pos: Cell) returns (choices: nat)
    ensures choices == Choices(m, mv, pos)
  {
    var offsets := Offsets(mv);
    choices := 0;
    for i := 0 to |offsets|
      invariant choices == CountFree(m, pos, offsets[..i])
    {
      var d := offsets[i];
      var nx, ny := pos.x + d.x, pos.y + d.y;
      TakeOneMore(offsets, i);
      if 0 <= nx < m.width && 0 <= ny < m.height && m.grid[ny][nx] == 0 {
        choices := choices + 1;
      }
    }
    assert offsets[..|offsets|] == offsets;
  }

  /**
   * The fallback scan, as a function: `i` cells of `moves` are still to be
   * scanned (the next is `moves[i - 1]`), and `taken` holds the cells taken
   * so far, in the order they were taken (`path` before its reversal; the
   * source's `visited` set is exactly the cells of `taken`).
   */
  function Scan(m: Maze, mv: Movement, moves: seq<Cell>, i: nat, taken: seq<Cell>): seq<Cell>
    requires i <= |moves|
    decreases i
  {
    if i == 0 then taken
    else
      var pos := moves[i - 1];
      if pos in taken then Scan(m, mv, moves, i - 1, taken)
      else if Choices(m, mv, pos) > 1 then taken + [pos]
      else Scan(m, mv, moves, i - 1, taken + [pos])
  }

  /** `find_backtrack_path()` on the explorer's `moves` and `last_junction`.
      A recorded junction is a tuple, so it is always truthy: only its presence
      and its membership in `moves` are tested. */
  function BacktrackPath(m: Maze, mv: Movement, moves: seq<Cell>, lastJunction: Option<Cell>): seq<Cell> {
    if lastJunction.Some? && lastJunction.value in moves then
      Reverse(moves[IndexOf(moves, lastJunction.value)..])
    else
      FallbackPath(m, mv, moves)
  }

  /** The path when the junction is not among the visited cells. */
  function FallbackPath(m: Maze, mv: Movement, moves: seq<Cell>): seq<Cell> {
    Reverse(Scan(m, mv, moves, |moves|, []))
  }

  /** `find_backtrack_path`, with the loop of the fallback and its `visited` set. */
  method FindBacktrackPath(m: Maze, mv: Movement, moves: seq<Cell>, lastJunction: Option<Cell>)
    returns (path: seq<Cell>)
    ensures path == BacktrackPath(m, mv, moves, lastJunction)
  {
    if lastJunction.Some? && lastJunction.value in moves {
      var junctionIndex := IndexOf(moves, lastJunction.value);
      path := Reverse(moves[junctionIndex..]);
      return;
    }
    var taken: seq<Cell> := [];
    var visited: set<Cell> := {};
    var i := |moves|;
    while i > 0
      invariant 0 <= i <= |moves|
      invariant visited == set c | c in taken
      invariant Scan(m, mv, moves, i, taken) == Scan(m, mv, moves, |moves|, [])
      decreases i
    {
      var pos := moves[i - 1];
      i := i - 1;
      if pos in visited {
        continue;
      }
      visited := visited + {pos};
      taken := taken + [pos];
      var choices := CountAvailableChoices(m, mv, pos);
      if choices > 1 {
        path := Reverse(taken);
        return;
      }
    }
    path := Reverse(taken);
  }

  // ---- The junction branch ---------------------------------------------------------------

  /** With the junction among the moves, the path is the visited cells from the
      last move back to the junction's first occurrence, one at a time. */
  lemma JunctionPathShape(m: Maze, mv: Movement, moves: seq<Cell>, j: Cell)
    requires j in moves
    ensures var r := BacktrackPath(m, mv, moves, Some(j));
            && |r| == |moves| - IndexOf(moves, j)
            && (forall t :: 0 <= t < |r| ==> r[t] == moves[|moves| - 1 - t])
            && r[0] == moves[|moves| - 1]
            && r[|r| - 1] == j
  {
    var k := IndexOf(moves, j);
    var s := moves[k..];
    var r := Reverse(s);
    assert r == BacktrackPath(m, mv, moves, Some(j));
    forall t | 0 <= t < |r| ensures r[t] == moves[|moves| - 1 - t] {
      assert r[t] == s[|s| - 1 - t];
    }
    assert r[|r| - 1] == s[0];
  }

  // ---- The fallback scan -------------------------------------------------------------------

  /** The scan only appends to what it has taken. */
  lemma {:induction false} ScanExtends(m: Maze, mv: Movement, moves: seq<Cell>, i: nat, taken: seq<Cell>)
    requires i <= |moves|
    ensures taken <= Scan(m, mv, moves, i, taken)
    decreases i
  {
    if i > 0 {
      var pos := moves[i - 1];
      if pos in taken {
        ScanExtends(m, mv, moves, i - 1, taken);
      } else if Choices(m, mv, pos) <= 1 {
        ScanExtends(m, mv, moves, i - 1, taken + [pos]);
      }
    }
  }

  /** The scan never takes a cell twice (the source's `visited` set). */
  lemma {:induction false} ScanNoDuplicates(m: Maze, mv: Movement, moves: seq<Cell>, i: nat, taken: seq<Cell>)
    requires i <= |moves| && NoDuplicates(taken)
    ensures NoDuplicates(Scan(m, mv, moves, i, taken))
    decreases i
  {
    if i > 0 {
      var pos := moves[i - 1];
      if pos in taken {
        ScanNoDuplicates(m, mv, moves, i - 1, taken);
      } else {
        AppendFresh(taken, pos);
        if Choices(m, mv, pos) <= 1 {
          ScanNoDuplicates(m, mv, moves, i - 1, taken + [pos]);
        }
      }
    }
  }

  /** The scan takes only visited cells. */
  lemma {:induction false} ScanWithin(m: Maze, mv: Movement, moves: seq<Cell>, i: nat, taken: seq<Cell>)
    requires i <= |moves| && forall c :: c in taken ==> c in moves
    ensures forall c :: c in Scan(m, mv, moves, i, taken) ==> c in moves
    decreases i
  {
    if i > 0 {
      var pos := moves[i - 1];
      if pos in taken {
        ScanWithin(m, mv, moves, i - 1, taken);
      } else if Choices(m, mv, pos) <= 1 {
        ScanWithin(m, mv, moves, i - 1, taken + [pos]);
      }
    }
  }

  /** Every cell the scan takes before its last has at most one free neighbour. */
  lemma {:induction false} ScanChoices(m: Maze, mv: Movement, moves: seq<Cell>, i: nat, taken: seq<Cell>)
    requires i <= |moves| && forall t :: 0 <= t < |taken| ==> Choices(m, mv, taken[t]) <= 1
    ensures forall t :: 0 <= t < |Scan(m, mv, moves, i, taken)| - 1 ==>
              Choices(m, mv, Scan(m, mv, moves, i, taken)[t]) <= 1
    decreases i
  {
    if i > 0 {
      var pos := moves[i - 1];
      if pos in taken {
        assert Scan(m, mv, moves, i, taken) == Scan(m, mv, moves, i - 1, taken);
        ScanChoices(m, mv, moves, i - 1, taken);
      } else if Choices(m, mv, pos) <= 1 {
        var taken' := taken + [pos];
        assert forall t :: 0 <= t < |taken'| ==> Choices(m, mv, taken'[t]) <= 1 by {
          forall t | 0 <= t < |taken'| ensures Choices(m, mv, taken'[t]) <= 1 {
            if t < |taken| { assert taken'[t] == taken[t]; }
          }
        }
        ScanChoices(m, mv, moves, i - 1, taken');
      } else {
        var r := taken + [pos];
        forall t | 0 <= t < |r| - 1 ensures Choices(m, mv, r[t]) <= 1 {
          assert r[t] == taken[t];
        }
      }
    }
  }

  /** The scan stops early only at a cell with more than one free neighbour;
      otherwise it has taken every visited cell. */
  lemma {:induction false} ScanCovers(m: Maze, mv: Movement, moves: seq<Cell>, i: nat, taken: seq<Cell>)
    requires i <= |moves| && forall c :: c in moves[i..] ==> c in taken
    ensures var r := Scan(m, mv, moves, i, taken);
            (|r| > 0 && Choices(m, mv, r[|r| - 1]) > 1) || forall c :: c in moves ==> c in r
    decreases i
  {
    if i == 0 {
      assert moves[0..] == moves;
    } else {
      var pos := moves[i - 1];
      assert moves[i - 1..] == [pos] + moves[i..];
      if pos in taken {
        ScanCovers(m, mv, moves, i - 1, taken);
      } else if Choices(m, mv, pos) <= 1 {
        ScanCovers(m, mv, moves, i - 1, taken + [pos]);
      }
    }
  }

  /** The scan of all the visited cells starts with the last one. */
  lemma ScanStartsAtLastMove(m: Maze, mv: Movement, moves: seq<Cell>)
    requires moves != []
    ensures Scan(m, mv, moves, |moves|, []) != []
    ensures Scan(m, mv, moves, |moves|, [])[0] == moves[|moves| - 1]
  {
    var s := Scan(m, mv, moves, |moves|, []);
    var pos := moves[|moves| - 1];
    var none: seq<Cell> := [];
    assert pos !in none && none + [pos] == [pos];
    if Choices(m, mv, pos) <= 1 {
      assert s == Scan(m, mv, moves, |moves| - 1, [pos]);
      ScanExtends(m, mv, moves, |moves| - 1, [pos]);
    } else {
      assert s == [pos];
    }
    assert [pos] <= s;
  }

  /** Without the junction among the moves, the path is duplicate-free, made of
      visited cells, empty exactly when nothing was visited, and ends at the
      last move. */
  lemma FallbackPathCells(m: Maze, mv: Movement, moves: seq<Cell>)
    ensures NoDuplicates(FallbackPath(m, mv, moves))
    ensures forall c :: c in FallbackPath(m, mv, moves) ==> c in moves
    ensures FallbackPath(m, mv, moves) == [] <==> moves == []
    ensures moves != [] ==> FallbackPath(m, mv, moves)[|FallbackPath(m, mv, moves)| - 1] == moves[|moves| - 1]
  {
    var s := Scan(m, mv, moves, |moves|, []);
    ScanNoDuplicates(m, mv, moves, |moves|, []);
    ReverseNoDuplicates(s);
    ScanWithin(m, mv, moves, |moves|, []);
    ReverseMembers(s);
    if moves != [] {
      ScanStartsAtLastMove(m, mv, moves);
      var r := Reverse(s);
      assert r[|r| - 1] == s[0];
    }
  }

  /** Of the cells on that path only the first may have more than one free
      neighbour, and when it has not, every visited cell is on the path. */
  lemma FallbackPathStops(m: Maze, mv: Movement, moves: seq<Cell>)
    ensures forall t :: 0 < t < |FallbackPath(m, mv, moves)| ==> Choices(m, mv, FallbackPath(m, mv, moves)[t]) <= 1
    ensures || (FallbackPath(m, mv, moves) != [] && Choices(m, mv, FallbackPath(m, mv, moves)[0]) > 1)
            || forall c :: c in moves ==> c in FallbackPath(m, mv, moves)
  {
    var s := Scan(m, mv, moves, |moves|, []);
    var r := Reverse(s);
    ScanChoices(m, mv, moves, |moves|, []);
    assert moves[|moves|..] == [];
    ScanCovers(m, mv, moves, |moves|, []);
    ReverseMembers(s);
    forall t | 0 < t < |r| ensures Choices(m, mv, r[t]) <= 1 {
      assert r[t] == s[|s| - 1 - t];
    }
    if r != [] {
      assert r[0] == s[|s| - 1];
    }
  }
}
