/**
 * What the two explorer classes share besides the search and the recovery
 * path: the three-slot move history (`deque(maxlen=3)`), the junction that
 * replaying a route leaves, and the ways in which `solve` can end.
 */
module Explorers {
  import opened Wrappers
  import opened Grid

  /** `history.append(c)` on a `deque(maxlen=3)`: when full, the oldest entry drops out. */
  function DequeAppend<T>(history: seq<T>, c: T): (r: seq<T>)
    ensures |r| == if |history| < 3 then |history| + 1 else 3
    ensures r[..|r| - 1] == history[|history| - (|r| - 1)..]
    ensures r[|r| - 1] == c
  {
    if |history| < 3 then history + [c] else history[|history| - 2..] + [c]
  }

  /** The last (at most) three entries of `s`. */
  function Recent<T>(s: seq<T>): seq<T> {
    if |s| <= 3 then s else s[|s| - 3..]
  }

  /** The deque always holds the last three moves: appending to it matches
      appending to the full list of moves. */
  lemma DequeHoldsRecent<T>(s: seq<T>, c: T)
    ensures DequeAppend(Recent(s), c) == Recent(s + [c])
    ensures |Recent(s + [c])| == if |s| < 3 then |s| + 1 else 3
  {
    var r := Recent(s);
    if |s| >= 3 {
      assert r[|r| - 2..] + [c] == (s + [c])[|s| + 1 - 3..];
    }
  }

  /**
   * The junction after replaying `cells` from junction `j`: each replayed
   * cell with more than two free neighbours becomes the junction in turn.
   */
  function ReplayedJunction(m: Maze, mv: Movement, cells: seq<Cell>, j: Option<Cell>): (r: Option<Cell>)
    ensures r == j || (r.Some? && r.value in cells && IsJunction(m, mv, r.value))
    decreases |cells|
  {
    if cells == [] then j
    else if IsJunction(m, mv, cells[|cells| - 1]) then Some(cells[|cells| - 1])
    else ReplayedJunction(m, mv, cells[..|cells| - 1], j)
  }

  /** With no junction among the cells, the junction stays `j`. */
  lemma {:induction false} ReplayedJunctionNone(m: Maze, mv: Movement, cells: seq<Cell>, j: Option<Cell>)
    requires forall i :: 0 <= i < |cells| ==> !IsJunction(m, mv, cells[i])
    ensures ReplayedJunction(m, mv, cells, j) == j
    decreases |cells|
  {
    if cells != [] {
      var init := cells[..|cells| - 1];
      forall i | 0 <= i < |init| ensures !IsJunction(m, mv, init[i]) {
        assert init[i] == cells[i];
      }
      ReplayedJunctionNone(m, mv, init, j);
    }
  }

  /** Otherwise the junction is the last junction among the cells. */
  lemma {:induction false} ReplayedJunctionIsLast(m: Maze, mv: Movement, cells: seq<Cell>, j: Option<Cell>, i: nat)
    requires i < |cells| && IsJunction(m, mv, cells[i])
    ensures exists k :: && i <= k < |cells| && ReplayedJunction(m, mv, cells, j) == Some(cells[k])
                        && IsJunction(m, mv, cells[k])
                        && forall t :: k < t < |cells| ==> !IsJunction(m, mv, cells[t])
    decreases |cells|
  {
    var n := |cells| - 1;
    if !IsJunction(m, mv, cells[n]) {
      var init := cells[..n];
      assert init[i] == cells[i];
      ReplayedJunctionIsLast(m, mv, init, j, i);
      var k :| && i <= k < |init| && ReplayedJunction(m, mv, init, j) == Some(init[k])
               && IsJunction(m, mv, init[k])
               && forall t :: k < t < |init| ==> !IsJunction(m, mv, init[t]);
      assert init[k] == cells[k];
      forall t | k < t < |cells| ensures !IsJunction(m, mv, cells[t]) {
        if t < n { assert init[t] == cells[t]; }
      }
    }
  }

  /** Replaying one more cell. */
  lemma ReplayedJunctionStep(m: Maze, mv: Movement, cells: seq<Cell>, i: nat, j: Option<Cell>)
    requires i < |cells|
    ensures ReplayedJunction(m, mv, cells[..i + 1], j)
            == if IsJunction(m, mv, cells[i]) then Some(cells[i]) else ReplayedJunction(m, mv, cells[..i], j)
  {
    assert cells[..i + 1][..i] == cells[..i];
  }

  /**
   * How `solve` ends: it replayed the route the search found; or the search
   * found none and backtracking reached the end, ran out of recovery path, or
   * was still going when the step budget ran out (backtracking does not
   * terminate in general, so the model bounds it).
   */
  datatype Outcome = Replayed | Reached | NoBacktrackPath | OutOfSteps
}
