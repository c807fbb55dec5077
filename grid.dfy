/**
 * The maze the explorers read, the two movement models (four orthogonal
 * neighbours, or eight king moves), their step costs and heuristics, the
 * junction counter, and paths through the maze.
 *
 * The octile model works in fixed point, scaled by 10000: an orthogonal step
 * costs 10000, a diagonal step 14142, and the heuristic weighs the shorter
 * axis by 4142 (that is, 1.4142 - 1).  The orthogonal model costs 1 per step.
 */
module Grid {
  import opened Seqs

  /** A cell `(x, y)`; also used for a direction or neighbour offset `(dx, dy)`. */
  datatype Cell = Cell(x: int, y: int)

  function Add(c: Cell, d: Cell): Cell {
    Cell(c.x + d.x, c.y + d.y)
  }

  /** The offset that leads from `a` to `b`. */
  function Delta(a: Cell, b: Cell): (d: Cell)
    ensures Add(a, d) == b
  {
    Cell(b.x - a.x, b.y - a.y)
  }

  /** What the explorers read of a maze: its size, the occupancy grid indexed
      `grid[y][x]` (0 is free), and the start and end cells. */
  datatype MazeData = MazeData(width: int, height: int, grid: seq<seq<int>>, startPos: Cell, endPos: Cell)

  /** The grid has `height` rows of `width` cells each. */
  predicate WellFormed(m: MazeData) {
    |m.grid| == m.height && forall y :: 0 <= y < |m.grid| ==> |m.grid[y]| == m.width
  }

  type Maze = m: MazeData | WellFormed(m) witness MazeData(0, 0, [], Cell(0, 0), Cell(0, 0))

  predicate InBounds(m: Maze, c: Cell) {
    0 <= c.x < m.width && 0 <= c.y < m.height
  }

  /** In bounds and not a wall. */
  predicate IsFree(m: Maze, c: Cell) {
    InBounds(m, c) && m.grid[c.y][c.x] == 0
  }

  /** Every in-bounds cell. */
  ghost function Cells(m: Maze): set<Cell> {
    set x, y | 0 <= x < m.width && 0 <= y < m.height :: Cell(x, y)
  }

  lemma FreeCellInCells(m: Maze, c: Cell)
    requires IsFree(m, c)
    ensures c in Cells(m)
  {
    assert c == Cell(c.x, c.y);
  }

  datatype Movement = Orthogonal | Octile

  /** The neighbour offsets, in the order in which the source visits them. */
  function Offsets(mv: Movement): seq<Cell> {
    match mv
    case Orthogonal => [Cell(1, 0), Cell(-1, 0), Cell(0, 1), Cell(0, -1)]
    case Octile => [Cell(1, 0), Cell(-1, 0), Cell(0, 1), Cell(0, -1),
                    Cell(1, 1), Cell(-1, -1), Cell(1, -1), Cell(-1, 1)]
  }

  /** A single move of the model: one orthogonal unit step, or any king move. */
  predicate IsMove(mv: Movement, d: Cell) {
    match mv
    case Orthogonal => Abs(d.x) + Abs(d.y) == 1
    case Octile => d != Cell(0, 0) && -1 <= d.x <= 1 && -1 <= d.y <= 1
  }

  /** The offset list holds exactly the moves of the model, each once. */
  lemma OffsetsAreMoves(mv: Movement)
    ensures NoDuplicates(Offsets(mv))
    ensures forall d :: d in Offsets(mv) <==> IsMove(mv, d)
  {
  }

  lemma OffsetIsMove(mv: Movement, d: Cell)
    requires d in Offsets(mv)
    ensures IsMove(mv, d)
  {
  }

  /** `b` is a neighbour of `a` under the model. */
  predicate IsStep(mv: Movement, a: Cell, b: Cell) {
    IsMove(mv, Delta(a, b))
  }

  function Abs(n: int): nat {
    if n < 0 then -n else n
  }

  function Max(a: int, b: int): int {
    if a < b then b else a
  }

  function Min(a: int, b: int): int {
    if a < b then a else b
  }

  /** The cost of one step along offset `d`: diagonal steps (both components
      nonzero) cost 1.4142 in the octile model, every other step costs 1. */
  function StepCost(mv: Movement, d: Cell): (r: nat)
    ensures r >= 1
    ensures mv == Octile ==> r >= 10000
    ensures mv == Octile ==> (r == 14142 <==> d.x != 0 && d.y != 0)
  {
    match mv
    case Orthogonal => 1
    case Octile => if d.x != 0 && d.y != 0 then 14142 else 10000
  }

  /** Manhattan distance, or octile distance `max(dx, dy) + 0.4142 * min(dx, dy)`;
      either lies between the larger coordinate difference and the cost of
      covering both differences by that many diagonal steps. */
  function Heuristic(mv: Movement, a: Cell, b: Cell): (r: nat)
    ensures mv == Orthogonal ==> Max(Abs(a.x - b.x), Abs(a.y - b.y)) <= r <= 2 * Max(Abs(a.x - b.x), Abs(a.y - b.y))
    ensures mv == Octile ==> 10000 * Max(Abs(a.x - b.x), Abs(a.y - b.y)) <= r <= 14142 * Max(Abs(a.x - b.x), Abs(a.y - b.y))
  {
    var dx, dy := Abs(a.x - b.x), Abs(a.y - b.y);
    match mv
    case Orthogonal => dx + dy
    case Octile => 10000 * Max(dx, dy) + 4142 * Min(dx, dy)
  }

  /** The heuristic is zero on the goal itself and symmetric. */
  lemma HeuristicBasics(mv: Movement, a: Cell, b: Cell)
    ensures Heuristic(mv, a, a) == 0
    ensures Heuristic(mv, a, b) == Heuristic(mv, b, a)
    ensures Heuristic(mv, a, b) == 0 <==> a == b
  {
  }

  /** Consistency: one step lowers the heuristic by at most the step's cost. */
  lemma HeuristicConsistent(mv: Movement, a: Cell, d: Cell, goal: Cell)
    requires IsMove(mv, d)
    ensures Heuristic(mv, a, goal) <= StepCost(mv, d) + Heuristic(mv, Add(a, d), goal)
  {
    var b := Add(a, d);
    var dx, dy := Abs(a.x - goal.x), Abs(a.y - goal.y);
    var ex, ey := Abs(b.x - goal.x), Abs(b.y - goal.y);
    assert dx <= ex + Abs(d.x);
    assert dy <= ey + Abs(d.y);
    if mv == Orthogonal {
      assert Heuristic(mv, a, goal) == dx + dy && Heuristic(mv, b, goal) == ex + ey;
    } else {
      OctileValue(a, goal);
      OctileValue(b, goal);
      assert StepCost(mv, d) == if Abs(d.x) != 0 && Abs(d.y) != 0 then 14142 else 10000;
      OctileStep(dx, dy, ex, ey, Abs(d.x), Abs(d.y));
    }
  }

  lemma OctileValue(a: Cell, b: Cell)
    ensures Heuristic(Octile, a, b) == 10000 * Max(Abs(a.x - b.x), Abs(a.y - b.y)) + 4142 * Min(Abs(a.x - b.x), Abs(a.y - b.y))
  {
  }

  /** The octile distance grows by at most a step's cost when each axis
      distance grows by at most that axis's step. */
  lemma OctileStep(dx: nat, dy: nat, ex: nat, ey: nat, sx: nat, sy: nat)
    requires sx <= 1 && sy <= 1 && dx <= ex + sx && dy <= ey + sy
    ensures 10000 * Max(dx, dy) + 4142 * Min(dx, dy)
            <= (if sx != 0 && sy != 0 then 14142 else 10000) + 10000 * Max(ex, ey) + 4142 * Min(ex, ey)
  {
  }

  /** Number of offsets among `ds` that lead from `c` to a free cell. */
  function CountFree(m: Maze, c: Cell, ds: seq<Cell>): (r: nat)
    ensures r <= |ds|
  {
    if ds == [] then 0
    else CountFree(m, c, ds[..|ds| - 1]) + (if IsFree(m, Add(c, ds[|ds| - 1])) then 1 else 0)
  }

  /** `count_available_choices`: free neighbours of `c` under the model. */
  function Choices(m: Maze, mv: Movement, c: Cell): (r: nat)
    ensures r <= |Offsets(mv)|
    ensures mv == Orthogonal ==> r <= 4
    ensures mv == Octile ==> r <= 8
  {
    CountFree(m, c, Offsets(mv))
  }

  /** A junction is a cell with more than two free neighbours. */
  predicate IsJunction(m: Maze, mv: Movement, c: Cell) {
    Choices(m, mv, c) > 2
  }

  /** The free neighbours of `c`, as a set. */
  function FreeNeighbours(m: Maze, mv: Movement, c: Cell): set<Cell> {
    set d | d in Offsets(mv) && IsFree(m, Add(c, d)) :: Add(c, d)
  }

  /** The counter counts exactly the distinct free neighbours. */
  lemma ChoicesCountsFreeNeighbours(m: Maze, mv: Movement, c: Cell)
    ensures Choices(m, mv, c) == |FreeNeighbours(m, mv, c)|
  {
    var ds := Offsets(mv);
    OffsetsAreMoves(mv);
    CountFreeIsCardinality(m, c, ds);
    assert FreeNeighbours(m, mv, c) == FreeAlong(m, c, ds);
  }

  function FreeAlong(m: Maze, c: Cell, ds: seq<Cell>): set<Cell> {
    set d | d in ds && IsFree(m, Add(c, d)) :: Add(c, d)
  }

  lemma {:induction false} CountFreeIsCardinality(m: Maze, c: Cell, ds: seq<Cell>)
    requires NoDuplicates(ds)
    ensures CountFree(m, c, ds) == |FreeAlong(m, c, ds)|
    decreases |ds|
  {
    if ds != [] {
      var init, last := ds[..|ds| - 1], ds[|ds| - 1];
      assert NoDuplicates(init);
      CountFreeIsCardinality(m, c, init);
      assert last !in init;
      assert Add(c, last) !in FreeAlong(m, c, init);
      if IsFree(m, Add(c, last)) {
        assert FreeAlong(m, c, ds) == FreeAlong(m, c, init) + {Add(c, last)};
      } else {
        assert FreeAlong(m, c, ds) == FreeAlong(m, c, init);
      }
    }
  }

  /** Some offset of `ds` leads to a free cell, so the count is positive. */
  lemma {:induction false} CountFreePositive(m: Maze, c: Cell, ds: seq<Cell>, d: Cell)
    requires d in ds && IsFree(m, Add(c, d))
    ensures CountFree(m, c, ds) >= 1
    decreases |ds|
  {
    if ds[|ds| - 1] != d {
      assert d in ds[..|ds| - 1];
      CountFreePositive(m, c, ds[..|ds| - 1], d);
    }
  }

  /** A path from `s` to `g`: every step is a move of the model onto a free
      cell (the first cell itself need not be free). */
  predicate ValidPath(m: Maze, mv: Movement, p: seq<Cell>, s: Cell, g: Cell) {
    |p| >= 1 && p[0] == s && p[|p| - 1] == g && Steps(m, mv, p)
  }

  predicate Steps(m: Maze, mv: Movement, p: seq<Cell>) {
    forall i :: 0 < i < |p| ==> IsStep(mv, p[i - 1], p[i]) && IsFree(m, p[i])
  }

  /** The summed step costs along `p`. */
  function Cost(mv: Movement, p: seq<Cell>): nat {
    if |p| <= 1 then 0 else StepCost(mv, Delta(p[0], p[1])) + Cost(mv, p[1..])
  }

  /** The cost of a path is the cost up to its `i`-th cell plus the cost from there. */
  lemma {:induction false} CostSplit(mv: Movement, p: seq<Cell>, i: nat)
    requires i < |p|
    ensures Cost(mv, p) == Cost(mv, p[..i + 1]) + Cost(mv, p[i..])
    decreases i
  {
    if i > 0 {
      CostSplit(mv, p[1..], i - 1);
      assert p[1..][..i] == p[..i + 1][1..];
      assert p[1..][i - 1..] == p[i..];
    }
  }

  /** Under the orthogonal model a path costs its number of steps. */
  lemma {:induction false} OrthogonalCostIsLength(p: seq<Cell>)
    requires |p| >= 1
    ensures Cost(Orthogonal, p) == |p| - 1
    decreases |p|
  {
    if |p| > 1 {
      OrthogonalCostIsLength(p[1..]);
    }
  }

  /** The heuristic towards `goal`, as a function of the cell. */
  function HeuristicTo(mv: Movement, goal: Cell): Cell -> int {
    c => Heuristic(mv, c, goal)
  }

  /** `h` drops by at most a step's cost across any one move of the model. */
  ghost predicate Consistent(mv: Movement, h: Cell -> int) {
    forall a, d {:trigger h(Add(a, d))} :: IsMove(mv, d) ==> h(a) <= StepCost(mv, d) + h(Add(a, d))
  }

  lemma HeuristicToConsistent(mv: Movement, goal: Cell)
    ensures Consistent(mv, HeuristicTo(mv, goal))
  {
    var h := HeuristicTo(mv, goal);
    forall a, d | IsMove(mv, d) ensures h(a) <= StepCost(mv, d) + h(Add(a, d)) {
      HeuristicConsistent(mv, a, d, goal);
    }
  }

  /** Along a path a consistent `h` drops by at most the cost walked. */
  lemma {:induction false} ConsistentAlongPath(m: Maze, mv: Movement, h: Cell -> int, p: seq<Cell>)
    requires Consistent(mv, h) && |p| >= 1 && Steps(m, mv, p)
    ensures h(p[0]) <= Cost(mv, p) + h(p[|p| - 1])
    decreases |p|
  {
    if |p| > 1 {
      assert Steps(m, mv, p[1..]) by {
        forall i | 0 < i < |p[1..]| ensures IsStep(mv, p[1..][i - 1], p[1..][i]) && IsFree(m, p[1..][i]) {
          assert p[1..][i - 1] == p[i] && p[1..][i] == p[i + 1];
        }
      }
      ConsistentAlongPath(m, mv, h, p[1..]);
      var d := Delta(p[0], p[1]);
      assert IsStep(mv, p[0], p[1]);
      assert h(p[0]) <= StepCost(mv, d) + h(Add(p[0], d));
    }
  }

  /** The heuristic never overestimates: it is at most the cost of any path. */
  lemma HeuristicAdmissible(m: Maze, mv: Movement, p: seq<Cell>, s: Cell, g: Cell)
    requires ValidPath(m, mv, p, s, g)
    ensures Heuristic(mv, s, g) <= Cost(mv, p)
  {
    HeuristicToConsistent(mv, g);
    ConsistentAlongPath(m, mv, HeuristicTo(mv, g), p);
    HeuristicBasics(mv, g, g);
  }
}
