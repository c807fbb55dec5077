/**
 * The A* search shared by both explorers (`Explorer.astar`), run under a
 * movement model.  The frontier is a list of `(f, cell)` entries from which
 * the least entry in Python's tuple order `(f, x, y)` is popped, as `heapq`
 * does; `g` is `g_score`, `cameFrom` is `came_from` and `closed` is
 * `closed_set`.  The search also reports the last relaxed neighbour that is a
 * junction, which the explorer stores in `last_junction`.
 *
 * Proved: a returned path runs from start to goal by moves of the model onto
 * free cells and is of least cost (least length under the orthogonal model);
 * no path is returned exactly when none exists; and along `cameFrom`,
 * `g[n] == g[cameFrom[n]] + StepCost(...)`, so the reconstructed path costs
 * `g[goal]`.
 */
module AStar {
  import opened Wrappers
  import opened Seqs
  import opened Grid

  datatype Entry = Entry(f: int, cell: Cell)

  /** Python's comparison of `(f, (x, y))` tuples. */
  predicate EntryLe(a: Entry, b: Entry) {
    a.f < b.f || (a.f == b.f && (a.cell.x < b.cell.x || (a.cell.x == b.cell.x && a.cell.y <= b.cell.y)))
  }

  /** `heapq.heappop`: remove and return the least entry. */
  method PopMin(open: seq<Entry>) returns (e: Entry, rest: seq<Entry>)
    requires |open| > 0
    ensures e in open
    ensures forall o :: o in open ==> EntryLe(e, o)
    ensures multiset(rest) == multiset(open) - multiset{e}
    ensures |rest| == |open| - 1
    ensures forall o :: o in rest ==> o in open
    ensures forall o :: o in open && o != e ==> o in rest
  {
    var k := 0;
    for i := 1 to |open|
      invariant 0 <= k < |open|
      invariant forall j :: 0 <= j < i ==> EntryLe(open[k], open[j])
    {
      if !EntryLe(open[k], open[i]) {
        k := i;
      }
    }
    e := open[k];
    rest := open[..k] + open[k + 1..];
    assert open == open[..k] + [e] + open[k + 1..];
    forall o | o in open && o != e ensures o in rest {
      var j :| 0 <= j < |open| && open[j] == o;
      if j < k { assert rest[j] == o; } else { assert j != k && rest[j - 1] == o; }
    }
  }

  // ---- Invariants of the search ----------------------------------------------------------

  /**
   * Cost accounting: `g` is defined on start and on every cell with a
   * predecessor; start costs 0 and has none; each predecessor is closed and
   * one step away, and `g[n] == g[cameFrom[n]] + StepCost(...)`.
   */
  ghost predicate CostAccounting(m: Maze, mv: Movement, start: Cell,
                                 g: map<Cell, int>, cameFrom: map<Cell, Cell>, closed: set<Cell>)
  {
    && start in g && g[start] == 0 && start !in cameFrom
    && (forall v :: v in g ==> v == start || v in cameFrom)
    && (forall n :: n in cameFrom ==> n in g)
    && (forall u :: u in closed ==> u in g)
    && (forall v :: v in g ==> g[v] >= 0)
    && (forall n {:trigger cameFrom[n]} :: n in cameFrom ==>
          && cameFrom[n] in closed && cameFrom[n] in g
          && IsFree(m, n) && IsStep(mv, cameFrom[n], n)
          && g[n] == g[cameFrom[n]] + StepCost(mv, Delta(cameFrom[n], n)))
  }

  /**
   * The frontier: every entry is for a cell of `g` and its `f` is no smaller
   * than the cell's current `g + h`; every open (unclosed) cell of `g` has an
   * entry with exactly `g + h`; the goal is never closed.
   */
  ghost predicate Frontier(h: Cell -> int, goal: Cell,
                           g: map<Cell, int>, closed: set<Cell>, open: seq<Entry>)
  {
    && (forall e {:trigger e in open} :: e in open ==> e.cell in g && e.f >= g[e.cell] + h(e.cell))
    && (forall v {:trigger v in g} :: v in g && v !in closed ==> Entry(g[v] + h(v), v) in open)
    && goal !in closed
  }

  /** Closed cell `u` has been relaxed: each free, unclosed neighbour has a `g`
      no worse than through `u`. */
  ghost predicate Relaxed(m: Maze, mv: Movement, g: map<Cell, int>, closed: set<Cell>, u: Cell)
  {
    forall v {:trigger IsStep(mv, u, v)} :: IsStep(mv, u, v) && IsFree(m, v) && v !in closed ==>
      u in g && v in g && g[v] <= g[u] + StepCost(mv, Delta(u, v))
  }

  /** The same, for the offsets `ds` visited so far by `Expand`. */
  ghost predicate RelaxedAlong(m: Maze, mv: Movement, g: map<Cell, int>, closed: set<Cell>, u: Cell, ds: seq<Cell>)
  {
    forall d {:trigger d in ds} :: d in ds && IsFree(m, Add(u, d)) && Add(u, d) !in closed ==>
      u in g && Add(u, d) in g && g[Add(u, d)] <= g[u] + StepCost(mv, d)
  }

  ghost predicate AllRelaxed(m: Maze, mv: Movement, g: map<Cell, int>, closed: set<Cell>) {
    forall u :: u in closed ==> Relaxed(m, mv, g, closed, u)
  }

  /** No path to a closed cell is cheaper than its `g`. */
  ghost predicate ClosedOptimal(m: Maze, mv: Movement, start: Cell, g: map<Cell, int>, closed: set<Cell>) {
    forall u, q {:trigger ValidPath(m, mv, q, start, u)} :: u in closed && ValidPath(m, mv, q, start, u) ==> u in g && g[u] <= Cost(mv, q)
  }

  ghost predicate SearchInvariant(m: Maze, mv: Movement, h: Cell -> int, start: Cell, goal: Cell,
                                  g: map<Cell, int>, cameFrom: map<Cell, Cell>, closed: set<Cell>, open: seq<Entry>)
  {
    && CostAccounting(m, mv, start, g, cameFrom, closed)
    && Frontier(h, goal, g, closed, open)
    && AllRelaxed(m, mv, g, closed)
    && ClosedOptimal(m, mv, start, g, closed)
  }

  // ---- Lemmas about the invariants ---------------------------------------------------------

  lemma {:induction false} PrefixSteps(m: Maze, mv: Movement, q: seq<Cell>, k: nat)
    requires Steps(m, mv, q) && 1 <= k <= |q|
    ensures Steps(m, mv, q[..k])
  {
    forall i | 0 < i < k ensures IsStep(mv, q[..k][i - 1], q[..k][i]) && IsFree(m, q[..k][i]) {
      assert q[..k][i - 1] == q[i - 1] && q[..k][i] == q[i];
    }
  }

  lemma {:induction false} SuffixSteps(m: Maze, mv: Movement, q: seq<Cell>, k: nat)
    requires Steps(m, mv, q) && k < |q|
    ensures Steps(m, mv, q[k..])
  {
    forall i | 0 < i < |q| - k ensures IsStep(mv, q[k..][i - 1], q[k..][i]) && IsFree(m, q[k..][i]) {
      assert q[k..][i - 1] == q[k + i - 1] && q[k..][i] == q[k + i];
    }
  }

  /** The first unclosed cell of a path that ends outside the closed set. */
  lemma FirstOpen(closed: set<Cell>, q: seq<Cell>) returns (i: nat)
    requires |q| >= 1 && q[|q| - 1] !in closed
    ensures i < |q| && q[i] !in closed
    ensures forall j :: 0 <= j < i ==> q[j] in closed
  {
    i := 0;
    while q[i] in closed
      invariant 0 <= i < |q|
      invariant forall j :: 0 <= j < i ==> q[j] in closed
      decreases |q| - i
    {
      i := i + 1;
    }
  }

  /** If `q[i]` is the first unclosed cell of a path from start, it was
      relaxed from its closed predecessor (or it is the start), so its `g` is
      at most the cost of `q` up to it. */
  lemma {:induction false} FirstOpenBound(m: Maze, mv: Movement, start: Cell, g: map<Cell, int>,
                                          closed: set<Cell>, q: seq<Cell>, i: nat)
    requires start in g && g[start] == 0
    requires AllRelaxed(m, mv, g, closed) && ClosedOptimal(m, mv, start, g, closed)
    requires |q| >= 1 && q[0] == start && Steps(m, mv, q)
    requires i < |q| && q[i] !in closed && (i > 0 ==> q[i - 1] in closed)
    ensures q[i] in g && g[q[i]] <= Cost(mv, q[..i + 1])
  {
    if i > 0 {
      var u, v := q[i - 1], q[i];
      PrefixSteps(m, mv, q, i);
      assert ValidPath(m, mv, q[..i], start, u);
      assert IsStep(mv, u, v) && IsFree(m, v);
      assert Relaxed(m, mv, g, closed, u);
      CostLastStep(mv, q, i);
    }
  }

  /** The cost of `q` up to `q[i]` is the cost up to `q[i - 1]` plus the last step. */
  lemma CostLastStep(mv: Movement, q: seq<Cell>, i: nat)
    requires 0 < i < |q|
    ensures Cost(mv, q[..i + 1]) == Cost(mv, q[..i]) + StepCost(mv, Delta(q[i - 1], q[i]))
  {
    CostSplit(mv, q[..i + 1], i - 1);
    assert q[..i + 1][..i] == q[..i];
    assert q[..i + 1][i - 1..] == [q[i - 1], q[i]];
  }

  /**
   * The heart of A*'s optimality, for one path `q`: take the first unclosed
   * cell `q[i]` on `q`; its entry bounds the popped `e.f` from above, and
   * consistency of the heuristic bounds the rest of `q`.
   */
  lemma {:induction false} PoppedIsOptimalAlong(m: Maze, mv: Movement, h: Cell -> int, start: Cell, goal: Cell,
                                                g: map<Cell, int>, closed: set<Cell>,
                                                open: seq<Entry>, e: Entry, q: seq<Cell>)
    requires Consistent(mv, h) && start in g && g[start] == 0
    requires Frontier(h, goal, g, closed, open)
    requires AllRelaxed(m, mv, g, closed) && ClosedOptimal(m, mv, start, g, closed)
    requires e in open && forall o :: o in open ==> e.f <= o.f
    requires ValidPath(m, mv, q, start, e.cell)
    ensures e.cell in g && g[e.cell] <= Cost(mv, q)
  {
    if e.cell !in closed {
      var i := FirstOpen(closed, q);
      FirstOpenBound(m, mv, start, g, closed, q, i);
      var v := q[i];
      assert Entry(g[v] + h(v), v) in open;
      SuffixSteps(m, mv, q, i);
      ConsistentAlongPath(m, mv, h, q[i..]);
      CostSplit(mv, q, i);
    }
  }

  /** When the least entry `e` of the frontier is popped, no path to its cell
      is cheaper than the cell's `g`. */
  lemma PoppedIsOptimal(m: Maze, mv: Movement, h: Cell -> int, start: Cell, goal: Cell,
                        g: map<Cell, int>, cameFrom: map<Cell, Cell>, closed: set<Cell>,
                        open: seq<Entry>, e: Entry)
    requires Consistent(mv, h) && SearchInvariant(m, mv, h, start, goal, g, cameFrom, closed, open)
    requires e in open && forall o :: o in open ==> EntryLe(e, o)
    ensures e.cell in g
    ensures forall q :: ValidPath(m, mv, q, start, e.cell) ==> g[e.cell] <= Cost(mv, q)
  {
    forall q | ValidPath(m, mv, q, start, e.cell) ensures g[e.cell] <= Cost(mv, q) {
      PoppedIsOptimalAlong(m, mv, h, start, goal, g, closed, open, e, q);
    }
  }

  /** With an empty frontier every cell of `g` is closed, the closed cells are
      closed under moves, and the goal is not among them: no path reaches it. */
  lemma {:induction false} ExhaustedMeansUnreachable(m: Maze, mv: Movement, h: Cell -> int, start: Cell, goal: Cell,
                                                     g: map<Cell, int>, closed: set<Cell>, q: seq<Cell>)
    requires start in g && Frontier(h, goal, g, closed, []) && AllRelaxed(m, mv, g, closed)
    ensures !ValidPath(m, mv, q, start, goal)
  {
    if ValidPath(m, mv, q, start, goal) {
      var i := 0;
      while i < |q|
        invariant 0 <= i <= |q|
        invariant forall j :: 0 <= j < i ==> q[j] in closed
      {
        if i > 0 {
          var u := q[i - 1];
          assert IsStep(mv, u, q[i]) && IsFree(m, q[i]);
          assert Relaxed(m, mv, g, closed, u);
        }
        i := i + 1;
      }
      assert false;
    }
  }

  // ---- Closing the popped cell keeps the invariants ----------------------------------------

  lemma CloseKeepsAccounting(m: Maze, mv: Movement, start: Cell,
                             g: map<Cell, int>, cameFrom: map<Cell, Cell>, closed: set<Cell>, c: Cell)
    requires CostAccounting(m, mv, start, g, cameFrom, closed) && c in g
    ensures CostAccounting(m, mv, start, g, cameFrom, closed + {c})
  {
  }

  lemma CloseKeepsFrontier(h: Cell -> int, goal: Cell, g: map<Cell, int>, closed: set<Cell>,
                           open: seq<Entry>, e: Entry, rest: seq<Entry>)
    requires Frontier(h, goal, g, closed, open)
    requires e in open && e.cell != goal
    requires forall o :: o in open && o != e ==> o in rest
    requires forall o :: o in rest ==> o in open
    ensures Frontier(h, goal, g, closed + {e.cell}, rest)
  {
  }

  lemma CloseKeepsOptimal(m: Maze, mv: Movement, start: Cell, g: map<Cell, int>, closed: set<Cell>, c: Cell)
    requires ClosedOptimal(m, mv, start, g, closed) && c in g
    requires forall q :: ValidPath(m, mv, q, start, c) ==> g[c] <= Cost(mv, q)
    ensures ClosedOptimal(m, mv, start, g, closed + {c})
  {
  }

  /** Closing more cells leaves fewer neighbours to relax. */
  lemma CloseKeepsRelaxed(m: Maze, mv: Movement, g: map<Cell, int>, closed: set<Cell>, c: Cell)
    requires AllRelaxed(m, mv, g, closed)
    ensures forall u :: u in closed ==> Relaxed(m, mv, g, closed + {c}, u)
  {
    forall u | u in closed ensures Relaxed(m, mv, g, closed + {c}, u) {
      assert Relaxed(m, mv, g, closed, u);
    }
  }

  /** Whatever `Expand` did to the open cells, closed cells keep their `g`, so
      their optimality carries over. */
  lemma ClosedOptimalKept(m: Maze, mv: Movement, start: Cell,
                          g: map<Cell, int>, g': map<Cell, int>, closed: set<Cell>)
    requires ClosedOptimal(m, mv, start, g, closed)
    requires forall u :: u in closed ==> u in g && u in g' && g'[u] == g[u]
    ensures ClosedOptimal(m, mv, start, g', closed)
  {
  }

  // ---- Relaxing a neighbour keeps the invariants -------------------------------------------

  /** Relaxing every offset of the model is relaxing every neighbour. */
  lemma RelaxedAlongOffsets(m: Maze, mv: Movement, g: map<Cell, int>, closed: set<Cell>, u: Cell)
    ensures Relaxed(m, mv, g, closed, u) <==> RelaxedAlong(m, mv, g, closed, u, Offsets(mv))
  {
    OffsetsAreMoves(mv);
    if Relaxed(m, mv, g, closed, u) {
      forall d | d in Offsets(mv) && IsFree(m, Add(u, d)) && Add(u, d) !in closed
        ensures u in g && Add(u, d) in g && g[Add(u, d)] <= g[u] + StepCost(mv, d)
      {
        assert Delta(u, Add(u, d)) == d;
        assert IsStep(mv, u, Add(u, d));
      }
    }
    if RelaxedAlong(m, mv, g, closed, u, Offsets(mv)) {
      forall v | IsStep(mv, u, v) && IsFree(m, v) && v !in closed
        ensures u in g && v in g && g[v] <= g[u] + StepCost(mv, Delta(u, v))
      {
        assert Delta(u, v) in Offsets(mv);
      }
    }
  }

  lemma RelaxedAlongAt(m: Maze, mv: Movement, g: map<Cell, int>, closed: set<Cell>, u: Cell, ds: seq<Cell>, i: nat)
    requires RelaxedAlong(m, mv, g, closed, u, ds) && i < |ds|
    requires IsFree(m, Add(u, ds[i])) && Add(u, ds[i]) !in closed
    ensures u in g && Add(u, ds[i]) in g && g[Add(u, ds[i])] <= g[u] + StepCost(mv, ds[i])
  {
    assert ds[i] in ds;
  }

  /** One more offset visited, whose neighbour is blocked, closed or no better off through `u`. */
  lemma RelaxedAlongExtend(m: Maze, mv: Movement, g: map<Cell, int>, closed: set<Cell>, u: Cell, ds: seq<Cell>, d: Cell)
    requires RelaxedAlong(m, mv, g, closed, u, ds)
    requires IsFree(m, Add(u, d)) && Add(u, d) !in closed ==>
               u in g && Add(u, d) in g && g[Add(u, d)] <= g[u] + StepCost(mv, d)
    ensures RelaxedAlong(m, mv, g, closed, u, ds + [d])
  {
  }

  lemma RelaxKeepsAccounting(m: Maze, mv: Movement, start: Cell, g: map<Cell, int>, cameFrom: map<Cell, Cell>,
                             closed: set<Cell>, current: Cell, n: Cell, t: int)
    requires CostAccounting(m, mv, start, g, cameFrom, closed)
    requires current in closed && IsFree(m, n) && IsStep(mv, current, n) && n !in closed
    requires t == g[current] + StepCost(mv, Delta(current, n))
    requires n !in g || t < g[n]
    ensures CostAccounting(m, mv, start, g[n := t], cameFrom[n := current], closed)
  {
    assert n != start;
    var g', cameFrom' := g[n := t], cameFrom[n := current];
    forall k {:trigger cameFrom'[k]} | k in cameFrom'
      ensures && cameFrom'[k] in closed && cameFrom'[k] in g'
              && IsFree(m, k) && IsStep(mv, cameFrom'[k], k)
              && g'[k] == g'[cameFrom'[k]] + StepCost(mv, Delta(cameFrom'[k], k))
    {
      if k != n {
        assert cameFrom'[k] == cameFrom[k];
        assert cameFrom[k] != n;
      }
    }
  }

  lemma RelaxKeepsFrontier(h: Cell -> int, goal: Cell, g: map<Cell, int>, closed: set<Cell>,
                           open: seq<Entry>, n: Cell, t: int)
    requires Frontier(h, goal, g, closed, open)
    requires n !in closed && (n in g ==> t < g[n])
    ensures Frontier(h, goal, g[n := t], closed, open + [Entry(t + h(n), n)])
  {
    var g', open' := g[n := t], open + [Entry(t + h(n), n)];
    forall e | e in open' ensures e.cell in g' && e.f >= g'[e.cell] + h(e.cell) {
      if e != open'[|open|] {
        assert e in open;
      }
    }
    forall v | v in g' && v !in closed ensures Entry(g'[v] + h(v), v) in open' {
      if v != n {
        var k :| 0 <= k < |open| && open[k] == Entry(g[v] + h(v), v);
        assert open'[k] == open[k];
      } else {
        assert open'[|open|] == Entry(g'[v] + h(v), v);
      }
    }
  }

  lemma RelaxKeepsOthers(m: Maze, mv: Movement, g: map<Cell, int>, closed: set<Cell>, current: Cell, n: Cell, t: int)
    requires forall u :: u in closed && u != current ==> Relaxed(m, mv, g, closed, u)
    requires forall u :: u in closed ==> u in g
    requires n !in closed && (n in g ==> t < g[n])
    ensures forall u :: u in closed && u != current ==> Relaxed(m, mv, g[n := t], closed, u)
  {
    forall u | u in closed && u != current ensures Relaxed(m, mv, g[n := t], closed, u) {
      RelaxKeepsRelaxed(m, mv, g, closed, u, n, t);
    }
  }

  /** Lowering the `g` of an unclosed cell below what any closed cell offers
      keeps that closed cell relaxed. */
  lemma RelaxKeepsRelaxed(m: Maze, mv: Movement, g: map<Cell, int>, closed: set<Cell>, u: Cell,
                          n: Cell, t: int)
    requires Relaxed(m, mv, g, closed, u) && u in closed && u in g && n !in closed
    requires n in g ==> t < g[n]
    ensures Relaxed(m, mv, g[n := t], closed, u)
  {
  }

  lemma RelaxKeepsCurrent(m: Maze, mv: Movement, g: map<Cell, int>, closed: set<Cell>, current: Cell,
                          done: seq<Cell>, d: Cell, t: int)
    requires RelaxedAlong(m, mv, g, closed, current, done)
    requires current in closed && current in g && Add(current, d) !in closed
    requires t == g[current] + StepCost(mv, d)
    requires Add(current, d) in g ==> t < g[Add(current, d)]
    ensures RelaxedAlong(m, mv, g[Add(current, d) := t], closed, current, done + [d])
  {
    var n := Add(current, d);
    forall d' | d' in done + [d] && IsFree(m, Add(current, d')) && Add(current, d') !in closed
      ensures current in g[n := t] && Add(current, d') in g[n := t]
        && g[n := t][Add(current, d')] <= g[n := t][current] + StepCost(mv, d')
    {
      if d' != d {
        assert d' in done;
      }
    }
  }

  // ---- The search ---------------------------------------------------------------------------

  /**
   * The inner loop of `astar`: relax each in-bounds, free, unclosed neighbour
   * of `current` (just closed), recording a better `g`, its predecessor and a
   * new frontier entry, and noting the neighbour when it is a junction.
   * Re-expanding a cell whose neighbours were relaxed already changes nothing.
   */
  method Expand(m: Maze, mv: Movement, h: Cell -> int, start: Cell, goal: Cell, current: Cell,
                g: map<Cell, int>, cameFrom: map<Cell, Cell>, closed: set<Cell>, open: seq<Entry>,
                junction: Option<Cell>)
    returns (g': map<Cell, int>, cameFrom': map<Cell, Cell>, open': seq<Entry>, junction': Option<Cell>)
    requires CostAccounting(m, mv, start, g, cameFrom, closed)
    requires Frontier(h, goal, g, closed, open)
    requires current in closed
    requires forall u :: u in closed && u != current ==> Relaxed(m, mv, g, closed, u)
    ensures CostAccounting(m, mv, start, g', cameFrom', closed)
    ensures Frontier(h, goal, g', closed, open')
    ensures AllRelaxed(m, mv, g', closed)
    ensures forall u :: u in closed ==> u in g' && g'[u] == g[u]
    ensures Relaxed(m, mv, g, closed, current) ==>
              g' == g && cameFrom' == cameFrom && open' == open && junction' == junction
    ensures junction' == junction || (junction'.Some? && IsJunction(m, mv, junction'.value))
  {
    g', cameFrom', open', junction' := g, cameFrom, open, junction;
    var offsets := Offsets(mv);
    RelaxedAlongOffsets(m, mv, g, closed, current);
    ghost var wasRelaxed := RelaxedAlong(m, mv, g, closed, current, offsets);
    for i := 0 to |offsets|
      invariant CostAccounting(m, mv, start, g', cameFrom', closed)
      invariant Frontier(h, goal, g', closed, open')
      invariant forall u :: u in closed && u != current ==> Relaxed(m, mv, g', closed, u)
      invariant RelaxedAlong(m, mv, g', closed, current, offsets[..i])
      invariant forall u :: u in closed ==> u in g' && g'[u] == g[u]
      invariant wasRelaxed ==> g' == g && cameFrom' == cameFrom && open' == open && junction' == junction
      invariant junction' == junction || (junction'.Some? && IsJunction(m, mv, junction'.value))
    {
      g', cameFrom', open', junction' := ExpandStep(m, mv, h, start, goal, current, g, cameFrom, open, junction,
                                                    wasRelaxed, offsets, i, g', cameFrom', closed, open', junction');
    }
    assert offsets[..|offsets|] == offsets;
    RelaxedAlongOffsets(m, mv, g', closed, current);
  }

  /** One pass of the loop in `Expand`: visit the `i`-th offset. */
  method ExpandStep(m: Maze, mv: Movement, h: Cell -> int, start: Cell, goal: Cell, current: Cell,
                    ghost g0: map<Cell, int>, ghost cameFrom0: map<Cell, Cell>, ghost open0: seq<Entry>,
                    ghost junction0: Option<Cell>, ghost wasRelaxed: bool, offsets: seq<Cell>, i: nat,
                    g: map<Cell, int>, cameFrom: map<Cell, Cell>, closed: set<Cell>, open: seq<Entry>,
                    junction: Option<Cell>)
    returns (g': map<Cell, int>, cameFrom': map<Cell, Cell>, open': seq<Entry>, junction': Option<Cell>)
    requires offsets == Offsets(mv) && i < |offsets| && current in closed
    requires wasRelaxed ==> RelaxedAlong(m, mv, g0, closed, current, offsets)
    requires forall u :: u in closed ==> u in g0
    requires CostAccounting(m, mv, start, g, cameFrom, closed)
    requires Frontier(h, goal, g, closed, open)
    requires forall u :: u in closed && u != current ==> Relaxed(m, mv, g, closed, u)
    requires RelaxedAlong(m, mv, g, closed, current, offsets[..i])
    requires forall u :: u in closed ==> u in g && g[u] == g0[u]
    requires wasRelaxed ==> g == g0 && cameFrom == cameFrom0 && open == open0 && junction == junction0
    requires junction == junction0 || (junction.Some? && IsJunction(m, mv, junction.value))
    ensures CostAccounting(m, mv, start, g', cameFrom', closed)
    ensures Frontier(h, goal, g', closed, open')
    ensures forall u :: u in closed && u != current ==> Relaxed(m, mv, g', closed, u)
    ensures RelaxedAlong(m, mv, g', closed, current, offsets[..i + 1])
    ensures forall u :: u in closed ==> u in g' && g'[u] == g0[u]
    ensures wasRelaxed ==> g' == g0 && cameFrom' == cameFrom0 && open' == open0 && junction' == junction0
    ensures junction' == junction0 || (junction'.Some? && IsJunction(m, mv, junction'.value))
  {
    TakeOneMore(offsets, i);
    OffsetIsMove(mv, offsets[i]);
    if wasRelaxed && IsFree(m, Add(current, offsets[i])) && Add(current, offsets[i]) !in closed {
      RelaxedAlongAt(m, mv, g, closed, current, offsets, i);
    }
    g', cameFrom', open', junction' := Visit(m, mv, h, start, goal, current, offsets[i], offsets[..i],
                                             g, cameFrom, closed, open, junction);
  }

  /**
   * One pass of the inner loop of `astar`, for offset `d`: skip a neighbour
   * that is out of bounds, a wall or closed; otherwise relax it when going
   * through `current` is cheaper than its `g`.
   */
  method Visit(m: Maze, mv: Movement, h: Cell -> int, start: Cell, goal: Cell, current: Cell, d: Cell,
               done: seq<Cell>, g: map<Cell, int>, cameFrom: map<Cell, Cell>, closed: set<Cell>,
               open: seq<Entry>, junction: Option<Cell>)
    returns (g': map<Cell, int>, cameFrom': map<Cell, Cell>, open': seq<Entry>, junction': Option<Cell>)
    requires CostAccounting(m, mv, start, g, cameFrom, closed)
    requires Frontier(h, goal, g, closed, open)
    requires current in closed && IsMove(mv, d)
    requires forall u :: u in closed && u != current ==> Relaxed(m, mv, g, closed, u)
    requires RelaxedAlong(m, mv, g, closed, current, done)
    ensures CostAccounting(m, mv, start, g', cameFrom', closed)
    ensures Frontier(h, goal, g', closed, open')
    ensures forall u :: u in closed && u != current ==> Relaxed(m, mv, g', closed, u)
    ensures RelaxedAlong(m, mv, g', closed, current, done + [d])
    ensures forall u :: u in closed ==> u in g' && g'[u] == g[u]
    ensures (IsFree(m, Add(current, d)) && Add(current, d) !in closed ==>
               Add(current, d) in g && g[Add(current, d)] <= g[current] + StepCost(mv, d))
            ==> g' == g && cameFrom' == cameFrom && open' == open && junction' == junction
    ensures junction' == junction || (junction'.Some? && IsJunction(m, mv, junction'.value))
  {
    g', cameFrom', open', junction' := g, cameFrom, open, junction;
    var neighbor := Add(current, d);
    if !InBounds(m, neighbor) || m.grid[neighbor.y][neighbor.x] != 0 || neighbor in closed {
      RelaxedAlongExtend(m, mv, g, closed, current, done, d);
      return;
    }
    var tentative := g[current] + StepCost(mv, d);
    if neighbor !in g || tentative < g[neighbor] {
      g', cameFrom', open', junction' := Relax(m, mv, h, start, goal, current, d, tentative,
                                                g, cameFrom, closed, open, junction, done);
    } else {
      RelaxedAlongExtend(m, mv, g, closed, current, done, d);
    }
  }

  /** One relaxation step of `Expand`, for a neighbour whose `g` improves. */
  method Relax(m: Maze, mv: Movement, h: Cell -> int, start: Cell, goal: Cell, current: Cell, d: Cell, tentative: int,
               g: map<Cell, int>, cameFrom: map<Cell, Cell>, closed: set<Cell>, open: seq<Entry>,
               junction: Option<Cell>, done: seq<Cell>)
    returns (g': map<Cell, int>, cameFrom': map<Cell, Cell>, open': seq<Entry>, junction': Option<Cell>)
    requires CostAccounting(m, mv, start, g, cameFrom, closed)
    requires Frontier(h, goal, g, closed, open)
    requires current in closed && IsMove(mv, d)
    requires forall u :: u in closed && u != current ==> Relaxed(m, mv, g, closed, u)
    requires RelaxedAlong(m, mv, g, closed, current, done)
    requires IsFree(m, Add(current, d)) && Add(current, d) !in closed
    requires tentative == g[current] + StepCost(mv, d)
    requires Add(current, d) !in g || tentative < g[Add(current, d)]
    ensures CostAccounting(m, mv, start, g', cameFrom', closed)
    ensures Frontier(h, goal, g', closed, open')
    ensures forall u :: u in closed && u != current ==> Relaxed(m, mv, g', closed, u)
    ensures RelaxedAlong(m, mv, g', closed, current, done + [d])
    ensures forall u :: u in closed ==> u in g' && g'[u] == g[u]
    ensures junction' == junction || (junction'.Some? && IsJunction(m, mv, junction'.value))
    ensures junction' == if IsJunction(m, mv, Add(current, d)) then Some(Add(current, d)) else junction
  {
    var neighbor := Add(current, d);
    assert Delta(current, neighbor) == d;
    RelaxKeepsAccounting(m, mv, start, g, cameFrom, closed, current, neighbor, tentative);
    RelaxKeepsFrontier(h, goal, g, closed, open, neighbor, tentative);
    RelaxKeepsOthers(m, mv, g, closed, current, neighbor, tentative);
    RelaxKeepsCurrent(m, mv, g, closed, current, done, d, tentative);
    cameFrom' := cameFrom[neighbor := current];
    g' := g[neighbor := tentative];
    open' := open + [Entry(tentative + h(neighbor), neighbor)];
    junction' := junction;
    if Choices(m, mv, neighbor) > 2 {
      junction' := Some(neighbor);
    }
  }

  /** Walk `cameFrom` back from the goal and reverse (`path[::-1]`). */
  method Reconstruct(m: Maze, mv: Movement, start: Cell, goal: Cell,
                     g: map<Cell, int>, cameFrom: map<Cell, Cell>, closed: set<Cell>)
    returns (path: seq<Cell>)
    requires CostAccounting(m, mv, start, g, cameFrom, closed)
    requires goal in g
    ensures ValidPath(m, mv, path, start, goal)
    ensures Cost(mv, path) == g[goal]
  {
    var current := goal;
    var rev := [current];
    while current in cameFrom
      invariant current in g
      invariant |rev| >= 1 && rev[|rev| - 1] == current && rev[0] == goal
      invariant Steps(m, mv, Reverse(rev))
      invariant Cost(mv, Reverse(rev)) == g[goal] - g[current]
      decreases g[current]
    {
      var prev := cameFrom[current];
      PrependStep(m, mv, rev, prev);
      current := prev;
      rev := rev + [current];
    }
    path := Reverse(rev);
  }

  /** Following one more `cameFrom` link extends the reversed path by a step. */
  lemma PrependStep(m: Maze, mv: Movement, rev: seq<Cell>, prev: Cell)
    requires |rev| >= 1 && Steps(m, mv, Reverse(rev))
    requires IsStep(mv, prev, rev[|rev| - 1]) && IsFree(m, rev[|rev| - 1])
    ensures Reverse(rev + [prev]) == [prev] + Reverse(rev)
    ensures Steps(m, mv, Reverse(rev + [prev]))
    ensures Cost(mv, Reverse(rev + [prev])) == StepCost(mv, Delta(prev, rev[|rev| - 1])) + Cost(mv, Reverse(rev))
  {
    assert (rev + [prev])[..|rev|] == rev;
    var p := Reverse(rev);
    assert ([prev] + p)[1..] == p;
  }

  /** The body of the search loop past the goal check: close the popped cell
      and expand it.  Popping an already closed cell changes nothing. */
  method CloseAndExpand(m: Maze, mv: Movement, h: Cell -> int, start: Cell, goal: Cell, ghost universe: set<Cell>,
                        e: Entry, rest: seq<Entry>,
                        g: map<Cell, int>, cameFrom: map<Cell, Cell>, closed: set<Cell>, open: seq<Entry>,
                        junction: Option<Cell>)
    returns (g': map<Cell, int>, cameFrom': map<Cell, Cell>, closed': set<Cell>, open': seq<Entry>,
             junction': Option<Cell>)
    requires SearchInvariant(m, mv, h, start, goal, g, cameFrom, closed, open)
    requires e in open && e.cell != goal && e.cell in g
    requires forall o :: o in open && o != e ==> o in rest
    requires forall o :: o in rest ==> o in open
    requires forall q :: ValidPath(m, mv, q, start, e.cell) ==> g[e.cell] <= Cost(mv, q)
    requires universe == Cells(m) + {start} && closed <= universe && |rest| < |open|
    ensures SearchInvariant(m, mv, h, start, goal, g', cameFrom', closed', open')
    ensures closed' == closed + {e.cell} && closed' <= universe
    ensures |universe - closed'| < |universe - closed| || (closed' == closed && |open'| < |open|)
    ensures junction' == junction || (junction'.Some? && IsJunction(m, mv, junction'.value))
  {
    var current := e.cell;
    CloseKeepsAccounting(m, mv, start, g, cameFrom, closed, current);
    CloseKeepsFrontier(h, goal, g, closed, open, e, rest);
    CloseKeepsOptimal(m, mv, start, g, closed, current);
    CloseKeepsRelaxed(m, mv, g, closed, current);
    closed' := closed + {current};
    g', cameFrom', open', junction' := Expand(m, mv, h, start, goal, current, g, cameFrom, closed', rest, junction);
    ClosedOptimalKept(m, mv, start, g, g', closed');
    assert current == start || IsFree(m, current) by {
      if current != start { assert current in cameFrom; }
    }
    CloseShrinks(m, start, universe, closed, current);
  }

  /** Closing a cell of the maze (or the start) shrinks the cells left to close,
      unless it was closed already. */
  lemma CloseShrinks(m: Maze, start: Cell, universe: set<Cell>, closed: set<Cell>, c: Cell)
    requires universe == Cells(m) + {start} && closed <= universe
    requires c == start || IsFree(m, c)
    ensures closed + {c} <= universe
    ensures |universe - (closed + {c})| < |universe - closed| || closed + {c} == closed
  {
    if c != start {
      FreeCellInCells(m, c);
    }
    if c !in closed {
      assert universe - (closed + {c}) == (universe - closed) - {c};
      RemoveShrinks(universe - closed, c);
    } else {
      AddPresent(closed, c);
    }
  }

  lemma AddPresent(a: set<Cell>, x: Cell)
    requires x in a
    ensures a + {x} == a
  {
  }

  lemma RemoveShrinks(a: set<Cell>, x: Cell)
    requires x in a
    ensures |a - {x}| == |a| - 1
  {
  }

  /**
   * `astar(start, goal)`, with the explorer's `last_junction` passed in as
   * `junction` and its new value returned as `junction'`.
   */
  method Search(m: Maze, mv: Movement, start: Cell, goal: Cell, junction: Option<Cell>)
    returns (path: Option<seq<Cell>>, junction': Option<Cell>)
    ensures path.Some? ==> ValidPath(m, mv, path.value, start, goal)
    ensures path.Some? ==> forall q :: ValidPath(m, mv, q, start, goal) ==> Cost(mv, path.value) <= Cost(mv, q)
    ensures path.None? ==> forall q :: !ValidPath(m, mv, q, start, goal)
    ensures junction' == junction || (junction'.Some? && IsJunction(m, mv, junction'.value))
  {
    HeuristicToConsistent(mv, goal);
    path, junction' := Run(m, mv, HeuristicTo(mv, goal), start, goal, junction);
  }

  /** The search loop, for any consistent heuristic `h`. */
  method Run(m: Maze, mv: Movement, h: Cell -> int, start: Cell, goal: Cell, junction: Option<Cell>)
    returns (path: Option<seq<Cell>>, junction': Option<Cell>)
    requires Consistent(mv, h)
    ensures path.Some? ==> ValidPath(m, mv, path.value, start, goal)
    ensures path.Some? ==> forall q :: ValidPath(m, mv, q, start, goal) ==> Cost(mv, path.value) <= Cost(mv, q)
    ensures path.None? ==> forall q :: !ValidPath(m, mv, q, start, goal)
    ensures junction' == junction || (junction'.Some? && IsJunction(m, mv, junction'.value))
  {
    var open := [Entry(h(start), start)];
    var cameFrom: map<Cell, Cell> := map[];
    var g: map<Cell, int> := map[start := 0];
    var closed: set<Cell> := {};
    junction' := junction;
    ghost var universe := Cells(m) + {start};
    while |open| > 0
      invariant SearchInvariant(m, mv, h, start, goal, g, cameFrom, closed, open)
      invariant closed <= universe
      invariant junction' == junction || (junction'.Some? && IsJunction(m, mv, junction'.value))
      decreases |universe - closed|, |open|
    {
      var e, rest := PopMin(open);
      var current := e.cell;
      PoppedIsOptimal(m, mv, h, start, goal, g, cameFrom, closed, open, e);
      if current == goal {
        var p := Reconstruct(m, mv, start, goal, g, cameFrom, closed);
        return Some(p), junction';
      }
      g, cameFrom, closed, open, junction' := CloseAndExpand(m, mv, h, start, goal, universe, e, rest,
                                                             g, cameFrom, closed, open, junction');
    }
    forall q ensures !ValidPath(m, mv, q, start, goal) {
      ExhaustedMeansUnreachable(m, mv, h, start, goal, g, closed, q);
    }
    return None, junction';
  }
}
