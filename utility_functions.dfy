/**
 * The helpers of the distributed genetic algorithm: cutting the population
 * into one chunk per worker, and flattening the gathered, nested results
 * into one list of integers.
 */
module UtilityFunctions {
  import opened Wrappers
  import opened Seqs
  import opened Partition

  /**
   * `split_population(pop, num_chunks)`: the sizes are computed first, all
   * `len(pop) // num_chunks`, then the first `len(pop) % num_chunks` are
   * bumped, and the population is cut at those sizes.  The outcome is the
   * partition `chunker` produces.  With no chunks the remainder is a division
   * by zero; with a negative count both loops are empty.
   */
  method SplitPopulation<T>(pop: seq<T>, numChunks: int) returns (r: Result<seq<seq<T>>, Exception>)
    ensures numChunks == 0 <==> r == Failure(ZeroDivisionError)
    ensures numChunks < 0 ==> r == Success([])
    ensures numChunks > 0 ==> r == Success(Split(pop, ChunkSizes(|pop|, numChunks)))
  {
    if numChunks == 0 {
      // The size comprehension is empty; `len(pop) % 0` then raises.
      return Failure(ZeroDivisionError);
    }
    var chunkSizes := PopulationChunkSizes(|pop|, numChunks);
    var chunks := CutBySizes(pop, chunkSizes);
    return Success(chunks);
  }

  /** `chunk_sizes` of `split_population`: `num_chunks` copies of
      `len(pop) // num_chunks`, of which the first `len(pop) % num_chunks` are
      then bumped in place (no sizes at all for a negative count). */
  method PopulationChunkSizes(len: nat, numChunks: int) returns (chunkSizes: seq<nat>)
    requires numChunks != 0
    ensures numChunks > 0 ==> chunkSizes == ChunkSizes(len, numChunks)
    ensures numChunks < 0 ==> chunkSizes == []
  {
    chunkSizes := if numChunks > 0 then seq(numChunks, _ => len / numChunks) else [];
    var remainder := FloorMod(len, numChunks);
    if numChunks > 0 {
      SizesUnbumped(len, numChunks);
    }
    for i := 0 to if remainder > 0 then remainder else 0
      invariant numChunks > 0 ==> chunkSizes == BumpedSizes(len, numChunks, i)
      invariant numChunks < 0 ==> chunkSizes == []
    {
      SizesBumped(len, numChunks, i);
      chunkSizes := chunkSizes[i := chunkSizes[i] + 1];
    }
  }

  /** The second loop of `split_population`: one slice per size, advancing `index`. */
  method CutBySizes<T>(pop: seq<T>, chunkSizes: seq<nat>) returns (chunks: seq<seq<T>>)
    requires chunkSizes == [] || Sum(chunkSizes) == |pop|
    ensures chunkSizes == [] ==> chunks == []
    ensures Sum(chunkSizes) == |pop| ==> chunks == Split(pop, chunkSizes)
  {
    chunks := [];
    var index := 0;
    for j := 0 to |chunkSizes|
      invariant chunkSizes != [] ==> ChunksSoFar(pop, chunkSizes, chunks, index, j)
      invariant chunkSizes == [] ==> chunks == []
    {
      var cs := chunkSizes[j];
      chunks := NextChunk(pop, chunkSizes, chunks, index, j, index + cs);
      index := index + cs;
    }
    if chunkSizes != [] {
      ChunksDone(pop, chunkSizes, chunks, index);
    }
  }

  // ---- flatten -----------------------------------------------------------------------------

  /** What the gathered data may hold: an integer, a list (or array) of
      further items, or anything else. */
  datatype Nested = Int(value: int) | List(items: seq<Nested>) | Unsupported

  /** Two flattening results one after the other: the first error wins. */
  function Join(a: Result<seq<int>, Exception>, b: Result<seq<int>, Exception>): (r: Result<seq<int>, Exception>)
    ensures r.Success? <==> a.Success? && b.Success?
    ensures r.Success? ==> r.value == a.value + b.value
  {
    match a
    case Failure(e) => Failure(e)
    case Success(u) =>
      match b
      case Failure(e) => Failure(e)
      case Success(v) => Success(u + v)
  }

  /** The integer leaves of `x`, left to right and depth first, or the
      `TypeError` raised at an unsupported leaf. */
  function Flat(x: Nested): Result<seq<int>, Exception>
    decreases x, 1
  {
    match x
    case Int(v) => Success([v])
    case List(items) => FlatAll(items, x)
    case Unsupported => Failure(TypeError)
  }

  /** The leaves of each item in turn (`parent` only bounds the recursion). */
  function FlatAll(items: seq<Nested>, ghost parent: Nested): Result<seq<int>, Exception>
    requires forall i :: 0 <= i < |items| ==> items[i] < parent
    decreases parent, 0, |items|
  {
    if items == [] then Success([]) else Join(Flat(items[0]), FlatAll(items[1..], parent))
  }

  /** `flatten(data)`, without the final conversion to a 32-bit array. */
  method Flatten(data: Nested) returns (r: Result<seq<int>, Exception>)
    ensures r == Flat(data)
  {
    r := FlattenInto(data, []);
    JoinUnit(Flat(data));
  }

  /** `_flatten(x)`, appending to the list `flat` that the enclosing call owns. */
  method FlattenInto(x: Nested, flat: seq<int>) returns (r: Result<seq<int>, Exception>)
    ensures r == Join(Success(flat), Flat(x))
    decreases x
  {
    match x
    case Int(v) =>
      return Success(flat + [v]);
    case List(items) =>
      var acc := flat;
      JoinUnit(Success(flat));
      for i := 0 to |items|
        invariant Join(Success(flat), FlatAll(items[..i], x)) == Success(acc)
      {
        FlatAllAppend(items[..i], [items[i]], x);
        assert items[..i] + [items[i]] == items[..i + 1];
        FlatAllSingle(items[i], x);
        JoinAssociative(Success(flat), FlatAll(items[..i], x), Flat(items[i]));
        var next := FlattenInto(items[i], acc);
        if next.Failure? {
          FlatAllAppend(items[..i + 1], items[i + 1..], x);
          assert items[..i + 1] + items[i + 1..] == items;
          return next;
        }
        acc := next.value;
      }
      assert items[..|items|] == items;
      return Success(acc);
    case Unsupported =>
      return Failure(TypeError);
  }

  /** Flattening a list of lists joins the flattenings of the parts. */
  lemma {:induction false} FlatAllAppend(a: seq<Nested>, b: seq<Nested>, parent: Nested)
    requires forall i :: 0 <= i < |a| ==> a[i] < parent
    requires forall i :: 0 <= i < |b| ==> b[i] < parent
    ensures FlatAll(a + b, parent) == Join(FlatAll(a, parent), FlatAll(b, parent))
    decreases |a|
  {
    if a == [] {
      assert a + b == b;
      JoinUnit(FlatAll(b, parent));
    } else {
      assert (a + b)[0] == a[0] && (a + b)[1..] == a[1..] + b;
      FlatAllAppend(a[1..], b, parent);
      JoinAssociative(Flat(a[0]), FlatAll(a[1..], parent), FlatAll(b, parent));
    }
  }

  /** The empty flattening is a unit of `Join`. */
  lemma JoinUnit(a: Result<seq<int>, Exception>)
    ensures Join(Success([]), a) == a && Join(a, Success([])) == a
  {
    if a.Success? {
      assert [] + a.value == a.value && a.value + [] == a.value;
    }
  }

  /** The flattening of a one-item list is that of the item. */
  lemma FlatAllSingle(item: Nested, parent: Nested)
    requires item < parent
    ensures FlatAll([item], parent) == Flat(item)
  {
    assert [item][1..] == [];
    JoinUnit(Flat(item));
  }

  lemma JoinAssociative(a: Result<seq<int>, Exception>, b: Result<seq<int>, Exception>, c: Result<seq<int>, Exception>)
    ensures Join(a, Join(b, c)) == Join(Join(a, b), c)
  {
    if a.Success? && b.Success? && c.Success? {
      assert a.value + (b.value + c.value) == (a.value + b.value) + c.value;
    }
  }

  /** `flatten([a, b]) == flatten(a) + flatten(b)`, and either part's error is the result's. */
  lemma FlatPair(a: Nested, b: Nested)
    ensures Flat(List([a, b])) == Join(Flat(a), Flat(b))
  {
    var x := List([a, b]);
    assert [a, b][1..] == [b];
    assert x.items[1] == b;
    FlatAllSingle(b, x);
  }

  /** A flat list of integers. */
  function Ints(xs: seq<int>): (r: seq<Nested>)
    ensures |r| == |xs| && forall i :: 0 <= i < |xs| ==> r[i] == Int(xs[i])
  {
    seq(|xs|, i requires 0 <= i < |xs| => Int(xs[i]))
  }

  /** On a flat list of integers, flattening gives the integers back in order. */
  lemma FlatOfInts(xs: seq<int>)
    ensures Flat(List(Ints(xs))) == Success(xs)
  {
    FlatAllOfInts(Ints(xs), xs, List(Ints(xs)));
  }

  lemma {:induction false} FlatAllOfInts(items: seq<Nested>, xs: seq<int>, parent: Nested)
    requires |items| == |xs| && forall i :: 0 <= i < |xs| ==> items[i] == Int(xs[i]) && items[i] < parent
    ensures FlatAll(items, parent) == Success(xs)
    decreases |xs|
  {
    if xs != [] {
      FlatAllOfInts(items[1..], xs[1..], parent);
      assert [xs[0]] + xs[1..] == xs;
    }
  }

  /** Some leaf is neither an integer nor a list. */
  predicate HasUnsupported(x: Nested) {
    match x
    case Int(_) => false
    case List(items) => exists i :: 0 <= i < |items| && HasUnsupported(items[i])
    case Unsupported => true
  }

  /** Flattening fails exactly when some leaf is unsupported, and then with `TypeError`. */
  lemma {:induction false} FlatFailsOnUnsupported(x: Nested)
    ensures Flat(x).Failure? <==> HasUnsupported(x)
    ensures Flat(x).Failure? ==> Flat(x).error == TypeError
    decreases x, 1
  {
    match x
    case Int(_) =>
    case List(items) => FlatAllFailsOnUnsupported(items, x);
    case Unsupported =>
  }

  lemma {:induction false} FlatAllFailsOnUnsupported(items: seq<Nested>, parent: Nested)
    requires forall i :: 0 <= i < |items| ==> items[i] < parent
    ensures FlatAll(items, parent).Failure? <==> exists i :: 0 <= i < |items| && HasUnsupported(items[i])
    ensures FlatAll(items, parent).Failure? ==> FlatAll(items, parent).error == TypeError
    decreases parent, 0, |items|
  {
    if items != [] {
      FlatFailsOnUnsupported(items[0]);
      FlatAllFailsOnUnsupported(items[1..], parent);
      if exists i :: 0 <= i < |items| && HasUnsupported(items[i]) {
        var i :| 0 <= i < |items| && HasUnsupported(items[i]);
        if i > 0 { assert items[1..][i - 1] == items[i]; }
      }
      if exists i :: 0 <= i < |items| - 1 && HasUnsupported(items[1..][i]) {
        var i :| 0 <= i < |items| - 1 && HasUnsupported(items[1..][i]);
        assert items[i + 1] == items[1..][i];
      }
    }
  }
}
