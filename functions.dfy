/**
 * The work functions of the parallel benchmarks: squaring one number,
 * squaring a chunk, and cutting the data into chunks for the workers.
 * Numbers are modelled as integers.
 */
module Functions {
  import opened Wrappers
  import opened Seqs
  import opened Partition

  /** `seq_square(num)`: `num ** 2`. */
  function SeqSquare(num: int): (r: int)
    ensures r >= 0
    ensures r >= num
    ensures r == 0 <==> num == 0
  {
    num * num
  }

  /** `pool_square(chunk)`: the square of each element, in order. */
  function PoolSquare(chunk: seq<int>): (r: seq<int>)
    ensures |r| == |chunk|
    ensures forall i :: 0 <= i < |chunk| ==> r[i] == SeqSquare(chunk[i])
  {
    seq(|chunk|, i requires 0 <= i < |chunk| => chunk[i] * chunk[i])
  }

  /** Squaring commutes with concatenation. */
  lemma PoolSquareAppend(a: seq<int>, b: seq<int>)
    ensures PoolSquare(a + b) == PoolSquare(a) + PoolSquare(b)
  {
    var l, r := PoolSquare(a + b), PoolSquare(a) + PoolSquare(b);
    forall i | 0 <= i < |l| ensures l[i] == r[i] {
      if i < |a| {
        assert (a + b)[i] == a[i];
      } else {
        assert (a + b)[i] == b[i - |a|];
      }
    }
  }

  /** `pool_square` on every chunk. */
  function PoolSquareEach(chunks: seq<seq<int>>): (r: seq<seq<int>>)
    ensures |r| == |chunks|
  {
    if chunks == [] then [] else [PoolSquare(chunks[0])] + PoolSquareEach(chunks[1..])
  }

  /** Squaring the chunks separately and joining the results squares the
      whole data: what the pool workers compute is what the sequential run does. */
  lemma {:induction false} PoolSquareChunks(chunks: seq<seq<int>>)
    ensures Concat(PoolSquareEach(chunks)) == PoolSquare(Concat(chunks))
  {
    if chunks != [] {
      PoolSquareChunks(chunks[1..]);
      PoolSquareAppend(chunks[0], Concat(chunks[1..]));
    }
  }

  /**
   * `chunker(data, n)`: `n` consecutive chunks, the first `len(data) % n`
   * one element larger.  A zero `n` is a division by zero; a negative `n`
   * gives no chunks (the loop over `range(n)` is empty).
   */
  method Chunker<T>(data: seq<T>, n: int) returns (r: Result<seq<seq<T>>, Exception>)
    ensures n == 0 <==> r == Failure(ZeroDivisionError)
    ensures n < 0 ==> r == Success([])
    ensures n > 0 ==> r == Success(Split(data, ChunkSizes(|data|, n)))
  {
    if n == 0 {
      return Failure(ZeroDivisionError);
    }
    var chunkSize := FloorDiv(|data|, n);
    var remainder := FloorMod(|data|, n);
    var chunks: seq<seq<T>> := [];
    var start := 0;
    for i := 0 to if n > 0 then n else 0
      invariant n > 0 ==> ChunksSoFar(data, ChunkSizes(|data|, n), chunks, start, i)
      invariant n < 0 ==> chunks == []
    {
      var end := start + chunkSize + (if i < remainder then 1 else 0);
      chunks := NextChunk(data, ChunkSizes(|data|, n), chunks, start, i, end);
      start := end;
    }
    if n > 0 {
      ChunksDone(data, ChunkSizes(|data|, n), chunks, start);
    }
    return Success(chunks);
  }
}
