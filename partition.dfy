/**
 * The partition that `chunker` and `split_population` both compute: a list
 * of length `len` cut into `n` consecutive chunks, the first `len % n` of
 * which hold `len // n + 1` elements and the rest `len // n`.
 */
module Partition {
  import opened Seqs

  /** Python's `a // b`: the quotient rounded towards minus infinity. */
  function FloorDiv(a: int, b: int): int
    requires b != 0
  {
    if b > 0 then a / b else (-a) / (-b)
  }

  /** Python's `a % b`: it has the sign of `b`, and `a == b * (a // b) + a % b`. */
  function FloorMod(a: int, b: int): (r: int)
    requires b != 0
    ensures a == b * FloorDiv(a, b) + r
    ensures b > 0 ==> 0 <= r < b
    ensures b < 0 ==> b < r <= 0
  {
    var q := FloorDiv(a, b);
    if b > 0 then a % b
    else
      assert (-a) == (-b) * q + (-a) % (-b);
      -((-a) % (-b))
  }

  function Sum(s: seq<nat>): nat {
    if s == [] then 0 else s[0] + Sum(s[1..])
  }

  /**
   * `count` sizes of `q`, of which the first `extra` are one larger.
   */
  function Sizes(count: nat, q: nat, extra: nat): (r: seq<nat>)
    ensures |r| == count
    ensures forall i :: 0 <= i < count ==> r[i] == if i < extra then q + 1 else q
    ensures Sum(r) == count * q + if extra < count then extra else count
  {
    if count == 0 then []
    else
      assert count * q == (count - 1) * q + q;
      var first := if extra > 0 then q + 1 else q;
      var rest := Sizes(count - 1, q, if extra > 0 then extra - 1 else 0);
      assert ([first] + rest)[1..] == rest;
      [first] + rest
  }

  /** `n` sizes of `len // n`, of which the first `i` have been bumped by one. */
  function BumpedSizes(len: nat, n: nat, i: nat): (r: seq<nat>)
    requires n > 0
  {
    Sizes(n, len / n, i)
  }

  /** Before any bump, every size is `len // n`. */
  lemma SizesUnbumped(len: nat, n: nat)
    requires n > 0
    ensures seq(n, _ => len / n) == BumpedSizes(len, n, 0)
  {
  }

  /** Bumping the next size gives one more larger size. */
  lemma SizesBumped(len: nat, n: nat, i: nat)
    requires n > 0 && i < n
    ensures |BumpedSizes(len, n, i)| == n
    ensures BumpedSizes(len, n, i)[i := BumpedSizes(len, n, i)[i] + 1] == BumpedSizes(len, n, i + 1)
  {
  }

  /** The chunk sizes for `len` elements in `n > 0` chunks; they add up to `len`. */
  function ChunkSizes(len: nat, n: nat): (r: seq<nat>)
    requires n > 0
    ensures |r| == n && Sum(r) == len
    ensures forall i :: 0 <= i < n ==> r[i] == if i < len % n then len / n + 1 else len / n
  {
    Sizes(n, len / n, len % n)
  }

  /** The sizes differ by at most one, and the larger ones come first. */
  lemma ChunkSizesBalanced(len: nat, n: nat, i: nat, j: nat)
    requires n > 0 && i < j < n
    ensures ChunkSizes(len, n)[j] <= ChunkSizes(len, n)[i] <= ChunkSizes(len, n)[j] + 1
  {
  }

  /** `data` cut into consecutive pieces of the given sizes. */
  function Split<T>(data: seq<T>, sizes: seq<nat>): seq<seq<T>>
    requires Sum(sizes) == |data|
    decreases sizes
  {
    if sizes == [] then [] else [data[..sizes[0]]] + Split(data[sizes[0]..], sizes[1..])
  }

  /** One piece per size, each of its size, and together they are `data` in order. */
  lemma {:induction false} SplitShape<T>(data: seq<T>, sizes: seq<nat>)
    requires Sum(sizes) == |data|
    ensures |Split(data, sizes)| == |sizes|
    ensures forall i :: 0 <= i < |sizes| ==> |Split(data, sizes)[i]| == sizes[i]
    ensures Concat(Split(data, sizes)) == data
    decreases sizes
  {
    if sizes != [] {
      var rest := Split(data[sizes[0]..], sizes[1..]);
      SplitShape(data[sizes[0]..], sizes[1..]);
      var r := [data[..sizes[0]]] + rest;
      assert r[1..] == rest;
      assert data[..sizes[0]] + data[sizes[0]..] == data;
      forall i | 0 < i < |sizes| ensures |r[i]| == sizes[i] {
        assert r[i] == rest[i - 1];
      }
    }
  }

  /** Taking the next piece: the split of what is left starts with the next
      `sizes[i]` elements. */
  lemma SplitNext<T>(data: seq<T>, sizes: seq<nat>, start: nat, i: nat)
    requires i < |sizes| && start <= |data| && Sum(sizes[i..]) == |data| - start
    ensures start + sizes[i] <= |data|
    ensures Sum(sizes[i + 1..]) == |data| - (start + sizes[i])
    ensures Split(data[start..], sizes[i..])
            == [data[start..start + sizes[i]]] + Split(data[start + sizes[i]..], sizes[i + 1..])
  {
    assert sizes[i..][0] == sizes[i] && sizes[i..][1..] == sizes[i + 1..];
    assert data[start..][..sizes[i]] == data[start..start + sizes[i]];
    assert data[start..][sizes[i]..] == data[start + sizes[i]..];
  }

  /** After `i` chunks, `chunks` and the split of the rest make up the whole split. */
  ghost predicate ChunksSoFar<T>(data: seq<T>, sizes: seq<nat>, chunks: seq<seq<T>>, start: int, i: nat)
  {
    && Sum(sizes) == |data|
    && i <= |sizes| && 0 <= start <= |data| && Sum(sizes[i..]) == |data| - start
    && chunks + Split(data[start..], sizes[i..]) == Split(data, sizes)
  }

  /** `chunks.append(data[start:end])` where `end - start` is the next size. */
  function NextChunk<T>(data: seq<T>, ghost sizes: seq<nat>, chunks: seq<seq<T>>, start: int, i: nat, end: int): (r: seq<seq<T>>)
    requires ChunksSoFar(data, sizes, chunks, start, i) && i < |sizes| && end == start + sizes[i]
    ensures ChunksSoFar(data, sizes, r, end, i + 1)
  {
    SplitNext(data, sizes, start, i);
    var piece := data[start..end];
    assert chunks + [piece] + Split(data[end..], sizes[i + 1..])
        == chunks + ([piece] + Split(data[end..], sizes[i + 1..]));
    chunks + [piece]
  }

  /** After the last size, the chunks are the whole split. */
  lemma ChunksDone<T>(data: seq<T>, sizes: seq<nat>, chunks: seq<seq<T>>, start: int)
    requires ChunksSoFar(data, sizes, chunks, start, |sizes|)
    ensures chunks == Split(data, sizes)
  {
    assert sizes[|sizes|..] == [];
    assert Split(data[start..], sizes[|sizes|..]) == [];
    assert chunks + [] == chunks;
  }
}
