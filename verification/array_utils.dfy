/**
 * `chunk(arr, size)`: `Array.from({length: Math.ceil(arr.length / size)},
 * (v, i) => arr.slice(i * size, i * size + size))`.
 */
module ArrayUtils {

  import opened Wrappers
  import opened Text

  /** `Math.ceil(n / d)` for a positive divisor (`CeilDivIsCeiling` shows it is the ceiling). */
  function CeilDiv(n: nat, d: nat): (q: nat)
    requires d > 0
    ensures q == 0 <==> n == 0
    decreases n
  {
    if n == 0 then 0
    else if n <= d then 1
    else CeilDiv(n - d, d) + 1
  }

  /** CeilDiv(n, d) is the least q with q * d >= n. */
  lemma {:induction false} CeilDivIsCeiling(n: nat, d: nat)
    requires d > 0
    ensures CeilDiv(n, d) * d >= n
    ensures CeilDiv(n, d) == 0 || (CeilDiv(n, d) - 1) * d < n
    decreases n
  {
    if n > d {
      var q := CeilDiv(n - d, d);
      CeilDivIsCeiling(n - d, d);
      assert (q + 1) * d == q * d + d;
      assert q * d == (q - 1) * d + d;
    }
  }

  /** `i * size`, written as repeated addition so that the chunk proofs stay linear. */
  function Offset(i: nat, size: nat): (o: nat)
  {
    if i == 0 then 0 else Offset(i - 1, size) + size
  }

  lemma {:induction false} OffsetIsProduct(i: nat, size: nat)
    ensures Offset(i, size) == i * size
  {
    if i > 0 {
      OffsetIsProduct(i - 1, size);
      assert i * size == (i - 1) * size + size;
    }
  }

  /** Every chunk index starts inside the array. */
  lemma {:induction false} ChunkStartInRange(n: nat, d: nat, i: nat)
    requires d > 0 && i < CeilDiv(n, d)
    ensures Offset(i, d) < n
    decreases n
  {
    if i > 0 {
      ChunkStartInRange(n - d, d, i - 1);
    }
  }

  /** `arr.slice(i * size, i * size + size)` for the i-th of the chunks. */
  function Slice<T>(arr: seq<T>, size: nat, i: nat): (s: seq<T>)
    requires size > 0 && i < CeilDiv(|arr|, size)
    ensures 1 <= |s| <= size
  {
    ChunkStartInRange(|arr|, size, i);
    var start := Offset(i, size);
    arr[start .. Min(start + size, |arr|)]
  }

  /** `chunk(arr, size)` as the source writes it: ceil(|arr| / size) slices. */
  function ChunkFormula<T>(arr: seq<T>, size: nat): (chunks: seq<seq<T>>)
    requires size > 0
    ensures forall i :: 0 <= i < |chunks| ==> 1 <= |chunks[i]| <= size
  {
    seq(CeilDiv(|arr|, size), i requires 0 <= i < CeilDiv(|arr|, size) => Slice(arr, size, i))
  }

  /** The chunking, one slice of at most `size` elements after another (`ChunkIsFormula` relates it to the source's formula). */
  function Chunk<T>(arr: seq<T>, size: nat): (chunks: seq<seq<T>>)
    requires size > 0
    decreases |arr|
  {
    if |arr| == 0 then []
    else
      var n := Min(size, |arr|);
      [arr[..n]] + Chunk(arr[n..], size)
  }

  /** Concatenation of a sequence of sequences, in order. */
  function Flatten<T>(xss: seq<seq<T>>): (r: seq<T>)
  {
    if |xss| == 0 then [] else xss[0] + Flatten(xss[1..])
  }

  lemma {:induction false} FlattenAppend<T>(a: seq<seq<T>>, b: seq<seq<T>>)
    ensures Flatten(a + b) == Flatten(a) + Flatten(b)
    decreases |a|
  {
    if |a| == 0 {
      assert a + b == b;
    } else {
      assert (a + b)[1..] == a[1..] + b;
      FlattenAppend(a[1..], b);
    }
  }

  /** Concatenation is associative. */
  lemma AppendAssoc<T>(a: seq<T>, b: seq<T>, c: seq<T>)
    ensures (a + b) + c == a + (b + c)
  {
  }

  /** Indexing past the first part of a concatenation indexes the second part. */
  lemma AppendIndexRight<T>(a: seq<T>, b: seq<T>, j: nat)
    requires |a| <= j < |a| + |b|
    ensures (a + b)[j] == b[j - |a|]
  {
  }

  /** The results of `f` on each element, concatenated in order. */
  function FlatMap<A, B>(f: A -> seq<B>, xs: seq<A>): (r: seq<B>)
    decreases |xs|
  {
    if |xs| == 0 then [] else f(xs[0]) + FlatMap(f, xs[1..])
  }

  /** Mapping works element by element: it distributes over concatenation. */
  lemma {:induction false} FlatMapAppend<A, B>(f: A -> seq<B>, a: seq<A>, b: seq<A>)
    ensures FlatMap(f, a + b) == FlatMap(f, a) + FlatMap(f, b)
    decreases |a|
  {
    if |a| == 0 {
      assert a + b == b;
    } else {
      assert (a + b)[0] == a[0] && (a + b)[1..] == a[1..] + b;
      FlatMapAppend(f, a[1..], b);
    }
  }

  /** At most `k` results per element give at most `k * |xs|` results. */
  lemma {:induction false} FlatMapBound<A, B>(f: A -> seq<B>, xs: seq<A>, k: nat)
    requires forall i :: 0 <= i < |xs| ==> |f(xs[i])| <= k
    ensures |FlatMap(f, xs)| <= k * |xs|
    decreases |xs|
  {
    if |xs| > 0 {
      FlatMapBound(f, xs[1..], k);
      assert k * |xs| == k + k * (|xs| - 1);
    }
  }

  /** Every result comes from some element. */
  lemma {:induction false} FlatMapSource<A, B>(f: A -> seq<B>, xs: seq<A>, y: B)
    requires y in FlatMap(f, xs)
    ensures exists i :: 0 <= i < |xs| && y in f(xs[i])
    decreases |xs|
  {
    if y !in f(xs[0]) {
      FlatMapSource(f, xs[1..], y);
      var i :| 0 <= i < |xs| - 1 && y in f(xs[1..][i]);
      assert xs[1..][i] == xs[i + 1];
    }
  }

  /** The elements satisfying `p`, in order (`xs.filter(p)`). */
  function Keep<T>(p: T -> bool, xs: seq<T>): (r: seq<T>)
    ensures |r| <= |xs|
    ensures forall k :: 0 <= k < |r| ==> r[k] in xs && p(r[k])
    decreases |xs|
  {
    if |xs| == 0 then [] else (if p(xs[0]) then [xs[0]] else []) + Keep(p, xs[1..])
  }

  /** Filtering looks at one element at a time: it distributes over concatenation. */
  lemma {:induction false} KeepAppend<T>(p: T -> bool, a: seq<T>, b: seq<T>)
    ensures Keep(p, a + b) == Keep(p, a) + Keep(p, b)
    decreases |a|
  {
    if |a| == 0 {
      assert a + b == b;
    } else {
      assert (a + b)[0] == a[0] && (a + b)[1..] == a[1..] + b;
      KeepAppend(p, a[1..], b);
    }
  }

  /** Filtering keeps each element satisfying `p` as often as it occurs, and no other. */
  lemma {:induction false} KeepMultiplicity<T>(p: T -> bool, xs: seq<T>, x: T)
    ensures multiset(Keep(p, xs))[x] == if p(x) then multiset(xs)[x] else 0
    decreases |xs|
  {
    if |xs| > 0 {
      var head: seq<T> := if p(xs[0]) then [xs[0]] else [];
      KeepMultiplicity(p, xs[1..], x);
      assert Keep(p, xs) == head + Keep(p, xs[1..]);
      assert xs == [xs[0]] + xs[1..];
    }
  }

  /** Concatenating the chunks in order gives the array back. */
  lemma {:induction false} ChunkFlatten<T>(arr: seq<T>, size: nat)
    requires size > 0
    ensures Flatten(Chunk(arr, size)) == arr
    decreases |arr|
  {
    if |arr| > 0 {
      var n := Min(size, |arr|);
      ChunkFlatten(arr[n..], size);
      assert ([arr[..n]] + Chunk(arr[n..], size))[1..] == Chunk(arr[n..], size);
      assert arr[..n] + arr[n..] == arr;
    }
  }

  /** There are ceil(|arr| / size) chunks. */
  lemma {:induction false} ChunkCount<T>(arr: seq<T>, size: nat)
    requires size > 0
    ensures |Chunk(arr, size)| == CeilDiv(|arr|, size)
    decreases |arr|
  {
    if |arr| > 0 {
      ChunkCount(arr[Min(size, |arr|)..], size);
    }
  }

  /** Chunk i is the slice of at most `size` elements starting at Offset(i, size). */
  lemma {:induction false} ChunkAtIndex<T>(arr: seq<T>, size: nat, i: nat)
    requires size > 0 && i < |Chunk(arr, size)|
    ensures Offset(i, size) < |arr|
    ensures Chunk(arr, size)[i] == arr[Offset(i, size) .. Min(Offset(i, size) + size, |arr|)]
    decreases i
  {
    var n := Min(size, |arr|);
    var rest := arr[n..];
    var c := Chunk(arr, size);
    assert c == [arr[..n]] + Chunk(rest, size);
    if i == 0 {
      assert c[0] == arr[..n] == arr[0 .. n];
    } else {
      ChunkAtIndex(rest, size, i - 1);
      var o := Offset(i - 1, size);
      var hi := Min(o + size, |rest|);
      assert n == size && Offset(i, size) == n + o;
      assert n + hi == Min(Offset(i, size) + size, |arr|);
      SliceOfDrop(arr, n, o, hi);
      assert c[i] == Chunk(rest, size)[i - 1] == rest[o .. hi] == arr[n + o .. n + hi];
    }
  }

  /** A slice of a suffix is a slice of the whole. */
  lemma SliceOfDrop<T>(arr: seq<T>, n: nat, a: nat, b: nat)
    requires n <= |arr| && a <= b <= |arr| - n
    ensures arr[n..][a..b] == arr[n + a .. n + b]
  {
  }

  /** The recursive chunking is the source's formula. */
  lemma ChunkIsFormula<T>(arr: seq<T>, size: nat)
    requires size > 0
    ensures Chunk(arr, size) == ChunkFormula(arr, size)
  {
    ChunkCount(arr, size);
    forall i | 0 <= i < |Chunk(arr, size)|
      ensures Chunk(arr, size)[i] == ChunkFormula(arr, size)[i]
    {
      ChunkAtIndex(arr, size, i);
    }
  }

  /** Chunk i is `arr[i * size .. min((i + 1) * size, |arr|)]`. */
  lemma ChunkIndex<T>(arr: seq<T>, size: nat, i: nat)
    requires size > 0 && i < |Chunk(arr, size)|
    ensures i * size < |arr|
    ensures Chunk(arr, size)[i] == arr[i * size .. Min((i + 1) * size, |arr|)]
  {
    ChunkAtIndex(arr, size, i);
    OffsetIsProduct(i, size);
    assert (i + 1) * size == i * size + size;
  }

  /** There are ceil(|arr| / size) chunks; every one but the last is full and the last holds 1 to size. */
  lemma ChunkSizes<T>(arr: seq<T>, size: nat)
    requires size > 0
    ensures |Chunk(arr, size)| * size >= |arr|
    ensures |Chunk(arr, size)| == 0 || (|Chunk(arr, size)| - 1) * size < |arr|
    ensures |Chunk(arr, size)| == 0 <==> |arr| == 0
    ensures forall i :: 0 <= i < |Chunk(arr, size)| - 1 ==> |Chunk(arr, size)[i]| == size
    ensures |arr| > 0 ==> 1 <= |Chunk(arr, size)[|Chunk(arr, size)| - 1]| <= size
  {
    var q := CeilDiv(|arr|, size);
    var c := Chunk(arr, size);
    ChunkCount(arr, size);
    forall i | 0 <= i < q
      ensures |c[i]| == Min(Offset(i, size) + size, |arr|) - Offset(i, size)
    {
      ChunkAtIndex(arr, size, i);
    }
    forall i | 0 <= i && i + 1 < q
      ensures |c[i]| == size
    {
      ChunkStartInRange(|arr|, size, i + 1);
    }
    CeilDivIsCeiling(|arr|, size);
  }

  /**
   * `chunk` for any integer size, as JavaScript evaluates it: a negative size
   * gives no chunks, and a zero size gives none for an empty array but asks
   * for an array of infinite length otherwise (a `RangeError`, here `None`).
   */
  function ChunkChecked<T>(arr: seq<T>, size: int): (r: Option<seq<seq<T>>>)
    ensures r.None? <==> size == 0 && |arr| > 0
    ensures size < 0 ==> r == Some([])
    ensures size > 0 ==> r.Some? && Flatten(r.value) == arr
    ensures size > 0 ==> forall k :: 0 <= k < |r.value| ==> 1 <= |r.value[k]| <= size
  {
    if size > 0 then
      ChunkFlatten(arr, size);
      ChunkSizes(arr, size);
      Some(Chunk(arr, size))
    else if size < 0 || |arr| == 0 then Some([])
    else None
  }
}
