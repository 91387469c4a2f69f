/** LinqExtensions.Chunk: splitting a sequence into consecutive batches. */
module Linq {
  import opened Wrappers

  /** Reference definition of the batches of `s`: consecutive slices of `n`
      items, the last one possibly shorter. A batch size of 0 never fills a
      batch, so the whole input is one batch. */
  function Batches<T>(s: seq<T>, n: nat): seq<seq<T>>
    decreases |s|
  {
    if s == [] then []
    else if n == 0 || |s| <= n then [s]
    else [s[..n]] + Batches(s[n..], n)
  }

  /** Concatenation of all batches, in order. */
  function Flatten<T>(ss: seq<seq<T>>): seq<T>
  {
    if ss == [] then [] else ss[0] + Flatten(ss[1..])
  }

  /** Flattening the batches gives back the input, in order. */
  lemma {:induction false} FlattenBatches<T>(s: seq<T>, n: nat)
    ensures Flatten(Batches(s, n)) == s
    decreases |s|
  {
    if s != [] && n != 0 && |s| > n {
      FlattenBatches(s[n..], n);
      assert s[..n] + s[n..] == s;
    }
  }

  /** For a positive batch size: no batch is empty, every batch but the last
      is full, the last holds at most `n` items, and the number of batches is
      ceil(|s| / n), stated as (|b| - 1) * n < |s| <= |b| * n for non-empty
      input; empty input gives no batches. */
  lemma {:induction false} BatchSizes<T>(s: seq<T>, n: nat)
    requires n >= 1
    ensures var b := Batches(s, n);
      && (b == [] <==> s == [])
      && (forall i :: 0 <= i < |b| ==> 0 < |b[i]| <= n)
      && (forall i :: 0 <= i < |b| - 1 ==> |b[i]| == n)
      && (s != [] ==> (|b| - 1) * n < |s| <= |b| * n)
    decreases |s|
  {
    if s != [] && |s| > n {
      BatchSizes(s[n..], n);
      var k := |Batches(s[n..], n)|;
      assert (k + 1) * n == k * n + n;
    }
  }

  /** A batch size of 0 makes non-empty input a single batch. */
  lemma ZeroBatchSize<T>(s: seq<T>)
    requires s != []
    ensures Batches(s, 0) == [s]
  {
  }

  /** `p` is made of whole batches of `n` items. */
  predicate FullBatches<T>(p: seq<T>, n: nat)
    requires n >= 1
    decreases |p|
  {
    p == [] || (|p| >= n && FullBatches(p[n..], n))
  }

  lemma {:induction false} FullBatchesAppend<T>(p: seq<T>, b: seq<T>, n: nat)
    requires n >= 1 && FullBatches(p, n) && |b| == n
    ensures FullBatches(p + b, n)
    decreases |p|
  {
    if p == [] {
      assert (p + b)[n..] == [];
    } else {
      assert (p + b)[n..] == p[n..] + b;
      FullBatchesAppend(p[n..], b, n);
    }
  }

  /** Appending a non-empty, at most full batch to a prefix made of full
      batches appends exactly that batch. */
  lemma {:induction false} BatchesAppend<T>(p: seq<T>, b: seq<T>, n: nat)
    requires n >= 1 && FullBatches(p, n) && 0 < |b| <= n
    ensures Batches(p + b, n) == Batches(p, n) + [b]
    decreases |p|
  {
    if p == [] {
      assert p + b == b;
    } else {
      assert (p + b)[..n] == p[..n];
      assert (p + b)[n..] == p[n..] + b;
      BatchesAppend(p[n..], b, n);
      if |p| == n {
        assert p[n..] + b == b;
      }
    }
  }

  /** Chunk(list, batchSize): `new List<T>(batchSize)` throws for a negative
      capacity; otherwise items are added to the current batch, which is
      yielded and replaced as soon as its count equals `batchSize`, and a
      non-empty remainder is yielded at the end. */
  method Chunk<T>(list: seq<T>, batchSize: int) returns (r: Result<seq<seq<T>>>)
    ensures r.Err? <==> batchSize < 0
    ensures r.Err? ==> r.error == ArgumentOutOfRange("capacity")
    ensures r.Ok? ==> r.value == Batches(list, batchSize)
  {
    if batchSize < 0 {
      return Err(ArgumentOutOfRange("capacity"));
    }
    var chunks: seq<seq<T>> := [];
    var batch: seq<T> := [];
    ghost var start := 0;
    for i := 0 to |list|
      invariant 0 <= start <= i
      invariant batch == list[start..i]
      invariant chunks == Batches(list[..start], batchSize)
      invariant batchSize == 0 ==> start == 0
      invariant batchSize > 0 ==> FullBatches(list[..start], batchSize) && |batch| < batchSize
    {
      assert list[start..i + 1] == list[start..i] + [list[i]];
      batch := batch + [list[i]];
      if |batch| == batchSize {
        BatchesAppend(list[..start], batch, batchSize);
        FullBatchesAppend(list[..start], batch, batchSize);
        assert list[..start] + batch == list[..i + 1];
        chunks := chunks + [batch];
        batch := [];
        start := i + 1;
      }
    }
    if |batch| > 0 {
      if batchSize > 0 {
        BatchesAppend(list[..start], batch, batchSize);
        assert list[..start] + batch == list;
      } else {
        assert batch == list;
      }
      chunks := chunks + [batch];
    } else {
      assert list[..start] == list;
    }
    return Ok(chunks);
  }
}
