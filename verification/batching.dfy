/**
 * Capping and batching in `performAnalysis` (scripts.js): at most `MAX_POSTS` posts are
 * analysed, and they are sent in consecutive slices of `BATCH_SIZE`.
 */
module Batching {
  import opened Sequences

  const MAX_POSTS: nat := 500
  const BATCH_SIZE: nat := 25

  function Min(a: nat, b: nat): nat
  {
    if a < b then a else b
  }

  /** `posts.slice(0, MAX_POSTS)`. */
  function Capped<T>(posts: seq<T>): (r: seq<T>)
    ensures |r| == Min(|posts|, MAX_POSTS) && r == posts[..|r|]
  {
    posts[..Min(|posts|, MAX_POSTS)]
  }

  /** The post counter turns red and warns exactly when posts beyond the limit will be ignored. */
  predicate ShowsLimitWarning(count: nat)
  {
    count > MAX_POSTS
  }

  lemma LimitWarningMeansTruncation<T>(posts: seq<T>)
    ensures ShowsLimitWarning(|posts|) <==> |Capped(posts)| < |posts|
  {
  }

  /** Reference partition of `xs` into consecutive chunks of `size`, the last one possibly shorter. */
  function Chunks<T>(xs: seq<T>, size: nat): seq<seq<T>>
    requires size > 0
    decreases |xs|
  {
    if xs == [] then []
    else if |xs| <= size then [xs]
    else [xs[..size]] + Chunks(xs[size..], size)
  }

  /** The chunks, put back together, are the original sequence: no post is lost, repeated or moved. */
  lemma {:induction false} ChunksConcat<T>(xs: seq<T>, size: nat)
    requires size > 0
    ensures Concat(Chunks(xs, size)) == xs
    decreases |xs|
  {
    if xs != [] && |xs| > size {
      var rest := Chunks(xs[size..], size);
      ChunksConcat(xs[size..], size);
      assert ([xs[..size]] + rest)[1..] == rest;
      assert xs == xs[..size] + xs[size..];
    } else if xs != [] {
      assert Concat([xs]) == xs + Concat([xs][1..]);
    }
  }

  /**
   * Each chunk holds between 1 and `size` elements and every chunk but the last holds exactly
   * `size`, so the chunk count n satisfies (n - 1) * size < |xs| <= n * size.
   */
  lemma {:induction false} ChunksShape<T>(xs: seq<T>, size: nat)
    requires size > 0
    ensures |Chunks(xs, size)| == 0 <==> xs == []
    ensures |Chunks(xs, size)| > 0 ==>
              (|Chunks(xs, size)| - 1) * size < |xs| <= |Chunks(xs, size)| * size
    ensures forall i | 0 <= i < |Chunks(xs, size)| ::
              1 <= |Chunks(xs, size)[i]| <= size &&
              (i < |Chunks(xs, size)| - 1 ==> |Chunks(xs, size)[i]| == size)
    decreases |xs|
  {
    if xs != [] && |xs| > size {
      ChunksShape(xs[size..], size);
      var rest := Chunks(xs[size..], size);
      assert Chunks(xs, size) == [xs[..size]] + rest;
      assert |Chunks(xs, size)| * size == |rest| * size + size;
      forall i | 1 <= i < |Chunks(xs, size)|
        ensures Chunks(xs, size)[i] == rest[i - 1]
      {
      }
    }
  }

  /** With the batch size of 25 there are exactly ceil(|xs| / 25) batches. */
  lemma BatchCount<T>(xs: seq<T>)
    ensures |Chunks(xs, BATCH_SIZE)| == (|xs| + BATCH_SIZE - 1) / BATCH_SIZE
  {
    ChunksShape(xs, BATCH_SIZE);
  }

  /** Chunk `i` is the slice `xs[i*size .. min((i+1)*size, |xs|)]`, as `slice(i, i + size)` gives it. */
  lemma {:induction false} ChunkAt<T>(xs: seq<T>, size: nat, i: nat)
    requires size > 0 && i < |Chunks(xs, size)|
    ensures i * size < |xs|
    ensures Chunks(xs, size)[i] == xs[i * size .. Min(i * size + size, |xs|)]
    decreases |xs|
  {
    if |xs| > size && i > 0 {
      ChunkAt(xs[size..], size, i - 1);
      var a := (i - 1) * size;
      assert i * size == a + size by {
        MulPred(i, size);
      }
      var b := Min(a + size, |xs| - size);
      assert xs[size..][a..b] == xs[a + size..b + size];
    }
  }

  /** Chunk `i` starts one chunk after chunk `i - 1`. */
  lemma MulPred(i: nat, size: nat)
    requires i > 0
    ensures i * size == (i - 1) * size + size
  {
  }

  /** Unfolding one chunk at position `i` of the capped list, the step `performAnalysis` takes per iteration. */
  lemma ChunksStep<T>(xs: seq<T>, i: nat)
    requires i < |xs|
    ensures Chunks(xs[i..], BATCH_SIZE)
            == [xs[i..Min(i + BATCH_SIZE, |xs|)]] + Chunks(xs[Min(i + BATCH_SIZE, |xs|)..], BATCH_SIZE)
  {
    if |xs| - i <= BATCH_SIZE {
      assert xs[|xs|..] == [];
      assert xs[i..] == xs[i..|xs|];
    } else {
      assert xs[i..][..BATCH_SIZE] == xs[i..i + BATCH_SIZE];
      assert xs[i..][BATCH_SIZE..] == xs[i + BATCH_SIZE..];
    }
  }

  /**
   * The batching loop of `performAnalysis`: take the first `MAX_POSTS` posts and push
   * `postsToAnalyze.slice(i, i + BATCH_SIZE)` for `i = 0, 25, 50, ...`.
   */
  method MakeBatches<T>(posts: seq<T>) returns (batches: seq<seq<T>>)
    ensures batches == Chunks(Capped(posts), BATCH_SIZE)
  {
    var postsToAnalyze := posts[..Min(|posts|, MAX_POSTS)];
    batches := [];
    var i := 0;
    while i < |postsToAnalyze|
      invariant i % BATCH_SIZE == 0 && i < |postsToAnalyze| + BATCH_SIZE
      invariant batches + Chunks(postsToAnalyze[Min(i, |postsToAnalyze|)..], BATCH_SIZE)
                == Chunks(postsToAnalyze, BATCH_SIZE)
    {
      var end := Min(i + BATCH_SIZE, |postsToAnalyze|);
      ChunksStep(postsToAnalyze, i);
      batches := batches + [postsToAnalyze[i..end]];
      i := i + BATCH_SIZE;
    }
    assert postsToAnalyze[|postsToAnalyze|..] == [];
  }

  /**
   * The first `r` chunks hold exactly the first `min(r * size, |xs|)` elements, in order
   * (`Analysis.SentPostsArePrefix` applies this to a run that stops after `r` requests).
   */
  lemma {:induction false} ChunksPrefix<T>(xs: seq<T>, size: nat, r: nat)
    requires size > 0 && r <= |Chunks(xs, size)|
    ensures Concat(Chunks(xs, size)[..r]) == xs[..Min(r * size, |xs|)]
    decreases r
  {
    var cs := Chunks(xs, size);
    if r == 0 {
      assert cs[..0] == [];
    } else {
      ChunksPrefix(xs, size, r - 1);
      assert cs[..r] == cs[..r - 1] + [cs[r - 1]];
      ConcatAppend(cs[..r - 1], [cs[r - 1]]);
      assert Concat([cs[r - 1]]) == cs[r - 1] + Concat([]);
      ChunkAt(xs, size, r - 1);
      assert (r - 1) * size + size == r * size;
      assert xs[..(r - 1) * size] + xs[(r - 1) * size..Min(r * size, |xs|)] == xs[..Min(r * size, |xs|)];
    }
  }

  /** Whatever the input, at most MAX_POSTS / BATCH_SIZE = 20 requests are made. */
  lemma AtMostTwentyBatches<T>(posts: seq<T>)
    ensures |Chunks(Capped(posts), BATCH_SIZE)| <= MAX_POSTS / BATCH_SIZE
  {
    ChunksShape(Capped(posts), BATCH_SIZE);
  }
}
