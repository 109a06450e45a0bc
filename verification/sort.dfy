/**
  The LSD radix sort engine (`rdxsort` for slices and vectors).

  The two generations of buckets of the source are sequences of sequences.
  Round 0 distributes the input; every later round visits the buckets of the
  previous generation in index order, walking bucket i back to front when
  `reverse(round - 1, i)` is set, and distributes them again; the write-back
  concatenates the final buckets, walking bucket i back to front when
  `reverse(nrounds - 1, i)` is set.  A digit at or above the bucket count
  makes the source panic; here it is the error result.  So is the division
  by a zero bucket count in the capacity estimate of the bucket vectors.
 */
module RadixSort {
  import opened Codec

  /**
    Why the source panics: the `assert!(b < cfg_nbuckets)` of `helper_bucket`,
    with the round and the offending digit, or the division
    `(n << 2) / cfg_nbuckets` of the capacity estimate when there are rounds
    but no buckets.
   */
  datatype Error = BucketOutOfRange(round: nat, bucket: nat) | ZeroBuckets

  datatype Result<R> = Success(value: R) | Failure(error: Error) {
    predicate IsFailure() {
      Failure?
    }

    function PropagateFailure<U>(): Result<U>
      requires Failure?
    {
      Failure(error)
    }

    function Extract(): R
      requires Success?
    {
      value
    }
  }

  /** A generation of `n` empty buckets. */
  function Empty<T>(n: nat): (bs: seq<seq<T>>)
    ensures |bs| == n
    ensures forall b :: 0 <= b < n ==> |bs[b]| == 0
  {
    seq(n, _ => [])
  }

  /** The elements of xs whose digit of the given round is b, in the order of xs. */
  function Filter<T>(c: Codec<T>, xs: seq<T>, round: nat, b: nat): (ys: seq<T>)
    ensures |ys| <= |xs|
    ensures forall y :: y in ys ==> y in xs && c.digit(y, round) == b
    decreases |xs|
  {
    if |xs| == 0 then []
    else
      var x := xs[|xs| - 1];
      Filter(c, xs[..|xs| - 1], round, b) + (if c.digit(x, round) == b then [x] else [])
  }

  /**
    `helper_bucket`: pushes the elements of xs, in order, onto the bucket their
    digit of this round names, failing at the first digit out of range.
   */
  function Distribute<T>(c: Codec<T>, buckets: seq<seq<T>>, xs: seq<T>, round: nat): (r: Result<seq<seq<T>>>)
    requires |buckets| == c.nbuckets
    ensures r.Success? <==> forall i :: 0 <= i < |xs| ==> c.digit(xs[i], round) < c.nbuckets
    ensures r.Success? ==> |r.value| == c.nbuckets
    ensures r.Failure? ==> r.error.BucketOutOfRange? && r.error.round == round && r.error.bucket >= c.nbuckets
    decreases |xs|
  {
    if |xs| == 0 then Success(buckets)
    else
      var init := xs[..|xs| - 1];
      var x := xs[|xs| - 1];
      assert forall j :: 0 <= j < |init| ==> xs[j] == init[j];
      var acc :- Distribute(c, buckets, init, round);
      var b := c.digit(x, round);
      if b < c.nbuckets then Success(acc[b := acc[b] + [x]])
      else Failure(BucketOutOfRange(round, b))
  }

  /**
    Each bucket receives exactly the elements of its digit, in their order
    in xs, after what it held before: every pass is stable.
   */
  lemma {:induction false} DistributeStable<T>(c: Codec<T>, buckets: seq<seq<T>>, xs: seq<T>, round: nat)
    requires |buckets| == c.nbuckets
    requires Distribute(c, buckets, xs, round).Success?
    ensures forall b :: 0 <= b < c.nbuckets ==>
      Distribute(c, buckets, xs, round).value[b] == buckets[b] + Filter(c, xs, round, b)
    decreases |xs|
  {
    if |xs| > 0 {
      var init := xs[..|xs| - 1];
      var x := xs[|xs| - 1];
      DistributeStable(c, buckets, init, round);
    }
  }

  /** A failure reports the digit of the first element whose digit is out of range. */
  lemma {:induction false} DistributeFirstFailure<T>(c: Codec<T>, buckets: seq<seq<T>>, xs: seq<T>, round: nat)
    requires |buckets| == c.nbuckets
    requires Distribute(c, buckets, xs, round).Failure?
    ensures exists i :: 0 <= i < |xs| && c.digit(xs[i], round) == Distribute(c, buckets, xs, round).error.bucket &&
                        forall j :: 0 <= j < i ==> c.digit(xs[j], round) < c.nbuckets
    decreases |xs|
  {
    var init := xs[..|xs| - 1];
    assert forall j :: 0 <= j < |init| ==> xs[j] == init[j];
    if Distribute(c, buckets, init, round).Failure? {
      DistributeFirstFailure(c, buckets, init, round);
    } else {
      assert c.digit(xs[|xs| - 1], round) == Distribute(c, buckets, xs, round).error.bucket;
    }
  }

  /** `iter().rev()`: the elements back to front. */
  function Reverse<T>(s: seq<T>): (r: seq<T>)
    ensures |r| == |s|
    ensures forall i :: 0 <= i < |s| ==> r[i] == s[|s| - 1 - i]
    decreases |s|
  {
    if |s| == 0 then [] else [s[|s| - 1]] + Reverse(s[..|s| - 1])
  }

  /** Bucket i of a generation as it is walked after `round`: back to front iff `reverse(round, i)`. */
  function Orient<T>(c: Codec<T>, bucket: seq<T>, round: nat, i: nat): seq<T> {
    if c.reverse(round, i) then Reverse(bucket) else bucket
  }

  /** The buckets concatenated in index order. */
  function Flatten<T>(bs: seq<seq<T>>): seq<T>
    decreases |bs|
  {
    if |bs| == 0 then [] else Flatten(bs[..|bs| - 1]) + bs[|bs| - 1]
  }

  /** The buckets walked in index order, each oriented by the reversal flags of `round`. */
  function Gather<T>(c: Codec<T>, bs: seq<seq<T>>, round: nat): seq<T>
    decreases |bs|
  {
    if |bs| == 0 then []
    else Gather(c, bs[..|bs| - 1], round) + Orient(c, bs[|bs| - 1], round, |bs| - 1)
  }

  /**
    One later round (`round >= 1`): the buckets of the previous generation
    are visited in index order, the first `|prev|` of them here, and each is
    distributed into a freshly cleared generation.
   */
  function Pass<T>(c: Codec<T>, prev: seq<seq<T>>, round: nat): (r: Result<seq<seq<T>>>)
    requires round >= 1
    ensures r.Success? ==> |r.value| == c.nbuckets
    decreases |prev|
  {
    if |prev| == 0 then Success(Empty(c.nbuckets))
    else
      var i := |prev| - 1;
      var acc :- Pass(c, prev[..i], round);
      Distribute(c, acc, Orient(c, prev[i], round - 1, i), round)
  }

  /** Rounds `round` .. nrounds-1, each a `Pass` over the generation left by the round before. */
  function RunRounds<T>(c: Codec<T>, a: seq<seq<T>>, round: nat): (r: Result<seq<seq<T>>>)
    requires round >= 1 && |a| == c.nbuckets
    ensures r.Success? ==> |r.value| == c.nbuckets
    decreases c.nrounds - round
  {
    if round >= c.nrounds then Success(a)
    else
      var next :- Pass(c, a, round);
      RunRounds(c, next, round + 1)
  }

  /**
    `rdxsort` as a function of the input: no rounds leaves it unchanged;
    no buckets fails in the capacity estimate; otherwise round 0 distributes
    it, the later rounds redistribute, and the final generation is gathered
    with the flags of round nrounds-1.
   */
  function RdxSort<T>(c: Codec<T>, s: seq<T>): Result<seq<T>> {
    if c.nrounds == 0 then Success(s)
    else if c.nbuckets == 0 then Failure(ZeroBuckets)
    else
      var first :- Distribute(c, Empty(c.nbuckets), s, 0);
      var last :- RunRounds(c, first, 1);
      Success(Gather(c, last, c.nrounds - 1))
  }

  /**
    The write-back loop: the final generation is copied into the slice
    bucket by bucket, bucket i back to front iff `reverse(nrounds - 1, i)`.
    The source's two internal checks (a bucket never runs past the end of the
    slice; the write position ends exactly at its length) are proved here.
   */
  method WriteBack<T>(c: Codec<T>, buckets: seq<seq<T>>, slice: seq<T>) returns (out: seq<T>)
    requires c.nrounds >= 1
    requires |Gather(c, buckets, c.nrounds - 1)| == |slice|
    ensures out == Gather(c, buckets, c.nrounds - 1)
  {
    var round := c.nrounds - 1;
    var n := |slice|;
    var arr := new T[n](k requires 0 <= k < n => slice[k]);
    var pos := 0;
    for i := 0 to |buckets|
      invariant pos == |Gather(c, buckets[..i], round)| <= n
      invariant arr[..pos] == Gather(c, buckets[..i], round)
    {
      var bucket := Orient(c, buckets[i], round, i);
      GatherStep(c, buckets, round, i);
      CopyInto(arr, pos, bucket);
      pos := pos + |bucket|;
    }
    assert buckets[..|buckets|] == buckets;
    assert pos == n;
    out := arr[..];
  }

  /** Writes src into arr from position pos on, one element after the other; the cells before pos keep their values. */
  method CopyInto<T>(arr: array<T>, pos: nat, src: seq<T>)
    requires pos + |src| <= arr.Length
    modifies arr
    ensures arr[..pos + |src|] == old(arr[..pos]) + src
  {
    ghost var prefix := arr[..pos];
    for j := 0 to |src|
      invariant arr[..pos + j] == prefix + src[..j]
    {
      arr[pos + j] := src[j];
      assert src[..j + 1] == src[..j] + [src[j]];
    }
    assert src[..|src|] == src;
  }

  /** Gathering one more bucket appends that bucket, oriented, and stays within the whole. */
  lemma GatherStep<T>(c: Codec<T>, bs: seq<seq<T>>, round: nat, i: nat)
    requires i < |bs|
    ensures Gather(c, bs[..i + 1], round) == Gather(c, bs[..i], round) + Orient(c, bs[i], round, i)
    ensures |Gather(c, bs[..i + 1], round)| <= |Gather(c, bs, round)|
  {
    assert bs[..i + 1][..i] == bs[..i];
    GatherPrefixLength(c, bs, round, i + 1);
  }

  /** A prefix of the buckets gathers into no more elements than all of them. */
  lemma {:induction false} GatherPrefixLength<T>(c: Codec<T>, bs: seq<seq<T>>, round: nat, i: nat)
    requires i <= |bs|
    ensures |Gather(c, bs[..i], round)| <= |Gather(c, bs, round)|
    decreases |bs|
  {
    if i < |bs| {
      assert bs[..|bs| - 1][..i] == bs[..i];
      GatherPrefixLength(c, bs[..|bs| - 1], round, i);
    } else {
      assert bs[..i] == bs;
    }
  }
}
