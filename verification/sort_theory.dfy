/**
  What the sort engine guarantees: the result is a permutation of the input,
  it exists exactly when every scheduled digit is a valid bucket (and the
  error names the first failing round), and for a codec that never reverses
  it is sorted by the digit key.  The key step is that one pass is stable.
 */
module SortTheory {
  import opened Codec
  import opened RadixSort

  /** xs is ordered by the digits of rounds k-1 down to 0. */
  ghost predicate SortedBelow<T>(c: Codec<T>, xs: seq<T>, k: nat) {
    forall i, j :: 0 <= i < j < |xs| ==> CmpBelow(c, xs[i], xs[j], k) != Greater
  }

  /** xs is ordered by the full digit key. */
  ghost predicate Sorted<T>(c: Codec<T>, xs: seq<T>) {
    SortedBelow(c, xs, c.nrounds)
  }

  /** Every scheduled digit of every element of xs is a valid bucket. */
  ghost predicate DigitsInRange<T>(c: Codec<T>, xs: multiset<T>, lo: nat) {
    forall x, r :: x in xs && lo <= r < c.nrounds ==> c.digit(x, r) < c.nbuckets
  }

  // ---------------------------------------------------------------- buckets

  lemma {:induction false} FlattenEmpty<T>(n: nat)
    ensures Flatten(Empty<T>(n)) == []
    decreases n
  {
    if n > 0 {
      assert Empty<T>(n)[..n - 1] == Empty<T>(n - 1);
      FlattenEmpty<T>(n - 1);
    }
  }

  /** Appending x to one bucket adds x to the multiset of all of them. */
  lemma {:induction false} FlattenUpdate<T>(bs: seq<seq<T>>, b: nat, x: T)
    requires b < |bs|
    ensures multiset(Flatten(bs[b := bs[b] + [x]])) == multiset(Flatten(bs)) + multiset{x}
    decreases |bs|
  {
    var n := |bs|;
    var bs' := bs[b := bs[b] + [x]];
    assert bs'[..n - 1] == if b == n - 1 then bs[..n - 1] else bs[..n - 1][b := bs[b] + [x]];
    if b < n - 1 {
      FlattenUpdate(bs[..n - 1], b, x);
    }
  }

  lemma {:induction false} ReverseMultiset<T>(s: seq<T>)
    ensures multiset(Reverse(s)) == multiset(s)
    decreases |s|
  {
    if |s| > 0 {
      ReverseMultiset(s[..|s| - 1]);
      assert s == s[..|s| - 1] + [s[|s| - 1]];
    }
  }

  /** Gathering keeps the elements of the buckets; without reversal it is plain concatenation. */
  lemma {:induction false} GatherFacts<T>(c: Codec<T>, bs: seq<seq<T>>, round: nat)
    ensures multiset(Gather(c, bs, round)) == multiset(Flatten(bs))
    ensures ReverseFree(c) ==> Gather(c, bs, round) == Flatten(bs)
    decreases |bs|
  {
    if |bs| > 0 {
      GatherFacts(c, bs[..|bs| - 1], round);
      ReverseMultiset(bs[|bs| - 1]);
      if ReverseFree(c) {
        assert !c.reverse(round, |bs| - 1);
      }
    }
  }

  // ---------------------------------------------------------------- one pass

  /** Distributing xs and then ys is distributing xs + ys. */
  lemma {:induction false} DistributeConcat<T>(c: Codec<T>, bs: seq<seq<T>>, xs: seq<T>, ys: seq<T>, round: nat)
    requires |bs| == c.nbuckets
    ensures Distribute(c, bs, xs + ys, round)
         == match Distribute(c, bs, xs, round)
            case Failure(e) => Failure(e)
            case Success(m) => Distribute(c, m, ys, round)
    decreases |ys|
  {
    if |ys| == 0 {
      assert xs + ys == xs;
    } else {
      var zs := xs + ys;
      assert zs[..|zs| - 1] == xs + ys[..|ys| - 1];
      assert zs[|zs| - 1] == ys[|ys| - 1];
      DistributeConcat(c, bs, xs, ys[..|ys| - 1], round);
    }
  }

  /** A pass is a distribution of the previous generation walked in index order, with its flags. */
  lemma {:induction false} PassGather<T>(c: Codec<T>, prev: seq<seq<T>>, round: nat)
    requires round >= 1
    ensures Pass(c, prev, round) == Distribute(c, Empty(c.nbuckets), Gather(c, prev, round - 1), round)
    decreases |prev|
  {
    if |prev| > 0 {
      var i := |prev| - 1;
      PassGather(c, prev[..i], round);
      DistributeConcat(c, Empty(c.nbuckets), Gather(c, prev[..i], round - 1), Orient(c, prev[i], round - 1, i), round);
    }
  }

  /** A successful distribution adds exactly the elements of xs to the buckets. */
  lemma {:induction false} DistributeMultiset<T>(c: Codec<T>, bs: seq<seq<T>>, xs: seq<T>, round: nat)
    requires |bs| == c.nbuckets
    requires Distribute(c, bs, xs, round).Success?
    ensures multiset(Flatten(Distribute(c, bs, xs, round).value)) == multiset(Flatten(bs)) + multiset(xs)
    decreases |xs|
  {
    if |xs| > 0 {
      var init := xs[..|xs| - 1];
      var x := xs[|xs| - 1];
      DistributeMultiset(c, bs, init, round);
      var acc := Distribute(c, bs, init, round).value;
      FlattenUpdate(acc, c.digit(x, round), x);
      assert xs == init + [x];
    }
  }

  /**
    One later pass succeeds exactly when every element's digit of its round
    is a valid bucket, keeps the elements, and on failure names such a digit.
   */
  lemma PassFacts<T>(c: Codec<T>, a: seq<seq<T>>, round: nat)
    requires round >= 1
    ensures var p := Pass(c, a, round);
      && (p.Success? <==> forall x :: x in multiset(Flatten(a)) ==> c.digit(x, round) < c.nbuckets)
      && (p.Success? ==> multiset(Flatten(p.value)) == multiset(Flatten(a)))
      && (p.Failure? ==> p.error.BucketOutOfRange? && p.error.round == round && p.error.bucket >= c.nbuckets)
      && (p.Failure? ==> p.error.BucketOutOfRange? && exists x :: x in multiset(Flatten(a)) && c.digit(x, round) == p.error.bucket)
  {
    var m := multiset(Flatten(a));
    var g := Gather(c, a, round - 1);
    PassGather(c, a, round);
    GatherFacts(c, a, round - 1);
    var p := Distribute(c, Empty(c.nbuckets), g, round);
    if p.Success? {
      FlattenEmpty<T>(c.nbuckets);
      DistributeMultiset(c, Empty(c.nbuckets), g, round);
      forall x | x in m
        ensures c.digit(x, round) < c.nbuckets
      {
        var i :| 0 <= i < |g| && g[i] == x;
      }
    } else {
      DistributeFirstFailure(c, Empty(c.nbuckets), g, round);
      var i :| 0 <= i < |g| && c.digit(g[i], round) == p.error.bucket;
      assert g[i] in m;
    }
  }

  // ---------------------------------------------------------------- all rounds

  /**
    What rounds `round` .. nrounds-1 promise about their result r on the
    elements m: success exactly when every element's digits of those rounds
    are valid buckets, the same elements on success, and on failure the
    first round at which some element's digit is out of range, with that digit.
   */
  ghost predicate RoundsOutcome<T>(c: Codec<T>, m: multiset<T>, round: nat, r: Result<seq<seq<T>>>) {
    && (r.Success? <==> DigitsInRange(c, m, round))
    && (r.Success? ==> multiset(Flatten(r.value)) == m)
    && (r.Failure? ==> r.error.BucketOutOfRange?)
    && (r.Failure? ==> round <= r.error.round < c.nrounds && r.error.bucket >= c.nbuckets)
    && (r.Failure? ==> exists x :: x in m && c.digit(x, r.error.round) == r.error.bucket)
    && (r.Failure? ==> forall x, k: nat :: x in m && round <= k < r.error.round ==> c.digit(x, k) < c.nbuckets)
  }

  /** Rounds `round` .. nrounds-1 keep the promise of `RoundsOutcome`. */
  lemma {:induction false} RunRoundsFacts<T>(c: Codec<T>, a: seq<seq<T>>, round: nat)
    requires round >= 1 && |a| == c.nbuckets
    ensures RoundsOutcome(c, multiset(Flatten(a)), round, RunRounds(c, a, round))
    decreases c.nrounds - round
  {
    var m := multiset(Flatten(a));
    if round < c.nrounds {
      PassFacts(c, a, round);
      var p := Pass(c, a, round);
      if p.Success? {
        RunRoundsFacts(c, p.value, round + 1);
        RoundsSucceedStep(c, m, round, RunRounds(c, p.value, round + 1));
      } else {
        RoundsFailStep(c, m, round, p.error);
      }
    }
  }

  /** A round whose digits are all valid passes the promise of the rounds above it down to it. */
  lemma RoundsSucceedStep<T>(c: Codec<T>, m: multiset<T>, round: nat, r: Result<seq<seq<T>>>)
    requires round < c.nrounds
    requires forall x :: x in m ==> c.digit(x, round) < c.nbuckets
    requires RoundsOutcome(c, m, round + 1, r)
    ensures RoundsOutcome(c, m, round, r)
  {
    if r.Failure? {
      forall x, k: nat | x in m && round <= k < r.error.round
        ensures c.digit(x, k) < c.nbuckets
      {
        if k > round {
          assert round + 1 <= k < r.error.round;
        }
      }
    }
  }

  /** A round with an out-of-range digit is the first failing round. */
  lemma RoundsFailStep<T>(c: Codec<T>, m: multiset<T>, round: nat, e: Error)
    requires round < c.nrounds && e.BucketOutOfRange? && e.round == round && e.bucket >= c.nbuckets
    requires exists x :: x in m && c.digit(x, round) == e.bucket
    ensures RoundsOutcome(c, m, round, Failure(e))
  {
  }

  /** Round 0 distributes the input: the same facts as for a later pass, on the input itself. */
  lemma FirstRoundFacts<T>(c: Codec<T>, s: seq<T>)
    ensures var d := Distribute(c, Empty(c.nbuckets), s, 0);
      && (d.Success? <==> forall x :: x in s ==> c.digit(x, 0) < c.nbuckets)
      && (d.Success? ==> multiset(Flatten(d.value)) == multiset(s))
      && (d.Failure? ==> exists x :: x in s && c.digit(x, 0) == d.error.bucket)
  {
    var d := Distribute(c, Empty(c.nbuckets), s, 0);
    if d.Success? {
      FlattenEmpty<T>(c.nbuckets);
      DistributeMultiset(c, Empty(c.nbuckets), s, 0);
      forall x | x in s
        ensures c.digit(x, 0) < c.nbuckets
      {
        var i :| 0 <= i < |s| && s[i] == x;
      }
    } else {
      DistributeFirstFailure(c, Empty(c.nbuckets), s, 0);
      var i :| 0 <= i < |s| && c.digit(s[i], 0) == d.error.bucket;
      assert s[i] in s;
    }
  }

  /**
    The sort succeeds exactly when there is a bucket whenever there is a
    round and every digit of every element at every scheduled round is a
    valid bucket; the result is a permutation of the input; a failure is the
    zero-bucket division exactly when there are rounds but no buckets, and
    otherwise reports the first round with an out-of-range digit and that
    digit.
   */
  lemma RdxSortFacts<T>(c: Codec<T>, s: seq<T>)
    ensures RdxSort(c, s).Success? <==> (c.nrounds > 0 ==> c.nbuckets > 0) && DigitsInRange(c, multiset(s), 0)
    ensures RdxSort(c, s).Success? ==> multiset(RdxSort(c, s).value) == multiset(s)
    ensures RdxSort(c, s).Failure? ==> (RdxSort(c, s).error.ZeroBuckets? <==> c.nrounds > 0 && c.nbuckets == 0)
    ensures RdxSort(c, s).Failure? && RdxSort(c, s).error.BucketOutOfRange? ==>
      var e := RdxSort(c, s).error;
      && e.round < c.nrounds && e.bucket >= c.nbuckets
      && (exists x :: x in s && c.digit(x, e.round) == e.bucket)
      && forall x, k: nat :: x in s && k < e.round ==> c.digit(x, k) < c.nbuckets
  {
    if c.nrounds > 0 && c.nbuckets > 0 {
      var d := Distribute(c, Empty(c.nbuckets), s, 0);
      if d.Success? {
        var r := RunRounds(c, d.value, 1);
        assert RdxSort(c, s) == if r.Success? then Success(Gather(c, r.value, c.nrounds - 1)) else Failure(r.error);
        LaterRounds(c, s, d.value, r, RdxSort(c, s));
        assert SortOutcome(c, s, RdxSort(c, s));
      } else {
        FirstRoundFacts(c, s);
      }
    }
  }

  /**
    What the sort promises about its result on s when the codec has buckets
    for its rounds: success exactly when all digits are valid buckets, a
    permutation of s on success, and on failure the first round with an
    out-of-range digit, with that digit.
   */
  ghost predicate SortOutcome<T>(c: Codec<T>, s: seq<T>, out: Result<seq<T>>) {
    && (out.Success? <==> DigitsInRange(c, multiset(s), 0))
    && (out.Success? ==> multiset(out.value) == multiset(s))
    && (out.Failure? ==>
      && out.error.BucketOutOfRange?
      && out.error.round < c.nrounds && out.error.bucket >= c.nbuckets
      && (exists x :: x in s && c.digit(x, out.error.round) == out.error.bucket)
      && forall x, k: nat :: x in s && k < out.error.round ==> c.digit(x, k) < c.nbuckets)
  }

  /** The sort's outcome when round 0 succeeds: that of the later rounds. */
  lemma LaterRounds<T>(c: Codec<T>, s: seq<T>, first: seq<seq<T>>, r: Result<seq<seq<T>>>, out: Result<seq<T>>)
    requires c.nrounds > 0 && c.nbuckets > 0
    requires Distribute(c, Empty(c.nbuckets), s, 0) == Success(first)
    requires r == RunRounds(c, first, 1)
    requires out == if r.Success? then Success(Gather(c, r.value, c.nrounds - 1)) else Failure(r.error)
    ensures SortOutcome(c, s, out)
  {
    FirstRoundKeeps(c, s, first);
    assert RoundsOutcome(c, multiset(s), 1, r) by {
      RunRoundsFacts(c, first, 1);
    }
    assert r.Success? ==> out.Success? && multiset(out.value) == multiset(s) by {
      if r.Success? {
        GatheredOutcome(c, s, r.value, c.nrounds - 1);
      }
    }
    LaterRoundsOutcome(c, s, multiset(s), r, out);
  }

  /** A successful round 0 keeps the elements of s and found all their digits of round 0 valid. */
  lemma FirstRoundKeeps<T>(c: Codec<T>, s: seq<T>, first: seq<seq<T>>)
    requires Distribute(c, Empty(c.nbuckets), s, 0) == Success(first)
    ensures multiset(Flatten(first)) == multiset(s)
    ensures forall x :: x in s ==> c.digit(x, 0) < c.nbuckets
  {
    FirstRoundFacts(c, s);
  }

  /** The final gather holds the elements of the last generation, that is, those of s. */
  lemma GatheredOutcome<T>(c: Codec<T>, s: seq<T>, last: seq<seq<T>>, round: nat)
    requires multiset(Flatten(last)) == multiset(s)
    ensures multiset(Gather(c, last, round)) == multiset(s)
  {
    GatherFacts(c, last, round);
  }

  /** After a successful round 0, the outcome of the later rounds is the outcome of the sort. */
  lemma LaterRoundsOutcome<T>(c: Codec<T>, s: seq<T>, m: multiset<T>, r: Result<seq<seq<T>>>, out: Result<seq<T>>)
    requires c.nrounds > 0
    requires forall x :: x in s ==> c.digit(x, 0) < c.nbuckets
    requires m == multiset(s) && RoundsOutcome(c, m, 1, r)
    requires r.Failure? ==> out == Failure(r.error)
    requires r.Success? ==> out.Success? && multiset(out.value) == multiset(s)
    ensures SortOutcome(c, s, out)
  {
    RoundsSucceedStep(c, multiset(s), 0, r);
  }

  // ---------------------------------------------------------------- ordering

  /** Two sorted runs whose every cross pair is in order concatenate to a sorted run. */
  lemma SortedAppend<T>(c: Codec<T>, xs: seq<T>, ys: seq<T>, k: nat)
    requires SortedBelow(c, xs, k) && SortedBelow(c, ys, k)
    requires forall i, j :: 0 <= i < |xs| && 0 <= j < |ys| ==> CmpBelow(c, xs[i], ys[j], k) != Greater
    ensures SortedBelow(c, xs + ys, k)
  {
    var zs := xs + ys;
    forall i, j | 0 <= i < j < |zs|
      ensures CmpBelow(c, zs[i], zs[j], k) != Greater
    {
      if j < |xs| {
        assert zs[i] == xs[i] && zs[j] == xs[j];
      } else if i >= |xs| {
        assert zs[i] == ys[i - |xs|] && zs[j] == ys[j - |xs|];
      } else {
        assert zs[i] == xs[i] && zs[j] == ys[j - |xs|];
      }
    }
  }

  /** Stability of one pass: the elements of one bucket keep their relative order. */
  lemma {:induction false} FilterSorted<T>(c: Codec<T>, xs: seq<T>, round: nat, b: nat, k: nat)
    requires SortedBelow(c, xs, k)
    ensures SortedBelow(c, Filter(c, xs, round, b), k)
    decreases |xs|
  {
    if |xs| > 0 {
      var n := |xs|;
      var init := xs[..n - 1];
      var x := xs[n - 1];
      assert SortedBelow(c, init, k) by {
        forall i, j | 0 <= i < j < |init|
          ensures CmpBelow(c, init[i], init[j], k) != Greater
        {
          assert init[i] == xs[i] && init[j] == xs[j];
        }
      }
      FilterSorted(c, init, round, b, k);
      var f := Filter(c, init, round, b);
      var tail := if c.digit(x, round) == b then [x] else [];
      forall i, j | 0 <= i < |f| && 0 <= j < |tail|
        ensures CmpBelow(c, f[i], tail[j], k) != Greater
      {
        assert f[i] in init;
        var m :| 0 <= m < |init| && init[m] == f[i];
        assert xs[m] == f[i] && xs[n - 1] == tail[j];
      }
      SortedAppend(c, f, tail, k);
    }
  }

  /** Equal digits at `round` leave the comparison to the rounds below. */
  lemma SameDigitStep<T>(c: Codec<T>, x: T, y: T, round: nat)
    requires c.digit(x, round) == c.digit(y, round)
    ensures CmpBelow(c, x, y, round + 1) == CmpBelow(c, x, y, round)
  {
  }

  /**
    Buckets whose elements all have digit b at `round` in bucket b, each
    sorted by the rounds below, concatenate to a run sorted by `round` as well.
   */
  lemma {:induction false} BucketsSorted<T>(c: Codec<T>, bs: seq<seq<T>>, round: nat)
    requires forall b :: 0 <= b < |bs| ==> SortedBelow(c, bs[b], round)
    requires forall b, y :: 0 <= b < |bs| && y in bs[b] ==> c.digit(y, round) == b
    ensures SortedBelow(c, Flatten(bs), round + 1)
    ensures forall y :: y in Flatten(bs) ==> c.digit(y, round) < |bs|
    decreases |bs|
  {
    if |bs| > 0 {
      var n := |bs|;
      var init := bs[..n - 1];
      var last := bs[n - 1];
      BucketsSorted(c, init, round);
      var f := Flatten(init);
      forall i, j | 0 <= i < j < |last|
        ensures CmpBelow(c, last[i], last[j], round + 1) != Greater
      {
        assert last[i] in bs[n - 1] && last[j] in bs[n - 1];
        SameDigitStep(c, last[i], last[j], round);
      }
      forall i, j | 0 <= i < |f| && 0 <= j < |last|
        ensures CmpBelow(c, f[i], last[j], round + 1) != Greater
      {
        assert f[i] in f && last[j] in bs[n - 1];
      }
      SortedAppend(c, f, last, round + 1);
    }
  }

  /** One pass over a run sorted by the rounds below `round` yields buckets sorted by `round` too. */
  lemma DistributeSorted<T>(c: Codec<T>, xs: seq<T>, round: nat)
    requires Distribute(c, Empty(c.nbuckets), xs, round).Success?
    requires SortedBelow(c, xs, round)
    ensures SortedBelow(c, Flatten(Distribute(c, Empty(c.nbuckets), xs, round).value), round + 1)
  {
    var bs := Distribute(c, Empty(c.nbuckets), xs, round).value;
    DistributeStable(c, Empty(c.nbuckets), xs, round);
    forall b | 0 <= b < |bs|
      ensures SortedBelow(c, bs[b], round)
      ensures forall y :: y in bs[b] ==> c.digit(y, round) == b
    {
      assert bs[b] == Filter(c, xs, round, b);
      FilterSorted(c, xs, round, b, round);
    }
    BucketsSorted(c, bs, round);
  }

  /** Rounds `round` .. nrounds-1 extend the order of the rounds below `round` to the full key. */
  lemma {:induction false} RunRoundsSorted<T>(c: Codec<T>, a: seq<seq<T>>, round: nat, out: seq<seq<T>>)
    requires ReverseFree(c)
    requires 1 <= round <= c.nrounds && |a| == c.nbuckets
    requires SortedBelow(c, Flatten(a), round)
    requires RunRounds(c, a, round) == Success(out)
    ensures SortedBelow(c, Flatten(out), c.nrounds)
    decreases c.nrounds - round
  {
    if round < c.nrounds {
      var p := Pass(c, a, round);
      RunRoundsUnfold(c, a, round, out);
      PassSorted(c, a, round);
      RunRoundsSorted(c, p.value, round + 1, out);
    }
  }

  /** A successful run of rounds from a round below nrounds starts with a successful pass. */
  lemma RunRoundsUnfold<T>(c: Codec<T>, a: seq<seq<T>>, round: nat, out: seq<seq<T>>)
    requires 1 <= round < c.nrounds && |a| == c.nbuckets
    requires RunRounds(c, a, round) == Success(out)
    ensures Pass(c, a, round).Success? && RunRounds(c, Pass(c, a, round).value, round + 1) == Success(out)
  {
  }

  /** Without reversal, a successful pass over buckets sorted below `round` yields buckets sorted below round + 1. */
  lemma PassSorted<T>(c: Codec<T>, a: seq<seq<T>>, round: nat)
    requires ReverseFree(c) && round >= 1
    requires SortedBelow(c, Flatten(a), round)
    requires Pass(c, a, round).Success?
    ensures SortedBelow(c, Flatten(Pass(c, a, round).value), round + 1)
  {
    PassGather(c, a, round);
    GatherFacts(c, a, round - 1);
    DistributeSorted(c, Flatten(a), round);
  }

  /** For a codec that never reverses a bucket, the sorted output is ordered by the digit key. */
  lemma RdxSortSorted<T>(c: Codec<T>, s: seq<T>)
    requires ReverseFree(c)
    requires RdxSort(c, s).Success?
    ensures Sorted(c, RdxSort(c, s).value)
  {
    if c.nrounds > 0 {
      var first := Distribute(c, Empty(c.nbuckets), s, 0).value;
      DistributeSorted(c, s, 0);
      RunRoundsSorted(c, first, 1, RunRounds(c, first, 1).value);
      GatherFacts(c, RunRounds(c, first, 1).value, c.nrounds - 1);
    }
  }
}
