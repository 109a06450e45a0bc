/**
  Fixed-size arrays `[T; n]`: element n-1 takes the lowest T::cfg_nrounds()
  rounds, element 0 the highest, so arrays are ordered lexicographically from
  element 0.  An array of length n is a sequence of length n.
 */
module Array {
  import opened Codec
  import opened Arith

  /** `impl Rdx for [T; n]`: T's bucket count, n times T's round count. */
  function ArrayCodec<T>(c: Codec<T>, n: nat): Codec<seq<T>> {
    Codec(
      c.nbuckets,
      c.nrounds * n,
      (a: seq<T>, r: nat) => ArrayDigit(c, n, a, r),
      (r: nat, b: nat) => ArrayReverse(c, r, b))
  }

  /**
    `self[n - i - 1].get_bucket(j)` with `i = round / k`, `j = round % k`.
    The guard covers calls the sort never makes (a round beyond the schedule,
    a sequence of another length, or k = 0, where the source would divide by zero).
   */
  function ArrayDigit<T>(c: Codec<T>, n: nat, a: seq<T>, r: nat): nat {
    var k := c.nrounds;
    if |a| == n && k > 0 && r < k * n then
      ElementDigit(c, a, r / k, r % k)
    else 0
  }

  function ElementDigit<T>(c: Codec<T>, a: seq<T>, i: nat, j: nat): nat {
    if i < |a| then c.digit(a[|a| - 1 - i], j) else 0
  }

  /** `T::reverse(round % k, bucket)`; never asked when k = 0. */
  function ArrayReverse<T>(c: Codec<T>, r: nat, b: nat): bool {
    c.nrounds > 0 && c.reverse(r % c.nrounds, b)
  }

  /** Lexicographic comparison of two equally long sequences, element 0 first. */
  function LexCmp<T>(c: Codec<T>, a: seq<T>, b: seq<T>): Ordering
    requires |a| == |b|
    decreases |a|
  {
    if |a| == 0 then Equal
    else KeyCmp(c, a[0], b[0]).Then(LexCmp(c, a[1..], b[1..]))
  }

  /** Round `k * i + j` of an array reads round j of element n-1-i and has T's flags of round j. */
  lemma ArrayDigitAt<T>(c: Codec<T>, n: nat, a: seq<T>, i: nat, j: nat, b: nat)
    requires |a| == n && i < n && j < c.nrounds
    ensures ArrayCodec(c, n).digit(a, c.nrounds * i + j) == c.digit(a[n - 1 - i], j)
    ensures ArrayCodec(c, n).reverse(c.nrounds * i + j, b) == c.reverse(j, b)
  {
    var k := c.nrounds;
    ModUnique(k * i + j, k, i, j);
    MulLe(i + 1, n, k);
    assert k * i + j < k * n;
  }

  /**
    Arrays keep T's bucket count, take n times T's rounds, are valid when T's
    codec is, and reverse bucket b of round r exactly when T reverses bucket b
    of round r mod k.
   */
  lemma ArrayShape<T(!new)>(c: Codec<T>, n: nat)
    ensures ArrayCodec(c, n).nbuckets == c.nbuckets
    ensures ArrayCodec(c, n).nrounds == c.nrounds * n
    ensures Valid(c) ==> Valid(ArrayCodec(c, n))
    ensures ReverseFree(c) ==> ReverseFree(ArrayCodec(c, n))
    ensures c.nrounds > 0 ==> forall r: nat, b: nat :: ArrayCodec(c, n).reverse(r, b) == c.reverse(r % c.nrounds, b)
  {
    var ac := ArrayCodec(c, n);
    if Valid(c) {
      forall a: seq<T>, r: nat | r < ac.nrounds
        ensures ac.digit(a, r) < ac.nbuckets
      {
        ArrayDigitBound(c, n, a, r);
      }
    }
  }

  /** Every array digit of a scheduled round is a digit of T, or the guard's 0. */
  lemma ArrayDigitBound<T(!new)>(c: Codec<T>, n: nat, a: seq<T>, r: nat)
    requires Valid(c) && r < c.nrounds * n
    ensures ArrayDigit(c, n, a, r) < c.nbuckets
  {
    var k := c.nrounds;
    if |a| == n && k > 0 {
      var i, j := r / k, r % k;
      assert r == k * i + j;
      if i >= n {
        MulLe(n, i, k);
      }
      assert ArrayDigit(c, n, a, r) == c.digit(a[|a| - 1 - i], j);
    }
  }

  /** Rounds k*i .. k*i+k-1 of an array are the rounds of element n-1-i. */
  lemma ElementRounds<T>(c: Codec<T>, n: nat, a: seq<T>, i: nat, x: T)
    requires |a| == n && i < n && x == a[n - 1 - i]
    ensures ShiftedDigits(ArrayCodec(c, n), c, a, x, c.nrounds * i, c.nrounds)
  {
    forall r | 0 <= r < c.nrounds
      ensures ArrayCodec(c, n).digit(a, c.nrounds * i + r) == c.digit(x, r)
    {
      ArrayDigitAt(c, n, a, i, r, 0);
    }
  }

  /** Comparing the lowest k*j rounds of two arrays compares their last j elements lexicographically. */
  lemma {:induction false} ArraySuffixOrder<T>(c: Codec<T>, n: nat, a: seq<T>, b: seq<T>, j: nat)
    requires |a| == n && |b| == n && j <= n
    ensures CmpBelow(ArrayCodec(c, n), a, b, c.nrounds * j) == LexCmp(c, a[n - j..], b[n - j..])
    decreases j
  {
    var k := c.nrounds;
    var ac := ArrayCodec(c, n);
    if j > 0 {
      var i := j - 1;
      var x, y := a[n - 1 - i], b[n - 1 - i];
      assert CmpBelow(ac, a, b, k * j) == KeyCmp(c, x, y).Then(CmpBelow(ac, a, b, k * i)) by {
        ElementRounds(c, n, a, i, x);
        ElementRounds(c, n, b, i, y);
        CmpBelowConcat(ac, c, a, b, x, y, k * i, k);
        MulSucc(k, i);
      }
      ArraySuffixOrder(c, n, a, b, i);
      assert LexCmp(c, a[n - j..], b[n - j..]) == KeyCmp(c, x, y).Then(LexCmp(c, a[n - i..], b[n - i..])) by {
        assert a[n - j..][1..] == a[n - i..] && a[n - j..][0] == x;
        assert b[n - j..][1..] == b[n - i..] && b[n - j..][0] == y;
      }
    }
  }

  /** The digit order of `[T; n]` is the lexicographic order of the elements, element 0 first. */
  lemma ArrayOrder<T>(c: Codec<T>, n: nat, a: seq<T>, b: seq<T>)
    requires |a| == n && |b| == n
    ensures KeyCmp(ArrayCodec(c, n), a, b) == LexCmp(c, a, b)
  {
    ArraySuffixOrder(c, n, a, b, n);
    assert a[0..] == a && b[0..] == b;
  }
}
