/**
  The digit contract shared by the sort engine and the trie.

  A codec for a type T fixes a number of buckets, a number of rounds, the
  digit of a value at each round (round 0 is the least significant one) and
  a per-(round, bucket) reversal flag.  The older `RdxSortTemplate` trait and
  the newer `Rdx` trait state the same four operations; both are modelled by
  the record below.
 */
module Codec {

  /** Three-way comparison. */
  datatype Ordering = Less | Equal | Greater {

    /** The comparison with its arguments swapped. */
    function Flip(): Ordering {
      match this
      case Less => Greater
      case Equal => Equal
      case Greater => Less
    }

    /** Lexicographic combination: `this` decides unless it is Equal. */
    function Then(next: Ordering): Ordering {
      if this == Equal then next else this
    }
  }

  /** Numeric comparison of two integers. */
  function IntCmp(x: int, y: int): Ordering {
    if x < y then Less else if x > y then Greater else Equal
  }

  /** The digit codec of a type: `cfg_nbuckets`, `cfg_nrounds`, `get_bucket`, `reverse`. */
  datatype Codec<!T> = Codec(
    nbuckets: nat,
    nrounds: nat,
    digit: (T, nat) -> nat,
    reverse: (nat, nat) -> bool)

  /**
    The codec keeps its promise: every digit of every scheduled round is a
    valid bucket, and a codec with rounds has at least one bucket.
   */
  ghost predicate Valid<T(!new)>(c: Codec<T>) {
    && (c.nrounds > 0 ==> c.nbuckets > 0)
    && forall x, r :: 0 <= r < c.nrounds ==> c.digit(x, r) < c.nbuckets
  }

  /** No bucket of any round ever asks for back-to-front traversal. */
  ghost predicate ReverseFree<T>(c: Codec<T>) {
    forall r, b :: !c.reverse(r, b)
  }

  /** x and y have the same digits at every round below k. */
  ghost predicate AgreeBelow<T>(c: Codec<T>, x: T, y: T, k: nat) {
    forall r :: 0 <= r < k ==> c.digit(x, r) == c.digit(y, r)
  }

  /**
    Compares x and y by their digits of rounds k-1 down to 0, the highest
    round being the most significant one.
   */
  function CmpBelow<T>(c: Codec<T>, x: T, y: T, k: nat): Ordering
    decreases k
  {
    if k == 0 then Equal
    else
      var dx := c.digit(x, k - 1);
      var dy := c.digit(y, k - 1);
      if dx < dy then Less
      else if dx > dy then Greater
      else CmpBelow(c, x, y, k - 1)
  }

  /** The order a reverse-free codec induces: all scheduled rounds, top round first. */
  function KeyCmp<T>(c: Codec<T>, x: T, y: T): Ordering {
    CmpBelow(c, x, y, c.nrounds)
  }

  /** Swapping the arguments flips the comparison. */
  lemma {:induction false} CmpBelowFlip<T>(c: Codec<T>, x: T, y: T, k: nat)
    ensures CmpBelow(c, y, x, k) == CmpBelow(c, x, y, k).Flip()
    decreases k
  {
    if k > 0 {
      CmpBelowFlip(c, x, y, k - 1);
    }
  }

  /** Two values compare Equal exactly when all their digits below k agree. */
  lemma {:induction false} CmpBelowEqual<T>(c: Codec<T>, x: T, y: T, k: nat)
    ensures CmpBelow(c, x, y, k) == Equal <==> AgreeBelow(c, x, y, k)
    decreases k
  {
    if k > 0 {
      CmpBelowEqual(c, x, y, k - 1);
      if c.digit(x, k - 1) == c.digit(y, k - 1) && AgreeBelow(c, x, y, k - 1) {
        forall r | 0 <= r < k
          ensures c.digit(x, r) == c.digit(y, r)
        {
          if r < k - 1 {
            assert c.digit(x, r) == c.digit(y, r);
          }
        }
      }
    }
  }

  /** The comparison is transitive: it is a total preorder on T. */
  lemma {:induction false} CmpBelowTrans<T>(c: Codec<T>, x: T, y: T, z: T, k: nat)
    requires CmpBelow(c, x, y, k) != Greater
    requires CmpBelow(c, y, z, k) != Greater
    ensures CmpBelow(c, x, z, k) != Greater
    decreases k
  {
    if k > 0 && c.digit(x, k - 1) == c.digit(z, k - 1) {
      CmpBelowTrans(c, x, y, z, k - 1);
    }
  }

  /** Rounds [lo, hi) on which x and y agree do not influence the comparison. */
  lemma {:induction false} CmpBelowSkip<T>(c: Codec<T>, x: T, y: T, lo: nat, hi: nat)
    requires lo <= hi
    requires forall r :: lo <= r < hi ==> c.digit(x, r) == c.digit(y, r)
    ensures CmpBelow(c, x, y, hi) == CmpBelow(c, x, y, lo)
    decreases hi
  {
    if lo < hi {
      assert c.digit(x, hi - 1) == c.digit(y, hi - 1);
      CmpBelowSkip(c, x, y, lo, hi - 1);
    }
  }

  /** The comparison only depends on the digits: two codecs reading equal digits compare equally. */
  lemma {:induction false} CmpBelowDigits<T, U>(c: Codec<T>, d: Codec<U>, x: T, y: T, u: U, v: U, k: nat)
    requires forall r :: 0 <= r < k ==> c.digit(x, r) == d.digit(u, r)
    requires forall r :: 0 <= r < k ==> c.digit(y, r) == d.digit(v, r)
    ensures CmpBelow(c, x, y, k) == CmpBelow(d, u, v, k)
    decreases k
  {
    if k > 0 {
      assert c.digit(x, k - 1) == d.digit(u, k - 1);
      assert c.digit(y, k - 1) == d.digit(v, k - 1);
      CmpBelowDigits(c, d, x, y, u, v, k - 1);
    }
  }

  /** Rounds k .. k+m-1 of x under c are the rounds 0 .. m-1 of u under d. */
  ghost predicate ShiftedDigits<T, U>(c: Codec<T>, d: Codec<U>, x: T, u: U, k: nat, m: nat) {
    forall r :: 0 <= r < m ==> c.digit(x, k + r) == d.digit(u, r)
  }

  /**
    The comparison of k + m rounds is the comparison of the top m rounds,
    then of the lower k rounds.  `top(x)` reads x's digits of rounds k..k+m-1
    through some codec d.
   */
  lemma {:induction false} CmpBelowConcat<T, U>(c: Codec<T>, d: Codec<U>, x: T, y: T, u: U, v: U, k: nat, m: nat)
    requires ShiftedDigits(c, d, x, u, k, m) && ShiftedDigits(c, d, y, v, k, m)
    ensures CmpBelow(c, x, y, k + m) == CmpBelow(d, u, v, m).Then(CmpBelow(c, x, y, k))
    decreases m
  {
    if m > 0 {
      assert c.digit(x, k + m - 1) == d.digit(u, m - 1);
      assert c.digit(y, k + m - 1) == d.digit(v, m - 1);
      CmpBelowConcat(c, d, x, y, u, v, k, m - 1);
    }
  }

  /**
    The alias macro (`rdxsort_template_alias!`, `rdx_alias!`): t1 borrows the
    codec of t2 by converting each value with `as`.
   */
  function Alias<T, U>(c: Codec<U>, conv: T -> U): Codec<T> {
    Codec(c.nbuckets, c.nrounds, (x: T, r: nat) => c.digit(conv(x), r), c.reverse)
  }

  /** An alias has t2's bucket count, round count and flags, its order is t2's order on the converted values, and it is valid when t2's codec is. */
  lemma AliasFacts<T(!new), U(!new)>(c: Codec<U>, conv: T -> U, x: T, y: T)
    ensures Alias(c, conv).nbuckets == c.nbuckets && Alias(c, conv).nrounds == c.nrounds
    ensures forall r, b :: Alias(c, conv).reverse(r, b) == c.reverse(r, b)
    ensures Valid(c) ==> Valid(Alias(c, conv))
    ensures ReverseFree(c) ==> ReverseFree(Alias(c, conv))
    ensures KeyCmp(Alias(c, conv), x, y) == KeyCmp(c, conv(x), conv(y))
  {
    CmpBelowDigits(Alias(c, conv), c, x, y, conv(x), conv(y), c.nrounds);
  }
}
