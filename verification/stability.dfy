/**
  Stability of the sort for reverse-free codecs.

  Every pass appends each element to its bucket in input order, so the
  elements that share a digit key leave the sort in the order they came
  in.  A sequence sorted by key is determined by that order within each
  key class; hence sorting a sorted sequence changes nothing.
 */
module Stability {
  import opened Codec
  import opened RadixSort
  import opened SortTheory

  /** The elements of xs whose digits below round k agree with y's, in the order of xs. */
  function KeyClass<T>(c: Codec<T>, xs: seq<T>, y: T, k: nat): (ys: seq<T>)
    ensures |ys| <= |xs|
    decreases |xs|
  {
    if |xs| == 0 then []
    else
      var x := xs[|xs| - 1];
      KeyClass(c, xs[..|xs| - 1], y, k) + (if CmpBelow(c, x, y, k) == Equal then [x] else [])
  }

  /** Every key class below round k of out is the same sequence as in s: out is a stable reordering of s. */
  ghost predicate SameClasses<T(!new)>(c: Codec<T>, out: seq<T>, s: seq<T>, k: nat) {
    forall y :: KeyClass(c, out, y, k) == KeyClass(c, s, y, k)
  }

  // ---------------------------------------------------------------- key classes

  lemma {:induction false} KeyClassConcat<T>(c: Codec<T>, xs: seq<T>, ys: seq<T>, y: T, k: nat)
    ensures KeyClass(c, xs + ys, y, k) == KeyClass(c, xs, y, k) + KeyClass(c, ys, y, k)
    decreases |ys|
  {
    if |ys| == 0 {
      assert xs + ys == xs;
    } else {
      var zs := xs + ys;
      assert zs[..|zs| - 1] == xs + ys[..|ys| - 1];
      KeyClassConcat(c, xs, ys[..|ys| - 1], y, k);
    }
  }

  /** The class of y holds only elements of xs whose key is y's. */
  lemma {:induction false} KeyClassMember<T>(c: Codec<T>, xs: seq<T>, y: T, k: nat, v: T)
    requires v in KeyClass(c, xs, y, k)
    ensures v in xs && CmpBelow(c, v, y, k) == Equal
    decreases |xs|
  {
    var init := xs[..|xs| - 1];
    if v in KeyClass(c, init, y, k) {
      KeyClassMember(c, init, y, k, v);
    }
  }

  /** The last element of a nonempty sequence closes its own class. */
  lemma LastInOwnClass<T>(c: Codec<T>, xs: seq<T>, k: nat)
    requires |xs| > 0
    ensures KeyClass(c, xs, xs[|xs| - 1], k) == KeyClass(c, xs[..|xs| - 1], xs[|xs| - 1], k) + [xs[|xs| - 1]]
  {
    CmpBelowEqual(c, xs[|xs| - 1], xs[|xs| - 1], k);
  }

  /** No element of xs shares y's digit of a round below k: y's class is empty. */
  lemma {:induction false} KeyClassEmpty<T>(c: Codec<T>, xs: seq<T>, y: T, k: nat, round: nat)
    requires round < k
    requires forall i :: 0 <= i < |xs| ==> c.digit(xs[i], round) != c.digit(y, round)
    ensures KeyClass(c, xs, y, k) == []
    decreases |xs|
  {
    if |xs| > 0 {
      var init := xs[..|xs| - 1];
      assert forall i :: 0 <= i < |init| ==> init[i] == xs[i];
      KeyClassEmpty(c, init, y, k, round);
      CmpBelowEqual(c, xs[|xs| - 1], y, k);
    }
  }

  /**
    Keeping the elements with digit b at a round below k keeps y's class
    whole when b is y's digit there, and empties it otherwise.
   */
  lemma {:induction false} KeyClassFilter<T>(c: Codec<T>, xs: seq<T>, y: T, k: nat, round: nat, b: nat)
    requires round < k
    ensures KeyClass(c, Filter(c, xs, round, b), y, k) == if c.digit(y, round) == b then KeyClass(c, xs, y, k) else []
    decreases |xs|
  {
    if |xs| > 0 {
      var init := xs[..|xs| - 1];
      var x := xs[|xs| - 1];
      var tail := if c.digit(x, round) == b then [x] else [];
      KeyClassFilter(c, init, y, k, round, b);
      KeyClassConcat(c, Filter(c, init, round, b), tail, y, k);
      CmpBelowEqual(c, x, y, k);
      assert [x][..0] == [];
    }
  }

  // ---------------------------------------------------------------- one pass

  /** Concatenating buckets 0 .. i-1 of a distribution gives y's class when y's digit is below i, and nothing of it otherwise. */
  lemma {:induction false} FlattenClasses<T>(c: Codec<T>, bs: seq<seq<T>>, xs: seq<T>, y: T, k: nat, round: nat, i: nat)
    requires round < k && i <= |bs|
    requires forall b :: 0 <= b < |bs| ==> bs[b] == Filter(c, xs, round, b)
    ensures KeyClass(c, Flatten(bs[..i]), y, k) == if c.digit(y, round) < i then KeyClass(c, xs, y, k) else []
    decreases i
  {
    if i > 0 {
      FlattenClasses(c, bs, xs, y, k, round, i - 1);
      assert bs[..i][..i - 1] == bs[..i - 1];
      KeyClassConcat(c, Flatten(bs[..i - 1]), bs[i - 1], y, k);
      KeyClassFilter(c, xs, y, k, round, i - 1);
    } else {
      assert bs[..0] == [];
    }
  }

  /** A pass of a round below k, into empty buckets, keeps every class below round k. */
  lemma DistributeClasses<T(!new)>(c: Codec<T>, xs: seq<T>, round: nat, k: nat)
    requires round < k
    requires Distribute(c, Empty(c.nbuckets), xs, round).Success?
    ensures SameClasses(c, Flatten(Distribute(c, Empty(c.nbuckets), xs, round).value), xs, k)
  {
    var bs := Distribute(c, Empty(c.nbuckets), xs, round).value;
    DistributeStable(c, Empty(c.nbuckets), xs, round);
    assert forall b :: 0 <= b < |bs| ==> bs[b] == Filter(c, xs, round, b) by {
      forall b | 0 <= b < |bs|
        ensures bs[b] == Filter(c, xs, round, b)
      {
        assert Empty<T>(c.nbuckets)[b] == [];
      }
    }
    assert bs[..|bs|] == bs;
    forall y
      ensures KeyClass(c, Flatten(bs), y, k) == KeyClass(c, xs, y, k)
    {
      FlattenClasses(c, bs, xs, y, k, round, |bs|);
      if c.digit(y, round) >= |bs| {
        KeyClassEmpty(c, xs, y, k, round);
      }
    }
  }

  /** A later round of a reverse-free codec keeps every class below round k > round. */
  lemma PassClasses<T(!new)>(c: Codec<T>, a: seq<seq<T>>, round: nat, k: nat)
    requires ReverseFree(c) && 1 <= round < k
    requires Pass(c, a, round).Success?
    ensures SameClasses(c, Flatten(Pass(c, a, round).value), Flatten(a), k)
  {
    PassGather(c, a, round);
    GatherFacts(c, a, round - 1);
    DistributeClasses(c, Flatten(a), round, k);
  }

  /** The later rounds of a reverse-free codec keep every class of the full key. */
  lemma {:induction false} RunRoundsClasses<T(!new)>(c: Codec<T>, a: seq<seq<T>>, round: nat, out: seq<seq<T>>)
    requires ReverseFree(c) && 1 <= round && |a| == c.nbuckets
    requires RunRounds(c, a, round) == Success(out)
    ensures SameClasses(c, Flatten(out), Flatten(a), c.nrounds)
    decreases c.nrounds - round
  {
    if round < c.nrounds {
      RunRoundsUnfold(c, a, round, out);
      var next := Pass(c, a, round).value;
      PassClasses(c, a, round, c.nrounds);
      RunRoundsClasses(c, next, round + 1, out);
    }
  }

  /**
    For a reverse-free codec, a successful sort is stable: the elements of
    each key class come out in their input order.
   */
  lemma RdxSortStable<T(!new)>(c: Codec<T>, s: seq<T>)
    requires ReverseFree(c) && RdxSort(c, s).Success?
    ensures SameClasses(c, RdxSort(c, s).value, s, c.nrounds)
  {
    if c.nrounds > 0 {
      var first := Distribute(c, Empty(c.nbuckets), s, 0).value;
      DistributeClasses(c, s, 0, c.nrounds);
      var last := RunRounds(c, first, 1).value;
      RunRoundsClasses(c, first, 1, last);
      GatherFacts(c, last, c.nrounds - 1);
    }
  }

  // ---------------------------------------------------------------- uniqueness

  /** The last elements of two nonempty sorted sequences with the same classes have the same key. */
  lemma LastKeysMatch<T(!new)>(c: Codec<T>, a: seq<T>, b: seq<T>, k: nat)
    requires |a| > 0 && |b| > 0
    requires SortedBelow(c, a, k) && SortedBelow(c, b, k) && SameClasses(c, a, b, k)
    ensures CmpBelow(c, b[|b| - 1], a[|a| - 1], k) == Equal
  {
    var x, z := a[|a| - 1], b[|b| - 1];
    CmpBelowEqual(c, x, x, k);
    CmpBelowEqual(c, z, z, k);
    assert x in KeyClass(c, b, x, k);
    assert z in KeyClass(c, a, z, k);
    KeyClassMember(c, b, x, k, x);
    KeyClassMember(c, a, z, k, z);
    assert CmpBelow(c, x, z, k) != Greater;
    assert CmpBelow(c, z, x, k) != Greater;
    CmpBelowFlip(c, x, z, k);
  }

  /** Removing one and the same last element from both sides keeps the classes equal. */
  lemma ClassesInit<T(!new)>(c: Codec<T>, a: seq<T>, b: seq<T>, k: nat)
    requires |a| > 0 && |b| > 0 && a[|a| - 1] == b[|b| - 1]
    requires SameClasses(c, a, b, k)
    ensures SameClasses(c, a[..|a| - 1], b[..|b| - 1], k)
  {
    var a', b' := a[..|a| - 1], b[..|b| - 1];
    forall y
      ensures KeyClass(c, a', y, k) == KeyClass(c, b', y, k)
    {
      var p, q := KeyClass(c, a', y, k), KeyClass(c, b', y, k);
      var e := KeyClass(c, a, y, k)[|p|..];
      assert KeyClass(c, a, y, k) == p + e;
      assert KeyClass(c, b, y, k) == q + e;
      assert (p + e)[..|p|] == p && (q + e)[..|q|] == q;
    }
  }

  /**
    Two sequences sorted by the digits below round k with the same key
    classes are equal.
   */
  lemma {:induction false} SortedClassesUnique<T(!new)>(c: Codec<T>, a: seq<T>, b: seq<T>, k: nat)
    requires SortedBelow(c, a, k) && SortedBelow(c, b, k)
    requires SameClasses(c, a, b, k)
    ensures a == b
    decreases |a| + |b|
  {
    if |a| == 0 && |b| > 0 {
      LastInOwnClass(c, b, k);
      assert false;
    } else if |a| > 0 && |b| == 0 {
      LastInOwnClass(c, a, k);
      assert false;
    } else if |a| > 0 {
      var x, z := a[|a| - 1], b[|b| - 1];
      LastKeysMatch(c, a, b, k);
      CmpBelowEqual(c, x, x, k);
      var p, q := KeyClass(c, a[..|a| - 1], x, k), KeyClass(c, b[..|b| - 1], x, k);
      assert KeyClass(c, a, x, k) == p + [x];
      assert KeyClass(c, b, x, k) == q + [z];
      assert |p| == |q|;
      assert (p + [x])[|p|] == x && (q + [z])[|q|] == z;
      ClassesInit(c, a, b, k);
      var a', b' := a[..|a| - 1], b[..|b| - 1];
      assert SortedBelow(c, a', k) && SortedBelow(c, b', k);
      SortedClassesUnique(c, a', b', k);
      assert a == a' + [x] && b == b' + [z];
    }
  }

  /** For a reverse-free codec, sorting a sequence already ordered by the full key returns it unchanged. */
  lemma SortedFixpoint<T(!new)>(c: Codec<T>, s: seq<T>)
    requires ReverseFree(c) && Sorted(c, s) && RdxSort(c, s).Success?
    ensures RdxSort(c, s) == Success(s)
  {
    RdxSortStable(c, s);
    RdxSortSorted(c, s);
    SortedClassesUnique(c, RdxSort(c, s).value, s, c.nrounds);
  }
}
