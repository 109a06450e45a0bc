/**
  The sort as the source runs it, in place of a slice and of a vector:
  round 0, the loop over the later rounds, and the write-back.
 */
module Slice {
  import opened Codec
  import opened RadixSort
  import opened SortTheory

  /**
    `rdxsort` for a slice: the new contents of the slice, or the error the
    source would panic with.
   */
  method SortSlice<T>(c: Codec<T>, s: seq<T>) returns (r: Result<seq<T>>)
    ensures r == RdxSort(c, s)
    ensures c.nrounds == 0 ==> r == Success(s)
    ensures r.Success? <==> (c.nrounds > 0 ==> c.nbuckets > 0) && DigitsInRange(c, multiset(s), 0)
    ensures r.Failure? ==> (r.error.ZeroBuckets? <==> c.nrounds > 0 && c.nbuckets == 0)
    ensures r.Success? ==> multiset(r.value) == multiset(s)
    ensures r.Success? && ReverseFree(c) ==> Sorted(c, r.value)
  {
    RdxSortFacts(c, s);
    if RdxSort(c, s).Success? && ReverseFree(c) {
      RdxSortSorted(c, s);
    }
    if c.nrounds == 0 {
      return Success(s);
    }
    if c.nbuckets == 0 {
      // the capacity estimate `(n << 2) / cfg_nbuckets` divides by zero
      return Failure(ZeroBuckets);
    }
    var first :- Distribute(c, Empty(c.nbuckets), s, 0);
    var a := first;
    var round := 1;
    while round < c.nrounds
      invariant 1 <= round <= c.nrounds && |a| == c.nbuckets
      invariant RunRounds(c, a, round) == RunRounds(c, first, 1)
      decreases c.nrounds - round
    {
      a :- Pass(c, a, round);
      round := round + 1;
    }
    var out := WriteBack(c, a, s);
    r := Success(out);
  }

  /** `rdxsort` for a vector sorts its slice. */
  method SortVec<T>(c: Codec<T>, v: seq<T>) returns (r: Result<seq<T>>)
    ensures r == RdxSort(c, v)
    ensures r.Success? ==> multiset(r.value) == multiset(v)
    ensures r.Success? && ReverseFree(c) ==> Sorted(c, r.value)
  {
    r := SortSlice(c, v);
  }
}
