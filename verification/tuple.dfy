/**
  Tuples of arity 0 to 3.  The component round ranges are concatenated with
  the LAST component in the lowest rounds, so the first component is the
  most significant one.
 */
module Tuple {
  import opened Codec
  import opened Arith

  /** The 1-tuple `(A,)`. */
  datatype Single<A> = Single(first: A)

  /**
    `()`: no buckets, no rounds.  Its `get_bucket` and `reverse` are
    `unreachable!()`: with zero rounds no caller ever asks, so the digit 0 and
    the flag false below are never read.
   */
  function UnitCodec(): Codec<()> {
    Codec(0, 0, (u: (), r: nat) => 0, (r: nat, k: nat) => false)
  }

  /** `(A,)`: every operation delegates to the component. */
  function SingleCodec<A>(a: Codec<A>): Codec<Single<A>> {
    Alias(a, (t: Single<A>) => t.first)
  }

  /** `(A, B)`: rounds below B's count read `.1`, the rounds above read `.0`. */
  function PairCodec<A, B>(a: Codec<A>, b: Codec<B>): Codec<(A, B)> {
    Codec(
      Max(a.nbuckets, b.nbuckets),
      a.nrounds + b.nrounds,
      (p: (A, B), r: nat) => PairDigit(a, b, p, r),
      (r: nat, k: nat) => PairReverse(a, b, r, k))
  }

  function PairDigit<A, B>(a: Codec<A>, b: Codec<B>, p: (A, B), r: nat): nat {
    if r < b.nrounds then b.digit(p.1, r) else a.digit(p.0, r - b.nrounds)
  }

  function PairReverse<A, B>(a: Codec<A>, b: Codec<B>, r: nat, k: nat): bool {
    if r < b.nrounds then b.reverse(r, k) else a.reverse(r - b.nrounds, k)
  }

  /** `(A, B, C)`: C takes the lowest rounds, then B, then A. */
  function TripleCodec<A, B, C>(a: Codec<A>, b: Codec<B>, c: Codec<C>): Codec<(A, B, C)> {
    Codec(
      Max(a.nbuckets, Max(b.nbuckets, c.nbuckets)),
      a.nrounds + b.nrounds + c.nrounds,
      (t: (A, B, C), r: nat) => TripleDigit(a, b, c, t, r),
      (r: nat, k: nat) => TripleReverse(a, b, c, r, k))
  }

  function TripleDigit<A, B, C>(a: Codec<A>, b: Codec<B>, c: Codec<C>, t: (A, B, C), r: nat): nat {
    if r < c.nrounds then c.digit(t.2, r)
    else if r < b.nrounds + c.nrounds then b.digit(t.1, r - c.nrounds)
    else a.digit(t.0, r - b.nrounds - c.nrounds)
  }

  function TripleReverse<A, B, C>(a: Codec<A>, b: Codec<B>, c: Codec<C>, r: nat, k: nat): bool {
    if r < c.nrounds then c.reverse(r, k)
    else if r < b.nrounds + c.nrounds then b.reverse(r - c.nrounds, k)
    else a.reverse(r - b.nrounds - c.nrounds, k)
  }

  /** The unit has no buckets and no rounds, and is trivially valid. */
  lemma UnitShape()
    ensures UnitCodec().nbuckets == 0 && UnitCodec().nrounds == 0
    ensures Valid(UnitCodec())
  {
  }

  /** A 1-tuple has its component's shape, validity, flags and order. */
  lemma SingleFacts<A(!new)>(a: Codec<A>, s: Single<A>, t: Single<A>)
    ensures SingleCodec(a).nbuckets == a.nbuckets && SingleCodec(a).nrounds == a.nrounds
    ensures forall r, k :: SingleCodec(a).reverse(r, k) == a.reverse(r, k)
    ensures Valid(a) ==> Valid(SingleCodec(a))
    ensures KeyCmp(SingleCodec(a), s, t) == KeyCmp(a, s.first, t.first)
  {
    AliasFacts(a, (t: Single<A>) => t.first, s, t);
  }

  /**
    A pair has max(A, B) buckets (the larger of the two counts) and A + B rounds; its digits stay below its
    bucket count when each component's do, it is reverse-free when both
    components are, and its reversal flags are read from the component that
    owns the round.
   */
  lemma PairShape<A(!new), B(!new)>(a: Codec<A>, b: Codec<B>)
    ensures PairCodec(a, b).nbuckets >= a.nbuckets && PairCodec(a, b).nbuckets >= b.nbuckets
    ensures PairCodec(a, b).nbuckets == a.nbuckets || PairCodec(a, b).nbuckets == b.nbuckets
    ensures PairCodec(a, b).nrounds == a.nrounds + b.nrounds
    ensures Valid(a) && Valid(b) ==> Valid(PairCodec(a, b))
    ensures ReverseFree(a) && ReverseFree(b) ==> ReverseFree(PairCodec(a, b))
    ensures forall p: (A, B), r: nat, k: nat :: r < b.nrounds ==>
      PairCodec(a, b).digit(p, r) == b.digit(p.1, r) && PairCodec(a, b).reverse(r, k) == b.reverse(r, k)
    ensures forall p: (A, B), r: nat, k: nat :: r < a.nrounds ==>
      PairCodec(a, b).digit(p, b.nrounds + r) == a.digit(p.0, r) && PairCodec(a, b).reverse(b.nrounds + r, k) == a.reverse(r, k)
  {
    var pc := PairCodec(a, b);
    if Valid(a) && Valid(b) {
      forall p: (A, B), r: nat | r < pc.nrounds
        ensures pc.digit(p, r) < pc.nbuckets
      {
        if r >= b.nrounds {
          assert a.digit(p.0, r - b.nrounds) < a.nbuckets;
        }
      }
    }
  }

  /** Pairs are ordered lexicographically: first by `.0`, then by `.1`. */
  lemma PairOrder<A, B>(a: Codec<A>, b: Codec<B>, p: (A, B), q: (A, B))
    ensures KeyCmp(PairCodec(a, b), p, q) == KeyCmp(a, p.0, q.0).Then(KeyCmp(b, p.1, q.1))
  {
    var pc := PairCodec(a, b);
    var low := CmpBelow(pc, p, q, b.nrounds);
    assert KeyCmp(pc, p, q) == KeyCmp(a, p.0, q.0).Then(low) by {
      PairHigh(a, b, p, q);
    }
    assert low == KeyCmp(b, p.1, q.1) by {
      PairDigits(a, b, p);
      PairDigits(a, b, q);
      CmpBelowDigits(pc, b, p, q, p.1, q.1, b.nrounds);
    }
  }

  /** The top rounds of a pair compare the first components. */
  lemma PairHigh<A, B>(a: Codec<A>, b: Codec<B>, p: (A, B), q: (A, B))
    ensures CmpBelow(PairCodec(a, b), p, q, b.nrounds + a.nrounds)
         == CmpBelow(a, p.0, q.0, a.nrounds).Then(CmpBelow(PairCodec(a, b), p, q, b.nrounds))
  {
    PairDigits(a, b, p);
    PairDigits(a, b, q);
    var pc := PairCodec(a, b);
    CmpBelowConcat(pc, a, p, q, p.0, q.0, b.nrounds, a.nrounds);
  }

  /** A pair's digits are `.1`'s in the low rounds and `.0`'s above them. */
  lemma PairDigits<A, B>(a: Codec<A>, b: Codec<B>, p: (A, B))
    ensures ShiftedDigits(PairCodec(a, b), a, p, p.0, b.nrounds, a.nrounds)
  {
  }

  /**
    A triple has the max of the three bucket counts and the sum of the
    three round counts, is valid and reverse-free when its components are,
    and reads its reversal flags from the component that owns the round:
    C below C's count, B in the next B rounds, A in all rounds above.
   */
  lemma TripleShape<A(!new), B(!new), C(!new)>(a: Codec<A>, b: Codec<B>, c: Codec<C>)
    ensures TripleCodec(a, b, c).nbuckets >= a.nbuckets
    ensures TripleCodec(a, b, c).nbuckets >= b.nbuckets
    ensures TripleCodec(a, b, c).nbuckets >= c.nbuckets
    ensures TripleCodec(a, b, c).nbuckets in {a.nbuckets, b.nbuckets, c.nbuckets}
    ensures TripleCodec(a, b, c).nrounds == a.nrounds + b.nrounds + c.nrounds
    ensures Valid(a) && Valid(b) && Valid(c) ==> Valid(TripleCodec(a, b, c))
    ensures ReverseFree(a) && ReverseFree(b) && ReverseFree(c) ==> ReverseFree(TripleCodec(a, b, c))
    ensures forall r: nat, k: nat :: r < c.nrounds ==>
      TripleCodec(a, b, c).reverse(r, k) == c.reverse(r, k)
    ensures forall r: nat, k: nat :: r < b.nrounds ==>
      TripleCodec(a, b, c).reverse(c.nrounds + r, k) == b.reverse(r, k)
    ensures forall r: nat, k: nat :: r >= b.nrounds + c.nrounds ==>
      TripleCodec(a, b, c).reverse(r, k) == a.reverse(r - b.nrounds - c.nrounds, k)
  {
    var tc := TripleCodec(a, b, c);
    if Valid(a) && Valid(b) && Valid(c) {
      forall t: (A, B, C), r: nat | r < tc.nrounds
        ensures tc.digit(t, r) < tc.nbuckets
      {
        if r < c.nrounds {
        } else if r < b.nrounds + c.nrounds {
          assert b.digit(t.1, r - c.nrounds) < b.nbuckets;
        } else {
          assert a.digit(t.0, r - b.nrounds - c.nrounds) < a.nbuckets;
        }
      }
    }
  }

  /** Triples are ordered lexicographically: `.0`, then `.1`, then `.2`. */
  lemma TripleOrder<A, B, C>(a: Codec<A>, b: Codec<B>, c: Codec<C>, x: (A, B, C), y: (A, B, C))
    ensures KeyCmp(TripleCodec(a, b, c), x, y)
         == KeyCmp(a, x.0, y.0).Then(KeyCmp(b, x.1, y.1).Then(KeyCmp(c, x.2, y.2)))
  {
    var tc := TripleCodec(a, b, c);
    var nc := PairCodec(a, PairCodec(b, c));
    var u, v := (x.0, (x.1, x.2)), (y.0, (y.1, y.2));
    forall r | 0 <= r < tc.nrounds
      ensures tc.digit(x, r) == nc.digit(u, r)
    {
      TripleIsNested(a, b, c, x, r, 0);
    }
    forall r | 0 <= r < tc.nrounds
      ensures tc.digit(y, r) == nc.digit(v, r)
    {
      TripleIsNested(a, b, c, y, r, 0);
    }
    CmpBelowDigits(tc, nc, x, y, u, v, tc.nrounds);
    PairOrder(a, PairCodec(b, c), u, v);
    PairOrder(b, c, u.1, v.1);
  }

  /** A triple reads the same digits and reversal flags as the pair `(A, (B, C))`. */
  lemma TripleIsNested<A, B, C>(a: Codec<A>, b: Codec<B>, c: Codec<C>, t: (A, B, C), r: nat, k: nat)
    ensures TripleCodec(a, b, c).digit(t, r) == PairCodec(a, PairCodec(b, c)).digit((t.0, (t.1, t.2)), r)
    ensures TripleCodec(a, b, c).reverse(r, k) == PairCodec(a, PairCodec(b, c)).reverse(r, k)
  {
  }
}
