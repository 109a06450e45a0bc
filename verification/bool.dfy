/**
  bool: two buckets and a single round; false goes to bucket 0 and true to
  bucket 1 whatever the round.  The older `RdxSortTemplate` implementation
  has no `reverse`; it is fitted into the codec record with reverse = false,
  which is what the newer `Rdx` implementation states.
 */
module Bool {
  import opened Codec

  function BoolCodec(): Codec<bool> {
    Codec(2, 1, (b: bool, r: nat) => if b then 1 else 0, (r: nat, k: nat) => false)
  }

  /** Two buckets, one round, no reversal, and every digit below 2 at every round. */
  lemma BoolShape()
    ensures BoolCodec().nbuckets == 2 && BoolCodec().nrounds == 1
    ensures forall b: bool, r: nat :: BoolCodec().digit(b, r) < BoolCodec().nbuckets
    ensures Valid(BoolCodec()) && ReverseFree(BoolCodec())
  {
  }

  /** The digit order is false < true, and the digit does not depend on the round. */
  lemma BoolOrder(a: bool, b: bool)
    ensures KeyCmp(BoolCodec(), a, b) == Less <==> !a && b
    ensures KeyCmp(BoolCodec(), a, b) == Equal <==> a == b
    ensures forall r: nat :: BoolCodec().digit(a, r) == BoolCodec().digit(a, 0)
  {
  }
}
