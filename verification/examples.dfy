/**
  The crate's own worked examples as theorems: the documentation's i32
  vector and `Foo` records, the special values of the signed tests, and the
  u32 trie of the tree tests.
 */
module Examples {
  import opened Codec
  import opened Unsigned
  import opened Signed
  import opened RadixSort
  import opened SortTheory
  import opened Reference
  import opened Trie
  import opened TrieTheory

  lemma Pow2Values()
    ensures Pow2(7) == 128 && Pow2(31) == 2147483648 && Pow2(32) == 4294967296
  {
    Pow2Pow16(2);
    Pow2Pow16(8);
    assert Pow16(2) == 256;
    assert Pow16(8) == 4294967296;
    assert Pow2(8) == 2 * Pow2(7);
    assert Pow2(32) == 2 * Pow2(31);
  }

  /**
    A valid reverse-free codec sorts s into t when t is a permutation of s
    sorted by the key and the key tells the elements of s apart.
   */
  lemma SortsTo<T(!new)>(c: Codec<T>, s: seq<T>, t: seq<T>)
    requires Valid(c) && ReverseFree(c)
    requires multiset(t) == multiset(s) && Sorted(c, t)
    requires forall x, y :: x in s && y in s && KeyCmp(c, x, y) == Equal ==> x == y
    ensures RdxSort(c, s) == Success(t)
  {
    ValidSucceeds(c, s);
    RdxSortSorted(c, s);
    var v := RdxSort(c, s).value;
    forall x, y | x in v && y in v && KeyCmp(c, x, y) == Equal
      ensures x == y
    {
      assert x in multiset(s) && y in multiset(s);
    }
    SortedUnique(c, v, t);
  }

  /** Signed values of one width sort into t when t is their strictly increasing arrangement. */
  lemma SignedSortsTo(w: Width, s: seq<int>, t: seq<int>)
    requires forall x :: x in s ==> InRangeSigned(w, x)
    requires multiset(t) == multiset(s)
    requires forall i, j :: 0 <= i < j < |t| ==> t[i] < t[j]
    ensures RdxSort(SignedCodec(w), s) == Success(t)
  {
    var c := SignedCodec(w);
    SignedShape(w);
    forall i, j | 0 <= i < j < |t|
      ensures CmpBelow(c, t[i], t[j], c.nrounds) != Greater
    {
      assert t[i] in multiset(s) && t[j] in multiset(s);
      SignedOrder(w, t[i], t[j]);
    }
    forall x, y | x in s && y in s && KeyCmp(c, x, y) == Equal
      ensures x == y
    {
      SignedOrder(w, x, y);
    }
    SortsTo(c, s, t);
  }

  /** The crate documentation: `vec![2, 10, 0, 1]` (i32) sorts to `[0, 1, 2, 10]`. */
  lemma DocExample(s: seq<int>, t: seq<int>)
    requires s == [2, 10, 0, 1] && t == [0, 1, 2, 10]
    ensures RdxSort(SignedCodec(W32), s) == Success(t)
  {
    DocInRange(s);
    assert multiset(t) == multiset(s) by {
      DocPermuted();
    }
    SignedSortsTo(W32, s, t);
  }

  lemma DocInRange(s: seq<int>)
    requires s == [2, 10, 0, 1]
    ensures forall x :: x in s ==> InRangeSigned(W32, x)
  {
    assert MinValue(W32) < 0 && 10 < MaxValue(W32) by {
      Pow2Values();
    }
  }

  lemma DocPermuted()
    ensures multiset([2, 10, 0, 1]) == multiset([0, 1, 2, 10])
  {
  }

  lemma SpecialValuesInRange(s: seq<int>)
    requires s == [127, -128, 126, -127, -1, 0, 1]
    ensures forall x :: x in s ==> InRangeSigned(W8, x)
  {
    assert MinValue(W8) == -128 && MaxValue(W8) == 127 by {
      assert Pow2(7) == 128;
    }
  }

  lemma SpecialValuesArranged(s: seq<int>, t: seq<int>)
    requires s == [127, -128, 126, -127, -1, 0, 1]
    requires t == [-128, -127, -1, 0, 1, 126, 127]
    ensures multiset(t) == multiset(s)
  {
    SpecialValuesDistinct(s, t);
    SamePermutation(t, s);
  }

  lemma SpecialValuesDistinct(s: seq<int>, t: seq<int>)
    requires s == [127, -128, 126, -127, -1, 0, 1]
    requires t == [-128, -127, -1, 0, 1, 126, 127]
    ensures Distinct(s) && Distinct(t)
    ensures forall v :: v in s <==> v in t
  {
  }

  /** No element occurs twice. */
  predicate Distinct<T(==)>(s: seq<T>) {
    forall i, j :: 0 <= i < j < |s| ==> s[i] != s[j]
  }

  /** Each element of a sequence without repeats occurs once. */
  lemma {:induction false} DistinctCount<T>(s: seq<T>, z: T)
    requires Distinct(s)
    ensures multiset(s)[z] == if z in s then 1 else 0
    decreases |s|
  {
    if |s| > 0 {
      var init, last := s[..|s| - 1], s[|s| - 1];
      assert s == init + [last];
      DistinctCount(init, z);
      assert forall i :: 0 <= i < |init| ==> init[i] == s[i];
    }
  }

  /** Two sequences without repeats and with the same elements are permutations of each other. */
  lemma SamePermutation<T>(s: seq<T>, t: seq<T>)
    requires Distinct(s) && Distinct(t)
    requires forall v :: v in s <==> v in t
    ensures multiset(s) == multiset(t)
  {
    forall z
      ensures multiset(s)[z] == multiset(t)[z]
    {
      DistinctCount(s, z);
      DistinctCount(t, z);
    }
  }

  lemma SpecialValuesIncreasing(t: seq<int>)
    requires t == [-128, -127, -1, 0, 1, 126, 127]
    ensures forall i, j :: 0 <= i < j < |t| ==> t[i] < t[j]
  {
  }

  /** i8 with its special values MIN, MIN + 1, -1, 0, 1, MAX - 1 and MAX. */
  lemma SpecialValuesI8(s: seq<int>, t: seq<int>)
    requires s == [127, -128, 126, -127, -1, 0, 1]
    requires t == [-128, -127, -1, 0, 1, 126, 127]
    ensures RdxSort(SignedCodec(W8), s) == Success(t)
  {
    SpecialValuesInRange(s);
    SpecialValuesArranged(s, t);
    SpecialValuesIncreasing(t);
    SignedSortsTo(W8, s, t);
  }

  // ---------------------------------------------------------------- a user-defined codec

  type Byte = x: nat | x < 256

  /** The documentation's `Foo { a: u8, b: u8 }`. */
  datatype Foo = Foo(a: Byte, b: Byte)

  /**
    Its `RdxSortTemplate`: 256 buckets, 2 rounds, `b` at round 0 and `a`
    above; written for the older trait, which has no `reverse`, so the flag
    is fitted as false.
   */
  function FooCodec(): Codec<Foo> {
    Codec(256, 2, FooDigit, (r: nat, k: nat) => false)
  }

  /** `get_bucket` of `Foo`: `b` at round 0, `a` at every other round. */
  function FooDigit(x: Foo, round: nat): (d: nat)
    ensures d < 256
  {
    if round == 0 then x.b else x.a
  }

  /** Foo values are ordered by `a`, then by `b`. */
  lemma FooOrder(x: Foo, y: Foo)
    ensures KeyCmp(FooCodec(), x, y) == IntCmp(x.a, y.a).Then(IntCmp(x.b, y.b))
  {
  }

  /** The documentation's `Foo` example sorts to its reference vector. */
  lemma FooExample(s: seq<Foo>, t: seq<Foo>)
    requires s == [Foo(5, 2), Foo(0, 1), Foo(5, 1), Foo(0, 2)]
    requires t == [Foo(0, 1), Foo(0, 2), Foo(5, 1), Foo(5, 2)]
    ensures RdxSort(FooCodec(), s) == Success(t)
  {
    var c := FooCodec();
    assert Valid(c) && ReverseFree(c);
    forall i, j | 0 <= i < j < |t|
      ensures CmpBelow(c, t[i], t[j], c.nrounds) != Greater
    {
      FooOrder(t[i], t[j]);
    }
    forall x, y | x in s && y in s && KeyCmp(c, x, y) == Equal
      ensures x == y
    {
      FooOrder(x, y);
    }
    assert multiset(t) == multiset(s) by {
      FooPermuted(s, t);
    }
    SortsTo(c, s, t);
  }

  lemma FooPermuted(s: seq<Foo>, t: seq<Foo>)
    requires s == [Foo(5, 2), Foo(0, 1), Foo(5, 1), Foo(0, 2)]
    requires t == [Foo(0, 1), Foo(0, 2), Foo(5, 1), Foo(5, 2)]
    ensures multiset(t) == multiset(s)
  {
  }

  // ---------------------------------------------------------------- the u32 trie

  /** Two different in-range unsigned values differ in some digit. */
  lemma UnsignedKeysDiffer(w: Width, x: nat, y: nat)
    requires InRange(w, x) && InRange(w, y) && x != y
    ensures !AgreeBelow(UnsignedCodec(w), x, y, w.Rounds())
  {
    UnsignedOrder(w, x, y);
    CmpBelowEqual(UnsignedCodec(w), x, y, w.Rounds());
  }

  /** When no two elements of xs share a key, every element survives into the tree. */
  lemma DistinctKeysSurvive<T>(c: Codec<T>, xs: seq<T>, v: T)
    requires forall i, j :: 0 <= i < j < |xs| ==> !AgreeBelow(c, xs[j], xs[i], c.nrounds)
    ensures Survivor(c, xs, v) <==> v in xs
  {
    if v in xs {
      var i :| 0 <= i < |xs| && xs[i] == v;
      assert LastOfKey(c, xs, i);
    }
  }

  /**
    A tree built from values whose keys are pairwise distinct holds all of
    them, in key order, one value slot each.
   */
  lemma BuildDistinct<T>(c: Codec<T>, xs: seq<T>, t: seq<T>)
    requires c.nrounds >= 1 && c.nbuckets >= 1
    requires forall i :: 0 <= i < |xs| ==> DigitsOk(c, xs[i])
    requires forall i, j :: 0 <= i < j < |xs| ==> !AgreeBelow(c, xs[j], xs[i], c.nrounds)
    requires Ascending(c, t, c.nrounds) && forall v :: v in t <==> v in xs
    ensures Elements(Build(c, xs).root) == t
    ensures TreeNNodes(Build(c, xs)).child == |t|
    ensures c.nbuckets * TreeNNodes(Build(c, xs)).inner + 1
         == TreeNNodes(Build(c, xs)).free + |t| + TreeNNodes(Build(c, xs)).inner
  {
    BuildContents(c, xs);
    var tree := Build(c, xs);
    var e := Elements(tree.root);
    forall v
      ensures v in e <==> v in t
    {
      DistinctKeysSurvive(c, xs, v);
    }
    AscendingUnique(c, e, t, c.nrounds);
    TreeCounts(c, tree);
  }

  /** The keys of the tree test are u32 values. */
  lemma TreeExampleInRange(xs: seq<nat>)
    requires xs == [1, 22, 2, 1024, 0]
    ensures forall i :: 0 <= i < |xs| ==> InRange(W32, xs[i])
  {
    assert 1024 < Pow2(32) by {
      Pow2Values();
    }
  }

  /** The keys of the tree test are distinct. */
  lemma TreeExampleDistinct(xs: seq<nat>)
    requires xs == [1, 22, 2, 1024, 0]
    ensures forall i :: 0 <= i < |xs| ==> InRange(W32, xs[i])
    ensures forall i, j :: 0 <= i < j < |xs| ==> !AgreeBelow(UnsignedCodec(W32), xs[j], xs[i], 8)
  {
    TreeExampleInRange(xs);
    assert Distinct(xs);
    forall i, j | 0 <= i < j < |xs|
      ensures !AgreeBelow(UnsignedCodec(W32), xs[j], xs[i], 8)
    {
      UnsignedKeysDiffer(W32, xs[j], xs[i]);
    }
  }

  /** Listed in numeric order, the keys of the tree test ascend. */
  lemma TreeExampleAscending(t: seq<nat>)
    requires t == [0, 1, 2, 22, 1024]
    ensures Ascending(UnsignedCodec(W32), t, 8)
  {
    assert forall i :: 0 <= i < |t| ==> InRange(W32, t[i]) by {
      assert 1024 < Pow2(32) by {
        Pow2Of32();
      }
    }
    assert forall i, j :: 0 <= i < j < |t| ==> t[i] < t[j];
    UnsignedAscending(W32, t);
  }

  /** In-range unsigned values listed in increasing order ascend in key order. */
  lemma UnsignedAscending(w: Width, t: seq<nat>)
    requires forall i :: 0 <= i < |t| ==> InRange(w, t[i])
    requires forall i, j :: 0 <= i < j < |t| ==> t[i] < t[j]
    ensures Ascending(UnsignedCodec(w), t, w.Rounds())
  {
    forall i, j | 0 <= i < j < |t|
      ensures CmpBelow(UnsignedCodec(w), t[i], t[j], w.Rounds()) == Less
    {
      UnsignedOrder(w, t[i], t[j]);
    }
  }

  /** In-range values have valid digits at every round. */
  lemma TreeExampleDigits(xs: seq<nat>)
    requires forall i :: 0 <= i < |xs| ==> InRange(W32, xs[i])
    ensures forall i :: 0 <= i < |xs| ==> DigitsOk(UnsignedCodec(W32), xs[i])
  {
    UnsignedShape(W32);
  }

  /**
    The tree test: inserting 1, 22, 2, 1024 and 0 into an `RdxTree<u32>`
    stores exactly [0, 1, 2, 22, 1024] in slot order (what `iter` yields,
    by `Collect`), 5 values, and free slots that with the inner-node count
    satisfy free + 4 = 15 * inner (56 free slots for the 4 inner nodes the
    test counts).
   */
  lemma TreeExample(xs: seq<nat>, t: seq<nat>)
    requires xs == [1, 22, 2, 1024, 0] && t == [0, 1, 2, 22, 1024]
    ensures Elements(Build(UnsignedCodec(W32), xs).root) == t
    ensures TreeNNodes(Build(UnsignedCodec(W32), xs)).child == 5
    ensures TreeNNodes(Build(UnsignedCodec(W32), xs)).free + 4
         == 15 * TreeNNodes(Build(UnsignedCodec(W32), xs)).inner
  {
    var c := UnsignedCodec(W32);
    TreeExampleDistinct(xs);
    TreeExampleAscending(t);
    TreeExampleDigits(xs);
    assert forall v :: v in t <==> v in xs;
    BuildDistinct(c, xs, t);
  }
}
