/**
  The sort against a reference comparison sort: both the radix sort and an
  insertion sort by `<=` are stable sorts by the same key, so they return
  the same sequence; for the integer codecs the radix sort returns what an
  insertion sort by `<=` returns, and sorting twice changes nothing.
 */
module Reference {
  import opened Codec
  import opened Unsigned
  import opened Signed
  import opened Bool
  import opened RadixSort
  import opened SortTheory
  import opened Stability

  /** `le` is a total preorder. */
  ghost predicate TotalPreorder<T(!new)>(le: (T, T) -> bool) {
    && (forall x, y :: le(x, y) || le(y, x))
    && (forall x, y, z :: le(x, y) && le(y, z) ==> le(x, z))
  }

  /** Every element is `le` every later one. */
  ghost predicate Ordered<T>(le: (T, T) -> bool, s: seq<T>) {
    forall i, j :: 0 <= i < j < |s| ==> le(s[i], s[j])
  }

  /** Inserts x before the first element it is `le`. */
  function Insert<T>(le: (T, T) -> bool, x: T, s: seq<T>): seq<T>
    decreases |s|
  {
    if |s| == 0 then [x]
    else if le(x, s[0]) then [x] + s
    else [s[0]] + Insert(le, x, s[1..])
  }

  /** The reference comparison sort. */
  function InsertionSort<T>(le: (T, T) -> bool, s: seq<T>): seq<T>
    decreases |s|
  {
    if |s| == 0 then [] else Insert(le, s[0], InsertionSort(le, s[1..]))
  }

  lemma {:induction false} InsertFacts<T(!new)>(le: (T, T) -> bool, x: T, s: seq<T>)
    requires TotalPreorder(le) && Ordered(le, s)
    ensures Ordered(le, Insert(le, x, s))
    ensures multiset(Insert(le, x, s)) == multiset(s) + multiset{x}
    ensures |Insert(le, x, s)| > 0 && (Insert(le, x, s)[0] == x || (|s| > 0 && Insert(le, x, s)[0] == s[0]))
    decreases |s|
  {
    if |s| > 0 && !le(x, s[0]) {
      var t := s[1..];
      OrderedTail(le, s);
      InsertFacts(le, x, t);
      var u := Insert(le, x, t);
      assert Insert(le, x, s) == [s[0]] + u;
      InsertBehind(le, x, s, u);
      assert multiset(s) == multiset{s[0]} + multiset(t) by {
        assert s == [s[0]] + t;
      }
    } else if |s| > 0 {
      InsertInFront(le, x, s);
    }
  }

  lemma OrderedTail<T>(le: (T, T) -> bool, s: seq<T>)
    requires |s| > 0 && Ordered(le, s)
    ensures Ordered(le, s[1..])
  {
    var t := s[1..];
    forall i, j | 0 <= i < j < |t|
      ensures le(t[i], t[j])
    {
      assert t[i] == s[i + 1] && t[j] == s[j + 1];
    }
  }

  /** x goes behind the head of s when it is not `le` it: the head stays in front of x and the rest. */
  lemma InsertBehind<T(!new)>(le: (T, T) -> bool, x: T, s: seq<T>, u: seq<T>)
    requires TotalPreorder(le) && Ordered(le, s) && |s| > 0 && !le(x, s[0])
    requires Ordered(le, u) && multiset(u) == multiset(s[1..]) + multiset{x}
    ensures Ordered(le, [s[0]] + u)
  {
    var t := s[1..];
    assert le(s[0], x);
    forall j | 0 <= j < |u|
      ensures le(s[0], u[j])
    {
      assert u[j] in multiset(u);
      if u[j] != x {
        assert u[j] in multiset(t);
        var k :| 0 <= k < |t| && t[k] == u[j];
        assert s[k + 1] == u[j];
      }
    }
    var r := [s[0]] + u;
    forall i, j | 0 <= i < j < |r|
      ensures le(r[i], r[j])
    {
      if i > 0 {
        assert r[i] == u[i - 1] && r[j] == u[j - 1];
      }
    }
  }

  /** x goes in front of an ordered s whose head it is `le`. */
  lemma InsertInFront<T(!new)>(le: (T, T) -> bool, x: T, s: seq<T>)
    requires TotalPreorder(le) && Ordered(le, s) && |s| > 0 && le(x, s[0])
    ensures Ordered(le, [x] + s)
  {
    var r := [x] + s;
    forall i, j | 0 <= i < j < |r|
      ensures le(r[i], r[j])
    {
      if i == 0 {
        assert le(s[0], s[j - 1]) || j == 1;
      } else {
        assert r[i] == s[i - 1] && r[j] == s[j - 1];
      }
    }
  }

  /** The reference sort returns an ordered permutation of its input. */
  lemma {:induction false} InsertionSortFacts<T(!new)>(le: (T, T) -> bool, s: seq<T>)
    requires TotalPreorder(le)
    ensures Ordered(le, InsertionSort(le, s))
    ensures multiset(InsertionSort(le, s)) == multiset(s)
    decreases |s|
  {
    if |s| > 0 {
      InsertionSortFacts(le, s[1..]);
      InsertFacts(le, s[0], InsertionSort(le, s[1..]));
      assert s == [s[0]] + s[1..];
    }
  }

  /** Every value compares Equal to itself. */
  lemma KeyCmpRefl<T>(c: Codec<T>, x: T)
    ensures KeyCmp(c, x, x) == Equal
  {
    CmpBelowEqual(c, x, x, c.nrounds);
  }

  /** Dropping the first element keeps a sequence sorted. */
  lemma SortedTail<T>(c: Codec<T>, xs: seq<T>)
    requires |xs| > 0 && Sorted(c, xs)
    ensures Sorted(c, xs[1..])
  {
    var xt := xs[1..];
    forall a, b | 0 <= a < b < |xt|
      ensures CmpBelow(c, xt[a], xt[b], c.nrounds) != Greater
    {
      assert xt[a] == xs[a + 1] && xt[b] == xs[b + 1];
    }
  }

  /** Equal multisets with equal first elements have equal tails. */
  lemma MultisetTail<T>(xs: seq<T>, ys: seq<T>)
    requires |xs| > 0 && |ys| > 0 && xs[0] == ys[0] && multiset(xs) == multiset(ys)
    ensures multiset(xs[1..]) == multiset(ys[1..])
  {
    assert xs == [xs[0]] + xs[1..] && ys == [ys[0]] + ys[1..];
    assert multiset(xs[1..]) == multiset(xs) - multiset{xs[0]};
    assert multiset(ys[1..]) == multiset(ys) - multiset{ys[0]};
  }

  /** The first element of a sorted sequence is at or below every element of it. */
  lemma SortedHead<T>(c: Codec<T>, xs: seq<T>, x: T)
    requires |xs| > 0 && Sorted(c, xs) && x in xs
    ensures KeyCmp(c, xs[0], x) != Greater
  {
    var j :| 0 <= j < |xs| && xs[j] == x;
    if j == 0 {
      KeyCmpRefl(c, x);
    } else {
      assert CmpBelow(c, xs[0], xs[j], c.nrounds) != Greater;
    }
  }

  /**
    Two sequences sorted by the digit key with the same elements are equal
    when the key tells their elements apart.
   */
  lemma {:induction false} SortedUnique<T>(c: Codec<T>, xs: seq<T>, ys: seq<T>)
    requires Sorted(c, xs) && Sorted(c, ys)
    requires multiset(xs) == multiset(ys)
    requires forall x, y :: x in xs && y in xs && KeyCmp(c, x, y) == Equal ==> x == y
    ensures xs == ys
    decreases |xs|
  {
    assert |xs| == |multiset(xs)| == |multiset(ys)| == |ys|;
    if |xs| > 0 {
      var x0, y0 := xs[0], ys[0];
      assert x0 in multiset(ys) && y0 in multiset(xs);
      SortedHead(c, ys, x0);
      SortedHead(c, xs, y0);
      CmpBelowFlip(c, x0, y0, c.nrounds);
      assert x0 == y0;
      var xt, yt := xs[1..], ys[1..];
      MultisetTail(xs, ys);
      assert forall x :: x in xt ==> x in xs;
      SortedTail(c, xs);
      SortedTail(c, ys);
      SortedUnique(c, xt, yt);
    }
  }

  /** A valid codec never makes the sort fail. */
  lemma ValidSucceeds<T(!new)>(c: Codec<T>, s: seq<T>)
    requires Valid(c)
    ensures RdxSort(c, s).Success?
    ensures multiset(RdxSort(c, s).value) == multiset(s)
  {
    RdxSortFacts(c, s);
  }

  /** The class of y gained by one element x: x itself when its key is y's. */
  function Own<T>(c: Codec<T>, x: T, y: T): (e: seq<T>)
    ensures e == KeyClass(c, [x], y, c.nrounds)
  {
    assert [x][..0] == [];
    if KeyCmp(c, x, y) == Equal then [x] else []
  }

  /**
    Inserting x adds x at the front of its class: every element x is
    placed after has a smaller key, so x overtakes no element of its class.
   */
  lemma {:induction false} InsertClass<T>(c: Codec<T>, le: (T, T) -> bool, x: T, t: seq<T>, y: T)
    requires forall e :: e in t ==> (le(x, e) <==> KeyCmp(c, x, e) != Greater)
    ensures KeyClass(c, Insert(le, x, t), y, c.nrounds) == Own(c, x, y) + KeyClass(c, t, y, c.nrounds)
    decreases |t|
  {
    var k := c.nrounds;
    if |t| > 0 {
      assert t == [t[0]] + t[1..];
      KeyClassConcat(c, [t[0]], t[1..], y, k);
      if le(x, t[0]) {
        KeyClassConcat(c, [x], t, y, k);
      } else {
        InsertClass(c, le, x, t[1..], y);
        KeyClassConcat(c, [t[0]], Insert(le, x, t[1..]), y, k);
        if KeyCmp(c, x, y) == Equal && KeyCmp(c, t[0], y) == Equal {
          CmpBelowFlip(c, t[0], y, k);
          CmpBelowTrans(c, x, y, t[0], k);
          assert false;
        }
      }
    } else {
      assert KeyClass(c, t, y, k) == [];
    }
  }

  /** The reference sort keeps every key class in input order, when `le` agrees with the key on the input. */
  lemma {:induction false} InsertionSortClasses<T(!new)>(c: Codec<T>, le: (T, T) -> bool, s: seq<T>)
    requires TotalPreorder(le)
    requires forall x, y :: x in s && y in s ==> (KeyCmp(c, x, y) != Greater <==> le(x, y))
    ensures SameClasses(c, InsertionSort(le, s), s, c.nrounds)
    decreases |s|
  {
    if |s| > 0 {
      var rest := s[1..];
      InsertionSortClasses(c, le, rest);
      InsertionSortFacts(le, rest);
      var r := InsertionSort(le, rest);
      forall e | e in r
        ensures le(s[0], e) <==> KeyCmp(c, s[0], e) != Greater
      {
        assert e in multiset(rest);
      }
      assert s == [s[0]] + rest;
      forall y
        ensures KeyClass(c, InsertionSort(le, s), y, c.nrounds) == KeyClass(c, s, y, c.nrounds)
      {
        InsertClass(c, le, s[0], r, y);
        KeyClassConcat(c, [s[0]], rest, y, c.nrounds);
      }
    }
  }

  /**
    When the digit key agrees with `le` on the input, a valid reverse-free
    codec sorts exactly as the reference sort does: both are stable sorts
    by the same key.
   */
  lemma SortMatchesReference<T(!new)>(c: Codec<T>, le: (T, T) -> bool, s: seq<T>)
    requires Valid(c) && ReverseFree(c) && TotalPreorder(le)
    requires forall x, y :: x in s && y in s ==> (KeyCmp(c, x, y) != Greater <==> le(x, y))
    ensures RdxSort(c, s) == Success(InsertionSort(le, s))
  {
    ValidSucceeds(c, s);
    RdxSortSorted(c, s);
    RdxSortStable(c, s);
    var v := RdxSort(c, s).value;
    var ref := InsertionSort(le, s);
    InsertionSortFacts(le, s);
    InsertionSortClasses(c, le, s);
    forall i, j | 0 <= i < j < |ref|
      ensures CmpBelow(c, ref[i], ref[j], c.nrounds) != Greater
    {
      assert ref[i] in multiset(s) && ref[j] in multiset(s);
    }
    assert SameClasses(c, v, ref, c.nrounds);
    SortedClassesUnique(c, v, ref, c.nrounds);
  }

  /** Sorting a sorted output again changes nothing. */
  lemma SortIdempotent<T(!new)>(c: Codec<T>, s: seq<T>)
    requires Valid(c) && ReverseFree(c)
    ensures RdxSort(c, s).Success?
    ensures RdxSort(c, RdxSort(c, s).value) == RdxSort(c, s)
  {
    ValidSucceeds(c, s);
    RdxSortSorted(c, s);
    var v := RdxSort(c, s).value;
    ValidSucceeds(c, v);
    SortedFixpoint(c, v);
  }

  function NatLe(x: nat, y: nat): bool {
    x <= y
  }

  function IntLe(x: int, y: int): bool {
    x <= y
  }

  /** Unsigned values of one width sort into ascending numeric order, as the reference sort does. */
  lemma UnsignedSortIsReference(w: Width, s: seq<nat>)
    requires forall x :: x in s ==> InRange(w, x)
    ensures RdxSort(UnsignedCodec(w), s) == Success(InsertionSort(NatLe, s))
  {
    UnsignedShape(w);
    forall x, y | x in s && y in s
      ensures KeyCmp(UnsignedCodec(w), x, y) == IntCmp(x, y)
    {
      UnsignedOrder(w, x, y);
    }
    SortMatchesReference(UnsignedCodec(w), NatLe, s);
  }

  /** Signed values of one width, MIN and MAX included, sort into ascending numeric order. */
  lemma SignedSortIsReference(w: Width, s: seq<int>)
    requires forall x :: x in s ==> InRangeSigned(w, x)
    ensures RdxSort(SignedCodec(w), s) == Success(InsertionSort(IntLe, s))
  {
    SignedShape(w);
    forall x, y | x in s && y in s
      ensures KeyCmp(SignedCodec(w), x, y) == IntCmp(x, y)
    {
      SignedOrder(w, x, y);
    }
    SortMatchesReference(SignedCodec(w), IntLe, s);
  }

  /** Sorting booleans keeps how many of each there are and puts every false before every true. */
  lemma BoolSortPartition(s: seq<bool>)
    ensures RdxSort(BoolCodec(), s).Success?
    ensures multiset(RdxSort(BoolCodec(), s).value) == multiset(s)
    ensures forall i, j :: 0 <= i < j < |RdxSort(BoolCodec(), s).value| ==>
      (RdxSort(BoolCodec(), s).value[i] ==> RdxSort(BoolCodec(), s).value[j])
  {
    BoolShape();
    ValidSucceeds(BoolCodec(), s);
    RdxSortSorted(BoolCodec(), s);
    var v := RdxSort(BoolCodec(), s).value;
    forall i, j | 0 <= i < j < |v|
      ensures v[i] ==> v[j]
    {
      BoolOrder(v[i], v[j]);
      assert KeyCmp(BoolCodec(), v[i], v[j]) != Greater;
    }
  }
}
