/**
  What an `RdxTree` holds.  Every stored value sits on the path of its
  digits, so the values come out of the slots in strictly ascending key
  order; inserting x keeps every stored value whose key differs from x's,
  drops the one whose key equals it (x overwrites it) and adds x.
 */
module TrieTheory {
  import opened Codec
  import opened Trie
  import opened Arith

  // ---------------------------------------------------------------- slots

  /** The values of a run of slots split at any slot in between. */
  lemma {:induction false} SlotsSplit<T>(n: Node<T>, lo: nat, mid: nat, hi: nat)
    requires n.Inner? && lo <= mid <= hi <= |n.children|
    ensures Slots(n, lo, hi) == Slots(n, lo, mid) + Slots(n, mid, hi)
    decreases hi
  {
    if hi > mid {
      SlotsSplit(n, lo, mid, hi - 1);
    }
  }

  /** A value is in a run of slots exactly when it is in one of them. */
  lemma {:induction false} SlotsIn<T>(n: Node<T>, lo: nat, hi: nat, v: T)
    requires n.Inner? && hi <= |n.children|
    ensures v in Slots(n, lo, hi) <==> exists j :: lo <= j < hi && v in Elements(n.children[j])
    decreases hi
  {
    if hi > lo {
      SlotsIn(n, lo, hi - 1, v);
    }
  }

  /** Runs of equal slots hold the same values. */
  lemma {:induction false} SlotsSame<T>(n: Node<T>, m: Node<T>, lo: nat, hi: nat)
    requires n.Inner? && m.Inner? && hi <= |n.children| && hi <= |m.children|
    requires forall j :: lo <= j < hi ==> n.children[j] == m.children[j]
    ensures Slots(n, lo, hi) == Slots(m, lo, hi)
    decreases hi
  {
    if hi > lo {
      SlotsSame(n, m, lo, hi - 1);
    }
  }

  /** The values of an inner node: those of the slots before b, of slot b, and of the slots after it. */
  lemma SlotsAround<T>(n: Node<T>, b: nat)
    requires n.Inner? && b < |n.children|
    ensures Elements(n) == Slots(n, 0, b) + Elements(n.children[b]) + Slots(n, b + 1, |n.children|)
  {
    SlotsSplit(n, 0, b, |n.children|);
    SlotsSplit(n, b, b + 1, |n.children|);
  }

  /** Replacing slot b changes only the middle part of the values. */
  lemma SlotsReplace<T>(n: Node<T>, b: nat, sub: Node<T>)
    requires n.Inner? && b < |n.children|
    ensures Elements(Inner(n.round, n.children[b := sub]))
         == Slots(n, 0, b) + Elements(sub) + Slots(n, b + 1, |n.children|)
  {
    var m := Inner(n.round, n.children[b := sub]);
    SlotsAround(m, b);
    SlotsSame(n, m, 0, b);
    SlotsSame(n, m, b + 1, |n.children|);
  }

  /** In a node with valid paths, every value of slot j has j as its digit of the round below the node's. */
  lemma SlotDigit<T>(c: Codec<T>, n: Node<T>, lo: nat, hi: nat, v: T)
    requires n.Inner? && n.round >= 1 && Paths(c, n) && hi <= |n.children|
    requires v in Slots(n, lo, hi)
    ensures lo <= c.digit(v, n.round - 1) < hi
  {
    SlotsIn(n, lo, hi, v);
  }

  // ---------------------------------------------------------------- what an insertion keeps

  /**
    The values of s whose digits below round r are not all x's (they do not
    compare Equal to x): those an insertion of x keeps.
   */
  ghost function Keep<T>(c: Codec<T>, s: seq<T>, x: T, r: nat): seq<T>
    decreases |s|
  {
    if |s| == 0 then []
    else
      var v := s[|s| - 1];
      Keep(c, s[..|s| - 1], x, r) + (if CmpBelow(c, v, x, r) == Equal then [] else [v])
  }

  /** A value is kept exactly when it is in s and its key differs from x's. */
  lemma {:induction false} KeepIn<T>(c: Codec<T>, s: seq<T>, x: T, r: nat, v: T)
    ensures v in Keep(c, s, x, r) <==> v in s && !AgreeBelow(c, v, x, r)
    decreases |s|
  {
    if |s| > 0 {
      var init := s[..|s| - 1];
      KeepIn(c, init, x, r, v);
      CmpBelowEqual(c, s[|s| - 1], x, r);
      assert s == init + [s[|s| - 1]];
    }
  }

  lemma {:induction false} KeepConcat<T>(c: Codec<T>, a: seq<T>, b: seq<T>, x: T, r: nat)
    ensures Keep(c, a + b, x, r) == Keep(c, a, x, r) + Keep(c, b, x, r)
    decreases |b|
  {
    if |b| > 0 {
      var init := b[..|b| - 1];
      assert (a + b)[..|a + b| - 1] == a + init;
      assert (a + b)[|a + b| - 1] == b[|b| - 1];
      KeepConcat(c, a, init, x, r);
    } else {
      assert a + b == a;
    }
  }

  /** When no value of s shares x's key, all of s is kept. */
  lemma {:induction false} KeepAll<T>(c: Codec<T>, s: seq<T>, x: T, r: nat)
    requires forall v :: v in s ==> !AgreeBelow(c, v, x, r)
    ensures Keep(c, s, x, r) == s
    decreases |s|
  {
    if |s| > 0 {
      var init, v := s[..|s| - 1], s[|s| - 1];
      assert Keep(c, init, x, r) == init by {
        assert forall w :: w in init ==> w in s;
        KeepAll(c, init, x, r);
      }
      assert CmpBelow(c, v, x, r) != Equal by {
        assert v in s;
        CmpBelowEqual(c, v, x, r);
      }
      assert init + [v] == s;
    }
  }

  /** When every value of s shares x's key, nothing is kept. */
  lemma {:induction false} KeepNone<T>(c: Codec<T>, s: seq<T>, x: T, r: nat)
    requires forall v :: v in s ==> AgreeBelow(c, v, x, r)
    ensures Keep(c, s, x, r) == []
    decreases |s|
  {
    if |s| > 0 {
      var init := s[..|s| - 1];
      assert forall v :: v in init ==> v in s;
      KeepNone(c, init, x, r);
      CmpBelowEqual(c, s[|s| - 1], x, r);
    }
  }

  /** Rounds lo .. r-1 on which every value of s agrees with x do not decide what is kept. */
  lemma {:induction false} KeepLower<T>(c: Codec<T>, s: seq<T>, x: T, lo: nat, r: nat)
    requires lo <= r
    requires forall v, k :: v in s && lo <= k < r ==> c.digit(v, k) == c.digit(x, k)
    ensures Keep(c, s, x, r) == Keep(c, s, x, lo)
    decreases |s|
  {
    if |s| > 0 {
      var init := s[..|s| - 1];
      var v := s[|s| - 1];
      assert forall w :: w in init ==> w in s;
      KeepLower(c, init, x, lo, r);
      CmpBelowEqual(c, v, x, r);
      CmpBelowEqual(c, v, x, lo);
      assert AgreeBelow(c, v, x, r) <==> AgreeBelow(c, v, x, lo) by {
        if AgreeBelow(c, v, x, lo) {
          forall k | 0 <= k < r
            ensures c.digit(v, k) == c.digit(x, k)
          {
            if k >= lo {
              assert v in s;
            }
          }
        }
      }
    }
  }

  /**
    The effect of inserting x into `before` (a node of round r) with result
    `after`: the paths stay valid, and the values are those of `before` whose
    key differs from x's, plus x.
   */
  ghost predicate Inserted<T>(c: Codec<T>, before: Node<T>, after: Node<T>, x: T, r: nat) {
    && Paths(c, after)
    && multiset(Elements(after)) == multiset(Keep(c, Elements(before), x, r)) + multiset{x}
  }

  /** Replacing the slot x's digit selects by the result of inserting x into it is inserting x into the node. */
  lemma InnerStep<T>(c: Codec<T>, n: Node<T>, b: nat, sub: Node<T>, x: T)
    requires n.Inner? && n.round >= 1 && Paths(c, n) && b < |n.children|
    requires c.digit(x, n.round - 1) == b
    requires Inserted(c, n.children[b], sub, x, n.round - 1)
    ensures Inserted(c, n, Inner(n.round, n.children[b := sub]), x, n.round)
  {
    InnerStepPaths(c, n, b, sub, x);
    InnerStepElements(c, n, b, sub, x);
  }

  lemma InnerStepPaths<T>(c: Codec<T>, n: Node<T>, b: nat, sub: Node<T>, x: T)
    requires n.Inner? && n.round >= 1 && Paths(c, n) && b < |n.children|
    requires c.digit(x, n.round - 1) == b
    requires Inserted(c, n.children[b], sub, x, n.round - 1)
    ensures Paths(c, Inner(n.round, n.children[b := sub]))
  {
    var r := n.round;
    var ch := n.children[b := sub];
    assert forall v :: v in Elements(sub) ==> c.digit(v, r - 1) == b by {
      assert forall v :: v in Elements(n.children[b]) ==> c.digit(v, r - 1) == b;
      SubDigits(c, Elements(n.children[b]), sub, x, r - 1);
    }
    forall i | 0 <= i < |ch|
      ensures Paths(c, ch[i]) && forall v :: v in Elements(ch[i]) ==> c.digit(v, r - 1) == i
    {
      if i != b {
        assert ch[i] == n.children[i];
      }
    }
  }

  /** Inserting x into a slot whose values all have x's digit of round k leaves only values with that digit. */
  lemma SubDigits<T>(c: Codec<T>, mid: seq<T>, sub: Node<T>, x: T, k: nat)
    requires forall v :: v in mid ==> c.digit(v, k) == c.digit(x, k)
    requires multiset(Elements(sub)) == multiset(Keep(c, mid, x, k)) + multiset{x}
    ensures forall v :: v in Elements(sub) ==> c.digit(v, k) == c.digit(x, k)
  {
    forall v | v in Elements(sub)
      ensures c.digit(v, k) == c.digit(x, k)
    {
      assert v in multiset(Elements(sub));
      if v != x {
        KeepIn(c, mid, x, k, v);
      }
    }
  }

  lemma InnerStepElements<T>(c: Codec<T>, n: Node<T>, b: nat, sub: Node<T>, x: T)
    requires n.Inner? && n.round >= 1 && Paths(c, n) && b < |n.children|
    requires c.digit(x, n.round - 1) == b
    requires multiset(Elements(sub)) == multiset(Keep(c, Elements(n.children[b]), x, n.round - 1)) + multiset{x}
    ensures multiset(Elements(Inner(n.round, n.children[b := sub])))
         == multiset(Keep(c, Elements(n), x, n.round)) + multiset{x}
  {
    var r := n.round;
    var ch := n.children;
    var before, after := Slots(n, 0, b), Slots(n, b + 1, |ch|);
    var kept := Keep(c, Elements(ch[b]), x, r - 1);
    assert Elements(Inner(r, ch[b := sub])) == before + Elements(sub) + after by {
      SlotsReplace(n, b, sub);
    }
    assert Keep(c, Elements(n), x, r) == before + kept + after by {
      KeepAround(c, n, b, x);
    }
    assert multiset(Elements(sub)) == multiset(kept) + multiset{x};
    MultisetMiddle(Elements(Inner(r, ch[b := sub])), Keep(c, Elements(n), x, r), before, Elements(sub), kept, after, x);
  }

  /** Swapping a middle piece for one with x added adds x to the whole. */
  lemma MultisetMiddle<T>(e: seq<T>, f: seq<T>, a: seq<T>, s: seq<T>, k: seq<T>, z: seq<T>, x: T)
    requires e == a + s + z && f == a + k + z
    requires multiset(s) == multiset(k) + multiset{x}
    ensures multiset(e) == multiset(f) + multiset{x}
  {
  }

  /** Inserting x into an inner node can only drop values of the slot x's digit selects. */
  lemma KeepAround<T>(c: Codec<T>, n: Node<T>, b: nat, x: T)
    requires n.Inner? && n.round >= 1 && Paths(c, n) && b < |n.children|
    requires c.digit(x, n.round - 1) == b
    ensures Keep(c, Elements(n), x, n.round)
         == Slots(n, 0, b) + Keep(c, Elements(n.children[b]), x, n.round - 1) + Slots(n, b + 1, |n.children|)
  {
    var r := n.round;
    var ch := n.children;
    var before, mid, after := Slots(n, 0, b), Elements(ch[b]), Slots(n, b + 1, |ch|);
    SlotsAround(n, b);
    KeepSlotsAll(c, n, 0, b, x);
    KeepSlotsAll(c, n, b + 1, |ch|, x);
    assert Keep(c, mid, x, r) == Keep(c, mid, x, r - 1) by {
      SlotAgree(c, n, b, x);
      KeepLower(c, mid, x, r - 1, r);
    }
    KeepPieces(c, Elements(n), before, mid, after, x, r);
  }

  /** Keep over a sequence cut in three pieces, the outer two kept whole. */
  lemma KeepPieces<T>(c: Codec<T>, e: seq<T>, before: seq<T>, mid: seq<T>, after: seq<T>, x: T, r: nat)
    requires r >= 1 && e == before + mid + after
    requires Keep(c, before, x, r) == before && Keep(c, after, x, r) == after
    requires Keep(c, mid, x, r) == Keep(c, mid, x, r - 1)
    ensures Keep(c, e, x, r) == before + Keep(c, mid, x, r - 1) + after
  {
    KeepConcat3(c, before, mid, after, x, r);
  }

  /** Slots lo .. hi-1 of a node with valid paths, none of them x's, are kept whole. */
  lemma KeepSlotsAll<T>(c: Codec<T>, n: Node<T>, lo: nat, hi: nat, x: T)
    requires n.Inner? && n.round >= 1 && Paths(c, n) && hi <= |n.children|
    requires !(lo <= c.digit(x, n.round - 1) < hi)
    ensures Keep(c, Slots(n, lo, hi), x, n.round) == Slots(n, lo, hi)
  {
    forall v | v in Slots(n, lo, hi)
      ensures !AgreeBelow(c, v, x, n.round)
    {
      SlotDigit(c, n, lo, hi, v);
    }
    KeepAll(c, Slots(n, lo, hi), x, n.round);
  }

  lemma KeepConcat3<T>(c: Codec<T>, a: seq<T>, b: seq<T>, z: seq<T>, x: T, r: nat)
    ensures Keep(c, a + b + z, x, r) == Keep(c, a, x, r) + Keep(c, b, x, r) + Keep(c, z, x, r)
  {
    KeepConcat(c, a + b, z, x, r);
    KeepConcat(c, a, b, x, r);
  }

  lemma SlotAgree<T>(c: Codec<T>, n: Node<T>, b: nat, x: T)
    requires n.Inner? && n.round >= 1 && Paths(c, n) && b < |n.children|
    requires c.digit(x, n.round - 1) == b
    ensures forall v, k :: v in Elements(n.children[b]) && n.round - 1 <= k < n.round ==> c.digit(v, k) == c.digit(x, k)
  {
  }

  // ---------------------------------------------------------------- insertion

  /** Inserting into an inner node keeps the paths valid and replaces the value of x's key by x. */
  lemma InsertInnerFacts<T>(c: Codec<T>, n: Node<T>, x: T)
    requires n.Inner? && Shape(c, n, n.round) && n.round <= c.nrounds
    requires DigitsOk(c, x) && Paths(c, n)
    ensures Inserted(c, n, InsertInner(c, n, x), x, n.round)
    decreases n.round, 1
  {
    var b := c.digit(x, n.round - 1);
    InnerSlot(c, n, b);
    var slot := n.children[b];
    if n.round == 1 {
      InsertBottom(c, n, x, b);
    } else if slot.Free? {
      InsertFree(c, n, x, b);
    } else if slot.Inner? {
      InsertDeeper(c, n, x, b);
    } else {
      InsertPruned(c, n, x, b);
    }
  }

  /** The slot x's digit selects in a shaped inner node, as `InsertInner` reads it. */
  ghost predicate SlotOf<T>(c: Codec<T>, n: Node<T>, x: T, b: nat) {
    && n.Inner? && Shape(c, n, n.round) && n.round <= c.nrounds && n.round >= 1
    && DigitsOk(c, x) && Paths(c, n)
    && b == c.digit(x, n.round - 1) && b < |n.children|
    && Shape(c, n.children[b], n.round - 1)
  }

  /** At round 1 the slot becomes the value x. */
  lemma InsertBottom<T>(c: Codec<T>, n: Node<T>, x: T, b: nat)
    requires SlotOf(c, n, x, b) && n.round == 1
    ensures Inserted(c, n, InsertInner(c, n, x), x, n.round)
  {
    assert InsertInner(c, n, x) == Inner(n.round, n.children[b := Child(x)]);
    assert Inserted(c, n.children[b], Child(x), x, 0) by {
      KeepNone(c, Elements(n.children[b]), x, 0);
    }
    InnerStep(c, n, b, Child(x), x);
  }

  /** A free slot above round 1 receives a fresh pruned path to x. */
  lemma InsertFree<T>(c: Codec<T>, n: Node<T>, x: T, b: nat)
    requires SlotOf(c, n, x, b) && n.round > 1 && n.children[b].Free?
    ensures Inserted(c, n, InsertInner(c, n, x), x, n.round)
  {
    var sub := NewPruned(c, n.round - 1, |n.children|, x);
    assert InsertInner(c, n, x) == Inner(n.round, n.children[b := sub]);
    InnerStep(c, n, b, sub, x);
  }

  /** An inner slot receives x recursively. */
  lemma InsertDeeper<T>(c: Codec<T>, n: Node<T>, x: T, b: nat)
    requires SlotOf(c, n, x, b) && n.round > 1 && n.children[b].Inner?
    ensures Inserted(c, n, InsertInner(c, n, x), x, n.round)
    decreases n.round, 0
  {
    var slot := n.children[b];
    var sub := InsertInner(c, slot, x);
    assert InsertInner(c, n, x) == Inner(n.round, n.children[b := sub]);
    assert Inserted(c, slot, sub, x, n.round - 1) by {
      assert slot.round == n.round - 1 && Paths(c, slot);
      InsertInnerFacts(c, slot, x);
    }
    InnerStep(c, n, b, sub, x);
  }

  /** A pruned slot is followed or split. */
  lemma InsertPruned<T>(c: Codec<T>, n: Node<T>, x: T, b: nat)
    requires SlotOf(c, n, x, b) && n.round > 1 && n.children[b].Pruned?
    ensures Inserted(c, n, InsertInner(c, n, x), x, n.round)
    decreases n.round, 0
  {
    var slot := n.children[b];
    var sub := InsertOrSplit(c, slot, x);
    assert InsertInner(c, n, x) == Inner(n.round, n.children[b := sub]);
    assert Inserted(c, slot, sub, x, n.round - 1) by {
      assert slot.round == n.round - 1 && Paths(c, slot);
      InsertOrSplitFacts(c, slot, x);
    }
    InnerStep(c, n, b, sub, x);
  }

  /**
    Inserting into a pruned node keeps the paths valid and replaces the
    value of x's key by x, whether the path is split or followed.
   */
  lemma InsertOrSplitFacts<T>(c: Codec<T>, p: Node<T>, x: T)
    requires p.Pruned? && Shape(c, p, p.round) && p.round < c.nrounds
    requires DigitsOk(c, x) && Paths(c, p)
    ensures Inserted(c, p, InsertOrSplit(c, p, x), x, p.round)
    decreases p.round, 5
  {
    PrunedChild(c, p);
    var i := FirstDiff(c, p.buckets, p.round, x, 0);
    if i < |p.buckets| {
      SplitInsertFacts(c, p, x, i);
    } else if p.child.Inner? {
      FollowInsertFacts(c, p, x);
    } else {
      PathAgree(c, p, x);
      KeepNone(c, Elements(p.child), x, p.round);
    }
  }

  /** When x follows the whole stored path, every stored value agrees with x on the rounds the path covers. */
  lemma PathAgree<T>(c: Codec<T>, p: Node<T>, x: T)
    requires p.Pruned? && |p.buckets| <= p.round && Paths(c, p)
    requires FirstDiff(c, p.buckets, p.round, x, 0) == |p.buckets|
    ensures forall v, k :: v in Elements(p.child) && p.round - |p.buckets| <= k < p.round ==> c.digit(v, k) == c.digit(x, k)
  {
    var r, bs := p.round, p.buckets;
    forall v, k | v in Elements(p.child) && r - |bs| <= k < r
      ensures c.digit(v, k) == c.digit(x, k)
    {
      assert c.digit(v, r - 1 - (r - 1 - k)) == bs[r - 1 - k];
    }
  }

  /** Following the whole path into the child inner node. */
  lemma FollowInsertFacts<T>(c: Codec<T>, p: Node<T>, x: T)
    requires p.Pruned? && Shape(c, p, p.round) && p.round < c.nrounds
    requires DigitsOk(c, x) && Paths(c, p) && p.child.Inner?
    requires FirstDiff(c, p.buckets, p.round, x, 0) == |p.buckets|
    ensures Inserted(c, p, InsertOrSplit(c, p, x), x, p.round)
    decreases p.round, 2
  {
    PrunedChild(c, p);
    InsertInnerFacts(c, p.child, x);
    FollowResult(c, p, x);
    FollowConclude(c, p, x, p.child.round, InsertInner(c, p.child, x));
  }

  /** When x follows the whole path into a child inner node, only that child changes. */
  lemma FollowResult<T>(c: Codec<T>, p: Node<T>, x: T)
    requires p.Pruned? && Shape(c, p, p.round) && p.round < c.nrounds
    requires DigitsOk(c, x) && p.child.Inner?
    requires FirstDiff(c, p.buckets, p.round, x, 0) == |p.buckets|
    ensures p.child.round <= c.nrounds && Shape(c, p.child, p.child.round)
    ensures InsertOrSplit(c, p, x) == Pruned(p.round, p.nbuckets, p.buckets, InsertInner(c, p.child, x))
  {
    PrunedChild(c, p);
  }

  /** The path above a child into which x was inserted stays valid, and the insertion's effect carries up. */
  lemma FollowConclude<T>(c: Codec<T>, p: Node<T>, x: T, lo: nat, sub: Node<T>)
    requires p.Pruned? && Paths(c, p) && |p.buckets| <= p.round && lo == p.round - |p.buckets|
    requires FirstDiff(c, p.buckets, p.round, x, 0) == |p.buckets|
    requires Inserted(c, p.child, sub, x, lo)
    ensures Inserted(c, p, Pruned(p.round, p.nbuckets, p.buckets, sub), x, p.round)
  {
    var r, bs := p.round, p.buckets;
    PathAgree(c, p, x);
    KeepLower(c, Elements(p.child), x, lo, r);
    InsertedMembers(c, p.child, sub, x, lo);
    PathAbove(c, p, x, |bs|, sub);
    assert bs[..|bs|] == bs;
  }

  /** Splitting the path at the first digit where x parts from it. */
  lemma SplitInsertFacts<T>(c: Codec<T>, p: Node<T>, x: T, i: nat)
    requires p.Pruned? && Shape(c, p, p.round) && p.round < c.nrounds
    requires DigitsOk(c, x) && Paths(c, p)
    requires i == FirstDiff(c, p.buckets, p.round, x, 0) && i < |p.buckets|
    ensures Inserted(c, p, InsertOrSplit(c, p, x), x, p.round)
    decreases p.round, 4
  {
    SplitPieces(c, p, x, i);
  }

  lemma SplitPieces<T>(c: Codec<T>, p: Node<T>, x: T, i: nat)
    requires p.Pruned? && Shape(c, p, p.round) && p.round < c.nrounds
    requires DigitsOk(c, x) && Paths(c, p)
    requires i == FirstDiff(c, p.buckets, p.round, x, 0) && i < |p.buckets|
    ensures var joined := InsertInner(c, SplitNode(c, p, i), x);
            Inserted(c, p, if i == 0 then joined else Pruned(p.round, p.nbuckets, p.buckets[..i], joined), x, p.round)
    decreases p.round, 3
  {
    var split := SplitNode(c, p, i);
    SplitJoinedFacts(c, p, x, i);
    SplitDisagree(c, p, x, i, split.round);
    SplitConclude(c, p, x, i, split.round, split, InsertInner(c, split, x));
  }

  /** Inserting x into the split inner node, which holds the old child's values. */
  lemma SplitJoinedFacts<T>(c: Codec<T>, p: Node<T>, x: T, i: nat)
    requires p.Pruned? && Shape(c, p, p.round) && p.round < c.nrounds
    requires DigitsOk(c, x) && Paths(c, p) && i < |p.buckets|
    ensures Elements(SplitNode(c, p, i)) == Elements(p.child)
    ensures Inserted(c, SplitNode(c, p, i), InsertInner(c, SplitNode(c, p, i), x), x, SplitNode(c, p, i).round)
    decreases p.round, 2
  {
    SplitNodeFacts(c, p, i);
    InsertInnerFacts(c, SplitNode(c, p, i), x);
  }

  lemma SplitConclude<T>(c: Codec<T>, p: Node<T>, x: T, i: nat, lo: nat, split: Node<T>, joined: Node<T>)
    requires p.Pruned? && Paths(c, p) && i < |p.buckets| <= p.round && lo + i == p.round
    requires forall j :: 0 <= j < i ==> p.buckets[j] == c.digit(x, p.round - 1 - j)
    requires Elements(split) == Elements(p.child)
    requires Keep(c, Elements(p.child), x, p.round) == Elements(p.child)
    requires Keep(c, Elements(p.child), x, lo) == Elements(p.child)
    requires Inserted(c, split, joined, x, lo)
    ensures Inserted(c, p, if i == 0 then joined else Pruned(p.round, p.nbuckets, p.buckets[..i], joined), x, p.round)
  {
    var m := if i == 0 then joined else Pruned(p.round, p.nbuckets, p.buckets[..i], joined);
    assert multiset(Elements(m)) == multiset(Keep(c, Elements(p), x, p.round)) + multiset{x} by {
      assert Elements(m) == Elements(joined);
      assert Elements(p) == Elements(p.child);
    }
    assert Paths(c, m) by {
      if i > 0 {
        SplitPathAbove(c, p, x, i, lo, split, joined);
      }
    }
  }

  /** The digits kept above a split remain a valid path above the new inner node. */
  lemma SplitPathAbove<T>(c: Codec<T>, p: Node<T>, x: T, i: nat, lo: nat, split: Node<T>, joined: Node<T>)
    requires p.Pruned? && Paths(c, p) && i < |p.buckets| <= p.round
    requires forall j :: 0 <= j < i ==> p.buckets[j] == c.digit(x, p.round - 1 - j)
    requires Elements(split) == Elements(p.child)
    requires Inserted(c, split, joined, x, lo)
    ensures Paths(c, Pruned(p.round, p.nbuckets, p.buckets[..i], joined))
  {
    assert forall v :: v in Elements(joined) ==> v == x || v in Elements(p.child) by {
      InsertedMembers(c, split, joined, x, lo);
    }
    PathAbove(c, p, x, i, joined);
  }

  /** The values an insertion leaves: x, or a value that was there. */
  lemma InsertedMembers<T>(c: Codec<T>, before: Node<T>, after: Node<T>, x: T, r: nat)
    requires Inserted(c, before, after, x, r)
    ensures forall v :: v in Elements(after) ==> v == x || v in Elements(before)
  {
    forall v | v in Elements(after)
      ensures v == x || v in Elements(before)
    {
      assert v in multiset(Elements(after));
      if v != x {
        KeepIn(c, Elements(before), x, r, v);
      }
    }
  }

  /** No stored value below the split point shares x's key, at the node's round or the split node's: all are kept. */
  lemma SplitDisagree<T>(c: Codec<T>, p: Node<T>, x: T, i: nat, lo: nat)
    requires p.Pruned? && Paths(c, p) && i < |p.buckets| <= p.round && lo + i == p.round
    requires p.buckets[i] != c.digit(x, p.round - 1 - i)
    ensures Keep(c, Elements(p.child), x, p.round) == Elements(p.child)
    ensures Keep(c, Elements(p.child), x, lo) == Elements(p.child)
  {
    forall v | v in Elements(p.child)
      ensures !AgreeBelow(c, v, x, p.round) && !AgreeBelow(c, v, x, lo)
    {
      assert c.digit(v, p.round - 1 - i) != c.digit(x, p.round - 1 - i);
    }
    KeepAll(c, Elements(p.child), x, p.round);
    KeepAll(c, Elements(p.child), x, lo);
  }

  /**
    The first k stored digits of a pruned node, which x follows, remain a
    valid path above a new child whose values are x and values of the old child.
   */
  lemma PathAbove<T>(c: Codec<T>, p: Node<T>, x: T, k: nat, sub: Node<T>)
    requires p.Pruned? && Paths(c, p) && k <= |p.buckets| <= p.round
    requires forall j :: 0 <= j < k ==> p.buckets[j] == c.digit(x, p.round - 1 - j)
    requires Paths(c, sub)
    requires forall v :: v in Elements(sub) ==> v == x || v in Elements(p.child)
    ensures Paths(c, Pruned(p.round, p.nbuckets, p.buckets[..k], sub))
  {
    var r, bs := p.round, p.buckets;
    var top := bs[..k];
    forall v, j | v in Elements(sub) && 0 <= j < |top| && j < r
      ensures c.digit(v, r - 1 - j) == top[j]
    {
      if v != x {
        PrunedDigit(c, p, v, j);
      }
    }
    PrunedPaths(c, r, p.nbuckets, top, sub);
  }

  /** A value below a pruned node with valid paths has the stored digits. */
  lemma PrunedDigit<T>(c: Codec<T>, p: Node<T>, v: T, j: nat)
    requires p.Pruned? && Paths(c, p) && v in Elements(p.child) && j < |p.buckets| && j < p.round
    ensures c.digit(v, p.round - 1 - j) == p.buckets[j]
  {
  }

  /** A pruned node has valid paths when its child does and the child's values have the stored digits. */
  lemma PrunedPaths<T>(c: Codec<T>, r: nat, nb: nat, bs: seq<nat>, sub: Node<T>)
    requires Paths(c, sub)
    requires forall v, j :: v in Elements(sub) && 0 <= j < |bs| && j < r ==> c.digit(v, r - 1 - j) == bs[j]
    ensures Paths(c, Pruned(r, nb, bs, sub))
  {
  }

  /** The inner node built at a split holds the old child's values, on valid paths. */
  lemma SplitNodeFacts<T>(c: Codec<T>, p: Node<T>, i: nat)
    requires p.Pruned? && Shape(c, p, p.round) && Paths(c, p) && i < |p.buckets|
    ensures Elements(SplitNode(c, p, i)) == Elements(p.child)
    ensures Paths(c, SplitNode(c, p, i))
  {
    PrunedChild(c, p);
    var r := p.round;
    var bs := p.buckets;
    var split := SplitNode(c, p, i);
    var slot := SplitTail(p, i);
    SlotsAround(split, bs[i]);
    SlotsFree(split, 0, bs[i]);
    SlotsFree(split, bs[i] + 1, |split.children|);
    assert Paths(c, slot) by {
      if i + 1 < |bs| {
        var tail := bs[i + 1..];
        forall v, j | v in Elements(p.child) && 0 <= j < |tail| && j < r - i - 1
          ensures c.digit(v, r - i - 1 - 1 - j) == tail[j]
        {
          assert c.digit(v, r - 1 - (i + 1 + j)) == bs[i + 1 + j];
        }
      }
    }
    forall b | 0 <= b < |split.children|
      ensures Paths(c, split.children[b])
      ensures forall v :: v in Elements(split.children[b]) ==> c.digit(v, split.round - 1) == b
    {
      if b == bs[i] {
        forall v | v in Elements(split.children[b])
          ensures c.digit(v, r - i - 1) == bs[i]
        {
          assert v in Elements(p.child);
        }
      }
    }
  }

  // ---------------------------------------------------------------- order

  /** Strictly ascending by the digits of rounds r-1 down to 0. */
  ghost predicate Ascending<T>(c: Codec<T>, s: seq<T>, r: nat) {
    forall i, j :: 0 <= i < j < |s| ==> CmpBelow(c, s[i], s[j], r) == Less
  }

  lemma AscendingConcat<T>(c: Codec<T>, a: seq<T>, b: seq<T>, r: nat)
    requires Ascending(c, a, r) && Ascending(c, b, r)
    requires forall v, w :: v in a && w in b ==> CmpBelow(c, v, w, r) == Less
    ensures Ascending(c, a + b, r)
  {
    var s := a + b;
    forall i, j | 0 <= i < j < |s|
      ensures CmpBelow(c, s[i], s[j], r) == Less
    {
      if j < |a| {
        assert s[i] == a[i] && s[j] == a[j];
      } else if i >= |a| {
        assert s[i] == b[i - |a|] && s[j] == b[j - |a|];
      } else {
        assert s[i] in a && s[j] in b;
      }
    }
  }

  /** A strictly ascending sequence without its first value. */
  lemma AscendingTail<T>(c: Codec<T>, s: seq<T>, r: nat)
    requires |s| > 0 && Ascending(c, s, r)
    ensures Ascending(c, s[1..], r)
    ensures s[0] !in s[1..]
  {
    var t := s[1..];
    forall i, j | 0 <= i < j < |t|
      ensures CmpBelow(c, t[i], t[j], r) == Less
    {
      assert t[i] == s[i + 1] && t[j] == s[j + 1];
    }
    CmpBelowEqual(c, s[0], s[0], r);
  }

  /** Two strictly ascending sequences with the same values are the same sequence. */
  lemma {:induction false} AscendingUnique<T>(c: Codec<T>, xs: seq<T>, ys: seq<T>, r: nat)
    requires Ascending(c, xs, r) && Ascending(c, ys, r)
    requires forall v :: v in xs <==> v in ys
    ensures xs == ys
    decreases |xs|
  {
    SameValuesEmpty(xs, ys);
    if |xs| > 0 {
      var x, y := xs[0], ys[0];
      if x != y {
        assert x in ys && y in xs;
        var j :| 0 <= j < |ys| && ys[j] == x;
        var i :| 0 <= i < |xs| && xs[i] == y;
        assert CmpBelow(c, y, x, r) == Less && CmpBelow(c, x, y, r) == Less;
        CmpBelowFlip(c, x, y, r);
      }
      AscendingTail(c, xs, r);
      AscendingTail(c, ys, r);
      assert xs == [x] + xs[1..] && ys == [y] + ys[1..];
      forall v
        ensures v in xs[1..] <==> v in ys[1..]
      {
        assert v in xs <==> v == x || v in xs[1..];
        assert v in ys <==> v == y || v in ys[1..];
      }
      AscendingUnique(c, xs[1..], ys[1..], r);
    }
  }

  /** Sequences with the same values are both empty or both not. */
  lemma SameValuesEmpty<T>(xs: seq<T>, ys: seq<T>)
    requires forall v :: v in xs <==> v in ys
    ensures |xs| == 0 <==> |ys| == 0
  {
    if |xs| > 0 {
      assert xs[0] in ys;
    }
    if |ys| > 0 {
      assert ys[0] in xs;
    }
  }

  /**
    The values of a node with valid paths, shaped for round r, are strictly
    ascending by their digits below r.
   */
  lemma ElementsAscending<T>(c: Codec<T>, n: Node<T>, r: nat)
    requires Shape(c, n, r) && Paths(c, n)
    ensures Ascending(c, Elements(n), r)
    decreases n, 1
  {
    match n
    case Free =>
    case Child(_) =>
    case Inner(_, ch) =>
      SlotsAscending(c, n, |ch|);
    case Pruned(_, _, bs, child) =>
      PrunedChild(c, n);
      if child.Inner? {
        var lo := r - |bs|;
        ElementsAscending(c, child, lo);
        var s := Elements(child);
        forall i, j | 0 <= i < j < |s|
          ensures CmpBelow(c, s[i], s[j], r) == Less
        {
          assert s[i] in Elements(child) && s[j] in Elements(child);
          forall k | lo <= k < r
            ensures c.digit(s[i], k) == c.digit(s[j], k)
          {
            assert c.digit(s[i], r - 1 - (r - 1 - k)) == bs[r - 1 - k];
            assert c.digit(s[j], r - 1 - (r - 1 - k)) == bs[r - 1 - k];
          }
          CmpBelowSkip(c, s[i], s[j], lo, r);
        }
      }
  }

  /** The values of slots 0 .. hi-1 of a node with valid paths are strictly ascending below its round. */
  lemma SlotsAscending<T>(c: Codec<T>, n: Node<T>, hi: nat)
    requires n.Inner? && Shape(c, n, n.round) && Paths(c, n) && hi <= |n.children|
    ensures Ascending(c, Slots(n, 0, hi), n.round)
    decreases n, 0, hi
  {
    if hi > 0 {
      var r := n.round;
      var a := Slots(n, 0, hi - 1);
      var sub := n.children[hi - 1];
      var b := Elements(sub);
      SlotsAscending(c, n, hi - 1);
      InnerSlot(c, n, hi - 1);
      ElementsAscending(c, sub, r - 1);
      assert Ascending(c, b, r) by {
        forall i, j | 0 <= i < j < |b|
          ensures CmpBelow(c, b[i], b[j], r) == Less
        {
          assert b[i] in b && b[j] in b;
        }
      }
      forall v, w | v in a && w in b
        ensures CmpBelow(c, v, w, r) == Less
      {
        SlotDigit(c, n, 0, hi - 1, v);
      }
      AscendingConcat(c, a, b, r);
    }
  }

  // ---------------------------------------------------------------- one insertion into a tree

  /** Some value of s shares x's digits below round r. */
  ghost predicate HasKey<T>(c: Codec<T>, s: seq<T>, x: T, r: nat) {
    exists v :: v in s && AgreeBelow(c, v, x, r)
  }

  /** In a strictly ascending sequence at most one value shares x's key, so Keep drops at most one. */
  lemma {:induction false} KeepLength<T>(c: Codec<T>, s: seq<T>, x: T, r: nat)
    requires Ascending(c, s, r)
    ensures |Keep(c, s, x, r)| == if HasKey(c, s, x, r) then |s| - 1 else |s|
    decreases |s|
  {
    if |s| > 0 {
      var init := s[..|s| - 1];
      var v := s[|s| - 1];
      assert Ascending(c, init, r) by {
        forall i, j | 0 <= i < j < |init|
          ensures CmpBelow(c, init[i], init[j], r) == Less
        {
          assert init[i] == s[i] && init[j] == s[j];
        }
      }
      KeepLength(c, init, x, r);
      CmpBelowEqual(c, v, x, r);
      assert s == init + [v];
      if AgreeBelow(c, v, x, r) {
        if HasKey(c, init, x, r) {
          var w :| w in init && AgreeBelow(c, w, x, r);
          var i :| 0 <= i < |init| && init[i] == w;
          assert s[i] == w;
          CmpBelowEqual(c, w, v, r);
          assert false;
        }
        assert HasKey(c, s, x, r);
      } else {
        assert HasKey(c, s, x, r) <==> HasKey(c, init, x, r);
      }
    }
  }

  /**
    `RdxTree::insert` on a tree with valid paths: x is stored, a stored value
    of x's key is dropped, every other value stays, and the number of values
    grows by one exactly when no stored value had x's key.
   */
  lemma TreeInsertFacts<T>(c: Codec<T>, t: Tree<T>, x: T)
    requires TreeShape(c, t) && c.nrounds >= 1 && DigitsOk(c, x) && Paths(c, t.root)
    ensures Paths(c, TreeInsert(c, t, x).root)
    ensures forall v :: v in Elements(TreeInsert(c, t, x).root) <==>
      v == x || (v in Elements(t.root) && !AgreeBelow(c, v, x, c.nrounds))
    ensures TreeNNodes(TreeInsert(c, t, x)).child ==
      TreeNNodes(t).child + (if HasKey(c, Elements(t.root), x, c.nrounds) then 0 else 1)
  {
    var u := TreeInsert(c, t, x);
    var before := Elements(t.root);
    InsertInnerFacts(c, t.root, x);
    forall v
      ensures v in Elements(u.root) <==> v == x || (v in before && !AgreeBelow(c, v, x, c.nrounds))
    {
      KeepIn(c, before, x, c.nrounds, v);
      assert v in Elements(u.root) <==> v in multiset(Elements(u.root));
      assert v in Keep(c, before, x, c.nrounds) <==> v in multiset(Keep(c, before, x, c.nrounds));
    }
    ElementsAscending(c, t.root, c.nrounds);
    KeepLength(c, before, x, c.nrounds);
    assert |multiset(Elements(u.root))| == |Elements(u.root)|;
    assert |multiset(Keep(c, before, x, c.nrounds))| == |Keep(c, before, x, c.nrounds)|;
    NNodesChild(t.root);
    NNodesChild(u.root);
  }

  // ---------------------------------------------------------------- built trees

  /** No later element of xs shares the key of xs[i]: the occurrence a tree built from xs keeps. */
  ghost predicate LastOfKey<T>(c: Codec<T>, xs: seq<T>, i: nat)
    requires i < |xs|
  {
    forall j :: i < j < |xs| ==> !AgreeBelow(c, xs[j], xs[i], c.nrounds)
  }

  /** v is the last occurrence in xs of its key. */
  ghost predicate Survivor<T>(c: Codec<T>, xs: seq<T>, v: T) {
    exists i :: 0 <= i < |xs| && xs[i] == v && LastOfKey(c, xs, i)
  }

  /**
    A tree built from xs holds exactly the last occurrence of each key of
    xs, with valid paths, in strictly ascending key order.
   */
  lemma {:induction false} BuildContents<T>(c: Codec<T>, xs: seq<T>)
    requires c.nrounds >= 1
    requires forall i :: 0 <= i < |xs| ==> DigitsOk(c, xs[i])
    ensures Paths(c, Build(c, xs).root)
    ensures forall v :: v in Elements(Build(c, xs).root) <==> Survivor(c, xs, v)
    ensures Ascending(c, Elements(Build(c, xs).root), c.nrounds)
    decreases |xs|
  {
    var t := Build(c, xs);
    if |xs| > 0 {
      var init := xs[..|xs| - 1];
      var x := xs[|xs| - 1];
      assert forall i :: 0 <= i < |init| ==> init[i] == xs[i];
      BuildContents(c, init);
      var before := Build(c, init).root;
      assert t.root == InsertInner(c, before, x);
      InsertInnerFacts(c, before, x);
      assert xs == init + [x];
      forall v
        ensures v in Elements(t.root) <==> Survivor(c, xs, v)
      {
        BuildStep(c, init, x, before, t.root, v);
      }
    }
    ElementsAscending(c, t.root, c.nrounds);
  }

  /** One insertion of the build: membership after it, in terms of the occurrences in init + [x]. */
  lemma BuildStep<T>(c: Codec<T>, init: seq<T>, x: T, before: Node<T>, after: Node<T>, v: T)
    requires forall w :: w in Elements(before) <==> Survivor(c, init, w)
    requires multiset(Elements(after)) == multiset(Keep(c, Elements(before), x, c.nrounds)) + multiset{x}
    ensures v in Elements(after) <==> Survivor(c, init + [x], v)
  {
    KeepIn(c, Elements(before), x, c.nrounds, v);
    assert v in Elements(after) <==> v in multiset(Elements(after));
    assert v in Keep(c, Elements(before), x, c.nrounds) <==> v in multiset(Keep(c, Elements(before), x, c.nrounds));
    assert v in Elements(after) <==> v == x || (Survivor(c, init, v) && !AgreeBelow(c, v, x, c.nrounds));
    SurvivorStep(c, init, x, v);
  }

  /** The last occurrences of init + [x]: x, and those of init whose key differs from x's. */
  lemma SurvivorStep<T>(c: Codec<T>, init: seq<T>, x: T, v: T)
    ensures Survivor(c, init + [x], v) <==> v == x || (Survivor(c, init, v) && !AgreeBelow(c, v, x, c.nrounds))
  {
    var xs := init + [x];
    var last := |init|;
    if v == x {
      assert xs[last] == v && LastOfKey(c, xs, last);
    } else if Survivor(c, init, v) && !AgreeBelow(c, v, x, c.nrounds) {
      var i :| 0 <= i < |init| && init[i] == v && LastOfKey(c, init, i);
      assert xs[i] == v;
      assert LastOfKey(c, xs, i) by {
        forall j | i < j < |xs|
          ensures !AgreeBelow(c, xs[j], xs[i], c.nrounds)
        {
          if j < last {
            assert xs[j] == init[j];
          }
        }
      }
    }
    if Survivor(c, xs, v) && v != x {
      var i :| 0 <= i < |xs| && xs[i] == v && LastOfKey(c, xs, i);
      assert i < last;
      assert init[i] == v;
      assert LastOfKey(c, init, i) by {
        forall j | i < j < |init|
          ensures !AgreeBelow(c, init[j], init[i], c.nrounds)
        {
          assert init[j] == xs[j];
        }
      }
      assert !AgreeBelow(c, xs[last], xs[i], c.nrounds);
    }
  }

  // ---------------------------------------------------------------- counts

  /** The child count of `nnodes` is the number of stored values. */
  lemma NNodesChild<T>(n: Node<T>)
    ensures NNodes(n).child == |Elements(n)|
    decreases n, 1
  {
    match n
    case Free =>
    case Child(_) =>
    case Inner(_, ch) =>
      SlotCountsChild(n, |ch|);
    case Pruned(_, _, _, child) =>
      NNodesChild(child);
  }

  lemma SlotCountsChild<T>(n: Node<T>, hi: nat)
    requires n.Inner? && hi <= |n.children|
    ensures SlotCounts(n, hi).child == |Slots(n, 0, hi)|
    decreases n, 0, hi
  {
    if hi > 0 {
      SlotCountsChild(n, hi - 1);
      NNodesChild(n.children[hi - 1]);
    }
  }

  /**
    Every slot of every inner node holds exactly one of: a free slot, a
    value, an inner node or a pruned node, and every pruned node holds one
    value or inner node.  So, counting the node itself as the occupant of
    one slot, nbuckets * inner + 1 == free + child + inner.
   */
  lemma NNodesBalance<T>(c: Codec<T>, n: Node<T>, r: nat)
    requires Shape(c, n, r)
    ensures c.nbuckets * NNodes(n).inner + 1 == NNodes(n).free + NNodes(n).child + NNodes(n).inner
    decreases n, 1
  {
    match n
    case Free =>
    case Child(_) =>
    case Inner(_, ch) =>
      var k := SlotCounts(n, |ch|);
      SlotCountsBalance(c, n, |ch|);
      assert NNodes(n).inner == k.inner + 1;
      MulSucc(c.nbuckets, k.inner);
    case Pruned(_, _, _, child) =>
      PrunedChild(c, n);
      var k := NNodes(child);
      assert NNodes(n) == Counts(k.inner, k.pruned + 1, k.child, k.free);
      if child.Inner? {
        NNodesBalance(c, child, child.round);
      } else {
        assert k == Counts(0, 0, 1, 0);
      }
  }

  lemma SlotCountsBalance<T>(c: Codec<T>, n: Node<T>, hi: nat)
    requires n.Inner? && InnerShape(c, n) && hi <= |n.children|
    ensures c.nbuckets * SlotCounts(n, hi).inner + hi == SlotCounts(n, hi).free + SlotCounts(n, hi).child + SlotCounts(n, hi).inner
    decreases n, 0, hi
  {
    if hi > 0 {
      var sub := n.children[hi - 1];
      var k, s := SlotCounts(n, hi - 1), NNodes(sub);
      assert c.nbuckets * k.inner + (hi - 1) == k.free + k.child + k.inner by {
        SlotCountsBalance(c, n, hi - 1);
      }
      assert c.nbuckets * s.inner + 1 == s.free + s.child + s.inner by {
        if n.round >= 1 {
          NNodesBalance(c, sub, n.round - 1);
        } else {
          assert sub.Free?;
        }
      }
      assert SlotCounts(n, hi) == k.Plus(s);
      CountsBalanceStep(c.nbuckets, k, s, hi);
    }
  }

  /** Adding a balanced slot to balanced slots 0 .. hi-2 balances slots 0 .. hi-1. */
  lemma CountsBalanceStep(nb: nat, k: Counts, s: Counts, hi: nat)
    requires hi >= 1
    requires nb * k.inner + (hi - 1) == k.free + k.child + k.inner
    requires nb * s.inner + 1 == s.free + s.child + s.inner
    ensures nb * k.Plus(s).inner + hi == k.Plus(s).free + k.Plus(s).child + k.Plus(s).inner
  {
    MulAdd(nb, k.inner, s.inner);
  }

  /** `RdxTree::new` counts one inner node and nbuckets free slots; the balance holds for every tree. */
  lemma TreeCounts<T>(c: Codec<T>, t: Tree<T>)
    requires TreeShape(c, t)
    ensures TreeNNodes(t).child == |Elements(t.root)|
    ensures c.nbuckets * TreeNNodes(t).inner + 1 == TreeNNodes(t).free + TreeNNodes(t).child + TreeNNodes(t).inner
    ensures TreeNNodes(NewTree(c)) == Counts(1, 0, 0, c.nbuckets)
  {
    NNodesChild(t.root);
    SlotCountsBalance(c, t.root, |t.root.children|);
    MulSucc(c.nbuckets, SlotCounts(t.root, |t.root.children|).inner);
    var e := NewTree(c).root;
    SlotCountsFree(e, c.nbuckets);
  }

  lemma {:induction false} SlotCountsFree<T>(n: Node<T>, hi: nat)
    requires n.Inner? && hi <= |n.children|
    requires forall i :: 0 <= i < hi ==> n.children[i].Free?
    ensures SlotCounts(n, hi) == Counts(0, 0, 0, hi)
    decreases hi
  {
    if hi > 0 {
      SlotCountsFree(n, hi - 1);
    }
  }
}
