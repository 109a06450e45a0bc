/**
  `RdxTree`: a compressed digit trie.

  An inner node of round r has one slot per bucket; slot b holds the values
  whose digit of round r-1 is b.  A pruned node stands for a chain of inner
  nodes that would each have a single occupied slot: it stores the digits of
  that chain, top round first, and ends in an inner node or a stored value.
  The reference-counted cells of the source become one exclusively owned
  datatype; `NodeLimited` (a pruned node's child) is a `Node` that is an
  `Inner` or a `Child`, which the shape invariant enforces.
 */
module Trie {
  import opened Codec

  datatype Node<T> =
    | Free
    | Child(value: T)
    | Inner(round: nat, children: seq<Node<T>>)
    | Pruned(round: nat, nbuckets: nat, buckets: seq<nat>, child: Node<T>)

  /** `RdxTree`: the root is always an inner node of round nrounds. */
  datatype Tree<T> = Tree(root: Node<T>)

  /** Every digit of x at a scheduled round names a bucket; the source indexes a slot with it. */
  ghost predicate DigitsOk<T>(c: Codec<T>, x: T) {
    forall r :: 0 <= r < c.nrounds ==> c.digit(x, r) < c.nbuckets
  }

  // ---------------------------------------------------------------- shape

  /**
    The structural invariant of a node sitting where round r is expected:
    a value only in a slot of a round-1 inner node (r = 0), inner and pruned
    nodes only below a round > 1 node, an inner node with one slot per
    bucket, and a pruned node with at least one stored digit whose count is
    the round gap to its child: r digits above a value, fewer above an inner
    node of round r minus that count.
   */
  ghost predicate Shape<T>(c: Codec<T>, n: Node<T>, r: nat)
    decreases n, 1
  {
    match n
    case Free => true
    case Child(_) => r == 0
    case Inner(rr, _) => rr == r && r >= 1 && InnerShape(c, n)
    case Pruned(rr, nb, bs, child) =>
      && rr == r && r >= 1 && nb == c.nbuckets
      && 1 <= |bs|
      && (forall j :: 0 <= j < |bs| ==> bs[j] < c.nbuckets)
      && match child
         case Child(_) => |bs| == r
         case Inner(_, _) => |bs| < r && Shape(c, child, r - |bs|)
         case _ => false
  }

  /** An inner node's slots: one per bucket, each shaped for the round below (all free at round 0). */
  ghost predicate InnerShape<T>(c: Codec<T>, n: Node<T>)
    decreases n, 0
  {
    && n.Inner?
    && |n.children| == c.nbuckets
    && forall i :: 0 <= i < |n.children| ==>
         (n.round == 0 ==> n.children[i].Free?) &&
         (n.round >= 1 ==> Shape(c, n.children[i], n.round - 1))
  }

  /** The tree invariant: the root is an inner node of round nrounds. */
  ghost predicate TreeShape<T>(c: Codec<T>, t: Tree<T>) {
    t.root.Inner? && t.root.round == c.nrounds && InnerShape(c, t.root)
  }

  // ---------------------------------------------------------------- contents

  /** The stored values in slot order. */
  function Elements<T>(n: Node<T>): seq<T>
    decreases n, 1
  {
    match n
    case Free => []
    case Child(v) => [v]
    case Inner(_, ch) => Slots(n, 0, |ch|)
    case Pruned(_, _, _, child) => Elements(child)
  }

  /** The stored values of slots lo .. hi-1 of an inner node, in slot order. */
  function Slots<T>(n: Node<T>, lo: nat, hi: nat): seq<T>
    requires n.Inner? && hi <= |n.children|
    decreases n, 0, hi
  {
    if hi <= lo then [] else Slots(n, lo, hi - 1) + Elements(n.children[hi - 1])
  }

  /**
    Every stored value lies on the path of its digits: in slot i of an inner
    node of round r its digit of round r-1 is i, and below a pruned node of
    round r its digits of rounds r-1, r-2, ... are the stored ones.
   */
  ghost predicate Paths<T>(c: Codec<T>, n: Node<T>)
    decreases n
  {
    match n
    case Free => true
    case Child(_) => true
    case Inner(r, ch) =>
      forall i :: 0 <= i < |ch| ==>
        Paths(c, ch[i]) && (r >= 1 ==> forall v :: v in Elements(ch[i]) ==> c.digit(v, r - 1) == i)
    case Pruned(r, _, bs, child) =>
      && Paths(c, child)
      && forall v, j :: v in Elements(child) && 0 <= j < |bs| && j < r ==> c.digit(v, r - 1 - j) == bs[j]
  }

  // ---------------------------------------------------------------- construction

  /** `NodeInner::new`: an inner node of the given round with `nbuckets` free slots. */
  function NewInner<T>(round: nat, nbuckets: nat): (n: Node<T>)
    ensures n.Inner? && n.round == round && |n.children| == nbuckets
    ensures forall i :: 0 <= i < nbuckets ==> n.children[i].Free?
  {
    Inner(round, seq(nbuckets, _ => Free))
  }

  /** The digits of x for rounds k-1 down to 0. */
  function PathDigits<T>(c: Codec<T>, x: T, k: nat): (bs: seq<nat>)
    ensures |bs| == k
    ensures forall j :: 0 <= j < k ==> bs[j] == c.digit(x, k - 1 - j)
  {
    seq(k, j requires 0 <= j < k => c.digit(x, k - 1 - j))
  }

  /** `NodePruned::new`: the whole remaining path of x below round `round`, ending in x. */
  function NewPruned<T>(c: Codec<T>, round: nat, nbuckets: nat, x: T): (n: Node<T>)
    ensures n.Pruned? && Elements(n) == [x] && n.child == Child(x) && n.round == round
    ensures |n.buckets| == round && forall j :: 0 <= j < round ==> n.buckets[j] == c.digit(x, round - 1 - j)
  {
    Pruned(round, nbuckets, PathDigits(c, x, round), Child(x))
  }

  /**
    The first position, from i on, where the stored digits of a pruned node
    of round r and the digits of x part; |bs| when they agree to the end.
   */
  function FirstDiff<T>(c: Codec<T>, bs: seq<nat>, r: nat, x: T, i: nat): (k: nat)
    requires i <= |bs| <= r
    ensures i <= k <= |bs|
    ensures forall j :: i <= j < k ==> bs[j] == c.digit(x, r - 1 - j)
    ensures k < |bs| ==> bs[k] != c.digit(x, r - 1 - k)
    decreases |bs| - i
  {
    if i == |bs| then i
    else if bs[i] != c.digit(x, r - 1 - i) then i
    else FirstDiff(c, bs, r, x, i + 1)
  }

  // ---------------------------------------------------------------- insertion

  /**
    `NodeInner::insert`: x goes to the slot of its digit of round r-1.  Above
    round 1 a free slot receives the whole remaining path of x as a pruned
    node, an inner slot is descended into and a pruned slot is split or
    descended into; at round 1 the slot receives x, overwriting any value there.
   */
  function InsertInner<T>(c: Codec<T>, n: Node<T>, x: T): (m: Node<T>)
    requires n.Inner? && Shape(c, n, n.round) && n.round <= c.nrounds
    requires DigitsOk(c, x)
    ensures m.Inner? && m.round == n.round && Shape(c, m, n.round)
    decreases n.round, 1
  {
    var r := n.round;
    var ch := n.children;
    var b := c.digit(x, r - 1);
    InnerSlot(c, n, b);
    if r > 1 then
      match ch[b]
      case Free =>
        var p := NewPruned(c, r - 1, |ch|, x);
        PathDigitsShape(c, x, r - 1);
        InnerUpdate(c, n, b, p);
        Inner(r, ch[b := p])
      case Inner(_, _) =>
        var sub := InsertInner(c, ch[b], x);
        InnerUpdate(c, n, b, sub);
        Inner(r, ch[b := sub])
      case Pruned(_, _, _, _) =>
        var sub := InsertOrSplit(c, ch[b], x);
        InnerUpdate(c, n, b, sub);
        Inner(r, ch[b := sub])
      case Child(_) => assert false; n
    else
      match ch[b]
      case Free =>
        InnerUpdate(c, n, b, Child(x));
        Inner(r, ch[b := Child(x)])
      case Child(_) =>
        InnerUpdate(c, n, b, Child(x));
        Inner(r, ch[b := Child(x)])
      case _ => assert false; n
  }

  /**
    `NodePruned::insert_or_split`: at the first stored digit where x parts
    from the path, the path is split into a head pruned node (left out when
    empty), a new inner node holding the old tail (or the old child) in the
    stored digit's slot and x in its own, and the tail; when x follows the
    whole path, it is inserted into the child inner node or overwrites the
    stored value.
   */
  function InsertOrSplit<T>(c: Codec<T>, p: Node<T>, x: T): (m: Node<T>)
    requires p.Pruned? && Shape(c, p, p.round) && p.round < c.nrounds
    requires DigitsOk(c, x)
    ensures (m.Inner? || m.Pruned?) && Shape(c, m, p.round)
    decreases p.round, 2
  {
    var r := p.round;
    var bs := p.buckets;
    PrunedChild(c, p);
    var i := FirstDiff(c, bs, r, x, 0);
    if i < |bs| then
      var joined := InsertInner(c, SplitNode(c, p, i), x);
      if i == 0 then joined
      else
        HeadShape(c, p, i, joined);
        Pruned(r, p.nbuckets, bs[..i], joined)
    else
      match p.child
      case Inner(_, _) =>
        var sub := InsertInner(c, p.child, x);
        Pruned(r, p.nbuckets, bs, sub)
      case Child(_) => Pruned(r, p.nbuckets, bs, Child(x))
      case _ => assert false; p
  }

  /** A slot of a shaped inner node is shaped for the round below. */
  lemma InnerSlot<T>(c: Codec<T>, n: Node<T>, b: nat)
    requires n.Inner? && Shape(c, n, n.round) && b < c.nbuckets
    ensures n.round >= 1 && |n.children| == c.nbuckets
    ensures Shape(c, n.children[b], n.round - 1)
  {
  }

  /** The child of a shaped pruned node: a value below a full path, or an inner node |bs| rounds down. */
  lemma PrunedChild<T>(c: Codec<T>, p: Node<T>)
    requires p.Pruned? && Shape(c, p, p.round)
    ensures 1 <= |p.buckets| <= p.round && p.nbuckets == c.nbuckets
    ensures forall j :: 0 <= j < |p.buckets| ==> p.buckets[j] < c.nbuckets
    ensures p.child.Child? ==> |p.buckets| == p.round
    ensures p.child.Inner? || p.child.Child?
    ensures p.child.Inner? ==> |p.buckets| < p.round && p.child.round == p.round - |p.buckets| && Shape(c, p.child, p.child.round)
  {
  }

  /** A fresh pruned path below an inner node of round r+1 is shaped for round r. */
  lemma PathDigitsShape<T>(c: Codec<T>, x: T, r: nat)
    requires 1 <= r < c.nrounds && DigitsOk(c, x)
    ensures Shape(c, NewPruned(c, r, c.nbuckets, x), r)
  {
  }

  /** Replacing one slot of a shaped inner node by a node shaped for the round below keeps its shape. */
  lemma InnerUpdate<T>(c: Codec<T>, n: Node<T>, b: nat, sub: Node<T>)
    requires n.Inner? && Shape(c, n, n.round) && b < |n.children|
    requires Shape(c, sub, n.round - 1)
    ensures Shape(c, Inner(n.round, n.children[b := sub]), n.round)
  {
  }

  /**
    The inner node of round r - i a split puts where the path parts from x:
    slot `bs[i]` holds the rest of the path (a pruned node with the digits
    after position i, or the old child itself when none are left).
   */
  function SplitNode<T>(c: Codec<T>, p: Node<T>, i: nat): (s: Node<T>)
    requires p.Pruned? && Shape(c, p, p.round) && i < |p.buckets|
    ensures s.Inner? && s.round == p.round - i && Shape(c, s, s.round)
    ensures |s.children| == c.nbuckets && p.buckets[i] < |s.children| && s.children[p.buckets[i]] == SplitTail(p, i)
    ensures forall b :: 0 <= b < |s.children| && b != p.buckets[i] ==> s.children[b].Free?
  {
    var r := p.round;
    var bs := p.buckets;
    var slot := SplitTail(p, i);
    assert Shape(c, slot, r - i - 1) by {
      if i + 1 < |bs| {
        var tail := bs[i + 1..];
        assert forall j :: 0 <= j < |tail| ==> tail[j] == bs[i + 1 + j];
      }
    }
    Inner(r - i, NewInner<T>(r - i, p.nbuckets).children[bs[i] := slot])
  }

  /** The part of a pruned path after position i: the digits after it above the old child, or the old child. */
  function SplitTail<T>(p: Node<T>, i: nat): Node<T>
    requires p.Pruned? && i < |p.buckets| <= p.round
  {
    if i + 1 == |p.buckets| then p.child
    else Pruned(p.round - i - 1, p.nbuckets, p.buckets[i + 1..], p.child)
  }

  /** The head pruned node above the split inner node is shaped for the old round. */
  lemma HeadShape<T>(c: Codec<T>, p: Node<T>, i: nat, joined: Node<T>)
    requires p.Pruned? && Shape(c, p, p.round) && 0 < i < |p.buckets|
    requires joined.Inner? && Shape(c, joined, p.round - i)
    ensures Shape(c, Pruned(p.round, p.nbuckets, p.buckets[..i], joined), p.round)
  {
  }

  // ---------------------------------------------------------------- the tree

  /** `RdxTree::new`: a root inner node of round nrounds with every slot free. */
  function NewTree<T>(c: Codec<T>): (t: Tree<T>)
    ensures TreeShape(c, t)
    ensures Elements(t.root) == [] && Paths(c, t.root)
  {
    var t := Tree(NewInner(c.nrounds, c.nbuckets));
    SlotsFree(t.root, 0, c.nbuckets);
    t
  }

  /** `RdxTree::insert`: insertion into the root inner node. */
  function TreeInsert<T>(c: Codec<T>, t: Tree<T>, x: T): (u: Tree<T>)
    requires TreeShape(c, t) && c.nrounds >= 1 && DigitsOk(c, x)
    ensures TreeShape(c, u)
  {
    Tree(InsertInner(c, t.root, x))
  }

  /** The tree `RdxTree::new` followed by `insert` of xs[0], xs[1], ... leaves. */
  function Build<T>(c: Codec<T>, xs: seq<T>): (t: Tree<T>)
    requires c.nrounds >= 1
    requires forall i :: 0 <= i < |xs| ==> DigitsOk(c, xs[i])
    ensures TreeShape(c, t)
    decreases |xs|
  {
    if |xs| == 0 then NewTree(c)
    else
      var init := xs[..|xs| - 1];
      assert forall i :: 0 <= i < |init| ==> init[i] == xs[i];
      TreeInsert(c, Build(c, init), xs[|xs| - 1])
  }

  // ---------------------------------------------------------------- node counts

  /** `nnodes`: the numbers of inner nodes, pruned nodes, stored values and free slots. */
  datatype Counts = Counts(inner: nat, pruned: nat, child: nat, free: nat) {
    function Plus(o: Counts): Counts {
      Counts(inner + o.inner, pruned + o.pruned, child + o.child, free + o.free)
    }
  }

  /**
    `NodeInner::nnodes` and `NodePruned::nnodes`, extended to the slot
    occupants the inner count adds up: a free slot counts as one free slot,
    a value as one child.
   */
  function NNodes<T>(n: Node<T>): Counts
    decreases n, 1
  {
    match n
    case Free => Counts(0, 0, 0, 1)
    case Child(_) => Counts(0, 0, 1, 0)
    case Inner(_, ch) => Counts(1, 0, 0, 0).Plus(SlotCounts(n, |ch|))
    case Pruned(_, _, _, child) => Counts(0, 1, 0, 0).Plus(NNodes(child))
  }

  /** The counts of slots 0 .. hi-1 of an inner node. */
  function SlotCounts<T>(n: Node<T>, hi: nat): Counts
    requires n.Inner? && hi <= |n.children|
    decreases n, 0, hi
  {
    if hi == 0 then Counts(0, 0, 0, 0) else SlotCounts(n, hi - 1).Plus(NNodes(n.children[hi - 1]))
  }

  /** `RdxTree::nnodes`: the counts of the root inner node. */
  function TreeNNodes<T>(t: Tree<T>): Counts {
    NNodes(t.root)
  }

  /** Free slots hold nothing. */
  lemma {:induction false} SlotsFree<T>(n: Node<T>, lo: nat, hi: nat)
    requires n.Inner? && hi <= |n.children|
    requires forall i :: lo <= i < hi ==> n.children[i].Free?
    ensures Slots(n, lo, hi) == []
    decreases hi
  {
    if hi > lo {
      SlotsFree(n, lo, hi - 1);
    }
  }
}
