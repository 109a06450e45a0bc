/**
  `RdxTreeIter`: in-order iteration of the trie as an explicit stack machine.

  A frame is an inner node, a cursor that is the next slot index plus one
  (so a backward frame reaches 0 "before the beginning") and a reversal
  flag.  One `Step` is one iteration of the `while` loop of `next`: a frame
  whose cursor left its range is popped; otherwise the slot under the
  cursor is inspected (a free slot is skipped, a value is the result, an
  inner node or a pruned node ending in an inner node is pushed as a new
  frame) and the cursor moves on.  The stack grows at its end, like the
  source's `Vec`.
 */
module TrieIter {
  import opened Codec
  import opened Trie
  import opened TrieTheory

  datatype Frame<T> = Frame(node: Node<T>, cursor: nat, rev: bool)

  datatype Option<T> = None | Some(value: T)

  /** What one call of `next` returns, as a sequence of zero or one value. */
  function Emit<T>(o: Option<T>): (s: seq<T>)
    ensures o.None? <==> s == []
    ensures o.Some? ==> s == [o.value]
  {
    if o.Some? then [o.value] else []
  }

  // ---------------------------------------------------------------- the stack invariant

  /**
    A frame at stack depth k: an inner node of a round at most nrounds - k;
    a forward cursor in 1 .. slots + 1 and a backward one in 0 .. slots;
    never backward under a reverse-free codec.
   */
  ghost predicate FrameOk<T>(c: Codec<T>, f: Frame<T>, k: nat) {
    && CursorOk(f)
    && InnerShape(c, f.node)
    && f.node.round + k <= c.nrounds
    && (ReverseFree(c) ==> !f.rev)
  }

  /** The frame holds an inner node and its cursor lies in the range its direction allows. */
  predicate CursorOk<T>(f: Frame<T>) {
    && f.node.Inner?
    && if f.rev then f.cursor <= |f.node.children| else 1 <= f.cursor <= |f.node.children| + 1
  }

  ghost predicate StackOk<T>(c: Codec<T>, s: seq<Frame<T>>) {
    forall k :: 0 <= k < |s| ==> FrameOk(c, s[k], k)
  }

  /** The values a frame has still to visit: the slots from the cursor on, towards its direction's end. */
  function Pending<T>(f: Frame<T>): seq<T>
    requires CursorOk(f)
  {
    if f.rev then Slots(f.node, 0, f.cursor) else Slots(f.node, f.cursor - 1, |f.node.children|)
  }

  /** The values still to visit, top frame first. */
  ghost function PendingAll<T>(c: Codec<T>, s: seq<Frame<T>>): seq<T>
    requires StackOk(c, s)
    decreases |s|
  {
    if |s| == 0 then []
    else
      var below := s[..|s| - 1];
      assert StackOk(c, below) by {
        forall k | 0 <= k < |below|
          ensures FrameOk(c, below[k], k)
        {
          assert below[k] == s[k];
        }
      }
      Pending(s[|s| - 1]) + PendingAll(c, below)
  }

  // ---------------------------------------------------------------- termination measure

  /** One unit per slot visit, plus one for each frame it pushes. */
  function Cost<T>(n: Node<T>): nat
    decreases n, 1
  {
    match n
    case Free => 1
    case Child(_) => 1
    case Inner(_, ch) => 2 + SlotCost(n, 0, |ch|)
    case Pruned(_, _, _, child) => 1 + Cost(child)
  }

  function SlotCost<T>(n: Node<T>, lo: nat, hi: nat): nat
    requires n.Inner? && hi <= |n.children|
    decreases n, 0, hi
  {
    if hi <= lo then 0 else SlotCost(n, lo, hi - 1) + Cost(n.children[hi - 1])
  }

  /** The steps a frame still takes: one per pending slot (and what it pushes), one to pop. */
  function FrameWork<T>(f: Frame<T>): nat
    requires CursorOk(f)
  {
    1 + if f.rev then SlotCost(f.node, 0, f.cursor) else SlotCost(f.node, f.cursor - 1, |f.node.children|)
  }

  ghost function Work<T>(c: Codec<T>, s: seq<Frame<T>>): nat
    requires StackOk(c, s)
    decreases |s|
  {
    if |s| == 0 then 0
    else
      var below := s[..|s| - 1];
      assert StackOk(c, below) by {
        forall k | 0 <= k < |below|
          ensures FrameOk(c, below[k], k)
        {
          assert below[k] == s[k];
        }
      }
      FrameWork(s[|s| - 1]) + Work(c, below)
  }

  // ---------------------------------------------------------------- one step

  /**
    The reversal flag a pruned node's inner child is iterated with: the
    flag of the pruned slot, then one xor per stored digit with the round
    counter walking upward from `round`, as written.
   */
  function FoldUp<T>(c: Codec<T>, round: nat, rev: bool, bs: seq<nat>): (r: bool)
    ensures ReverseFree(c) ==> r == rev
    decreases |bs|
  {
    if |bs| == 0 then rev else FoldUp(c, round + 1, rev != c.reverse(round + 1, bs[0]), bs[1..])
  }

  /** A new frame starts at the first slot, or at the last one when it is iterated backwards. */
  function Started<T>(node: Node<T>, rev: bool): (f: Frame<T>)
    requires node.Inner?
    ensures f.node == node && f.rev == rev && CursorOk(f)
    ensures Pending(f) == Elements(node)
  {
    Frame(node, if rev then |node.children| else 1, rev)
  }

  /** `RdxTree::iter`: one forward frame on the root, at its first slot. */
  function Iter<T>(t: Tree<T>): (s: seq<Frame<T>>)
    requires t.root.Inner?
    ensures |s| == 1 && CursorOk(s[0]) && Pending(s[0]) == Elements(t.root)
  {
    [Started(t.root, false)]
  }

  /**
    One iteration of the loop of `RdxTreeIter::next`: the next stack and
    the value found, if any.  `round` is `cfg_nrounds - stacksize` as in the
    source; the invariant keeps the subtraction from underflowing.
   */
  function Step<T>(c: Codec<T>, s: seq<Frame<T>>): (r: (seq<Frame<T>>, Option<T>))
    requires |s| > 0 && StackOk(c, s)
  {
    var top := s[|s| - 1];
    var ch := top.node.children;
    var i := top.cursor;
    if (top.rev && i == 0) || i >= |ch| + 1 then (s[..|s| - 1], None)
    else
      var rest := Advanced(s);
      TopSlot(c, s, i - 1);
      match ch[i - 1]
      case Free => (rest, None)
      case Child(x) => (rest, Some(x))
      case Inner(_, _) =>
        var round := c.nrounds - |s|;
        (rest + [Started(ch[i - 1], top.rev != c.reverse(round, i - 1))], None)
      case Pruned(_, _, bs, child) =>
        match child
        case Child(x) => (rest, Some(x))
        case Inner(_, _) =>
          var round := c.nrounds - |s|;
          var rev := FoldUp(c, round, top.rev != c.reverse(round, i - 1), bs);
          (rest + [Started(child, rev)], None)
        case _ => assert false; (rest, None)
  }

  /** What the invariant says about the slot under the top frame's cursor. */
  lemma TopSlot<T>(c: Codec<T>, s: seq<Frame<T>>, b: nat)
    requires |s| > 0 && StackOk(c, s)
    requires b < |s[|s| - 1].node.children|
    ensures var top := s[|s| - 1].node;
      && top.round + |s| - 1 <= c.nrounds
      && (top.round == 0 ==> top.children[b].Free?)
      && (top.round >= 1 ==> Shape(c, top.children[b], top.round - 1))
      && (top.children[b].Inner? || top.children[b].Pruned? ==> c.nrounds >= |s| + 1)
      && (top.children[b].Pruned? ==> top.children[b].child.Inner? || top.children[b].child.Child?)
  {
    assert FrameOk(c, s[|s| - 1], |s| - 1);
    var top := s[|s| - 1].node;
    if top.children[b].Pruned? {
      assert top.round >= 1 && Shape(c, top.children[b], top.round - 1);
      assert top.children[b].round == top.round - 1;
      PrunedChild(c, top.children[b]);
    }
  }

  // ---------------------------------------------------------------- what a step does

  /** Pushing a frame that fits at the top: the stack stays valid, its values and work grow by the frame's. */
  lemma PushFacts<T>(c: Codec<T>, below: seq<Frame<T>>, f: Frame<T>)
    requires StackOk(c, below) && FrameOk(c, f, |below|)
    ensures StackOk(c, below + [f])
    ensures PendingAll(c, below + [f]) == Pending(f) + PendingAll(c, below)
    ensures Work(c, below + [f]) == FrameWork(f) + Work(c, below)
  {
    var s := below + [f];
    assert StackOk(c, s) by {
      forall k | 0 <= k < |s|
        ensures FrameOk(c, s[k], k)
      {
        if k < |below| {
          assert s[k] == below[k];
        }
      }
    }
    assert s[..|s| - 1] == below;
  }

  /** The top frame and the stack below it. */
  lemma PopFacts<T>(c: Codec<T>, s: seq<Frame<T>>)
    requires |s| > 0 && StackOk(c, s)
    ensures StackOk(c, s[..|s| - 1]) && FrameOk(c, s[|s| - 1], |s| - 1)
    ensures PendingAll(c, s) == Pending(s[|s| - 1]) + PendingAll(c, s[..|s| - 1])
    ensures Work(c, s) == FrameWork(s[|s| - 1]) + Work(c, s[..|s| - 1])
  {
    var below := s[..|s| - 1];
    assert s == below + [s[|s| - 1]];
    assert FrameOk(c, s[|s| - 1], |s| - 1);
    assert StackOk(c, below) by {
      forall k | 0 <= k < |below|
        ensures FrameOk(c, below[k], k)
      {
        assert below[k] == s[k];
      }
    }
    PushFacts(c, below, s[|s| - 1]);
  }

  lemma {:induction false} SlotCostSplit<T>(n: Node<T>, lo: nat, mid: nat, hi: nat)
    requires n.Inner? && lo <= mid <= hi <= |n.children|
    ensures SlotCost(n, lo, hi) == SlotCost(n, lo, mid) + SlotCost(n, mid, hi)
    decreases hi
  {
    if hi > mid {
      SlotCostSplit(n, lo, mid, hi - 1);
    }
  }

  /**
    Moving the cursor past slot b = cursor - 1: the frame's values lose
    those of slot b (at their front when going forward) and its work loses
    the slot's cost.
   */
  lemma AdvanceFacts<T>(f: Frame<T>, m: Frame<T>)
    requires CursorOk(f) && f.cursor >= 1 && f.cursor <= |f.node.children|
    requires m == Frame(f.node, if f.rev then f.cursor - 1 else f.cursor + 1, f.rev)
    ensures CursorOk(m)
    ensures !f.rev ==> Pending(f) == Elements(f.node.children[f.cursor - 1]) + Pending(m)
    ensures f.rev ==> Pending(f) == Pending(m) + Elements(f.node.children[f.cursor - 1])
    ensures FrameWork(f) == Cost(f.node.children[f.cursor - 1]) + FrameWork(m)
  {
    var n := f.node;
    var b := f.cursor - 1;
    if !f.rev {
      SlotsSplit(n, b, b + 1, |n.children|);
      SlotCostSplit(n, b, b + 1, |n.children|);
    }
  }

  /**
    One step keeps the stack valid, strictly decreases the work left, and
    moves values from the pending ones to the result without losing or
    adding any; under a reverse-free codec the result is the first pending value.
   */
  lemma StepFacts<T>(c: Codec<T>, s: seq<Frame<T>>)
    requires |s| > 0 && StackOk(c, s)
    ensures StackOk(c, Step(c, s).0)
    ensures Step(c, s).1.Some? ==> |Step(c, s).0| > 0
    ensures Work(c, Step(c, s).0) < Work(c, s)
    ensures multiset(Emit(Step(c, s).1)) + multiset(PendingAll(c, Step(c, s).0)) == multiset(PendingAll(c, s))
    ensures ReverseFree(c) ==> Emit(Step(c, s).1) + PendingAll(c, Step(c, s).0) == PendingAll(c, s)
  {
    var top := s[|s| - 1];
    PopFacts(c, s);
    if (top.rev && top.cursor == 0) || top.cursor >= |top.node.children| + 1 {
      assert Pending(top) == [];
    } else {
      SlotStep(c, s);
      AdvanceStepFacts(c, s, Step(c, s).0, Step(c, s).1);
    }
  }

  /** The stack a step leaves when it inspects the slot under the cursor and pushes nothing. */
  function Advanced<T>(s: seq<Frame<T>>): seq<Frame<T>>
    requires |s| > 0 && (s[|s| - 1].rev ==> s[|s| - 1].cursor >= 1)
  {
    var f := s[|s| - 1];
    s[..|s| - 1] + [Frame(f.node, if f.rev then f.cursor - 1 else f.cursor + 1, f.rev)]
  }

  /**
    The step facts for a step that inspects the slot under the cursor,
    given the outcome `SlotStep` describes.
   */
  lemma AdvanceStepFacts<T>(c: Codec<T>, s: seq<Frame<T>>, next: seq<Frame<T>>, item: Option<T>)
    requires |s| > 0 && StackOk(c, s)
    requires var f := s[|s| - 1]; !((f.rev && f.cursor == 0) || f.cursor >= |f.node.children| + 1)
    requires var f := s[|s| - 1];
      var slot := f.node.children[f.cursor - 1];
      var rest := Advanced(s);
      || (next == rest && Emit(item) == Elements(slot) && Cost(slot) >= 1)
      || (&& |next| == |rest| + 1 && next[..|rest|] == rest && item.None?
          && FrameOk(c, next[|rest|], |rest|)
          && Pending(next[|rest|]) == Elements(slot)
          && FrameWork(next[|rest|]) < Cost(slot))
    ensures StackOk(c, next)
    ensures Work(c, next) < Work(c, s)
    ensures multiset(Emit(item)) + multiset(PendingAll(c, next)) == multiset(PendingAll(c, s))
    ensures ReverseFree(c) ==> Emit(item) + PendingAll(c, next) == PendingAll(c, s)
  {
    if next == Advanced(s) {
      AdvanceEmit(c, s, next, item);
    } else {
      AdvancePush(c, s, next, item);
    }
  }

  /** The step facts for a step that only advances the top frame. */
  lemma AdvanceEmit<T>(c: Codec<T>, s: seq<Frame<T>>, next: seq<Frame<T>>, item: Option<T>)
    requires |s| > 0 && StackOk(c, s)
    requires var f := s[|s| - 1]; !((f.rev && f.cursor == 0) || f.cursor >= |f.node.children| + 1)
    requires var f := s[|s| - 1];
      next == Advanced(s) && Emit(item) == Elements(f.node.children[f.cursor - 1])
      && Cost(f.node.children[f.cursor - 1]) >= 1
    ensures StackOk(c, next)
    ensures Work(c, next) < Work(c, s)
    ensures multiset(Emit(item)) + multiset(PendingAll(c, next)) == multiset(PendingAll(c, s))
    ensures ReverseFree(c) ==> Emit(item) + PendingAll(c, next) == PendingAll(c, s)
  {
    TopAdvance(c, s);
    AdvanceEmitValues(c, s, next, item);
  }

  lemma AdvanceEmitValues<T>(c: Codec<T>, s: seq<Frame<T>>, next: seq<Frame<T>>, item: Option<T>)
    requires |s| > 0 && StackOk(c, s)
    requires var f := s[|s| - 1]; !((f.rev && f.cursor == 0) || f.cursor >= |f.node.children| + 1)
    requires var f := s[|s| - 1];
      next == Advanced(s) && Emit(item) == Elements(f.node.children[f.cursor - 1])
    requires StackOk(c, next)
    ensures multiset(Emit(item)) + multiset(PendingAll(c, next)) == multiset(PendingAll(c, s))
    ensures ReverseFree(c) ==> Emit(item) + PendingAll(c, next) == PendingAll(c, s)
  {
    var f := s[|s| - 1];
    assert ReverseFree(c) ==> !f.rev by {
      assert FrameOk(c, f, |s| - 1);
    }
    TopAdvance(c, s);
    Moved(PendingAll(c, s), Emit(item), PendingAll(c, next), Emit(item), PendingAll(c, next), f.rev);
  }

  /** The step facts for a step that advances the top frame and pushes a frame on the slot's values. */
  lemma AdvancePush<T>(c: Codec<T>, s: seq<Frame<T>>, next: seq<Frame<T>>, item: Option<T>)
    requires |s| > 0 && StackOk(c, s)
    requires var f := s[|s| - 1]; !((f.rev && f.cursor == 0) || f.cursor >= |f.node.children| + 1)
    requires var f := s[|s| - 1];
      var slot := f.node.children[f.cursor - 1];
      var rest := Advanced(s);
      && |next| == |rest| + 1 && next[..|rest|] == rest && item.None?
      && FrameOk(c, next[|rest|], |rest|)
      && Pending(next[|rest|]) == Elements(slot)
      && FrameWork(next[|rest|]) < Cost(slot)
    ensures StackOk(c, next)
    ensures Work(c, next) < Work(c, s)
    ensures multiset(Emit(item)) + multiset(PendingAll(c, next)) == multiset(PendingAll(c, s))
    ensures ReverseFree(c) ==> Emit(item) + PendingAll(c, next) == PendingAll(c, s)
  {
    var rest := Advanced(s);
    TopAdvance(c, s);
    PushedFacts(c, rest, next);
    AdvancePushValues(c, s, next);
    assert Emit(item) == [];
  }

  /** Pushing a frame on exactly the slot's values keeps the values the advance took away. */
  lemma AdvancePushValues<T>(c: Codec<T>, s: seq<Frame<T>>, next: seq<Frame<T>>)
    requires |s| > 0 && StackOk(c, s)
    requires var f := s[|s| - 1]; !((f.rev && f.cursor == 0) || f.cursor >= |f.node.children| + 1)
    requires StackOk(c, Advanced(s)) && StackOk(c, next)
    requires var f := s[|s| - 1];
      PendingAll(c, next) == Elements(f.node.children[f.cursor - 1]) + PendingAll(c, Advanced(s))
    ensures multiset(PendingAll(c, next)) == multiset(PendingAll(c, s))
    ensures ReverseFree(c) ==> PendingAll(c, next) == PendingAll(c, s)
  {
    var f := s[|s| - 1];
    assert ReverseFree(c) ==> !f.rev by {
      assert FrameOk(c, f, |s| - 1);
    }
    TopAdvance(c, s);
  }

  /**
    Values e leave `all`, whose remainder is p, and reappear split between
    the result `out` and the new pending values `q`.
   */
  lemma Moved<T>(all: seq<T>, e: seq<T>, p: seq<T>, out: seq<T>, q: seq<T>, rev: bool)
    requires multiset(all) == multiset(e) + multiset(p)
    requires !rev ==> all == e + p
    requires out + q == e + p
    ensures multiset(out) + multiset(q) == multiset(all)
    ensures !rev ==> out + q == all
  {
    calc {
      multiset(out) + multiset(q);
      multiset(out + q);
      multiset(e) + multiset(p);
    }
  }

  /**
    Moving the top frame's cursor past the slot under it: the stack stays
    valid, and its values and work lose exactly those of the slot (its
    values at the front when the frame goes forward).
   */
  lemma TopAdvance<T>(c: Codec<T>, s: seq<Frame<T>>)
    requires |s| > 0 && StackOk(c, s)
    requires var f := s[|s| - 1]; !((f.rev && f.cursor == 0) || f.cursor >= |f.node.children| + 1)
    ensures var f := s[|s| - 1];
      var slot := f.node.children[f.cursor - 1];
      && StackOk(c, Advanced(s))
      && Work(c, s) == Cost(slot) + Work(c, Advanced(s))
      && multiset(PendingAll(c, s)) == multiset(Elements(slot)) + multiset(PendingAll(c, Advanced(s)))
      && (!f.rev ==> PendingAll(c, s) == Elements(slot) + PendingAll(c, Advanced(s)))
  {
    var top := s[|s| - 1];
    var below := s[..|s| - 1];
    var i := top.cursor;
    PopFacts(c, s);
    var m := Frame(top.node, if top.rev then i - 1 else i + 1, top.rev);
    AdvanceFacts(top, m);
    PushFacts(c, below, m);
    assert Advanced(s) == below + [m];
    var e := Elements(top.node.children[i - 1]);
    Reassemble(PendingAll(c, s), Pending(top), e, Pending(m), PendingAll(c, below), e, Pending(m) + PendingAll(c, below), top.rev);
  }

  /** A stack with one frame pushed on a valid one. */
  lemma PushedFacts<T>(c: Codec<T>, rest: seq<Frame<T>>, next: seq<Frame<T>>)
    requires StackOk(c, rest)
    requires |next| == |rest| + 1 && next[..|rest|] == rest && FrameOk(c, next[|rest|], |rest|)
    ensures StackOk(c, next)
    ensures PendingAll(c, next) == Pending(next[|rest|]) + PendingAll(c, rest)
    ensures Work(c, next) == FrameWork(next[|rest|]) + Work(c, rest)
  {
    assert next == rest + [next[|rest|]];
    PushFacts(c, rest, next[|rest|]);
  }

  /** The bookkeeping of one step on sequences of values: slot values e leave the top frame's values. */
  lemma Reassemble<T>(all: seq<T>, top: seq<T>, e: seq<T>, moved: seq<T>, below: seq<T>, out: seq<T>, next: seq<T>, rev: bool)
    requires all == top + below
    requires !rev ==> top == e + moved
    requires rev ==> top == moved + e
    requires out + next == e + (moved + below)
    ensures multiset(out) + multiset(next) == multiset(all)
    ensures !rev ==> out + next == all
  {
    calc {
      multiset(out) + multiset(next);
      multiset(out + next);
      multiset(e) + multiset(moved) + multiset(below);
      multiset(top) + multiset(below);
      multiset(all);
    }
  }

  /**
    A step that does not pop: either the top frame only advances and the
    slot's values (none or one) are the result, or a frame holding exactly
    the slot's values, with less work than the slot's cost, is pushed.
   */
  lemma SlotStep<T>(c: Codec<T>, s: seq<Frame<T>>)
    requires |s| > 0 && StackOk(c, s)
    requires var f := s[|s| - 1]; !((f.rev && f.cursor == 0) || f.cursor >= |f.node.children| + 1)
    ensures var f := s[|s| - 1];
      var slot := f.node.children[f.cursor - 1];
      var rest := Advanced(s);
      var r := Step(c, s);
      || (r.0 == rest && Emit(r.1) == Elements(slot) && Cost(slot) >= 1)
      || (&& |r.0| == |rest| + 1 && r.0[..|rest|] == rest && r.1.None?
          && FrameOk(c, r.0[|rest|], |rest|)
          && Pending(r.0[|rest|]) == Elements(slot)
          && FrameWork(r.0[|rest|]) < Cost(slot))
  {
    var f := s[|s| - 1];
    var slot := f.node.children[f.cursor - 1];
    if slot.Inner? || (slot.Pruned? && slot.child.Inner?) {
      PushStep(c, s);
    } else {
      EmitStep(c, s);
    }
  }

  /** A step whose slot is free, a value, or a pruned node ending in a value only advances the top frame. */
  lemma EmitStep<T>(c: Codec<T>, s: seq<Frame<T>>)
    requires |s| > 0 && StackOk(c, s)
    requires var f := s[|s| - 1]; !((f.rev && f.cursor == 0) || f.cursor >= |f.node.children| + 1)
    requires var f := s[|s| - 1]; var slot := f.node.children[f.cursor - 1];
      !(slot.Inner? || (slot.Pruned? && slot.child.Inner?))
    ensures var f := s[|s| - 1];
      var slot := f.node.children[f.cursor - 1];
      var r := Step(c, s);
      r.0 == Advanced(s) && Emit(r.1) == Elements(slot) && Cost(slot) >= 1
  {
    var f := s[|s| - 1];
    var slot := f.node.children[f.cursor - 1];
    var rest := Advanced(s);
    TopSlot(c, s, f.cursor - 1);
    match slot
    case Free =>
      assert Step(c, s) == (rest, None);
    case Child(x) =>
      assert Step(c, s) == (rest, Some(x));
    case Pruned(_, _, _, child) =>
      assert Step(c, s) == (rest, Some(child.value));
  }

  /** A step whose slot is an inner node, or a pruned node ending in one, pushes a frame on exactly its values. */
  lemma PushStep<T>(c: Codec<T>, s: seq<Frame<T>>)
    requires |s| > 0 && StackOk(c, s)
    requires var f := s[|s| - 1]; !((f.rev && f.cursor == 0) || f.cursor >= |f.node.children| + 1)
    requires var f := s[|s| - 1]; var slot := f.node.children[f.cursor - 1];
      slot.Inner? || (slot.Pruned? && slot.child.Inner?)
    ensures var f := s[|s| - 1];
      var slot := f.node.children[f.cursor - 1];
      var rest := Advanced(s);
      var r := Step(c, s);
      && |r.0| == |rest| + 1 && r.0[..|rest|] == rest && r.1.None?
      && FrameOk(c, r.0[|rest|], |rest|)
      && Pending(r.0[|rest|]) == Elements(slot)
      && FrameWork(r.0[|rest|]) < Cost(slot)
  {
    var f := s[|s| - 1];
    var i := f.cursor;
    var slot := f.node.children[i - 1];
    var rest := Advanced(s);
    var round := c.nrounds - |s|;
    TopSlot(c, s, i - 1);
    assert FrameOk(c, f, |s| - 1);
    if slot.Inner? {
      var g := Started(slot, f.rev != c.reverse(round, i - 1));
      assert Step(c, s) == (rest + [g], None);
      assert FrameOk(c, g, |rest|);
    } else {
      assert Shape(c, slot, f.node.round - 1);
      PrunedChild(c, slot);
      var g := Started(slot.child, FoldUp(c, round, f.rev != c.reverse(round, i - 1), slot.buckets));
      assert Step(c, s) == (rest + [g], None);
      assert FrameOk(c, g, |rest|);
    }
  }

  // ---------------------------------------------------------------- next and collect

  /**
    `RdxTreeIter::next`: steps until a value is found or the stack is empty.
    The value, if any, is one of the pending values (under a reverse-free
    codec the first one), and no value is found only when none was pending.
   */
  method Next<T>(c: Codec<T>, stack: seq<Frame<T>>) returns (rest: seq<Frame<T>>, item: Option<T>)
    requires StackOk(c, stack)
    ensures StackOk(c, rest)
    ensures item.None? <==> rest == []
    ensures item.None? ==> PendingAll(c, stack) == []
    ensures |stack| > 0 ==> Work(c, rest) < Work(c, stack)
    ensures multiset(Emit(item)) + multiset(PendingAll(c, rest)) == multiset(PendingAll(c, stack))
    ensures ReverseFree(c) ==> Emit(item) + PendingAll(c, rest) == PendingAll(c, stack)
  {
    rest := stack;
    item := None;
    while |rest| > 0 && item.None?
      invariant StackOk(c, rest)
      invariant item.Some? ==> |rest| > 0
      invariant rest == stack || Work(c, rest) < Work(c, stack)
      invariant multiset(Emit(item)) + multiset(PendingAll(c, rest)) == multiset(PendingAll(c, stack))
      invariant ReverseFree(c) ==> Emit(item) + PendingAll(c, rest) == PendingAll(c, stack)
      decreases Work(c, rest)
    {
      StepFacts(c, rest);
      var r := Step(c, rest);
      rest, item := r.0, r.1;
    }
  }

  /**
    `iter().collect()`: calls `next` until it returns nothing.  The values
    collected are those of the tree, each as often as it is stored; under a
    reverse-free codec they come in slot order, which is ascending key order.
   */
  method Collect<T>(c: Codec<T>, t: Tree<T>) returns (out: seq<T>)
    requires t.root.Inner? && InnerShape(c, t.root) && t.root.round <= c.nrounds
    ensures multiset(out) == multiset(Elements(t.root))
    ensures ReverseFree(c) ==> out == Elements(t.root)
  {
    var stack := Iter(t);
    IterFacts(c, t);
    out := [];
    var done := false;
    while !done
      invariant StackOk(c, stack)
      invariant multiset(out) + multiset(PendingAll(c, stack)) == multiset(Elements(t.root))
      invariant ReverseFree(c) ==> out + PendingAll(c, stack) == Elements(t.root)
      invariant done ==> PendingAll(c, stack) == []
      decreases !done, Work(c, stack)
    {
      var next, item := Next(c, stack);
      Append(out, Emit(item), PendingAll(c, stack), PendingAll(c, next), Elements(t.root), ReverseFree(c));
      out := out + Emit(item);
      done := item.None?;
      stack := next;
    }
  }

  /** Moving e from the front of the pending values to the end of the output keeps both accounts. */
  lemma Append<T>(out: seq<T>, e: seq<T>, before: seq<T>, after: seq<T>, all: seq<T>, ordered: bool)
    requires multiset(out) + multiset(before) == multiset(all)
    requires multiset(e) + multiset(after) == multiset(before)
    requires ordered ==> out + before == all && e + after == before
    ensures multiset(out + e) + multiset(after) == multiset(all)
    ensures ordered ==> (out + e) + after == all
  {
    assert multiset(out + e) == multiset(out) + multiset(e);
    if ordered {
      assert (out + e) + after == out + (e + after);
    }
  }

  /** The stack `iter` starts with is valid and has all of the tree's values pending. */
  lemma IterFacts<T>(c: Codec<T>, t: Tree<T>)
    requires t.root.Inner? && InnerShape(c, t.root) && t.root.round <= c.nrounds
    ensures StackOk(c, Iter(t))
    ensures PendingAll(c, Iter(t)) == Elements(t.root)
  {
    var stack := Iter(t);
    assert FrameOk(c, stack[0], 0);
    assert stack[..0] == [];
  }
}
