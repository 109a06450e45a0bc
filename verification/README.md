# rdxsort in Dafny

A model of the core of the Rust crate `rdxsort`: an LSD radix sort for
slices plus an ordered, path-compressed digit trie (`RdxTree`). Both rest on
one digit contract, which the crate's trait states with four operations:
`cfg_nbuckets`, `cfg_nrounds`, `get_bucket(x, round)` and
`reverse(round, bucket)`. The repository carries two snapshots of that
contract. The older one is `RdxSortTemplate` (src/template.rs and the
files it is implemented in). The newer one is `Rdx` (src/sort.rs,
src/types/*, src/signed_integer.rs, src/tree.rs). Both are modelled by the
one record `Codec.Codec<T>(nbuckets, nrounds, digit, reverse)`. Round 0 is
the least significant round.

Modules (one file each):

- `Codec` (codec.dfy): the record; the key order it induces (`CmpBelow`
  and `KeyCmp`, comparing digits from the top round down); the alias macro.
- `Unsigned`, `Signed`, `Bool`, `Char`, `Tuple`, `Array` (unsigned.dfy,
  signed.dfy, bool.dfy, char.dfy, tuple.dfy, array.dfy): the per-type
  codecs.
  - Unsigned values are `nat`s below 2^bits.
  - Signed values are `int`s in range. Their bit pattern (`transmute`) is
    `x mod 2^bits`.
  - A char is its code point.
  - An array `[T; n]` is a `seq<T>` of length n.
  - `(A,)` is the datatype `Single<A>`.
- `RadixSort` (sort.dfy): `rdxsort` as a pure function over generations
  of buckets (`seq<seq<T>>`), plus the write-back loop as a method over an
  array. `helper_bucket`'s `assert!(b < cfg_nbuckets)` becomes the error
  result `Failure(BucketOutOfRange(round, bucket))`.
- `SortTheory` (sort_theory.dfy): the sort keeps the multiset, fails
  exactly when some digit is out of range, and for a reverse-free codec
  returns a sequence sorted by key.
- `Stability` (stability.dfy): for a reverse-free codec the sort is
  stable. Elements with equal keys keep their input order, and a
  key-sorted sequence is fixed by that order, so sorting a sorted sequence
  changes nothing.
- `Reference` (reference.dfy): the sort against a stable insertion sort by
  `<=`, and idempotence.
- `Slice` (slice.dfy): `rdxsort` for a slice and for a `Vec`, as the
  source sequences it: round 0, a loop over the later rounds, and the
  write-back.
- `Trie` (tree.dfy): `Node = Free | Child | Inner | Pruned` as one owned
  datatype, with insertion, splitting, construction and `nnodes`. A pruned
  node's child (`NodeLimited`) is a `Node` that the shape invariant
  restricts to `Inner` or `Child`.
- `TrieTheory` (tree_theory.dfy): insertion keeps the shape and path
  invariants. It replaces the stored value with x's key, if any, by x.
  The values are in strictly ascending key order. The node counts balance.
- `TrieIter` (tree_iter.dfy): `RdxTreeIter::next` as a stack machine of
  frames `(inner node, cursor, reverse)`.
  - One `Step` is one turn of the `while` loop of `next`.
  - `Next` runs the loop to its end.
  - `Collect` is `iter().collect()`.
- `Examples` (examples.dfy): the crate's worked examples as theorems:
  - the documentation's `[2, 10, 0, 1]`;
  - the `Foo` records;
  - the special values of the i8 test;
  - the u32 trie of the tree test.
- `Arith` (arith.dfy): small multiplication and modulo facts.

Notes on the code:

- A fresh pruned node below an inner node of round r stores x's digits of
  rounds r-2 down to 0, one per round below, ending in the value. This is
  `NodePruned::new(round - 1, ..)` at src/tree.rs:82 and 149-163.
- When the iterator folds a pruned path's reversal flags, its round
  counter starts at `cfg_nrounds - stacksize` and walks upward, one per
  stored digit (src/tree.rs:370-375). The path it stands for descends.
- The older-snapshot `bool`, `char` and `Foo` codecs define no `reverse`.
  They are fitted into the record with `reverse = false`.

## Model

| member | source | states |
|---|---|---|
| Codec.CmpBelowFlip | src/template.rs:27-37 | Swapping the two values flips the digit comparison, at every round depth, so the key order is antisymmetric. |
| Codec.CmpBelowEqual | src/template.rs:27-37 | Two values compare Equal on the rounds below k exactly when their digits agree at every one of those rounds (both directions). |
| Codec.CmpBelowTrans | src/template.rs:27-37 | The key order is transitive: x <= y and y <= z by digits imply x <= z. |
| Codec.CmpBelowConcat | src/types/tuple.rs:65-72 | When the rounds k .. k+m of x read another codec's value u, comparing k+m rounds is comparing u's m rounds first and the lower k rounds after that. This is the law behind every composite codec. |
| Codec.Alias | src/template.rs:44-71 | Definition of the alias macro: every operation reads the converted value `x as t2`. Its properties are stated by Codec.AliasFacts. |
| Codec.AliasFacts | src/template.rs:44-71 | An alias `t1 = t2` has t2's bucket count, round count and reversal flags. It is valid and reverse-free when t2's codec is. It orders values as t2 orders their conversions `x as t2`. The newer snapshot's `rdx_alias!` is used the same way. |
| Unsigned.UnsignedCodec | src/types/unsigned_integer.rs:3-93 | Definition: 16 buckets, bits/4 rounds, the nibble `(x >> 4r) & 15`, never reversed. Its properties are stated by Unsigned.UnsignedShape, Unsigned.UnsignedRebuild and Unsigned.UnsignedOrder. |
| Unsigned.UnsignedShape | src/types/unsigned_integer.rs:3-93 | u8/u16/u32/u64 use 16 buckets and bits/4 rounds (2/4/8/16). Every digit is below 16, and no bucket is ever reversed. src/unsigned_integer.rs:3-93 is the same in the older snapshot. |
| Unsigned.UnsignedRebuild | src/types/unsigned_integer.rs:14-18 | A value in range is the sum of its nibbles `(x >> 4r) & 15` times 16^r over all rounds, so its digits determine it. |
| Unsigned.UnsignedOrder | src/types/unsigned_integer.rs:60-64 | For values in range, comparing nibbles from the top round down is numeric comparison. |
| Unsigned.UsizeOrder | src/types/unsigned_integer.rs:95-102 | usize is the u16/u32/u64 codec of the pointer width: 16 buckets, width/4 rounds, valid, reverse-free, ordered numerically. |
| Signed.SignedCodec | src/signed_integer.rs:6-42 | Definition: max(16, 3) buckets, one round more than the unsigned alias, never reversed. Its properties are stated by Signed.SignedShape and Signed.SignedOrder. |
| Signed.SignedDigit | src/signed_integer.rs:20-34 | Definition of `get_bucket`: the transmuted pattern's nibble in the low rounds, the sign bucket (0 for MIN, 1 negative, 2 non-negative) in the top round. Its properties are stated by Signed.LowRounds and Signed.SignedOrder. |
| Signed.SignedShape | src/signed_integer.rs:6-42 | i8..i64 use max(16, 3) = 16 buckets and one round more than the unsigned type of the same width. The top digit is below 3, every digit is below the bucket count, and no bucket is reversed. |
| Signed.LowRounds | src/signed_integer.rs:20-23 | The rounds below the top one compare the two's-complement bit patterns as unsigned numbers. |
| Signed.SignedOrder | src/signed_integer.rs:20-34 | For values in range, the key order (sign bucket MIN=0, negative=1, non-negative=2, then the bit pattern) is numeric order. |
| Signed.IsizeOrder | src/signed_integer.rs:49-56 | isize is the i16/i32/i64 codec of the pointer width: 16 buckets, width/4+1 rounds, valid, reverse-free, ordered numerically. |
| Bool.BoolCodec | src/types/bool.rs:3-27 | Definition: 2 buckets, 1 round, digit 1 for true and 0 for false, never reversed. Its properties are stated by Bool.BoolShape and Bool.BoolOrder. |
| Bool.BoolShape | src/types/bool.rs:3-27 | bool has 2 buckets and 1 round. Every digit at every round is below 2, and nothing is reversed. src/bool.rs:3-19 is the same in the older snapshot, with reverse fitted as false. |
| Bool.BoolOrder | src/types/bool.rs:14-21 | false sorts strictly before true, equal keys mean equal booleans, and the digit does not depend on the round. |
| Char.CharCodec | src/char.rs:3-17 | Definition: the u32 codec applied to the code point. Its properties are stated by Char.CharIsU32. |
| Char.CharIsU32 | src/char.rs:3-17 | char has 16 buckets and 8 rounds. Its digits are the u32 nibbles of the code point, and they rebuild the code point. It is ordered by code point. |
| Tuple.UnitShape | src/types/tuple.rs:5-25 | `()` has 0 buckets and 0 rounds and is valid. |
| Tuple.SingleFacts | src/types/tuple.rs:27-49 | `(A,)` has A's bucket count, round count and flags, is valid when A is, and is ordered as its component. |
| Tuple.PairCodec | src/types/tuple.rs:51-82 | Definition of the pair codec. Its properties are stated by Tuple.PairShape and Tuple.PairOrder. |
| Tuple.PairShape | src/types/tuple.rs:51-82 | A pair's nbuckets is `cmp::max` of the components' counts: at least each one and equal to one of them. Its rounds are A+B, and it is valid and reverse-free when both components are. Rounds below B's count read `.1` with B's flags; the rounds above read `.0` at round - B::nrounds with A's flags. src/tuple.rs:50-81 is the same in the older snapshot. |
| Tuple.PairOrder | src/types/tuple.rs:65-72 | Pairs are ordered lexicographically, `.0` first. |
| Tuple.TripleCodec | src/types/tuple.rs:84-121 | Definition of the triple codec. Its properties are stated by Tuple.TripleShape, Tuple.TripleOrder and Tuple.TripleIsNested. |
| Tuple.TripleShape | src/types/tuple.rs:84-121 | A triple's bucket count is the max of the three: at least each one and equal to one of them. Its round count is the sum. It is valid and reverse-free when all three components are. `reverse` is C's below C's count, B's in the next B rounds, and A's (shifted by B+C) in every round above. src/tuple.rs:83-120 is the same in the older snapshot. |
| Tuple.TripleOrder | src/types/tuple.rs:100-109 | Triples are ordered lexicographically, `.0` first, then `.1`, then `.2`. |
| Tuple.TripleIsNested | src/types/tuple.rs:100-120 | At every round the triple's digit and its reversal flag are those of the nested pair `(a, (b, c))`: C lowest, then B, then A. |
| Array.ArrayCodec | src/types/array.rs:3-30 | Definition of the `[T; n]` codec. Its properties are stated by Array.ArrayShape, Array.ArrayDigitAt and Array.ArrayOrder. |
| Array.ArrayShape | src/types/array.rs:3-30 | `[T; n]` has T's bucket count and n times T's rounds, and is valid and reverse-free when T is. `reverse(r, b)` is T's flag at r % T::nrounds. |
| Array.ArrayDigitAt | src/types/array.rs:16-27 | Round k*i + j of an array reads round j of element n-1-i, and reverses bucket b exactly when T reverses bucket b of round j. |
| Array.ArrayOrder | src/types/array.rs:16-21 | Arrays are ordered lexicographically from element 0. |
| RadixSort.Distribute | src/sort.rs:14-27 | `helper_bucket` succeeds exactly when every element's digit is below the bucket count (both directions). A failure names the round and a digit at or above the count. |
| RadixSort.DistributeStable | src/sort.rs:14-27 | Each bucket ends as what it held followed by exactly the elements with its digit, in input order. The pass is stable. |
| RadixSort.DistributeFirstFailure | src/sort.rs:20-22 | A failing pass reports the digit of the first element whose digit is out of range. All earlier elements were in range. |
| RadixSort.Orient | src/sort.rs:56-64 | Definition: bucket i of a generation is walked back to front iff `reverse(round, i)`. Its properties are stated by SortTheory.GatherFacts. |
| RadixSort.Gather | src/sort.rs:69-89 | Definition: the buckets walked in index order, each oriented. Its properties are stated by SortTheory.GatherFacts and RadixSort.WriteBack. |
| RadixSort.Pass | src/sort.rs:52-67 | Definition of one later round. Its properties are stated by SortTheory.PassFacts and Stability.PassClasses. |
| RadixSort.RunRounds | src/sort.rs:52-67 | Definition of the loop over rounds 1 .. nrounds-1. Its properties are stated by SortTheory.RunRoundsFacts and Stability.RunRoundsClasses. |
| RadixSort.RdxSort | src/sort.rs:29-93 | Definition of `rdxsort` as a function of the input. Its properties are stated by SortTheory.RdxSortFacts, SortTheory.RdxSortSorted, Stability.RdxSortStable and Reference.SortMatchesReference. |
| RadixSort.WriteBack | src/sort.rs:69-91 | The write-back copies the final buckets in index order, bucket i back to front iff `reverse(nrounds-1, i)`. A bucket never runs past the slice end, and the position ends at the slice length. |
| SortTheory.GatherFacts | src/sort.rs:52-67 | Walking the buckets with per-bucket reversal keeps the multiset of their contents. Without reversal it is their plain concatenation. |
| SortTheory.PassFacts | src/sort.rs:52-67 | A later round succeeds exactly when every element's digit of that round is in range. It keeps the multiset of the elements, and a failure names a digit some element has. |
| SortTheory.RunRoundsFacts | src/sort.rs:52-67 | The later rounds succeed exactly when every digit of every later round is in range, and then keep the multiset. Otherwise the error names the first failing round and a digit of it. |
| SortTheory.RdxSortFacts | src/sort.rs:29-93 | The sort succeeds exactly when a codec with rounds has a bucket and every digit of every scheduled round is below the bucket count. It then returns a permutation of the input. With rounds but no buckets it fails with the division by zero of line 42, on every input, the empty one included. Any other failure names the lowest failing round and an element's digit at it. |
| SortTheory.RdxSortSorted | src/sort.rs:29-93 | For a reverse-free codec, a successful sort returns a sequence sorted by digit key. |
| Stability.KeyClassFilter | src/sort.rs:19-25 | Taking the elements whose digit of a round below k is b keeps the whole class of y (the elements that share y's digits below k) when b is y's digit there, and keeps none of it otherwise. |
| Stability.DistributeClasses | src/sort.rs:14-27 | Distributing by a round below k into empty buckets and reading the buckets in index order keeps every class below round k, in input order. |
| Stability.PassClasses | src/sort.rs:52-67 | Without reversal, a later round keeps every class of the higher rounds, in the order of the previous generation. |
| Stability.RunRoundsClasses | src/sort.rs:52-67 | Without reversal, the later rounds keep every class of the full key. |
| Stability.RdxSortStable | src/sort.rs:29-93 | For a reverse-free codec, a successful sort is stable: elements with equal keys leave in their input order. |
| Stability.SortedClassesUnique | src/sort.rs:29-93 | Two sequences sorted by key whose key classes agree are equal, so a stable key sort has exactly one result. |
| Stability.SortedFixpoint | src/sort.rs:29-93 | For a reverse-free codec, sorting a sequence already sorted by key returns it unchanged. |
| Reference.ValidSucceeds | src/template.rs:18-37 | A codec that keeps its promise (at least one bucket when it has rounds, and digits below the bucket count) never makes the sort fail, and the result is a permutation of the input. |
| Reference.InsertionSortClasses | tests/lib.rs:69-70 | The reference sort is stable: when `le` agrees with the digit key on the input, each key class of its result is that class of the input, in input order. |
| Reference.SortMatchesReference | tests/lib.rs:69-77 | For a valid reverse-free codec whose key agrees with a total preorder `le` on the input, the sort returns exactly the stable insertion sort by `le`, equal keys included. |
| Reference.SortIdempotent | src/sort.rs:29-93 | For a valid reverse-free codec, sorting the sorted result again returns it unchanged, equal keys included. |
| Reference.UnsignedSortIsReference | tests/lib.rs:100-118 | For unsigned values in range, the sort returns the ascending numeric sort. |
| Reference.SignedSortIsReference | tests/lib.rs:80-98 | For signed values in range, the sort returns the ascending numeric sort. |
| Reference.BoolSortPartition | src/types/bool.rs:14-21 | Sorting booleans always succeeds, keeps the multiset, and puts every false before every true. |
| Slice.SortSlice | src/sort.rs:29-93 | The in-place slice sort returns the sort's result. With no rounds the slice is unchanged. With rounds but no buckets it fails with `ZeroBuckets`, as the capacity estimate divides by zero. Otherwise it succeeds iff every digit is in range, then keeps the multiset, and is sorted by key for reverse-free codecs. src/template.rs:88-152 is the older snapshot. |
| Slice.SortVec | src/sort.rs:95-100 | Sorting a vector is sorting its slice: the same result, a permutation, sorted for reverse-free codecs. src/template.rs:154-159 is the older snapshot. |
| Trie.NewInner | src/tree.rs:64-73 | `NodeInner::new` has the given round and one free slot per bucket. |
| Trie.NewPruned | src/tree.rs:149-163 | `NodePruned::new` stores x's digits of rounds round-1 down to 0, top first, and ends in x. |
| Trie.FirstDiff | src/tree.rs:166-171 | The scan stops at the first stored digit that differs from x's digit of the matching round, or at the end when all agree. |
| Trie.InsertInner | src/tree.rs:75-113 | Insertion into an inner node keeps its round and the shape invariant. Values sit only at round-1 slots. Inner and pruned nodes sit only below round > 1. A pruned node's digit count is its gap to its child. |
| Trie.SplitNode | src/tree.rs:184-202 | The split's new inner node has round `self.round - i`, the old tail (or the old child) in slot `bucket_y`, and every other slot free. |
| Trie.InsertOrSplit | src/tree.rs:165-233 | `insert_or_split` returns an inner or pruned node shaped for the same round. |
| Trie.NewTree | src/tree.rs:264-268 | `RdxTree::new` is a well-shaped tree with no values. |
| Trie.TreeInsert | src/tree.rs:270-279 | `RdxTree::insert` keeps the tree invariant. |
| Trie.Build | src/tree.rs:264-279 | A new tree followed by insertions is a well-shaped tree. |
| TrieTheory.InsertInnerFacts | src/tree.rs:75-113 | After inserting x into an inner node, every value still lies on its digit path. The values are those whose key differs from x's, plus x. |
| TrieTheory.InsertOrSplitFacts | src/tree.rs:165-233 | Both outcomes of `insert_or_split` (the split at the first differing digit, or the descent or overwrite when none differs) keep the paths and hold the old values with other keys plus x. |
| TrieTheory.SplitNodeFacts | src/tree.rs:184-202 | The split's inner node holds exactly the pruned node's values, each still on its path. |
| TrieTheory.TreeInsertFacts | src/tree.rs:270-279 | After `insert(x)` the values are x and the old ones whose key differs from x's. The child count grows by one unless a value with x's key was overwritten. |
| TrieTheory.ElementsAscending | src/tree.rs:75-113 | The values of a node, in slot order, are strictly ascending by key. |
| TrieTheory.KeepLength | src/tree.rs:104-110 | Removing x's key from an ascending sequence removes at most one value, exactly when the key is present. |
| TrieTheory.BuildContents | src/tree.rs:264-279 | A tree built by inserting xs holds exactly the last inserted value of each key, on valid paths, in strictly ascending key order. |
| Trie.NNodes | src/tree.rs:115-142 | Definition of `nnodes` for a node: the (inner, pruned, child, free) counts summed over the subtree, as src/tree.rs:235-250 dispatches. Its properties are stated by TrieTheory.NNodesBalance. |
| Trie.TreeNNodes | src/tree.rs:295-300 | Definition of `RdxTree::nnodes`: the counts of the root. Its properties are stated by TrieTheory.TreeCounts. |
| TrieTheory.NNodesBalance | src/tree.rs:115-142 | In the counts of a shaped node, nbuckets times the inner nodes plus one equals free slots plus values plus inner nodes. |
| TrieTheory.TreeCounts | src/tree.rs:295-300 | `nnodes` counts one child per stored value and satisfies the balance. A fresh tree counts (1, 0, 0, nbuckets). |
| TrieIter.FoldUp | src/tree.rs:368-378 | Folding a pruned path's reversal flags leaves the entry flag unchanged for a reverse-free codec. |
| TrieIter.Iter | src/tree.rs:281-293 | `iter()` starts with one forward frame on the root at its first slot, whose pending values are all the tree's values. |
| TrieIter.Step | src/tree.rs:330-403 | Definition of one turn of the `while` loop of `next`. Its properties are stated by TrieIter.StepFacts. |
| TrieIter.StepFacts | src/tree.rs:330-403 | One loop turn keeps the stack invariant and strictly decreases the remaining work. The value it yields, followed by what the new stack has still to visit, is (as a multiset; exactly, for a reverse-free codec) what the old stack had still to visit. |
| TrieIter.Next | src/tree.rs:324-407 | `next` returns None exactly when it leaves the stack empty, and then nothing was pending. Otherwise less work remains, and the value yielded followed by what is still pending is what was pending before (as a multiset; exactly, for a reverse-free codec). |
| TrieIter.Collect | src/tree.rs:445-456 | Collecting the iterator yields a permutation of the stored values, and for a reverse-free codec exactly the values in slot order. By ElementsAscending, that order is ascending. |
| TrieIter.IterFacts | src/tree.rs:281-293 | The initial stack satisfies the stack invariant and has all the tree's values pending. |
| Examples.SortsTo | tests/lib.rs:69-77 | A valid reverse-free sort returns any key-sorted permutation of its input when keys tell the elements apart. |
| Examples.DocExample | src/lib.rs:36-40 | Sorting the i32 vector [2, 10, 0, 1] yields [0, 1, 2, 10]. |
| Examples.FooCodec | src/lib.rs:138-158 | Definition of the `Foo` codec: 256 buckets, 2 rounds, round 0 reads b and every other round reads a. Its properties are stated by Examples.FooOrder. |
| Examples.FooOrder | src/lib.rs:138-158 | The `Foo` codec orders records by `a`, then by `b`. |
| Examples.FooExample | src/lib.rs:160-176 | Sorting the four `Foo` records yields them in (a, b) order. |
| Examples.SpecialValuesI8 | tests/lib.rs:80-83 | Sorting i8 MAX, MIN, MAX-1, MIN+1, -1, 0, 1 yields them in ascending order. |
| Examples.TreeExample | src/tree.rs:445-458 | The u32 trie of 1, 22, 2, 1024, 0 holds [0, 1, 2, 22, 1024] in slot order, counts 5 children, and has free slots = 15 x inner nodes - 4. |

## Left out

- Floating point (src/floats.rs): IEEE 754 classification, signed zero and the float-to-integer reinterpretation. The float trie test (src/tree.rs:460-474) is left out too.
- `Rc<RefCell<..>>` sharing, the copy in `insert_or_split` and `PhantomData`: the trie is one owned datatype, and an insertion returns the new node.
- `unsafe` writes (`get_unchecked_mut`, `ptr::copy_nonoverlapping`): they are ordinary sequence and array writes.
- The bucket `presize` capacity heuristic: its value has no effect on the result. Its division by a zero bucket count is modelled, as the `ZeroBuckets` error.
- `print_node`, `print_tree`, the benchmarks and the benchmark script: output and timing only.
- The test drivers in tests/: random data generation. Their vectors and reference comparison are stated as lemmas instead.
- Integer widths: `usize` overflow of round and bucket counters is not modelled. All counts are unbounded `nat`s.
- The definition of the newer snapshot's `rdx_alias!` macro is not part of this model. `usize`/`isize` are modelled as aliases in the way `rdxsort_template_alias!` (src/template.rs:44-71) defines them.
- Panics inside the trie are preconditions, not error results: `unreachable!()` arms, a bucket index out of range, and `round - 1` underflow. Insertion requires the shape invariant and in-range digits.
- Tuple.UnitShape: the unit's `get_bucket` and `reverse` are `unreachable!()`. With zero rounds nothing calls them, so the record holds the constant digit 0 and the flag false.
- Array.ArrayShape: `[T; n]` when T has zero rounds divides by zero in the source (`round / T::cfg_nrounds()`). The model gives digit 0 and flag false, which the sort never reads because the array then has zero rounds too.
- TrieIter.FoldUp: states only the reverse-free case. The fold walks the round counter upward as written, and its correctness for reversing codecs is not claimed.
- TrieIter.Collect: ascending iteration is proved only for reverse-free codecs. For other codecs only the multiset of the output is stated.
- Examples.TreeExample: does not state the exact `nnodes` result (4, 3, 5, 56) of the u32 test. It proves the child count 5 and the balance, which gives 56 free slots for 4 inner nodes. The inner and pruned counts themselves are not derived.
- RadixSort.Pass, RadixSort.RunRounds: state only the generation size. Their meaning is in SortTheory.PassFacts and SortTheory.RunRoundsFacts.
