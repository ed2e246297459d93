# binary-tree: the counting tree, in Dafny

A model of the core of the Rust crate `binary-tree`. The core is
`CountTree`, a list held in a balanced binary tree. Every node caches the
number of values in its subtree (`count`) and its height (`height`).
Positional operations use those caches to find index `i` in logarithmic
time. Every change rebalances on the way back up with AVL rotations.

The model has these parts:

- **Plain nodes** (`Plain`). `PlainTree` and `TestNode` as one datatype,
  with the swap-based child-link primitives and the default rotations of
  the `BinaryTree` trait.
- **The walk protocol** (`Walk`). `walk_mut`, driven by a queue of step
  answers, plus the `insert_before` and `try_remove` sub-walks on plain
  nodes.
- **The iterator** (`Iter`). The explicit-stack in-order iterator of
  `iter.rs`.
- **The balance oracle** (`Level`). `compute_level` of the test suite.
- **Counting nodes** (`CountNode`). Caches, `update_stats`,
  `balance_factor`, `rebalance` and the child links. Each is specified
  against the plain node through `Shape`, which forgets the caches.
- **The walks of `CountTree`** (`CountWalk`). Each one is a recursive
  function, with the index rule `index_walker!`.
- **The bulk build** (`Bits`, `Bulk`). The 32-bit helpers `is_power` and
  `exp_floor_log`, the as-written `from_iter`, and the corrected builder.
- **The public list API** (`Count`). Its abstraction is
  `Values(t)`, the in-order sequence.
- **The tests as lemmas** (`CountTests`). Each is stated for arbitrary
  values, so that the test's own values are one instance.

The tree invariant `Count.Inv` has three parts:

- the caches are right (`Valid`);
- every node's children differ in height by at most one (`Avl`);
- the count fits in the source's `u32`.

Every operation that changes the tree keeps `Inv` and is specified by what
it does to `Values`. `Count.InvIsLevelBalanced` connects `Inv` to the
balance check the tests use.

## Model

| member | source | states |
|---|---|---|
| Plain.New | src/plain.rs:22-29 | a new plain node is a leaf holding the value: in-order `[v]`, height 0 |
| Plain.Root | src/plain.rs:34-36 | a plain tree is always its own root, so `root` is never absent |
| Plain.DetachLeft | src/test.rs:99-101 | the node keeps its value and right child, its left slot is empty, and the handed-back subtree is the old left child; the in-order sequences of the two pieces concatenate to the original |
| Plain.DetachRight | src/test.rs:103-105 | mirror of DetachLeft: the two pieces concatenate, in order, to the original |
| Plain.InsertLeft | src/test.rs:107-110 | `st` is installed as the left child and exactly the previous occupant is handed back (a swap) |
| Plain.InsertRight | src/test.rs:112-115 | mirror of InsertLeft |
| Plain.InsertLeftSwapsBack | src/lib.rs:15-25 | swapping the handed-back subtree in again restores the node, and detach followed by insert is the identity: the swap contract of the child-link primitives |
| Plain.RotateLeft | src/lib.rs:30-41 | succeeds exactly when a right child exists, in which case the right child is lifted above the node with its left subtree moved across; on failure the tree is unchanged; the in-order sequence is kept either way |
| Plain.RotateRight | src/lib.rs:43-54 | mirror of RotateLeft |
| Plain.RotateLeftThenRight | src/lib.rs:30-54 | a right rotation undoes a successful left rotation |
| Plain.RotateRightThenLeft | src/lib.rs:30-54 | a left rotation undoes a successful right rotation |
| Plain.RotateScenario | src/lib.rs:101-123 | the rotate test: rotating 20/10/30/25 left puts 30 on top with 20 (10, 25) on its left; rotating right restores the tree; the order is 10, 20, 25, 30 |
| Level.ComputeLevel | src/test.rs:38-55 | the level is the height plus one, and it is tagged Balanced exactly when every node's children differ in height by at most `tolerance` |
| Level.ImbalancePropagates | src/test.rs:52-54 | an imbalanced child makes the parent imbalanced, one level above the taller child |
| Level.LevelScenario | src/test.rs:140-150 | the test fixture is Balanced(3) within tolerance 1 and Imbalanced(3) within tolerance 0 |
| Walk.WalkMut | src/test.rs:172-191 | a walk driven by a queue of answers uses at most one answer per node; the step-out calls see directions that mirror the used answers in reverse; the unused answers are returned |
| Walk.WalkMutFollows | src/test.rs:172-191 | the walk stops at the node the used answers lead to, and the k-th step-out call sees the ancestor k levels above it |
| Walk.WalkScenario | src/test.rs:172-191 | the walk test: Right, Left, Stop stops at 25; the step-out calls see 30 (Left), then 20 (Right) |
| Walk.InsertBefore | src/count.rs:579-585 | `x` becomes the in-order predecessor of the node; the node's value and right subtree stay where they are |
| Walk.TryRemove | src/test.rs:193-207 | a node with a child loses exactly its own value, handed back as a leaf, and the rest keeps its order; a childless node is left alone and nothing is handed back |
| Walk.TryRemoveScenario | src/test.rs:193-207 | the remove test: removing 30 hands back 30 and leaves 25 in its place, also with a right child 40 added |
| Iter.New | src/iter.rs:18-22 | the fresh iterator still owes the tree's whole in-order sequence |
| Iter.DescendLeft | src/iter.rs:32-41 | descending the left spine stops at a node with no left child, and what is still owed does not change |
| Iter.Next | src/iter.rs:30-50 | `None` exactly when the stack is empty; otherwise the yielded value followed by what the new stack owes is what the old stack owed |
| Iter.Collect | src/iter.rs:25-50 | draining the iterator yields the in-order sequence, each value once |
| Iter.IterationScenario | src/iter.rs:57-67 | the iteration test: 7 (8 (·, 12), 5) yields 8, 12, 7, 5, then `None` |
| CountNode.ValidCaches | src/count.rs:499-507 | correct caches hold the subtree's size and height |
| CountNode.AvlIsLevelBalanced | src/test.rs:38-55 | with correct caches, the AVL condition is exactly what `compute_level` calls balanced within 1, and the level is the height plus one |
| CountNode.New | src/count.rs:456-464 | a new counting node is a correct AVL leaf holding the value |
| CountNode.LCount | src/count.rs:466-468 | with correct caches, the left count is the number of values left of the node |
| CountNode.RCount | src/count.rs:470-472 | with correct caches, the right count is the number of values right of the node |
| CountNode.BalanceFactor | src/count.rs:474-478 | with correct caches, the balance factor is the left height minus the right height, an absent side counting -1; a positive factor implies a left child and a negative one a right child |
| CountNode.UpdateStats | src/count.rs:499-507 | only the caches change; over children with correct caches the node's caches become correct, and `count` is the number of values |
| CountNode.DetachLeft | src/count.rs:529-533 | the plain detach, with correct caches that split the count between the two pieces |
| CountNode.DetachRight | src/count.rs:535-539 | mirror of DetachLeft |
| CountNode.InsertLeft | src/count.rs:541-545 | the plain swap, with the node's caches recomputed |
| CountNode.InsertRight | src/count.rs:547-551 | mirror of InsertLeft |
| CountNode.InsertLeftSwapsBack | src/count.rs:529-545 | detaching the left child and installing it again gives back the same node, caches included |
| CountNode.RotateLeft | src/lib.rs:30-41 | the trait's rotation on a counting node has the plain rotation's shape, and its caches are correct when the children's are, even if the node's own caches are stale |
| CountNode.RotateRight | src/lib.rs:43-54 | mirror of RotateLeft |
| CountNode.Rebalance | src/count.rs:481-497 | keeps the in-order sequence and the caches' correctness, and leaves a node whose balance factor is within one unchanged |
| CountNode.RebalanceRestoresAvl | src/count.rs:481-497 | with AVL children and a balance factor of at most two, the result is AVL, and its height is the taller child's height or one more |
| CountNode.RebalanceAfterGrowth | src/count.rs:161-166 | after a child grew by at most one, rebalancing gives an AVL node whose height is the old height or one more |
| CountNode.RebalanceAfterShrink | src/count.rs:216-222 | after a child shrank by at most one, rebalancing gives an AVL node whose height is the old height or one less |
| CountWalk.AppendLast | src/count.rs:188-200 | the walk of `push_back` appends `x` to the in-order sequence and keeps the caches correct |
| CountWalk.AppendFirst | src/count.rs:174-186 | the walk of `push_front` puts `x` in front and keeps the caches correct |
| CountWalk.ExtractLast | src/count.rs:253-272 | the walk of `pop_back` takes off the last value and returns it |
| CountWalk.ExtractFirst | src/count.rs:232-251 | the walk of `pop_front` takes off the first value and returns it |
| CountWalk.InsertBefore | src/count.rs:161-166 | `x` becomes the in-order predecessor of the node |
| CountWalk.TryRemove | src/count.rs:216-222 | a node with a child loses exactly its own value and the rest keeps its order; a childless node is left alone |
| CountWalk.AppendLastIsPlain | src/count.rs:579-585 | without rebalancing, appending has the same shape as the plain sub-walk |
| CountWalk.InsertBeforeIsPlain | src/count.rs:579-585 | without rebalancing, `insert_before` on a counting node has the same shape as on a plain node |
| CountWalk.AppendLastAvl | src/count.rs:188-200 | appending with rebalancing keeps an AVL tree AVL and raises its height by at most one |
| CountWalk.AppendFirstAvl | src/count.rs:174-186 | the same for the front |
| CountWalk.ExtractLastAvl | src/count.rs:253-272 | removing the last value keeps an AVL tree AVL and lowers its height by at most one |
| CountWalk.ExtractFirstAvl | src/count.rs:232-251 | the same for the first value |
| CountWalk.InsertBeforeAvl | src/count.rs:161-166 | `insert_before` with rebalancing keeps AVL, with a height gain of at most one |
| CountWalk.TryRemoveAvl | src/count.rs:216-222 | `try_remove` with rebalancing keeps AVL, with a height loss of at most one |
| CountWalk.IndexStep | src/count.rs:26-41 | the index rule: for a position inside the subtree, go left exactly when it lies among the left values, stop exactly on the node itself, and otherwise go right with the offset moved past the node |
| CountWalk.IndexGet | src/count.rs:106-124 | the `get` walk returns the value at the requested position of the subtree |
| CountWalk.IndexSet | src/count.rs:126-144 | a write through `get_mut` replaces exactly the value at that position; the counts and heights are untouched |
| CountWalk.IndexInsertPlacesValue | src/count.rs:146-172 | inserting at a position in range puts `x` exactly there and shifts the later values up by one |
| CountWalk.IndexRemoveTakesValue | src/count.rs:202-230 | removing at a position in range returns the value there and closes the gap |
| CountWalk.IndexInsertAvl | src/count.rs:146-172 | the insert walk keeps AVL, with a height gain of at most one |
| CountWalk.IndexRemoveAvl | src/count.rs:202-230 | the remove walk keeps AVL, with a height loss of at most one |
| Bits.IsPowerExactlyPowersOfTwo | src/count.rs:293-299 | `is_power` holds exactly of the 32 powers of two a `u32` can hold |
| Bits.ExpFloorLog | src/count.rs:301-314 | 0 maps to 0 and a power of two to itself; any other value up to 2^31 maps to a power of two in `(v/2, v]`; above 2^31 the wrapped increment gives 0 |
| Bits.ExpFloorLogIsLargest | src/count.rs:301-314 | for positive values up to 2^31, no power of two up to `v` exceeds `exp_floor_log(v)` |
| Bits.ExpFloorLogScenario | src/count.rs:344 | the values the bulk-build tests feed it: 64 to 64, 95 to 64, 7 to 4 and 0 to 0 |
| Bulk.RotateRun | src/count.rs:337-342 | the rotation loop of the grow phase keeps the in-order sequence and the caches' correctness |
| Bulk.Grow | src/count.rs:327-343 | the grow phase, where it does not fail, holds the values read so far in order |
| Bulk.FixSpine | src/count.rs:348-360 | the clean-up's reshaping walk keeps the in-order sequence and the caches' correctness |
| Bulk.Cleanup | src/count.rs:344-362 | the clean-up loop, where it does not fail, keeps the in-order sequence; every cache below the root stays correct, and so does the root's count |
| Bulk.FromIterAsWritten | src/count.rs:316-367 | the build as written gives the empty tree for no values; where it does not fail, it holds the input in order with correct caches below the root and a correct root count |
| Bulk.FromIterSixIsNotAvl | src/count.rs:344-362 | for any six values the build as written ends with a root whose right side is two levels taller than its left, so the result is not AVL |
| Bulk.FromIterSevenIsPerfect | src/count.rs:324-363 | for any seven values the build as written gives the perfect tree of height 2: correct caches, AVL, and Balanced(3) at tolerance 0; the seventh value's two rotations do it and the clean-up does nothing |
| Bulk.BuildBalanced | src/count.rs:316-367 | the corrected builder gives a tree with correct caches that is AVL, holds the input in order, and has height floor(log2 n) |
| Bulk.BuildBalancedPerfect | src/count.rs:647-652 | `2^k - 1` values make a perfect tree: `compute_level` with tolerance 0 gives Balanced(k) |
| Bulk.BuildBalancedScenario | src/count.rs:647-658 | the `from_iter` test: 63 values give height 5 and perfect level 6; 94 values give height 6 and level 7 within tolerance 1 |
| Count.New | src/count.rs:84-87 | a new tree keeps the invariant and is empty |
| Count.IsEmpty | src/count.rs:89-92 | true exactly when the list is empty |
| Count.Len | src/count.rs:94-97 | on a tree with correct caches, the length of the list |
| Count.Get | src/count.rs:106-124 | on a tree with correct caches, `Some` exactly for positions in range, holding the value there |
| Count.GetMut | src/count.rs:126-144 | `Some` exactly for positions in range; the write replaces that one value and keeps the invariant |
| Count.PushFront | src/count.rs:174-186 | puts `x` in front and keeps the invariant |
| Count.PushBack | src/count.rs:188-200 | appends `x` and keeps the invariant |
| Count.Insert | src/count.rs:146-172 | for any position up to the length, puts `x` exactly there, shifts the rest up and keeps the invariant |
| Count.PopFront | src/count.rs:232-251 | `None` exactly on an empty tree, which is left unchanged; otherwise returns the first value and the rest of the list, keeping the invariant |
| Count.PopBack | src/count.rs:253-272 | mirror of PopFront for the last value |
| Count.Remove | src/count.rs:202-230 | for a position in range, returns the value there, closes the gap and keeps the invariant |
| Count.ToSeq | src/count.rs:370-395 | iterating a tree yields its list in order |
| Count.FromIter | src/count.rs:316-367 | the bulk build keeps the invariant and holds the input in order |
| Count.InsertThenRemove | src/count.rs:146-230 | `remove(i)` after `insert(i, x)` returns `x` and restores the list, and the length grows by one |
| Count.RemoveThenInsert | src/count.rs:146-230 | `insert(i, v)` of the value `v` that `remove(i)` returned restores the list |
| Count.PushFrontThenPop | src/count.rs:174-251 | `pop_front` undoes `push_front` |
| Count.PushBackThenPop | src/count.rs:188-272 | `pop_back` undoes `push_back` |
| Count.GetAfterInsert | src/count.rs:106-172 | after `insert(i, x)`, positions before `i` read as before, `i` reads `x`, and later positions read the value that was one before |
| Count.GetAfterRemove | src/count.rs:106-230 | after `remove(i)`, positions before `i` read as before and later ones read the value that was one after |
| Count.GetAfterGetMut | src/count.rs:106-144 | after a write through `get_mut(i)`, position `i` reads the new value and every other position is unchanged |
| Count.FromIterThenIter | src/count.rs:316-395 | collecting values and iterating the tree gives them back, and `get` agrees at every position |
| Count.InvIsLevelBalanced | src/test.rs:38-55 | every tree that keeps the invariant is balanced within 1 by `compute_level`, one level above its height |
| CountTests.TestNodesShape | src/count.rs:579-585 | the test fixture is 7 with left child 8 (right child 12) and right child 5 |
| CountTests.Counting | src/count.rs:600-607 | the `counting` test: left count 2, right count 1, count 4, height 2, and the order 8, 12, 7, 5 |
| CountTests.Custom | src/count.rs:587-598 | the `custom` test: positions 0 to 3 read back, position 4 is out of bounds, and a write through `get_mut(3)` is read back |
| CountTests.RebalanceTest | src/count.rs:609-622 | the `rebalance` test: balance factor 1, then after detaching the right child and rebalancing, factor 0, level Balanced(2) and the order 8, 12, 7 |
| CountTests.InsertTest | src/count.rs:624-645 | the `insert` test: repeated front inserts read back in reverse; heights 2 and 3; levels Balanced(3) and Balanced(4) |
| CountTests.RemoveRepeatedlyFollowsList | src/count.rs:661-668 | the tree's repeated remove at a fixed position matches the same loop on the list |
| CountTests.DropRepeatedlyTakesRun | src/count.rs:661-668 | dropping `k` times at `pos` takes the run `v[pos..pos+k]` in order and leaves the rest in order |
| CountTests.RemoveTest | src/count.rs:661-668 | the `remove` test: from 0..93, removing at 64 twenty times returns 64 to 83, and every tree along the way is balanced within 1 |
| CountTests.QuickcheckInsert | tests/quickcount.rs:13-38 | the quickcount property: after an insert at any position up to the length, the neighbours are read one apart around `x`, and the tree is balanced within 1 |
| CountTests.PopEnds | src/count.rs:232-272 | popping an empty tree gives `None`; a one-value tree pops to empty from either end |

## Left out

- Copy-on-write and unboxed trees (`cow.rs`, `unbox.rs`). These are other
  node types over the same walks and are not part of this model.
- `clear` and `Drop`. They only release memory, which immutable values
  do not model.
- The explicit ancestor stacks of the walks, and the `stack_blow` tests.
  The source keeps those stacks only to bound recursion depth. Here every
  walk is plain recursion, with the step-out hook applied on the way out.
- `size_hint` and the count of remaining items in the iterators. They are
  hints and have no other use.
- Benches, examples, and the quickcheck driver that generates trees. The
  quickcount property is stated over every tree that keeps the invariant.
- Count.Insert, Count.PushFront, Count.PushBack: the `u32` count is
  modelled as a precondition (`Len < 2^32 - 1`), not as wrap-around.
- Count.FromIter: the same bound on the input's length.
- Count.Insert, Count.Remove: an out-of-range position makes the source
  panic; the model requires the position to be in range.
- Count.GetMut: the mutable reference is modelled as the write made
  through it. It returns the changed tree, or `None` where `get_mut`
  returns `None`.
- Count.Len, Count.Get: the statements about the list assume correct
  caches, which `Inv` provides.
- Count.FromIter: built with the corrected builder `Bulk.BuildBalanced`
  (see Findings). The tree it gives for 94 values has root balance factor
  0, not the -1 the bulk-build test expects (count.rs:656).
- Bulk.BuildBalancedScenario: states the height and level the bulk-build
  test expects for 63 and 94 values, but not the root balance factor of
  -1 for 94 values (count.rs:656). The corrected builder gives 0 there.
- Bulk.FromIterAsWritten: returns `None` where an `unwrap` of a rotation
  would panic. It is not proved never to return `None`. Its result is
  worked out only for six values (`Bulk.FromIterSixIsNotAvl`) and seven
  values (`Bulk.FromIterSevenIsPerfect`). The test's sizes, 63 and 94
  values (count.rs:647-658), are not worked out, so agreement with that
  test is not proved.
- Bulk.FromIterAsWritten, Bulk.Cleanup: the caches are claimed correct
  everywhere below the root, and the root's count is claimed correct. The
  root's height is not claimed, because the clean-up never re-links the
  root after fixing its right spine.
- Bulk.Grow, Bulk.Cleanup: `None` on a failed rotation, as above.
- Bits.ExpFloorLog: above 2^31 the source's `efl += 1` overflows. The
  model wraps it to 0, as a release build does; a debug build would panic.
- Walk.InsertBefore, Walk.TryRemove, CountWalk.InsertBefore,
  CountWalk.TryRemove: this revision's lib.rs (the `BinaryTree` trait,
  lib.rs:11-56) does not define `NodeMut`, `walk_mut`, `walk_reshape`,
  `walk_extract`, `insert_before` or `try_remove`. They are specified
  from their uses at count.rs:161-166, 216-222, 232-272 and 579-585 and
  at test.rs:172-207. The step-out callback is reduced to the two
  closures used: rebalance, or do nothing.
- Walk.WalkMut: an exhausted queue of answers counts as Stop. In the walk
  test, `step_iter.next().unwrap()` (test.rs:179) would panic there
  instead; the test never gets that far.
- Iter: `iter.rs` is written against an older interface than
  `count.rs`. Iteration over a `CountTree` is modelled through it on the
  shape of the tree.
- The `value`, `left`, `right` and `value_mut` accessors and `root` of
  `CountTree`: these are field reads and are used directly.
- Level.Level.IsBalanced, Level.Level.AsU32: `Level::is_balanced` and
  `Level::as_u32` of the test suite (test.rs:15-29) are tag and field
  reads, used directly with no contract of their own. What they report
  about a tree is stated by the contract of `Level.ComputeLevel`.

## Findings

| source | as written | input that shows it | evidently intended | confidence | as-written member | corrected member |
|---|---|---|---|---|---|---|
| src/count.rs:344-362 | the clean-up pass rotates the root right and then fixes only the right spine; it stops once `lcount + 1 <= exp_floor_log(count + 1) - 1` | any six values: the result has a single leaf on the left and a right side of height 2, so the root's balance factor is -2 | `from_iter` builds an AVL tree, which the other operations need in order to keep their balance | not executed | Bulk.FromIterSixIsNotAvl | Bulk.BuildBalanced |
