/** The bulk build of src/count.rs (`FromIterator for CountTree`), in two
    versions: the algorithm as the source writes it, which can leave the
    tree out of AVL balance, and a divide-and-conquer build, also linear,
    that the container uses and whose balance is proved. */
module Bulk {
  import opened Common
  import Plain
  import Level
  import Bits
  import opened CountNode

  /** The rotation loop of one grow step: rotate right while every bit of
      `rotatePoints` is set in `rcount`, shifting one more set bit into
      `rotatePoints` each time. A rotation without a left child would panic
      on `unwrap`: `None`. Each rotation shortens the left spine, which
      bounds the loop. */
  function RotateRun<T>(node: Subtree<T>, rcount: bv32, rotatePoints: bv32): (r: Option<Subtree<T>>)
    requires node.Node?
    ensures r.Some? ==> r.value.Node? && Elems(r.value) == Elems(node)
    ensures r.Some? && Valid(node) ==> Valid(r.value)
    decreases node.left
  {
    if rcount & rotatePoints != rotatePoints then Some(node)
    else
      var rot := RotateRight(node);
      if !rot.ok then None
      else RotateRun(rot.node, rcount, (rotatePoints << 1) | 1)
  }

  /** The bits the rotation loop tests: the count, halved when `count + 1`
      is a power of two. */
  function Threshold(count: bv32): bv32 {
    if Bits.IsPower(count + 1) then count >> 1 else count
  }

  /** The grow phase from the `i`-th value on, `count` values read so far
      (counted in `u32`): the next value becomes the root with the tree
      built so far as its left child, and then the root is rotated right as
      many times as the bit test on `Threshold` allows. */
  function Grow<T>(node: Subtree<T>, xs: seq<T>, i: nat, count: bv32): (r: Option<(Subtree<T>, bv32)>)
    requires node.Node? && i <= |xs|
    ensures r.Some? ==> r.value.0.Node? && Elems(r.value.0) == Elems(node) + xs[i..]
    ensures r.Some? && Valid(node) ==> Valid(r.value.0)
    decreases |xs| - i
  {
    if i == |xs| then Some((node, count))
    else
      var (joined, _) := InsertLeft(New(xs[i]), node);
      var count' := count + 1;
      match RotateRun(joined, Threshold(count'), 1)
      case None => None
      case Some(grown) =>
        assert xs[i..] == [xs[i]] + xs[i + 1..];
        Grow(grown, xs, i + 1, count')
  }

  /** The `walk_reshape` of the clean-up pass: at a node whose left side is
      more than one taller, rotate right and continue with the right child
      (re-linking it afterwards, which recomputes the node's statistics);
      anywhere else stop. */
  function FixSpine<T>(t: Subtree<T>): (r: Subtree<T>)
    ensures Elems(r) == Elems(t)
    ensures t.Node? ==> r.Node?
    ensures Valid(t) ==> Valid(r)
    decreases |Elems(t)|
  {
    if t.Empty? then t
    else if BalanceFactor(t) <= 1 then t
    else
      var top := RotateRight(t).node;
      assert |Elems(top.right)| < |Elems(t)|;
      Make(top.left, top.value, FixSpine(top.right))
  }

  /** Every cache below the root is correct, and so is the root's count;
      only the root's height may be stale. This is what the clean-up keeps,
      as it never re-links the root after fixing its right spine. */
  predicate ValidBelowRoot<T>(t: Subtree<T>) {
    && t.Node?
    && Valid(t.left) && Valid(t.right)
    && t.count == CountOf(t.left) + CountOf(t.right) + 1
  }

  /** The clean-up loop: while the left subtree holds `balancedTill` values
      or more (`lcount + 1 > balancedTill`), rotate the root right and fix
      the new right spine. The root itself is not re-linked after the fix,
      so its height cache is left as the rotation computed it. */
  function Cleanup<T>(node: Subtree<T>, balancedTill: int): (r: Option<Subtree<T>>)
    requires node.Node?
    ensures r.Some? ==> r.value.Node? && Elems(r.value) == Elems(node)
    ensures r.Some? && ValidBelowRoot(node) ==> ValidBelowRoot(r.value)
    decreases node.left
  {
    if LCount(node) + 1 <= balancedTill then Some(node)
    else
      var rot := RotateRight(node);
      if !rot.ok then None
      else
        var top := rot.node;
        var fixed := FixSpine(top.right);
        SpineFixKeepsCount(top.right, fixed);
        Cleanup(top.(right := fixed), balancedTill)
  }

  /** The spine fix keeps the count of a subtree with correct caches. */
  lemma SpineFixKeepsCount<T>(t: Subtree<T>, fixed: Subtree<T>)
    requires fixed == FixSpine(t)
    ensures Valid(t) ==> Valid(fixed) && CountOf(fixed) == CountOf(t)
  {
    ValidCaches(t);
    ValidCaches(fixed);
  }

  /** `from_iter` as written: grow, then clean up while the left subtree
      holds at least the largest power of two minus one not above the
      count. `None` where one of its `unwrap`s would panic. */
  function FromIterAsWritten<T>(xs: seq<T>): (r: Option<Subtree<T>>)
    ensures |xs| == 0 ==> r == Some(Empty)
    ensures r.Some? ==> Elems(r.value) == xs
    ensures r.Some? && |xs| > 0 ==> ValidBelowRoot(r.value)
  {
    if |xs| == 0 then Some(Empty)
    else
      match Grow(New(xs[0]), xs, 1, 1)
      case None => None
      case Some((node, count)) =>
        assert xs == [xs[0]] + xs[1..];
        Cleanup(node, BalancedTill(count))
  }

  /** `balanced_till`: one less than `exp_floor_log(count + 1)`, in `u32`. */
  function BalancedTill(count: bv32): int {
    (Bits.ExpFloorLog(count + 1) - 1) as int
  }

  /** Any six values come out with the root's right side two taller than
      its left: the second value at the root over the first on the left
      and, on the right, the fourth over the third and the sixth, with the
      fifth under the sixth. */
  lemma FromIterSixIsNotAvl<T>(xs: seq<T>)
    requires |xs| == 6
    ensures var r := FromIterAsWritten(xs);
            && r.Some?
            && Shape(r.value) == Plain.Node(Plain.New(xs[0]), xs[1],
                 Plain.Node(Plain.New(xs[2]), xs[3], Plain.Node(Plain.New(xs[4]), xs[5], Plain.Nil)))
            && BalanceFactor(r.value) == -2
            && !Avl(r.value)
  {
    var t2 := Make(New(xs[0]), xs[1], New(xs[2]));
    var grown := Make(Make(t2, xs[3], New(xs[4])), xs[5], Empty);
    SixGrow(xs, t2, grown);
    FromIterAfterGrow(xs, grown, 6);
    SixBalancedTill();
    SixCleanup(xs[0], xs[1], xs[2], xs[3], xs[4], xs[5]);
    SixLeansRight(xs[0], xs[1], xs[2], xs[3], xs[4], xs[5]);
  }

  /** Seven values, where the build as written does what it is meant to:
      the seventh value triggers two rotations and the result is the
      perfect tree of height 2, with correct caches, AVL, and perfectly
      balanced by `compute_level`; the clean-up has nothing to do. */
  lemma FromIterSevenIsPerfect<T>(xs: seq<T>)
    requires |xs| == 7
    ensures var r := FromIterAsWritten(xs);
            && r.Some?
            && r.value == Make(Make(New(xs[0]), xs[1], New(xs[2])), xs[3], Make(New(xs[4]), xs[5], New(xs[6])))
            && Valid(r.value) && Avl(r.value) && r.value.height == 2
            && Level.ComputeLevel(Shape(r.value), 0) == Level.Balanced(3)
  {
    var t2 := Make(New(xs[0]), xs[1], New(xs[2]));
    var grown := Make(Make(t2, xs[3], New(xs[4])), xs[5], Empty);
    var right := Make(New(xs[4]), xs[5], New(xs[6]));
    var perfect := Make(t2, xs[3], right);
    GrowFirstSix(xs, t2, grown);
    SevenThresholds();
    GrowTwoRotations(grown, xs, 6, 6);
    assert Make(Empty, xs[6], Empty) == New(xs[6]);
    assert Grow(perfect, xs, 7, 7) == Some((perfect, 7));
    FromIterAfterGrow(xs, perfect, 7);
    SevenBalancedTill();
    MakeFacts(New(xs[0]), xs[1], New(xs[2]));
    MakeFacts(New(xs[4]), xs[5], New(xs[6]));
    MakeFacts(t2, xs[3], right);
    assert LCount(perfect) == 3;
    PerfectTriple(xs[0], xs[1], xs[2]);
    PerfectTriple(xs[4], xs[5], xs[6]);
  }

  /** Two leaves under a node make a perfect tree of level 2. */
  lemma PerfectTriple<T>(a: T, b: T, c: T)
    ensures Level.ComputeLevel(Shape(Make(New(a), b, New(c))), 0) == Level.Balanced(2)
  {
    assert Level.ComputeLevel(Shape(New(a)), 0) == Level.Balanced(1);
    assert Level.ComputeLevel(Shape(New(c)), 0) == Level.Balanced(1);
  }

  /** Seven values are balanced up to a left subtree of seven: the
      clean-up stops at once. */
  lemma SevenBalancedTill()
    ensures BalancedTill(7) == 7
  {
    assert Bits.IsPower(8);
  }

  /** The threshold after the seventh value has bits 0 and 1 set and bit 2
      clear: two rotations. */
  lemma SevenThresholds()
    ensures Threshold(7) & 1 == 1 && Threshold(7) & 3 == 3 && Threshold(7) & 7 != 7
  {
  }

  /** A grow step whose threshold has bits 0 and 1 set and bit 2 clear:
      exactly two rotations, which leave the old root's left child on top. */
  lemma GrowTwoRotations<T>(node: Subtree<T>, xs: seq<T>, i: nat, count: bv32)
    requires node.Node? && node.left.Node? && i < |xs|
    requires Threshold(count + 1) & 1 == 1 && Threshold(count + 1) & 3 == 3 && Threshold(count + 1) & 7 != 7
    ensures Grow(node, xs, i, count)
         == Grow(Make(node.left.left, node.left.value,
                      Make(node.left.right, node.value, Make(node.right, xs[i], Empty))),
                 xs, i + 1, count + 1)
  {
    var th := Threshold(count + 1);
    var joined := Make(node, xs[i], Empty);
    var rot1 := RotateRight(joined);
    assert rot1.ok && rot1.node == Make(node.left, node.value, Make(node.right, xs[i], Empty));
    var rot2 := RotateRight(rot1.node);
    assert rot2.ok;
    assert ((1 as bv32) << 1) | 1 == 3;
    assert ((3 as bv32) << 1) | 1 == 7;
    assert RotateRun(joined, th, 1) == RotateRun(rot1.node, th, 3);
    assert RotateRun(rot1.node, th, 3) == RotateRun(rot2.node, th, 7);
    assert RotateRun(rot2.node, th, 7) == Some(rot2.node);
  }

  /** The tree the six-value build ends with: a leaf on the left, a
      subtree of height 2 on the right. */
  lemma SixLeansRight<T>(a: T, b: T, c: T, d: T, e: T, f: T)
    ensures var t := Make(New(a), b, Make(New(c), d, Make(New(e), f, Empty)));
            && Shape(t) == Plain.Node(Plain.New(a), b,
                 Plain.Node(Plain.New(c), d, Plain.Node(Plain.New(e), f, Plain.Nil)))
            && BalanceFactor(t) == -2 && !Avl(t)
  {
    var r5 := Make(New(e), f, Empty);
    var right := Make(New(c), d, r5);
    MakeFacts(New(e), f, Empty);
    MakeFacts(New(c), d, r5);
    MakeFacts(New(a), b, right);
    assert HeightOf(right) == 2;
  }

  /** Once the grow phase succeeds, the clean-up decides the result. */
  lemma FromIterAfterGrow<T>(xs: seq<T>, node: Subtree<T>, count: bv32)
    requires |xs| > 0 && Grow(New(xs[0]), xs, 1, 1) == Some((node, count))
    ensures FromIterAsWritten(xs) == Cleanup(node, BalancedTill(count))
  {
  }

  /** Six values are balanced up to a left subtree of three. */
  lemma SixBalancedTill()
    ensures BalancedTill(6) == 3
  {
    Bits.ExpFloorLogScenario();
  }

  /** A grow step whose threshold has bit 0 clear: no rotation. */
  lemma GrowNoRotation<T>(node: Subtree<T>, xs: seq<T>, i: nat, count: bv32)
    requires node.Node? && i < |xs|
    requires Threshold(count + 1) & 1 != 1
    ensures Grow(node, xs, i, count) == Grow(Make(node, xs[i], Empty), xs, i + 1, count + 1)
  {
  }

  /** A grow step whose threshold has bit 0 set and bit 1 clear: exactly
      one rotation, which hangs the new value below the old root. */
  lemma GrowOneRotation<T>(node: Subtree<T>, xs: seq<T>, i: nat, count: bv32)
    requires node.Node? && i < |xs|
    requires Threshold(count + 1) & 1 == 1 && Threshold(count + 1) & 3 != 3
    ensures Grow(node, xs, i, count)
         == Grow(Make(node.left, node.value, Make(node.right, xs[i], Empty)), xs, i + 1, count + 1)
  {
    var joined := Make(node, xs[i], Empty);
    var rot := RotateRight(joined);
    assert rot.ok && rot.node == Make(node.left, node.value, Make(node.right, xs[i], Empty));
    assert ((1 as bv32) << 1) | 1 == 3;
    assert RotateRun(joined, Threshold(count + 1), 1) == RotateRun(rot.node, Threshold(count + 1), 3);
    assert RotateRun(rot.node, Threshold(count + 1), 3) == Some(rot.node);
  }

  /** The thresholds of the six-value build: one rotation after the third
      and the fifth value, none after the others. */
  lemma SixThresholds()
    ensures Threshold(2) & 1 != 1 && Threshold(4) & 1 != 1 && Threshold(6) & 1 != 1
    ensures Threshold(3) & 1 == 1 && Threshold(3) & 3 != 3
    ensures Threshold(5) & 1 == 1 && Threshold(5) & 3 != 3
  {
  }

  /** The first six values of any build: 0 to 2 under 1, that under 3
      with 4 on its right, and 5 on top with nothing on its right. */
  lemma GrowFirstSix<T>(xs: seq<T>, t2: Subtree<T>, grown: Subtree<T>)
    requires |xs| >= 6
    requires t2 == Make(New(xs[0]), xs[1], New(xs[2]))
    requires grown == Make(Make(t2, xs[3], New(xs[4])), xs[5], Empty)
    ensures Grow(New(xs[0]), xs, 1, 1) == Grow(grown, xs, 6, 6)
  {
    var t1 := Make(New(xs[0]), xs[1], Empty);
    SixThresholds();
    GrowNoRotation(New(xs[0]), xs, 1, 1);
    GrowOneRotation(t1, xs, 2, 2);
    assert Make(Empty, xs[2], Empty) == New(xs[2]);
    var t3 := Make(t2, xs[3], Empty);
    GrowNoRotation(t2, xs, 3, 3);
    GrowOneRotation(t3, xs, 4, 4);
    assert Make(Empty, xs[4], Empty) == New(xs[4]);
    GrowNoRotation(Make(t2, xs[3], New(xs[4])), xs, 5, 5);
  }

  /** The six-value grow phase ends with the first six values' tree. */
  lemma SixGrow<T>(xs: seq<T>, t2: Subtree<T>, grown: Subtree<T>)
    requires |xs| == 6
    requires t2 == Make(New(xs[0]), xs[1], New(xs[2]))
    requires grown == Make(Make(t2, xs[3], New(xs[4])), xs[5], Empty)
    ensures Grow(New(xs[0]), xs, 1, 1) == Some((grown, 6))
  {
    GrowFirstSix(xs, t2, grown);
  }

  /** The six-value clean-up: with a threshold of 3 the root is rotated
      right twice, and the spine fix finds nothing to do either time. */
  lemma SixCleanup<T>(a: T, b: T, c: T, d: T, e: T, f: T)
    ensures Cleanup(Make(Make(Make(New(a), b, New(c)), d, New(e)), f, Empty), 3)
         == Some(Make(New(a), b, Make(New(c), d, Make(New(e), f, Empty))))
  {
    var t2 := Make(New(a), b, New(c));
    var grown := Make(Make(t2, d, New(e)), f, Empty);
    var r5 := Make(New(e), f, Empty);
    var c1 := Make(t2, d, r5);
    var c2 := Make(New(a), b, Make(New(c), d, r5));
    MakeFacts(New(a), b, New(c));
    MakeFacts(New(e), f, Empty);
    MakeFacts(New(c), d, r5);
    assert LCount(grown) == 5;
    assert RotateRight(grown).node == c1;
    assert BalanceFactor(r5) == 1;
    assert c1.(right := FixSpine(r5)) == c1;
    assert Cleanup(grown, 3) == Cleanup(c1, 3);
    assert LCount(c1) == 3;
    assert RotateRight(c1).node == c2;
    assert BalanceFactor(c2.right) == -1;
    assert c2.(right := FixSpine(c2.right)) == c2;
    assert Cleanup(c1, 3) == Cleanup(c2, 3);
    assert LCount(c2) == 1;
  }

  // ---------------------------------------------------------------------
  // The corrected build
  // ---------------------------------------------------------------------

  /** The height of the tree built from `n` values: the exponent of the
      highest power of two not above `n`, and -1 for none. */
  function BalancedHeight(n: nat): int {
    if n == 0 then -1 else 1 + BalancedHeight(n / 2)
  }

  /** One more value raises the height by at most one. */
  lemma {:induction false} BalancedHeightStep(n: nat)
    ensures BalancedHeight(n) <= BalancedHeight(n + 1) <= BalancedHeight(n) + 1
  {
    if n > 0 {
      var h := n / 2;
      var odd := HalfOfSuccessor(n, h);
      BalancedHeightHalves(n, h);
      if odd {
        BalancedHeightHalves(n + 1, h + 1);
        BalancedHeightStep(h);
      } else {
        BalancedHeightHalves(n + 1, h);
      }
    }
  }

  /** One level of `BalancedHeight`, for a given half `h` of `m`. */
  lemma BalancedHeightHalves(m: nat, h: nat)
    requires m > 0 && m / 2 == h
    ensures BalancedHeight(m) == 1 + BalancedHeight(h)
  {
  }

  /** Halving `n + 1` gives the half `h` of `n` when `n` is even, and one
      more when it is odd. */
  lemma HalfOfSuccessor(n: nat, h: nat) returns (odd: bool)
    requires n / 2 == h
    ensures odd ==> (n + 1) / 2 == h + 1 && h < n
    ensures !odd ==> (n + 1) / 2 == h
  {
    odd := n % 2 == 1;
  }

  /** Build from the middle value outwards: the middle of `xs` at the root
      and each half built the same way. Linear in the number of values, as
      the bulk build is meant to be. */
  function BuildBalanced<T>(xs: seq<T>): (t: Subtree<T>)
    ensures Valid(t) && Avl(t)
    ensures Elems(t) == xs
    ensures HeightOf(t) == BalancedHeight(|xs|)
    decreases |xs|
  {
    if |xs| == 0 then Empty
    else
      var mid := |xs| / 2;
      var l := BuildBalanced(xs[..mid]);
      var r := BuildBalanced(xs[mid + 1..]);
      assert xs == xs[..mid] + [xs[mid]] + xs[mid + 1..];
      BalancedJoin(l, xs[mid], r, |xs|, |xs[..mid]|, |xs[mid + 1..]|);
      Make(l, xs[mid], r)
  }

  /** Joining the trees built from the two halves of `n` values. */
  lemma BalancedJoin<T>(l: Subtree<T>, v: T, r: Subtree<T>, n: nat, a: nat, b: nat)
    requires n > 0 && a == n / 2 && b == n - a - 1
    requires Valid(l) && Avl(l) && HeightOf(l) == BalancedHeight(a)
    requires Valid(r) && Avl(r) && HeightOf(r) == BalancedHeight(b)
    ensures Valid(Make(l, v, r)) && Avl(Make(l, v, r))
    ensures HeightOf(Make(l, v, r)) == BalancedHeight(n)
  {
    BalancedHeightHalves(n, a);
    if b < a {
      BalancedHeightNext(b, a);
    }
    MakeFacts(l, v, r);
  }

  /** `BalancedHeightStep` for a given successor `b` of `a`. */
  lemma BalancedHeightNext(a: nat, b: nat)
    requires b == a + 1
    ensures BalancedHeight(a) <= BalancedHeight(b) <= BalancedHeight(a) + 1
  {
    BalancedHeightStep(a);
  }

  /** `2^k`. */
  function Pow2(k: nat): nat {
    if k == 0 then 1 else 2 * Pow2(k - 1)
  }

  /** `2^k - 1` values make a perfect tree: every node's two sides have the
      same height. */
  lemma {:induction false} BuildBalancedPerfect<T>(xs: seq<T>, k: nat)
    requires |xs| == Pow2(k) - 1
    ensures Level.ComputeLevel(Shape(BuildBalanced(xs)), 0) == Level.Balanced(k)
  {
    if k > 0 {
      var front, back := PerfectHalves(xs, k);
      BuildBalancedPerfect(front, k - 1);
      BuildBalancedPerfect(back, k - 1);
      PerfectJoin(xs, front, back, k - 1);
    }
  }

  /** The two halves around the middle of `2^k - 1` values hold
      `2^(k-1) - 1` values each. */
  lemma PerfectHalves<T>(xs: seq<T>, k: nat) returns (front: seq<T>, back: seq<T>)
    requires |xs| == Pow2(k) - 1 && k > 0
    ensures front == xs[..|xs| / 2] && back == xs[|xs| / 2 + 1..]
    ensures |front| == Pow2(k - 1) - 1 && |back| == Pow2(k - 1) - 1
  {
    var p := Pow2(k - 1);
    assert |xs| == 2 * (p - 1) + 1;
    front, back := xs[..|xs| / 2], xs[|xs| / 2 + 1..];
  }

  /** The builds of two halves that are perfect trees of the same level
      join into a perfect tree one level higher. */
  lemma PerfectJoin<T>(xs: seq<T>, front: seq<T>, back: seq<T>, e: nat)
    requires |xs| > 0 && front == xs[..|xs| / 2] && back == xs[|xs| / 2 + 1..]
    requires Level.ComputeLevel(Shape(BuildBalanced(front)), 0) == Level.Balanced(e)
    requires Level.ComputeLevel(Shape(BuildBalanced(back)), 0) == Level.Balanced(e)
    ensures Level.ComputeLevel(Shape(BuildBalanced(xs)), 0) == Level.Balanced(e + 1)
  {
    assert BuildBalanced(xs) == Make(BuildBalanced(front), xs[|xs| / 2], BuildBalanced(back));
  }

  /** The bulk-build tests: 63 values give height 5 and perfect balance; 94
      values give height 6, balanced within one. */
  lemma BuildBalancedScenario(xs: seq<int>, ys: seq<int>)
    requires |xs| == 63 && |ys| == 94
    ensures HeightOf(BuildBalanced(xs)) == 5
    ensures Level.ComputeLevel(Shape(BuildBalanced(xs)), 0) == Level.Balanced(6)
    ensures HeightOf(BuildBalanced(ys)) == 6
    ensures Level.ComputeLevel(Shape(BuildBalanced(ys)), 1) == Level.Balanced(7)
  {
    BuildBalancedPerfect(xs, 6);
    ValidCaches(BuildBalanced(xs));
    var t := BuildBalanced(ys);
    AvlIsLevelBalanced(t);
    assert BalancedHeight(94) == 6;
  }
}
