/** The binary-search-tree exercises of checkBST.java, over a tree of Java `int` values.

    The read-only operations (checkBST, isBST, findLCA, kthSmallest, the iterator) never change a
    node, so they are modelled on the value `Tree` of the nodes reachable from a root; the in-place
    convertToGreaterSum works on heap nodes (`TreeNode`). Every operation is specified by the in-order
    sequence `InOrder` of the tree. */
module SearchTree {

  /** Bounds of Java `int` and `long`. */
  const IntMin: int := -0x8000_0000
  const IntMax: int := 0x7fff_ffff
  const LongMin: int := -0x8000_0000_0000_0000
  const LongMax: int := 0x7fff_ffff_ffff_ffff

  predicate IsInt(x: int) { IntMin <= x <= IntMax }

  /** A tree of `Node` objects; `Nil` is Java's `null`. */
  datatype Tree = Nil | Node(data: int, left: Tree, right: Tree)

  function InOrder(t: Tree): seq<int> {
    match t
    case Nil => []
    case Node(d, l, r) => InOrder(l) + [d] + InOrder(r)
  }

  ghost predicate StrictlyIncreasing(s: seq<int>) {
    forall i, j :: 0 <= i < j < |s| ==> s[i] < s[j]
  }

  /** Every element lies strictly between `lo` and `hi`. */
  ghost predicate Between(s: seq<int>, lo: int, hi: int) {
    forall x :: x in s ==> lo < x < hi
  }

  /** Every element lies in `[lo, hi]`. */
  ghost predicate Within(s: seq<int>, lo: int, hi: int) {
    forall x :: x in s ==> lo <= x <= hi
  }

  /** Every value of the tree fits in a Java `int`. */
  ghost predicate AllInt(t: Tree) {
    forall x :: x in InOrder(t) ==> IsInt(x)
  }

  /** `a + [d] + b` is strictly increasing exactly when both sides are and `d` separates them. */
  lemma SplitIncreasing(a: seq<int>, d: int, b: seq<int>)
    ensures StrictlyIncreasing(a + [d] + b) <==>
      StrictlyIncreasing(a) && StrictlyIncreasing(b) &&
      (forall x :: x in a ==> x < d) && (forall y :: y in b ==> d < y)
  {
    if StrictlyIncreasing(a + [d] + b) {
      IncreasingParts(a, d, b);
    }
    if StrictlyIncreasing(a) && StrictlyIncreasing(b) &&
      (forall x :: x in a ==> x < d) && (forall y :: y in b ==> d < y)
    {
      IncreasingJoin(a, d, b);
    }
  }

  lemma IncreasingParts(a: seq<int>, d: int, b: seq<int>)
    requires StrictlyIncreasing(a + [d] + b)
    ensures StrictlyIncreasing(a) && StrictlyIncreasing(b)
    ensures (forall x :: x in a ==> x < d) && (forall y :: y in b ==> d < y)
  {
    var s := a + [d] + b;
    assert forall i :: 0 <= i < |a| ==> s[i] == a[i];
    assert s[|a|] == d;
    forall i, j | 0 <= i < j < |b|
      ensures b[i] < b[j]
    {
      assert s[|a| + 1 + i] == b[i] && s[|a| + 1 + j] == b[j];
    }
    forall y | y in b
      ensures d < y
    {
      var j :| 0 <= j < |b| && b[j] == y;
      assert s[|a| + 1 + j] == y;
    }
  }

  lemma IncreasingJoin(a: seq<int>, d: int, b: seq<int>)
    requires StrictlyIncreasing(a) && StrictlyIncreasing(b)
    requires (forall x :: x in a ==> x < d) && (forall y :: y in b ==> d < y)
    ensures StrictlyIncreasing(a + [d] + b)
  {
    var s := a + [d] + b;
    forall i, j | 0 <= i < j < |s|
      ensures s[i] < s[j]
    {
      if j < |a| {
        assert s[i] == a[i] && s[j] == a[j];
      } else if j == |a| {
        assert s[i] == a[i] && a[i] in a && s[j] == d;
      } else if i < |a| {
        assert s[i] == a[i] && a[i] in a && s[j] == b[j - |a| - 1] && b[j - |a| - 1] in b;
      } else if i == |a| {
        assert s[i] == d && s[j] == b[j - |a| - 1] && b[j - |a| - 1] in b;
      } else {
        assert s[i] == b[i - |a| - 1] && s[j] == b[j - |a| - 1];
      }
    }
  }

  lemma InOrderMembers(d: int, l: Tree, r: Tree, x: int)
    ensures x in InOrder(Node(d, l, r)) <==> x in InOrder(l) || x == d || x in InOrder(r)
  {
  }

  // ---------------------------------------------------------------- checkBST

  /** checkBST(root, min, max): every value strictly between the bounds its ancestors set. The source
      compares in `long`, so no comparison overflows. */
  function CheckBSTBounded(root: Tree, min: int, max: int): (r: bool)
    ensures r ==> Between(InOrder(root), min, max)
  {
    match root
    case Nil => true
    case Node(d, l, r) =>
      if d <= min || d >= max then false
      else CheckBSTBounded(l, min, d) && CheckBSTBounded(r, d, max)
  }

  /** checkBST(root): the bounded check with the `long` extremes. */
  function CheckBST(root: Tree): bool {
    if root == Nil then true else CheckBSTBounded(root, LongMin, LongMax)
  }

  lemma {:induction false} CheckBSTBoundedMeaning(t: Tree, min: int, max: int)
    ensures CheckBSTBounded(t, min, max) <==>
      StrictlyIncreasing(InOrder(t)) && Between(InOrder(t), min, max)
  {
    match t
    case Nil =>
    case Node(d, l, r) =>
      CheckBSTBoundedMeaning(l, min, d);
      CheckBSTBoundedMeaning(r, d, max);
      SplitIncreasing(InOrder(l), d, InOrder(r));
      BetweenSplit(InOrder(l), d, InOrder(r), min, max);
      if min < d < max {
        Narrow(InOrder(l), min, d, max);
        Narrow(InOrder(r), min, d, max);
      }
  }

  /** How `Between` and `Within` distribute over the in-order sequence of a node. */
  lemma BetweenSplit(a: seq<int>, d: int, b: seq<int>, lo: int, hi: int)
    ensures Between(a + [d] + b, lo, hi) <==> Between(a, lo, hi) && lo < d < hi && Between(b, lo, hi)
    ensures Within(a + [d] + b, lo, hi) <==> Within(a, lo, hi) && lo <= d <= hi && Within(b, lo, hi)
  {
    BetweenSplitMembers(a, d, b);
    var s := a + [d] + b;
    if Between(s, lo, hi) {
      assert d in s;
    }
    if Within(s, lo, hi) {
      assert d in s;
    }
  }

  lemma BetweenSplitMembers(a: seq<int>, d: int, b: seq<int>)
    ensures forall x :: x in a + [d] + b <==> x in a || x == d || x in b
  {
    var s := a + [d] + b;
    assert d in s;
    forall x | x in a ensures x in s { assert x in a + [d]; }
    forall x | x in b ensures x in s { }
    forall x | x in s ensures x in a || x == d || x in b {
      var i :| 0 <= i < |s| && s[i] == x;
      if i < |a| { assert x == a[i]; } else if i > |a| { assert x == b[i - |a| - 1]; }
    }
  }

  /** Narrowing one bound to a node's value `d` is the same as also requiring that side of `d`. */
  lemma Narrow(a: seq<int>, lo: int, d: int, hi: int)
    requires lo < d < hi
    ensures Between(a, lo, d) <==> Between(a, lo, hi) && forall x :: x in a ==> x < d
    ensures Between(a, d, hi) <==> Between(a, lo, hi) && forall x :: x in a ==> d < x
  {
  }

  lemma NarrowWithin(a: seq<int>, lo: int, d: int, hi: int)
    requires lo <= d <= hi
    ensures Within(a, lo, d - 1) <==> Within(a, lo, hi) && forall x :: x in a ==> x < d
    ensures Within(a, d + 1, hi) <==> Within(a, lo, hi) && forall x :: x in a ==> d < x
  {
  }

  /** The values of a child are values of its parent. */
  lemma ChildValues(d: int, l: Tree, r: Tree)
    ensures forall x :: x in InOrder(l) ==> x in InOrder(Node(d, l, r))
    ensures forall x :: x in InOrder(r) ==> x in InOrder(Node(d, l, r))
  {
    BetweenSplitMembers(InOrder(l), d, InOrder(r));
  }

  /** On a tree of `int` values, checkBST accepts exactly the trees whose in-order sequence is
      strictly increasing: `Integer.MIN_VALUE` and `Integer.MAX_VALUE` lie strictly inside the `long`
      bounds, and an equal value on either side (a duplicate) is rejected. */
  lemma CheckBSTMeaning(t: Tree)
    requires AllInt(t)
    ensures CheckBST(t) <==> StrictlyIncreasing(InOrder(t))
  {
    CheckBSTBoundedMeaning(t, LongMin, LongMax);
  }

  // ---------------------------------------------------------------- isBST

  /** `x - 1` in Java `int` arithmetic: wraps from `Integer.MIN_VALUE` to `Integer.MAX_VALUE`. */
  function Pred32(x: int): (y: int)
    requires IsInt(x)
    ensures IsInt(y) && (x != IntMin ==> y == x - 1)
  {
    if x == IntMin then IntMax else x - 1
  }

  /** `x + 1` in Java `int` arithmetic: wraps from `Integer.MAX_VALUE` to `Integer.MIN_VALUE`. */
  function Succ32(x: int): (y: int)
    requires IsInt(x)
    ensures IsInt(y) && (x != IntMax ==> y == x + 1)
  {
    if x == IntMax then IntMin else x + 1
  }

  /** isBST(root, min, max) as written: inclusive bounds, with the child bounds `root.data - 1` and
      `root.data + 1` computed in `int`. */
  function IsBST(root: Tree, min: int, max: int): bool
    requires AllInt(root)
  {
    match root
    case Nil => true
    case Node(d, l, r) =>
      assert InOrder(root) == InOrder(l) + [d] + InOrder(r);
      if d < min || d > max then false
      else IsBST(l, min, Pred32(d)) && IsBST(r, Succ32(d), max)
  }

  /** isBST with the child bounds computed in `long`, as the bounded checkBST does. */
  function IsBSTWide(root: Tree, min: int, max: int): (r: bool)
    ensures r ==> Within(InOrder(root), min, max)
  {
    match root
    case Nil => true
    case Node(d, l, r) =>
      if d < min || d > max then false
      else IsBSTWide(l, min, d - 1) && IsBSTWide(r, d + 1, max)
  }

  /** The corrected isBST accepts exactly the trees whose in-order sequence is strictly increasing
      and inside `[min, max]`. */
  lemma {:induction false} IsBSTWideMeaning(t: Tree, min: int, max: int)
    ensures IsBSTWide(t, min, max) <==>
      StrictlyIncreasing(InOrder(t)) && Within(InOrder(t), min, max)
  {
    match t
    case Nil =>
    case Node(d, l, r) =>
      IsBSTWideMeaning(l, min, d - 1);
      IsBSTWideMeaning(r, d + 1, max);
      SplitIncreasing(InOrder(l), d, InOrder(r));
      BetweenSplit(InOrder(l), d, InOrder(r), min, max);
      if min <= d <= max {
        NarrowWithin(InOrder(l), min, d, max);
        NarrowWithin(InOrder(r), min, d, max);
      }
  }

  /** As written, isBST agrees with the corrected one while no value is an `int` extreme. */
  lemma {:induction false} IsBSTAgreesAwayFromExtremes(t: Tree, min: int, max: int)
    requires AllInt(t) && forall x :: x in InOrder(t) ==> x != IntMin && x != IntMax
    ensures IsBST(t, min, max) == IsBSTWide(t, min, max)
  {
    match t
    case Nil =>
    case Node(d, l, r) =>
      ChildValues(d, l, r);
      IsBSTAgreesAwayFromExtremes(l, min, d - 1);
      IsBSTAgreesAwayFromExtremes(r, d + 1, max);
  }

  /** Hence, away from the extremes, isBST accepts exactly the strictly increasing trees inside
      `[min, max]`. */
  lemma IsBSTMeaning(t: Tree, min: int, max: int)
    requires AllInt(t) && forall x :: x in InOrder(t) ==> x != IntMin && x != IntMax
    ensures IsBST(t, min, max) <==> StrictlyIncreasing(InOrder(t)) && Within(InOrder(t), min, max)
  {
    IsBSTAgreesAwayFromExtremes(t, min, max);
    IsBSTWideMeaning(t, min, max);
  }

  /** The wrap-around lets a left child through that is larger than its parent `Integer.MIN_VALUE`:
      its upper bound `Integer.MIN_VALUE - 1` becomes `Integer.MAX_VALUE`. */
  lemma IsBSTWrapCounterexample()
    ensures AllInt(Node(IntMin, Node(0, Nil, Nil), Nil))
    ensures IsBST(Node(IntMin, Node(0, Nil, Nil), Nil), LongMin, LongMax)
    ensures !StrictlyIncreasing(InOrder(Node(IntMin, Node(0, Nil, Nil), Nil)))
    ensures !IsBSTWide(Node(IntMin, Node(0, Nil, Nil), Nil), LongMin, LongMax)
  {
    var t := Node(IntMin, Node(0, Nil, Nil), Nil);
    assert InOrder(t) == [0, IntMin];
    assert InOrder(t)[0] > InOrder(t)[1];
  }

  // ---------------------------------------------------------------- findLCA

  /** The subtrees of `t`, `t` included. */
  ghost predicate IsSubtree(s: Tree, t: Tree)
    decreases t
  {
    s == t || (t.Node? && (IsSubtree(s, t.left) || IsSubtree(s, t.right)))
  }

  /** findLCA: walks down from the root while both values lie on the same side of the node. The
      result is `Nil` or a node of the tree whose value lies between the two values. */
  function FindLCA(root: Tree, n1: int, n2: int): (r: Tree)
    ensures IsSubtree(r, root)
    ensures r == Nil || (r.Node? && !(r.data > n1 && r.data > n2) && !(r.data < n1 && r.data < n2))
  {
    match root
    case Nil => Nil
    case Node(d, l, r) =>
      if d > n1 && d > n2 then FindLCA(l, n1, n2)
      else if d < n1 && d < n2 then FindLCA(r, n1, n2)
      else root
  }

  /** On a search tree that holds both values, findLCA finds their lowest common ancestor: a node
      whose subtree holds both values while neither child's subtree holds both. */
  lemma {:induction false} FindLCAIsLowestCommonAncestor(t: Tree, n1: int, n2: int)
    requires StrictlyIncreasing(InOrder(t)) && n1 in InOrder(t) && n2 in InOrder(t)
    ensures FindLCA(t, n1, n2).Node?
    ensures n1 in InOrder(FindLCA(t, n1, n2)) && n2 in InOrder(FindLCA(t, n1, n2))
    ensures !(n1 in InOrder(FindLCA(t, n1, n2).left) && n2 in InOrder(FindLCA(t, n1, n2).left))
    ensures !(n1 in InOrder(FindLCA(t, n1, n2).right) && n2 in InOrder(FindLCA(t, n1, n2).right))
  {
    match t
    case Node(d, l, r) =>
      SplitIncreasing(InOrder(l), d, InOrder(r));
      InOrderMembers(d, l, r, n1);
      InOrderMembers(d, l, r, n2);
      if d > n1 && d > n2 {
        FindLCAIsLowestCommonAncestor(l, n1, n2);
      } else if d < n1 && d < n2 {
        FindLCAIsLowestCommonAncestor(r, n1, n2);
      }
  }

  // ---------------------------------------------------------------- driver trees of main

  /** The trees of checkBST.java's `main` and the verdicts it expects of them. */
  lemma DriverVerdicts()
    ensures CheckBST(Node(5, Node(3, Nil, Nil), Node(7, Nil, Nil)))
    ensures CheckBST(Node(20, Node(10, Node(5, Node(3, Nil, Nil), Nil), Node(15, Nil, Node(17, Nil, Nil))),
                              Node(30, Node(25, Nil, Nil), Node(35, Nil, Nil))))
    ensures !CheckBST(Node(20, Node(10, Nil, Node(25, Nil, Nil)), Node(30, Nil, Nil)))
    ensures !CheckBST(Node(20, Node(20, Nil, Nil), Node(30, Nil, Nil)))
    ensures CheckBST(Node(1, Nil, Nil))
    ensures CheckBST(Nil)
    ensures CheckBST(Node(0, Node(-10, Node(-20, Nil, Nil), Node(-5, Nil, Nil)), Node(10, Nil, Nil)))
    ensures CheckBST(Node(50, Node(30, Node(20, Node(10, Nil, Nil), Nil), Nil), Nil))
    ensures CheckBST(Node(0, Node(IntMin, Nil, Nil), Node(IntMax, Nil, Nil)))
  {
  }

  // ---------------------------------------------------------------- Java int arithmetic of `sum`

  const TwoTo32: int := 0x1_0000_0000

  /** The Java `int` that a mathematical integer wraps to. */
  function Wrap32(x: int): (y: int)
    ensures IsInt(y)
    ensures IsInt(x) ==> y == x
  {
    (x + 0x8000_0000) % 0x1_0000_0000 - 0x8000_0000
  }

  lemma ModUnique(y: int, q: int, r: int)
    requires 0 <= r < TwoTo32 && y == q * TwoTo32 + r
    ensures y % TwoTo32 == r
  {
  }

  /** Wrapping an intermediate sum does not change the wrapped total. */
  lemma WrapAdd(a: int, b: int)
    ensures Wrap32(Wrap32(a) + b) == Wrap32(a + b)
  {
    var y := a - IntMin;
    var z := a + b - IntMin;
    ModUnique(z, z / TwoTo32, z % TwoTo32);
    ModUnique(Wrap32(a) + b - IntMin, z / TwoTo32 - y / TwoTo32, z % TwoTo32);
  }

  function Sum(s: seq<int>): int {
    if s == [] then 0 else s[0] + Sum(s[1..])
  }

  lemma {:induction false} SumConcat(a: seq<int>, b: seq<int>)
    ensures Sum(a + b) == Sum(a) + Sum(b)
  {
    if a == [] {
      assert a + b == b;
    } else {
      assert (a + b)[1..] == a[1..] + b;
      SumConcat(a[1..], b);
    }
  }

  // ---------------------------------------------------------------- convertToGreaterSum

  /** The in-order sequence convertToGreaterSum leaves behind, starting from a running sum `acc`:
      each value becomes `acc` plus the sum of itself and all values after it, in `int`
      arithmetic (see GreaterSumsAt). */
  ghost function GreaterSums(s: seq<int>, acc: int): (g: seq<int>)
    ensures |g| == |s|
  {
    if s == [] then [] else [Wrap32(acc + Sum(s))] + GreaterSums(s[1..], acc)
  }

  /** The sum convertToGreaterSum leaves in `sum` after a subtree with in-order sequence `s`. */
  ghost function SumAfter(s: seq<int>, acc: int): int {
    Wrap32(acc + Sum(s))
  }

  lemma {:induction false} GreaterSumsAt(s: seq<int>, acc: int, i: int)
    requires 0 <= i < |s|
    ensures GreaterSums(s, acc)[i] == Wrap32(acc + Sum(s[i..]))
  {
    if i > 0 {
      GreaterSumsAt(s[1..], acc, i - 1);
      assert s[1..][i - 1..] == s[i..];
    }
  }

  /** Walking `y` before `x` leaves the greater sums of `x + y`. */
  lemma {:induction false} GreaterSumsConcat(x: seq<int>, y: seq<int>, acc: int)
    ensures GreaterSums(x + y, acc) == GreaterSums(x, SumAfter(y, acc)) + GreaterSums(y, acc)
    ensures SumAfter(x, SumAfter(y, acc)) == SumAfter(x + y, acc)
  {
    SumConcat(x, y);
    WrapAdd(acc + Sum(y), Sum(x));
    if x == [] {
      assert x + y == y;
    } else {
      assert (x + y)[1..] == x[1..] + y;
      GreaterSumsConcat(x[1..], y, acc);
    }
  }

  /** Visiting right subtree, node and left subtree in that order yields the greater sums of the
      whole in-order sequence. */
  lemma GreaterSumsSplit(a: seq<int>, d: int, b: seq<int>, acc: int)
    ensures GreaterSums(a + [d] + b, acc) ==
      GreaterSums(a, Wrap32(SumAfter(b, acc) + d)) + [Wrap32(SumAfter(b, acc) + d)] + GreaterSums(b, acc)
    ensures SumAfter(a, Wrap32(SumAfter(b, acc) + d)) == SumAfter(a + [d] + b, acc)
  {
    GreaterSumsConcat([d], b, acc);
    GreaterSumsConcat(a, [d] + b, acc);
    assert a + [d] + b == a + ([d] + b);
    assert Sum([d]) == d;
    assert GreaterSums([d], SumAfter(b, acc)) == [Wrap32(SumAfter(b, acc) + d)];
  }

  /** One step of convertToGreaterSum: the right subtree converted from `acc`, the node given the
      running sum, and the left subtree converted from there, make the converted tree. */
  lemma GreaterSumsNode(d: int, l: Tree, r: Tree, acc: int, stored: int, l': Tree, r': Tree, final: int)
    requires SameShape(r', r) && InOrder(r') == GreaterSums(InOrder(r), acc)
    requires stored == Wrap32(SumAfter(InOrder(r), acc) + d)
    requires SameShape(l', l) && InOrder(l') == GreaterSums(InOrder(l), stored)
    requires final == SumAfter(InOrder(l), stored)
    ensures SameShape(Node(stored, l', r'), Node(d, l, r))
    ensures InOrder(Node(stored, l', r')) == GreaterSums(InOrder(Node(d, l, r)), acc)
    ensures final == SumAfter(InOrder(Node(d, l, r)), acc)
  {
    GreaterSumsSplit(InOrder(l), d, InOrder(r), acc);
  }

  /** The elements of `s` not smaller than `v`, in order. */
  ghost function AtLeast(s: seq<int>, v: int): (r: seq<int>)
    ensures forall x :: x in r <==> x in s && v <= x
  {
    if s == [] then []
    else (if v <= s[0] then [s[0]] else []) + AtLeast(s[1..], v)
  }

  lemma {:induction false} NoneBelowAtLeast(s: seq<int>, v: int)
    requires forall i :: 0 <= i < |s| ==> v <= s[i]
    ensures AtLeast(s, v) == s
  {
    if s != [] {
      assert forall i :: 0 <= i < |s[1..]| ==> s[1..][i] == s[i + 1];
      NoneBelowAtLeast(s[1..], v);
      assert s == [s[0]] + s[1..];
    }
  }

  /** The meaning of convertToGreaterSum on a search tree: the value at position `i` becomes `acc`
      plus the sum of all the tree's values that are at least the original value there. */
  lemma {:induction false} GreaterSumsMeaning(s: seq<int>, acc: int, i: int)
    requires StrictlyIncreasing(s) && 0 <= i < |s|
    ensures GreaterSums(s, acc)[i] == Wrap32(acc + Sum(AtLeast(s, s[i])))
  {
    if i == 0 {
      NoneBelowAtLeast(s, s[0]);
    } else {
      var t := s[1..];
      assert t[i - 1] == s[i];
      assert StrictlyIncreasing(t) by {
        forall a, b | 0 <= a < b < |t| ensures t[a] < t[b] {
          assert t[a] == s[a + 1] && t[b] == s[b + 1];
        }
      }
      GreaterSumsMeaning(t, acc, i - 1);
      assert s[0] < s[i];
      assert AtLeast(s, s[i]) == [] + AtLeast(t, s[i]) == AtLeast(t, s[i]);
      assert GreaterSums(s, acc)[i] == GreaterSums(t, acc)[i - 1];
    }
  }

  /** Two trees with the same nodes in the same places, whatever their values. */
  ghost predicate SameShape(a: Tree, b: Tree) {
    match (a, b)
    case (Nil, Nil) => true
    case (Node(_, al, ar), Node(_, bl, br)) => SameShape(al, bl) && SameShape(ar, br)
    case _ => false
  }

  /** A `Node` object of the heap, the mutable twin of the value `Tree`: convertToGreaterSum, the one
      operation that writes to nodes, works on these; `Value()` is the `Tree` they currently hold, and
      `Repr` is the set of nodes reachable from this one. */
  class TreeNode {
    var data: int
    var left: TreeNode?
    var right: TreeNode?
    ghost var Repr: set<TreeNode>

    ghost predicate Valid()
      reads this, Repr
      decreases Repr
    {
      this in Repr &&
      (left != null ==>
        left in Repr && left.Repr <= Repr && this !in left.Repr && left.Valid()) &&
      (right != null ==>
        right in Repr && right.Repr <= Repr && this !in right.Repr && right.Valid()) &&
      (left != null && right != null ==> left.Repr !! right.Repr)
    }

    /** The tree of values reachable from this node. */
    ghost function Value(): Tree
      reads this, Repr
      requires Valid()
      decreases Repr
    {
      Node(data, if left == null then Nil else left.Value(), if right == null then Nil else right.Value())
    }

    /** Node(int data): a leaf. */
    constructor (data: int)
      ensures Valid() && fresh(Repr)
      ensures Value() == Node(data, Nil, Nil)
    {
      this.data := data;
      left := null;
      right := null;
      Repr := {this};
    }
  }

  ghost function ValueOf(n: TreeNode?): Tree
    reads if n == null then {} else {n} + n.Repr
    requires n != null ==> n.Valid()
  {
    if n == null then Nil else n.Value()
  }

  /** The fields of a CheckBST object: the running `sum` of convertToGreaterSum and the `count`
      and `result` of kthSmallest. */
  class CheckBSTState {
    var sum: int
    var count: int
    var result: int

    constructor ()
      ensures sum == 0 && count == 0 && result == -1
    {
      sum := 0;
      count := 0;
      result := -1;
    }

    /** convertToGreaterSum: a reverse in-order walk that adds each value to `sum` and stores the
        running sum in the node. */
    method ConvertToGreaterSum(root: TreeNode?)
      requires IsInt(sum)
      requires root != null ==> root.Valid()
      modifies this, if root == null then {} else root.Repr
      decreases if root == null then {} else root.Repr, 1
      ensures root != null ==> root.Valid() && root.Repr == old(root.Repr)
      ensures SameShape(ValueOf(root), old(ValueOf(root)))
      ensures InOrder(ValueOf(root)) == GreaterSums(old(InOrder(ValueOf(root))), old(sum))
      ensures sum == SumAfter(old(InOrder(ValueOf(root))), old(sum))
      ensures count == old(count) && result == old(result)
    {
      if root == null {
        return;
      }
      ghost var l, d, r := ValueOf(root.left), root.data, ValueOf(root.right);
      ghost var acc := sum;
      assert ValueOf(root) == Node(d, l, r);
      ConvertRightAndStore(root);
      ghost var r', stored := ValueOf(root.right), sum;
      ConvertToGreaterSum(root.left);
      ghost var l' := ValueOf(root.left);
      assert ValueOf(root.right) == r';
      assert root.Valid();
      assert root.Value() == Node(stored, l', r');
      GreaterSumsNode(d, l, r, acc, stored, l', r', sum);
    }

    /** The first half of convertToGreaterSum on a node: convert the right subtree, then
        `sum += root.data; root.data = sum;`. */
    method ConvertRightAndStore(root: TreeNode)
      requires IsInt(sum) && root.Valid()
      modifies this, root.Repr
      decreases root.Repr, 0
      ensures root.Valid() && root.Repr == old(root.Repr)
      ensures root.left == old(root.left) && root.right == old(root.right)
      ensures ValueOf(root.left) == old(ValueOf(root.left))
      ensures SameShape(ValueOf(root.right), old(ValueOf(root.right)))
      ensures InOrder(ValueOf(root.right)) == GreaterSums(old(InOrder(ValueOf(root.right))), old(sum))
      ensures sum == Wrap32(SumAfter(old(InOrder(ValueOf(root.right))), old(sum)) + old(root.data))
      ensures root.data == sum && IsInt(sum)
      ensures count == old(count) && result == old(result)
    {
      ConvertToGreaterSum(root.right);
      ghost var l, r := ValueOf(root.left), ValueOf(root.right);
      sum := Wrap32(sum + root.data);
      root.data := sum;
      assert ValueOf(root.left) == l && ValueOf(root.right) == r;
    }

    /** kthSmallestHelper: an in-order walk that counts the visited nodes and records the value of
        the `k`-th; the walk skips only the right subtree of that node. */
    method KthSmallestHelper(root: Tree, k: int)
      modifies this
      decreases root
      ensures sum == old(sum)
      ensures old(count) < k <= old(count) + |InOrder(root)| ==>
        k <= count <= old(count) + |InOrder(root)| && result == InOrder(root)[k - old(count) - 1]
      ensures !(old(count) < k <= old(count) + |InOrder(root)|) ==>
        count == old(count) + |InOrder(root)| && result == old(result)
    {
      if root == Nil {
        return;
      }
      KthSmallestHelper(root.left, k);
      count := count + 1;
      if count == k {
        result := root.data;
        return;
      }
      KthSmallestHelper(root.right, k);
    }

    /** kthSmallest: the `k`-th value in order, or -1 when there is none. */
    method KthSmallest(root: Tree, k: int) returns (r: int)
      modifies this
      ensures r == (if 1 <= k <= |InOrder(root)| then InOrder(root)[k - 1] else -1)
      ensures result == r && sum == old(sum)
      ensures 1 <= k <= |InOrder(root)| ==> k <= count <= |InOrder(root)|
      ensures !(1 <= k <= |InOrder(root)|) ==> count == |InOrder(root)|
    {
      count := 0;
      result := -1;
      KthSmallestHelper(root, k);
      return result;
    }
  }

  /** The number of elements of `s` smaller than `v`. */
  function CountBelow(s: seq<int>, v: int): nat {
    if s == [] then 0 else (if s[0] < v then 1 else 0) + CountBelow(s[1..], v)
  }

  /** On a search tree the value kthSmallest returns for `k` has exactly `k - 1` smaller values. */
  lemma {:induction false} KthHasKMinusOneBelow(s: seq<int>, k: int)
    requires StrictlyIncreasing(s) && 1 <= k <= |s|
    ensures CountBelow(s, s[k - 1]) == k - 1
  {
    assert StrictlyIncreasing(s[1..]) by {
      forall a, b | 0 <= a < b < |s[1..]| ensures s[1..][a] < s[1..][b] {
        assert s[1..][a] == s[a + 1] && s[1..][b] == s[b + 1];
      }
    }
    if k == 1 {
      NoneBelow(s[1..], s[0]);
    } else {
      assert s[0] < s[k - 1];
      assert s[1..][k - 2] == s[k - 1];
      KthHasKMinusOneBelow(s[1..], k - 1);
    }
  }

  lemma {:induction false} NoneBelow(s: seq<int>, v: int)
    requires forall i :: 0 <= i < |s| ==> v < s[i]
    ensures CountBelow(s, v) == 0
  {
    if s != [] {
      assert forall i :: 0 <= i < |s[1..]| ==> s[1..][i] == s[i + 1];
      NoneBelow(s[1..], v);
    }
  }

  // ---------------------------------------------------------------- BSTIterator

  /** The values still to come from a stack of nodes (top last): each node's own value and then
      its right subtree, from the top down. */
  ghost function Pending(stack: seq<Tree>): seq<int>
    requires forall i :: 0 <= i < |stack| ==> stack[i].Node?
  {
    if stack == [] then []
    else
      var n := stack[|stack| - 1];
      [n.data] + InOrder(n.right) + Pending(stack[..|stack| - 1])
  }

  /** Pushing a node moves its own value and its right subtree onto the stack, leaving its left
      subtree to come first. */
  lemma PushStep(n: Tree, stack: seq<Tree>)
    requires n.Node? && forall i :: 0 <= i < |stack| ==> stack[i].Node?
    ensures forall i :: 0 <= i < |stack + [n]| ==> (stack + [n])[i].Node?
    ensures InOrder(n.left) + Pending(stack + [n]) == InOrder(n) + Pending(stack)
  {
    var st := stack + [n];
    assert st[..|st| - 1] == stack;
    assert Pending(st) == [n.data] + InOrder(n.right) + Pending(stack);
  }

  /** BSTIterator: an in-order iterator that keeps the left spine of what is left on a stack. */
  class BSTIterator {
    var stack: seq<Tree>

    ghost predicate Valid()
      reads this
    {
      forall i :: 0 <= i < |stack| ==> stack[i].Node?
    }

    /** The values the iterator has still to return, in order. */
    ghost function Remaining(): seq<int>
      reads this
      requires Valid()
    {
      Pending(stack)
    }

    constructor (root: Tree)
      ensures Valid() && Remaining() == InOrder(root)
    {
      stack := [];
      new;
      PushAll(root);
    }

    /** pushAll: pushes `node` and its left descendants. */
    method PushAll(node: Tree)
      requires Valid()
      modifies this
      ensures Valid() && Remaining() == InOrder(node) + old(Remaining())
    {
      var n := node;
      while n != Nil
        invariant Valid()
        invariant InOrder(n) + Remaining() == InOrder(node) + old(Remaining())
        decreases n
      {
        PushStep(n, stack);
        stack := stack + [n];
        n := n.left;
      }
    }

    /** hasNext: whether any value is left. */
    method HasNext() returns (b: bool)
      requires Valid()
      ensures b == (Remaining() != [])
    {
      return stack != [];
    }

    /** next: returns the next value in order and pushes the left spine of the popped node's
        right subtree. */
    method Next() returns (x: int)
      requires Valid() && Remaining() != []
      modifies this
      ensures Valid()
      ensures x == old(Remaining())[0] && Remaining() == old(Remaining())[1..]
    {
      var node := stack[|stack| - 1];
      stack := stack[..|stack| - 1];
      PushAll(node.right);
      return node.data;
    }
  }

  /** Draining a BSTIterator yields the in-order sequence of its tree (so, by CheckBSTMeaning, the
      values in increasing order for a tree checkBST accepts). */
  method InOrderTraversal(root: Tree) returns (out: seq<int>)
    ensures out == InOrder(root)
  {
    var it := new BSTIterator(root);
    out := [];
    var more := it.HasNext();
    while more
      invariant it.Valid() && out + it.Remaining() == InOrder(root)
      invariant more == (it.Remaining() != [])
      decreases |it.Remaining()|
    {
      var x := it.Next();
      out := out + [x];
      more := it.HasNext();
    }
  }
}
