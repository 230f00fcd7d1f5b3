/**
  The public B-Tree: construction from an order, the public insert that
  drives the descent and absorbs a root split, the accessors, and the
  whole-tree guarantees that hold after any sequence of inserts.
 */
module BTree {
  import opened Wrappers
  import opened SortedSeq
  import opened Nodes
  import opened Insertion

  /** Construction with an order below 2 is refused. */
  datatype Error = IllegalOrder(order: int)

  /** A tree: its configuration, its root (absent while empty) and its element counter. */
  datatype Tree = Tree(config: Config, root: Option<Node>, size: int)

  /** Enough structure for an insert to be defined: a valid order and a well-shaped root. */
  predicate WellFormed(t: Tree) {
    && ValidConfig(t.config)
    && (t.root.Some? ==> WellShaped(t.root.value, t.config.elementCount))
  }

  /**
    The invariant every reachable tree keeps: node capacity and shape, all
    leaves at one depth, sorted contents, a counter equal to the number of
    stored elements, and (from order 3 on) no node without values.
   */
  predicate Valid(t: Tree) {
    && WellFormed(t)
    && match t.root
       case None => t.size == 0
       case Some(r) =>
         && |r.values| > 0
         && Balanced(r, Height(r))
         && Sorted(InOrder(r))
         && |InOrder(r)| == t.size
         && (t.config.order >= 3 ==> NoEmptyNode(r))
  }

  /** Every stored element, in order (empty for an empty tree). */
  function Elements(t: Tree): seq<int> {
    match t.root
    case None => []
    case Some(r) => InOrder(r)
  }

  /**
    The constructor: refuses an order below 2, otherwise derives at most
    `order - 1` values per node and the split point `order / 2`, and starts
    empty.
   */
  function NewTree(order: int): (r: Result<Tree, Error>)
    ensures r.Failure? <==> order < 2
    ensures r.Failure? ==> r.error == IllegalOrder(order)
    ensures r.Success? ==>
      && r.value.config.order == order
      && r.value.config.elementCount == order - 1
      && r.value.config.midIndex == order / 2
      && r.value.root.None?
      && r.value.size == 0
  {
    if order > 1 then Success(Tree(Config(order, order - 1, order / 2), None, 0))
    else Failure(IllegalOrder(order))
  }

  /**
    The root that replaces `root` after inserting `x` below it: the absorbing
    old root, or a new root over the two halves of a split.
   */
  function NewRoot(c: Config, root: Node, x: int): (r: Node)
    requires ValidConfig(c) && WellShaped(root, c.elementCount)
    ensures WellShaped(r, c.elementCount)
    // nothing handed up by the descent is lost
    ensures InOrder(r) == Flatten(Descend(c, root, x))
    // a split of the old root is absorbed by a new, non-leaf root
    ensures Descend(c, root, x).Split? ==> |r.values| == 1 && |r.children| == 2
    // the new root holds the old contents with x sorted in
    ensures Sorted(InOrder(root)) ==> InOrder(r) == InsertSorted(InOrder(root), x)
  {
    DescendShaped(c, root, x);
    var u := Descend(c, root, x);
    assert Sorted(InOrder(root)) ==> Flatten(u) == InsertSorted(InOrder(root), x) by {
      if Sorted(InOrder(root)) {
        DescendContents(c, root, x);
      }
    }
    match u
    case Absorbed(node) => node
    case Split(left, middle, right) =>
      SplitRootShape(c, left, middle, right);
      Node([middle], [left, right])
  }

  /** The root built over the two halves of a root split is well shaped and enumerates left, middle, right. */
  lemma SplitRootShape(c: Config, left: Node, middle: int, right: Node)
    requires ValidConfig(c)
    requires WellShaped(left, c.elementCount) && WellShaped(right, c.elementCount)
    ensures WellShaped(Node([middle], [left, right]), c.elementCount)
    ensures InOrder(Node([middle], [left, right])) == InOrder(left) + [middle] + InOrder(right)
  {
    assert forall ch :: ch in [left, right] ==> ch == left || ch == right;
    OneValueEnumeration(left, middle, right, false);
  }

  /**
    The public insert.  An empty tree gets a single leaf root holding `x`;
    otherwise the descent inserts `x`, a split that reaches the top becomes a
    new root with one value and two children, and the counter goes up by one
    however many splits happened.
   */
  function Put(t: Tree, x: int): (r: Tree)
    requires WellFormed(t)
    ensures WellFormed(r)
    ensures r.config == t.config
    ensures r.root.Some?
    ensures t.root.None? ==> r.root == Some(Node([x], [])) && r.size == 1
    ensures t.root.Some? ==> r.size == t.size + 1
    // a split of the old root is absorbed by a brand-new, non-leaf root
    ensures t.root.Some? && Descend(t.config, t.root.value, x).Split? ==>
      && |r.root.value.values| == 1
      && |r.root.value.children| == 2
      && !IsLeaf(r.root.value)
  {
    match t.root
    case None =>
      Tree(t.config, Some(Node([x], [])), 1)
    case Some(root) =>
      DescendShaped(t.config, root, x);
      Tree(t.config, Some(NewRoot(t.config, root, x)), t.size + 1)
  }

  /** The order the tree was built with. */
  function Order(t: Tree): (r: int)
    // the order fixes the node capacity and the split point
    ensures WellFormed(t) ==> r >= 2 && t.config.elementCount == r - 1 && t.config.midIndex == r / 2
  {
    t.config.order
  }

  /** The element counter. */
  function Size(t: Tree): (r: int)
    // on a valid tree the counter is the number of stored elements
    ensures Valid(t) ==> r == |Elements(t)|
  {
    t.size
  }

  /** No element stored yet, as the counter tells. */
  function IsEmpty(t: Tree): (b: bool)
    // on a valid tree the counter reads zero exactly when nothing is stored
    ensures Valid(t) ==> (b <==> Elements(t) == [])
  {
    t.size == 0
  }

  /** Inserts the elements of `xs` one after another. */
  function PutAll(t: Tree, xs: seq<int>): (r: Tree)
    requires WellFormed(t)
    ensures WellFormed(r)
    ensures r.config == t.config
    decreases |xs|
  {
    if |xs| == 0 then t else PutAll(Put(t, xs[0]), xs[1..])
  }

  /** Stable insertion sort: the reference the tree's contents are compared with. */
  function InsertAllSorted(s: seq<int>, xs: seq<int>): seq<int>
    decreases |xs|
  {
    if |xs| == 0 then s else InsertAllSorted(InsertSorted(s, xs[0]), xs[1..])
  }

  /** A freshly constructed tree satisfies the invariant and stores nothing. */
  lemma NewTreeValid(order: int)
    requires order >= 2
    ensures NewTree(order).Success?
    ensures Valid(NewTree(order).value)
    ensures Elements(NewTree(order).value) == []
    ensures IsEmpty(NewTree(order).value)
  {
  }

  /** The counter and the contents agree: a valid tree is empty exactly when it stores nothing. */
  lemma SizeCountsElements(t: Tree)
    requires Valid(t)
    ensures |Elements(t)| == Size(t)
    ensures IsEmpty(t) <==> Elements(t) == []
  {
  }

  /** A root split yields a valid root one level higher. */
  lemma RootSplitValid(c: Config, left: Node, middle: int, right: Node, h: nat)
    requires ValidConfig(c)
    requires WellShaped(left, c.elementCount) && WellShaped(right, c.elementCount)
    requires Balanced(left, h) && Balanced(right, h)
    ensures WellShaped(Node([middle], [left, right]), c.elementCount)
    ensures Balanced(Node([middle], [left, right]), h + 1)
    ensures Height(Node([middle], [left, right])) == h + 1
    ensures InOrder(Node([middle], [left, right])) == InOrder(left) + [middle] + InOrder(right)
  {
    var n := Node([middle], [left, right]);
    assert forall ch :: ch in n.children ==> ch == left || ch == right;
    BalancedInternal(n, h + 1);
    BalancedHeight(n, h + 1);
    OneValueEnumeration(left, middle, right, false);
  }

  /**
    An insert keeps the invariant, and the new contents are the old contents
    with `x` inserted after every element `<= x`.
   */
  lemma PutValid(t: Tree, x: int)
    requires Valid(t)
    ensures Valid(Put(t, x))
    ensures Elements(Put(t, x)) == InsertSorted(Elements(t), x)
  {
    if t.root.Some? {
      var c, root := t.config, t.root.value;
      var h := Height(root);
      DescendShaped(c, root, x);
      DescendBalanced(c, root, x, h);
      DescendContents(c, root, x);
      InsertSortedKeepsSorted(InOrder(root), x);
      InsertSortedMultiset(InOrder(root), x);
      if c.order >= 3 {
        DescendNoEmpty(c, root, x);
      }
      match Descend(c, root, x)
      case Absorbed(node) =>
        BalancedHeight(node, h);
      case Split(left, middle, right) =>
        RootSplitValid(c, left, middle, right, h);
    }
  }

  /** The tree grows one level taller exactly when the old root splits, and never otherwise. */
  lemma PutHeight(t: Tree, x: int)
    requires Valid(t) && t.root.Some?
    ensures Height(Put(t, x).root.value)
         == Height(t.root.value) + (if Descend(t.config, t.root.value, x).Split? then 1 else 0)
  {
    var c, root := t.config, t.root.value;
    var h := Height(root);
    DescendShaped(c, root, x);
    DescendBalanced(c, root, x, h);
    match Descend(c, root, x)
    case Absorbed(node) =>
      BalancedHeight(node, h);
    case Split(left, middle, right) =>
      RootSplitValid(c, left, middle, right, h);
  }

  /**
    After any sequence of inserts the invariant holds, the counter has grown
    by the number of inserts, and the contents are what insertion-sorting the
    new elements into the old contents gives.
   */
  lemma {:induction false} PutAllValid(t: Tree, xs: seq<int>)
    requires Valid(t)
    ensures Valid(PutAll(t, xs))
    ensures Size(PutAll(t, xs)) == Size(t) + |xs|
    ensures Elements(PutAll(t, xs)) == InsertAllSorted(Elements(t), xs)
    decreases |xs|
  {
    if |xs| > 0 {
      PutValid(t, xs[0]);
      PutAllValid(Put(t, xs[0]), xs[1..]);
    }
  }

  /** The reference insertion sort yields a sorted permutation of its inputs. */
  lemma {:induction false} InsertAllSortedCorrect(s: seq<int>, xs: seq<int>)
    requires Sorted(s)
    ensures Sorted(InsertAllSorted(s, xs))
    ensures multiset(InsertAllSorted(s, xs)) == multiset(s) + multiset(xs)
    decreases |xs|
  {
    if |xs| > 0 {
      InsertSortedKeepsSorted(s, xs[0]);
      InsertSortedMultiset(s, xs[0]);
      InsertAllSortedCorrect(InsertSorted(s, xs[0]), xs[1..]);
      assert xs == [xs[0]] + xs[1..];
    }
  }

  /**
    The end-to-end guarantee: a tree of any valid order built by inserting
    `xs` keeps every node within `order - 1` values and one more child than
    values, has all leaves at one depth, and enumerates exactly the inserted
    elements in non-decreasing order, as many as its size says.
   */
  lemma BuiltTree(order: int, xs: seq<int>)
    requires order >= 2
    ensures NewTree(order).Success?
    ensures var t := PutAll(NewTree(order).value, xs);
      && Valid(t)
      && (t.root.Some? ==> WellShaped(t.root.value, order - 1) && Balanced(t.root.value, Height(t.root.value)))
      && Sorted(Elements(t))
      && multiset(Elements(t)) == multiset(xs)
      && |Elements(t)| == Size(t) == |xs|
  {
    var t0 := NewTree(order).value;
    NewTreeValid(order);
    PutAllValid(t0, xs);
    InsertAllSortedCorrect([], xs);
  }
}
