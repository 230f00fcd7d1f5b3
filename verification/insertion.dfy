/**
  The insertion algorithm of the B-Tree: the slot search and descent to a
  leaf, the splittable insert into one node, and the upward propagation of
  splits.  Nodes are values, so every step returns the rebuilt node instead of
  mutating it in place.
 */
module Insertion {
  import opened Wrappers
  import opened SortedSeq
  import opened Nodes

  /** The order of a tree and the two constants derived from it at construction. */
  datatype Config = Config(order: int, elementCount: int, midIndex: int)

  /**
    A usable configuration: at least two children per node, at most
    `order - 1` values per node, and splits cut the combined list at `order / 2`.
   */
  predicate ValidConfig(c: Config) {
    && c.order >= 2
    && c.elementCount == c.order - 1
    && c.midIndex == c.order / 2
  }

  /**
    What an insert into a subtree hands back to the level above: either the
    subtree absorbed the element (and this is its new root), or its root split
    into `left` and `right` around the promoted value `middle`.
   */
  datatype Upward = Absorbed(node: Node) | Split(left: Node, middle: int, right: Node)

  /** The elements an insert result holds, in order. */
  function Flatten(u: Upward): seq<int> {
    match u
    case Absorbed(n) => InOrder(n)
    case Split(l, m, r) => InOrder(l) + [m] + InOrder(r)
  }

  /**
    A slot of `n` that can take a new value, together with the child that
    goes to its right: none for a leaf, one for an internal node.
   */
  predicate Insertable(n: Node, i: nat, rightChild: Option<Node>) {
    && i <= |n.values|
    && (IsLeaf(n) || |n.children| == |n.values| + 1)
    && (IsLeaf(n) <==> rightChild.None?)
  }

  /** `n` with `x` at value slot `i` and `rightChild` at child slot `i + 1`. */
  function Merge(n: Node, i: nat, x: int, rightChild: Option<Node>): (m: Node)
    requires Insertable(n, i, rightChild)
    // one value more, x at slot i; a leaf stays a leaf and an internal node
    // gets rightChild just right of x
    ensures |m.values| == |n.values| + 1 && m.values[i] == x
    ensures IsLeaf(m) == IsLeaf(n)
    ensures !IsLeaf(n) ==> |m.children| == |m.values| + 1 && m.children[i + 1] == rightChild.value
  {
    Node(InsertAt(n.values, i, x),
         if IsLeaf(n) then [] else InsertAt(n.children, i + 1, rightChild.value))
  }

  /**
    The merge keeps everything else in place: the values before slot `i` and
    the children up to slot `i` stay, the rest move one place right, and the
    values are the old ones plus one `x`.
   */
  lemma MergeKeepsOrder(n: Node, i: nat, x: int, rightChild: Option<Node>)
    requires Insertable(n, i, rightChild)
    ensures var m := Merge(n, i, x, rightChild);
      && m.values[..i] == n.values[..i]
      && m.values[i + 1..] == n.values[i..]
      && multiset(m.values) == multiset(n.values) + multiset{x}
      && (!IsLeaf(n) ==>
            && m.children[..i + 1] == n.children[..i + 1]
            && m.children[i + 2..] == n.children[i + 1..])
  {
    InsertAtMultiset(n.values, i, x);
  }

  /**
    Inserts `x` at slot `i` of `n`, with `rightChild` right of it.  A node with
    room shifts its later values and children one place right.  A full node is
    merged with the new entry into `order` values, keeps the first `midIndex`
    of them, promotes the next one and moves the rest into a new right sibling.
   */
  function SplittableInsert(c: Config, n: Node, i: nat, x: int, rightChild: Option<Node>): (u: Upward)
    requires ValidConfig(c)
    requires |n.values| <= c.elementCount
    requires Insertable(n, i, rightChild)
    // only a full node splits
    ensures u.Absorbed? <==> |n.values| < c.elementCount
    // no split: x sits at slot i, rightChild at slot i + 1, the rest keep their order
    ensures u.Absorbed? ==>
      && |u.node.values| == |n.values| + 1
      && u.node.values[i] == x
      && (forall j :: 0 <= j < i ==> u.node.values[j] == n.values[j])
      && (forall j :: i < j <= |n.values| ==> u.node.values[j] == n.values[j - 1])
      && IsLeaf(u.node) == IsLeaf(n)
    ensures u.Absorbed? && !IsLeaf(n) ==>
      && |u.node.children| == |n.children| + 1
      && u.node.children[i + 1] == rightChild.value
      && (forall j :: 0 <= j <= i ==> u.node.children[j] == n.children[j])
      && (forall j :: i + 1 < j <= |n.children| ==> u.node.children[j] == n.children[j - 1])
    // split: midIndex values stay left, the next is promoted, order - midIndex - 1 go right,
    // and together they are the combined list
    ensures u.Split? ==>
      && |u.left.values| == c.midIndex
      && |u.right.values| == c.order - c.midIndex - 1
      && u.left.values + [u.middle] + u.right.values == InsertAt(n.values, i, x)
      && IsLeaf(u.left) == IsLeaf(n)
      && IsLeaf(u.right) == IsLeaf(n)
    ensures u.Split? && !IsLeaf(n) ==>
      && |u.left.children| == c.midIndex + 1
      && u.left.children + u.right.children == InsertAt(n.children, i + 1, rightChild.value)
  {
    var m := Merge(n, i, x, rightChild);
    if |n.values| < c.elementCount then
      Absorbed(m)
    else
      var mid := c.midIndex;
      assert m.values == m.values[..mid] + [m.values[mid]] + m.values[mid + 1..];
      assert !IsLeaf(n) ==> m.children == m.children[..mid + 1] + m.children[mid + 1..];
      Split(Node(m.values[..mid], if IsLeaf(n) then [] else m.children[..mid + 1]),
            m.values[mid],
            Node(m.values[mid + 1..], if IsLeaf(n) then [] else m.children[mid + 1..]))
  }

  /**
    The source's private recursive `put`: picks the child slot of `x` in `n`,
    inserts at the leaf, and absorbs a split reported by the child.
   */
  function Descend(c: Config, n: Node, x: int): (u: Upward)
    requires ValidConfig(c)
    requires WellShaped(n, c.elementCount)
    // a split is reported only by a node that was full
    ensures u.Split? ==> |n.values| == c.elementCount
    // an absorbing node gains at most one value and never changes kind
    ensures u.Absorbed? ==> |n.values| <= |u.node.values| <= |n.values| + 1
    ensures u.Absorbed? ==> IsLeaf(u.node) == IsLeaf(n)
    decreases n
  {
    var i := SlotIndex(n.values, x);
    if IsLeaf(n) then
      SplittableInsert(c, n, i, x, None)
    else
      assert n.children[i] in n.children;
      match Descend(c, n.children[i], x)
      case Absorbed(updated) =>
        Absorbed(n.(children := n.children[i := updated]))
      case Split(left, middle, right) =>
        SplittableInsert(c, n.(children := n.children[i := left]), i, middle, Some(right))
  }

  /**
    A splittable insert loses nothing and reorders nothing: its result holds
    exactly the enumeration of the merged node, split or not.
   */
  lemma SplittableInsertContents(c: Config, n: Node, i: nat, x: int, rightChild: Option<Node>)
    requires ValidConfig(c)
    requires |n.values| <= c.elementCount
    requires Insertable(n, i, rightChild)
    ensures Flatten(SplittableInsert(c, n, i, x, rightChild)) == InOrder(Merge(n, i, x, rightChild))
  {
    var m := Merge(n, i, x, rightChild);
    var u := SplittableInsert(c, n, i, x, rightChild);
    if u.Split? {
      var mid := c.midIndex;
      if IsLeaf(n) {
        assert m.values == m.values[..mid] + [m.values[mid]] + m.values[mid + 1..];
      } else {
        calc {
          InOrder(m);
          EnumerateSlots(m.children, m.values, false);
          { SlotsCut(m.children, m.values, mid + 1); }
          EnumerateSlots(m.children[..mid + 1], m.values[..mid], false) + [m.values[mid]]
            + EnumerateSlots(m.children[mid + 1..], m.values[mid + 1..], false);
          InOrder(u.left) + [u.middle] + InOrder(u.right);
        }
      }
    }
  }

  /** Splitting or not, every node a splittable insert produces respects the capacity and shape bounds. */
  lemma SplittableInsertShaped(c: Config, n: Node, i: nat, x: int, rightChild: Option<Node>)
    requires ValidConfig(c)
    requires |n.values| <= c.elementCount
    requires Insertable(n, i, rightChild)
    requires forall ch :: ch in n.children ==> WellShaped(ch, c.elementCount)
    requires rightChild.Some? ==> WellShaped(rightChild.value, c.elementCount)
    ensures match SplittableInsert(c, n, i, x, rightChild)
      case Absorbed(node) => WellShaped(node, c.elementCount)
      case Split(left, _, right) => WellShaped(left, c.elementCount) && WellShaped(right, c.elementCount)
  {
    var m := Merge(n, i, x, rightChild);
    if !IsLeaf(n) {
      InsertAtMembers(n.children, i + 1, rightChild.value);
    }
    assert forall ch :: ch in m.children ==> WellShaped(ch, c.elementCount);
    if |n.values| == c.elementCount && !IsLeaf(n) {
      PartsMembers(m.children, c.midIndex + 1);
    }
  }

  /** A splittable insert keeps every leaf at the depth it had. */
  lemma SplittableInsertBalanced(c: Config, n: Node, i: nat, x: int, rightChild: Option<Node>, h: nat)
    requires ValidConfig(c)
    requires |n.values| <= c.elementCount
    requires Insertable(n, i, rightChild)
    requires Balanced(n, h)
    requires rightChild.Some? ==> h > 0 && Balanced(rightChild.value, h - 1)
    ensures match SplittableInsert(c, n, i, x, rightChild)
      case Absorbed(node) => Balanced(node, h)
      case Split(left, _, right) => Balanced(left, h) && Balanced(right, h)
  {
    var m := Merge(n, i, x, rightChild);
    var u := SplittableInsert(c, n, i, x, rightChild);
    if !IsLeaf(n) {
      assert m.children == InsertAt(n.children, i + 1, rightChild.value);
      InsertAtMembers(n.children, i + 1, rightChild.value);
      assert forall ch :: ch in m.children ==> Balanced(ch, h - 1);
      if u.Split? {
        PartsMembers(m.children, c.midIndex + 1);
        BalancedInternal(u.left, h);
        BalancedInternal(u.right, h);
      } else {
        BalancedInternal(m, h);
      }
    }
  }

  /**
    From order 3 on, both halves of a split keep at least one value, so a
    splittable insert never produces an empty node.
   */
  lemma SplittableInsertNoEmpty(c: Config, n: Node, i: nat, x: int, rightChild: Option<Node>)
    requires ValidConfig(c) && c.order >= 3
    requires |n.values| <= c.elementCount
    requires Insertable(n, i, rightChild)
    requires forall ch :: ch in n.children ==> NoEmptyNode(ch)
    requires rightChild.Some? ==> NoEmptyNode(rightChild.value)
    ensures match SplittableInsert(c, n, i, x, rightChild)
      case Absorbed(node) => NoEmptyNode(node)
      case Split(left, _, right) => NoEmptyNode(left) && NoEmptyNode(right)
  {
    var m := Merge(n, i, x, rightChild);
    if !IsLeaf(n) {
      InsertAtMembers(n.children, i + 1, rightChild.value);
    }
    assert forall ch :: ch in m.children ==> NoEmptyNode(ch);
    if |n.values| == c.elementCount && !IsLeaf(n) {
      PartsMembers(m.children, c.midIndex + 1);
    }
  }

  /**
    Descending into a subtree whose elements are sorted inserts `x` exactly
    where a stable sorted insertion puts it: after every element `<= x`,
    before the first greater one, with every other element kept in order.
   */
  lemma {:induction false} DescendContents(c: Config, n: Node, x: int)
    requires ValidConfig(c)
    requires WellShaped(n, c.elementCount)
    requires Sorted(InOrder(n))
    ensures Flatten(Descend(c, n, x)) == InsertSorted(InOrder(n), x)
    decreases n
  {
    var i := SlotIndex(n.values, x);
    if IsLeaf(n) {
      SplittableInsertContents(c, n, i, x, None);
    } else {
      var cs, vs := n.children, n.values;
      assert cs[i] in cs;
      InsertIntoChildSlot(n, x);
      SortedChild(n, i);
      DescendContents(c, cs[i], x);
      match Descend(c, cs[i], x)
      case Absorbed(updated) =>
        ReplaceChildEnumeration(cs, vs, i, updated);
      case Split(left, middle, right) =>
        AbsorbChildSplitContents(c, n, i, left, middle, right);
    }
  }

  /**
    A node that absorbs a split of its child `i` holds, in order, what was
    left of that child, the two halves around the promoted value, and what was
    right of it; whether the node itself splits does not matter.
   */
  lemma AbsorbChildSplitContents(c: Config, n: Node, i: nat, left: Node, middle: int, right: Node)
    requires ValidConfig(c)
    requires |n.values| <= c.elementCount
    requires !IsLeaf(n) && |n.children| == |n.values| + 1 && i <= |n.values|
    ensures Flatten(SplittableInsert(c, n.(children := n.children[i := left]), i, middle, Some(right)))
         == SlotsBefore(n.children, n.values, i) + (InOrder(left) + [middle] + InOrder(right))
            + SlotsAfter(n.children, n.values, i)
  {
    var cs, vs := n.children, n.values;
    var n' := n.(children := cs[i := left]);
    var merged := Merge(n', i, middle, Some(right));
    assert merged.children == InsertAt(cs[i := left], i + 1, right);
    assert merged.values == InsertAt(vs, i, middle);
    SplittableInsertContents(c, n', i, middle, Some(right));
    AbsorbSplitEnumeration(cs, vs, i, left, middle, right);
  }

  /** The child a descent picks holds a sorted part of a sorted subtree. */
  lemma SortedChild(n: Node, i: nat)
    requires !IsLeaf(n) && |n.children| == |n.values| + 1 && i < |n.children|
    requires Sorted(InOrder(n))
    ensures Sorted(InOrder(n.children[i]))
  {
    var cs, vs := n.children, n.values;
    SlotsAround(cs, vs, i);
    SortedParts(SlotsBefore(cs, vs, i), InOrder(cs[i]), SlotsAfter(cs, vs, i));
  }

  /**
    Sorted insertion into an internal node's elements happens inside the
    child at the descent slot: everything left of that child is `<= x` and the
    value right of it is greater.
   */
  lemma InsertIntoChildSlot(n: Node, x: int)
    requires !IsLeaf(n) && |n.children| == |n.values| + 1
    requires Sorted(InOrder(n))
    ensures var i := SlotIndex(n.values, x);
      InsertSorted(InOrder(n), x)
      == SlotsBefore(n.children, n.values, i) + InsertSorted(InOrder(n.children[i]), x)
         + SlotsAfter(n.children, n.values, i)
    // everything left of the child is <= x, and what follows it starts above x
    ensures var i := SlotIndex(n.values, x);
      && AllAtMost(SlotsBefore(n.children, n.values, i), x)
      && (|SlotsAfter(n.children, n.values, i)| == 0 || x < SlotsAfter(n.children, n.values, i)[0])
  {
    var cs, vs := n.children, n.values;
    var i := SlotIndex(vs, x);
    var before, after := SlotsBefore(cs, vs, i), SlotsAfter(cs, vs, i);
    SlotsAround(cs, vs, i);
    SortedParts(before, InOrder(cs[i]), after);
    if i > 0 {
      SortedBelowLast(before, x);
    }
    InsertSortedInMiddle(before, InOrder(cs[i]), after, x);
  }

  /** Every node an insert produces respects the capacity and shape bounds. */
  lemma {:induction false} DescendShaped(c: Config, n: Node, x: int)
    requires ValidConfig(c)
    requires WellShaped(n, c.elementCount)
    ensures match Descend(c, n, x)
      case Absorbed(node) => WellShaped(node, c.elementCount)
      case Split(left, _, right) => WellShaped(left, c.elementCount) && WellShaped(right, c.elementCount)
    decreases n
  {
    var i := SlotIndex(n.values, x);
    if IsLeaf(n) {
      SplittableInsertShaped(c, n, i, x, None);
    } else {
      var cs := n.children;
      assert cs[i] in cs;
      DescendShaped(c, cs[i], x);
      match Descend(c, cs[i], x)
      case Absorbed(updated) =>
        assert forall ch :: ch in cs[i := updated] ==> ch in cs || ch == updated;
      case Split(left, middle, right) =>
        assert forall ch :: ch in cs[i := left] ==> ch in cs || ch == left;
        SplittableInsertShaped(c, n.(children := cs[i := left]), i, middle, Some(right));
    }
  }

  /** An insert below a node whose leaves all lie at depth `h` keeps them all at depth `h`. */
  lemma {:induction false} DescendBalanced(c: Config, n: Node, x: int, h: nat)
    requires ValidConfig(c)
    requires WellShaped(n, c.elementCount)
    requires Balanced(n, h)
    ensures match Descend(c, n, x)
      case Absorbed(node) => Balanced(node, h)
      case Split(left, _, right) => Balanced(left, h) && Balanced(right, h)
    decreases n
  {
    var i := SlotIndex(n.values, x);
    if IsLeaf(n) {
      SplittableInsertBalanced(c, n, i, x, None, h);
    } else {
      var cs := n.children;
      assert cs[i] in cs;
      assert forall ch :: ch in cs ==> Balanced(ch, h - 1);
      DescendBalanced(c, cs[i], x, h - 1);
      match Descend(c, cs[i], x)
      case Absorbed(updated) =>
        ReplaceChildBalanced(n, i, updated, h);
      case Split(left, middle, right) =>
        ReplaceChildBalanced(n, i, left, h);
        SplittableInsertBalanced(c, n.(children := cs[i := left]), i, middle, Some(right), h);
    }
  }

  /** Replacing a child by one of the same leaf depth keeps the node's leaf depth. */
  lemma ReplaceChildBalanced(n: Node, i: nat, child: Node, h: nat)
    requires !IsLeaf(n) && h > 0 && i < |n.children|
    requires forall ch :: ch in n.children ==> Balanced(ch, h - 1)
    requires Balanced(child, h - 1)
    ensures Balanced(n.(children := n.children[i := child]), h)
  {
    var n' := n.(children := n.children[i := child]);
    assert forall ch :: ch in n'.children ==> ch in n.children || ch == child;
    BalancedInternal(n', h);
  }

  /** From order 3 on, an insert below a subtree without empty nodes creates none. */
  lemma {:induction false} DescendNoEmpty(c: Config, n: Node, x: int)
    requires ValidConfig(c) && c.order >= 3
    requires WellShaped(n, c.elementCount)
    requires NoEmptyNode(n)
    ensures match Descend(c, n, x)
      case Absorbed(node) => NoEmptyNode(node)
      case Split(left, _, right) => NoEmptyNode(left) && NoEmptyNode(right)
    decreases n
  {
    var i := SlotIndex(n.values, x);
    if IsLeaf(n) {
      SplittableInsertNoEmpty(c, n, i, x, None);
    } else {
      var cs := n.children;
      assert cs[i] in cs;
      DescendNoEmpty(c, cs[i], x);
      match Descend(c, cs[i], x)
      case Absorbed(updated) =>
        assert forall ch :: ch in cs[i := updated] ==> ch in cs || ch == updated;
      case Split(left, middle, right) =>
        assert forall ch :: ch in cs[i := left] ==> ch in cs || ch == left;
        SplittableInsertNoEmpty(c, n.(children := cs[i := left]), i, middle, Some(right));
    }
  }
}
