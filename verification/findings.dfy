/**
  Two places where the source as written does not do what it evidently
  intends, each modelled as written next to the corrected behaviour the rest
  of the model uses.
 */
module Findings {
  import opened Wrappers
  import opened SortedSeq
  import opened Nodes
  import opened Insertion
  import opened BTree
  import opened OrderTwo

  /**
    The public insert as it runs with Java assertions disabled (the JVM
    default): the recursive insert sits inside an `assert` statement, so on a
    non-empty tree only the counter changes.
   */
  function PutAssertionsDisabled(t: Tree, x: int): (r: Tree)
    requires WellFormed(t)
    ensures t.root.Some? ==> Elements(r) == Elements(t) && r.size == t.size + 1
  {
    match t.root
    case None => Tree(t.config, Some(Node([x], [])), 1)
    case Some(_) => t.(size := t.size + 1)
  }

  /** The traversal the source's rendering calls on the root, early return included. */
  function ElementsAsWritten(t: Tree): seq<int> {
    match t.root
    case None => []
    case Some(r) => InOrderAsWritten(r)
  }

  /**
    With assertions disabled, inserting 1 then 2 into an order-3 tree leaves a
    size of 2 but only one stored element; the corrected insert stores both.
   */
  lemma AssertionsDisabledDropsInsert()
    ensures NewTree(3).Success?
    ensures var t := NewTree(3).value;
      var skipped := PutAssertionsDisabled(PutAssertionsDisabled(t, 1), 2);
      && Size(skipped) == 2
      && Elements(skipped) == [1]
      && Elements(Put(Put(t, 1), 2)) == [1, 2]
  {
  }

  /**
    The source's traversal is correct from order 3 on: no node ever loses all
    its values there, so the early return never fires and it agrees with the
    corrected enumeration on every reachable tree.
   */
  lemma AsWrittenTraversalFromOrderThree(t: Tree)
    requires Valid(t) && Order(t) >= 3
    ensures ElementsAsWritten(t) == Elements(t)
  {
    if t.root.Some? {
      AsWrittenAgrees(t.root.value);
    }
  }

  /**
    From order 3 on, the source's own traversal of a built tree is correct:
    it lists the inserted elements in non-decreasing order, each as often as
    it was inserted, and as many as the size says.
   */
  lemma AsWrittenBuiltTree(order: int, xs: seq<int>)
    requires order >= 3
    ensures NewTree(order).Success?
    ensures var t := PutAll(NewTree(order).value, xs);
      && Sorted(ElementsAsWritten(t))
      && multiset(ElementsAsWritten(t)) == multiset(xs)
      && |ElementsAsWritten(t)| == Size(t) == |xs|
  {
    BuiltTree(order, xs);
    AsWrittenTraversalFromOrderThree(PutAll(NewTree(order).value, xs));
  }

  /**
    With order 2 a split leaves the new right sibling without values.  After
    inserting 1, 2, 3, 4, 5 the root's right child holds no value but has the
    leaf with 5 below it, and the source's traversal, which returns early on a
    node whose first value slot is empty, misses that 5: it lists four
    elements while the size is 5.  The corrected enumeration lists all five.
   */
  lemma Order2TraversalLosesElement()
    ensures NewTree(2).Success?
    ensures var t := PutAll(NewTree(2).value, [1, 2, 3, 4, 5]);
      && Size(t) == 5
      && ElementsAsWritten(t) == [1, 2, 3, 4]
      && Elements(t) == [1, 2, 3, 4, 5]
  {
    var c := Config(2, 1, 1);
    var t0 := NewTree(2).value;
    var t1 := Tree(c, Some(Leaf1), 1);
    var t2 := Tree(c, Some(Node([2], [Leaf1, EmptyLeaf])), 2);
    var t3 := Tree(c, Some(Left3), 3);
    var t4 := Tree(c, Some(Node([4], [Left3, Node([], [EmptyLeaf])])), 4);
    var t5 := Tree(c, Some(Order2Final), 5);
    Order2Steps();
    calc {
      PutAll(t0, [1, 2, 3, 4, 5]);
      { assert [1, 2, 3, 4, 5][1..] == [2, 3, 4, 5]; }
      PutAll(t1, [2, 3, 4, 5]);
      { assert [2, 3, 4, 5][1..] == [3, 4, 5]; }
      PutAll(t2, [3, 4, 5]);
      { assert [3, 4, 5][1..] == [4, 5]; }
      PutAll(t3, [4, 5]);
      { assert [4, 5][1..] == [5]; }
      PutAll(t4, [5]);
      t5;
    }
    Order2FinalEnumerations();
  }

  /** Both traversals of the final order-2 tree. */
  lemma Order2FinalEnumerations()
    ensures InOrder(Order2Final) == [1, 2, 3, 4, 5]
    ensures InOrderAsWritten(Order2Final) == [1, 2, 3, 4]
  {
    OneValueEnumeration(Leaf1, 2, Leaf3, false);
    OneValueEnumeration(Leaf1, 2, Leaf3, true);
    OneValueEnumeration(Left3, 4, Node([], [Leaf5]), false);
    OneValueEnumeration(Left3, 4, Node([], [Leaf5]), true);
    NoValueEnumeration(Leaf5);
  }
}
