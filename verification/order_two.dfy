/**
  Trees of order 2 built by inserting 1, 2, 3, 4, 5, worked through one insert
  at a time.  At order 2 a node holds one value and every split leaves a right
  sibling without values.
 */
module OrderTwo {
  import opened Wrappers
  import opened SortedSeq
  import opened Nodes
  import opened Insertion
  import opened BTree

  // the nodes that make up the intermediate trees
  const Leaf1 := Node([1], [])
  const Leaf3 := Node([3], [])
  const Leaf5 := Node([5], [])
  const EmptyLeaf := Node([], [])
  const Left3 := Node([2], [Leaf1, Leaf3])
  const Order2Final := Node([4], [Left3, Node([], [Leaf5])])

  /** The first five inserts into an order-2 tree, 1 to 5, one at a time. */
  lemma Order2Steps()
    ensures Put(NewTree(2).value, 1) == Tree(Config(2, 1, 1), Some(Leaf1), 1)
    ensures Put(Tree(Config(2, 1, 1), Some(Leaf1), 1), 2)
         == Tree(Config(2, 1, 1), Some(Node([2], [Leaf1, EmptyLeaf])), 2)
    ensures Put(Tree(Config(2, 1, 1), Some(Node([2], [Leaf1, EmptyLeaf])), 2), 3)
         == Tree(Config(2, 1, 1), Some(Left3), 3)
    ensures Put(Tree(Config(2, 1, 1), Some(Left3), 3), 4)
         == Tree(Config(2, 1, 1), Some(Node([4], [Left3, Node([], [EmptyLeaf])])), 4)
    ensures Put(Tree(Config(2, 1, 1), Some(Node([4], [Left3, Node([], [EmptyLeaf])])), 4), 5)
         == Tree(Config(2, 1, 1), Some(Order2Final), 5)
  {
    var c := Config(2, 1, 1);
    Order2Split2(c);
    assert NewRoot(c, Leaf1, 2) == Node([2], [Leaf1, EmptyLeaf]);
    Order2Absorb3(c);
    assert NewRoot(c, Node([2], [Leaf1, EmptyLeaf]), 3) == Left3;
    Order2Split4(c);
    assert NewRoot(c, Left3, 4) == Node([4], [Left3, Node([], [EmptyLeaf])]);
    Order2Absorb5(c);
    assert NewRoot(c, Node([4], [Left3, Node([], [EmptyLeaf])]), 5) == Order2Final;
  }

  /** Inserting 1, 2, 3 into an empty order-2 tree gives the root 2 over the leaves 1 and 3. */
  lemma OrderTwoFirstThree()
    ensures NewTree(2).Success?
    ensures PutAll(NewTree(2).value, [1, 2, 3]) == Tree(Config(2, 1, 1), Some(Left3), 3)
  {
    var c := Config(2, 1, 1);
    var t0 := NewTree(2).value;
    Order2Steps();
    calc {
      PutAll(t0, [1, 2, 3]);
      { assert [1, 2, 3][1..] == [2, 3]; }
      PutAll(Tree(c, Some(Leaf1), 1), [2, 3]);
      { assert [2, 3][1..] == [3]; }
      PutAll(Tree(c, Some(Node([2], [Leaf1, EmptyLeaf])), 2), [3]);
      Tree(c, Some(Left3), 3);
    }
  }

  /** The root 2 over the leaves 1 and 3 enumerates 1, 2, 3. */
  lemma Left3Enumeration()
    ensures InOrder(Left3) == [1, 2, 3]
  {
    OneValueEnumeration(Leaf1, 2, Leaf3, false);
  }

  lemma Order2Split2(c: Config)
    requires c == Config(2, 1, 1)
    ensures WellShaped(Leaf1, c.elementCount) && Descend(c, Leaf1, 2) == Split(Leaf1, 2, EmptyLeaf)
  {
  }

  lemma Order2Absorb3(c: Config)
    requires c == Config(2, 1, 1)
    ensures Descend(c, Node([2], [Leaf1, EmptyLeaf]), 3) == Absorbed(Left3)
  {
    assert SlotIndex([2], 3) == 1;
    assert Descend(c, EmptyLeaf, 3) == Absorbed(Leaf3);
    assert [Leaf1, EmptyLeaf][1 := Leaf3] == [Leaf1, Leaf3];
  }

  lemma Order2Split4(c: Config)
    requires c == Config(2, 1, 1)
    ensures Descend(c, Left3, 4) == Split(Left3, 4, Node([], [EmptyLeaf]))
  {
    assert SlotIndex([2], 4) == 1;
    assert SlotIndex([3], 4) == 1;
    assert InsertAt([3], 1, 4) == [3, 4];
    assert Descend(c, Leaf3, 4) == Split(Leaf3, 4, EmptyLeaf);
    assert [Leaf1, Leaf3][1 := Leaf3] == [Leaf1, Leaf3];
    assert InsertAt([2], 1, 4) == [2, 4];
    assert InsertAt([Leaf1, Leaf3], 2, EmptyLeaf) == [Leaf1, Leaf3, EmptyLeaf];
  }

  lemma Order2Absorb5(c: Config)
    requires c == Config(2, 1, 1)
    ensures Descend(c, Node([4], [Left3, Node([], [EmptyLeaf])]), 5) == Absorbed(Order2Final)
  {
    assert SlotIndex([4], 5) == 1;
    assert SlotIndex([], 5) == 0;
    assert Descend(c, EmptyLeaf, 5) == Absorbed(Leaf5);
    assert [EmptyLeaf][0 := Leaf5] == [Leaf5];
    assert Descend(c, Node([], [EmptyLeaf]), 5) == Absorbed(Node([], [Leaf5]));
    assert [Left3, Node([], [EmptyLeaf])][1 := Node([], [Leaf5])] == [Left3, Node([], [Leaf5])];
  }
}
