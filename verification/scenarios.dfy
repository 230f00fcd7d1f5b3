/** Concrete insert sequences, worked through the model. */
module Scenarios {
  import opened Wrappers
  import opened SortedSeq
  import opened Nodes
  import opened BTree
  import opened OrderTwo

  /** Order 3, inserting 10, 20, 5, 6, 12, 30, 7, 17: the enumeration is the sorted list and the size is 8. */
  lemma OrderThreeSequence()
    ensures NewTree(3).Success?
    ensures var t := PutAll(NewTree(3).value, [10, 20, 5, 6, 12, 30, 7, 17]);
      && Elements(t) == [5, 6, 7, 10, 12, 17, 20, 30]
      && Size(t) == 8
  {
    NewTreeValid(3);
    PutAllValid(NewTree(3).value, [10, 20, 5, 6, 12, 30, 7, 17]);
    OrderThreeReference();
  }

  /** Order 3, inserting 5 three times: all three copies are kept. */
  lemma DuplicatesKept()
    ensures NewTree(3).Success?
    ensures var t := PutAll(NewTree(3).value, [5, 5, 5]);
      && Elements(t) == [5, 5, 5]
      && Size(t) == 3
  {
  }

  /**
    Order 2, inserting 1, 2, 3: the second insert already splits the root, and
    after the third the root holds one value over two leaves.
   */
  lemma OrderTwoThreeInserts()
    ensures NewTree(2).Success?
    ensures var t := PutAll(NewTree(2).value, [1, 2, 3]);
      && t.root.Some?
      && t.root.value == Node([2], [Node([1], []), Node([3], [])])
      && Elements(t) == [1, 2, 3]
      && Size(t) == 3
  {
    OrderTwoFirstThree();
    Left3Enumeration();
  }

  /** The reference insertion sort on the order-3 sequence. */
  lemma OrderThreeReference()
    ensures InsertAllSorted([], [10, 20, 5, 6, 12, 30, 7, 17]) == [5, 6, 7, 10, 12, 17, 20, 30]
  {
    OrderThreeFirstFour();
    OrderThreeLastFour();
  }

  /** The first four sorted insertions of the order-3 sequence. */
  lemma OrderThreeFirstFour()
    ensures InsertAllSorted([], [10, 20, 5, 6, 12, 30, 7, 17])
         == InsertAllSorted([5, 6, 10, 20], [12, 30, 7, 17])
  {
    assert InsertSorted([], 10) == [10];
    assert SlotIndex([10], 20) == 1;
    assert InsertSorted([10], 20) == [10, 20];
    assert SlotIndex([10, 20], 5) == 0;
    assert InsertSorted([10, 20], 5) == [5, 10, 20];
    assert SlotIndex([5, 10, 20], 6) == 1;
    assert InsertSorted([5, 10, 20], 6) == [5, 6, 10, 20];
    calc {
      InsertAllSorted([], [10, 20, 5, 6, 12, 30, 7, 17]);
      { assert [10, 20, 5, 6, 12, 30, 7, 17][1..] == [20, 5, 6, 12, 30, 7, 17]; }
      InsertAllSorted([10], [20, 5, 6, 12, 30, 7, 17]);
      { assert [20, 5, 6, 12, 30, 7, 17][1..] == [5, 6, 12, 30, 7, 17]; }
      InsertAllSorted([10, 20], [5, 6, 12, 30, 7, 17]);
      { assert [5, 6, 12, 30, 7, 17][1..] == [6, 12, 30, 7, 17]; }
      InsertAllSorted([5, 10, 20], [6, 12, 30, 7, 17]);
      { assert [6, 12, 30, 7, 17][1..] == [12, 30, 7, 17]; }
      InsertAllSorted([5, 6, 10, 20], [12, 30, 7, 17]);
    }
  }

  /** The last four sorted insertions of the order-3 sequence. */
  lemma OrderThreeLastFour()
    ensures InsertAllSorted([5, 6, 10, 20], [12, 30, 7, 17]) == [5, 6, 7, 10, 12, 17, 20, 30]
  {
    assert SlotIndex([5, 6, 10, 20], 12) == 3;
    assert InsertSorted([5, 6, 10, 20], 12) == [5, 6, 10, 12, 20];
    assert SlotIndex([5, 6, 10, 12, 20], 30) == 5;
    assert InsertSorted([5, 6, 10, 12, 20], 30) == [5, 6, 10, 12, 20, 30];
    assert SlotIndex([5, 6, 10, 12, 20, 30], 7) == 2;
    assert InsertSorted([5, 6, 10, 12, 20, 30], 7) == [5, 6, 7, 10, 12, 20, 30];
    assert SlotIndex([5, 6, 7, 10, 12, 20, 30], 17) == 5;
    assert InsertSorted([5, 6, 7, 10, 12, 20, 30], 17) == [5, 6, 7, 10, 12, 17, 20, 30];
    calc {
      InsertAllSorted([5, 6, 10, 20], [12, 30, 7, 17]);
      { assert [12, 30, 7, 17][1..] == [30, 7, 17]; }
      InsertAllSorted([5, 6, 10, 12, 20], [30, 7, 17]);
      { assert [30, 7, 17][1..] == [7, 17]; }
      InsertAllSorted([5, 6, 10, 12, 20, 30], [7, 17]);
      { assert [7, 17][1..] == [17]; }
      InsertAllSorted([5, 6, 7, 10, 12, 20, 30], [17]);
      [5, 6, 7, 10, 12, 17, 20, 30];
    }
  }
}
