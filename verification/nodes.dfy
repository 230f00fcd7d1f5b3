/**
  B-Tree nodes as immutable values, the in-order enumeration of a subtree, and
  the structural invariants an insert-only B-Tree keeps.
 */
module Nodes {
  import opened SortedSeq

  /**
    A node holds its values left to right and, unless it is a leaf, one child
    per gap between values (one more child than values).  A leaf has no
    children at all.
   */
  datatype Node = Node(values: seq<int>, children: seq<Node>)

  predicate IsLeaf(n: Node) {
    |n.children| == 0
  }

  /**
    The enumeration child0, v0, child1, v1, ..., vk-1, childk of a subtree.
    With `stopOnEmpty` a node that holds no value contributes nothing, even when
    it has a child: that is the early return of the source's traversal.
   */
  function Enumerate(n: Node, stopOnEmpty: bool): seq<int>
    decreases n
  {
    if stopOnEmpty && |n.values| == 0 then []
    else if IsLeaf(n) then n.values
    else EnumerateSlots(n.children, n.values, stopOnEmpty)
  }

  /** The enumeration of children `cs` interleaved with values `vs`, starting with a child. */
  function EnumerateSlots(cs: seq<Node>, vs: seq<int>, stopOnEmpty: bool): seq<int>
    decreases cs
  {
    if |cs| == 0 then []
    else
      Enumerate(cs[0], stopOnEmpty)
      + (if |vs| == 0 then [] else [vs[0]] + EnumerateSlots(cs[1..], vs[1..], stopOnEmpty))
  }

  /** Every element stored in the subtree, in order. */
  function InOrder(n: Node): seq<int> {
    Enumerate(n, false)
  }

  /** The source's traversal, which skips any node whose first value slot is empty. */
  function InOrderAsWritten(n: Node): (r: seq<int>)
    // the early return: a node without values yields nothing, whatever its children hold
    ensures |n.values| == 0 ==> r == []
    // where no node has lost all its values it is the corrected traversal
    ensures NoEmptyNode(n) ==> r == InOrder(n)
  {
    if NoEmptyNode(n) then
      AsWrittenAgrees(n);
      Enumerate(n, true)
    else
      Enumerate(n, true)
  }

  /** The values stored in a subtree with their multiplicities, independent of any order. */
  function Contents(n: Node): multiset<int>
    decreases n, 1
  {
    multiset(n.values) + ChildrenContents(n.children)
  }

  /** The values stored under every child of a list. */
  function ChildrenContents(cs: seq<Node>): multiset<int>
    decreases cs, 0
  {
    if |cs| == 0 then multiset{} else Contents(cs[0]) + ChildrenContents(cs[1..])
  }

  /**
    Capacity and shape: at most `maxValues` values per node, and an internal
    node has exactly one more child than values.
   */
  predicate WellShaped(n: Node, maxValues: int) {
    && |n.values| <= maxValues
    && (IsLeaf(n) || |n.children| == |n.values| + 1)
    && forall c :: c in n.children ==> WellShaped(c, maxValues)
  }

  /** Every leaf of the subtree lies exactly `h` levels below its root. */
  predicate Balanced(n: Node, h: nat) {
    if IsLeaf(n) then h == 0
    else h > 0 && forall c :: c in n.children ==> Balanced(c, h - 1)
  }

  /** Length of the leftmost path from the node down to a leaf. */
  function Height(n: Node): nat {
    if IsLeaf(n) then 0 else 1 + Height(n.children[0])
  }

  /** No node of the subtree is without values. */
  predicate NoEmptyNode(n: Node) {
    && |n.values| > 0
    && forall c :: c in n.children ==> NoEmptyNode(c)
  }

  /** The enumeration of the slots to the left of child `i`. */
  function SlotsBefore(cs: seq<Node>, vs: seq<int>, i: nat): seq<int>
    requires i <= |cs| && i <= |vs|
  {
    if i == 0 then [] else EnumerateSlots(cs[..i], vs[..i - 1], false) + [vs[i - 1]]
  }

  /** The enumeration of the slots to the right of child `i`. */
  function SlotsAfter(cs: seq<Node>, vs: seq<int>, i: nat): seq<int>
    requires i < |cs| && i <= |vs|
  {
    if i == |vs| then [] else [vs[i]] + EnumerateSlots(cs[i + 1..], vs[i + 1..], false)
  }

  /** An internal node whose children all have leaf depth `h - 1` has leaf depth `h`. */
  lemma BalancedInternal(n: Node, h: nat)
    requires !IsLeaf(n) && h > 0
    requires forall c :: c in n.children ==> Balanced(c, h - 1)
    ensures Balanced(n, h)
  {
  }

  /** The enumeration of a node with one value and two children. */
  lemma OneValueEnumeration(left: Node, middle: int, right: Node, stopOnEmpty: bool)
    ensures Enumerate(Node([middle], [left, right]), stopOnEmpty)
         == Enumerate(left, stopOnEmpty) + [middle] + Enumerate(right, stopOnEmpty)
  {
    assert [left, right][1..] == [right];
    assert [middle][1..] == [];
    calc {
      Enumerate(Node([middle], [left, right]), stopOnEmpty);
      EnumerateSlots([left, right], [middle], stopOnEmpty);
      Enumerate(left, stopOnEmpty) + ([middle] + EnumerateSlots([right], [], stopOnEmpty));
      Enumerate(left, stopOnEmpty) + ([middle] + Enumerate(right, stopOnEmpty));
    }
  }

  /** The enumeration of a node with no value and a single child. */
  lemma NoValueEnumeration(child: Node)
    ensures InOrder(Node([], [child])) == InOrder(child)
    ensures InOrderAsWritten(Node([], [child])) == []
  {
    calc {
      InOrder(Node([], [child]));
      EnumerateSlots([child], [], false);
      InOrder(child);
    }
  }

  /**
    The corrected traversal lists exactly what the subtree stores: every value
    of every node, each as often as it is stored, and nothing else.
   */
  lemma {:induction false} InOrderContents(n: Node, maxValues: int)
    requires WellShaped(n, maxValues)
    ensures multiset(InOrder(n)) == Contents(n)
    decreases n, 1
  {
    if IsLeaf(n) {
      assert ChildrenContents(n.children) == multiset{};
    } else {
      SlotsContents(n.children, n.values, maxValues);
    }
  }

  /** `InOrderContents`, for a slot list with one more child than values. */
  lemma {:induction false} SlotsContents(cs: seq<Node>, vs: seq<int>, maxValues: int)
    requires |cs| == |vs| + 1
    requires forall c :: c in cs ==> WellShaped(c, maxValues)
    ensures multiset(EnumerateSlots(cs, vs, false)) == multiset(vs) + ChildrenContents(cs)
    decreases cs, 0
  {
    assert cs[0] in cs;
    InOrderContents(cs[0], maxValues);
    if |vs| == 0 {
      assert EnumerateSlots(cs, vs, false) == InOrder(cs[0]);
      assert ChildrenContents(cs) == Contents(cs[0]) by {
        assert ChildrenContents(cs[1..]) == multiset{};
      }
    } else {
      var rest := EnumerateSlots(cs[1..], vs[1..], false);
      assert forall c :: c in cs[1..] ==> c in cs;
      SlotsContents(cs[1..], vs[1..], maxValues);
      assert EnumerateSlots(cs, vs, false) == InOrder(cs[0]) + ([vs[0]] + rest);
      assert multiset(vs) == multiset{vs[0]} + multiset(vs[1..]) by {
        assert vs == [vs[0]] + vs[1..];
      }
      assert ChildrenContents(cs) == Contents(cs[0]) + ChildrenContents(cs[1..]);
    }
  }

  /** A balanced subtree's height is its uniform leaf depth. */
  lemma {:induction false} BalancedHeight(n: Node, h: nat)
    requires Balanced(n, h)
    ensures Height(n) == h
    decreases n
  {
    if !IsLeaf(n) {
      assert n.children[0] in n.children;
      BalancedHeight(n.children[0], h - 1);
    }
  }

  /**
    Enumeration distributes over a cut between two slot lists: a child list
    with one more entry than its values, a separating value, and the rest.
   */
  lemma {:induction false} SlotsConcat(cs1: seq<Node>, vs1: seq<int>, v: int, cs2: seq<Node>, vs2: seq<int>)
    requires |cs1| == |vs1| + 1
    ensures EnumerateSlots(cs1 + cs2, vs1 + [v] + vs2, false)
         == EnumerateSlots(cs1, vs1, false) + [v] + EnumerateSlots(cs2, vs2, false)
    decreases |vs1|
  {
    var cs, vs := cs1 + cs2, vs1 + [v] + vs2;
    assert cs[0] == cs1[0] && vs[0] == (vs1 + [v])[0];
    if |vs1| == 0 {
      assert cs[1..] == cs2 && vs[1..] == vs2;
    } else {
      assert cs[1..] == cs1[1..] + cs2;
      assert vs[1..] == vs1[1..] + [v] + vs2;
      SlotsConcat(cs1[1..], vs1[1..], v, cs2, vs2);
    }
  }

  /** The enumeration of a well-formed slot list, seen around its child `i`. */
  lemma SlotsAround(cs: seq<Node>, vs: seq<int>, i: nat)
    requires |cs| == |vs| + 1 && i < |cs|
    ensures EnumerateSlots(cs, vs, false)
         == SlotsBefore(cs, vs, i) + InOrder(cs[i]) + SlotsAfter(cs, vs, i)
  {
    if i == 0 {
      calc {
        EnumerateSlots(cs, vs, false);
        { assert cs[i..] == cs && vs[i..] == vs; }
        EnumerateSlots(cs[i..], vs[i..], false);
        { SlotsFromChild(cs, vs, i); }
        InOrder(cs[i]) + SlotsAfter(cs, vs, i);
      }
    } else {
      var before := EnumerateSlots(cs[..i], vs[..i - 1], false);
      calc {
        EnumerateSlots(cs, vs, false);
        { SlotsCut(cs, vs, i); }
        before + [vs[i - 1]] + EnumerateSlots(cs[i..], vs[i..], false);
        { SlotsFromChild(cs, vs, i); }
        (before + [vs[i - 1]]) + (InOrder(cs[i]) + SlotsAfter(cs, vs, i));
      }
    }
  }

  /** `SlotsConcat` at the value just left of child `k`. */
  lemma SlotsCut(cs: seq<Node>, vs: seq<int>, k: nat)
    requires 0 < k <= |vs| && |cs| == |vs| + 1
    ensures EnumerateSlots(cs, vs, false)
         == EnumerateSlots(cs[..k], vs[..k - 1], false) + [vs[k - 1]] + EnumerateSlots(cs[k..], vs[k..], false)
  {
    calc {
      EnumerateSlots(cs, vs, false);
      { assert cs[..k] + cs[k..] == cs;
        assert vs[..k - 1] + [vs[k - 1]] + vs[k..] == vs; }
      EnumerateSlots(cs[..k] + cs[k..], vs[..k - 1] + [vs[k - 1]] + vs[k..], false);
      { SlotsConcat(cs[..k], vs[..k - 1], vs[k - 1], cs[k..], vs[k..]); }
      EnumerateSlots(cs[..k], vs[..k - 1], false) + [vs[k - 1]] + EnumerateSlots(cs[k..], vs[k..], false);
    }
  }

  /** The enumeration of the slots from child `i` on. */
  lemma SlotsFromChild(cs: seq<Node>, vs: seq<int>, i: nat)
    requires |cs| == |vs| + 1 && i < |cs|
    ensures EnumerateSlots(cs[i..], vs[i..], false) == InOrder(cs[i]) + SlotsAfter(cs, vs, i)
  {
  }

  /** Replacing child `i` only changes the middle part of the enumeration. */
  lemma ReplaceChildEnumeration(cs: seq<Node>, vs: seq<int>, i: nat, c: Node)
    requires |cs| == |vs| + 1 && i < |cs|
    ensures EnumerateSlots(cs[i := c], vs, false)
         == SlotsBefore(cs, vs, i) + InOrder(c) + SlotsAfter(cs, vs, i)
  {
    var cs' := cs[i := c];
    SlotsAround(cs', vs, i);
    assert cs'[..i] == cs[..i];
    assert cs'[i + 1..] == cs[i + 1..];
  }

  /**
    Child `i` replaced by `left`, and `middle` with its right sibling `right`
    placed just after it: the enumeration shows left, middle, right where the
    old child's elements were.
   */
  lemma AbsorbSplitEnumeration(cs: seq<Node>, vs: seq<int>, i: nat, left: Node, middle: int, right: Node)
    requires |cs| == |vs| + 1 && i <= |vs|
    ensures EnumerateSlots(InsertAt(cs[i := left], i + 1, right), InsertAt(vs, i, middle), false)
         == SlotsBefore(cs, vs, i) + InOrder(left) + [middle] + InOrder(right) + SlotsAfter(cs, vs, i)
  {
    var mc := InsertAt(cs[i := left], i + 1, right);
    var mv := InsertAt(vs, i, middle);
    SlotsAround(mc, mv, i);
    assert mc[..i] == cs[..i];
    assert mv[..i] == vs[..i];
    if i > 0 {
      assert mv[..i - 1] == vs[..i - 1];
    }
    assert SlotsBefore(mc, mv, i) == SlotsBefore(cs, vs, i);
    SlotsFromChild(mc, mv, i + 1);
    if i < |vs| {
      assert mc[i + 2..] == cs[i + 1..];
      assert mv[i + 2..] == vs[i + 1..];
    }
    assert SlotsAfter(mc, mv, i + 1) == SlotsAfter(cs, vs, i);
    calc {
      EnumerateSlots(mc, mv, false);
      SlotsBefore(cs, vs, i) + InOrder(left) + ([middle] + EnumerateSlots(mc[i + 1..], mv[i + 1..], false));
      SlotsBefore(cs, vs, i) + InOrder(left) + ([middle] + (InOrder(right) + SlotsAfter(cs, vs, i)));
    }
  }

  /**
    The two traversals agree on a subtree with no empty node; the source's
    early return only matters where a node has lost all its values.
   */
  lemma {:induction false} AsWrittenAgrees(n: Node)
    requires NoEmptyNode(n)
    ensures Enumerate(n, true) == InOrder(n)
    decreases n, 1
  {
    if !IsLeaf(n) {
      SlotsAgree(n.children, n.values);
    }
  }

  /** `AsWrittenAgrees`, for every child of a slot list. */
  lemma {:induction false} SlotsAgree(cs: seq<Node>, vs: seq<int>)
    requires forall c :: c in cs ==> NoEmptyNode(c)
    ensures EnumerateSlots(cs, vs, true) == EnumerateSlots(cs, vs, false)
    decreases cs, 0
  {
    if |cs| > 0 {
      assert cs[0] in cs;
      AsWrittenAgrees(cs[0]);
      if |vs| > 0 {
        assert forall c :: c in cs[1..] ==> c in cs;
        SlotsAgree(cs[1..], vs[1..]);
      }
    }
  }
}
