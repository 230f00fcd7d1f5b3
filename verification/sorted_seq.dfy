/**
  Sequences of elements ordered by `<=`, and the slot search that the B-Tree
  descent performs in every node it visits.
 */
module SortedSeq {

  /** Non-decreasing order (duplicates allowed). */
  predicate Sorted(s: seq<int>) {
    forall i, j :: 0 <= i < j < |s| ==> s[i] <= s[j]
  }

  /** Every entry of `s` is at most `x`. */
  predicate AllAtMost(s: seq<int>, x: int) {
    forall j :: 0 <= j < |s| ==> s[j] <= x
  }

  /**
    The slot a new element `x` goes to: the number of LEADING entries of `s`
    that are `<= x`.  The scan stops at the first entry greater than `x`, so an
    element equal to existing ones is placed after them.
   */
  function SlotIndex(s: seq<int>, x: int): (k: nat)
    ensures k <= |s|
    ensures forall j :: 0 <= j < k ==> s[j] <= x
    ensures k < |s| ==> x < s[k]
  {
    if |s| == 0 || x < s[0] then 0 else 1 + SlotIndex(s[1..], x)
  }

  /** `s` with `x` placed at position `k`; everything from `k` on moves one to the right. */
  function InsertAt<T>(s: seq<T>, k: nat, x: T): (r: seq<T>)
    requires k <= |s|
    ensures |r| == |s| + 1
    ensures forall j :: 0 <= j < k ==> r[j] == s[j]
    ensures r[k] == x
    ensures forall j :: k < j < |r| ==> r[j] == s[j - 1]
  {
    s[..k] + [x] + s[k..]
  }

  /** Stable sorted insertion: `x` goes right after every entry that is `<= x`. */
  function InsertSorted(s: seq<int>, x: int): seq<int> {
    InsertAt(s, SlotIndex(s, x), x)
  }

  /** Insertion never loses or invents an element: a permutation of `s` plus `x`. */
  lemma InsertAtMultiset<T>(s: seq<T>, k: nat, x: T)
    requires k <= |s|
    ensures multiset(InsertAt(s, k, x)) == multiset(s) + multiset{x}
  {
    assert s == s[..k] + s[k..];
  }

  /**
    On a sorted sequence the slot index counts exactly the entries that are
    `<= x`: an entry is before the slot if and only if it is not greater than
    `x`.  In particular entries equal to `x` all stay in front of it.
   */
  lemma SlotIndexSplitsByValue(s: seq<int>, x: int)
    requires Sorted(s)
    ensures forall j :: 0 <= j < |s| ==> (s[j] <= x <==> j < SlotIndex(s, x))
  {
  }

  /** Sorted insertion keeps a sorted sequence sorted. */
  lemma InsertSortedKeepsSorted(s: seq<int>, x: int)
    requires Sorted(s)
    ensures Sorted(InsertSorted(s, x))
  {
  }

  /** Every entry of `InsertAt(s, k, x)` is `x` or an entry of `s`. */
  lemma InsertAtMembers<T>(s: seq<T>, k: nat, x: T)
    requires k <= |s|
    ensures forall y :: y in InsertAt(s, k, x) ==> y in s || y == x
  {
  }

  /** Every entry of a prefix or suffix is an entry of the whole sequence. */
  lemma PartsMembers<T>(s: seq<T>, k: nat)
    requires k <= |s|
    ensures forall y :: y in s[..k] ==> y in s
    ensures forall y :: y in s[k..] ==> y in s
  {
  }

  /** Sorted insertion adds exactly one occurrence of `x` and nothing else. */
  lemma InsertSortedMultiset(s: seq<int>, x: int)
    ensures multiset(InsertSorted(s, x)) == multiset(s) + multiset{x}
    ensures |InsertSorted(s, x)| == |s| + 1
  {
    InsertAtMultiset(s, SlotIndex(s, x), x);
  }

  /**
    When the part of a sequence in front of `b` is `<= x` and the part after it
    starts above `x`, the slot for `x` falls inside `b`.
   */
  lemma {:induction false} SlotIndexInMiddle(a: seq<int>, b: seq<int>, c: seq<int>, x: int)
    requires AllAtMost(a, x)
    requires |c| == 0 || x < c[0]
    ensures SlotIndex(a + b + c, x) == |a| + SlotIndex(b, x)
    decreases |a|
  {
    if |a| == 0 {
      assert a + b + c == b + c;
      SlotIndexBeforeSuffix(b, c, x);
    } else {
      assert (a + b + c)[0] == a[0];
      assert (a + b + c)[1..] == a[1..] + b + c;
      SlotIndexInMiddle(a[1..], b, c, x);
    }
  }

  /** The slot for `x` in `b + c`, when `c` starts above `x`, is its slot in `b`. */
  lemma {:induction false} SlotIndexBeforeSuffix(b: seq<int>, c: seq<int>, x: int)
    requires |c| == 0 || x < c[0]
    ensures SlotIndex(b + c, x) == SlotIndex(b, x)
    decreases |b|
  {
    if |b| == 0 {
      assert b + c == c;
    } else {
      assert (b + c)[0] == b[0];
      assert (b + c)[1..] == b[1..] + c;
      if b[0] <= x {
        SlotIndexBeforeSuffix(b[1..], c, x);
      }
    }
  }

  /**
    Sorted insertion into `a + b + c` only touches `b` when `a` is `<= x` and
    `c` starts above `x`: this is what lets a B-Tree insert into one subtree.
   */
  lemma InsertSortedInMiddle(a: seq<int>, b: seq<int>, c: seq<int>, x: int)
    requires AllAtMost(a, x)
    requires |c| == 0 || x < c[0]
    ensures InsertSorted(a + b + c, x) == a + InsertSorted(b, x) + c
  {
    SlotIndexInMiddle(a, b, c, x);
    var k := SlotIndex(b, x);
    ConcatCut(a, b, c, k);
    calc {
      InsertSorted(a + b + c, x);
      InsertAt(a + b + c, |a| + k, x);
      (a + b[..k]) + [x] + (b[k..] + c);
      { ConcatRegroup(a, b[..k], [x], b[k..], c); }
      a + (b[..k] + [x] + b[k..]) + c;
    }
  }

  /** Cutting `a + b + c` at position `k` of `b`. */
  lemma ConcatCut<T>(a: seq<T>, b: seq<T>, c: seq<T>, k: nat)
    requires k <= |b|
    ensures (a + b + c)[..|a| + k] == a + b[..k]
    ensures (a + b + c)[|a| + k..] == b[k..] + c
  {
    assert b == b[..k] + b[k..];
    assert a + b + c == (a + b[..k]) + (b[k..] + c);
  }

  /** Regrouping a concatenation of five pieces. */
  lemma ConcatRegroup<T>(a: seq<T>, p: seq<T>, q: seq<T>, r: seq<T>, c: seq<T>)
    ensures (a + p) + q + (r + c) == a + (p + q + r) + c
  {
  }

  /** In a sorted sequence whose last entry is `<= x`, every entry is `<= x`. */
  lemma SortedBelowLast(s: seq<int>, x: int)
    requires Sorted(s)
    requires |s| > 0 && s[|s| - 1] <= x
    ensures AllAtMost(s, x)
  {
  }

  /** Pieces of a sorted sequence are sorted. */
  lemma SortedParts(a: seq<int>, b: seq<int>, c: seq<int>)
    requires Sorted(a + b + c)
    ensures Sorted(a) && Sorted(b) && Sorted(c)
  {
    var s := a + b + c;
    assert forall i :: 0 <= i < |a| ==> a[i] == s[i];
    assert forall i :: 0 <= i < |b| ==> b[i] == s[|a| + i];
    assert forall i :: 0 <= i < |c| ==> c[i] == s[|a| + |b| + i];
  }
}
