/**
 * The pure part of PriorityQueue (PriorityHeap.py): index arithmetic over a
 * 0-indexed array of a given length, the smaller-child selector, and the
 * heap property. SiftUp and SiftDown are the tail-recursive percolate_up and
 * percolate_down as functions on the array's contents; the class methods that
 * run them as loops are proved equal to them.
 */
module Heaps {
  import opened Wrappers
  import opened Nodes

  // ---------------------------------------------------------------- indices

  /**
   * prepare_index: a negative index counts from the end, as Python's list
   * indexing does; anything outside the array afterwards is rejected.
   */
  function PrepareIndex(len: nat, index: int): (r: Option<nat>)
    ensures r.Some? <==> -(len as int) <= index < len
    ensures r.Some? ==> r.value < len && (r.value == index || r.value == index + len)
  {
    var i := if index < 0 then index + len else index;
    if 0 <= i < len then Some(i) else None
  }

  /** get_left_child_index */
  function LeftChildIndex(len: nat, index: int): (r: Option<nat>)
    ensures r.Some? <==> PrepareIndex(len, index).Some? && 2 * PrepareIndex(len, index).value + 1 < len
    ensures r.Some? ==> r.value < len && r.value == 2 * PrepareIndex(len, index).value + 1
  {
    match PrepareIndex(len, index)
    case None => None
    case Some(i) => if 2 * i + 1 < len then Some(2 * i + 1) else None
  }

  /** get_right_child_index */
  function RightChildIndex(len: nat, index: int): (r: Option<nat>)
    ensures r.Some? <==> PrepareIndex(len, index).Some? && 2 * PrepareIndex(len, index).value + 2 < len
    ensures r.Some? ==> r.value < len && r.value == 2 * PrepareIndex(len, index).value + 2
  {
    match PrepareIndex(len, index)
    case None => None
    case Some(i) => if 2 * i + 2 < len then Some(2 * i + 2) else None
  }

  /**
   * get_parent_index: the root and invalid indices have no parent. The
   * source's floor division agrees with Dafny's here, as index - 1 >= 0.
   */
  function ParentIndex(len: nat, index: int): (r: Option<nat>)
    ensures r.Some? <==> PrepareIndex(len, index).Some? && PrepareIndex(len, index).value > 0
    ensures r.Some? ==> r.value < PrepareIndex(len, index).value
    ensures r.Some? ==> r.value == (PrepareIndex(len, index).value - 1) / 2
  {
    match PrepareIndex(len, index)
    case None => None
    case Some(i) => if i == 0 then None else Some((i - 1) / 2)
  }

  /** A child's parent is the node it is a child of. */
  lemma ParentOfChild(len: nat, i: nat)
    requires i < len
    ensures LeftChildIndex(len, i).Some? ==> ParentIndex(len, LeftChildIndex(len, i).value) == Some(i)
    ensures RightChildIndex(len, i).Some? ==> ParentIndex(len, RightChildIndex(len, i).value) == Some(i)
  {
  }

  /** Every node but the root is the left or the right child of its parent. */
  lemma ChildOfParent(len: nat, j: nat)
    requires 0 < j < len
    ensures ParentIndex(len, j).Some?
    ensures LeftChildIndex(len, ParentIndex(len, j).value) == Some(j)
         || RightChildIndex(len, ParentIndex(len, j).value) == Some(j)
  {
  }

  // ------------------------------------------------------------- contents

  /** _swap, on the contents. */
  function Swapped(s: seq<Node>, i: nat, j: nat): (r: seq<Node>)
    requires i < |s| && j < |s|
    ensures |r| == |s| && r[i] == s[j] && r[j] == s[i]
    ensures multiset(r) == multiset(s)
  {
    s[i := s[j]][j := s[i]]
  }

  /**
   * get_min_child_index: the index of the smaller existing child (ties go to
   * the left child), or None when there is no left child.
   */
  function MinChildIndex(s: seq<Node>, index: int): (r: Option<nat>)
    ensures r.None? <==> LeftChildIndex(|s|, index).None?
    ensures r.Some? ==> r == LeftChildIndex(|s|, index) || r == RightChildIndex(|s|, index)
    ensures r.Some? ==> PrepareIndex(|s|, index).Some? && PrepareIndex(|s|, index).value < r.value < |s|
    ensures r.Some? ==> LessEq(s[r.value], s[LeftChildIndex(|s|, index).value])
    ensures r.Some? && RightChildIndex(|s|, index).Some? ==>
      LessEq(s[r.value], s[RightChildIndex(|s|, index).value])
    ensures r.Some? && RightChildIndex(|s|, index).Some? ==>
      (r == RightChildIndex(|s|, index) <==>
       Less(s[RightChildIndex(|s|, index).value], s[LeftChildIndex(|s|, index).value]))
  {
    match LeftChildIndex(|s|, index)
    case None => None
    case Some(left) =>
      match RightChildIndex(|s|, index)
      case None => Some(left)
      case Some(right) =>
        LessEqTotal(s[left], s[right]);
        LessStrictTotal(s[left], s[right], s[left]);
        if Less(s[right], s[left]) then Some(right) else Some(left)
  }

  // --------------------------------------------------------- heap property

  /** Node j is no smaller than its parent. */
  predicate OrderedAt(s: seq<Node>, j: nat)
    requires 0 < j < |s|
  {
    LessEq(s[(j - 1) / 2], s[j])
  }

  /** Every node but the root is no smaller than its parent. */
  predicate HeapOrdered(s: seq<Node>): (r: bool)
    ensures |s| <= 1 ==> r
  {
    forall j :: 0 < j < |s| ==> OrderedAt(s, j)
  }

  /**
   * The heap property stated over children: each node is no larger than
   * each of its existing children.
   */
  lemma HeapOrderedByChildren(s: seq<Node>)
    ensures HeapOrdered(s) <==>
      forall i :: 0 <= i < |s| ==>
        (2 * i + 1 < |s| ==> LessEq(s[i], s[2 * i + 1])) &&
        (2 * i + 2 < |s| ==> LessEq(s[i], s[2 * i + 2]))
  {
    if HeapOrdered(s) {
      forall i | 0 <= i < |s|
        ensures 2 * i + 1 < |s| ==> LessEq(s[i], s[2 * i + 1])
        ensures 2 * i + 2 < |s| ==> LessEq(s[i], s[2 * i + 2])
      {
        assert (2 * i + 1 - 1) / 2 == i && (2 * i + 2 - 1) / 2 == i;
        if 2 * i + 1 < |s| { assert OrderedAt(s, 2 * i + 1); }
        if 2 * i + 2 < |s| { assert OrderedAt(s, 2 * i + 2); }
      }
    }
    if forall i :: 0 <= i < |s| ==>
        (2 * i + 1 < |s| ==> LessEq(s[i], s[2 * i + 1])) &&
        (2 * i + 2 < |s| ==> LessEq(s[i], s[2 * i + 2]))
    {
      forall j | 0 < j < |s| ensures OrderedAt(s, j) {
        var p := (j - 1) / 2;
        assert j == 2 * p + 1 || j == 2 * p + 2;
      }
    }
  }

  /** With the heap property the root is no larger than any node. */
  lemma {:induction false} RootIsMinimum(s: seq<Node>, j: nat)
    requires HeapOrdered(s) && j < |s|
    ensures LessEq(s[0], s[j])
    decreases j
  {
    if j > 0 {
      var p := (j - 1) / 2;
      assert OrderedAt(s, j);
      RootIsMinimum(s, p);
      LessEqTransitive(s[0], s[p], s[j]);
    }
  }

  lemma RootIsMinimumOfAll(s: seq<Node>)
    requires HeapOrdered(s) && |s| > 0
    ensures forall n | n in s :: LessEq(s[0], n)
  {
    forall n | n in s ensures LessEq(s[0], n) {
      var j :| 0 <= j < |s| && s[j] == n;
      RootIsMinimum(s, j);
    }
  }

  /**
   * The heap property may fail only between k and its parent, and k's
   * children are no smaller than k's parent: what holds at each step of
   * sift-up.
   */
  predicate OrderedExceptUp(s: seq<Node>, k: nat) {
    (forall j :: 0 < j < |s| && j != k ==> OrderedAt(s, j)) &&
    (0 < k < |s| ==> forall j :: 0 < j < |s| && (j - 1) / 2 == k ==> LessEq(s[(k - 1) / 2], s[j]))
  }

  /**
   * The heap property may fail only between k and its children, and k's
   * children are no smaller than k's parent: what holds at each step of
   * sift-down.
   */
  predicate OrderedExceptDown(s: seq<Node>, k: nat) {
    (forall j :: 0 < j < |s| && (j - 1) / 2 != k ==> OrderedAt(s, j)) &&
    (0 < k < |s| ==> forall j :: 0 < j < |s| && (j - 1) / 2 == k ==> LessEq(s[(k - 1) / 2], s[j]))
  }

  // ---------------------------------------------------------------- sift-up

  /**
   * percolate_up: while the node at index has a parent that is greater,
   * swap the two and continue from the parent's position.
   */
  function SiftUp(s: seq<Node>, index: int): (r: seq<Node>)
    ensures |r| == |s| && multiset(r) == multiset(s)
    decreases if PrepareIndex(|s|, index).Some? then PrepareIndex(|s|, index).value else 0
  {
    match ParentIndex(|s|, index)
    case None => s
    case Some(parent) =>
      var i := PrepareIndex(|s|, index).value;
      if Greater(s[parent], s[i]) then SiftUp(Swapped(s, parent, i), parent) else s
  }

  /** Appending a node to a heap leaves at most the new leaf out of order. */
  lemma AppendOrderedExceptUp(s: seq<Node>, x: Node)
    requires HeapOrdered(s)
    ensures OrderedExceptUp(s + [x], |s|)
  {
    var t := s + [x];
    forall j | 0 < j < |t| && j != |s| ensures OrderedAt(t, j) {
      assert OrderedAt(s, j);
      assert t[j] == s[j] && t[(j - 1) / 2] == s[(j - 1) / 2];
    }
  }

  /** One swap of sift-up moves the possible violation to the parent. */
  lemma UpStep(s: seq<Node>, k: nat)
    requires 0 < k < |s| && OrderedExceptUp(s, k)
    requires Less(s[k], s[(k - 1) / 2])
    ensures OrderedExceptUp(Swapped(s, (k - 1) / 2, k), (k - 1) / 2)
  {
    var p := (k - 1) / 2;
    var t := Swapped(s, p, k);
    forall j | 0 < j < |t| && j != p ensures OrderedAt(t, j) {
      var q := (j - 1) / 2;
      if j == k {
      } else if q == k {
        assert t[q] == s[p] && t[j] == s[j];
      } else if q == p {
        assert OrderedAt(s, j);
        assert t[q] == s[k] && t[j] == s[j];
        LessEqTransitive(s[k], s[p], s[j]);
      } else {
        assert OrderedAt(s, j);
        assert t[q] == s[q] && t[j] == s[j];
      }
    }
    if 0 < p {
      var g := (p - 1) / 2;
      assert OrderedAt(s, p);
      assert t[g] == s[g];
      forall j | 0 < j < |t| && (j - 1) / 2 == p ensures LessEq(t[g], t[j]) {
        if j == k {
          assert t[j] == s[p];
        } else {
          assert OrderedAt(s, j);
          assert t[j] == s[j];
          LessEqTransitive(s[g], s[p], s[j]);
        }
      }
    }
  }

  /** Sift-up restores the heap property when only the start can be out of order. */
  lemma {:induction false} SiftUpOrders(s: seq<Node>, k: nat)
    requires k < |s| && OrderedExceptUp(s, k)
    ensures HeapOrdered(SiftUp(s, k))
    decreases k
  {
    match ParentIndex(|s|, k)
    case None =>
      assert k == 0;
    case Some(parent) =>
      assert parent == (k - 1) / 2;
      NotGreaterIsLessEq(s[parent], s[k]);
      if Greater(s[parent], s[k]) {
        GreaterIsConverse(s[parent], s[k]);
        UpStep(s, k);
        SiftUpOrders(Swapped(s, parent, k), parent);
      }
  }

  // -------------------------------------------------------------- sift-down

  /**
   * percolate_down: while the node at index is greater than its smaller
   * child, swap the two and continue from the child's position.
   */
  function SiftDown(s: seq<Node>, index: int): (r: seq<Node>)
    ensures |r| == |s| && multiset(r) == multiset(s)
    decreases if PrepareIndex(|s|, index).Some? then |s| - PrepareIndex(|s|, index).value else 0
  {
    match MinChildIndex(s, index)
    case None => s
    case Some(child) =>
      var i := PrepareIndex(|s|, index).value;
      if Greater(s[i], s[child]) then SiftDown(Swapped(s, i, child), child) else s
  }

  /** pop's first steps on the contents: swap the root with the last node and drop the last slot. */
  function DropRoot(s: seq<Node>): (r: seq<Node>)
    requires |s| > 0
    ensures |r| == |s| - 1
    ensures multiset(r) == multiset(s) - multiset{s[0]}
  {
    var t := Swapped(s, 0, |s| - 1);
    assert t == t[..|s| - 1] + [t[|s| - 1]];
    t[..|s| - 1]
  }

  /** Removing the root that way leaves at most the new root out of order. */
  lemma DropRootOrderedExceptDown(s: seq<Node>)
    requires HeapOrdered(s) && |s| > 0
    ensures OrderedExceptDown(DropRoot(s), 0)
  {
    var t := DropRoot(s);
    forall j | 0 < j < |t| && (j - 1) / 2 != 0 ensures OrderedAt(t, j) {
      assert OrderedAt(s, j);
      assert t[j] == s[j] && t[(j - 1) / 2] == s[(j - 1) / 2];
    }
  }

  /** The child get_min_child_index picks is no larger than any child of k. */
  lemma MinChildIsLeast(s: seq<Node>, k: nat, j: nat)
    requires 0 < j < |s| && (j - 1) / 2 == k && MinChildIndex(s, k).Some?
    ensures LessEq(s[MinChildIndex(s, k).value], s[j])
  {
    ChildOfParent(|s|, j);
  }

  /** One swap of sift-down moves the possible violation to the child. */
  lemma DownStep(s: seq<Node>, k: nat, c: nat)
    requires k < |s| && OrderedExceptDown(s, k)
    requires MinChildIndex(s, k) == Some(c)
    requires Less(s[c], s[k])
    ensures OrderedExceptDown(Swapped(s, k, c), c)
  {
    var t := Swapped(s, k, c);
    assert (c - 1) / 2 == k;
    forall j | 0 < j < |t| && (j - 1) / 2 != c ensures OrderedAt(t, j) {
      var q := (j - 1) / 2;
      if j == c {
      } else if q == k {
        MinChildIsLeast(s, k, j);
        assert t[q] == s[c] && t[j] == s[j];
      } else if j == k {
        assert t[q] == s[q] && t[j] == s[c];
      } else {
        assert OrderedAt(s, j);
        assert t[q] == s[q] && t[j] == s[j];
      }
    }
    forall j | 0 < j < |t| && (j - 1) / 2 == c ensures LessEq(t[(c - 1) / 2], t[j]) {
      assert OrderedAt(s, j);
      assert t[(c - 1) / 2] == s[c] && t[j] == s[j];
    }
  }

  /** Sift-down restores the heap property when only the start can be out of order. */
  lemma {:induction false} SiftDownOrders(s: seq<Node>, k: nat)
    requires k < |s| && OrderedExceptDown(s, k)
    ensures HeapOrdered(SiftDown(s, k))
    decreases |s| - k
  {
    match MinChildIndex(s, k)
    case None =>
      forall j | 0 < j < |s| ensures OrderedAt(s, j) {
        assert (j - 1) / 2 != k;
      }
    case Some(c) =>
      NotGreaterIsLessEq(s[k], s[c]);
      if Greater(s[k], s[c]) {
        GreaterIsConverse(s[k], s[c]);
        DownStep(s, k, c);
        SiftDownOrders(Swapped(s, k, c), c);
      } else {
        forall j | 0 < j < |s| ensures OrderedAt(s, j) {
          if (j - 1) / 2 == k {
            MinChildIsLeast(s, k, j);
            LessEqTransitive(s[k], s[c], s[j]);
          } else {
            assert OrderedAt(s, j);
          }
        }
      }
  }
}
