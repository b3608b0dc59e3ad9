/**
 * PriorityQueue (PriorityHeap.py): a binary min-heap of Nodes kept in the
 * list `data`, which its methods update in place.
 */
module PriorityQueues {
  import opened Wrappers
  import opened Nodes
  import opened Heaps

  class PriorityQueue {
    var data: seq<Node>

    /** The object invariant: every parent is no larger than its children. */
    ghost predicate Valid()
      reads this
    {
      HeapOrdered(data)
    }

    constructor ()
      ensures Valid() && data == []
    {
      data := [];
    }

    /** __len__: the number of stored nodes. */
    function Len(): (n: nat)
      reads this
      ensures n == |multiset(data)|
    {
      |data|
    }

    /** empty */
    function Empty(): (e: bool)
      reads this
      ensures e <==> multiset(data) == multiset{}
    {
      Len() == 0
    }

    /** top: the smallest stored node, without removing it; None when empty. */
    function Top(): (r: Option<Node>)
      reads this
      requires Valid()
      ensures r.None? <==> multiset(data) == multiset{}
      ensures r.Some? ==> |data| > 0 && r.value == data[0]
      ensures r.Some? ==> forall n | n in data :: LessEq(r.value, n)
    {
      if Empty() then None
      else
        RootIsMinimumOfAll(data);
        Some(data[0])
    }

    /** _swap. The source's one negative argument, _swap(0, -1), is passed here as Len() - 1. */
    method Swap(i: nat, j: nat)
      requires i < |data| && j < |data|
      modifies this
      ensures data == Swapped(old(data), i, j)
    {
      var temp := data[i];
      data := data[i := data[j]];
      data := data[j := temp];
    }

    /** percolate_up, its tail call turned into a loop. */
    method PercolateUp(index: int)
      modifies this
      ensures data == SiftUp(old(data), index)
    {
      var i := index;
      while true
        invariant |data| == |old(data)|
        invariant SiftUp(data, i) == SiftUp(old(data), index)
        decreases if PrepareIndex(|data|, i).Some? then PrepareIndex(|data|, i).value else 0
      {
        var parent := ParentIndex(|data|, i);
        if parent.None? {
          return;
        }
        var current := PrepareIndex(|data|, i).value;
        if !Greater(data[parent.value], data[current]) {
          return;
        }
        Swap(parent.value, current);
        i := parent.value;
      }
    }

    /** percolate_down, its tail call turned into a loop. */
    method PercolateDown(index: int)
      modifies this
      ensures data == SiftDown(old(data), index)
    {
      var i := index;
      while true
        invariant |data| == |old(data)|
        invariant SiftDown(data, i) == SiftDown(old(data), index)
        decreases if PrepareIndex(|data|, i).Some? then |data| - PrepareIndex(|data|, i).value else 0
      {
        var child := MinChildIndex(data, i);
        if child.None? {
          return;
        }
        var current := PrepareIndex(|data|, i).value;
        if !Greater(data[current], data[child.value]) {
          return;
        }
        Swap(current, child.value);
        i := child.value;
      }
    }

    /** push: append Node(key, val) and sift it up. */
    method Push(key: int, val: Value)
      requires Valid()
      modifies this
      ensures Valid()
      ensures data == SiftUp(old(data) + [Node(key, val)], |old(data)|)
      ensures multiset(data) == multiset(old(data)) + multiset{Node(key, val)}
      ensures |data| == |old(data)| + 1
    {
      var node := Node(key, val);
      data := data + [node];
      PercolateUp(Len() - 1);
      AppendOrderedExceptUp(old(data), node);
      SiftUpOrders(old(data) + [node], |old(data)|);
    }

    /**
     * pop: None on an empty queue; otherwise swap the root with the last
     * node, remove the last slot, sift the new root down and return the old
     * root, which is no larger than any node the queue held.
     */
    method Pop() returns (r: Option<Node>)
      requires Valid()
      modifies this
      ensures Valid()
      ensures old(|data|) == 0 ==> r.None? && data == old(data)
      ensures old(|data|) > 0 ==> r == Some(old(data)[0]) && data == SiftDown(DropRoot(old(data)), 0)
      ensures r.Some? ==> forall n | n in old(data) :: LessEq(r.value, n)
      ensures r.Some? ==> multiset(data) == multiset(old(data)) - multiset{r.value}
      ensures r.Some? ==> |data| == |old(data)| - 1
    {
      if Empty() {
        return None;
      }
      Swap(0, Len() - 1);
      var out := data[Len() - 1];
      data := data[..Len() - 1];
      assert data == DropRoot(old(data));
      PercolateDown(0);
      r := Some(out);
      RootIsMinimumOfAll(old(data));
      if |data| > 0 {
        DropRootOrderedExceptDown(old(data));
        SiftDownOrders(DropRoot(old(data)), 0);
      }
    }
  }
}
