/**
 * MaxHeap (PriorityHeap.py): a max-heap of integers kept in a PriorityQueue
 * by storing each k as Node(-k, k); reads return the stored value, never the
 * negated key.
 */
module MaxHeaps {
  import opened Wrappers
  import opened Nodes
  import opened PriorityQueues

  /** How MaxHeap.push stores k. */
  function Stored(k: int): (n: Node)
    ensures n.value == Int(k) && n.key == -k
  {
    Node(-k, Int(k))
  }

  /** Stored nodes are ordered opposite to the integers they hold. */
  lemma StoredOrder(a: int, b: int)
    ensures LessEq(Stored(a), Stored(b)) <==> b <= a
  {
  }

  /** Every node has the form MaxHeap.push gives it. */
  predicate AllStored(s: seq<Node>) {
    forall n | n in s :: n.value.Int? && n == Stored(n.value.i)
  }

  /** The nodes m hold exactly the integers c, each as often. */
  ghost predicate Represents(m: multiset<Node>, c: multiset<int>) {
    forall v {:trigger Stored(v)} :: m[Stored(v)] == c[v]
  }

  lemma RepresentsAdd(m: multiset<Node>, c: multiset<int>, k: int)
    requires Represents(m, c)
    ensures Represents(m + multiset{Stored(k)}, c + multiset{k})
  {
    forall v ensures (m + multiset{Stored(k)})[Stored(v)] == (c + multiset{k})[v] {
      assert m[Stored(v)] == c[v];
    }
  }

  lemma RepresentsRemove(m: multiset<Node>, c: multiset<int>, k: int)
    requires Represents(m, c)
    ensures Represents(m - multiset{Stored(k)}, c - multiset{k})
  {
    forall v ensures (m - multiset{Stored(k)})[Stored(v)] == (c - multiset{k})[v] {
      assert m[Stored(v)] == c[v];
    }
  }

  /** What a queue holds is held by any queue with no other nodes. */
  lemma AllStoredSubset(s: seq<Node>, t: seq<Node>)
    requires AllStored(s) && multiset(t) <= multiset(s)
    ensures AllStored(t)
  {
    forall n | n in t ensures n.value.Int? && n == Stored(n.value.i) {
      assert n in multiset(t);
      assert n in s;
    }
  }

  /** A node of the queue holds one of the integers held, and no larger one is held. */
  lemma StoredMaximum(s: seq<Node>, c: multiset<int>, x: Node)
    requires AllStored(s) && Represents(multiset(s), c)
    requires x in s && forall n | n in s :: LessEq(x, n)
    ensures x.value.Int? && x == Stored(x.value.i) && x.value.i in c
    ensures forall v | v in c :: v <= x.value.i
  {
    assert multiset(s)[Stored(x.value.i)] > 0;
    forall v | v in c ensures v <= x.value.i {
      assert multiset(s)[Stored(v)] > 0;
      assert Stored(v) in s;
      StoredOrder(x.value.i, v);
    }
  }

  /**
   * What pop needs from the queue's pop: the smallest node removed holds the
   * largest integer, and the rest still represent the integers without it.
   */
  lemma PopStored(before: seq<Node>, after: seq<Node>, c: multiset<int>, x: Node)
    requires AllStored(before) && Represents(multiset(before), c) && |c| == |before|
    requires x in before && forall n | n in before :: LessEq(x, n)
    requires multiset(after) == multiset(before) - multiset{x}
    ensures x.value.Int? && x == Stored(x.value.i) && x.value.i in c
    ensures forall v | v in c :: v <= x.value.i
    ensures AllStored(after) && Represents(multiset(after), c - multiset{x.value.i})
    ensures |c - multiset{x.value.i}| == |after|
  {
    StoredMaximum(before, c, x);
    RepresentsRemove(multiset(before), c, x.value.i);
    AllStoredSubset(before, after);
  }

  class MaxHeap {
    /** The inner queue (the source's field `data`). */
    var queue: PriorityQueue
    /** The integers held, as a multiset. */
    ghost var Contents: multiset<int>

    ghost predicate Valid()
      reads this, queue
    {
      && queue.Valid()
      && AllStored(queue.data)
      && Represents(multiset(queue.data), Contents)
      && |Contents| == |queue.data|
    }

    constructor ()
      ensures Valid() && fresh(queue) && Contents == multiset{}
    {
      queue := new PriorityQueue();
      Contents := multiset{};
    }

    /** __len__ */
    function Len(): (n: nat)
      reads this, queue
      requires Valid()
      ensures n == |Contents|
    {
      queue.Len()
    }

    /** empty */
    function Empty(): (e: bool)
      reads this, queue
      requires Valid()
      ensures e <==> Contents == multiset{}
    {
      Len() == 0
    }

    /** top: the largest integer held, or None when empty. */
    function Top(): (r: Option<int>)
      reads this, queue
      requires Valid()
      ensures r.None? <==> Contents == multiset{}
      ensures r.Some? ==> r.value in Contents && forall v | v in Contents :: v <= r.value
    {
      if Empty() then None
      else
        var n := queue.Top().value;
        StoredMaximum(queue.data, Contents, n);
        Some(n.value.i)
    }

    /** push: store k as Node(-k, k). */
    method Push(key: int)
      requires Valid()
      modifies this, queue
      ensures Valid() && queue == old(queue)
      ensures Contents == old(Contents) + multiset{key}
      ensures multiset(queue.data) == old(multiset(queue.data)) + multiset{Node(-key, Int(key))}
    {
      ghost var before := queue.data;
      queue.Push(-key, Int(key));
      Contents := Contents + multiset{key};
      RepresentsAdd(multiset(before), old(Contents), key);
      forall n | n in queue.data ensures n.value.Int? && n == Stored(n.value.i) {
        assert n in multiset(queue.data);
        assert n in before || n == Stored(key);
      }
    }

    /** pop: remove and return the largest integer held, or None when empty. */
    method Pop() returns (r: Option<int>)
      requires Valid()
      modifies this, queue
      ensures Valid() && queue == old(queue)
      ensures old(Contents) == multiset{} ==> r.None? && Contents == old(Contents)
      ensures old(Contents) != multiset{} ==>
        r.Some? && r.value in old(Contents) && Contents == old(Contents) - multiset{r.value}
      ensures r.Some? ==> forall v | v in old(Contents) :: v <= r.value
    {
      if Empty() {
        return None;
      }
      ghost var before := queue.data;
      var n := queue.Pop();
      PopStored(before, queue.data, Contents, n.value);
      var k := n.value.value.i;
      r := Some(k);
      Contents := Contents - multiset{k};
    }
  }
}
