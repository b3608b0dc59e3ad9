/**
 * The two consumers of the heaps in PriorityHeap.py: heap_sort and
 * find_ranking.
 */
module Drivers {
  import opened Wrappers
  import opened Nodes
  import opened Sorting
  import opened PriorityQueues
  import opened MaxHeaps

  /**
   * Each element of s is no greater than the next. heap_sort's second loop
   * places one value in front of the suffix already placed, so it keeps this
   * adjacent-pairs form; AscendingIsSorted turns it into SortedInts.
   */
  predicate Ascending(s: seq<int>)
    decreases |s|
  {
    |s| <= 1 || (s[0] <= s[1] && Ascending(s[1..]))
  }

  /** Ascending adjacent pairs make the whole sequence sorted. */
  lemma {:induction false} AscendingIsSorted(s: seq<int>)
    requires Ascending(s)
    ensures SortedInts(s)
    decreases |s|
  {
    if |s| > 1 {
      AscendingIsSorted(s[1..]);
      forall i, j | 0 <= i < j < |s| ensures s[i] <= s[j] {
        if i > 0 {
          assert s[i] == s[1..][i - 1] && s[j] == s[1..][j - 1];
        } else if j > 1 {
          assert s[1] == s[1..][0] && s[j] == s[1..][j - 1];
        }
      }
    }
  }

  /** No integer of c is greater than the first element of s. */
  predicate NoneAbove(c: multiset<int>, s: seq<int>) {
    s != [] ==> forall v | v in c :: v <= s[0]
  }

  /** One step of heap_sort's second loop: the largest held integer goes in front of the sorted suffix. */
  lemma PrependLargest(held: multiset<int>, top: int, suffix: seq<int>)
    requires top in held && forall v | v in held :: v <= top
    requires Ascending(suffix) && NoneAbove(held, suffix)
    ensures (held - multiset{top}) + multiset([top] + suffix) == held + multiset(suffix)
    ensures Ascending([top] + suffix) && NoneAbove(held - multiset{top}, [top] + suffix)
  {
    var t := [top] + suffix;
    assert t[1..] == suffix;
    forall v | v in held - multiset{top} ensures v <= t[0] {
      assert v in held;
    }
  }

  lemma UpdateBeforeSuffix(s: seq<int>, k: nat, v: int, suffix: seq<int>)
    requires k < |s| && s[k + 1..] == suffix
    ensures s[k := v][k..] == [v] + suffix
  {
    assert s[k := v][k..] == [v] + s[k + 1..];
  }

  /** The write array[-i] = ...: v goes in front of the suffix already placed. */
  method Place(a: array<int>, k: nat, v: int, ghost suffix: seq<int>)
    requires k < a.Length && a[k + 1..] == suffix
    modifies a
    ensures a[k..] == [v] + suffix
  {
    ghost var before := a[..];
    a[k] := v;
    assert a[..] == before[k := v];
    UpdateBeforeSuffix(before, k, v, suffix);
  }

  lemma PrefixMultiset(s: seq<int>, k: nat)
    requires k < |s|
    ensures multiset(s[..k + 1]) == multiset(s[..k]) + multiset{s[k]}
  {
    assert s[..k + 1] == s[..k] + [s[k]];
  }

  /** heap_sort's first loop: a fresh MaxHeap holding every entry of the array. */
  method PushAll(a: array<int>) returns (heap: MaxHeap)
    ensures fresh(heap) && fresh(heap.queue)
    ensures heap.Valid() && heap.Contents == multiset(a[..])
  {
    heap := new MaxHeap();
    ghost var queue := heap.queue;
    for k := 0 to a.Length
      invariant heap.Valid() && heap.queue == queue
      invariant heap.Contents == multiset(a[..k])
      modifies heap, queue
    {
      heap.Push(a[k]);
      PrefixMultiset(a[..], k);
    }
    assert a[..a.Length] == a[..];
  }

  /**
   * heap_sort's second loop: pop the heap into the array from its last slot
   * back to its first, so the array ends up ascending and holding exactly what
   * the heap held.
   */
  method PopInto(heap: MaxHeap, a: array<int>)
    requires heap.Valid() && |heap.Contents| == a.Length
    modifies a, heap, heap.queue
    ensures Ascending(a[..]) && multiset(a[..]) == old(heap.Contents)
  {
    ghost var queue := heap.queue;
    ghost var original := heap.Contents;
    var n := a.Length;
    ghost var sorted: seq<int> := [];
    for i := 1 to n + 1
      invariant heap.Valid() && heap.queue == queue
      invariant |heap.Contents| == n - i + 1
      invariant a[n - i + 1..] == sorted
      invariant heap.Contents + multiset(sorted) == original
      invariant Ascending(sorted) && NoneAbove(heap.Contents, sorted)
    {
      ghost var held := heap.Contents;
      var r := heap.Pop();
      PrependLargest(held, r.value, sorted);
      Place(a, n - i, r.value, sorted);
      sorted := [r.value] + sorted;
    }
    assert a[..] == a[0..];
  }

  /** heap_sort: sorts the array in place, in ascending order. */
  method HeapSort(a: array<int>)
    modifies a
    ensures SortedInts(a[..])
    ensures multiset(a[..]) == multiset(old(a[..]))
  {
    var heap := PushAll(a);
    PopInto(heap, a);
    AscendingIsSorted(a[..]);
  }

  /** Every node holds a team name. */
  predicate AllNamed(s: seq<Node>) {
    forall n | n in s :: n.value.Str?
  }

  /** The nodes find_ranking pushes, in order: losses as the key, the team's name as the value. */
  function RankNodes(results: seq<(int, string)>): (r: seq<Node>)
    ensures |r| == |results|
  {
    if results == [] then []
    else
      var last := results[|results| - 1];
      RankNodes(results[..|results| - 1]) + [Node(last.0, Str(last.1))]
  }

  lemma AllNamedSubset(s: seq<Node>, t: seq<Node>)
    requires AllNamed(s) && multiset(t) <= multiset(s)
    ensures AllNamed(t)
  {
    forall n | n in t ensures n.value.Str? {
      assert n in multiset(t);
      assert n in s;
    }
  }

  /**
   * One pop of find_ranking's second loop: when the queue holds the nodes of
   * a sorted arrangement from position taken on, its smallest node is the one
   * at position taken.
   */
  lemma PopInOrder(sorted: seq<Node>, taken: nat, before: seq<Node>, after: seq<Node>, x: Node)
    requires Sorted(sorted) && taken <= |sorted| && multiset(before) == multiset(sorted[taken..])
    requires x in before && forall n | n in before :: LessEq(x, n)
    requires multiset(after) == multiset(before) - multiset{x}
    ensures taken < |sorted| && sorted[taken] == x
    ensures multiset(after) == multiset(sorted[taken + 1..])
  {
    var rest := sorted[taken..];
    assert x in multiset(rest);
    var v :| 0 <= v < |rest| && rest[v] == x;
    assert LessEq(rest[0], x) by {
      if v > 0 { assert sorted[taken] == rest[0] && sorted[taken + v] == x; }
    }
    assert rest[0] in multiset(before);
    LessEqAntisymmetric(x, rest[0]);
    assert rest == [x] + sorted[taken + 1..];
  }

  /** Some sorted arrangement of the nodes exists. */
  lemma SortedArrangement(nodes: seq<Node>)
    ensures exists t :: Sorted(t) && multiset(t) == multiset(nodes)
  {
    var t := Sort(nodes);
    assert Sorted(t) && multiset(t) == multiset(nodes);
  }

  /** Every node find_ranking pushes holds a team name. */
  lemma {:induction false} RankNodesNamed(results: seq<(int, string)>)
    ensures AllNamed(RankNodes(results))
    decreases |results|
  {
    if results != [] {
      RankNodesNamed(results[..|results| - 1]);
    }
  }

  /**
   * The node at position k of any sorted arrangement of the ranked results
   * holds a team name, the one at position k of the reference sort.
   */
  lemma RankedName(results: seq<(int, string)>, sorted: seq<Node>, k: int, x: Node)
    requires Sorted(sorted) && multiset(sorted) == multiset(RankNodes(results))
    requires 0 <= k < |sorted| && x == sorted[k]
    ensures x.value.Str? && k < |Sort(RankNodes(results))|
    ensures Sort(RankNodes(results))[k].value == Str(x.value.s)
  {
    var nodes := RankNodes(results);
    RankNodesNamed(results);
    SortedUnique(sorted, Sort(nodes));
    AllNamedSubset(nodes, sorted);
    assert sorted[k] in sorted;
  }

  lemma RankNodesPrefix(results: seq<(int, string)>, k: nat)
    requires k < |results|
    ensures multiset(RankNodes(results[..k + 1]))
         == multiset(RankNodes(results[..k])) + multiset{Node(results[k].0, Str(results[k].1))}
  {
    assert results[..k + 1][..k] == results[..k];
  }

  /** find_ranking's first loop: push every result, losses as the key and the team's name as the value. */
  method PushResults(queue: PriorityQueue, results: seq<(int, string)>)
    requires queue.Valid()
    modifies queue
    ensures queue.Valid()
    ensures multiset(queue.data) == old(multiset(queue.data)) + multiset(RankNodes(results))
  {
    ghost var start := multiset(queue.data);
    for k := 0 to |results|
      invariant queue.Valid()
      invariant multiset(queue.data) == start + multiset(RankNodes(results[..k]))
    {
      var (losses, team) := results[k];
      queue.Push(losses, Str(team));
      RankNodesPrefix(results, k);
    }
    assert results[..|results|] == results;
  }

  /**
   * find_ranking's second loop: pop count times, keeping the last node
   * popped. When the queue holds the nodes of a sorted arrangement, that is
   * the node at position count - 1, or None when count is 0 or exceeds the
   * number of nodes.
   */
  method PopTimes(queue: PriorityQueue, count: nat, ghost sorted: seq<Node>) returns (node: Option<Node>)
    requires queue.Valid() && Sorted(sorted) && multiset(queue.data) == multiset(sorted)
    modifies queue
    ensures node.Some? <==> 0 < count <= |sorted|
    ensures node.Some? ==> node.value == sorted[count - 1]
  {
    node := None;
    ghost var taken := 0;
    assert sorted[taken..] == sorted;
    for i := 0 to count
      invariant queue.Valid()
      invariant taken == if i <= |sorted| then i else |sorted|
      invariant multiset(queue.data) == multiset(sorted[taken..])
      invariant node.Some? <==> 0 < i <= |sorted|
      invariant node.Some? ==> node.value == sorted[i - 1]
    {
      ghost var before := queue.data;
      assert |before| == |sorted| - taken by {
        assert |multiset(before)| == |multiset(sorted[taken..])|;
      }
      node := queue.Pop();
      if node.Some? {
        PopInOrder(sorted, taken, before, queue.data, node.value);
        taken := taken + 1;
      }
    }
  }

  /**
   * find_ranking: the name of the team at the given 1-based rank when the
   * results are ordered by losses, ties by team name; None when rank is
   * below 1 or beyond the number of results.
   */
  method FindRanking(rank: int, results: seq<(int, string)>) returns (r: Option<string>)
    ensures r.None? <==> rank < 1 || rank > |results|
    ensures r.Some? ==> Sort(RankNodes(results))[rank - 1].value == Str(r.value)
  {
    ghost var nodes := RankNodes(results);
    var queue := new PriorityQueue();
    PushResults(queue, results);
    SortedArrangement(nodes);
    ghost var sorted: seq<Node> :| Sorted(sorted) && multiset(sorted) == multiset(nodes);
    var count := if rank < 0 then 0 else rank;
    var node := PopTimes(queue, count, sorted);
    if node.Some? {
      RankedName(results, sorted, rank - 1, node.value);
      r := Some(node.value.value.s);
    } else {
      assert |sorted| == |nodes|;
      r := None;
    }
  }
}
