/**
 * Node: a key/value pair ordered lexicographically, by key first and then by
 * value (PriorityHeap.py, class Node).
 */
module Nodes {

  /**
   * The source stores any comparable value; its clients store integers
   * (MaxHeap) and team names (find_ranking). Integers order before strings so
   * that the order stays total even if a caller mixes the two.
   */
  datatype Value = Int(i: int) | Str(s: string)

  datatype Node = Node(key: int, value: Value)

  /** String comparison by code point, a proper prefix ordering first. */
  predicate StrLess(x: string, y: string): (r: bool)
    ensures x < y ==> r
    ensures r ==> x != y
    decreases |x|
  {
    if |x| == 0 then |y| > 0
    else if |y| == 0 then false
    else if x[0] != y[0] then x[0] < y[0]
    else
      assert x < y ==> x[1..] < y[1..];
      StrLess(x[1..], y[1..])
  }

  /** The tie-break on values: integers by size, strings by StrLess, every integer before every string. */
  predicate ValueLess(a: Value, b: Value): (r: bool)
    ensures r ==> a != b
  {
    match (a, b)
    case (Int(x), Int(y)) => x < y
    case (Str(x), Str(y)) => StrLess(x, y)
    case (Int(_), Str(_)) => true
    case (Str(_), Int(_)) => false
  }

  /** Node.__lt__: the key decides, and the value only between equal keys. */
  predicate Less(a: Node, b: Node): (r: bool)
    ensures r ==> a != b && a.key <= b.key
    ensures a.key < b.key ==> r
  {
    a.key < b.key || (a.key == b.key && ValueLess(a.value, b.value))
  }

  /** Node.__gt__, written out field by field as the source does. */
  predicate Greater(a: Node, b: Node): (r: bool)
    ensures r ==> a != b && a.key >= b.key
    ensures a.key > b.key ==> r
  {
    a.key > b.key || (a.key == b.key && ValueLess(b.value, a.value))
  }

  /** Node.__eq__: field by field, which is equality of the two nodes. */
  predicate Equal(a: Node, b: Node): (r: bool)
    ensures r <==> a == b
  {
    a.key == b.key && a.value == b.value
  }

  /** The non-strict order the heap property is stated with. */
  predicate LessEq(a: Node, b: Node) {
    Less(a, b) || a == b
  }

  lemma {:induction false} StrLessIrreflexive(x: string)
    ensures !StrLess(x, x)
    decreases |x|
  {
    if |x| > 0 {
      StrLessIrreflexive(x[1..]);
    }
  }

  lemma {:induction false} StrLessTransitive(x: string, y: string, z: string)
    requires StrLess(x, y) && StrLess(y, z)
    ensures StrLess(x, z)
    decreases |x|
  {
    if |x| > 0 && x[0] == y[0] && y[0] == z[0] {
      StrLessTransitive(x[1..], y[1..], z[1..]);
    }
  }

  lemma {:induction false} StrLessTotal(x: string, y: string)
    ensures x == y || StrLess(x, y) || StrLess(y, x)
    decreases |x|
  {
    if |x| > 0 && |y| > 0 && x[0] == y[0] {
      StrLessTotal(x[1..], y[1..]);
      if x[1..] == y[1..] {
        assert x == [x[0]] + x[1..] && y == [y[0]] + y[1..];
      }
    }
  }

  lemma ValueLessStrictTotal(a: Value, b: Value, c: Value)
    ensures !ValueLess(a, a)
    ensures ValueLess(a, b) && ValueLess(b, c) ==> ValueLess(a, c)
    ensures a == b || ValueLess(a, b) || ValueLess(b, a)
  {
    if a.Str? {
      StrLessIrreflexive(a.s);
      if b.Str? {
        StrLessTotal(a.s, b.s);
        if c.Str? && StrLess(a.s, b.s) && StrLess(b.s, c.s) {
          StrLessTransitive(a.s, b.s, c.s);
        }
      }
    }
  }

  /** Node.__lt__ is a strict total order: irreflexive, transitive, and any two distinct nodes compare. */
  lemma LessStrictTotal(a: Node, b: Node, c: Node)
    ensures !Less(a, a)
    ensures Less(a, b) && Less(b, c) ==> Less(a, c)
    ensures a == b || Less(a, b) || Less(b, a)
  {
    ValueLessStrictTotal(a.value, b.value, c.value);
  }

  /** Node.__gt__ is exactly the converse of Node.__lt__. */
  lemma GreaterIsConverse(a: Node, b: Node)
    ensures Greater(a, b) <==> Less(b, a)
  {
  }

  /** Node.__eq__ holds exactly when neither node is less than the other. */
  lemma EqualIffIncomparable(a: Node, b: Node)
    ensures Equal(a, b) <==> !Less(a, b) && !Less(b, a)
  {
    LessStrictTotal(a, b, a);
    ValueLessStrictTotal(a.value, b.value, a.value);
  }

  /** "Not greater" is "less or equal"; sift-up and sift-down stop on it. */
  lemma NotGreaterIsLessEq(a: Node, b: Node)
    ensures !Greater(a, b) <==> LessEq(a, b)
  {
    LessStrictTotal(a, b, a);
    ValueLessStrictTotal(a.value, b.value, a.value);
  }

  lemma LessEqTransitive(a: Node, b: Node, c: Node)
    requires LessEq(a, b) && LessEq(b, c)
    ensures LessEq(a, c)
  {
    LessStrictTotal(a, b, c);
  }

  lemma LessEqTotal(a: Node, b: Node)
    ensures LessEq(a, b) || LessEq(b, a)
  {
    LessStrictTotal(a, b, a);
  }

  lemma LessEqAntisymmetric(a: Node, b: Node)
    requires LessEq(a, b) && LessEq(b, a)
    ensures a == b
  {
    LessStrictTotal(a, b, a);
    ValueLessStrictTotal(a.value, b.value, a.value);
  }
}
