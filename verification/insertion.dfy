/**
 * Insertion: a recursive descent that hangs a new red node on a null link or
 * overwrites the value of an equal key, and balances the child link it came
 * back from. The node it is called on keeps its own colour, key and count;
 * its parent (or, at the top, `InsertRoot`) balances it.
 */
module Insertion {
  import opened Wrappers
  import opened Entries
  import opened Trees
  import opened Repair

  /** A fresh red node with count 1 and two null links. */
  function NewNode<V>(k: Key, v: V): Tree<V>
  {
    Node(Red, Leaf, k, v, Leaf, 1)
  }

  /** insert(compare, newNode): rewires one child link, or overwrites `compare.val`. */
  function Ins<V>(c: Tree<V>, k: Key, v: V): (r: Tree<V>)
    requires c.Node?
    ensures r.Node? && r.color == c.color && r.key == c.key && r.n == c.n
  {
    if k < c.key then
      var child := if c.left.Leaf? then NewNode(k, v) else Ins(c.left, k, v);
      c.(left := Balance(child))
    else if k > c.key then
      var child := if c.right.Leaf? then NewNode(k, v) else Ins(c.right, k, v);
      c.(right := Balance(child))
    else
      c.(val := v)
  }

  /**
   * The public insert after its null checks: an empty tree first gets the new
   * node as its root, which the recursive call then overwrites with its own
   * value; the root is balanced and coloured black.
   */
  function InsertRoot<V>(t: Tree<V>, k: Key, v: V): (r: Tree<V>)
    ensures r.Node? && r.color == Black
  {
    var start := if t.Leaf? then NewNode(k, v) else t;
    Balance(Ins(start, k, v)).(color := Black)
  }

  /** On an empty tree insert yields a single black node holding the pair. */
  lemma InsertIntoEmpty<V>(k: Key, v: V)
    ensures InsertRoot(Leaf, k, v) == Node(Black, Leaf, k, v, Leaf, 1)
  {
  }

  /** The recursive insert places the pair where the sorted entry sequence wants it. */
  lemma {:induction false} InsElements<V>(c: Tree<V>, k: Key, v: V)
    requires c.Node? && Ordered(c)
    ensures Elements(Ins(c, k, v)) == Put(Elements(c), k, v)
  {
    var a, e, b := Elements(c.left), Entry(c.key, c.val), Elements(c.right);
    SortedParts(a, e, b);
    if k < c.key {
      var child := if c.left.Leaf? then NewNode(k, v) else Ins(c.left, k, v);
      if c.left.Node? {
        InsElements(c.left, k, v);
      }
      BalanceElements(child);
      assert Elements(Ins(c, k, v)) == Elements(child) + [e] + b;
      PutLeft(a, e, b, k, v);
    } else if k > c.key {
      var child := if c.right.Leaf? then NewNode(k, v) else Ins(c.right, k, v);
      if c.right.Node? {
        InsElements(c.right, k, v);
      }
      BalanceElements(child);
      assert Elements(Ins(c, k, v)) == a + [e] + Elements(child);
      PutRight(a, e, b, k, v);
    } else {
      PutMiddle(a, e, b, v);
    }
  }

  /** Every link the recursive insert rebuilt carries an exact count. */
  lemma {:induction false} InsSized<V>(c: Tree<V>, k: Key, v: V)
    requires c.Node? && SizesOk(c)
    ensures ChildrenSized(Ins(c, k, v))
  {
    if k < c.key {
      var child := if c.left.Leaf? then NewNode(k, v) else Ins(c.left, k, v);
      if c.left.Node? {
        InsSized(c.left, k, v);
      }
      BalanceSized(child);
    } else if k > c.key {
      var child := if c.right.Leaf? then NewNode(k, v) else Ins(c.right, k, v);
      if c.right.Node? {
        InsSized(c.right, k, v);
      }
      BalanceSized(child);
    }
  }

  /**
   * insert(key, val) on an ordered tree with exact counts: the entries become
   * `Put(entries, k, v)`, so `k` maps to `v`, every other key keeps its value,
   * the keys stay strictly increasing, the size grows by one exactly when `k`
   * was absent, every count is exact and the root is black.
   */
  lemma InsertCorrect<V>(t: Tree<V>, k: Key, v: V)
    requires Ordered(t) && SizesOk(t)
    ensures Elements(InsertRoot(t, k, v)) == Put(Elements(t), k, v)
    ensures Ordered(InsertRoot(t, k, v)) && SizesOk(InsertRoot(t, k, v))
    ensures RootBlack(InsertRoot(t, k, v))
    ensures Get(Elements(InsertRoot(t, k, v)), k) == Some(v)
    ensures forall x :: x != k ==> Get(Elements(InsertRoot(t, k, v)), x) == Get(Elements(t), x)
    ensures Size(InsertRoot(t, k, v)) == if HasKey(Elements(t), k) then Size(t) else Size(t) + 1
  {
    var start := if t.Leaf? then NewNode(k, v) else t;
    var ins := Ins(start, k, v);
    InsElements(start, k, v);
    InsSized(start, k, v);
    BalanceElements(ins);
    BalanceSized(ins);
    var r := InsertRoot(t, k, v);
    assert Elements(r) == Elements(Balance(ins));
    if t.Leaf? {
      assert Put(Elements(start), k, v) == [Entry(k, v)] == Put(Elements(t), k, v);
    }
    PutSorted(Elements(t), k, v);
    forall x {
      PutGet(Elements(t), k, v, x);
    }
    PutLength(Elements(t), k, v);
    SizeIsCount(t);
    SizeIsCount(r);
  }
}
