/**
 * Top-down deletion: red links are pushed down ahead of the search, the
 * target is unlinked or replaced by its in-order successor, and every link
 * the recursion returns through is balanced.
 */
module Deletion {
  import opened Wrappers
  import opened Entries
  import opened Trees
  import opened Repair
  import opened Insertion

  // ---- The steps taken before descending ---------------------------------

  /** Before going left: borrow a red link when `c.left` and `c.left.left` are both black. */
  function PushLeft<V>(c: Tree<V>): Tree<V>
    requires c.Node? && c.left.Node? && (IsRed(c.left) || IsRed(c.left.left) || c.right.Node?)
  {
    if !IsRed(c.left) && !IsRed(c.left.left) then MoveRedLeft(c) else c
  }

  /** Before going right: lean a red left link to the right. */
  function LeanRight<V>(c: Tree<V>): Tree<V>
    requires c.Node?
  {
    if IsRed(c.left) then RotateRight(c) else c
  }

  /** Before going right: borrow a red link when `c.right` and `c.right.left` are both black. */
  function PushRight<V>(c: Tree<V>): Tree<V>
    requires c.Node? && c.right.Node? && (IsRed(c.right) || IsRed(c.right.left) || c.left.Node?)
  {
    if !IsRed(c.right) && !IsRed(c.right.left) then MoveRedRight(c) else c
  }

  lemma PushLeftSpec<V>(c: Tree<V>)
    requires c.Node? && c.left.Node? && (IsRed(c.left) || IsRed(c.left.left) || c.right.Node?)
    ensures PushLeft(c).Node? && PushLeft(c).left.Node?
    ensures Elements(PushLeft(c)) == Elements(c)
    ensures Ordered(c) ==> c.key <= PushLeft(c).key
    ensures SizesOk(c) ==> SizesOk(PushLeft(c))
  {
    if !IsRed(c.left) && !IsRed(c.left.left) {
      MoveRedLeftSpec(c);
      MoveRedLeftSized(c);
    }
  }

  lemma LeanRightSpec<V>(c: Tree<V>)
    requires c.Node?
    ensures LeanRight(c).Node?
    ensures Elements(LeanRight(c)) == Elements(c)
    ensures Ordered(c) ==> LeanRight(c).key <= c.key
    ensures SizesOk(c) ==> SizesOk(LeanRight(c))
  {
    if IsRed(c.left) {
      RotateRightSized(c);
      if Ordered(c) {
        OrderedNode(c);
        var idx := |Elements(c.left.left)|;
        assert Elements(c.left)[idx] == Entry(c.left.key, c.left.val);
      }
    }
  }

  lemma PushRightSpec<V>(c: Tree<V>)
    requires c.Node? && c.right.Node? && (IsRed(c.right) || IsRed(c.right.left) || c.left.Node?)
    ensures PushRight(c).Node? && PushRight(c).right.Node?
    ensures Elements(PushRight(c)) == Elements(c)
    ensures Ordered(c) ==> PushRight(c).key <= c.key
    ensures SizesOk(c) ==> SizesOk(PushRight(c))
  {
    if !IsRed(c.right) && !IsRed(c.right.left) {
      MoveRedRightSpec(c);
      MoveRedRightSized(c);
    }
  }

  /** Going left towards `k`: the left link exists, and after the push it still leads to `k`. */
  lemma DescendLeft<V>(c: Tree<V>, k: Key)
    requires c.Node? && Ordered(c) && HasKey(Elements(c), k) && k < c.key
    ensures c.left.Node?
    ensures IsRed(c.left) || IsRed(c.left.left) || c.right.Node? ==>
      && Ordered(PushLeft(c)) && k < PushLeft(c).key
      && PushLeft(c).left.Node? && Ordered(PushLeft(c).left)
      && HasKey(Elements(PushLeft(c).left), k)
      && |Elements(PushLeft(c).left)| < |Elements(c)|
  {
    SearchStep(c, k);
    if IsRed(c.left) || IsRed(c.left.left) || c.right.Node? {
      var c1 := PushLeft(c);
      PushLeftSpec(c);
      SearchStep(c1, k);
    }
  }

  /** Going right towards `k`: the right link exists, and after the push it still leads to `k`. */
  lemma DescendRight<V>(c: Tree<V>, k: Key)
    requires c.Node? && Ordered(c) && HasKey(Elements(c), k) && k > c.key
    ensures LeanRight(c).Node? && LeanRight(c).right.Node?
    ensures var c1 := LeanRight(c);
      IsRed(c1.right) || IsRed(c1.right.left) || c1.left.Node? ==>
      && Ordered(PushRight(c1)) && k > PushRight(c1).key
      && PushRight(c1).right.Node? && Ordered(PushRight(c1).right)
      && HasKey(Elements(PushRight(c1).right), k)
      && |Elements(PushRight(c1).right)| < |Elements(c)|
  {
    var c1 := LeanRight(c);
    LeanRightSpec(c);
    SearchStep(c1, k);
    if IsRed(c1.right) || IsRed(c1.right.left) || c1.left.Node? {
      var c2 := PushRight(c1);
      PushRightSpec(c1);
      SearchStep(c2, k);
    }
  }

  /** Looking for the minimum `mk`: the node holds it exactly when its left link is null. */
  lemma DescendToMin<V>(d: Tree<V>, mk: Key)
    requires d.Node? && Ordered(d) && mk == Elements(d)[0].key
    ensures d.key == mk <==> d.left.Leaf?
    ensures d.left.Node? && (IsRed(d.left) || IsRed(d.left.left) || d.right.Node?) ==>
      && Ordered(PushLeft(d).left) && mk == Elements(PushLeft(d).left)[0].key
      && |Elements(PushLeft(d).left)| < |Elements(d)|
  {
    OrderedNode(d);
    if d.left.Node? {
      assert Elements(d)[0] == Elements(d.left)[0];
      if IsRed(d.left) || IsRed(d.left.left) || d.right.Node? {
        var d1 := PushLeft(d);
        PushLeftSpec(d);
        OrderedNode(d1);
        assert Elements(d1)[0] == Elements(d1.left)[0];
      }
    }
  }

  // ---- When the Java code runs without a null dereference ---------------

  /**
   * findReplacement(d, min) dereferences `d.right` whenever it pushes a red
   * link left, and returns null at the minimum, which drops whatever hangs
   * on the minimum's right link. This holds when every push finds a right
   * sibling and the minimum has no right subtree.
   */
  ghost predicate ReplacementDefined<V>(d: Tree<V>)
    requires d.Node?
    decreases |Elements(d)|
  {
    if d.left.Leaf? then d.right.Leaf?
    else
      && (IsRed(d.left) || IsRed(d.left.left) || d.right.Node?)
      && (PushLeftSpec(d); ReplacementDefined(PushLeft(d).left))
  }

  /**
   * delete(c, k) dereferences `c.right` when it pushes a red link left and
   * `c.left` when it pushes one right; in the successor case findReplacement
   * must be defined on `c.right`.
   */
  ghost predicate DeleteDefined<V>(c: Tree<V>, k: Key)
    requires c.Node? && Ordered(c) && HasKey(Elements(c), k)
    decreases |Elements(c)|
  {
    if k < c.key then
      DescendLeft(c, k);
      && (IsRed(c.left) || IsRed(c.left.left) || c.right.Node?)
      && DeleteDefined(PushLeft(c).left, k)
    else if k > c.key then
      DescendRight(c, k);
      var c1 := LeanRight(c);
      && (IsRed(c1.right) || IsRed(c1.right.left) || c1.left.Node?)
      && DeleteDefined(PushRight(c1).right, k)
    else
      c.right.Leaf? || ReplacementDefined(c.right)
  }

  // ---- The recursion ----------------------------------------------------

  /** findReplacement: unlinks the minimum `mk` of `d`, pushing red links left on the way down. */
  function FindReplacement<V>(d: Tree<V>, mk: Key): Tree<V>
    requires d.Node? && Ordered(d) && mk == Elements(d)[0].key && ReplacementDefined(d)
    decreases |Elements(d)|
  {
    DescendToMin(d, mk);
    if d.key == mk then Leaf
    else
      var d1 := PushLeft(d);
      Balance(d1.(left := FindReplacement(d1.left, mk)))
  }

  /**
   * The successor case of delete: `c` takes the key and the value of the
   * minimum of its right subtree, which is unlinked from there.
   */
  function SpliceSuccessor<V>(c: Tree<V>): Tree<V>
    requires c.Node? && c.right.Node? && Ordered(c) && ReplacementDefined(c.right)
  {
    OrderedNode(c);
    var s := Elements(c.right)[0];
    Balance(c.(right := FindReplacement(c.right, s.key), key := s.key, val := s.val))
  }

  /**
   * The successor case as the Java code has it: the new value is looked up
   * with search(replaceKey) only after the successor has been unlinked and
   * `c.key` overwritten, so the search stops at `c` itself and `c` keeps the
   * value of the key being deleted.
   */
  function SpliceSuccessorAsWritten<V>(c: Tree<V>): Tree<V>
    requires c.Node? && c.right.Node? && Ordered(c) && ReplacementDefined(c.right)
  {
    OrderedNode(c);
    var mk := Elements(c.right)[0].key;
    Balance(c.(right := FindReplacement(c.right, mk), key := mk))
  }

  /** delete(compare, deleteIt), with the successor carrying its own value. */
  function Del<V>(c: Tree<V>, k: Key): Tree<V>
    requires c.Node? && Ordered(c) && HasKey(Elements(c), k) && DeleteDefined(c, k)
    decreases |Elements(c)|
  {
    if k < c.key then
      DescendLeft(c, k);
      var c1 := PushLeft(c);
      Balance(c1.(left := Del(c1.left, k)))
    else if k > c.key then
      DescendRight(c, k);
      var c2 := PushRight(LeanRight(c));
      Balance(c2.(right := Del(c2.right, k)))
    else if IsRed(c) && c.left.Leaf? && c.right.Leaf? then
      Leaf
    else if c.right.Leaf? then
      c.left
    else
      SpliceSuccessor(c)
  }

  /** The root is coloured red first when both its children are black. */
  function PrepareRoot<V>(t: Tree<V>): Tree<V>
    requires t.Node?
  {
    if !IsRed(t.left) && !IsRed(t.right) then t.(color := Red) else t
  }

  /** The public delete: a no-op on an empty tree or an absent key; a non-empty result gets a black root. */
  function DeleteRoot<V>(t: Tree<V>, k: Key): Tree<V>
    requires Ordered(t)
    requires t.Node? && HasKey(Elements(t), k) ==> DeleteDefined(PrepareRoot(t), k)
  {
    if t.Leaf? || !HasKey(Elements(t), k) then t
    else
      var r := Del(PrepareRoot(t), k);
      if r.Leaf? then r else r.(color := Black)
  }

  // ---- What deletion does to the entries --------------------------------

  /** findReplacement removes exactly the first in-order entry. */
  lemma {:induction false} FindReplacementElements<V>(d: Tree<V>, mk: Key)
    requires d.Node? && Ordered(d) && mk == Elements(d)[0].key && ReplacementDefined(d)
    ensures Elements(FindReplacement(d, mk)) == Elements(d)[1..]
    ensures SizesOk(d) ==> SizesOk(FindReplacement(d, mk))
    decreases |Elements(d)|
  {
    DescendToMin(d, mk);
    if d.key != mk {
      var d1 := PushLeft(d);
      PushLeftSpec(d);
      FindReplacementElements(d1.left, mk);
      var fr := FindReplacement(d1.left, mk);
      BalanceElements(d1.(left := fr));
      BalanceSized(d1.(left := fr));
      DropFirstLeft(d1, fr);
    }
  }

  /** Dropping the first entry of the left subtree drops the first entry of the node. */
  lemma DropFirstLeft<V>(d: Tree<V>, l: Tree<V>)
    requires d.Node? && d.left.Node? && Elements(l) == Elements(d.left)[1..]
    ensures Elements(d.(left := l)) == Elements(d)[1..]
  {
    assert Elements(d)[1..] == Elements(d.left)[1..] + [Entry(d.key, d.val)] + Elements(d.right);
  }

  lemma HeadTail<V>(a: seq<Entry<V>>, b: seq<Entry<V>>)
    requires |b| > 0
    ensures a + [b[0]] + b[1..] == a + b
  {
    assert [b[0]] + b[1..] == b;
  }

  /** The corrected successor case removes the entry of `c.key` and nothing else. */
  lemma {:induction false} SpliceSuccessorElements<V>(c: Tree<V>)
    requires c.Node? && c.right.Node? && Ordered(c) && ReplacementDefined(c.right)
    ensures Elements(SpliceSuccessor(c)) == Remove(Elements(c), c.key)
    ensures SizesOk(c) ==> SizesOk(SpliceSuccessor(c))
  {
    OrderedNode(c);
    var el, er := Elements(c.left), Elements(c.right);
    var s := er[0];
    FindReplacementElements(c.right, s.key);
    var fr := FindReplacement(c.right, s.key);
    var c1 := Node(c.color, c.left, s.key, s.val, fr, c.n);
    assert SpliceSuccessor(c) == Balance(c1);
    BalanceElements(c1);
    BalanceSized(c1);
    assert Elements(c1) == el + [s] + er[1..];
    HeadTail(el, er);
    RemoveMiddle(el, Entry(c.key, c.val), er);
  }

  /** As written, the successor's key ends up holding the value of the deleted key. */
  lemma SpliceSuccessorAsWrittenValue<V>(c: Tree<V>)
    requires c.Node? && c.right.Node? && Ordered(c) && ReplacementDefined(c.right)
    ensures var mk := Elements(c.right)[0].key;
      Get(Elements(SpliceSuccessorAsWritten(c)), mk) == Some(c.val)
  {
    OrderedNode(c);
    var mk := Elements(c.right)[0].key;
    FindReplacementElements(c.right, mk);
    var c1 := c.(right := FindReplacement(c.right, mk), key := mk);
    BalanceElements(c1);
    SortedParts(Elements(c.left), Entry(c.key, c.val), Elements(c.right));
    assert Elements(c1) == Elements(c.left) + [Entry(mk, c.val)] + Elements(c.right)[1..];
    assert Sorted(Elements(c1)) by {
      assert Elements(c.right) == [Elements(c.right)[0]] + Elements(c.right)[1..];
      SortedTail(Elements(c.right));
      SortedJoin(Elements(c.left), Entry(mk, c.val), Elements(c.right)[1..]);
    }
    GetAround(Elements(c.left), Entry(mk, c.val), Elements(c.right)[1..], mk);
  }

  /** The recursive delete removes the entry of `k` and keeps every count exact. */
  lemma {:induction false} DelElements<V>(c: Tree<V>, k: Key)
    requires c.Node? && Ordered(c) && HasKey(Elements(c), k) && DeleteDefined(c, k)
    ensures Elements(Del(c, k)) == Remove(Elements(c), k)
    ensures SizesOk(c) ==> SizesOk(Del(c, k))
    decreases |Elements(c)|
  {
    if k < c.key {
      DescendLeft(c, k);
      var c1 := PushLeft(c);
      PushLeftSpec(c);
      DelElements(c1.left, k);
      var c2 := c1.(left := Del(c1.left, k));
      BalanceElements(c2);
      BalanceSized(c2);
      RemoveLeft(Elements(c1.left), Entry(c1.key, c1.val), Elements(c1.right), k);
    } else if k > c.key {
      DescendRight(c, k);
      var c1 := LeanRight(c);
      LeanRightSpec(c);
      var c2 := PushRight(c1);
      PushRightSpec(c1);
      DelElements(c2.right, k);
      var c3 := c2.(right := Del(c2.right, k));
      BalanceElements(c3);
      BalanceSized(c3);
      RemoveRight(Elements(c2.left), Entry(c2.key, c2.val), Elements(c2.right), k);
    } else if IsRed(c) && c.left.Leaf? && c.right.Leaf? {
      RemoveMiddle(Elements(c.left), Entry(c.key, c.val), Elements(c.right));
    } else if c.right.Leaf? {
      RemoveMiddle(Elements(c.left), Entry(c.key, c.val), Elements(c.right));
    } else {
      SpliceSuccessorElements(c);
    }
  }

  /**
   * delete(key) on an ordered tree with exact counts: the entry of `key` is
   * removed and nothing else changes, so `key` is absent afterwards, every
   * other key keeps its value, the keys stay strictly increasing, the size
   * drops by one exactly when `key` was present, every count is exact and a
   * black root stays black.
   */
  lemma DeleteCorrect<V>(t: Tree<V>, k: Key)
    requires Ordered(t) && SizesOk(t)
    requires t.Node? && HasKey(Elements(t), k) ==> DeleteDefined(PrepareRoot(t), k)
    ensures Elements(DeleteRoot(t, k)) == Remove(Elements(t), k)
    ensures Ordered(DeleteRoot(t, k)) && SizesOk(DeleteRoot(t, k))
    ensures RootBlack(t) ==> RootBlack(DeleteRoot(t, k))
    ensures Get(Elements(DeleteRoot(t, k)), k) == None
    ensures forall x :: x != k ==> Get(Elements(DeleteRoot(t, k)), x) == Get(Elements(t), x)
    ensures Size(DeleteRoot(t, k)) == if HasKey(Elements(t), k) then Size(t) - 1 else Size(t)
  {
    var r := DeleteRoot(t, k);
    if t.Leaf? || !HasKey(Elements(t), k) {
      RemoveAbsent(Elements(t), k);
    } else {
      DelElements(PrepareRoot(t), k);
    }
    RemoveSorted(Elements(t), k);
    forall x {
      RemoveGet(Elements(t), k, x);
    }
    GetSome(Elements(t), k);
    RemoveLength(Elements(t), k);
    SizeIsCount(t);
    SizeIsCount(r);
  }

  // ---- The successor value, as written and corrected ---------------------

  /**
   * The tree that inserting (k1, v1), (k2, v2), (k3, v3) with k1 < k2 < k3
   * in that order builds: a black root with two black leaves.
   */
  function ThreeKeys<V>(k1: Key, k2: Key, k3: Key, v1: V, v2: V, v3: V): Tree<V>
  {
    Node(Black, Node(Black, Leaf, k1, v1, Leaf, 1), k2, v2, Node(Black, Leaf, k3, v3, Leaf, 1), 3)
  }

  lemma ThreeInserts<V>(k1: Key, k2: Key, k3: Key, v1: V, v2: V, v3: V)
    requires k1 < k2 < k3
    ensures InsertRoot(InsertRoot(InsertRoot(Leaf, k1, v1), k2, v2), k3, v3)
         == ThreeKeys(k1, k2, k3, v1, v2, v3)
  {
    var leaf: Tree<V> := Leaf;
    var t1 := InsertRoot(leaf, k1, v1);
    InsertIntoEmpty(k1, v1);
    var t2 := InsertRoot(t1, k2, v2);
    assert Ins(t1, k2, v2) == Node(Black, leaf, k1, v1, NewNode(k2, v2), 1);
    assert t2 == Node(Black, Node(Red, leaf, k1, v1, leaf, 1), k2, v2, leaf, 2);
    var i3 := Ins(t2, k3, v3);
    assert i3 == t2.(right := NewNode(k3, v3));
    var h1 := RotateLeft(i3);
    assert h1 == Node(Black, Node(Red, t2.left, k2, v2, leaf, 2), k3, v3, leaf, 2);
    var h2 := RotateRight(h1);
    assert h2 == Node(Black, t2.left, k2, v2, Node(Red, leaf, k3, v3, leaf, 1), 2);
  }

  lemma ThreeKeysShape<V>(k1: Key, k2: Key, k3: Key, v1: V, v2: V, v3: V)
    requires k1 < k2 < k3
    ensures Elements(ThreeKeys(k1, k2, k3, v1, v2, v3)) == [Entry(k1, v1), Entry(k2, v2), Entry(k3, v3)]
    ensures Ordered(ThreeKeys(k1, k2, k3, v1, v2, v3)) && SizesOk(ThreeKeys(k1, k2, k3, v1, v2, v3))
    ensures Get(Elements(ThreeKeys(k1, k2, k3, v1, v2, v3)), k3) == Some(v3)
    ensures HasKey(Elements(ThreeKeys(k1, k2, k3, v1, v2, v3)), k2)
  {
    var leaf: Tree<V> := Leaf;
    var l, r := Node(Black, leaf, k1, v1, leaf, 1), Node(Black, leaf, k3, v3, leaf, 1);
    assert Elements(l) == [Entry(k1, v1)];
    assert Elements(r) == [Entry(k3, v3)];
    assert SizesOk(l) && SizesOk(r);
    assert ThreeKeys(k1, k2, k3, v1, v2, v3) == Node(Black, l, k2, v2, r, 3);
    var e := Elements(ThreeKeys(k1, k2, k3, v1, v2, v3));
    assert e == [Entry(k1, v1), Entry(k2, v2), Entry(k3, v3)];
    assert e[1].key == k2;
    assert e[1..] == [Entry(k2, v2), Entry(k3, v3)];
    assert e[1..][1..] == [Entry(k3, v3)];
    assert Get(e[1..][1..], k3) == Some(v3);
    assert Get(e[1..], k3) == Some(v3);
  }

  /** delete(k2) on this tree colours the root red and takes the successor path at the root. */
  lemma ThreeKeysDeletable<V>(k1: Key, k2: Key, k3: Key, v1: V, v2: V, v3: V)
    requires k1 < k2 < k3
    ensures var p := PrepareRoot(ThreeKeys(k1, k2, k3, v1, v2, v3));
      && p.color == Red && p.key == k2 && p.val == v2 && p.right.Node?
      && Ordered(p) && HasKey(Elements(p), k2) && ReplacementDefined(p.right)
      && Elements(p.right) == [Entry(k3, v3)]
    ensures DeleteDefined(PrepareRoot(ThreeKeys(k1, k2, k3, v1, v2, v3)), k2)
  {
    ThreeKeysShape(k1, k2, k3, v1, v2, v3);
  }

  /**
   * Deleting k2 from `ThreeKeys`: the root is recoloured red, k2 sits at the
   * root and its successor k3 is the whole right subtree. As written, k3
   * comes back holding v2, the value of the deleted key, where the tree held v3.
   */
  lemma SuccessorValueLost<V>(k1: Key, k2: Key, k3: Key, v1: V, v2: V, v3: V)
    requires k1 < k2 < k3
    ensures Get(Elements(ThreeKeys(k1, k2, k3, v1, v2, v3)), k3) == Some(v3)
    ensures var p := PrepareRoot(ThreeKeys(k1, k2, k3, v1, v2, v3));
      && p.right.Node? && Ordered(p) && ReplacementDefined(p.right)
      && Get(Elements(SpliceSuccessorAsWritten(p)), k3) == Some(v2)
  {
    ThreeKeysShape(k1, k2, k3, v1, v2, v3);
    ThreeKeysDeletable(k1, k2, k3, v1, v2, v3);
    SpliceSuccessorAsWrittenValue(PrepareRoot(ThreeKeys(k1, k2, k3, v1, v2, v3)));
  }

  /** The corrected delete of k2 from `ThreeKeys` leaves k3 with its own value v3. */
  lemma SuccessorValueKept<V>(k1: Key, k2: Key, k3: Key, v1: V, v2: V, v3: V)
    requires k1 < k2 < k3
    ensures Ordered(ThreeKeys(k1, k2, k3, v1, v2, v3))
    ensures var p := PrepareRoot(ThreeKeys(k1, k2, k3, v1, v2, v3));
      Ordered(p) && HasKey(Elements(p), k2) && DeleteDefined(p, k2)
    ensures Elements(DeleteRoot(ThreeKeys(k1, k2, k3, v1, v2, v3), k2)) == [Entry(k1, v1), Entry(k3, v3)]
  {
    ThreeKeysShape(k1, k2, k3, v1, v2, v3);
    ThreeKeysDeletable(k1, k2, k3, v1, v2, v3);
    var e := Elements(ThreeKeys(k1, k2, k3, v1, v2, v3));
    DeleteCorrect(ThreeKeys(k1, k2, k3, v1, v2, v3), k2);
    assert e[1..] == [Entry(k2, v2), Entry(k3, v3)];
    assert e[1..][1..] == [Entry(k3, v3)];
    assert Remove(e[1..][1..], k2) == [Entry(k3, v3)];
  }
}
