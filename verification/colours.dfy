/**
 * The colour rules of a left-leaning red-black tree, read as a 2-3 tree: a
 * red link always leans left, no red node has a red left child, and every
 * path from a node down to a null link passes the same number of black
 * nodes. Insert keeps these rules.
 */
module Colours {
  import opened Entries
  import opened Trees
  import opened Repair
  import opened Insertion

  /** The number of black nodes on the leftmost path, the node itself included. */
  function BlackHeight<V>(t: Tree<V>): nat
  {
    if t.Leaf? then 0
    else BlackHeight(t.left) + (if t.color == Black then 1 else 0)
  }

  /** Every path from a node to a null link passes the same number of black nodes. */
  predicate BlackBalanced<V>(t: Tree<V>)
  {
    t.Node? ==>
      && BlackHeight(t.left) == BlackHeight(t.right)
      && BlackBalanced(t.left) && BlackBalanced(t.right)
  }

  /** No right link is red, and no red node has a red left child. */
  predicate LeftLeaning<V>(t: Tree<V>)
  {
    t.Node? ==>
      && !IsRed(t.right)
      && (t.color == Red ==> !IsRed(t.left))
      && LeftLeaning(t.left) && LeftLeaning(t.right)
  }

  predicate RedBlack<V>(t: Tree<V>)
  {
    LeftLeaning(t) && BlackBalanced(t)
  }

  /**
   * The subtree a parent hangs back on its link after inserting below it:
   * a new red node on a null link, and the balanced result otherwise.
   */
  function InsertBelow<V>(h: Tree<V>, k: Key, v: V): (r: Tree<V>)
    ensures r.Node?
  {
    if h.Leaf? then NewNode(k, v) else Balance(Ins(h, k, v))
  }

  // ---- The repairs on black height ---------------------------------------

  lemma RotateLeftBlack<V>(h: Tree<V>)
    requires h.Node? && IsRed(h.right) && BlackBalanced(h)
    ensures BlackBalanced(RotateLeft(h)) && BlackHeight(RotateLeft(h)) == BlackHeight(h)
  {
  }

  lemma RotateRightBlack<V>(h: Tree<V>)
    requires h.Node? && IsRed(h.left) && BlackBalanced(h)
    ensures BlackBalanced(RotateRight(h)) && BlackHeight(RotateRight(h)) == BlackHeight(h)
  {
  }

  /** Splitting a temporary 4-node at a black node pushes its black level up into the node. */
  lemma FlipColorsBlack<V>(h: Tree<V>)
    requires h.Node? && h.color == Black && IsRed(h.left) && IsRed(h.right) && BlackBalanced(h)
    ensures BlackBalanced(FlipColors(h)) && BlackHeight(FlipColors(h)) == BlackHeight(h)
  {
  }

  // ---- Insertion ---------------------------------------------------------

  /** The link a parent rebuilds is exactly `InsertBelow` of the old child. */
  lemma InsLeftRight<V>(c: Tree<V>, k: Key, v: V)
    requires c.Node?
    ensures k < c.key ==> Ins(c, k, v) == c.(left := InsertBelow(c.left, k, v))
    ensures k > c.key ==> Ins(c, k, v) == c.(right := InsertBelow(c.right, k, v))
    ensures k == c.key ==> Ins(c, k, v) == c.(val := v)
  {
    assert Balance(NewNode(k, v)) == NewNode(k, v);
  }

  /**
   * Inserting below a red-black subtree keeps its black height, leaves every
   * link below the top satisfying the colour rules and no right link red.
   * Below a black node the result is a red-black tree whose root may have
   * turned red; below a red node it stays red, and a red left child it may
   * have (a temporary 4-node) has a black left child, for the parent to split.
   */
  lemma {:induction false} InsertBelowColours<V>(h: Tree<V>, k: Key, v: V)
    requires RedBlack(h)
    ensures BlackBalanced(InsertBelow(h, k, v))
    ensures BlackHeight(InsertBelow(h, k, v)) == BlackHeight(h)
    ensures !IsRed(InsertBelow(h, k, v).right)
    ensures LeftLeaning(InsertBelow(h, k, v).left) && LeftLeaning(InsertBelow(h, k, v).right)
    ensures !IsRed(h) ==> LeftLeaning(InsertBelow(h, k, v))
    ensures IsRed(h) ==> IsRed(InsertBelow(h, k, v))
    ensures IsRed(h) && IsRed(InsertBelow(h, k, v).left) ==> !IsRed(InsertBelow(h, k, v).left.left)
    decreases h
  {
    if h.Node? {
      InsLeftRight(h, k, v);
      if k < h.key {
        InsertBelowColours(h.left, k, v);
        InsertLeftCase(h, InsertBelow(h.left, k, v));
      } else if k > h.key {
        InsertBelowColours(h.right, k, v);
        InsertRightCase(h, InsertBelow(h.right, k, v));
      } else {
        assert LeftLeaning(h.left);
        BalanceSettled(h.(val := v));
      }
    }
  }

  /** balance at `h` after its left link was replaced by `c`, the result of inserting below it. */
  lemma InsertLeftCase<V>(h: Tree<V>, c: Tree<V>)
    requires h.Node? && RedBlack(h) && c.Node?
    requires BlackBalanced(c) && BlackHeight(c) == BlackHeight(h.left)
    requires !IsRed(c.right) && LeftLeaning(c.left) && LeftLeaning(c.right)
    requires !IsRed(h.left) ==> LeftLeaning(c)
    requires IsRed(h.left) ==> IsRed(c) && (IsRed(c.left) ==> !IsRed(c.left.left))
    ensures var r := Balance(h.(left := c));
      && BlackBalanced(r) && BlackHeight(r) == BlackHeight(h)
      && !IsRed(r.right) && LeftLeaning(r.left) && LeftLeaning(r.right)
      && (!IsRed(h) ==> LeftLeaning(r))
      && (IsRed(h) ==> IsRed(r))
      && (IsRed(h) && IsRed(r.left) ==> !IsRed(r.left.left))
  {
    var h0 := h.(left := c);
    if IsRed(c) && IsRed(c.left) {
      RotateRightBlack(h0);
      FlipColorsBlack(RotateRight(h0));
    }
  }

  /** The right-link case, split by the colours of `c` and `h.left`. */
  lemma InsertRightCase<V>(h: Tree<V>, c: Tree<V>)
    requires h.Node? && RedBlack(h) && c.Node?
    requires BlackBalanced(c) && BlackHeight(c) == BlackHeight(h.right) && LeftLeaning(c)
    ensures var r := Balance(h.(right := c));
      && BlackBalanced(r) && BlackHeight(r) == BlackHeight(h)
      && !IsRed(r.right) && LeftLeaning(r.left) && LeftLeaning(r.right)
      && (!IsRed(h) ==> LeftLeaning(r))
      && (IsRed(h) ==> IsRed(r))
      && (IsRed(h) && IsRed(r.left) ==> !IsRed(r.left.left))
  {
    if !IsRed(c) {
      assert LeftLeaning(h.left);
      BalanceSettled(h.(right := c));
    } else if !IsRed(h.left) {
      RightRedLeftBlack(h, c);
    } else {
      RightRedLeftRed(h, c);
    }
  }

  /** A red right link under a node without a red left link becomes its red left link. */
  lemma RightRedLeftBlack<V>(h: Tree<V>, c: Tree<V>)
    requires h.Node? && RedBlack(h) && c.Node?
    requires BlackBalanced(c) && BlackHeight(c) == BlackHeight(h.right) && LeftLeaning(c)
    requires IsRed(c) && !IsRed(h.left)
    ensures var r := Balance(h.(right := c));
      && BlackBalanced(r) && BlackHeight(r) == BlackHeight(h)
      && !IsRed(r.right) && LeftLeaning(r.left) && LeftLeaning(r.right)
      && (!IsRed(h) ==> LeftLeaning(r))
      && (IsRed(h) ==> IsRed(r))
      && (IsRed(h) && IsRed(r.left) ==> !IsRed(r.left.left))
  {
    var h0 := h.(right := c);
    RotateLeftBlack(h0);
    var h1 := RotateLeft(h0);
    assert Balance(h0) == h1.(n := Size(h1.left) + Size(h1.right) + 1);
  }

  /** Red links on both sides of a black node: the 4-node is split and the node turns red. */
  lemma RightRedLeftRed<V>(h: Tree<V>, c: Tree<V>)
    requires h.Node? && RedBlack(h) && c.Node?
    requires BlackBalanced(c) && BlackHeight(c) == BlackHeight(h.right) && LeftLeaning(c)
    requires IsRed(c) && IsRed(h.left)
    ensures var r := Balance(h.(right := c));
      && BlackBalanced(r) && BlackHeight(r) == BlackHeight(h)
      && r.color == Red && !IsRed(r.left) && !IsRed(r.right)
      && LeftLeaning(r)
  {
    var h0 := h.(right := c);
    RotateLeftBlack(h0);
    var h1 := RotateLeft(h0);
    RotateRightBlack(h1);
    var h2 := RotateRight(h1);
    FlipColorsBlack(h2);
    var h3 := FlipColors(h2);
    assert LeftLeaning(h.left) && LeftLeaning(c.left) && LeftLeaning(c.right);
    assert LeftLeaning(h3.left) && LeftLeaning(h3.right);
    assert Balance(h0) == h3.(n := Size(h3.left) + Size(h3.right) + 1);
  }

  /**
   * insert(key, val) keeps a red-black tree red-black: the colour rules hold
   * afterwards, and the black height stays or grows by one (when the root
   * split).
   */
  lemma InsertColours<V>(t: Tree<V>, k: Key, v: V)
    requires RedBlack(t) && RootBlack(t)
    ensures RedBlack(InsertRoot(t, k, v))
    ensures BlackHeight(t) <= BlackHeight(InsertRoot(t, k, v)) <= BlackHeight(t) + 1
  {
    if t.Node? {
      InsertBelowColours(t, k, v);
    } else {
      InsertIntoEmpty(k, v);
    }
  }

  // ---- What the colour rules buy -----------------------------------------

  function Pow2(e: nat): nat
  {
    if e == 0 then 1 else 2 * Pow2(e - 1)
  }

  /** A black-balanced tree holds at least `2^bh - 1` entries. */
  lemma {:induction false} EntriesAboveBlackHeight<V>(t: Tree<V>)
    requires BlackBalanced(t)
    ensures Pow2(BlackHeight(t)) <= |Elements(t)| + 1
  {
    if t.Node? {
      EntriesAboveBlackHeight(t.left);
      EntriesAboveBlackHeight(t.right);
    }
  }

  /** Red links never follow one another, so a path is at most twice as long as its black part. */
  lemma {:induction false} HeightBelowBlackHeight<V>(t: Tree<V>)
    requires RedBlack(t)
    ensures Height(t) + 1 <= 2 * BlackHeight(t) + (if IsRed(t) then 1 else 0)
  {
    if t.Node? {
      HeightBelowBlackHeight(t.left);
      HeightBelowBlackHeight(t.right);
    }
  }

  /**
   * The height of a red-black tree with a black root is logarithmic in its
   * size: it is below twice the black height `bh`, and `2^bh <= size + 1`.
   */
  lemma HeightLogarithmic<V>(t: Tree<V>)
    requires RedBlack(t) && RootBlack(t)
    ensures Height(t) + 1 <= 2 * BlackHeight(t)
    ensures Pow2(BlackHeight(t)) <= |Elements(t)| + 1
  {
    HeightBelowBlackHeight(t);
    EntriesAboveBlackHeight(t);
  }
}
