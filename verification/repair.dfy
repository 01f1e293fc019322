/**
 * The local repairs of the left-leaning red-black tree. The Java code rewires
 * the fields of `h` and its children in place and returns the new subtree
 * root; each function here returns that rebuilt subtree.
 */
module Repair {
  import opened Entries
  import opened Trees

  function Flip(c: Color): Color
  {
    if c == Red then Black else Red
  }

  /** Makes a left-leaning link lean to the right. */
  function RotateRight<V>(h: Tree<V>): (x: Tree<V>)
    requires h.Node? && h.left.Node?
    ensures x.Node? && x.right.Node?
    ensures Elements(x) == Elements(h)
    ensures x.key == h.left.key && x.right.key == h.key
    ensures x.color == h.color && x.right.color == Red
    ensures x.n == h.n && x.right.n == Size(x.right.left) + Size(x.right.right) + 1
  {
    var l := h.left;
    var demoted := Node(Red, l.right, h.key, h.val, h.right, Size(l.right) + Size(h.right) + 1);
    Node(h.color, l.left, l.key, l.val, demoted, h.n)
  }

  /** Makes a right-leaning link lean to the left. */
  function RotateLeft<V>(h: Tree<V>): (x: Tree<V>)
    requires h.Node? && h.right.Node?
    ensures x.Node? && x.left.Node?
    ensures Elements(x) == Elements(h)
    ensures x.key == h.right.key && x.left.key == h.key
    ensures x.color == h.color && x.left.color == Red
    ensures x.n == h.n && x.left.n == Size(x.left.left) + Size(x.left.right) + 1
  {
    var r := h.right;
    var demoted := Node(Red, h.left, h.key, h.val, r.left, Size(h.left) + Size(r.left) + 1);
    Node(h.color, demoted, r.key, r.val, r.right, h.n)
  }

  /** Every colour of a tree erased; two trees with equal images differ in colours only. */
  function Uncolored<V>(t: Tree<V>): Tree<V>
  {
    match t
    case Leaf => Leaf
    case Node(_, l, k, v, r, n) => Node(Black, Uncolored(l), k, v, Uncolored(r), n)
  }

  /** Negates the colour of `h` and of its two children. */
  function FlipColors<V>(h: Tree<V>): (r: Tree<V>)
    requires h.Node? && h.left.Node? && h.right.Node?
    ensures r.Node? && r.left.Node? && r.right.Node?
    ensures r.color == Flip(h.color)
    ensures r.left.color == Flip(h.left.color) && r.right.color == Flip(h.right.color)
    ensures r.left.left == h.left.left && r.left.right == h.left.right
    ensures r.right.left == h.right.left && r.right.right == h.right.right
    ensures Uncolored(r) == Uncolored(h)
  {
    h.(color := Flip(h.color),
       left := h.left.(color := Flip(h.left.color)),
       right := h.right.(color := Flip(h.right.color)))
  }

  /**
   * Assuming `h` is red and `h.left`, `h.left.left` are black, makes `h.left`
   * or one of its children red, borrowing from the right sibling.
   */
  function MoveRedLeft<V>(h: Tree<V>): (r: Tree<V>)
    requires h.Node? && h.left.Node? && h.right.Node?
    ensures r.Node? && r.left.Node?
    ensures r.n == h.n
  {
    var f := FlipColors(h);
    if IsRed(f.right.left) then RotateLeft(f.(right := RotateRight(f.right))) else f
  }

  /**
   * Assuming `h` is red and `h.right`, `h.right.left` are black, makes
   * `h.right` or one of its children red, borrowing from the left sibling.
   */
  function MoveRedRight<V>(h: Tree<V>): (r: Tree<V>)
    requires h.Node? && h.left.Node? && h.right.Node?
    ensures r.Node? && r.right.Node?
    ensures r.n == h.n
  {
    var f := FlipColors(h);
    if IsRed(f.left.left) then RotateRight(f) else f
  }

  /** Restores the red-black shape at `h` and recomputes its count. */
  function Balance<V>(h: Tree<V>): (r: Tree<V>)
    requires h.Node?
    ensures r.Node?
    ensures r.n == Size(r.left) + Size(r.right) + 1
  {
    var h1 := if IsRed(h.right) then RotateLeft(h) else h;
    var h2 := if IsRed(h1.left) && IsRed(h1.left.left) then RotateRight(h1) else h1;
    var h3 := if IsRed(h2.left) && IsRed(h2.right) then FlipColors(h2) else h2;
    h3.(n := Size(h3.left) + Size(h3.right) + 1)
  }

  /** A node `Balance` has nothing to repair at. */
  predicate Settled<V>(h: Tree<V>)
  {
    h.Node? && !IsRed(h.right) && !(IsRed(h.left) && IsRed(h.left.left))
    && !(IsRed(h.left) && IsRed(h.right))
  }

  // ---- Order and content -------------------------------------------------

  lemma FlipColorsElements<V>(h: Tree<V>)
    requires h.Node? && h.left.Node? && h.right.Node?
    ensures Elements(FlipColors(h)) == Elements(h)
  {
  }

  /** Flipping twice restores the node: the colour flip is its own inverse. */
  lemma FlipColorsInvolution<V>(h: Tree<V>)
    requires h.Node? && h.left.Node? && h.right.Node?
    ensures FlipColors(FlipColors(h)) == h
  {
    assert Flip(Flip(h.color)) == h.color;
    assert Flip(Flip(h.left.color)) == h.left.color;
    assert Flip(Flip(h.right.color)) == h.right.color;
  }

  /**
   * moveRedLeft keeps the in-order entries and the count, and under its
   * precondition (`h.left` black) leaves the new left child red.
   */
  lemma MoveRedLeftSpec<V>(h: Tree<V>)
    requires h.Node? && h.left.Node? && h.right.Node?
    ensures Elements(MoveRedLeft(h)) == Elements(h)
    ensures !IsRed(h.left) ==> IsRed(MoveRedLeft(h).left)
    ensures Ordered(h) ==> h.key <= MoveRedLeft(h).key
  {
    var f := FlipColors(h);
    FlipColorsElements(h);
    if IsRed(f.right.left) {
      var g := f.(right := RotateRight(f.right));
      assert Elements(g) == Elements(f);
      if Ordered(h) {
        OrderedNode(h);
        var rr := h.right;
        var idx := |Elements(rr.left.left)|;
        assert Elements(rr.left)[idx] == Entry(rr.left.key, rr.left.val);
        assert Elements(rr)[idx] == Elements(rr.left)[idx];
      }
    }
  }

  /**
   * moveRedRight keeps the in-order entries and the count, and under its
   * precondition (`h.right` black) leaves the new right child red.
   */
  lemma MoveRedRightSpec<V>(h: Tree<V>)
    requires h.Node? && h.left.Node? && h.right.Node?
    ensures Elements(MoveRedRight(h)) == Elements(h)
    ensures !IsRed(h.right) ==> IsRed(MoveRedRight(h).right)
    ensures Ordered(h) ==> MoveRedRight(h).key <= h.key
  {
    FlipColorsElements(h);
    if Ordered(h) {
      OrderedNode(h);
      var idx := |Elements(h.left.left)|;
      assert Elements(h.left)[idx] == Entry(h.left.key, h.left.val);
    }
  }

  /** balance keeps the in-order entries. */
  lemma BalanceElements<V>(h: Tree<V>)
    requires h.Node?
    ensures Elements(Balance(h)) == Elements(h)
  {
    var h1 := if IsRed(h.right) then RotateLeft(h) else h;
    var h2 := if IsRed(h1.left) && IsRed(h1.left.left) then RotateRight(h1) else h1;
    if IsRed(h2.left) && IsRed(h2.right) {
      FlipColorsElements(h2);
    }
  }

  // ---- Counts ------------------------------------------------------------

  /** rotateLeft recomputes the demoted count and hands `h`'s count to the new root. */
  lemma RotateLeftSized<V>(h: Tree<V>)
    requires h.Node? && h.right.Node?
    ensures ChildrenSized(h) ==> ChildrenSized(RotateLeft(h))
    ensures SizesOk(h) ==> SizesOk(RotateLeft(h))
  {
    if ChildrenSized(h) {
      assert SizesOk(h.right.left) && SizesOk(h.right.right);
    }
    if SizesOk(h) {
      var x := RotateLeft(h);
      SizeIsCount(h);
      SizeIsCount(x.left);
      SizeIsCount(x.right);
    }
  }

  /** rotateRight recomputes the demoted count and hands `h`'s count to the new root. */
  lemma RotateRightSized<V>(h: Tree<V>)
    requires h.Node? && h.left.Node?
    ensures ChildrenSized(h) ==> ChildrenSized(RotateRight(h))
    ensures SizesOk(h) ==> SizesOk(RotateRight(h))
  {
    if ChildrenSized(h) {
      assert SizesOk(h.left.left) && SizesOk(h.left.right);
    }
    if SizesOk(h) {
      var x := RotateRight(h);
      SizeIsCount(h);
      SizeIsCount(x.left);
      SizeIsCount(x.right);
    }
  }

  /** flipColors leaves every count as it was. */
  lemma FlipColorsSized<V>(h: Tree<V>)
    requires h.Node? && h.left.Node? && h.right.Node?
    ensures FlipColors(h).n == h.n
    ensures ChildrenSized(h) ==> ChildrenSized(FlipColors(h))
    ensures SizesOk(h) ==> SizesOk(FlipColors(h))
  {
  }

  lemma MoveRedLeftSized<V>(h: Tree<V>)
    requires h.Node? && h.left.Node? && h.right.Node?
    ensures SizesOk(h) ==> SizesOk(MoveRedLeft(h))
  {
    var f := FlipColors(h);
    FlipColorsSized(h);
    if IsRed(f.right.left) {
      RotateRightSized(f.right);
      RotateLeftSized(f.(right := RotateRight(f.right)));
    }
  }

  lemma MoveRedRightSized<V>(h: Tree<V>)
    requires h.Node? && h.left.Node? && h.right.Node?
    ensures SizesOk(h) ==> SizesOk(MoveRedRight(h))
  {
    var f := FlipColors(h);
    FlipColorsSized(h);
    if IsRed(f.left.left) {
      RotateRightSized(f);
    }
  }

  /** balance leaves every count exact once the children's counts are. */
  lemma BalanceSized<V>(h: Tree<V>)
    requires h.Node?
    ensures ChildrenSized(h) ==> SizesOk(Balance(h))
  {
    var h1 := if IsRed(h.right) then RotateLeft(h) else h;
    if IsRed(h.right) {
      RotateLeftSized(h);
    }
    var h2 := if IsRed(h1.left) && IsRed(h1.left.left) then RotateRight(h1) else h1;
    if IsRed(h1.left) && IsRed(h1.left.left) {
      RotateRightSized(h1);
    }
    if IsRed(h2.left) && IsRed(h2.right) {
      FlipColorsSized(h2);
    }
  }

  /** On a settled node balance only recomputes the count, so applying it twice changes nothing more. */
  lemma BalanceSettled<V>(h: Tree<V>)
    requires Settled(h)
    ensures Balance(h) == h.(n := Size(h.left) + Size(h.right) + 1)
    ensures Balance(Balance(h)) == Balance(h)
  {
  }
}
