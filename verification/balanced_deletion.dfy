/**
 * Top-down deletion that keeps the colour rules. The found key is handled
 * after the same right-hand preparation as a larger key: a red left link is
 * first turned to the right, a red leaf is removed, a red link is pushed into
 * the right subtree, and only then is the successor spliced in.
 */
module BalancedDeletion {
  import opened Entries
  import opened Trees
  import opened Repair
  import opened Deletion
  import opened Colours

  // ---- The colours along the descent ------------------------------------

  /** The colour rules hold below the top of `r`, whose right link is not red. */
  predicate LeansBelow<V>(r: Tree<V>)
  {
    r.Node? ==> !IsRed(r.right) && LeftLeaning(r.left) && LeftLeaning(r.right)
  }

  /**
   * The colours a node is entered with: black balanced, the colour rules
   * below it, and a red link at it or on its left (a node of a 3- or
   * 4-node); a red right link only at a red node with a black left link.
   */
  predicate DelEntry<V>(h: Tree<V>)
  {
    && h.Node? && BlackBalanced(h) && LeftLeaning(h.left) && LeftLeaning(h.right)
    && (IsRed(h) || IsRed(h.left))
    && (IsRed(h.right) ==> IsRed(h) && !IsRed(h.left))
  }

  /**
   * What the recursion hands back for a node `h` it entered: the same black
   * height, the colour rules below the top, and the rules everywhere when
   * `h` was black (then the result is black too) or a red node between two
   * black links.
   */
  predicate DelExit<V>(h: Tree<V>, r: Tree<V>)
    requires h.Node?
  {
    && BlackBalanced(r) && BlackHeight(r) == BlackHeight(h) && LeansBelow(r)
    && (!IsRed(h) ==> !IsRed(r) && LeftLeaning(r))
    && (IsRed(h) && !IsRed(h.left) && !IsRed(h.right) ==> LeftLeaning(r))
  }

  // ---- Going left --------------------------------------------------------

  /** The push before going left finds a right sibling, and the left child is entered as the descent expects. */
  lemma LeftDown<V>(h: Tree<V>)
    requires DelEntry(h) && !IsRed(h.right) && h.left.Node?
    ensures IsRed(h.left) || IsRed(h.left.left) || h.right.Node?
    ensures DelEntry(PushLeft(h).left) && !IsRed(PushLeft(h).left.right)
  {
    assert LeftLeaning(h.left) && LeftLeaning(h.right);
    if !IsRed(h.left) && !IsRed(h.left.left) {
      assert h.right.Node?;
      var f := FlipColors(h);
      assert BlackBalanced(h.left);
      assert BlackBalanced(f.left);
      if IsRed(f.right.left) {
        assert LeftLeaning(h.right.left);
        assert BlackBalanced(h.right);
        assert BlackBalanced(h.right.left);
        assert BlackBalanced(h.right.left.left);
        assert BlackHeight(h.left.left) == BlackHeight(h.right.left.left);
        var x := Node(Red, f.left, h.key, h.val, h.right.left.left, 0);
        assert BlackBalanced(x);
        assert PushLeft(h).left == x.(n := PushLeft(h).left.n);
      }
    }
  }

  /** balance on the way back from the left child. */
  lemma LeftUp<V>(h: Tree<V>, r: Tree<V>)
    requires DelEntry(h) && !IsRed(h.right) && h.left.Node?
    requires IsRed(h.left) || IsRed(h.left.left) || h.right.Node?
    requires DelExit(PushLeft(h).left, r)
    ensures DelExit(h, Balance(PushLeft(h).(left := r)))
  {
    assert LeftLeaning(h.left) && LeftLeaning(h.right);
    if IsRed(h.left) || IsRed(h.left.left) {
      BalanceSettled(h.(left := r));
    } else if IsRed(h.right.left) {
      LeftUpRotated(h, r);
    } else {
      LeftUpFlipped(h, r);
    }
  }

  /** moveRedLeft only flipped colours: the red right link is rotated back over the result. */
  lemma LeftUpFlipped<V>(h: Tree<V>, r: Tree<V>)
    requires DelEntry(h) && !IsRed(h.right) && h.left.Node? && h.right.Node?
    requires !IsRed(h.left) && !IsRed(h.left.left) && !IsRed(h.right.left)
    requires DelExit(FlipColors(h).left, r)
    ensures DelExit(h, Balance(FlipColors(h).(left := r)))
  {
    var f := FlipColors(h);
    var g0 := f.(left := r);
    assert LeftLeaning(h.left) && LeftLeaning(h.right);
    assert BlackBalanced(h.right) && BlackBalanced(f.right);
    RotateLeftBlack(g0);
    var g1 := RotateLeft(g0);
    if IsRed(r) {
      RotateRightBlack(g1);
      var g2 := RotateRight(g1);
      FlipColorsBlack(g2);
      var g3 := FlipColors(g2);
      assert LeftLeaning(g3.left) && LeftLeaning(g3.right);
      assert Balance(g0) == g3.(n := Size(g3.left) + Size(g3.right) + 1);
    } else {
      assert LeftLeaning(g1.left);
      assert Balance(g0) == g1.(n := Size(g1.left) + Size(g1.right) + 1);
    }
  }

  /** moveRedLeft borrowed the red left link of the right sibling. */
  lemma LeftUpRotated<V>(h: Tree<V>, r: Tree<V>)
    requires DelEntry(h) && !IsRed(h.right) && h.left.Node? && h.right.Node?
    requires !IsRed(h.left) && !IsRed(h.left.left) && IsRed(h.right.left)
    requires DelExit(MoveRedLeft(h).left, r)
    ensures DelExit(h, Balance(MoveRedLeft(h).(left := r)))
  {
    var m := MoveRedLeft(h);
    var g0 := m.(left := r);
    assert LeftLeaning(h.left) && LeftLeaning(h.right) && LeftLeaning(h.right.left);
    assert BlackBalanced(h.right);
    assert BlackBalanced(h.right.left);
    assert BlackBalanced(m.right);
    assert BlackHeight(m.left) == BlackHeight(m.right);
    RotateLeftBlack(g0);
    var g1 := RotateLeft(g0);
    if IsRed(r) {
      RotateRightBlack(g1);
      var g2 := RotateRight(g1);
      FlipColorsBlack(g2);
      var g3 := FlipColors(g2);
      assert LeftLeaning(g3.left) && LeftLeaning(g3.right);
      assert Balance(g0) == g3.(n := Size(g3.left) + Size(g3.right) + 1);
    } else {
      assert LeftLeaning(g1.left);
      assert Balance(g0) == g1.(n := Size(g1.left) + Size(g1.right) + 1);
    }
  }

  // ---- Going right or at the key -----------------------------------------

  /**
   * After a red left link is turned to the right, a null right link means a
   * red leaf, which may simply be dropped. Otherwise the push before going
   * right finds a left sibling and the right child is entered as the descent
   * expects; a red right link under it comes only from the rotation after
   * moveRedRight, which leaves the key of `h` there and that of `h.left` above.
   */
  lemma RightDown<V>(h: Tree<V>)
    requires DelEntry(h)
    ensures var h1 := LeanRight(h);
      && (h1.right.Leaf? ==> h1.left.Leaf? && DelExit(h, Leaf))
      && (h1.right.Node? ==>
            && (IsRed(h1.right) || IsRed(h1.right.left) || h1.left.Node?)
            && DelEntry(PushRight(h1).right)
            && (IsRed(PushRight(h1).right.right) ==>
                  PushRight(h1).right.key == h.key && h.left.Node? && PushRight(h1).key == h.left.key))
  {
    assert LeftLeaning(h.left) && LeftLeaning(h.right);
    assert BlackBalanced(h.left) && BlackBalanced(h.right);
    if IsRed(h.left) {
      assert LeftLeaning(h.left.right) && BlackBalanced(h.left.right);
    } else if h.right.Node? && !IsRed(h.right) && !IsRed(h.right.left) {
      assert h.left.Node?;
      var f := FlipColors(h);
      assert BlackBalanced(f.right);
      if IsRed(f.left.left) {
        assert BlackBalanced(h.left.right);
        var x := Node(Red, h.left.right, h.key, h.val, f.right, 0);
        assert BlackBalanced(x);
        assert PushRight(h).right == x.(n := PushRight(h).right.n);
      }
    }
  }

  /**
   * balance on the way back from the right child, whose result `r` is hung
   * back at the node, which may meanwhile have taken the successor's key and
   * value `kk`, `vv`.
   */
  lemma RightUp<V>(h: Tree<V>, r: Tree<V>, kk: Key, vv: V)
    requires DelEntry(h)
    requires LeanRight(h).right.Node?
    requires var h1 := LeanRight(h); IsRed(h1.right) || IsRed(h1.right.left) || h1.left.Node?
    requires DelExit(PushRight(LeanRight(h)).right, r)
    ensures DelExit(h, Balance(PushRight(LeanRight(h)).(right := r, key := kk, val := vv)))
  {
    assert LeftLeaning(h.left) && LeftLeaning(h.right);
    if IsRed(h.left) {
      RightUpTurned(h, r, kk, vv);
    } else if IsRed(h.right) {
      RightUpRed(h, r, kk, vv);
    } else if IsRed(h.right.left) {
      assert LeftLeaning(h.right);
      BalanceSettled(h.(right := r, key := kk, val := vv));
    } else if IsRed(h.left.left) {
      RightUpRotated(h, r, kk, vv);
    } else {
      RightUpFlipped(h, r, kk, vv);
    }
  }

  /** The red left link was turned to the right before descending. */
  lemma RightUpTurned<V>(h: Tree<V>, r: Tree<V>, kk: Key, vv: V)
    requires DelEntry(h) && IsRed(h.left)
    requires DelExit(RotateRight(h).right, r)
    ensures DelExit(h, Balance(RotateRight(h).(right := r, key := kk, val := vv)))
  {
    var g0 := RotateRight(h).(right := r, key := kk, val := vv);
    assert LeftLeaning(h.left) && LeftLeaning(h.right);
    assert BlackBalanced(h.left);
    if IsRed(r) {
      RotateLeftBlack(g0);
      var g1 := RotateLeft(g0);
      assert LeftLeaning(g1.left);
      assert Balance(g0) == g1.(n := Size(g1.left) + Size(g1.right) + 1);
    } else {
      BalanceSettled(g0);
    }
  }

  /** The right link was already red: no push was needed. */
  lemma RightUpRed<V>(h: Tree<V>, r: Tree<V>, kk: Key, vv: V)
    requires DelEntry(h) && !IsRed(h.left) && IsRed(h.right)
    requires DelExit(h.right, r)
    ensures DelExit(h, Balance(h.(right := r, key := kk, val := vv)))
  {
    var g0 := h.(right := r, key := kk, val := vv);
    assert LeftLeaning(h.right);
    if IsRed(r) {
      RotateLeftBlack(g0);
      var g1 := RotateLeft(g0);
      assert LeftLeaning(g1.left);
      assert Balance(g0) == g1.(n := Size(g1.left) + Size(g1.right) + 1);
    } else {
      BalanceSettled(g0);
    }
  }

  /** moveRedRight only flipped colours. */
  lemma RightUpFlipped<V>(h: Tree<V>, r: Tree<V>, kk: Key, vv: V)
    requires DelEntry(h) && h.left.Node? && h.right.Node?
    requires !IsRed(h.left) && !IsRed(h.right) && !IsRed(h.right.left) && !IsRed(h.left.left)
    requires DelExit(FlipColors(h).right, r)
    ensures DelExit(h, Balance(FlipColors(h).(right := r, key := kk, val := vv)))
  {
    var f := FlipColors(h);
    var g0 := f.(right := r, key := kk, val := vv);
    assert LeftLeaning(h.left) && LeftLeaning(h.right);
    assert BlackBalanced(h.left) && BlackBalanced(f.left);
    if IsRed(r) {
      RotateLeftBlack(g0);
      var g1 := RotateLeft(g0);
      RotateRightBlack(g1);
      var g2 := RotateRight(g1);
      FlipColorsBlack(g2);
      var g3 := FlipColors(g2);
      assert LeftLeaning(g3.left) && LeftLeaning(g3.right);
      assert Balance(g0) == g3.(n := Size(g3.left) + Size(g3.right) + 1);
    } else {
      BalanceSettled(g0);
    }
  }

  /** moveRedRight borrowed the red left link of the left sibling. */
  lemma RightUpRotated<V>(h: Tree<V>, r: Tree<V>, kk: Key, vv: V)
    requires DelEntry(h) && h.left.Node? && h.right.Node?
    requires !IsRed(h.left) && !IsRed(h.right) && !IsRed(h.right.left) && IsRed(h.left.left)
    requires DelExit(MoveRedRight(h).right, r)
    ensures DelExit(h, Balance(MoveRedRight(h).(right := r, key := kk, val := vv)))
  {
    var m := MoveRedRight(h);
    var g0 := m.(right := r, key := kk, val := vv);
    assert LeftLeaning(h.left) && LeftLeaning(h.right) && LeftLeaning(h.left.left);
    assert BlackBalanced(h.left);
    assert BlackBalanced(h.left.left);
    if IsRed(r) {
      RotateLeftBlack(g0);
      var g1 := RotateLeft(g0);
      RotateRightBlack(g1);
      var g2 := RotateRight(g1);
      FlipColorsBlack(g2);
      var g3 := FlipColors(g2);
      assert LeftLeaning(g3.left) && LeftLeaning(g3.right);
      assert Balance(g0) == g3.(n := Size(g3.left) + Size(g3.right) + 1);
    } else {
      BalanceSettled(g0);
    }
  }

  // ---- The corrected recursion ------------------------------------------

  /** Going right towards, or standing at, `k`: where the two right-hand steps leave it. */
  lemma DescendAtOrRight<V>(c: Tree<V>, k: Key)
    requires c.Node? && Ordered(c) && HasKey(Elements(c), k) && k >= c.key
    ensures var c1 := LeanRight(c);
      && c1.Node? && Ordered(c1) && Elements(c1) == Elements(c) && c1.key <= k
      && (c1.right.Leaf? ==> k == c1.key)
    ensures var c1 := LeanRight(c);
      c1.right.Node? && (IsRed(c1.right) || IsRed(c1.right.left) || c1.left.Node?) ==>
      var c2 := PushRight(c1);
      && c2.right.Node? && Ordered(c2) && Elements(c2) == Elements(c) && c2.key <= k
      && (k != c2.key ==>
            && Ordered(c2.right) && HasKey(Elements(c2.right), k)
            && |Elements(c2.right)| < |Elements(c)|)
  {
    var c1 := LeanRight(c);
    LeanRightSpec(c);
    SearchStep(c1, k);
    if c1.right.Node? && (IsRed(c1.right) || IsRed(c1.right.left) || c1.left.Node?) {
      var c2 := PushRight(c1);
      PushRightSpec(c1);
      SearchStep(c2, k);
    }
  }

  /**
   * The corrected delete runs without a null dereference and drops no
   * subtree: every push finds its sibling, the unlinked red leaf has no left
   * subtree, and findReplacement is defined where the successor is taken.
   */
  ghost predicate BalancedDefined<V>(c: Tree<V>, k: Key)
    requires c.Node? && Ordered(c) && HasKey(Elements(c), k)
    decreases |Elements(c)|
  {
    if k < c.key then
      DescendLeft(c, k);
      && (IsRed(c.left) || IsRed(c.left.left) || c.right.Node?)
      && BalancedDefined(PushLeft(c).left, k)
    else
      DescendAtOrRight(c, k);
      var c1 := LeanRight(c);
      if k == c1.key && c1.right.Leaf? then c1.left.Leaf?
      else
        && (IsRed(c1.right) || IsRed(c1.right.left) || c1.left.Node?)
        && var c2 := PushRight(c1);
           if k == c2.key then ReplacementDefined(c2.right)
           else BalancedDefined(c2.right, k)
  }

  /**
   * delete(compare, deleteIt) with the key-found case moved behind the
   * right-hand preparation: a red left link is turned right, a red leaf is
   * unlinked, a red link is pushed right, and then the successor takes the
   * node's place.
   */
  function BalancedDel<V>(c: Tree<V>, k: Key): Tree<V>
    requires c.Node? && Ordered(c) && HasKey(Elements(c), k) && BalancedDefined(c, k)
    decreases |Elements(c)|
  {
    if k < c.key then
      DescendLeft(c, k);
      var c1 := PushLeft(c);
      Balance(c1.(left := BalancedDel(c1.left, k)))
    else
      DescendAtOrRight(c, k);
      var c1 := LeanRight(c);
      if k == c1.key && c1.right.Leaf? then Leaf
      else
        var c2 := PushRight(c1);
        if k == c2.key then SpliceSuccessor(c2)
        else Balance(c2.(right := BalancedDel(c2.right, k)))
  }

  /** The public delete over the corrected recursion, on a red-black tree with a black root. */
  function BalancedDeleteRoot<V>(t: Tree<V>, k: Key): Tree<V>
    requires Ordered(t) && RedBlack(t) && RootBlack(t)
  {
    if t.Leaf? || !HasKey(Elements(t), k) then t
    else
      PrepareRootEntry(t);
      BalancedDelColours(PrepareRoot(t), k);
      var r := BalancedDel(PrepareRoot(t), k);
      if r.Leaf? then r else r.(color := Black)
  }

  // ---- What the corrected delete does to the entries ---------------------

  /** The corrected recursion removes the entry of `k` and keeps every count exact. */
  lemma {:induction false} BalancedDelElements<V>(c: Tree<V>, k: Key)
    requires c.Node? && Ordered(c) && HasKey(Elements(c), k) && BalancedDefined(c, k)
    ensures Elements(BalancedDel(c, k)) == Remove(Elements(c), k)
    ensures SizesOk(c) ==> SizesOk(BalancedDel(c, k))
    decreases |Elements(c)|
  {
    if k < c.key {
      DescendLeft(c, k);
      var c1 := PushLeft(c);
      PushLeftSpec(c);
      BalancedDelElements(c1.left, k);
      var c2 := c1.(left := BalancedDel(c1.left, k));
      BalanceElements(c2);
      BalanceSized(c2);
      RemoveLeft(Elements(c1.left), Entry(c1.key, c1.val), Elements(c1.right), k);
    } else {
      DescendAtOrRight(c, k);
      var c1 := LeanRight(c);
      LeanRightSpec(c);
      if k == c1.key && c1.right.Leaf? {
        RemoveMiddle(Elements(c1.left), Entry(c1.key, c1.val), Elements(c1.right));
      } else {
        var c2 := PushRight(c1);
        PushRightSpec(c1);
        if k == c2.key {
          SpliceSuccessorElements(c2);
        } else {
          BalancedDelElements(c2.right, k);
          var c3 := c2.(right := BalancedDel(c2.right, k));
          BalanceElements(c3);
          BalanceSized(c3);
          RemoveRight(Elements(c2.left), Entry(c2.key, c2.val), Elements(c2.right), k);
        }
      }
    }
  }

  // ---- What the corrected delete does to the colours ---------------------

  /** A node entered with a null left link is a red leaf. */
  lemma RedLeaf<V>(h: Tree<V>)
    requires DelEntry(h) && h.left.Leaf? && !IsRed(h.right)
    ensures h.right.Leaf? && IsRed(h) && BlackHeight(h) == 0
  {
  }

  /** findReplacement on a subtree entered as the descent expects: defined, and the colours come back as promised. */
  lemma {:induction false} MinColours<V>(d: Tree<V>, mk: Key)
    requires d.Node? && Ordered(d) && mk == Elements(d)[0].key
    requires DelEntry(d) && !IsRed(d.right)
    ensures ReplacementDefined(d) && DelExit(d, FindReplacement(d, mk))
    decreases |Elements(d)|
  {
    DescendToMin(d, mk);
    if d.left.Leaf? {
      RedLeaf(d);
    } else {
      LeftDown(d);
      var d1 := PushLeft(d);
      MinColours(d1.left, mk);
      LeftUp(d, FindReplacement(d1.left, mk));
    }
  }

  /**
   * The corrected recursion on a node entered as the descent expects (a red
   * right link only when `k` is not below its key): defined, and the colours
   * come back as promised.
   */
  lemma {:induction false} BalancedDelColours<V>(c: Tree<V>, k: Key)
    requires c.Node? && Ordered(c) && HasKey(Elements(c), k)
    requires DelEntry(c) && (IsRed(c.right) ==> c.key <= k)
    ensures BalancedDefined(c, k) && DelExit(c, BalancedDel(c, k))
    decreases |Elements(c)|, 1
  {
    if k < c.key {
      DescendLeft(c, k);
      LeftDown(c);
      var c1 := PushLeft(c);
      BalancedDelColours(c1.left, k);
      LeftUp(c, BalancedDel(c1.left, k));
    } else {
      BalancedDelColoursRight(c, k);
    }
  }

  /** The case `k >= c.key` of `BalancedDelColours`. */
  lemma {:induction false} BalancedDelColoursRight<V>(c: Tree<V>, k: Key)
    requires c.Node? && Ordered(c) && HasKey(Elements(c), k) && c.key <= k
    requires DelEntry(c)
    ensures BalancedDefined(c, k) && DelExit(c, BalancedDel(c, k))
    decreases |Elements(c)|, 0
  {
    DescendAtOrRight(c, k);
    RightDown(c);
    var c1 := LeanRight(c);
    if !(k == c1.key && c1.right.Leaf?) {
      var c2 := PushRight(c1);
      OrderedNode(c);
      if k == c2.key {
        FoundColours(c, k);
      } else {
        BalancedDelColours(c2.right, k);
        var r := BalancedDel(c2.right, k);
        RightUp(c, r, c2.key, c2.val);
        assert c2.(right := r, key := c2.key, val := c2.val) == c2.(right := r);
      }
    }
  }

  /**
   * The key found at the node after the right-hand preparation: the
   * successor can be unlinked, and splicing it in keeps the colours the
   * recursion promises.
   */
  lemma FoundColours<V>(c: Tree<V>, k: Key)
    requires c.Node? && Ordered(c) && DelEntry(c) && c.key <= k
    requires LeanRight(c).right.Node?
    requires var c1 := LeanRight(c); IsRed(c1.right) || IsRed(c1.right.left) || c1.left.Node?
    requires var c2 := PushRight(LeanRight(c)); c2.key == k && Ordered(c2)
    ensures var c2 := PushRight(LeanRight(c));
      && c2.right.Node? && ReplacementDefined(c2.right)
      && DelExit(c, SpliceSuccessor(c2))
  {
    RightDown(c);
    OrderedNode(c);
    if c.left.Node? {
      assert Elements(c.left)[|Elements(c.left.left)|].key == c.left.key < c.key;
    }
    var c2 := PushRight(LeanRight(c));
    OrderedNode(c2);
    MinColours(c2.right, Elements(c2.right)[0].key);
    var s := Elements(c2.right)[0];
    RightUp(c, FindReplacement(c2.right, s.key), s.key, s.val);
  }

  /** The root as delete prepares it is entered as the descent expects. */
  lemma PrepareRootEntry<V>(t: Tree<V>)
    requires t.Node? && RedBlack(t) && RootBlack(t)
    ensures DelEntry(PrepareRoot(t)) && !IsRed(PrepareRoot(t).right)
    ensures BlackHeight(PrepareRoot(t)) == if IsRed(PrepareRoot(t)) then BlackHeight(t) - 1 else BlackHeight(t)
  {
  }

  /**
   * The corrected delete(key) on a red-black tree with a black root, ordered
   * keys and exact counts: it never dereferences null, removes the entry of
   * `key` and nothing else, keeps the keys increasing, every count exact and
   * the colour rules, and the black height stays or drops by one.
   */
  lemma BalancedDeleteCorrect<V>(t: Tree<V>, k: Key)
    requires Ordered(t) && SizesOk(t) && RedBlack(t) && RootBlack(t)
    ensures t.Node? && HasKey(Elements(t), k) ==> BalancedDefined(PrepareRoot(t), k)
    ensures Elements(BalancedDeleteRoot(t, k)) == Remove(Elements(t), k)
    ensures Ordered(BalancedDeleteRoot(t, k)) && SizesOk(BalancedDeleteRoot(t, k))
    ensures RedBlack(BalancedDeleteRoot(t, k)) && RootBlack(BalancedDeleteRoot(t, k))
    ensures BlackHeight(t) - 1 <= BlackHeight(BalancedDeleteRoot(t, k)) <= BlackHeight(t)
    ensures Size(BalancedDeleteRoot(t, k)) == if HasKey(Elements(t), k) then Size(t) - 1 else Size(t)
  {
    if t.Node? && HasKey(Elements(t), k) {
      var p := PrepareRoot(t);
      PrepareRootEntry(t);
      BalancedDelColours(p, k);
      BalancedDelElements(p, k);
      var r := BalancedDel(p, k);
      if r.Node? {
        assert LeftLeaning(r.(color := Black));
      }
    } else {
      RemoveAbsent(Elements(t), k);
    }
    RemoveSorted(Elements(t), k);
    RemoveLength(Elements(t), k);
    SizeIsCount(t);
    SizeIsCount(BalancedDeleteRoot(t, k));
  }

  // ---- The colours after delete, as written and corrected ----------------

  /** The tree of three inserts is a red-black tree with a black root. */
  lemma ThreeKeysRedBlack<V>(k1: Key, k2: Key, k3: Key, v1: V, v2: V, v3: V)
    ensures RedBlack(ThreeKeys(k1, k2, k3, v1, v2, v3)) && RootBlack(ThreeKeys(k1, k2, k3, v1, v2, v3))
  {
  }

  /**
   * As written, deleting k2 from `ThreeKeys` leaves k3 at a black root with
   * a black left child and a null right link, which is not black balanced;
   * deleting k1 next reaches moveRedLeft at that root with a null right link,
   * which flipColors dereferences.
   */
  lemma DeleteBreaksBalance<V>(k1: Key, k2: Key, k3: Key, v1: V, v2: V, v3: V)
    requires k1 < k2 < k3
    ensures var t := ThreeKeys(k1, k2, k3, v1, v2, v3);
      && Ordered(t) && HasKey(Elements(t), k2) && DeleteDefined(PrepareRoot(t), k2)
      && DeleteRoot(t, k2) == Node(Black, Node(Black, Leaf, k1, v1, Leaf, 1), k3, v3, Leaf, 2)
      && !BlackBalanced(DeleteRoot(t, k2))
    ensures var u: Tree<V> := Node(Black, Node(Black, Leaf, k1, v1, Leaf, 1), k3, v3, Leaf, 2);
      && Ordered(u) && HasKey(Elements(u), k1) && !DeleteDefined(PrepareRoot(u), k1)
  {
    ThreeKeysShape(k1, k2, k3, v1, v2, v3);
    ThreeKeysDeletable(k1, k2, k3, v1, v2, v3);
    var t := ThreeKeys(k1, k2, k3, v1, v2, v3);
    var p := PrepareRoot(t);
    var leaf: Tree<V> := Leaf;
    var l := Node(Black, leaf, k1, v1, leaf, 1);
    var u := Node(Black, l, k3, v3, leaf, 2);
    assert Elements(p.right)[0] == Entry(k3, v3);
    assert FindReplacement(p.right, k3) == leaf;
    assert SpliceSuccessor(p) == Node(Red, l, k3, v3, leaf, 2);
    assert DeleteRoot(t, k2) == u;
    assert Elements(l) == [Entry(k1, v1)];
    assert Elements(u) == [Entry(k1, v1), Entry(k3, v3)];
    assert Elements(u)[0].key == k1;
  }

  /** Corrected, the same two deletes leave red-black trees: the single entry of k3, at a black root. */
  lemma DeleteKeepsBalance<V>(k1: Key, k2: Key, k3: Key, v1: V, v2: V, v3: V)
    requires k1 < k2 < k3
    ensures var t := ThreeKeys(k1, k2, k3, v1, v2, v3);
      && Ordered(t) && SizesOk(t) && RedBlack(t) && RootBlack(t)
      && var u := BalancedDeleteRoot(t, k2);
      && Ordered(u) && SizesOk(u) && RedBlack(u) && RootBlack(u)
      && Elements(u) == [Entry(k1, v1), Entry(k3, v3)]
      && RedBlack(BalancedDeleteRoot(u, k1))
      && Elements(BalancedDeleteRoot(u, k1)) == [Entry(k3, v3)]
  {
    ThreeKeysShape(k1, k2, k3, v1, v2, v3);
    ThreeKeysRedBlack(k1, k2, k3, v1, v2, v3);
    var t := ThreeKeys(k1, k2, k3, v1, v2, v3);
    var e := Elements(t);
    BalancedDeleteCorrect(t, k2);
    var u := BalancedDeleteRoot(t, k2);
    assert e[1..] == [Entry(k2, v2), Entry(k3, v3)];
    assert e[1..][1..] == [Entry(k3, v3)];
    assert Remove(e[1..][1..], k2) == [Entry(k3, v3)];
    assert Elements(u) == [Entry(k1, v1), Entry(k3, v3)];
    BalancedDeleteCorrect(u, k1);
    var eu := Elements(u);
    assert eu[1..] == [Entry(k3, v3)];
    assert Remove(eu[1..], k1) == [Entry(k3, v3)];
  }
}
