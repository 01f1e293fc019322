/**
 * The node record of the left-leaning red-black tree: key, value, the colour
 * of the link from its parent, its two links and a cached subtree count `n`.
 * The count is a stored field, so a node may carry a stale one; `SizesOk`
 * says when every count in a tree is exact.
 */
module Trees {
  import opened Wrappers
  import opened Entries

  datatype Color = Red | Black

  datatype Tree<V> =
    | Leaf
    | Node(color: Color, left: Tree<V>, key: Key, val: V, right: Tree<V>, n: int)

  /** A null link counts as black. */
  predicate IsRed<V>(x: Tree<V>)
  {
    x.Node? && x.color == Red
  }

  /** The cached count of a subtree; 0 for a null link. */
  function Size<V>(x: Tree<V>): int
  {
    if x.Leaf? then 0 else x.n
  }

  /** The in-order sequence of (key, value) entries. */
  function Elements<V>(t: Tree<V>): seq<Entry<V>>
  {
    match t
    case Leaf => []
    case Node(_, l, k, v, r, _) => Elements(l) + [Entry(k, v)] + Elements(r)
  }

  /** The in-order key list the order-statistics queries materialise. */
  function Keys<V>(t: Tree<V>): seq<Key>
  {
    KeysOf(Elements(t))
  }

  /** Binary-search-tree order. */
  predicate Ordered<V>(t: Tree<V>)
  {
    Sorted(Elements(t))
  }

  /** Every cached count equals the number of nodes below and including it. */
  predicate SizesOk<V>(t: Tree<V>)
  {
    match t
    case Leaf => true
    case Node(_, l, _, _, r, n) => n == Size(l) + Size(r) + 1 && SizesOk(l) && SizesOk(r)
  }

  /** Both subtrees have exact counts; the node's own count may be stale. */
  predicate ChildrenSized<V>(t: Tree<V>)
  {
    t.Node? ==> SizesOk(t.left) && SizesOk(t.right)
  }

  /** The colour of the root link after every public operation. */
  predicate RootBlack<V>(t: Tree<V>)
  {
    t.Node? ==> t.color == Black
  }

  /** The recursive height: -1 for a null link, a single node has height 0. */
  function Height<V>(t: Tree<V>): int
  {
    if t.Leaf? then -1
    else 1 + (if Height(t.left) >= Height(t.right) then Height(t.left) else Height(t.right))
  }

  lemma KeysNode<V>(t: Tree<V>)
    requires t.Node?
    ensures Keys(t) == Keys(t.left) + [t.key] + Keys(t.right)
  {
    var a, e, b := Elements(t.left), Entry(t.key, t.val), Elements(t.right);
    assert Elements(t) == a + [e] + b;
    KeysOfAppend(a + [e], b);
    KeysOfAppend(a, [e]);
    assert KeysOf([e]) == [t.key];
  }

  /** With exact counts, `size(x)` is the number of entries below `x`. */
  lemma {:induction false} SizeIsCount<V>(t: Tree<V>)
    ensures SizesOk(t) ==> Size(t) == |Elements(t)|
  {
    if t.Node? {
      SizeIsCount(t.left);
      SizeIsCount(t.right);
    }
  }

  /** The height is -1 exactly for the empty tree and always below the entry count. */
  lemma {:induction false} HeightBounds<V>(t: Tree<V>)
    ensures -1 <= Height(t) < |Elements(t)|
    ensures Height(t) == -1 <==> t.Leaf?
  {
    if t.Node? {
      HeightBounds(t.left);
      HeightBounds(t.right);
    }
  }

  /** In an ordered node, the left keys are below and the right keys above the node's key. */
  lemma OrderedNode<V>(t: Tree<V>)
    requires t.Node? && Ordered(t)
    ensures Ordered(t.left) && Ordered(t.right)
    ensures forall i :: 0 <= i < |Elements(t.left)| ==> Elements(t.left)[i].key < t.key
    ensures forall i :: 0 <= i < |Elements(t.right)| ==> t.key < Elements(t.right)[i].key
  {
    SortedParts(Elements(t.left), Entry(t.key, t.val), Elements(t.right));
  }

  /** One step of the binary search: which side of an ordered node holds `k`. */
  lemma SearchStep<V>(t: Tree<V>, k: Key)
    requires t.Node? && Ordered(t)
    ensures Ordered(t.left) && Ordered(t.right)
    ensures k < t.key ==> Get(Elements(t), k) == Get(Elements(t.left), k)
    ensures k < t.key ==> (HasKey(Elements(t), k) <==> HasKey(Elements(t.left), k))
    ensures k == t.key ==> Get(Elements(t), k) == Some(t.val) && HasKey(Elements(t), k)
    ensures k > t.key ==> Get(Elements(t), k) == Get(Elements(t.right), k)
    ensures k > t.key ==> (HasKey(Elements(t), k) <==> HasKey(Elements(t.right), k))
  {
    OrderedNode(t);
    GetAround(Elements(t.left), Entry(t.key, t.val), Elements(t.right), k);
    HasKeyJoin(Elements(t.left), Entry(t.key, t.val), Elements(t.right), k);
    if HasKey(Elements(t.left), k) {
      var i :| 0 <= i < |Elements(t.left)| && Elements(t.left)[i].key == k;
    }
    if HasKey(Elements(t.right), k) {
      var i :| 0 <= i < |Elements(t.right)| && Elements(t.right)[i].key == k;
    }
  }
}
