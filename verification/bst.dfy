/**
 * The symbol table object: a `root` link that insert and delete replace, and
 * the `inOrder` key list that the order-statistics queries rebuild before
 * reading it.
 */
module BST {
  import opened Wrappers
  import opened Entries
  import opened Trees
  import opened Insertion
  import opened Colours
  import opened BalancedDeletion

  /**
   * rank and getValByRank are inverse on stored keys: a stored key sits at the
   * position given by its rank in the in-order key list.
   */
  lemma RankSelect<V>(t: Tree<V>, k: Key)
    requires Ordered(t) && HasKey(Elements(t), k)
    ensures CountLess(Keys(t), k) < |Keys(t)| && Keys(t)[CountLess(Keys(t), k)] == k
  {
    SortedKeys(Elements(t), k);
    SelectRank(Keys(t), k);
  }

  /** The rank of any key splits the in-order keys into those below it and the rest. */
  lemma RankSplits<V>(t: Tree<V>, k: Key)
    requires Ordered(t)
    ensures CountLess(Keys(t), k) <= |Keys(t)|
    ensures forall i :: 0 <= i < CountLess(Keys(t), k) ==> Keys(t)[i] < k
    ensures forall i :: CountLess(Keys(t), k) <= i < |Keys(t)| ==> k <= Keys(t)[i]
  {
    SortedKeys(Elements(t), k);
    CountLessSplits(Keys(t), k);
  }

  /**
   * A non-empty range of ranks is a strictly increasing run of `b - a + 1`
   * keys, each between the keys of ranks `a` and `b`.
   */
  lemma RangeBetween<V>(t: Tree<V>, a: int, b: int)
    requires Ordered(t) && 0 <= a <= b < |Keys(t)|
    ensures |Keys(t)[a..b + 1]| == b - a + 1
    ensures Increasing(Keys(t)[a..b + 1])
    ensures forall i :: a <= i <= b ==> Keys(t)[a] <= Keys(t)[i] <= Keys(t)[b]
  {
    SortedKeys(Elements(t), 0);
  }

  lemma AppendAround(a: seq<Key>, l: seq<Key>, k: Key, r: seq<Key>)
    ensures a + l + [k] + r == a + (l + [k] + r)
  {
  }

  lemma SliceStep(s: seq<Key>, a: int, i: int)
    requires 0 <= a <= i < |s|
    ensures s[a..i + 1] == s[a..i] + [s[i]]
  {
  }

  class RedBlackBST<V> {
    var root: Tree<V>
    var inOrder: seq<Key>

    /** Keys strictly increasing in order, every count exact, the colour rules, the root link black. */
    ghost predicate Valid()
      reads this
    {
      Ordered(root) && SizesOk(root) && RedBlack(root) && RootBlack(root)
    }

    constructor ()
      ensures root == Leaf && inOrder == []
      ensures Valid()
    {
      root := Leaf;
      inOrder := [];
    }

    /** size(): the count cached at the root, which is the number of entries. */
    function Size(): (r: int)
      reads this
      ensures SizesOk(root) ==> r == |Elements(root)|
    {
      SizeIsCount(root);
      Trees.Size(root)
    }

    /** isEmpty(): a null root, which is exactly an empty entry sequence. */
    function IsEmpty(): (r: bool)
      reads this
      ensures r <==> Elements(root) == []
    {
      root.Leaf?
    }

    /**
     * height(): -1 exactly for the empty tree, and below the number of
     * entries; on a red-black tree below twice the black height `bh`, where
     * `2^bh <= size + 1`, so logarithmic in the size.
     */
    function Height(): (r: int)
      requires Valid()
      reads this
      ensures r == -1 <==> Elements(root) == []
      ensures -1 <= r < |Elements(root)|
      ensures r + 1 <= 2 * BlackHeight(root) && Pow2(BlackHeight(root)) <= |Elements(root)| + 1
    {
      HeightBounds(root);
      HeightLogarithmic(root);
      Trees.Height(root)
    }

    /** search(key): walks down from the root; the value stored under `key`, if any. */
    method Search(key: Key) returns (r: Option<V>)
      requires Valid()
      ensures r == Get(Elements(root), key)
    {
      var current := root;
      while current.Node?
        invariant Ordered(current)
        invariant Get(Elements(current), key) == Get(Elements(root), key)
        decreases current
      {
        SearchStep(current, key);
        if key < current.key {
          current := current.left;
        } else if key > current.key {
          current := current.right;
        } else {
          return Some(current.val);
        }
      }
      return None;
    }

    /** contains(key): whether search finds a value, which is whether `key` is stored. */
    method Contains(key: Key) returns (b: bool)
      requires Valid()
      ensures b <==> HasKey(Elements(root), key)
    {
      var r := Search(key);
      GetSome(Elements(root), key);
      b := r.Some?;
    }

    /**
     * insert(key, val): a null key or value (`None`) leaves the table as it
     * was; otherwise `key` maps to `val` afterwards and nothing else changes.
     */
    method Insert(key: Option<Key>, val: Option<V>)
      requires Valid()
      modifies this`root
      ensures Valid()
      ensures key.None? || val.None? ==> root == old(root)
      ensures key.Some? && val.Some? ==>
        && root == InsertRoot(old(root), key.value, val.value)
        && Elements(root) == Put(Elements(old(root)), key.value, val.value)
    {
      if key.None? || val.None? {
        return;
      }
      InsertCorrect(root, key.value, val.value);
      InsertColours(root, key.value, val.value);
      root := InsertRoot(root, key.value, val.value);
    }

    /**
     * delete(key), with the recursion corrected to keep the colour rules: an
     * empty table or an absent key is left as it was; otherwise the entry of
     * `key` is removed and nothing else changes.
     */
    method Delete(key: Key)
      requires Valid()
      modifies this`root
      ensures Valid()
      ensures root == BalancedDeleteRoot(old(root), key)
      ensures Elements(root) == Remove(Elements(old(root)), key)
    {
      var present := Contains(key);
      BalancedDeleteCorrect(root, key);
      if root.Leaf? || !present {
        return;
      }
      root := BalancedDeleteRoot(root, key);
    }

    /** getElements(node): appends the keys below `node` to `inOrder`, in order. */
    method CollectInOrder(node: Tree<V>)
      modifies this`inOrder
      ensures inOrder == old(inOrder) + Keys(node)
      decreases node
    {
      if node.Leaf? {
        return;
      }
      KeysNode(node);
      ghost var before := inOrder;
      CollectInOrder(node.left);
      inOrder := inOrder + [node.key];
      CollectInOrder(node.right);
      AppendAround(before, Keys(node.left), node.key, Keys(node.right));
    }

    /**
     * getValByRank(k): the key with exactly `k` smaller keys, or `None` when
     * `k` is not below the size. An empty tree and a negative `k` are errors.
     */
    method GetValByRank(k: int) returns (r: Option<Key>)
      requires Valid() && root.Node? && 0 <= k
      modifies this`inOrder
      ensures inOrder == Keys(root)
      ensures r == if k < |Keys(root)| then Some(Keys(root)[k]) else None
    {
      inOrder := [];
      CollectInOrder(root);
      SizeIsCount(root);
      if k >= root.n {
        return None;
      }
      return Some(inOrder[k]);
    }

    /** rank(key): the number of stored keys strictly less than `key`. */
    method Rank(key: Key) returns (r: nat)
      modifies this`inOrder
      ensures inOrder == Keys(root)
      ensures r == CountLess(Keys(root), key)
    {
      var keys := 0;
      inOrder := [];
      CollectInOrder(root);
      for i := 0 to |inOrder|
        invariant keys == CountLess(inOrder[..i], key)
      {
        assert inOrder[..i + 1][..i] == inOrder[..i];
        if inOrder[i] < key {
          keys := keys + 1;
        }
      }
      assert inOrder[..|inOrder|] == inOrder;
      return keys;
    }

    /**
     * getElements(a, b): the keys of ranks `a` through `b`, or the empty list
     * when `a` is negative or `b` is not below the size.
     */
    method GetElements(a: int, b: int) returns (interval: seq<Key>)
      modifies this`inOrder
      ensures inOrder == Keys(root)
      ensures interval == if a < 0 || b >= |Keys(root)| || a > b then [] else Keys(root)[a..b + 1]
    {
      interval := [];
      inOrder := [];
      CollectInOrder(root);
      var keys := inOrder;
      if a < 0 || b >= |keys| {
        return;
      }
      // the range is empty when a > b
      if a <= b {
        for i := a to b + 1
          invariant inOrder == keys && interval == keys[a..i]
        {
          SliceStep(keys, a, i);
          interval := interval + [keys[i]];
        }
      }
    }
  }
}
