/**
 * The abstract view of a symbol table: its in-order sequence of key/value
 * entries. Every tree operation is specified against the functions here.
 */
module Entries {
  import opened Wrappers

  /** The Java class is generic in a `Comparable` key; the model fixes `int`. */
  type Key = int

  datatype Entry<V> = Entry(key: Key, val: V)

  function KeysOf<V>(s: seq<Entry<V>>): seq<Key>
  {
    seq(|s|, i requires 0 <= i < |s| => s[i].key)
  }

  predicate HasKey<V>(s: seq<Entry<V>>, k: Key)
  {
    exists i :: 0 <= i < |s| && s[i].key == k
  }

  predicate Increasing(ks: seq<Key>)
  {
    forall i, j :: 0 <= i < j < |ks| ==> ks[i] < ks[j]
  }

  /** Keys strictly increasing: the binary-search-tree order, read in order. */
  predicate Sorted<V>(s: seq<Entry<V>>)
  {
    forall i, j :: 0 <= i < j < |s| ==> s[i].key < s[j].key
  }

  /** The value stored under `k`, if any. */
  function Get<V>(s: seq<Entry<V>>, k: Key): Option<V>
  {
    if |s| == 0 then None
    else if s[0].key == k then Some(s[0].val)
    else Get(s[1..], k)
  }

  /** Insert-or-overwrite into a sorted sequence. */
  function Put<V>(s: seq<Entry<V>>, k: Key, v: V): seq<Entry<V>>
  {
    if |s| == 0 then [Entry(k, v)]
    else if k < s[0].key then [Entry(k, v)] + s
    else if k == s[0].key then [Entry(k, v)] + s[1..]
    else [s[0]] + Put(s[1..], k, v)
  }

  /** Every entry whose key is not `k`, in their order. */
  function Remove<V>(s: seq<Entry<V>>, k: Key): seq<Entry<V>>
  {
    if |s| == 0 then []
    else if s[0].key == k then Remove(s[1..], k)
    else [s[0]] + Remove(s[1..], k)
  }

  /** How many keys of `ks` are strictly less than `k`. */
  function CountLess(ks: seq<Key>, k: Key): nat
  {
    if |ks| == 0 then 0
    else CountLess(ks[..|ks| - 1], k) + (if ks[|ks| - 1] < k then 1 else 0)
  }

  lemma KeysOfAppend<V>(a: seq<Entry<V>>, b: seq<Entry<V>>)
    ensures KeysOf(a + b) == KeysOf(a) + KeysOf(b)
  {
  }

  lemma HasKeyCons<V>(s: seq<Entry<V>>, k: Key)
    requires |s| > 0
    ensures HasKey(s, k) <==> s[0].key == k || HasKey(s[1..], k)
  {
    if HasKey(s[1..], k) {
      var i :| 0 <= i < |s[1..]| && s[1..][i].key == k;
      assert s[i + 1].key == k;
    }
    if HasKey(s, k) && s[0].key != k {
      var i :| 0 <= i < |s| && s[i].key == k;
      assert s[1..][i - 1].key == k;
    }
  }

  lemma SortedTail<V>(s: seq<Entry<V>>)
    requires Sorted(s) && |s| > 0
    ensures Sorted(s[1..])
    ensures !HasKey(s[1..], s[0].key)
  {
  }

  /** A key below the first key of a sorted sequence is absent from it. */
  lemma BelowFirst<V>(s: seq<Entry<V>>, k: Key)
    requires Sorted(s) && |s| > 0 && k < s[0].key
    ensures !HasKey(s, k)
  {
  }

  lemma {:induction false} GetSome<V>(s: seq<Entry<V>>, k: Key)
    ensures Get(s, k).Some? <==> HasKey(s, k)
  {
    if |s| > 0 {
      GetSome(s[1..], k);
      HasKeyCons(s, k);
    }
  }

  /** Lookup in a concatenation: the first part wins. */
  lemma {:induction false} GetAppend<V>(a: seq<Entry<V>>, b: seq<Entry<V>>, k: Key)
    ensures Get(a + b, k) == if Get(a, k).Some? then Get(a, k) else Get(b, k)
  {
    if |a| == 0 {
      assert a + b == b;
    } else {
      assert (a + b)[0] == a[0];
      assert (a + b)[1..] == a[1..] + b;
      GetAppend(a[1..], b, k);
    }
  }

  lemma SortedParts<V>(a: seq<Entry<V>>, e: Entry<V>, b: seq<Entry<V>>)
    requires Sorted(a + [e] + b)
    ensures Sorted(a) && Sorted(b)
    ensures forall i :: 0 <= i < |a| ==> a[i].key < e.key
    ensures forall i :: 0 <= i < |b| ==> e.key < b[i].key
  {
    var s := a + [e] + b;
    forall i, j | 0 <= i < j < |b| ensures b[i].key < b[j].key {
      assert s[|a| + 1 + i] == b[i] && s[|a| + 1 + j] == b[j];
    }
    forall i, j | 0 <= i < j < |a| ensures a[i].key < a[j].key {
      assert s[i] == a[i] && s[j] == a[j];
    }
    forall i | 0 <= i < |a| ensures a[i].key < e.key {
      assert s[i] == a[i] && s[|a|] == e;
    }
    forall i | 0 <= i < |b| ensures e.key < b[i].key {
      assert s[|a| + 1 + i] == b[i] && s[|a|] == e;
    }
  }

  lemma SortedJoin<V>(a: seq<Entry<V>>, e: Entry<V>, b: seq<Entry<V>>)
    requires Sorted(a) && Sorted(b)
    requires forall i :: 0 <= i < |a| ==> a[i].key < e.key
    requires forall i :: 0 <= i < |b| ==> e.key < b[i].key
    ensures Sorted(a + [e] + b)
  {
    var s := a + [e] + b;
    forall i, j | 0 <= i < j < |s| ensures s[i].key < s[j].key {
      if j < |a| {
      } else if j == |a| {
      } else if i < |a| {
        assert a[i].key < e.key < b[j - |a| - 1].key;
      } else if i == |a| {
        assert e.key < b[j - |a| - 1].key;
      } else {
        assert s[i] == b[i - |a| - 1] && s[j] == b[j - |a| - 1];
      }
    }
  }

  /** Keys absent from both sides of `e` are absent from `a + [e] + b`. */
  lemma HasKeyJoin<V>(a: seq<Entry<V>>, e: Entry<V>, b: seq<Entry<V>>, k: Key)
    ensures HasKey(a + [e] + b, k) <==> HasKey(a, k) || e.key == k || HasKey(b, k)
  {
    var s := a + [e] + b;
    if HasKey(s, k) {
      var i :| 0 <= i < |s| && s[i].key == k;
      if i < |a| {
        assert a[i] == s[i];
      } else if i > |a| {
        assert b[i - |a| - 1] == s[i];
      }
    }
    if HasKey(a, k) {
      var i :| 0 <= i < |a| && a[i].key == k;
      assert s[i] == a[i];
    }
    if HasKey(b, k) {
      var i :| 0 <= i < |b| && b[i].key == k;
      assert s[|a| + 1 + i] == b[i];
    }
    assert s[|a|] == e;
  }

  /** Lookup in a sorted `a + [e] + b` follows the comparison with `e.key`. */
  lemma GetAround<V>(a: seq<Entry<V>>, e: Entry<V>, b: seq<Entry<V>>, k: Key)
    requires Sorted(a + [e] + b)
    ensures k < e.key ==> Get(a + [e] + b, k) == Get(a, k)
    ensures k == e.key ==> Get(a + [e] + b, k) == Some(e.val)
    ensures k > e.key ==> Get(a + [e] + b, k) == Get(b, k)
  {
    SortedParts(a, e, b);
    GetAppend(a + [e], b, k);
    GetAppend(a, [e], k);
    GetSome(a, k);
    GetSome(b, k);
    if HasKey(a, k) {
      var i :| 0 <= i < |a| && a[i].key == k;
    }
    if HasKey(b, k) {
      var i :| 0 <= i < |b| && b[i].key == k;
    }
  }

  /** Overwrite-or-insert in front of a tail whose keys are all greater. */
  lemma {:induction false} PutBefore<V>(a: seq<Entry<V>>, b: seq<Entry<V>>, k: Key, v: V)
    requires |b| > 0 ==> k < b[0].key
    ensures Put(a + b, k, v) == Put(a, k, v) + b
  {
    if |a| == 0 {
      assert a + b == b;
    } else {
      assert (a + b)[0] == a[0];
      assert (a + b)[1..] == a[1..] + b;
      PutBefore(a[1..], b, k, v);
    }
  }

  /** Overwrite-or-insert behind a prefix whose keys are all smaller. */
  lemma {:induction false} PutAfter<V>(a: seq<Entry<V>>, b: seq<Entry<V>>, k: Key, v: V)
    requires forall i :: 0 <= i < |a| ==> a[i].key < k
    ensures Put(a + b, k, v) == a + Put(b, k, v)
  {
    if |a| == 0 {
      assert a + b == b;
    } else {
      assert (a + b)[0] == a[0];
      assert (a + b)[1..] == a[1..] + b;
      PutAfter(a[1..], b, k, v);
    }
  }

  /** Inserting a key below the middle entry changes only the part before it. */
  lemma PutLeft<V>(a: seq<Entry<V>>, e: Entry<V>, b: seq<Entry<V>>, k: Key, v: V)
    requires k < e.key
    ensures Put(a + [e] + b, k, v) == Put(a, k, v) + [e] + b
  {
    PutBefore(a, [e] + b, k, v);
    assert a + [e] + b == a + ([e] + b);
  }

  /** Inserting a key above the middle entry changes only the part after it. */
  lemma PutRight<V>(a: seq<Entry<V>>, e: Entry<V>, b: seq<Entry<V>>, k: Key, v: V)
    requires Sorted(a + [e] + b) && k > e.key
    ensures Put(a + [e] + b, k, v) == a + [e] + Put(b, k, v)
  {
    SortedParts(a, e, b);
    PutAfter(a + [e], b, k, v);
  }

  /** Putting the middle entry's own key overwrites its value in place. */
  lemma PutMiddle<V>(a: seq<Entry<V>>, e: Entry<V>, b: seq<Entry<V>>, v: V)
    requires Sorted(a + [e] + b)
    ensures Put(a + [e] + b, e.key, v) == a + [Entry(e.key, v)] + b
  {
    SortedParts(a, e, b);
    PutAfter(a, [e] + b, e.key, v);
    assert a + [e] + b == a + ([e] + b);
    assert ([e] + b)[1..] == b;
  }

  /** Every key of `Put(s, k, v)` is `k` or a key of `s`. */
  lemma {:induction false} PutKeys<V>(s: seq<Entry<V>>, k: Key, v: V, x: Key)
    ensures HasKey(Put(s, k, v), x) <==> x == k || HasKey(s, x)
  {
    if |s| == 0 {
      HasKeyCons(Put(s, k, v), x);
    } else {
      HasKeyCons(s, x);
      HasKeyCons(Put(s, k, v), x);
      if k < s[0].key {
        assert Put(s, k, v)[1..] == s;
      } else if k == s[0].key {
        assert Put(s, k, v)[1..] == s[1..];
      } else {
        assert Put(s, k, v)[1..] == Put(s[1..], k, v);
        PutKeys(s[1..], k, v, x);
      }
    }
  }

  /** Insertion keeps the keys strictly increasing. */
  lemma {:induction false} PutSorted<V>(s: seq<Entry<V>>, k: Key, v: V)
    requires Sorted(s)
    ensures Sorted(Put(s, k, v))
  {
    if |s| > 0 && k > s[0].key {
      SortedTail(s);
      PutSorted(s[1..], k, v);
      var t := Put(s[1..], k, v);
      forall i | 0 <= i < |t| ensures s[0].key < t[i].key {
        PutKeys(s[1..], k, v, t[i].key);
        if t[i].key != k {
          var j :| 0 <= j < |s[1..]| && s[1..][j].key == t[i].key;
          assert s[j + 1].key == t[i].key;
        }
      }
      SortedJoin([], s[0], t);
    } else if |s| > 0 && k == s[0].key {
      forall i, j | 0 <= i < j < |s| ensures Put(s, k, v)[i].key < Put(s, k, v)[j].key {
        assert Put(s, k, v)[i].key == s[i].key && Put(s, k, v)[j].key == s[j].key;
      }
    } else if |s| > 0 {
      SortedJoin([], Entry(k, v), s);
    }
  }

  /** After insertion, `k` maps to `v` and every other key keeps its value. */
  lemma {:induction false} PutGet<V>(s: seq<Entry<V>>, k: Key, v: V, x: Key)
    requires Sorted(s)
    ensures Get(Put(s, k, v), x) == if x == k then Some(v) else Get(s, x)
  {
    if |s| > 0 && k > s[0].key {
      SortedTail(s);
      PutGet(s[1..], k, v, x);
    } else if |s| > 0 && k < s[0].key && x == k {
      BelowFirst(s, k);
      GetSome(s, k);
    }
  }

  /** Insertion grows the sequence by one exactly when the key was absent. */
  lemma {:induction false} PutLength<V>(s: seq<Entry<V>>, k: Key, v: V)
    requires Sorted(s)
    ensures |Put(s, k, v)| == if HasKey(s, k) then |s| else |s| + 1
  {
    if |s| > 0 {
      HasKeyCons(s, k);
      if k > s[0].key {
        SortedTail(s);
        PutLength(s[1..], k, v);
      } else if k < s[0].key {
        BelowFirst(s, k);
      }
    }
  }

  lemma {:induction false} RemoveAppend<V>(a: seq<Entry<V>>, b: seq<Entry<V>>, k: Key)
    ensures Remove(a + b, k) == Remove(a, k) + Remove(b, k)
  {
    if |a| == 0 {
      assert a + b == b;
    } else {
      assert (a + b)[0] == a[0];
      assert (a + b)[1..] == a[1..] + b;
      RemoveAppend(a[1..], b, k);
    }
  }

  lemma {:induction false} RemoveAbsent<V>(s: seq<Entry<V>>, k: Key)
    requires !HasKey(s, k)
    ensures Remove(s, k) == s
  {
    if |s| > 0 {
      HasKeyCons(s, k);
      RemoveAbsent(s[1..], k);
    }
  }

  /** Removal from `a + [e] + b`, where `e` holds the only copy of its key. */
  lemma RemoveMiddle<V>(a: seq<Entry<V>>, e: Entry<V>, b: seq<Entry<V>>)
    requires Sorted(a + [e] + b)
    ensures Remove(a + [e] + b, e.key) == a + b
  {
    SortedParts(a, e, b);
    RemoveAppend(a + [e], b, e.key);
    RemoveAppend(a, [e], e.key);
    assert !HasKey(a, e.key);
    assert !HasKey(b, e.key);
    RemoveAbsent(a, e.key);
    RemoveAbsent(b, e.key);
  }

  /** Removal of a key absent from `b` leaves `b` alone. */
  lemma RemoveLeft<V>(a: seq<Entry<V>>, e: Entry<V>, b: seq<Entry<V>>, k: Key)
    requires Sorted(a + [e] + b) && k < e.key
    ensures Remove(a + [e] + b, k) == Remove(a, k) + [e] + b
  {
    SortedParts(a, e, b);
    RemoveAppend(a + [e], b, k);
    RemoveAppend(a, [e], k);
    assert !HasKey(b, k);
    RemoveAbsent(b, k);
  }

  /** Removal of a key absent from `a` leaves `a` alone. */
  lemma RemoveRight<V>(a: seq<Entry<V>>, e: Entry<V>, b: seq<Entry<V>>, k: Key)
    requires Sorted(a + [e] + b) && k > e.key
    ensures Remove(a + [e] + b, k) == a + [e] + Remove(b, k)
  {
    SortedParts(a, e, b);
    RemoveAppend(a + [e], b, k);
    RemoveAppend(a, [e], k);
    assert !HasKey(a, k);
    RemoveAbsent(a, k);
  }

  /** Every key left after removal is a key of `s` other than `k`. */
  lemma {:induction false} RemoveKeys<V>(s: seq<Entry<V>>, k: Key, x: Key)
    ensures HasKey(Remove(s, k), x) <==> x != k && HasKey(s, x)
  {
    if |s| == 0 {
    } else {
      HasKeyCons(s, x);
      RemoveKeys(s[1..], k, x);
      if s[0].key != k {
        HasKeyCons(Remove(s, k), x);
        assert Remove(s, k)[1..] == Remove(s[1..], k);
      }
    }
  }

  /** Removal keeps the keys strictly increasing. */
  lemma {:induction false} RemoveSorted<V>(s: seq<Entry<V>>, k: Key)
    requires Sorted(s)
    ensures Sorted(Remove(s, k))
  {
    if |s| > 0 {
      SortedTail(s);
      RemoveSorted(s[1..], k);
      if s[0].key != k {
        var t := Remove(s[1..], k);
        forall i | 0 <= i < |t| ensures s[0].key < t[i].key {
          RemoveKeys(s[1..], k, t[i].key);
          var j :| 0 <= j < |s[1..]| && s[1..][j].key == t[i].key;
          assert s[j + 1].key == t[i].key;
        }
        SortedJoin([], s[0], t);
      }
    }
  }

  /** After removal `k` is absent and every other key keeps its value. */
  lemma {:induction false} RemoveGet<V>(s: seq<Entry<V>>, k: Key, x: Key)
    ensures Get(Remove(s, k), x) == if x == k then None else Get(s, x)
  {
    if |s| > 0 {
      RemoveGet(s[1..], k, x);
    }
  }

  /** Removing a present key from a sorted sequence drops exactly one entry. */
  lemma {:induction false} RemoveLength<V>(s: seq<Entry<V>>, k: Key)
    requires Sorted(s)
    ensures |Remove(s, k)| == if HasKey(s, k) then |s| - 1 else |s|
  {
    if |s| > 0 {
      HasKeyCons(s, k);
      SortedTail(s);
      if s[0].key == k {
        RemoveAbsent(s[1..], k);
      } else {
        RemoveLength(s[1..], k);
      }
    }
  }

  lemma SortedKeys<V>(s: seq<Entry<V>>, k: Key)
    requires Sorted(s)
    ensures Increasing(KeysOf(s))
    ensures k in KeysOf(s) <==> HasKey(s, k)
  {
    if k in KeysOf(s) {
      var i :| 0 <= i < |s| && KeysOf(s)[i] == k;
      assert s[i].key == k;
    }
    if HasKey(s, k) {
      var i :| 0 <= i < |s| && s[i].key == k;
      assert KeysOf(s)[i] == k;
    }
  }

  /** The rank of `k` splits increasing keys into those below `k` and the rest. */
  lemma {:induction false} CountLessSplits(ks: seq<Key>, k: Key)
    requires Increasing(ks)
    ensures CountLess(ks, k) <= |ks|
    ensures forall i :: 0 <= i < CountLess(ks, k) ==> ks[i] < k
    ensures forall i :: CountLess(ks, k) <= i < |ks| ==> k <= ks[i]
  {
    if |ks| > 0 {
      var init := ks[..|ks| - 1];
      CountLessSplits(init, k);
      if ks[|ks| - 1] < k && 0 < |init| {
        assert init[|init| - 1] < ks[|ks| - 1];
      }
    }
  }

  /** Selecting by the rank of a present key gives that key back. */
  lemma SelectRank(ks: seq<Key>, k: Key)
    requires Increasing(ks) && k in ks
    ensures CountLess(ks, k) < |ks| && ks[CountLess(ks, k)] == k
  {
    CountLessSplits(ks, k);
    var i :| 0 <= i < |ks| && ks[i] == k;
  }
}
