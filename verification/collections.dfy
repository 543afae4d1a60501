/** Python's `{key(x): x for x in items}`: a dictionary built from a list, where a
    later element with the same key replaces an earlier one; and the list built by
    extending one list with several in turn. */
module Collections {

  /** `i` is the position of the last element of `items` whose key is the key of `items[i]`. */
  predicate IsLastWithKey<K(==), V>(items: seq<V>, key: V -> K, i: int)
  {
    && 0 <= i < |items|
    && forall j :: i < j < |items| ==> key(items[j]) != key(items[i])
  }

  function IndexBy<K(!new), V>(items: seq<V>, key: V -> K): (index: map<K, V>)
    ensures forall i :: 0 <= i < |items| ==> key(items[i]) in index
    ensures forall k :: k in index ==> key(index[k]) == k
    decreases |items|
  {
    if |items| == 0 then map[]
    else
      var init := items[..|items| - 1];
      var last := items[|items| - 1];
      assert forall i :: 0 <= i < |init| ==> init[i] == items[i];
      IndexBy(init, key)[key(last) := last]
  }

  /** Only keys that occur in `items` are indexed. */
  lemma {:induction false} IndexByKeys<K(!new), V>(items: seq<V>, key: V -> K, k: K)
    requires k in IndexBy(items, key)
    ensures exists i :: 0 <= i < |items| && key(items[i]) == k
    decreases |items|
  {
    var last := items[|items| - 1];
    if key(last) != k {
      var init := items[..|items| - 1];
      IndexByKeys(init, key, k);
      var i :| 0 <= i < |init| && key(init[i]) == k;
      assert items[i] == init[i];
    }
  }

  /** The last element with a given key is the one the index keeps. */
  lemma {:induction false} IndexByLast<K(!new), V>(items: seq<V>, key: V -> K, i: int)
    requires IsLastWithKey(items, key, i)
    ensures IndexBy(items, key)[key(items[i])] == items[i]
    decreases |items|
  {
    var n := |items| - 1;
    if i < n {
      var init := items[..n];
      assert key(items[n]) != key(items[i]);
      assert init[i] == items[i];
      assert IsLastWithKey(init, key, i) by {
        forall j | i < j < |init| ensures key(init[j]) != key(init[i]) {
          assert init[j] == items[j];
        }
      }
      IndexByLast(init, key, i);
    }
  }

  /** Every value of the index is the last element carrying its key. */
  lemma IndexByLastWins<K(!new), V>(items: seq<V>, key: V -> K, k: K)
    requires k in IndexBy(items, key)
    ensures exists i :: IsLastWithKey(items, key, i) && key(items[i]) == k && IndexBy(items, key)[k] == items[i]
  {
    IndexByKeys(items, key, k);
    var i :| 0 <= i < |items| && key(items[i]) == k;
    while !IsLastWithKey(items, key, i)
      invariant 0 <= i < |items| && key(items[i]) == k
      decreases |items| - i
    {
      var j :| i < j < |items| && key(items[j]) == key(items[i]);
      i := j;
    }
    IndexByLast(items, key, i);
  }

  /** `out = []; for part in parts: out += part`. */
  function Flatten<T>(parts: seq<seq<T>>): seq<T>
    decreases |parts|
  {
    if |parts| == 0 then [] else Flatten(parts[..|parts| - 1]) + parts[|parts| - 1]
  }

  /** An element is in the flattened list iff it is in one of the parts. */
  lemma {:induction false} FlattenMembership<T>(parts: seq<seq<T>>, x: T)
    ensures x in Flatten(parts) <==> exists i :: 0 <= i < |parts| && x in parts[i]
    decreases |parts|
  {
    if |parts| > 0 {
      var n := |parts| - 1;
      var init := parts[..n];
      FlattenMembership(init, x);
      if x in Flatten(init) {
        var i :| 0 <= i < n && x in init[i];
        assert init[i] == parts[i];
      } else if x !in parts[n] {
        forall i | 0 <= i < |parts| ensures x !in parts[i] {
          if i < n {
            assert init[i] == parts[i];
          }
        }
      }
    }
  }
}
