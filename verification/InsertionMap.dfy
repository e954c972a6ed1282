/** A JavaScript `Map`: entries in insertion order, and the stable sort of its entries by value. */
module InsertionMap {
  import opened Common

  datatype Entry<K, V> = Entry(key: K, value: V)

  predicate Absent<K(==), V>(list: seq<Entry<K, V>>, key: K) {
    list != [] ==> list[0].key != key && Absent(list[1..], key)
  }

  /** The keys of the map are different. */
  predicate Distinct<K(==), V>(list: seq<Entry<K, V>>) {
    list != [] ==> Absent(list[1..], list[0].key) && Distinct(list[1..])
  }

  function Get<K(==), V>(list: seq<Entry<K, V>>, key: K): (r: Option<V>)
    ensures r.Some? ==> Entry(key, r.value) in list
    ensures r.None? <==> Absent(list, key)
  {
    if list == [] then None
    else if list[0].key == key then Some(list[0].value)
    else Get(list[1..], key)
  }

  /** `set`: an existing key keeps its place. */
  function Put<K(==), V>(list: seq<Entry<K, V>>, key: K, value: V): (r: seq<Entry<K, V>>)
    ensures |r| == |list| + if Absent(list, key) then 1 else 0
    ensures Absent(list, key) ==> r == list + [Entry(key, value)]
  {
    if list == [] then [Entry(key, value)]
    else if list[0].key == key then [Entry(key, value)] + list[1..]
    else [list[0]] + Put(list[1..], key, value)
  }

  function Delete<K(==), V>(list: seq<Entry<K, V>>, key: K): (r: seq<Entry<K, V>>)
    ensures |r| <= |list|
    ensures !Absent(list, key) ==> |r| < |list|
  {
    if list == [] then []
    else if list[0].key == key then Delete(list[1..], key)
    else [list[0]] + Delete(list[1..], key)
  }

  function Keep<K, V>(list: seq<Entry<K, V>>, p: Entry<K, V> -> bool): (r: seq<Entry<K, V>>)
    ensures |r| <= |list|
  {
    if list == [] then []
    else if p(list[0]) then [list[0]] + Keep(list[1..], p)
    else Keep(list[1..], p)
  }

  // ---------- Looking up ----------

  lemma {:induction false} GetPut<K, V>(list: seq<Entry<K, V>>, key: K, value: V, other: K)
    ensures Get(Put(list, key, value), other) == if other == key then Some(value) else Get(list, other)
  {
    if list != [] {
      GetPut(list[1..], key, value, other);
      assert Put(list, key, value)[1..] == if list[0].key == key then list[1..] else Put(list[1..], key, value);
    }
  }

  lemma {:induction false} PutDistinct<K, V>(list: seq<Entry<K, V>>, key: K, value: V)
    requires Distinct(list)
    ensures Distinct(Put(list, key, value))
  {
    if list != [] {
      PutDistinct(list[1..], key, value);
      GetPut(list[1..], key, value, list[0].key);
      assert Put(list, key, value)[1..] == if list[0].key == key then list[1..] else Put(list[1..], key, value);
    }
  }

  lemma {:induction false} GetDelete<K, V>(list: seq<Entry<K, V>>, key: K, other: K)
    ensures Get(Delete(list, key), other) == if other == key then None else Get(list, other)
  {
    if list != [] {
      GetDelete(list[1..], key, other);
      if list[0].key != key { assert Delete(list, key)[1..] == Delete(list[1..], key); }
    }
  }

  lemma {:induction false} DeleteDistinct<K, V>(list: seq<Entry<K, V>>, key: K)
    requires Distinct(list)
    ensures Distinct(Delete(list, key))
  {
    if list != [] {
      DeleteDistinct(list[1..], key);
      GetDelete(list[1..], key, list[0].key);
      if list[0].key != key { assert Delete(list, key)[1..] == Delete(list[1..], key); }
    }
  }

  lemma {:induction false} InGet<K, V>(list: seq<Entry<K, V>>, e: Entry<K, V>)
    requires Distinct(list) && e in list
    ensures Get(list, e.key) == Some(e.value)
  {
    if e != list[0] { InGet(list[1..], e); }
  }

  /** What is left after a deletion. */
  lemma {:induction false} DeleteMeans<K, V>(list: seq<Entry<K, V>>, key: K, e: Entry<K, V>)
    ensures e in Delete(list, key) <==> e in list && e.key != key
    ensures Absent(list, key) ==> Delete(list, key) == list
  {
    if list != [] { DeleteMeans(list[1..], key, e); }
  }

  // ---------- Filtering ----------

  lemma {:induction false} KeepMeans<K, V>(list: seq<Entry<K, V>>, p: Entry<K, V> -> bool, e: Entry<K, V>)
    ensures e in Keep(list, p) <==> e in list && p(e)
    ensures Absent(list, e.key) ==> Absent(Keep(list, p), e.key)
  {
    if list != [] {
      KeepMeans(list[1..], p, e);
      if p(list[0]) { assert Keep(list, p)[1..] == Keep(list[1..], p); }
    }
  }

  lemma {:induction false} KeepDistinct<K, V>(list: seq<Entry<K, V>>, p: Entry<K, V> -> bool)
    requires Distinct(list)
    ensures Distinct(Keep(list, p))
  {
    if list != [] {
      KeepDistinct(list[1..], p);
      KeepMeans(list[1..], p, list[0]);
      if p(list[0]) { assert Keep(list, p)[1..] == Keep(list[1..], p); }
    }
  }

  lemma {:induction false} KeepsAll<K, V>(list: seq<Entry<K, V>>, p: Entry<K, V> -> bool)
    requires |Keep(list, p)| == |list| || forall e :: e in list ==> p(e)
    ensures Keep(list, p) == list
  {
    if list != [] { KeepsAll(list[1..], p); }
  }

  lemma {:induction false} KeepAppend<K, V>(list: seq<Entry<K, V>>, e: Entry<K, V>, p: Entry<K, V> -> bool)
    ensures Keep(list + [e], p) == Keep(list, p) + if p(e) then [e] else []
  {
    if list == [] {
      assert [e][1..] == [];
    } else {
      KeepAppend(list[1..], e, p);
      assert (list + [e])[1..] == list[1..] + [e];
    }
  }

  /** A deletion takes its entry, once, from every filtered view of the map that shows it. */
  lemma {:induction false} DeleteFromKeep<K, V>(list: seq<Entry<K, V>>, e: Entry<K, V>, p: Entry<K, V> -> bool)
    requires Distinct(list) && e in list
    ensures p(e) ==> |Keep(Delete(list, e.key), p)| == |Keep(list, p)| - 1
    ensures !p(e) ==> Keep(Delete(list, e.key), p) == Keep(list, p)
  {
    if e == list[0] {
      DeleteMeans(list[1..], e.key, e);
    } else {
      DeleteFromKeep(list[1..], e, p);
      InGet(list[1..], e);
      assert Delete(list, e.key)[1..] == Delete(list[1..], e.key);
    }
  }

  lemma {:induction false} PutIntoKeep<K, V>(list: seq<Entry<K, V>>, key: K, value: V, p: Entry<K, V> -> bool)
    ensures |Keep(Put(list, key, value), p)| <= |Keep(list, p)| + if p(Entry(key, value)) then 1 else 0
  {
    if list != [] {
      PutIntoKeep(list[1..], key, value, p);
      assert Put(list, key, value)[1..] == if list[0].key == key then list[1..] else Put(list[1..], key, value);
    }
  }

  /** Filtering by a stronger test first. */
  lemma {:induction false} KeepTwice<K(!new), V(!new)>(list: seq<Entry<K, V>>, p: Entry<K, V> -> bool, q: Entry<K, V> -> bool)
    ensures (forall e :: q(e) ==> p(e)) ==> Keep(Keep(list, p), q) == Keep(list, q)
    ensures |Keep(Keep(list, p), q)| <= |Keep(list, q)|
  {
    if list != [] {
      KeepTwice(list[1..], p, q);
      if p(list[0]) { assert Keep(list, p)[1..] == Keep(list[1..], p); }
    }
  }

  // ---------- Sorting ----------

  ghost predicate TotalPreorder<V(!new)>(before: (V, V) -> bool) {
    && (forall a, b :: before(a, b) || before(b, a))
    && forall a, b, c :: before(a, b) && before(b, c) ==> before(a, c)
  }

  function Insert<K, V>(e: Entry<K, V>, sorted: seq<Entry<K, V>>, before: (V, V) -> bool): (r: seq<Entry<K, V>>)
    ensures |r| == |sorted| + 1
  {
    if sorted == [] || before(e.value, sorted[0].value) then [e] + sorted
    else [sorted[0]] + Insert(e, sorted[1..], before)
  }

  /** The stable sort. */
  function Sort<K, V>(list: seq<Entry<K, V>>, before: (V, V) -> bool): (r: seq<Entry<K, V>>)
    ensures |r| == |list|
  {
    if list == [] then [] else Insert(list[0], Sort(list[1..], before), before)
  }

  predicate NoneBefore<K, V>(list: seq<Entry<K, V>>, v: V, before: (V, V) -> bool) {
    list != [] ==> before(v, list[0].value) && NoneBefore(list[1..], v, before)
  }

  predicate Sorted<K, V>(list: seq<Entry<K, V>>, before: (V, V) -> bool) {
    list != [] ==> NoneBefore(list[1..], list[0].value, before) && Sorted(list[1..], before)
  }

  lemma {:induction false} InsertMeans<K, V>(e: Entry<K, V>, sorted: seq<Entry<K, V>>, before: (V, V) -> bool, key: K, v: V, x: Entry<K, V>)
    ensures x in Insert(e, sorted, before) <==> x == e || x in sorted
    ensures Absent(Insert(e, sorted, before), key) <==> e.key != key && Absent(sorted, key)
    ensures NoneBefore(Insert(e, sorted, before), v, before) <==> before(v, e.value) && NoneBefore(sorted, v, before)
  {
    if sorted == [] || before(e.value, sorted[0].value) {
      assert Insert(e, sorted, before)[1..] == sorted;
    } else {
      InsertMeans(e, sorted[1..], before, key, v, x);
      assert Insert(e, sorted, before)[1..] == Insert(e, sorted[1..], before);
    }
  }

  lemma {:induction false} NoneBeforeEarlier<K, V(!new)>(list: seq<Entry<K, V>>, v: V, u: V, before: (V, V) -> bool)
    requires TotalPreorder(before) && NoneBefore(list, v, before) && before(u, v)
    ensures NoneBefore(list, u, before)
  {
    if list != [] { NoneBeforeEarlier(list[1..], v, u, before); }
  }

  lemma {:induction false} InsertSorts<K, V(!new)>(e: Entry<K, V>, sorted: seq<Entry<K, V>>, before: (V, V) -> bool)
    requires TotalPreorder(before) && Sorted(sorted, before) && Distinct(sorted) && Absent(sorted, e.key)
    ensures Sorted(Insert(e, sorted, before), before) && Distinct(Insert(e, sorted, before))
  {
    if sorted == [] || before(e.value, sorted[0].value) {
      assert Insert(e, sorted, before)[1..] == sorted;
      if sorted != [] { NoneBeforeEarlier(sorted[1..], sorted[0].value, e.value, before); }
    } else {
      InsertSorts(e, sorted[1..], before);
      InsertMeans(e, sorted[1..], before, sorted[0].key, sorted[0].value, e);
      assert Insert(e, sorted, before)[1..] == Insert(e, sorted[1..], before);
    }
  }

  lemma {:induction false} SortMeans<K, V>(list: seq<Entry<K, V>>, before: (V, V) -> bool, key: K, x: Entry<K, V>)
    ensures x in Sort(list, before) <==> x in list
    ensures Absent(Sort(list, before), key) <==> Absent(list, key)
  {
    if list != [] {
      SortMeans(list[1..], before, key, x);
      InsertMeans(list[0], Sort(list[1..], before), before, key, x.value, x);
    }
  }

  lemma {:induction false} SortSorts<K, V(!new)>(list: seq<Entry<K, V>>, before: (V, V) -> bool)
    requires TotalPreorder(before) && Distinct(list)
    ensures Sorted(Sort(list, before), before) && Distinct(Sort(list, before))
  {
    if list != [] {
      SortSorts(list[1..], before);
      SortMeans(list[1..], before, list[0].key, list[0]);
      InsertSorts(list[0], Sort(list[1..], before), before);
    }
  }

  lemma {:induction false} NoneBeforeMeans<K, V>(list: seq<Entry<K, V>>, v: V, before: (V, V) -> bool, x: Entry<K, V>)
    requires NoneBefore(list, v, before) && x in list
    ensures before(v, x.value)
  {
    if x != list[0] { NoneBeforeMeans(list[1..], v, before, x); }
  }

  lemma {:induction false} SortedSplit<K, V>(list: seq<Entry<K, V>>, before: (V, V) -> bool, i: nat, x: Entry<K, V>, y: Entry<K, V>)
    requires Sorted(list, before) && i <= |list| && x in list[..i] && y in list[i..]
    ensures before(x.value, y.value)
  {
    if x == list[0] {
      assert y in list[1..];
      NoneBeforeMeans(list[1..], list[0].value, before, y);
    } else {
      assert list[1..][..i - 1] == list[1..i] && list[..i] == [list[0]] + list[1..i];
      assert list[1..][i - 1..] == list[i..];
      SortedSplit(list[1..], before, i - 1, x, y);
    }
  }

  lemma {:induction false} PrefixDistinct<K, V>(list: seq<Entry<K, V>>, i: nat, key: K)
    requires i <= |list|
    ensures Absent(list, key) ==> Absent(list[..i], key)
    ensures Distinct(list) ==> Distinct(list[..i])
  {
    if i > 0 {
      PrefixDistinct(list[1..], i - 1, key);
      PrefixDistinct(list[1..], i - 1, list[0].key);
      assert list[..i][1..] == list[1..][..i - 1];
    }
  }
}
