/** The B-tree as an index: on prepared keys its sorted run is the map that the index interface promises. */
module TreeContract {
  import opened Ordering
  import opened SortedMap
  import opened Values
  import opened KeyOrder
  import opened KeyRefinement

  function AsMap(s: seq<Entry>): map<Key, FileOffset> {
    if s == [] then map[] else AsMap(s[1..])[s[0].key := s[0].offset]
  }

  /** No key occurs twice in a sorted run. */
  lemma KeysApart(cmp: Comparator, s: seq<Entry>, k: nat)
    requires TotalPreorder(cmp) && Sorted(cmp, s) && k < |s|
    ensures forall i :: 0 <= i < |s| && i != k ==> s[i].key != s[k].key
  {
    forall i | 0 <= i < |s| && i != k
      ensures s[i].key != s[k].key
    {
      assert cmp(s[k].key, s[k].key) == 0;
      assert cmp(s[i].key, s[k].key) < 0 || cmp(s[k].key, s[i].key) < 0;
    }
  }

  lemma AbsentKey(cmp: Comparator, s: seq<Entry>, key: Key)
    requires TotalPreorder(cmp) && !Has(cmp, s, key)
    ensures forall i :: 0 <= i < |s| ==> s[i].key != key
  {
    assert cmp(key, key) == 0;
  }

  /** The map holds exactly the entries of the run. */
  lemma {:induction false} AsMapHolds(cmp: Comparator, s: seq<Entry>, e: Entry)
    requires TotalPreorder(cmp) && Sorted(cmp, s)
    ensures e in s <==> e.key in AsMap(s) && AsMap(s)[e.key] == e.offset
    decreases |s|
  {
    hide Sorted, TotalPreorder;
    if s != [] {
      KeysApart(cmp, s, 0);
      SortedTail(cmp, s);
      AsMapHolds(cmp, s[1..], e);
      assert s == [s[0]] + s[1..];
    }
  }

  lemma SortedTail(cmp: Comparator, s: seq<Entry>)
    requires Sorted(cmp, s) && s != []
    ensures Sorted(cmp, s[1..])
  {
  }

  lemma {:induction false} AsMapKeys(s: seq<Entry>, key: Key)
    ensures key in AsMap(s) <==> exists i :: 0 <= i < |s| && s[i].key == key
    decreases |s|
  {
    if s != [] {
      AsMapKeys(s[1..], key);
      if i :| 0 <= i < |s[1..]| && s[1..][i].key == key { assert s[i + 1].key == key; }
      if i :| 0 <= i < |s| && s[i].key == key { if i > 0 { assert s[1..][i - 1].key == key; } }
    }
  }

  /** Keys the engine makes: put together from well-typed values. */
  ghost predicate PreparedKey(parts: seq<KeyPart>, key: Key) {
    exists u :: KeyableRow(parts, u) && key == KeyOf(parts, u)
  }

  ghost predicate AllPrepared(parts: seq<KeyPart>, s: seq<Entry>) {
    forall i :: 0 <= i < |s| ==> PreparedKey(parts, s[i].key)
  }

  /** Prepared keys that compare as equal are the same key. */
  lemma {:induction false} PreparedKeysDistinct(parts: seq<KeyPart>, a: Key, b: Key)
    requires PreparedKey(parts, a) && PreparedKey(parts, b)
    ensures Comparing(parts)(a, b) == 0 <==> a == b
  {
    hide KeyOf, CompareFrom, CutAll;
    var u :| KeyableRow(parts, u) && a == KeyOf(parts, u);
    var v :| KeyableRow(parts, v) && b == KeyOf(parts, v);
    SameKeyIffZero(parts, u, v);
  }

  /** search: what the tree finds is what the map holds. */
  lemma {:induction false} SearchIsMapLookup(parts: seq<KeyPart>, s: seq<Entry>, key: Key)
    requires Sorted(Comparing(parts), s) && AllPrepared(parts, s) && PreparedKey(parts, key)
    ensures Lookup(Comparing(parts), s, key) == if key in AsMap(s) then Some(AsMap(s)[key]) else None
  {
    hide Lookup, Sorted, PreparedKey, TotalPreorder, AsMap, Comparing;
    var cmp := Comparing(parts);
    CompoundIsTotalPreorder(parts);
    AsMapKeys(s, key);
    if i :| 0 <= i < |s| && s[i].key == key {
      PreparedKeysDistinct(parts, key, s[i].key);
      LookupHeld(cmp, s, i, key);
      AsMapHolds(cmp, s, s[i]);
    } else {
      forall i | 0 <= i < |s| ensures cmp(key, s[i].key) != 0 { PreparedKeysDistinct(parts, key, s[i].key); }
      LookupAbsent(cmp, s, key);
    }
  }

  lemma {:induction false} SameEntriesSameMap(cmp: Comparator, s: seq<Entry>, m: map<Key, FileOffset>)
    requires TotalPreorder(cmp) && Sorted(cmp, s)
    requires forall e: Entry :: e in s <==> e.key in m && m[e.key] == e.offset
    ensures AsMap(s) == m
  {
    hide Sorted, TotalPreorder, AsMap;
    forall k | k in m
      ensures k in AsMap(s) && AsMap(s)[k] == m[k]
    {
      AsMapHolds(cmp, s, Entry(k, m[k]));
      assert Entry(k, m[k]).key in m && m[Entry(k, m[k]).key] == Entry(k, m[k]).offset;
    }
    forall k | k in AsMap(s)
      ensures k in m
    {
      AsMapHolds(cmp, s, Entry(k, AsMap(s)[k]));
      assert Entry(k, AsMap(s)[k]) in s;
    }
  }

  /** insert: a new key comes into the map. */
  lemma {:induction false} InsertIsMapUpdate(parts: seq<KeyPart>, s: seq<Entry>, e: Entry)
    requires Sorted(Comparing(parts), s) && !Has(Comparing(parts), s, e.key)
    ensures AsMap(InsertSorted(Comparing(parts), s, e)) == AsMap(s)[e.key := e.offset]
  {
    hide Sorted, TotalPreorder, AsMap, Comparing, LowerBound;
    var cmp := Comparing(parts);
    CompoundIsTotalPreorder(parts);
    InsertKeepsSorted(cmp, s, e);
    var t, k := InsertSorted(cmp, s, e), LowerBound(cmp, s, e.key);
    var m := AsMap(s)[e.key := e.offset];
    AbsentKey(cmp, s, e.key);
    forall x: Entry
      ensures x in t <==> x.key in m && m[x.key] == x.offset
    {
      AsMapHolds(cmp, s, x);
      assert s == s[..k] + s[k..];
    }
    SameEntriesSameMap(cmp, t, m);
  }

  /** delete: the key leaves the map. */
  lemma {:induction false} RemoveIsMapRemoval(parts: seq<KeyPart>, s: seq<Entry>, key: Key)
    requires Sorted(Comparing(parts), s) && AllPrepared(parts, s) && PreparedKey(parts, key)
    ensures AsMap(RemoveSorted(Comparing(parts), s, key)) == AsMap(s) - {key}
  {
    hide Sorted, TotalPreorder, AsMap, Comparing, LowerBound, PreparedKey;
    var cmp := Comparing(parts);
    CompoundIsTotalPreorder(parts);
    RemoveKeepsSorted(cmp, s, key);
    FoundIffHas(cmp, s, key);
    var t := RemoveSorted(cmp, s, key);
    forall x: Entry
      ensures x in t <==> x.key in AsMap(s) - {key} && (AsMap(s) - {key})[x.key] == x.offset
    {
      AsMapHolds(cmp, s, x);
      RemovedEntry(parts, s, key, x);
    }
    SameEntriesSameMap(cmp, t, AsMap(s) - {key});
  }

  /** Removal takes the entries under the key, and no other. */
  lemma {:induction false} RemovedEntry(parts: seq<KeyPart>, s: seq<Entry>, key: Key, x: Entry)
    requires TotalPreorder(Comparing(parts)) && Sorted(Comparing(parts), s) && AllPrepared(parts, s) && PreparedKey(parts, key)
    ensures x in RemoveSorted(Comparing(parts), s, key) <==> x in s && x.key != key
  {
    hide TotalPreorder, Sorted, AsMap, Comparing, LowerBound, PreparedKey;
    var cmp := Comparing(parts);
    var k := LowerBound(cmp, s, key);
    FoundIffHas(cmp, s, key);
    if FoundAt(cmp, s, key) {
      PreparedKeysDistinct(parts, key, s[k].key);
      KeysApart(cmp, s, k);
      assert s == s[..k] + [s[k]] + s[k + 1..];
      assert forall i :: 0 <= i < |s[..k]| ==> s[..k][i] == s[i];
      var rest := s[k + 1..];
      assert forall i {:trigger rest[i]} :: 0 <= i < |rest| ==> rest[i] == s[k + 1 + i];
    } else {
      AbsentKey(cmp, s, key);
    }
  }
}
