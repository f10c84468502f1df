/** Keys, comparators and sorted runs of index entries: the abstract view of an index. */
module Ordering {
  newtype byte = x: int | 0 <= x < 0x100

  type Key = seq<byte>
  type FileOffset = nat
  type Comparator = (Key, Key) -> int

  datatype Entry = Entry(key: Key, offset: FileOffset)
  datatype Option<+T> = None | Some(value: T)

  /** What the tree needs of its comparator. Two different keys may compare as 0. */
  ghost predicate TotalPreorder(cmp: Comparator) {
    && (forall a :: cmp(a, a) == 0)
    && (forall a, b :: cmp(a, b) < 0 <==> cmp(b, a) > 0)
    && (forall a, b, c :: cmp(a, b) <= 0 && cmp(b, c) <= 0 ==> cmp(a, c) <= 0)
  }

  lemma LessTransitive(cmp: Comparator, a: Key, b: Key, c: Key)
    requires TotalPreorder(cmp)
    requires cmp(a, b) <= 0 && cmp(b, c) <= 0
    requires cmp(a, b) < 0 || cmp(b, c) < 0
    ensures cmp(a, c) < 0 && cmp(c, a) > 0
  {
  }

  ghost predicate Sorted(cmp: Comparator, s: seq<Entry>) {
    forall i, j :: 0 <= i < j < |s| ==> cmp(s[i].key, s[j].key) < 0
  }

  ghost predicate AllBelow(cmp: Comparator, s: seq<Entry>, key: Key) {
    forall i :: 0 <= i < |s| ==> cmp(s[i].key, key) < 0
  }

  ghost predicate AllAbove(cmp: Comparator, s: seq<Entry>, key: Key) {
    forall i :: 0 <= i < |s| ==> cmp(key, s[i].key) < 0
  }

  ghost predicate Has(cmp: Comparator, s: seq<Entry>, key: Key) {
    exists i :: 0 <= i < |s| && cmp(key, s[i].key) == 0
  }

  /** The first position whose key is not below `key`: what every key loop of the tree computes. */
  function LowerBound(cmp: Comparator, s: seq<Entry>, key: Key): (r: nat)
    ensures r <= |s|
    ensures forall i :: 0 <= i < r ==> cmp(key, s[i].key) > 0
    ensures r < |s| ==> cmp(key, s[r].key) <= 0
  {
    if s == [] || cmp(key, s[0].key) <= 0 then 0
    else
      var n := LowerBound(cmp, s[1..], key);
      assert forall i :: 1 <= i < n + 1 ==> s[i] == s[1..][i - 1];
      n + 1
  }

  lemma LowerBoundUnique(cmp: Comparator, s: seq<Entry>, key: Key, r: nat)
    requires r <= |s|
    requires forall i :: 0 <= i < r ==> cmp(key, s[i].key) > 0
    requires r < |s| ==> cmp(key, s[r].key) <= 0
    ensures LowerBound(cmp, s, key) == r
  {
  }

  /** Whether `key` sits at its lower bound, the only place a sorted run can hold it. */
  predicate FoundAt(cmp: Comparator, s: seq<Entry>, key: Key) {
    var k := LowerBound(cmp, s, key);
    k < |s| && cmp(key, s[k].key) == 0
  }

  function Lookup(cmp: Comparator, s: seq<Entry>, key: Key): Option<FileOffset> {
    if FoundAt(cmp, s, key) then Some(s[LowerBound(cmp, s, key)].offset) else None
  }

  function InsertSorted(cmp: Comparator, s: seq<Entry>, e: Entry): seq<Entry> {
    var k := LowerBound(cmp, s, e.key);
    s[..k] + [e] + s[k..]
  }

  lemma InsertSortedAt(cmp: Comparator, s: seq<Entry>, e: Entry, j: nat)
    requires j <= |s|
    ensures |InsertSorted(cmp, s, e)| == |s| + 1
    ensures InsertSorted(cmp, s, e)[j]
         == if j < LowerBound(cmp, s, e.key) then s[j] else if j == LowerBound(cmp, s, e.key) then e else s[j - 1]
  {
    hide LowerBound;
  }

  function DropAt(s: seq<Entry>, k: nat): seq<Entry>
    requires k < |s|
  {
    s[..k] + s[k + 1..]
  }

  function RemoveSorted(cmp: Comparator, s: seq<Entry>, key: Key): seq<Entry> {
    if FoundAt(cmp, s, key) then DropAt(s, LowerBound(cmp, s, key)) else s
  }

  lemma FoundIffHas(cmp: Comparator, s: seq<Entry>, key: Key)
    requires TotalPreorder(cmp) && Sorted(cmp, s)
    ensures FoundAt(cmp, s, key) <==> Has(cmp, s, key)
  {
    var k := LowerBound(cmp, s, key);
    if i :| 0 <= i < |s| && cmp(key, s[i].key) == 0 {
      if k < i {
        assert cmp(s[k].key, s[i].key) < 0;
        if cmp(key, s[k].key) < 0 {
          LessTransitive(cmp, key, s[k].key, s[i].key);
        }
      }
    }
  }

  lemma InsertKeepsSorted(cmp: Comparator, s: seq<Entry>, e: Entry)
    requires TotalPreorder(cmp) && Sorted(cmp, s)
    requires !Has(cmp, s, e.key)
    ensures Sorted(cmp, InsertSorted(cmp, s, e))
  {
    var k := LowerBound(cmp, s, e.key);
    forall i | 0 <= i < |s| ensures if i < k then cmp(s[i].key, e.key) < 0 else cmp(e.key, s[i].key) < 0 {
      AroundLowerBound(cmp, s, e.key, i);
    }
    hide TotalPreorder, LowerBound, Has;
    SortedAround(cmp, s, e, k);
  }

  lemma AroundLowerBound(cmp: Comparator, s: seq<Entry>, key: Key, i: nat)
    requires TotalPreorder(cmp) && Sorted(cmp, s) && !Has(cmp, s, key) && i < |s|
    ensures if i < LowerBound(cmp, s, key) then cmp(s[i].key, key) < 0 else cmp(key, s[i].key) < 0
  {
    hide LowerBound;
    var k := LowerBound(cmp, s, key);
    if k < i { LessTransitive(cmp, key, s[k].key, s[i].key); }
  }

  lemma SortedAround(cmp: Comparator, s: seq<Entry>, e: Entry, k: nat)
    requires Sorted(cmp, s) && k <= |s|
    requires forall i :: 0 <= i < |s| ==> if i < k then cmp(s[i].key, e.key) < 0 else cmp(e.key, s[i].key) < 0
    ensures Sorted(cmp, s[..k] + [e] + s[k..])
  {
  }

  lemma RemoveKeepsSorted(cmp: Comparator, s: seq<Entry>, key: Key)
    requires Sorted(cmp, s)
    ensures Sorted(cmp, RemoveSorted(cmp, s, key))
  {
  }

  /** A sorted run split by a separator is sorted on each side and separated by it. */
  lemma SortedSplit(cmp: Comparator, a: seq<Entry>, e: Entry, b: seq<Entry>)
    requires Sorted(cmp, a + [e] + b)
    ensures Sorted(cmp, a) && Sorted(cmp, b)
    ensures AllBelow(cmp, a, e.key) && AllAbove(cmp, b, e.key)
  {
    var s := a + [e] + b;
    assert forall i :: 0 <= i < |a| ==> s[i] == a[i];
    assert s[|a|] == e;
    assert forall i :: 0 <= i < |b| ==> s[|a| + 1 + i] == b[i];
  }

  lemma SortedConcat(cmp: Comparator, a: seq<Entry>, b: seq<Entry>)
    requires Sorted(cmp, a + b)
    ensures Sorted(cmp, a) && Sorted(cmp, b)
    ensures forall i, j :: 0 <= i < |a| && 0 <= j < |b| ==> cmp(a[i].key, b[j].key) < 0
  {
    var s := a + b;
    assert forall i :: 0 <= i < |a| ==> s[i] == a[i];
    assert forall i :: 0 <= i < |b| ==> s[|a| + i] == b[i];
  }
}
