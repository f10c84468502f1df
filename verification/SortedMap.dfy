/** A sorted run of entries is a finite map: insertion, removal and lookup obey the laws of one. */
module SortedMap {
  import opened Ordering

  lemma LookupHeld(cmp: Comparator, s: seq<Entry>, i: nat, key: Key)
    requires TotalPreorder(cmp) && Sorted(cmp, s) && i < |s| && cmp(key, s[i].key) == 0
    ensures Lookup(cmp, s, key) == Some(s[i].offset)
  {
    forall j | 0 <= j < i
      ensures cmp(key, s[j].key) > 0
    {
      LessTransitive(cmp, s[j].key, s[i].key, key);
    }
    LowerBoundUnique(cmp, s, key, i);
  }

  lemma LookupAbsent(cmp: Comparator, s: seq<Entry>, key: Key)
    requires TotalPreorder(cmp) && Sorted(cmp, s) && !Has(cmp, s, key)
    ensures Lookup(cmp, s, key) == None
  {
    FoundIffHas(cmp, s, key);
  }

  /** What is looked up after an insertion. */
  lemma {:induction false} LookupAfterInsert(cmp: Comparator, s: seq<Entry>, e: Entry, key: Key)
    requires TotalPreorder(cmp) && Sorted(cmp, s) && !Has(cmp, s, e.key)
    ensures Lookup(cmp, InsertSorted(cmp, s, e), key) == if cmp(key, e.key) == 0 then Some(e.offset) else Lookup(cmp, s, key)
  {
    hide LowerBound, Lookup;
    var t, k := InsertSorted(cmp, s, e), LowerBound(cmp, s, e.key);
    InsertKeepsSorted(cmp, s, e);
    if cmp(key, e.key) == 0 {
      LookupHeld(cmp, t, k, key);
    } else if i :| 0 <= i < |s| && cmp(key, s[i].key) == 0 {
      LookupHeld(cmp, s, i, key);
      LookupHeld(cmp, t, if i < k then i else i + 1, key);
    } else {
      LookupAbsent(cmp, s, key);
      assert forall i :: 0 <= i < |t| ==> t[i] == e || t[i] in s;
      LookupAbsent(cmp, t, key);
    }
  }

  /** What is looked up after a removal. */
  lemma {:induction false} LookupAfterRemove(cmp: Comparator, s: seq<Entry>, gone: Key, key: Key)
    requires TotalPreorder(cmp) && Sorted(cmp, s)
    ensures Lookup(cmp, RemoveSorted(cmp, s, gone), key) == if cmp(key, gone) == 0 then None else Lookup(cmp, s, key)
  {
    hide LowerBound, Lookup, Sorted;
    var t, k := RemoveSorted(cmp, s, gone), LowerBound(cmp, s, gone);
    RemoveKeepsSorted(cmp, s, gone);
    FoundIffHas(cmp, s, gone);
    if cmp(key, gone) == 0 {
      GoneIsGone(cmp, s, gone, key);
      LookupAbsent(cmp, t, key);
    } else if i :| 0 <= i < |s| && cmp(key, s[i].key) == 0 {
      LookupHeld(cmp, s, i, key);
      if FoundAt(cmp, s, gone) {
        SameClass(cmp, key, s[i].key, gone);
        LookupHeld(cmp, t, if i < k then i else i - 1, key);
      }
    } else {
      LookupAbsent(cmp, s, key);
      assert forall i :: 0 <= i < |t| ==> t[i] in s;
      LookupAbsent(cmp, t, key);
    }
  }

  lemma SameClass(cmp: Comparator, a: Key, b: Key, c: Key)
    requires TotalPreorder(cmp) && cmp(a, b) == 0 && cmp(a, c) != 0
    ensures cmp(c, b) != 0
  {
  }

  lemma GoneIsGone(cmp: Comparator, s: seq<Entry>, gone: Key, key: Key)
    requires TotalPreorder(cmp) && Sorted(cmp, s) && cmp(key, gone) == 0
    ensures !Has(cmp, RemoveSorted(cmp, s, gone), key)
  {
    FoundIffHas(cmp, s, gone);
    var t, k := RemoveSorted(cmp, s, gone), LowerBound(cmp, s, gone);
    forall i | 0 <= i < |t|
      ensures cmp(key, t[i].key) != 0
    {
      if FoundAt(cmp, s, gone) {
        if i < k { LessTransitive(cmp, t[i].key, gone, key); }
        else { LessTransitive(cmp, gone, s[k].key, s[i + 1].key); LessTransitive(cmp, key, gone, s[i + 1].key); }
      } else {
        if cmp(key, t[i].key) == 0 { SameAs(cmp, gone, key, t[i].key); }
      }
    }
  }

  lemma SameAs(cmp: Comparator, a: Key, b: Key, c: Key)
    requires TotalPreorder(cmp) && cmp(b, a) == 0 && cmp(b, c) == 0
    ensures cmp(a, c) == 0
  {
  }
}
