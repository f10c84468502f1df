/** Why a key search may descend: what lies outside the chosen child is on the right side of the key. */
module TreeOrder {
  import opened Ordering
  import opened Trees
  import opened Contexts

  lemma {:induction false} BeforeEnds(es: seq<Entry>, ks: seq<Tree>)
    requires |es| == |ks| > 0
    ensures |Before(es, ks)| > 0 && Before(es, ks)[|Before(es, ks)| - 1] == es[|es| - 1]
    decreases |es|
  {
    if |es| > 1 { BeforeEnds(es[1..], ks[1..]); }
  }

  /** Everything left of a separator that is below the key is below the key. */
  lemma RunBelow(cmp: Comparator, s: seq<Entry>, key: Key)
    requires TotalPreorder(cmp) && Sorted(cmp, s)
    requires |s| > 0 ==> cmp(key, s[|s| - 1].key) > 0
    ensures AllBelow(cmp, s, key)
  {
    forall i | 0 <= i < |s|
      ensures cmp(s[i].key, key) < 0
    {
      if i < |s| - 1 { LessTransitive(cmp, s[i].key, s[|s| - 1].key, key); }
    }
  }

  lemma RunAbove(cmp: Comparator, s: seq<Entry>, key: Key)
    requires TotalPreorder(cmp) && Sorted(cmp, s)
    requires |s| > 0 ==> cmp(key, s[0].key) < 0
    ensures AllAbove(cmp, s, key)
  {
    forall i | 0 <= i < |s|
      ensures cmp(key, s[i].key) < 0
    {
      if i > 0 { LessTransitive(cmp, key, s[0].key, s[i].key); }
    }
  }

  ghost predicate Inner(t: Tree) {
    !t.leaf && |t.kids| == |t.ents| + 1
  }

  /** The three runs of an inner node around the child chosen for `key`. */
  lemma SidesOfChild(cmp: Comparator, t: Tree, key: Key)
    requires TotalPreorder(cmp) && Inner(t) && Sorted(cmp, InOrder(t))
    requires !FoundAt(cmp, t.ents, key)
    ensures var i := LowerBound(cmp, t.ents, key);
      && Sorted(cmp, InOrder(t.kids[i]))
      && AllBelow(cmp, Before(t.ents[..i], t.kids[..i]), key)
      && AllAbove(cmp, After(t.ents[i..], t.kids[i + 1..]), key)
  {
    var i := LowerBound(cmp, t.ents, key);
    var b, m, a := Before(t.ents[..i], t.kids[..i]), InOrder(t.kids[i]), After(t.ents[i..], t.kids[i + 1..]);
    InOrderAt(t, i);
    SortedConcat(cmp, b + m, a);
    SortedConcat(cmp, b, m);
    if i > 0 { BeforeEnds(t.ents[..i], t.kids[..i]); }
    RunBelow(cmp, b, key);
    RunAbove(cmp, a, key);
  }

  lemma BelowConcat(cmp: Comparator, a: seq<Entry>, b: seq<Entry>, key: Key)
    requires AllBelow(cmp, a, key) && AllBelow(cmp, b, key)
    ensures AllBelow(cmp, a + b, key)
  {
  }

  lemma AboveConcat(cmp: Comparator, a: seq<Entry>, b: seq<Entry>, key: Key)
    requires AllAbove(cmp, a, key) && AllAbove(cmp, b, key)
    ensures AllAbove(cmp, a + b, key)
  {
  }

  /** Cutting a three-part run inside its middle part. */
  lemma CutInside(b: seq<Entry>, m: seq<Entry>, a: seq<Entry>, k: nat)
    requires k <= |m|
    ensures (b + m + a)[..|b| + k] == b + m[..k]
    ensures (b + m + a)[|b| + k..] == m[k..] + a
  {
  }

  /** A key bracketed by its surroundings is looked up, inserted or removed in the middle run alone. */
  lemma BracketedBound(cmp: Comparator, b: seq<Entry>, m: seq<Entry>, a: seq<Entry>, key: Key)
    requires TotalPreorder(cmp) && AllBelow(cmp, b, key) && AllAbove(cmp, a, key)
    ensures LowerBound(cmp, b + m + a, key) == |b| + LowerBound(cmp, m, key)
    ensures FoundAt(cmp, b + m + a, key) <==> FoundAt(cmp, m, key)
  {
    var s := b + m + a;
    var k := LowerBound(cmp, m, key);
    var r := |b| + k;
    forall i | 0 <= i < r
      ensures cmp(key, s[i].key) > 0
    {
      if i < |b| { assert s[i] == b[i]; } else { assert s[i] == m[i - |b|]; }
    }
    if k < |m| {
      assert s[r] == m[k];
    } else if a != [] {
      assert s[r] == a[0];
    } else {
      assert r == |s|;
    }
    LowerBoundUnique(cmp, s, key, r);
  }

  lemma Reassociate(b: seq<Entry>, x: seq<Entry>, y: seq<Entry>, z: seq<Entry>, a: seq<Entry>)
    ensures (b + x) + y + (z + a) == b + (x + y + z) + a
  {
  }

  /** Replacing `m[i..j]` by `y` inside a three-part run. */
  lemma ReplaceInside(b: seq<Entry>, m: seq<Entry>, a: seq<Entry>, i: nat, j: nat, y: seq<Entry>)
    requires i <= j <= |m|
    ensures (b + m + a)[..|b| + i] + y + (b + m + a)[|b| + j..] == b + (m[..i] + y + m[j..]) + a
  {
    CutInside(b, m, a, i);
    CutInside(b, m, a, j);
    Reassociate(b, m[..i], y, m[j..], a);
  }

  lemma BracketedInsert(cmp: Comparator, b: seq<Entry>, m: seq<Entry>, a: seq<Entry>, e: Entry)
    requires TotalPreorder(cmp) && AllBelow(cmp, b, e.key) && AllAbove(cmp, a, e.key)
    ensures InsertSorted(cmp, b + m + a, e) == b + InsertSorted(cmp, m, e) + a
  {
    BracketedBound(cmp, b, m, a, e.key);
    InsertGivenBound(cmp, b, m, a, e);
  }

  lemma InsertGivenBound(cmp: Comparator, b: seq<Entry>, m: seq<Entry>, a: seq<Entry>, e: Entry)
    requires LowerBound(cmp, b + m + a, e.key) == |b| + LowerBound(cmp, m, e.key)
    ensures InsertSorted(cmp, b + m + a, e) == b + InsertSorted(cmp, m, e) + a
  {
    hide LowerBound;
    var k := LowerBound(cmp, m, e.key);
    ReplaceInside(b, m, a, k, k, [e]);
  }

  lemma BracketedRemove(cmp: Comparator, b: seq<Entry>, m: seq<Entry>, a: seq<Entry>, key: Key)
    requires TotalPreorder(cmp) && AllBelow(cmp, b, key) && AllAbove(cmp, a, key)
    ensures RemoveSorted(cmp, b + m + a, key) == b + RemoveSorted(cmp, m, key) + a
  {
    BracketedBound(cmp, b, m, a, key);
    RemoveGivenBound(cmp, b, m, a, key);
  }

  lemma RemoveGivenBound(cmp: Comparator, b: seq<Entry>, m: seq<Entry>, a: seq<Entry>, key: Key)
    requires LowerBound(cmp, b + m + a, key) == |b| + LowerBound(cmp, m, key)
    requires FoundAt(cmp, b + m + a, key) <==> FoundAt(cmp, m, key)
    ensures RemoveSorted(cmp, b + m + a, key) == b + RemoveSorted(cmp, m, key) + a
  {
    hide LowerBound, DropAt;
    if FoundAt(cmp, m, key) {
      RemoveInside(b, m, a, LowerBound(cmp, m, key));
    }
  }

  lemma RemoveInside(b: seq<Entry>, m: seq<Entry>, a: seq<Entry>, k: nat)
    requires k < |m|
    ensures DropAt(b + m + a, |b| + k) == b + DropAt(m, k) + a
  {
    CutInside(b, m, a, k);
    CutInside(b, m, a, k + 1);
    assert |b| + (k + 1) == |b| + k + 1;
    Pairwise(b, m[..k], m[k + 1..], a);
  }

  lemma Pairwise(b: seq<Entry>, x: seq<Entry>, z: seq<Entry>, a: seq<Entry>)
    ensures (b + x) + (z + a) == b + (x + z) + a
  {
  }

  lemma BracketedLookup(cmp: Comparator, b: seq<Entry>, m: seq<Entry>, a: seq<Entry>, key: Key)
    requires TotalPreorder(cmp) && AllBelow(cmp, b, key) && AllAbove(cmp, a, key)
    ensures Lookup(cmp, b + m + a, key) == Lookup(cmp, m, key)
  {
    BracketedBound(cmp, b, m, a, key);
    var k := LowerBound(cmp, m, key);
    if FoundAt(cmp, m, key) { assert (b + m + a)[|b| + k] == m[k]; }
  }

  /** Searching the in-order run of a subtree, with the context known to bracket the key. */
  ghost predicate Brackets(cmp: Comparator, c: Ctx, key: Key)
    requires Fits(c)
  {
    AllBelow(cmp, CtxBefore(c), key) && AllAbove(cmp, CtxAfter(c), key)
  }

  lemma BracketsDown(cmp: Comparator, c: Ctx, t: Tree, key: Key)
    requires TotalPreorder(cmp) && Inner(t) && Fits(c) && Expects(c, t.ref)
    requires Sorted(cmp, InOrder(t)) && Brackets(cmp, c, key) && !FoundAt(cmp, t.ents, key)
    ensures Brackets(cmp, Frame(c, t, LowerBound(cmp, t.ents, key)), key)
    ensures Sorted(cmp, InOrder(t.kids[LowerBound(cmp, t.ents, key)]))
  {
    var i := LowerBound(cmp, t.ents, key);
    SidesOfChild(cmp, t, key);
    BelowConcat(cmp, CtxBefore(c), Before(t.ents[..i], t.kids[..i]), key);
    AboveConcat(cmp, After(t.ents[i..], t.kids[i + 1..]), CtxAfter(c), key);
  }

  /** One step of a descending search. */
  lemma LookupStep(cmp: Comparator, t: Tree, key: Key)
    requires TotalPreorder(cmp) && Inner(t) && Sorted(cmp, InOrder(t))
    ensures var i := LowerBound(cmp, t.ents, key);
      Lookup(cmp, InOrder(t), key)
      == if FoundAt(cmp, t.ents, key) then Some(t.ents[i].offset) else Lookup(cmp, InOrder(t.kids[i]), key)
  {
    var i := LowerBound(cmp, t.ents, key);
    if FoundAt(cmp, t.ents, key) {
      SeparatorFound(cmp, t, i, key);
    } else {
      SidesOfChild(cmp, t, key);
      InOrderAt(t, i);
      BracketedLookup(cmp, Before(t.ents[..i], t.kids[..i]), InOrder(t.kids[i]), After(t.ents[i..], t.kids[i + 1..]), key);
    }
  }

  /** A key equal to separator `i` is found at that separator's place in the in-order run. */
  lemma SeparatorFound(cmp: Comparator, t: Tree, i: nat, key: Key)
    requires TotalPreorder(cmp) && Inner(t) && Sorted(cmp, InOrder(t))
    requires i < |t.ents| && cmp(key, t.ents[i].key) == 0
    ensures Lookup(cmp, InOrder(t), key) == Some(t.ents[i].offset)
    ensures FoundAt(cmp, InOrder(t), key)
  {
    InOrderAround(t, i);
    var b := Before(t.ents[..i], t.kids[..i]) + InOrder(t.kids[i]);
    var a := InOrder(t.kids[i + 1]) + After(t.ents[i + 1..], t.kids[i + 2..]);
    assert InOrder(t) == b + [t.ents[i]] + a;
    SeparatorBrackets(cmp, b, t.ents[i], a, key);
    BracketedLookup(cmp, b, [t.ents[i]], a, key);
    BracketedBound(cmp, b, [t.ents[i]], a, key);
  }

  lemma SeparatorBrackets(cmp: Comparator, b: seq<Entry>, e: Entry, a: seq<Entry>, key: Key)
    requires TotalPreorder(cmp) && Sorted(cmp, b + [e] + a) && cmp(key, e.key) == 0
    ensures AllBelow(cmp, b, key) && AllAbove(cmp, a, key)
  {
    SortedSplit(cmp, b, e, a);
    forall i | 0 <= i < |b| ensures cmp(b[i].key, key) < 0 { LessTransitive(cmp, b[i].key, e.key, key); }
    forall i | 0 <= i < |a| ensures cmp(key, a[i].key) < 0 { LessTransitive(cmp, key, e.key, a[i].key); }
  }

  lemma {:induction false} BeforeBounds(cmp: Comparator, es: seq<Entry>, ks: seq<Tree>, key: Key)
    requires |es| == |ks| && AllBelow(cmp, Before(es, ks), key)
    ensures AllBelow(cmp, es, key)
    decreases |es|
  {
    if es != [] {
      var first := InOrder(ks[0]) + [es[0]];
      var rest := Before(es[1..], ks[1..]);
      assert Before(es, ks) == first + rest;
      assert forall i :: 0 <= i < |rest| ==> rest[i] == (first + rest)[|first| + i];
      BeforeBounds(cmp, es[1..], ks[1..], key);
      assert (first + rest)[|first| - 1] == es[0];
    }
  }

  /** A separator just right of an alternating run and just left of another has its slot between them. */
  lemma SlotBetween(cmp: Comparator, es: seq<Entry>, ks: seq<Tree>, i: nat, key: Key)
    requires TotalPreorder(cmp) && |ks| == |es| + 1 && i <= |es|
    requires AllBelow(cmp, Before(es[..i], ks[..i]), key)
    requires AllAbove(cmp, After(es[i..], ks[i + 1..]), key)
    ensures LowerBound(cmp, es, key) == i
  {
    BeforeBounds(cmp, es[..i], ks[..i], key);
    forall j | 0 <= j < i ensures cmp(key, es[j].key) > 0 { assert es[..i][j] == es[j]; }
    if i < |es| {
      assert After(es[i..], ks[i + 1..])[0] == es[i];
    }
    LowerBoundUnique(cmp, es, key, i);
  }
}
