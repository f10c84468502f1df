/** Deletion as written is right on the safe branches and on no others: a merge of inner nodes never is. */
module DeleteExact {
  import opened Ordering
  import opened Layout
  import opened Trees
  import opened Contexts
  import opened NodeOps
  import opened TreeOrder
  import opened Rebalance
  import opened DeleteSpec
  import opened DeleteCorrect
  import opened InnerMerges
  import opened DeleteTheorem

  /** What the merge of children `k` and `k + 1` should have amounted to: one child with the run of both. */
  ghost function Ideal(t: Tree, k: nat): Tree
    requires Inner(t) && k < |t.ents|
  {
    WithOne(t, k, Tree(t.kids[k].ref, false, [t.ents[k]], [t.kids[k], t.kids[k + 1]]))
  }

  ghost function BothRuns(t: Tree, k: nat): seq<Entry>
    requires Inner(t) && k < |t.ents|
  {
    InOrder(t.kids[k]) + [t.ents[k]] + InOrder(t.kids[k + 1])
  }

  lemma IdealRun(t: Tree, k: nat)
    requires Inner(t) && k < |t.ents|
    ensures Inner(Ideal(t, k)) && k < |Ideal(t, k).kids| && InOrder(Ideal(t, k)) == InOrder(t)
    ensures InOrder(Ideal(t, k).kids[k]) == BothRuns(t, k)
  {
    hide InOrder, Before, After, WithOne;
    InOrderAround(t, k);
    PairRun(t.kids[k].ref, t.kids[k], t.ents[k], t.kids[k + 1]);
    WithOneInOrder(t, k, Tree(t.kids[k].ref, false, [t.ents[k]], [t.kids[k], t.kids[k + 1]]));
    IdealParts(t, k);
  }

  lemma IdealParts(t: Tree, k: nat)
    requires Inner(t) && k < |t.ents|
    ensures Inner(Ideal(t, k)) && k < |Ideal(t, k).kids| && Ideal(t, k).ents == t.ents[..k] + t.ents[k + 1..]
    ensures Ideal(t, k).kids[k] == Tree(t.kids[k].ref, false, [t.ents[k]], [t.kids[k], t.kids[k + 1]])
  {
  }

  lemma PairRun(n: BtreeNode, x: Tree, e: Entry, y: Tree)
    ensures InOrder(Tree(n, false, [e], [x, y])) == InOrder(x) + [e] + InOrder(y)
  {
    var z := Tree(n, false, [e], [x, y]);
    InOrderAround(z, 0);
    assert z.ents[..0] == [] && z.kids[..0] == [] && z.ents[1..] == [] && z.kids[2..] == [];
  }

  /** The run of both children around the right one's last entry: all below it, then it, then some above it. */
  ghost predicate Around(cmp: Comparator, s: seq<Entry>, x: seq<Entry>, e: Entry, y: seq<Entry>) {
    s == x + [e] + y && AllBelow(cmp, x, e.key) && AllAbove(cmp, y, e.key) && y != []
  }

  /** Nothing that ends below that entry is what is left of the run when one key is removed. */
  lemma TooLow(cmp: Comparator, s: seq<Entry>, x: seq<Entry>, e: Entry, y: seq<Entry>, low: seq<Entry>, key: Key)
    requires TotalPreorder(cmp) && Around(cmp, s, x, e, y) && EndsBelow(cmp, low, e.key)
    ensures low != RemoveSorted(cmp, s, key)
  {
    var r, k := RemoveSorted(cmp, s, key), LowerBound(cmp, s, key);
    hide LowerBound;
    assert s[|x|] == e && s[|s| - 1] == y[|y| - 1];
    assert r != [] && (r[|r| - 1] == s[|s| - 1] || (k == |s| - 1 && r[|r| - 1] == s[|s| - 2]));
    if |y| > 1 { assert s[|s| - 2] == y[|y| - 2]; }
    assert cmp(e.key, e.key) == 0;
  }

  lemma NotLast(cmp: Comparator, s: seq<Entry>, x: seq<Entry>, e: Entry, y: seq<Entry>, r: seq<Entry>)
    requires TotalPreorder(cmp) && Around(cmp, s, x, e, y)
    ensures r + [e] != s
  {
    assert (r + [e])[|r|] == e && s[|s| - 1] == y[|y| - 1];
    assert cmp(e.key, e.key) == 0;
  }

  /** Two inner nodes of the right shape, about to merge. */
  ghost predicate MergingPair(l: BtreeLayout, cmp: Comparator, x: Tree, s: Entry, y: Tree, h: nat) {
    && TotalPreorder(cmp) && Usable(l) && h > 0
    && Shaped(x, h, l.minKeys, l.minKeys, l.maxKeys) && Shaped(y, h, l.minKeys, l.minKeys, l.maxKeys)
    && Sorted(cmp, InOrder(x) + [s] + InOrder(y))
  }

  ghost function FrontOf(x: Tree, s: Entry, y: Tree): seq<Entry>
    requires Inner(y) && |y.ents| > 0
  {
    var m := |y.ents| - 1;
    InOrder(x) + [s] + (Before(y.ents[..m], y.kids[..m]) + InOrder(y.kids[m]))
  }

  lemma PairAround(l: BtreeLayout, cmp: Comparator, x: Tree, s: Entry, y: Tree, h: nat)
    requires MergingPair(l, cmp, x, s, y, h)
    ensures Inner(x) && Inner(y) && |x.ents| > 0 && |y.ents| > 0
    ensures var m := |y.ents| - 1;
      Around(cmp, InOrder(x) + [s] + InOrder(y), FrontOf(x, s, y), y.ents[m], InOrder(y.kids[m + 1]))
  {
    hide InOrder, Before, Sorted, TotalPreorder;
    var m := |y.ents| - 1;
    RoomyPair(l, cmp, x, s, y, h);
    LastTwoKids(y);
    var p, r := Before(y.ents[..m], y.kids[..m]) + InOrder(y.kids[m]), InOrder(y.kids[m + 1]);
    Reassociated(InOrder(x), s, p, y.ents[m], r);
    SortedSplit(cmp, FrontOf(x, s, y), y.ents[m], r);
  }

  lemma RoomyPair(l: BtreeLayout, cmp: Comparator, x: Tree, s: Entry, y: Tree, h: nat)
    requires MergingPair(l, cmp, x, s, y, h)
    ensures Inner(x) && Inner(y) && |x.ents| > 0 && |y.ents| > 0 && InOrder(y.kids[|y.ents|]) != []
  {
    hide InOrder, Sorted;
    KidShaped(l, y, h, l.minKeys, |y.ents|);
    KidFilled(l, y.kids[|y.ents|], h - 1);
  }

  lemma KidFilled(l: BtreeLayout, t: Tree, h: nat)
    requires Usable(l) && Shaped(t, h, l.minKeys, l.minKeys, l.maxKeys)
    ensures InOrder(t) != []
  {
    RunHasEntries(t);
  }

  /** The run of an inner node, opened before and after its last entry. */
  lemma LastTwoKids(y: Tree)
    requires Inner(y) && |y.ents| > 0
    ensures var m := |y.ents| - 1;
      InOrder(y) == (Before(y.ents[..m], y.kids[..m]) + InOrder(y.kids[m])) + [y.ents[m]] + InOrder(y.kids[m + 1])
  {
    var m := |y.ents| - 1;
    InOrderAround(y, m);
    assert y.ents[m + 1..] == [] && y.kids[m + 2..] == [];
    hide InOrder, Before;
    Reopened(Before(y.ents[..m], y.kids[..m]), InOrder(y.kids[m]), y.ents[m], InOrder(y.kids[m + 1]));
  }

  lemma Reopened(b: seq<Entry>, n: seq<Entry>, e: Entry, r: seq<Entry>)
    ensures b + (n + [e] + r) + [] == (b + n) + [e] + r
  {
  }

  lemma Reassociated(x: seq<Entry>, s: Entry, p: seq<Entry>, e: Entry, r: seq<Entry>)
    ensures x + [s] + (p + [e] + r) == (x + [s] + p) + [e] + r
  {
  }

  lemma OwnBelow(cmp: Comparator, x: Tree, b: Key)
    requires Inner(x) && AllBelow(cmp, InOrder(x), b)
    ensures AllBelow(cmp, x.ents, b)
  {
    InOrderLast(x);
    var f := Before(x.ents, x.kids[..|x.ents|]);
    assert forall i :: 0 <= i < |f| ==> f[i] == InOrder(x)[i];
    BeforeBounds(cmp, x.ents, x.kids[..|x.ents|], b);
  }

  lemma BelowParts(cmp: Comparator, x: seq<Entry>, s: Entry, p: seq<Entry>, q: seq<Entry>, b: Key)
    requires AllBelow(cmp, x + [s] + (p + q), b)
    ensures AllBelow(cmp, x, b) && cmp(s.key, b) < 0 && AllBelow(cmp, p, b) && AllBelow(cmp, q, b)
  {
    var r := x + [s] + (p + q);
    assert forall i :: 0 <= i < |x| ==> r[i] == x[i];
    assert r[|x|] == s;
    assert forall i :: 0 <= i < |p| ==> r[|x| + 1 + i] == p[i];
    assert forall i :: 0 <= i < |q| ==> r[|x| + 1 + |p| + i] == q[i];
  }

  /** The merged node ends low: in the child that comes before the right node's last entry. */
  lemma {:induction false} MergedEndsLow(l: BtreeLayout, cmp: Comparator, x: Tree, s: Entry, y: Tree, h: nat, between: Tree)
    requires MergingPair(l, cmp, x, s, y, h)
    ensures Inner(x) && Inner(y) && |y.ents| > 0
    ensures LowEnd(l, cmp, Tree(x.ref, x.leaf, x.ents + [s] + y.ents, x.kids + [between] + y.kids[..|y.ents|]), h, y.ents[|y.ents| - 1].key)
  {
    PairAround(l, cmp, x, s, y, h);
    hide InOrder, Before;
    var m := |y.ents| - 1;
    var e := y.ents[m];
    BelowParts(cmp, InOrder(x), s, Before(y.ents[..m], y.kids[..m]), InOrder(y.kids[m]), e.key);
    OwnBelow(cmp, x, e.key);
    BeforeBounds(cmp, y.ents[..m], y.kids[..m], e.key);
    KidShaped(l, y, h, l.minKeys, m);
    var es := x.ents + [s] + y.ents;
    assert es[|es| - 1] == e && cmp(e.key, e.key) == 0;
    forall i | 0 <= i < |es| ensures cmp(es[i].key, e.key) <= 0 {
      if |x.ents| < i < |es| - 1 { assert es[i] == y.ents[..m][i - |x.ents| - 1]; }
    }
    var z := x.kids + [between] + y.kids[..|y.ents|];
    assert z[|es|] == y.kids[m];
  }

  // the level at which they merge

  ghost predicate Merging(l: BtreeLayout, cmp: Comparator, t: Tree, key: Key, h: nat, lo: nat) {
    && Sought(l, cmp, t, key, h, lo) && h > 0 && Inner(t) && |t.ents| > 0
    && !EnsureMin(l, t, LowerBound(cmp, t.ents, key)).Deleted?
  }

  lemma {:induction false} MergingFacts(l: BtreeLayout, cmp: Comparator, t: Tree, key: Key, h: nat, lo: nat, slot: Option<Tree>) returns (k: nat)
    requires Merging(l, cmp, t, key, h, lo)
    ensures k < |t.ents| && RemedyFor(l, t, LowerBound(cmp, t.ents, key)) == MergeAt(k)
    ensures var pos := LowerBound(cmp, t.ents, key); k == if pos > 0 then pos - 1 else pos
    ensures h > 1 && MergingPair(l, cmp, t.kids[k], t.ents[k], t.kids[k + 1], h - 1) && Inner(t.kids[k + 1])
    ensures Rebalanced(l, t, LowerBound(cmp, t.ents, key), slot) == Deleted(InnerMerged(t, k, slot))
  {
    hide LowerBound, InOrder, InnerMerged, Has, TotalPreorder, Sorted;
    var pos := LowerBound(cmp, t.ents, key);
    k := if pos > 0 then pos - 1 else pos;
    RebalancedIs(l, t, h, lo, pos, slot);
    KidsAlike(l, t, h, lo, k);
    KidShaped(l, t, h, lo + 1, k);
    KidShaped(l, t, h, lo + 1, k + 1);
    InOrderAround(t, k);
    hide Before, After, Shaped, BothRuns;
    SortedConcat(cmp, Before(t.ents[..k], t.kids[..k]) + BothRuns(t, k), After(t.ents[k + 1..], t.kids[k + 2..]));
    SortedConcat(cmp, Before(t.ents[..k], t.kids[..k]), BothRuns(t, k));
  }

  lemma SecondAbove(cmp: Comparator, t: Tree)
    requires TotalPreorder(cmp) && Inner(t) && Sorted(cmp, InOrder(t)) && |t.ents| > 1
    ensures cmp(t.ents[0].key, t.ents[1].key) < 0
  {
    assert cmp(t.ents[0].key, t.ents[0].key) == 0;
    KeyAt(cmp, t, 0, t.ents[0].key);
    var n, a := InOrder(t.kids[1]), After(t.ents[1..], t.kids[2..]);
    assert a[0] == t.ents[1];
    assert (n + a)[|n|] == a[0];
  }

  /** The second comparison picks the merged node. */
  lemma MergedPosition(cmp: Comparator, t: Tree, key: Key, k: nat, u: seq<Entry>)
    requires TotalPreorder(cmp) && Inner(t) && Sorted(cmp, InOrder(t)) && |t.ents| > 0
    requires var pos := LowerBound(cmp, t.ents, key); k == if pos > 0 then pos - 1 else pos
    requires k < |t.ents| && u == t.ents[..k] + t.ents[k + 1..]
    ensures LowerBound(cmp, u, key) == k
  {
    hide InOrder, LowerBound, Sorted;
    var pos := LowerBound(cmp, t.ents, key);
    if pos == 0 && |t.ents| > 1 {
      SecondAbove(cmp, t);
      LessTransitive(cmp, key, t.ents[0].key, t.ents[1].key);
    }
    hide TotalPreorder;
    LowerBoundUnique(cmp, u, key, k);
  }

  /** The key is held in one of the two merging children, or separates them, or stands right behind them. */
  lemma MergingHolds(l: BtreeLayout, cmp: Comparator, t: Tree, key: Key, h: nat, lo: nat, k: nat)
    requires Merging(l, cmp, t, key, h, lo) && k < |t.ents|
    requires var pos := LowerBound(cmp, t.ents, key); k == if pos > 0 then pos - 1 else pos
    requires FoundAt(cmp, t.ents, key) ==> LowerBound(cmp, t.ents, key) == 0
    ensures Has(cmp, BothRuns(t, k), key)
  {
    hide LowerBound, InOrder, Has;
    var pos := LowerBound(cmp, t.ents, key);
    if FoundAt(cmp, t.ents, key) {
      HasEntry(cmp, InOrder(t.kids[k]), t.ents[k], InOrder(t.kids[k + 1]), key);
    } else {
      HeldBelow(cmp, t, key);
      if pos == k {
        HasAtFront(cmp, InOrder(t.kids[k]), t.ents[k], InOrder(t.kids[k + 1]), key);
      } else {
        HasAtEnd(cmp, InOrder(t.kids[k]), t.ents[k], InOrder(t.kids[k + 1]), key);
      }
    }
  }

  ghost function MergedNode(t: Tree, k: nat, slot: Option<Tree>): Tree
    requires Inner(t) && k < |t.ents| && Inner(t.kids[k + 1])
  {
    var x, y := t.kids[k], t.kids[k + 1];
    var between := if slot.Some? then slot.value else NoNode(x.ref);
    Tree(x.ref, x.leaf, x.ents + [t.ents[k]] + y.ents, x.kids + [between] + y.kids[..|y.ents|])
  }

  lemma MergedParts(t: Tree, k: nat, slot: Option<Tree>)
    requires Inner(t) && k < |t.ents| && Inner(t.kids[k + 1]) && |t.kids[k + 1].ents| > 0
    ensures var u, z := InnerMerged(t, k, slot), MergedNode(t, k, slot);
      && Inner(u) && k < |u.kids| && u.kids[k] == z && u.ents == t.ents[..k] + t.ents[k + 1..]
      && z.ents != [] && z.ents[|z.ents| - 1] == t.kids[k + 1].ents[|t.kids[k + 1].ents| - 1]
  {
  }

  /** Once child `k` is replaced, it does not matter how the two merged. */
  lemma SameFilled(t: Tree, k: nat, slot: Option<Tree>, e: Entry, left: Tree)
    requires Inner(t) && k < |t.ents| && Inner(t.kids[k + 1])
    ensures Inner(Ideal(t, k)) && k < |Ideal(t, k).kids| && Inner(InnerMerged(t, k, slot)) && k < |InnerMerged(t, k, slot).kids|
    ensures Refill(InnerMerged(t, k, slot), k, left) == Refill(Ideal(t, k), k, left)
    ensures Overwrite(InnerMerged(t, k, slot), k, e, left) == Overwrite(Ideal(t, k), k, e, left)
  {
    assert InnerMerged(t, k, slot).kids[k := left] == Ideal(t, k).kids[k := left];
  }

  /** What a deletion leaves that merges two inner nodes here: the merged node's remains, in the place of the two. */
  lemma {:induction false} MergedStep(l: BtreeLayout, cmp: Comparator, t: Tree, key: Key, h: nat, lo: nat, dead: Slots, k: nat)
    returns (e: Entry, next: Key)
    requires Merging(l, cmp, t, key, h, lo) && Delete(l, cmp, t, key, h, dead).Deleted?
    requires k < |t.ents| && RemedyFor(l, t, LowerBound(cmp, t.ents, key)) == MergeAt(k)
    ensures Inner(Ideal(t, k)) && k < |Ideal(t, k).kids| && Inner(t.kids[k + 1]) && |t.kids[k + 1].ents| > 0
    ensures e == t.kids[k + 1].ents[|t.kids[k + 1].ents| - 1]
    ensures var below := Delete(l, cmp, MergedNode(t, k, dead(h)), next, h - 1, dead);
      && below.Deleted?
      && Delete(l, cmp, t, key, h, dead).tree
         == if FoundAt(cmp, t.ents, key) then Overwrite(Ideal(t, k), k, e, below.tree) else Refill(Ideal(t, k), k, below.tree)
  {
    hide LowerBound, InOrder, Has, FoundAt, Rebalanced, MergingPair, RemedyFor, EnsureMin, InnerMerged, MergedNode, Ideal, Overwrite, Refill;
    var k2 := MergingFacts(l, cmp, t, key, h, lo, dead(h));
    NotLeaf(l, t, h, lo);
    PairFilled(l, cmp, t.kids[k], t.ents[k], t.kids[k + 1], h - 1);
    MergedParts(t, k, dead(h));
    MergedPosition(cmp, t, key, k, InnerMerged(t, k, dead(h)).ents);
    e := t.kids[k + 1].ents[|t.kids[k + 1].ents| - 1];
    next := if FoundAt(cmp, t.ents, key) then e.key else key;
    SameFilled(t, k, dead(h), e, Delete(l, cmp, MergedNode(t, k, dead(h)), next, h - 1, dead).tree);
  }

  lemma PairFilled(l: BtreeLayout, cmp: Comparator, x: Tree, s: Entry, y: Tree, h: nat)
    requires MergingPair(l, cmp, x, s, y, h)
    ensures Inner(y) && |y.ents| > 0
  {
  }

  lemma {:induction false} MergedDelete(l: BtreeLayout, cmp: Comparator, t: Tree, key: Key, h: nat, lo: nat, dead: Slots, k: nat)
    returns (e: Entry, left: Tree)
    requires Merging(l, cmp, t, key, h, lo) && Delete(l, cmp, t, key, h, dead).Deleted?
    requires k < |t.ents| && RemedyFor(l, t, LowerBound(cmp, t.ents, key)) == MergeAt(k)
    ensures Inner(Ideal(t, k)) && k < |Ideal(t, k).kids| && Inner(t.kids[k + 1]) && |t.kids[k + 1].ents| > 0
    ensures e == t.kids[k + 1].ents[|t.kids[k + 1].ents| - 1] && EndsBelow(cmp, InOrder(left), e.key)
    ensures Delete(l, cmp, t, key, h, dead).tree
         == if FoundAt(cmp, t.ents, key) then Overwrite(Ideal(t, k), k, e, left) else Refill(Ideal(t, k), k, left)
  {
    hide LowerBound, InOrder, Has, FoundAt, LowEnd, Rebalanced, RemedyFor, EnsureMin, InnerMerged, Ideal, Overwrite, Refill, Delete, Shaped;
    var k2 := MergingFacts(l, cmp, t, key, h, lo, dead(h));
    var next;
    e, next := MergedStep(l, cmp, t, key, h, lo, dead, k);
    var between := if dead(h).Some? then dead(h).value else NoNode(t.kids[k].ref);
    MergedEndsLow(l, cmp, t.kids[k], t.ents[k], t.kids[k + 1], h - 1, between);
    left := Delete(l, cmp, MergedNode(t, k, dead(h)), next, h - 1, dead).tree;
    DeleteEndsLow(l, cmp, MergedNode(t, k, dead(h)), next, h - 1, e.key, dead);
  }

  /** Found as a separator, and its left child merged with the one before. */
  lemma {:induction false} MergedBesideWrong(cmp: Comparator, t: Tree, key: Key, k: nat, e: Entry, left: Tree, x: seq<Entry>, y: seq<Entry>)
    requires TotalPreorder(cmp) && Inner(t) && Sorted(cmp, InOrder(t)) && k + 1 < |t.ents| && cmp(key, t.ents[k + 1].key) == 0
    requires Around(cmp, BothRuns(t, k), x, e, y)
    ensures Inner(Ideal(t, k)) && k < |Ideal(t, k).kids|
    ensures InOrder(Overwrite(Ideal(t, k), k, e, left)) != RemoveSorted(cmp, InOrder(t), key)
  {
    hide InOrder, RemoveSorted, Overwrite, Around, BothRuns;
    IdealRun(t, k);
    assert Ideal(t, k).ents[k] == t.ents[k + 1];
    ReplacedRight(cmp, Ideal(t, k), k, e, left, key);
    NotLast(cmp, BothRuns(t, k), x, e, y, InOrder(left));
  }

  /** The merged run takes the place of the two, with nothing overwritten. */
  lemma {:induction false} MergedPlainWrong(cmp: Comparator, t: Tree, key: Key, k: nat, e: Entry, left: Tree, x: seq<Entry>, y: seq<Entry>)
    requires TotalPreorder(cmp) && Inner(t) && Sorted(cmp, InOrder(t)) && k < |t.ents| && Has(cmp, BothRuns(t, k), key)
    requires Around(cmp, BothRuns(t, k), x, e, y) && EndsBelow(cmp, InOrder(left), e.key)
    ensures Inner(Ideal(t, k)) && k < |Ideal(t, k).kids|
    ensures InOrder(Refill(Ideal(t, k), k, left)) != RemoveSorted(cmp, InOrder(t), key)
  {
    hide InOrder, RemoveSorted, Around, BothRuns, Has, EndsBelow;
    IdealRun(t, k);
    BelowRight(cmp, Ideal(t, k), k, left, key);
    TooLow(cmp, BothRuns(t, k), x, e, y, InOrder(left), key);
  }

  lemma SameEnd(a: seq<Entry>, e: Entry, b: seq<Entry>, f: Entry, c: seq<Entry>)
    requires a + [e] + c == b + [f] + c
    ensures e == f
  {
    assert |a| == |b|;
    assert (a + [e] + c)[|a|] == e && (b + [f] + c)[|b|] == f;
  }

  /** Found as the first separator and merged down: the next separator is overwritten with a smaller key. */
  lemma {:induction false} MergedFirstWrong(cmp: Comparator, t: Tree, key: Key, e: Entry, left: Tree, x: seq<Entry>, y: seq<Entry>)
    requires TotalPreorder(cmp) && Inner(t) && Sorted(cmp, InOrder(t)) && 1 < |t.ents| && Has(cmp, BothRuns(t, 0), key)
    requires Around(cmp, BothRuns(t, 0), x, e, y)
    ensures Inner(Ideal(t, 0))
    ensures InOrder(Overwrite(Ideal(t, 0), 0, e, left)) != RemoveSorted(cmp, InOrder(t), key)
  {
    hide InOrder, RemoveSorted, Has, Overwrite, Before, After;
    IdealRun(t, 0);
    var v := Ideal(t, 0);
    var f := v.ents[0];
    OverwriteInOrder(v, 0, e, left);
    RemoveBelow(cmp, v, 0, key);
    assert v.ents[..0] == [] && v.kids[..0] == [];
    NothingBefore();
    FirstAfter(v);
    var c := InOrder(v.kids[1]) + After(v.ents[1..], v.kids[2..]);
    var s := BothRuns(t, 0);
    assert cmp(f.key, f.key) == 0;
    KeyAt(cmp, v, 0, f.key);
    assert s[|x|] == e;
    assert AllBelow(cmp, [] + s, f.key) && ([] + s)[|x|] == e;
    var r := RemoveSorted(cmp, s, key);
    assert InOrder(Overwrite(v, 0, e, left)) == InOrder(left) + [e] + c;
    assert RemoveSorted(cmp, InOrder(t), key) == r + [f] + c;
    if InOrder(left) + [e] + c == r + [f] + c {
      SameEnd(InOrder(left), e, r, f, c);
    }
  }

  lemma OverwriteNothing(v: Tree, k: nat, e: Entry, left: Tree)
    requires Inner(v) && k < |v.kids|
    ensures |v.ents| == 0 ==> Overwrite(v, k, e, left) == Refill(v, k, left)
  {
  }

  lemma NothingBefore()
    ensures Before([], []) == []
  {
  }

  lemma FirstAfter(v: Tree)
    requires Inner(v) && |v.ents| > 0
    ensures After(v.ents[0..], v.kids[1..]) == [v.ents[0]] + (InOrder(v.kids[1]) + After(v.ents[1..], v.kids[2..]))
  {
    assert v.ents[0..] == v.ents && v.kids[1..][1..] == v.kids[2..];
  }

  /** Where two inner nodes merge, the deletion is not right, whatever the dead slots hold; nor is it on a safe branch. */
  lemma {:induction false} InnerMergeWrong(l: BtreeLayout, cmp: Comparator, t: Tree, key: Key, h: nat, lo: nat, dead: Slots)
    requires Merging(l, cmp, t, key, h, lo)
    ensures !Right(l, cmp, t, key, h, dead) && !Safe(l, cmp, t, key, h)
  {
    hide Has, InOrder, LowerBound, RemedyFor, EnsureMin, Kept, Delete, Ideal, Around, MergingPair, Overwrite, RemoveSorted, Rebalanced, FrontOf;
    NotLeaf(l, t, h, lo);
    var pos := LowerBound(cmp, t.ents, key);
    MergeIsInner(l, t, h, lo, pos);
    if Delete(l, cmp, t, key, h, dead).Deleted? {
      var k := MergingFacts(l, cmp, t, key, h, lo, None);
      var e, left := MergedDelete(l, cmp, t, key, h, lo, dead, k);
      PairAround(l, cmp, t.kids[k], t.ents[k], t.kids[k + 1], h - 1);
      var x, y := FrontOf(t.kids[k], t.ents[k], t.kids[k + 1]), InOrder(t.kids[k + 1].kids[|t.kids[k + 1].ents|]);
      assert Around(cmp, BothRuns(t, k), x, e, y);
      if FoundAt(cmp, t.ents, key) && pos > 0 {
        MergedBesideWrong(cmp, t, key, k, e, left, x, y);
      } else {
        MergingHolds(l, cmp, t, key, h, lo, k);
        if FoundAt(cmp, t.ents, key) && |t.ents| > 1 {
          MergedFirstWrong(cmp, t, key, e, left, x, y);
        } else {
          OverwriteNothing(Ideal(t, k), k, e, left);
          IdealParts(t, k);
          MergedPlainWrong(cmp, t, key, k, e, left, x, y);
        }
      }
    }
  }

  lemma MergeIsInner(l: BtreeLayout, t: Tree, h: nat, lo: nat, pos: nat)
    requires Roomy(l, t, h, lo) && h > 0 && Inner(t) && |t.ents| > 0 && pos < |t.kids| && !EnsureMin(l, t, pos).Deleted?
    ensures !t.kids[pos].leaf
  {
    KidShaped(l, t, h, lo + 1, pos);
    KidShaped(l, t, h, lo + 1, if pos > 0 then pos - 1 else pos);
  }

  /**
   * Deletion as written removes exactly the sought key if and only if every step of its descent is on a safe branch.
   */
  lemma {:induction false} DeleteRightIffSafe(l: BtreeLayout, cmp: Comparator, t: Tree, key: Key, h: nat, lo: nat, dead: Slots)
    requires Sought(l, cmp, t, key, h, lo)
    ensures Right(l, cmp, t, key, h, dead) <==> Safe(l, cmp, t, key, h)
    decreases h
  {
    hide Sought, LowerBound, FoundAt, Right, Kept, EnsureMin, RemedyFor;
    SoughtRoomy(l, cmp, t, key, h, lo);
    if h == 0 {
      LeafRight(l, cmp, t, key, lo, dead);
      LeafStep(l, cmp, t, key, lo, dead);
    } else {
      NotLeaf(l, t, h, lo);
      if !EnsureMin(l, t, LowerBound(cmp, t.ents, key)).Deleted? {
        InnerMergeWrong(l, cmp, t, key, h, lo, dead);
      } else if FoundAt(cmp, t.ents, key) {
        FoundExact(l, cmp, t, key, h, lo, dead);
      } else {
        BelowExact(l, cmp, t, key, h, lo, dead);
        var u, j, next := InnerStep(l, cmp, t, key, h, lo, dead);
        DeleteRightIffSafe(l, cmp, u.kids[j], key, h - 1, l.minKeys, dead);
      }
    }
  }

  /** On the safe branches no two inner nodes merge. */
  lemma {:induction false} SafeMerges(l: BtreeLayout, cmp: Comparator, t: Tree, key: Key, h: nat, lo: nat)
    requires Sought(l, cmp, t, key, h, lo) && Safe(l, cmp, t, key, h)
    ensures MergesNoInner(l, cmp, t, key, h)
    decreases h
  {
    hide Sought, LowerBound, FoundAt, Delete, RemedyFor;
    SoughtRoomy(l, cmp, t, key, h, lo);
    if h > 0 {
      NotLeaf(l, t, h, lo);
      var pos := LowerBound(cmp, t.ents, key);
      if !EnsureMin(l, t, pos).Deleted? { MergeIsInner(l, t, h, lo, pos); }
      hide EnsureMin, Kept;
      var u, j, next := InnerStep(l, cmp, t, key, h, lo, NoSlots);
      MergesNoInnerBelow(l, cmp, t, key, h, lo, u, j, next);
      if FoundAt(cmp, t.ents, key) {
        SafeAboveLeaves(l, t, h, lo, pos);
        LeafMergesNothing(l, cmp, u.kids[j], next, l.minKeys);
      } else {
        SafeMerges(l, cmp, u.kids[j], next, h - 1, l.minKeys);
      }
    }
  }

  lemma SafeAboveLeaves(l: BtreeLayout, t: Tree, h: nat, lo: nat, pos: nat)
    requires Roomy(l, t, h, lo) && h > 0 && pos < |t.kids| && t.kids[pos].leaf
    ensures h == 1
  {
    KidShaped(l, t, h, lo + 1, pos);
  }

  lemma LeafMergesNothing(l: BtreeLayout, cmp: Comparator, t: Tree, key: Key, lo: nat)
    requires Sought(l, cmp, t, key, 0, lo)
    ensures MergesNoInner(l, cmp, t, key, 0)
  {
    LeafStep(l, cmp, t, key, lo, NoSlots);
  }

  /**
   * A key found just above the leaves, by key counts alone: it is deleted rightly exactly when the leaf left of it has
   * a key to spare; or has a left neighbour, and that one has a key to spare or the leaf right of the key has none.
   */
  lemma {:induction false} RightAboveLeavesByCounts(l: BtreeLayout, cmp: Comparator, t: Tree, key: Key, h: nat, lo: nat, dead: Slots)
    requires Sought(l, cmp, t, key, h, lo) && Inner(t) && FoundAt(cmp, t.ents, key)
    requires t.kids[LowerBound(cmp, t.ents, key)].leaf
    ensures var pos := LowerBound(cmp, t.ents, key);
      pos + 1 < |t.kids|
      && (Right(l, cmp, t, key, h, dead) <==>
            || |t.kids[pos].ents| > l.minKeys
            || (pos > 0 && (|t.kids[pos - 1].ents| > l.minKeys || |t.kids[pos + 1].ents| <= l.minKeys)))
  {
    hide Has, InOrder, LowerBound, Sorted, Right, Delete, MergesNoInner;
    var pos := LowerBound(cmp, t.ents, key);
    InnerIsHigh(l, t, h, lo);
    SafeAboveLeaves(l, t, h, lo, pos);
    DeleteRightIffSafe(l, cmp, t, key, h, lo, dead);
  }

  lemma InnerIsHigh(l: BtreeLayout, t: Tree, h: nat, lo: nat)
    requires Roomy(l, t, h, lo) && Inner(t)
    ensures h > 0
  {
  }
}
