/** Keys held in leaves: the family of deletions the code gets right, and a deletion it gets wrong. */
module LeafHeld {
  import opened Ordering
  import opened Layout
  import opened Trees
  import opened Contexts
  import opened NodeOps
  import opened TreeOrder
  import opened Rebalance
  import opened DeleteSpec
  import opened DeleteCorrect
  import opened DeleteTheorem
  import opened DeleteExact

  /** A search for the key meets it in a leaf, or not at all. */
  ghost predicate HeldInLeaf(cmp: Comparator, t: Tree, key: Key, h: nat)
    decreases h
  {
    var i := LowerBound(cmp, t.ents, key);
    t.leaf || (h > 0 && Inner(t) && !FoundAt(cmp, t.ents, key) && HeldInLeaf(cmp, t.kids[i], key, h - 1))
  }

  lemma BoundAfterFront(cmp: Comparator, e: Entry, es: seq<Entry>, key: Key)
    requires cmp(key, e.key) > 0
    ensures LowerBound(cmp, [e] + es, key) == 1 + LowerBound(cmp, es, key)
    ensures FoundAt(cmp, [e] + es, key) <==> FoundAt(cmp, es, key)
  {
    assert ([e] + es)[1..] == es;
  }

  lemma BoundBeforeBack(cmp: Comparator, es: seq<Entry>, e: Entry, key: Key)
    requires cmp(key, e.key) < 0
    ensures LowerBound(cmp, es + [e], key) == LowerBound(cmp, es, key)
    ensures FoundAt(cmp, es + [e], key) <==> FoundAt(cmp, es, key)
  {
    LowerBoundUnique(cmp, es + [e], key, LowerBound(cmp, es, key));
  }

  lemma GrownFrontHolds(cmp: Comparator, p: Tree, k: nat, key: Key, h: nat)
    requires Inner(p) && k < |p.ents| && |p.kids[k].ents| > 0 && Alike(p.kids[k], p.kids[k + 1])
    requires cmp(key, p.ents[k].key) > 0 && HeldInLeaf(cmp, p.kids[k + 1], key, h)
    ensures HeldInLeaf(cmp, StealLeft(p, k).kids[k + 1], key, h)
  {
    hide LowerBound;
    var x, c := StealLeft(p, k).kids[k + 1], p.kids[k + 1];
    BoundAfterFront(cmp, p.ents[k], c.ents, key);
    if !c.leaf {
      assert x.kids[1 + LowerBound(cmp, c.ents, key)] == c.kids[LowerBound(cmp, c.ents, key)];
    }
  }

  lemma GrownBackHolds(cmp: Comparator, p: Tree, k: nat, key: Key, h: nat)
    requires Inner(p) && k < |p.ents| && |p.kids[k + 1].ents| > 0 && Alike(p.kids[k], p.kids[k + 1])
    requires cmp(key, p.ents[k].key) < 0 && HeldInLeaf(cmp, p.kids[k], key, h)
    ensures HeldInLeaf(cmp, StealRight(p, k).kids[k], key, h)
  {
    hide LowerBound;
    var x, c := StealRight(p, k).kids[k], p.kids[k];
    BoundBeforeBack(cmp, c.ents, p.ents[k], key);
    if !c.leaf {
      assert x.kids[LowerBound(cmp, c.ents, key)] == c.kids[LowerBound(cmp, c.ents, key)];
    }
  }

  lemma BetweenSeparators(cmp: Comparator, es: seq<Entry>, key: Key)
    requires !FoundAt(cmp, es, key)
    ensures var i := LowerBound(cmp, es, key);
      (i > 0 ==> cmp(key, es[i - 1].key) > 0) && (i < |es| ==> cmp(key, es[i].key) < 0)
  {
  }

  /** Rebalancing around the visited child leaves the key in its leaf. */
  lemma {:induction false} VisitHolds(l: BtreeLayout, cmp: Comparator, t: Tree, key: Key, h: nat, lo: nat)
    requires Roomy(l, t, h, lo) && h > 0 && Inner(t) && !FoundAt(cmp, t.ents, key)
    requires |t.ents| > 0 && EnsureMin(l, t, LowerBound(cmp, t.ents, key)).Deleted?
    requires HeldInLeaf(cmp, t.kids[LowerBound(cmp, t.ents, key)], key, h - 1)
    ensures var i := LowerBound(cmp, t.ents, key);
      var u, j := EnsureMin(l, t, i).tree, VisitAt(l, t, i);
      j < |u.kids| && HeldInLeaf(cmp, u.kids[j], key, h - 1)
  {
    hide Roomy, HeldInLeaf, LowerBound, FoundAt;
    var i := LowerBound(cmp, t.ents, key);
    BetweenSeparators(cmp, t.ents, key);
    match RemedyFor(l, t, i)
    case Nothing =>
    case FromLeft =>
      KidsAlike(l, t, h, lo, i - 1);
      GrownFrontHolds(cmp, t, i - 1, key, h - 1);
    case FromRight =>
      KidsAlike(l, t, h, lo, i);
      GrownBackHolds(cmp, t, i, key, h - 1);
    case MergeAt(k) =>
      LeafHolds(cmp, MergeLeaves(t, k).kids[k], key, h - 1);
  }

  lemma LeafHolds(cmp: Comparator, t: Tree, key: Key, h: nat)
    requires t.leaf
    ensures HeldInLeaf(cmp, t, key, h)
  {
  }

  lemma HeldFacts(cmp: Comparator, t: Tree, key: Key, h: nat)
    requires HeldInLeaf(cmp, t, key, h) && Inner(t)
    ensures !FoundAt(cmp, t.ents, key) && h > 0 && HeldInLeaf(cmp, t.kids[LowerBound(cmp, t.ents, key)], key, h - 1)
  {
  }

  /** A key held in a leaf is on a safe branch all the way down unless two inner nodes would merge. */
  lemma {:induction false} SafeUnlessInnerMerge(l: BtreeLayout, cmp: Comparator, t: Tree, key: Key, h: nat, lo: nat)
    requires Sought(l, cmp, t, key, h, lo) && HeldInLeaf(cmp, t, key, h)
    ensures Safe(l, cmp, t, key, h) <==> MergesNoInner(l, cmp, t, key, h)
    decreases h
  {
    hide Sought, LowerBound, FoundAt, Kept, EnsureMin, RemedyFor, HeldInLeaf, Delete;
    SoughtRoomy(l, cmp, t, key, h, lo);
    if h == 0 {
      LeafStep(l, cmp, t, key, lo, NoSlots);
    } else {
      NotLeaf(l, t, h, lo);
      HeldFacts(cmp, t, key, h);
      var i := LowerBound(cmp, t.ents, key);
      if EnsureMin(l, t, i).Deleted? {
        VisitHolds(l, cmp, t, key, h, lo);
        var u, j, next := InnerStep(l, cmp, t, key, h, lo, NoSlots);
        MergesNoInnerBelow(l, cmp, t, key, h, lo, u, j, next);
        SafeUnlessInnerMerge(l, cmp, u.kids[j], key, h - 1, l.minKeys);
      }
    }
  }

  /** With no inner node below the root there is nothing to merge but leaves. */
  lemma {:induction false} NoInnerMergeWhenLow(l: BtreeLayout, cmp: Comparator, t: Tree, key: Key, h: nat, lo: nat)
    requires Sought(l, cmp, t, key, h, lo) && h <= 1
    ensures MergesNoInner(l, cmp, t, key, h)
  {
    hide Sought, LowerBound, FoundAt, Kept, RemedyFor, Delete;
    SoughtRoomy(l, cmp, t, key, h, lo);
    if h == 0 {
      LeafStep(l, cmp, t, key, lo, NoSlots);
    } else {
      NotLeaf(l, t, h, lo);
      LeavesBelow(l, t, lo, LowerBound(cmp, t.ents, key));
      hide EnsureMin;
      var u, j, next := InnerStep(l, cmp, t, key, h, lo, NoSlots);
      MergesNoInnerBelow(l, cmp, t, key, h, lo, u, j, next);
      LeafStep(l, cmp, u.kids[j], next, l.minKeys, NoSlots);
    }
  }

  lemma LeavesBelow(l: BtreeLayout, t: Tree, lo: nat, i: nat)
    requires Roomy(l, t, 1, lo) && Inner(t) && i < |t.kids| && |t.ents| > 0
    ensures EnsureMin(l, t, i).Deleted?
  {
    if RemedyFor(l, t, i).MergeAt? {
      KidShaped(l, t, 1, lo + 1, RemedyFor(l, t, i).left);
    }
  }

  /**
   * Deleting a key held in a leaf removes exactly that key, in every tree of at most two levels and, in a
   * taller one, exactly when the descent merges no two inner nodes, whatever the dead slots hold.
   */
  lemma {:induction false} LeafHeldDeleteRight(l: BtreeLayout, cmp: Comparator, t: Tree, key: Key, h: nat, lo: nat, dead: Slots)
    requires Sought(l, cmp, t, key, h, lo) && HeldInLeaf(cmp, t, key, h)
    ensures Right(l, cmp, t, key, h, dead) <==> MergesNoInner(l, cmp, t, key, h)
    ensures h <= 1 ==> Right(l, cmp, t, key, h, dead)
  {
    hide Sought, Delete, Right, Safe, HeldInLeaf, MergesNoInner;
    DeleteRightIffSafe(l, cmp, t, key, h, lo, dead);
    SafeUnlessInnerMerge(l, cmp, t, key, h, lo);
    if h <= 1 { NoInnerMergeWhenLow(l, cmp, t, key, h, lo); }
  }
}
