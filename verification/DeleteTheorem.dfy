/** Deletion as written: what it always keeps, and when it removes the key and nothing else, unless two inner nodes merge. */
module DeleteTheorem {
  import opened Ordering
  import opened Layout
  import opened Trees
  import opened Contexts
  import opened NodeOps
  import opened TreeOrder
  import opened Rebalance
  import opened DeleteSpec
  import opened DeleteCorrect

  /** A sorted tree, in shape, that holds the key. */
  ghost predicate Sought(l: BtreeLayout, cmp: Comparator, t: Tree, key: Key, h: nat, lo: nat) {
    TotalPreorder(cmp) && Roomy(l, t, h, lo) && Sorted(cmp, InOrder(t)) && Has(cmp, InOrder(t), key)
  }

  lemma LastIsThere(cmp: Comparator, t: Tree)
    requires TotalPreorder(cmp) && |t.ents| > 0 && (t.kids == [] || Inner(t))
    ensures Has(cmp, InOrder(t), t.ents[|t.ents| - 1].key)
  {
    var n := |t.ents| - 1;
    PeelLast(t, n);
    hide InOrder, Has;
    HasEntry(cmp, InOrder(Tree(t.ref, t.leaf, t.ents[..n], if t.kids == [] then [] else t.kids[..n + 1])), t.ents[n],
             if t.kids == [] then [] else InOrder(t.kids[n + 1]), t.ents[n].key);
  }

  /** One level of delete_recursive in an inner node, in terms of the rebalanced node. */
  lemma {:induction false} DeleteAt(l: BtreeLayout, cmp: Comparator, t: Tree, key: Key, h: nat, dead: Slots, u: Tree, j: nat, next: Key)
    requires !t.leaf && h > 0 && Inner(t) && Rebalanced(l, t, LowerBound(cmp, t.ents, key), dead(h)) == Deleted(u)
    requires Inner(u) && j == LowerBound(cmp, u.ents, key) && u.kids[j].ents != []
    requires next == if FoundAt(cmp, t.ents, key) then u.kids[j].ents[|u.kids[j].ents| - 1].key else key
    ensures var below := Delete(l, cmp, u.kids[j], next, h - 1, dead);
      Delete(l, cmp, t, key, h, dead)
      == if !below.Deleted? then Stuck
         else if FoundAt(cmp, t.ents, key) then Deleted(Overwrite(u, j, u.kids[j].ents[|u.kids[j].ents| - 1], below.tree))
         else Deleted(Refill(u, j, below.tree))
  {
    hide LowerBound, Rebalanced, FoundAt, Overwrite, Refill;
  }

  /** One level of delete_recursive in an inner node, once ensure_min_keys has done its work. */
  lemma {:induction false} InnerStep(l: BtreeLayout, cmp: Comparator, t: Tree, key: Key, h: nat, lo: nat, dead: Slots)
    returns (u: Tree, j: nat, next: Key)
    requires Sought(l, cmp, t, key, h, lo) && h > 0
    requires Inner(t) && |t.ents| > 0 && EnsureMin(l, t, LowerBound(cmp, t.ents, key)).Deleted?
    ensures u == EnsureMin(l, t, LowerBound(cmp, t.ents, key)).tree && j == VisitAt(l, t, LowerBound(cmp, t.ents, key))
    ensures Inner(u) && j < |u.kids| && |u.kids[j].ents| > 0 && u.ref == t.ref && Shaped(u, h, lo, l.minKeys, l.maxKeys)
    ensures next == if FoundAt(cmp, t.ents, key) then u.kids[j].ents[|u.kids[j].ents| - 1].key else key
    ensures Sought(l, cmp, u.kids[j], next, h - 1, l.minKeys)
    ensures var below := Delete(l, cmp, u.kids[j], next, h - 1, dead);
      Delete(l, cmp, t, key, h, dead)
      == if !below.Deleted? then Stuck
         else if FoundAt(cmp, t.ents, key) then Deleted(Overwrite(u, j, u.kids[j].ents[|u.kids[j].ents| - 1], below.tree))
         else Deleted(Refill(u, j, below.tree))
  {
    hide Has, InOrder, LowerBound, Sorted, Rebalanced, RemedyFor, EnsureMin, Kept, Delete, Roomy, VisitAt;
    var pos := LowerBound(cmp, t.ents, key);
    RebalancedIs(l, t, h, lo, pos, dead(h));
    u, j := EnsureMin(l, t, pos).tree, VisitAt(l, t, pos);
    SecondPosition(l, cmp, t, h, lo, key);
    EnsureMinShaped(l, t, h, lo, pos);
    RoomyFacts(l, u.kids[j], h - 1);
    next := if FoundAt(cmp, t.ents, key) then u.kids[j].ents[|u.kids[j].ents| - 1].key else key;
    if FoundAt(cmp, t.ents, key) {
      LastIsThere(cmp, u.kids[j]);
    }
    NotLeaf(l, t, h, lo);
    DeleteAt(l, cmp, t, key, h, dead, u, j, next);
  }

  lemma {:induction false} MergesNoInnerBelow(l: BtreeLayout, cmp: Comparator, t: Tree, key: Key, h: nat, lo: nat, u: Tree, j: nat, next: Key)
    requires Sought(l, cmp, t, key, h, lo) && h > 0 && Inner(t) && |t.ents| > 0
    requires EnsureMin(l, t, LowerBound(cmp, t.ents, key)) == Deleted(u) && j == VisitAt(l, t, LowerBound(cmp, t.ents, key))
    requires Inner(u) && j < |u.kids| && |u.kids[j].ents| > 0
    requires next == if FoundAt(cmp, t.ents, key) then u.kids[j].ents[|u.kids[j].ents| - 1].key else key
    ensures MergesNoInner(l, cmp, t, key, h) <==> MergesNoInner(l, cmp, u.kids[j], next, h - 1)
  {
    hide Has, InOrder, LowerBound, Sorted, RemedyFor, EnsureMin;
    SecondPosition(l, cmp, t, h, lo, key);
    NotLeaf(l, t, h, lo);
  }

  lemma RoomyFacts(l: BtreeLayout, t: Tree, h: nat)
    requires Roomy(l, t, h, l.minKeys)
    ensures |t.ents| > 0 && (if h == 0 then t.leaf && t.kids == [] else Inner(t))
  {
  }

  lemma NotLeaf(l: BtreeLayout, t: Tree, h: nat, lo: nat)
    requires Roomy(l, t, h, lo) && h > 0
    ensures !t.leaf && Inner(t) && t.ents != []
  {
  }

  // ---------------------------------------------------------------- what deletion always keeps

  lemma LeafStep(l: BtreeLayout, cmp: Comparator, t: Tree, key: Key, lo: nat, dead: Slots)
    requires Sought(l, cmp, t, key, 0, lo)
    ensures t.leaf && t.kids == [] && FoundAt(cmp, t.ents, key)
    ensures Delete(l, cmp, t, key, 0, dead) == Deleted(t.(ents := DropAt(t.ents, LowerBound(cmp, t.ents, key))))
    ensures |DropAt(t.ents, LowerBound(cmp, t.ents, key))| == |t.ents| - 1
  {
    InOrderLeaf(t);
    FoundIffHas(cmp, t.ents, key);
  }

  lemma OverwriteShaped(l: BtreeLayout, u: Tree, j: nat, e: Entry, kid: Tree, h: nat, lo: nat)
    requires Shaped(u, h, lo, l.minKeys, l.maxKeys) && h > 0 && Inner(u) && j < |u.kids|
    requires Shaped(kid, h - 1, l.minKeys, l.minKeys, l.maxKeys)
    ensures Shaped(Overwrite(u, j, e, kid), h, lo, l.minKeys, l.maxKeys)
    ensures Shaped(Refill(u, j, kid), h, lo, l.minKeys, l.maxKeys)
  {
  }

  /** No two inner nodes merge: then the search never falls off a leaf, and depth and occupancy survive. */
  lemma {:induction false} DeleteKeepsShape(l: BtreeLayout, cmp: Comparator, t: Tree, key: Key, h: nat, lo: nat, dead: Slots)
    requires Sought(l, cmp, t, key, h, lo) && MergesNoInner(l, cmp, t, key, h)
    ensures Delete(l, cmp, t, key, h, dead).Deleted?
    ensures Shaped(Delete(l, cmp, t, key, h, dead).tree, h, lo, l.minKeys, l.maxKeys)
    ensures Delete(l, cmp, t, key, h, dead).tree.ref == t.ref
    decreases h
  {
    hide Has, InOrder, LowerBound, Sorted, EnsureMin, RemedyFor, Delete;
    if h == 0 {
      LeafStep(l, cmp, t, key, lo, dead);
    } else {
      NotLeaf(l, t, h, lo);
      var u, j, next := InnerStep(l, cmp, t, key, h, lo, dead);
      MergesNoInnerBelow(l, cmp, t, key, h, lo, u, j, next);
      DeleteKeepsShape(l, cmp, u.kids[j], next, h - 1, l.minKeys, dead);
      var below := Delete(l, cmp, u.kids[j], next, h - 1, dead);
      OverwriteShaped(l, u, j, u.kids[j].ents[|u.kids[j].ents| - 1], below.tree, h, lo);
    }
  }

  /** Nor does it matter then what the dead slots hold. */
  lemma {:induction false} SlotsIrrelevant(l: BtreeLayout, cmp: Comparator, t: Tree, key: Key, h: nat, lo: nat, d: Slots, e: Slots)
    requires Sought(l, cmp, t, key, h, lo) && MergesNoInner(l, cmp, t, key, h)
    ensures Delete(l, cmp, t, key, h, d) == Delete(l, cmp, t, key, h, e)
    decreases h
  {
    hide Has, InOrder, LowerBound, Sorted, EnsureMin, RemedyFor, Delete;
    if h == 0 {
      LeafStep(l, cmp, t, key, lo, d);
      LeafStep(l, cmp, t, key, lo, e);
    } else {
      NotLeaf(l, t, h, lo);
      var u, j, next := InnerStep(l, cmp, t, key, h, lo, d);
      var v, i, also := InnerStep(l, cmp, t, key, h, lo, e);
      MergesNoInnerBelow(l, cmp, t, key, h, lo, u, j, next);
      SlotsIrrelevant(l, cmp, u.kids[j], next, h - 1, l.minKeys, d, e);
    }
  }

  // ---------------------------------------------------------------- when it is right

  /**
   * The branches that remove the key and nothing else. On the way down no two inner nodes merge.
   * A key found above the leaves sits just above them, and rebalancing leaves it where it was found.
   */
  ghost predicate Safe(l: BtreeLayout, cmp: Comparator, t: Tree, key: Key, h: nat)
    decreases h
  {
    var pos := LowerBound(cmp, t.ents, key);
    if t.leaf then true
    else if h == 0 || !Inner(t) || t.ents == [] then false
    else if FoundAt(cmp, t.ents, key) then t.kids[pos].leaf && Kept(l, t, pos)
    else (
      && EnsureMin(l, t, pos).Deleted?
      && VisitAt(l, t, pos) < |EnsureMin(l, t, pos).tree.kids|
      && Safe(l, cmp, EnsureMin(l, t, pos).tree.kids[VisitAt(l, t, pos)], key, h - 1))
  }

  lemma DroppedIsGone(cmp: Comparator, s: seq<Entry>, k: nat, key: Key)
    requires TotalPreorder(cmp) && Sorted(cmp, s) && k < |s| && cmp(key, s[k].key) == 0
    requires forall i :: 0 <= i < k ==> cmp(key, s[i].key) > 0
    ensures !Has(cmp, DropAt(s, k), key)
  {
    forall i | 0 <= i < |DropAt(s, k)|
      ensures cmp(key, DropAt(s, k)[i].key) != 0
    {
      if i >= k {
        LessTransitive(cmp, key, s[k].key, s[i + 1].key);
      }
    }
  }

  lemma RemovedIsGone(cmp: Comparator, s: seq<Entry>, key: Key)
    requires TotalPreorder(cmp) && Sorted(cmp, s) && Has(cmp, s, key)
    ensures !Has(cmp, RemoveSorted(cmp, s, key), key)
  {
    FoundIffHas(cmp, s, key);
    hide Has, Sorted;
    DroppedIsGone(cmp, s, LowerBound(cmp, s, key), key);
  }

  lemma OverwriteInOrder(u: Tree, j: nat, e: Entry, kid: Tree)
    requires Inner(u) && j < |u.ents|
    ensures Inner(Overwrite(u, j, e, kid))
    ensures InOrder(Overwrite(u, j, e, kid))
         == Before(u.ents[..j], u.kids[..j]) + (InOrder(kid) + [e] + InOrder(u.kids[j + 1])) + After(u.ents[j + 1..], u.kids[j + 2..])
  {
    var v := Overwrite(u, j, e, kid);
    InOrderAround(v, j);
    assert v.ents[..j] == u.ents[..j] && v.kids[..j] == u.kids[..j];
    assert v.ents[j + 1..] == u.ents[j + 1..] && v.kids[j + 2..] == u.kids[j + 2..];
  }

  /** Removing separator `j` from the run of its node. */
  lemma RemoveSeparator(cmp: Comparator, u: Tree, j: nat, key: Key)
    requires TotalPreorder(cmp) && Inner(u) && Sorted(cmp, InOrder(u)) && j < |u.ents| && cmp(key, u.ents[j].key) == 0
    ensures RemoveSorted(cmp, InOrder(u), key)
         == Before(u.ents[..j], u.kids[..j]) + (InOrder(u.kids[j]) + InOrder(u.kids[j + 1])) + After(u.ents[j + 1..], u.kids[j + 2..])
  {
    KeyAt(cmp, u, j, key);
    InOrderAround(u, j);
    hide InOrder, Before, After, LowerBound;
    var b0, m, n, a0 := Before(u.ents[..j], u.kids[..j]), InOrder(u.kids[j]), InOrder(u.kids[j + 1]), After(u.ents[j + 1..], u.kids[j + 2..]);
    Regather4(b0, m, u.ents[j], n, a0);
    BracketedRemove(cmp, b0 + m, [u.ents[j]], n + a0, key);
    RemoveOnly(cmp, u.ents[j], key);
    Pairwise4(b0, m, n, a0);
  }

  lemma Regather4(b: seq<Entry>, x: seq<Entry>, e: Entry, y: seq<Entry>, a: seq<Entry>)
    ensures b + (x + [e] + y) + a == (b + x) + [e] + (y + a)
  {
  }

  lemma Pairwise4(b: seq<Entry>, x: seq<Entry>, y: seq<Entry>, a: seq<Entry>)
    ensures (b + x) + [] + (y + a) == b + (x + y) + a
  {
  }

  lemma RemoveOnly(cmp: Comparator, e: Entry, key: Key)
    requires cmp(key, e.key) == 0
    ensures RemoveSorted(cmp, [e], key) == []
  {
    assert LowerBound(cmp, [e], key) == 0;
  }

  /** Two runs alike around a middle part agree exactly when the middle parts do. */
  lemma Cancel(b: seq<Entry>, m: seq<Entry>, n: seq<Entry>, a: seq<Entry>)
    ensures b + m + a == b + n + a <==> m == n
  {
    if b + m + a == b + n + a {
      assert |m| == |n|;
      assert (b + m + a)[|b|..|b| + |m|] == m;
      assert (b + n + a)[|b|..|b| + |n|] == n;
    }
  }

  /** Removing a key held below child `j` from the run of its node. */
  lemma RemoveBelow(cmp: Comparator, u: Tree, j: nat, key: Key)
    requires TotalPreorder(cmp) && Inner(u) && Sorted(cmp, InOrder(u)) && j < |u.kids| && Has(cmp, InOrder(u.kids[j]), key)
    ensures RemoveSorted(cmp, InOrder(u), key)
         == Before(u.ents[..j], u.kids[..j]) + RemoveSorted(cmp, InOrder(u.kids[j]), key) + After(u.ents[j..], u.kids[j + 1..])
  {
    KeyBelow(cmp, u, j, key);
    InOrderAt(u, j);
    hide InOrder, Before, After, LowerBound, RemoveSorted;
    BracketedRemove(cmp, Before(u.ents[..j], u.kids[..j]), InOrder(u.kids[j]), After(u.ents[j..], u.kids[j + 1..]), key);
  }

  /** A key below the visited child: the whole is right exactly when the part is. */
  lemma BelowRight(cmp: Comparator, u: Tree, j: nat, kid: Tree, key: Key)
    requires TotalPreorder(cmp) && Inner(u) && Sorted(cmp, InOrder(u)) && j < |u.kids| && Has(cmp, InOrder(u.kids[j]), key)
    ensures InOrder(Refill(u, j, kid)) == RemoveSorted(cmp, InOrder(u), key)
       <==> InOrder(kid) == RemoveSorted(cmp, InOrder(u.kids[j]), key)
  {
    hide InOrder, Before, After, LowerBound, RemoveSorted, Has, Sorted;
    RemoveBelow(cmp, u, j, key);
    InOrderRefill(u, j, kid);
    Cancel(Before(u.ents[..j], u.kids[..j]), InOrder(kid), RemoveSorted(cmp, InOrder(u.kids[j]), key), After(u.ents[j..], u.kids[j + 1..]));
  }

  /** A separator replaced by the last key of the child left of it: right exactly when that key was the child's last. */
  lemma ReplacedRight(cmp: Comparator, u: Tree, j: nat, e: Entry, kid: Tree, key: Key)
    requires TotalPreorder(cmp) && Inner(u) && Sorted(cmp, InOrder(u)) && j < |u.ents| && cmp(key, u.ents[j].key) == 0
    ensures InOrder(Overwrite(u, j, e, kid)) == RemoveSorted(cmp, InOrder(u), key)
       <==> InOrder(kid) + [e] == InOrder(u.kids[j])
  {
    hide InOrder, Before, After, LowerBound, RemoveSorted, Sorted;
    RemoveSeparator(cmp, u, j, key);
    OverwriteInOrder(u, j, e, kid);
    var b, n, a := Before(u.ents[..j], u.kids[..j]), InOrder(u.kids[j + 1]), After(u.ents[j + 1..], u.kids[j + 2..]);
    Group4(b, InOrder(kid) + [e], n, a);
    Group4(b, InOrder(u.kids[j]), n, a);
    Cancel(b, InOrder(kid) + [e], InOrder(u.kids[j]), n + a);
  }

  lemma Group4(b: seq<Entry>, x: seq<Entry>, n: seq<Entry>, a: seq<Entry>)
    ensures b + (x + n) + a == b + x + (n + a)
  {
  }

  /** The last entry of an inner node's own keys is not the last of its run. */
  lemma InnerLastIsNotLast(cmp: Comparator, c: Tree, s: seq<Entry>)
    requires TotalPreorder(cmp) && Inner(c) && |c.ents| > 0 && Sorted(cmp, InOrder(c)) && InOrder(c.kids[|c.ents|]) != []
    ensures s + [c.ents[|c.ents| - 1]] != InOrder(c)
  {
    var n := |c.ents|;
    InOrderLast(c);
    var b, m := Before(c.ents, c.kids[..n]), InOrder(c.kids[n]);
    BeforeEnds(c.ents, c.kids[..n]);
    hide InOrder, Before;
    var e := c.ents[n - 1];
    assert InOrder(c)[|b| - 1] == e && InOrder(c)[|b| + |m| - 1] == m[|m| - 1];
    assert cmp(e.key, m[|m| - 1].key) < 0;
    assert (s + [e])[|s|] == e;
  }

  /** The key is gone, everything else is still there, in order. */
  ghost predicate Right(l: BtreeLayout, cmp: Comparator, t: Tree, key: Key, h: nat, dead: Slots) {
    var d := Delete(l, cmp, t, key, h, dead);
    d.Deleted? && InOrder(d.tree) == RemoveSorted(cmp, InOrder(t), key)
  }

  lemma LeafRight(l: BtreeLayout, cmp: Comparator, t: Tree, key: Key, lo: nat, dead: Slots)
    requires Sought(l, cmp, t, key, 0, lo)
    ensures Right(l, cmp, t, key, 0, dead)
  {
    LeafStep(l, cmp, t, key, lo, dead);
    InOrderLeaf(t);
    InOrderLeaf(t.(ents := DropAt(t.ents, LowerBound(cmp, t.ents, key))));
    hide LowerBound, Sorted, Has;
  }

  lemma LastSlot(cmp: Comparator, s: seq<Entry>)
    requires TotalPreorder(cmp) && Sorted(cmp, s) && |s| > 0
    ensures LowerBound(cmp, s, s[|s| - 1].key) == |s| - 1
  {
    LowerBoundUnique(cmp, s, s[|s| - 1].key, |s| - 1);
  }

  /** A leaf loses its own last key: the rest and that key make up the old run. */
  lemma LeafLosesLast(l: BtreeLayout, cmp: Comparator, c: Tree, lo: nat, dead: Slots)
    requires |c.ents| > 0 && Sought(l, cmp, c, c.ents[|c.ents| - 1].key, 0, lo)
    ensures Delete(l, cmp, c, c.ents[|c.ents| - 1].key, 0, dead) == Deleted(c.(ents := c.ents[..|c.ents| - 1]))
    ensures InOrder(c.(ents := c.ents[..|c.ents| - 1])) + [c.ents[|c.ents| - 1]] == InOrder(c)
  {
    hide LowerBound, Sorted, Has, InOrder, Delete, Roomy;
    var n := |c.ents| - 1;
    LeafStep(l, cmp, c, c.ents[n].key, lo, dead);
    InOrderLeaf(c);
    InOrderLeaf(c.(ents := c.ents[..n]));
    LastSlot(cmp, c.ents);
    assert DropAt(c.ents, n) == c.ents[..n];
  }

  lemma StillThere(cmp: Comparator, s: seq<Entry>, r: seq<Entry>, key: Key)
    requires TotalPreorder(cmp) && Sorted(cmp, s) && Has(cmp, s, key) && Has(cmp, r, key)
    ensures r != RemoveSorted(cmp, s, key)
  {
    RemovedIsGone(cmp, s, key);
  }

  lemma OverwriteHasKid(cmp: Comparator, u: Tree, j: nat, e: Entry, kid: Tree, key: Key)
    requires Inner(u) && j < |u.kids| && Has(cmp, InOrder(kid), key)
    ensures Has(cmp, InOrder(Overwrite(u, j, e, kid)), key)
  {
    hide InOrder, Has, Before, After;
    var v := Overwrite(u, j, e, kid);
    InOrderAt(v, j);
    HasInParts(cmp, Before(v.ents[..j], v.kids[..j]), InOrder(kid), After(v.ents[j..], v.kids[j + 1..]), key);
  }

  lemma OverwriteHasEntry(cmp: Comparator, u: Tree, j: nat, e: Entry, kid: Tree, key: Key)
    requires Inner(u) && j < |u.ents| && cmp(key, e.key) == 0
    ensures Has(cmp, InOrder(Overwrite(u, j, e, kid)), key)
  {
    hide InOrder, Has, Before, After;
    OverwriteInOrder(u, j, e, kid);
    var b, a := Before(u.ents[..j], u.kids[..j]), After(u.ents[j + 1..], u.kids[j + 2..]);
    HasEntry(cmp, InOrder(kid), e, InOrder(u.kids[j + 1]), key);
    HasInParts(cmp, b, InOrder(kid) + [e] + InOrder(u.kids[j + 1]), a, key);
  }

  /** Found above the leaves and kept in place: right exactly when its left child is a leaf. */
  lemma {:induction false} KeptExact(l: BtreeLayout, cmp: Comparator, t: Tree, key: Key, h: nat, lo: nat, dead: Slots)
    requires Sought(l, cmp, t, key, h, lo) && h > 0 && Inner(t) && |t.ents| > 0
    requires FoundAt(cmp, t.ents, key) && EnsureMin(l, t, LowerBound(cmp, t.ents, key)).Deleted?
    requires Kept(l, t, LowerBound(cmp, t.ents, key))
    ensures Right(l, cmp, t, key, h, dead) <==> h == 1
  {
    hide Has, InOrder, LowerBound, Sorted, EnsureMin, RemedyFor, Kept, RemoveSorted, Overwrite, Delete, Roomy;
    var pos := LowerBound(cmp, t.ents, key);
    var u, j, next := InnerStep(l, cmp, t, key, h, lo, dead);
    SecondPosition(l, cmp, t, h, lo, key);
    var c := u.kids[j];
    var e := c.ents[|c.ents| - 1];
    var below := Delete(l, cmp, c, next, h - 1, dead);
    if h == 1 {
      LeafLosesLast(l, cmp, c, l.minKeys, dead);
      ReplacedRight(cmp, u, j, e, below.tree, key);
    } else if below.Deleted? {
      RoomyInner(l, c, h - 1, l.minKeys);
      LastKidNotEmpty(l, c, h - 1);
      InnerLastIsNotLast(cmp, c, InOrder(below.tree));
      ReplacedRight(cmp, u, j, e, below.tree, key);
    }
  }

  lemma LastKidNotEmpty(l: BtreeLayout, c: Tree, h: nat)
    requires Roomy(l, c, h, l.minKeys) && h > 0
    ensures Inner(c) && InOrder(c.kids[|c.ents|]) != []
  {
    var k := c.kids[|c.ents|];
    KidShaped(l, c, h, l.minKeys + 1, |c.ents|);
    if k.kids == [] {
      InOrderLeaf(k);
    } else {
      InOrderAround(k, 0);
    }
  }

  /** Found above the leaves and lent down to the left child: it comes straight back up. */
  lemma {:induction false} LentWrong(l: BtreeLayout, cmp: Comparator, t: Tree, key: Key, h: nat, lo: nat, dead: Slots)
    requires Sought(l, cmp, t, key, h, lo) && h > 0 && Inner(t) && |t.ents| > 0
    requires FoundAt(cmp, t.ents, key) && RemedyFor(l, t, LowerBound(cmp, t.ents, key)) == FromRight
    ensures !Right(l, cmp, t, key, h, dead)
  {
    hide Has, InOrder, LowerBound, Sorted, RemoveSorted, Overwrite, StealRight, RemedyFor, Delete, Roomy;
    var pos := LowerBound(cmp, t.ents, key);
    var u, j, next := InnerStep(l, cmp, t, key, h, lo, dead);
    var c := u.kids[j];
    var below := Delete(l, cmp, c, next, h - 1, dead);
    if below.Deleted? {
      KidsAlike(l, t, h, lo, pos);
      LentDown(cmp, t, pos, key);
      StealRightWidth(t, pos);
      OverwriteHasEntry(cmp, u, j, c.ents[|c.ents| - 1], below.tree, key);
      StillThere(cmp, InOrder(t), InOrder(Overwrite(u, j, c.ents[|c.ents| - 1], below.tree)), key);
    }
  }

  /** Found above the leaves and merged down between the first two leaves: the merged leaf keeps it. */
  lemma {:induction false} MergedWrong(l: BtreeLayout, cmp: Comparator, t: Tree, key: Key, h: nat, lo: nat, dead: Slots)
    requires Sought(l, cmp, t, key, h, lo) && h > 0 && Inner(t) && |t.ents| > 0
    requires FoundAt(cmp, t.ents, key) && EnsureMin(l, t, LowerBound(cmp, t.ents, key)).Deleted?
    requires RemedyFor(l, t, LowerBound(cmp, t.ents, key)).MergeAt? && LowerBound(cmp, t.ents, key) == 0
    ensures !Right(l, cmp, t, key, h, dead)
  {
    hide Has, InOrder, LowerBound, Sorted, RemoveSorted, Overwrite, MergeLeaves, Delete, Roomy;
    var u, j, next := InnerStep(l, cmp, t, key, h, lo, dead);
    var c := u.kids[j];
    var e := c.ents[|c.ents| - 1];
    var below := Delete(l, cmp, c, next, h - 1, dead);
    if below.Deleted? {
      KidsAlike(l, t, h, lo, 0);
      LeavesSuffice(l, t, h, lo, 0);
      MergedSurvives(l, cmp, t, 0, key, lo, dead);
      OverwriteHasKid(cmp, u, j, e, below.tree, key);
      StillThere(cmp, InOrder(t), InOrder(Overwrite(u, j, e, below.tree)), key);
    }
  }

  /** Found above the leaves and pushed down by the rebalancing: the key survives, another entry does not. */
  lemma PushedWrong(l: BtreeLayout, cmp: Comparator, t: Tree, key: Key, h: nat, lo: nat, dead: Slots)
    requires Sought(l, cmp, t, key, h, lo) && h > 0 && Inner(t) && |t.ents| > 0
    requires FoundAt(cmp, t.ents, key) && EnsureMin(l, t, LowerBound(cmp, t.ents, key)).Deleted?
    requires !Kept(l, t, LowerBound(cmp, t.ents, key))
    ensures !Right(l, cmp, t, key, h, dead)
  {
    hide Has, InOrder, LowerBound, Sorted, RemedyFor, EnsureMin, Right, Roomy;
    if RemedyFor(l, t, LowerBound(cmp, t.ents, key)).FromRight? {
      LentWrong(l, cmp, t, key, h, lo, dead);
    } else {
      MergedWrong(l, cmp, t, key, h, lo, dead);
    }
  }

  lemma StealRightWidth(p: Tree, k: nat)
    requires Inner(p) && k < |p.ents| && |p.kids[k + 1].ents| > 0
    ensures |StealRight(p, k).ents| == |p.ents| && Inner(StealRight(p, k))
  {
  }

  /** A separator merged down between two leaves outlives the removal of the merged leaf's last key. */
  lemma MergedSurvives(l: BtreeLayout, cmp: Comparator, p: Tree, k: nat, key: Key, lo: nat, dead: Slots)
    requires Inner(p) && k < |p.ents| && p.kids[k].kids == [] && p.kids[k + 1].kids == [] && |p.kids[k + 1].ents| > 0
    requires cmp(key, p.ents[k].key) == 0
    requires var c := MergeLeaves(p, k).kids[k]; |c.ents| > 0 && Sought(l, cmp, c, c.ents[|c.ents| - 1].key, 0, l.minKeys)
    ensures var c := MergeLeaves(p, k).kids[k];
      var d := Delete(l, cmp, c, c.ents[|c.ents| - 1].key, 0, dead);
      d.Deleted? && Has(cmp, InOrder(d.tree), key)
  {
    var c := MergeLeaves(p, k).kids[k];
    LeafLosesLast(l, cmp, c, l.minKeys, dead);
    var d := c.(ents := c.ents[..|c.ents| - 1]);
    InOrderLeaf(d);
    assert d.ents[|p.kids[k].ents|] == p.ents[k];
  }

  /** Found above the leaves: right exactly when its left child is a leaf and it stays where it was. */
  lemma FoundExact(l: BtreeLayout, cmp: Comparator, t: Tree, key: Key, h: nat, lo: nat, dead: Slots)
    requires Sought(l, cmp, t, key, h, lo) && h > 0 && Inner(t) && |t.ents| > 0
    requires FoundAt(cmp, t.ents, key) && EnsureMin(l, t, LowerBound(cmp, t.ents, key)).Deleted?
    ensures var pos := LowerBound(cmp, t.ents, key);
      Right(l, cmp, t, key, h, dead) <==> t.kids[pos].leaf && Kept(l, t, pos)
  {
    hide Has, InOrder, LowerBound, Sorted, Right, Kept, EnsureMin, RemedyFor, Roomy;
    var pos := LowerBound(cmp, t.ents, key);
    KidsAlike(l, t, h, lo, pos);
    if Kept(l, t, pos) {
      KeptExact(l, cmp, t, key, h, lo, dead);
    } else {
      PushedWrong(l, cmp, t, key, h, lo, dead);
    }
  }

  lemma SoughtRoomy(l: BtreeLayout, cmp: Comparator, t: Tree, key: Key, h: nat, lo: nat)
    requires Sought(l, cmp, t, key, h, lo)
    ensures Roomy(l, t, h, lo)
  {
  }

  lemma BelowExact(l: BtreeLayout, cmp: Comparator, t: Tree, key: Key, h: nat, lo: nat, dead: Slots)
    requires Sought(l, cmp, t, key, h, lo) && h > 0 && Inner(t) && |t.ents| > 0
    requires !FoundAt(cmp, t.ents, key) && EnsureMin(l, t, LowerBound(cmp, t.ents, key)).Deleted?
    ensures var pos := LowerBound(cmp, t.ents, key);
      var u, j := EnsureMin(l, t, pos).tree, VisitAt(l, t, pos);
      j < |u.kids| && (Right(l, cmp, t, key, h, dead) <==> Right(l, cmp, u.kids[j], key, h - 1, dead))
  {
    hide Has, InOrder, LowerBound, Sorted, RemoveSorted, EnsureMin, RemedyFor, Refill;
    SecondPosition(l, cmp, t, h, lo, key);
    var u, j, next := InnerStep(l, cmp, t, key, h, lo, dead);
    var below := Delete(l, cmp, u.kids[j], key, h - 1, dead);
    if below.Deleted? {
      BelowRight(cmp, u, j, below.tree, key);
    }
  }
}
