/** When deletion, as the code performs it, removes exactly the key. */
module DeleteCorrect {
  import opened Ordering
  import opened Layout
  import opened Trees
  import opened Contexts
  import opened NodeOps
  import opened TreeOrder
  import opened Rebalance
  import opened DeleteSpec

  // ---------------------------------------------------------------- where the key is

  /** A key held below child `j` is not a separator, and a key comparison finds child `j`. */
  lemma KeyBelow(cmp: Comparator, t: Tree, j: nat, key: Key)
    requires TotalPreorder(cmp) && Inner(t) && Sorted(cmp, InOrder(t)) && j < |t.kids|
    requires Has(cmp, InOrder(t.kids[j]), key)
    ensures LowerBound(cmp, t.ents, key) == j && !FoundAt(cmp, t.ents, key)
    ensures AllBelow(cmp, Before(t.ents[..j], t.kids[..j]), key)
    ensures AllAbove(cmp, After(t.ents[j..], t.kids[j + 1..]), key)
    ensures Sorted(cmp, InOrder(t.kids[j]))
  {
    var b, m, a := Before(t.ents[..j], t.kids[..j]), InOrder(t.kids[j]), After(t.ents[j..], t.kids[j + 1..]);
    InOrderAt(t, j);
    MiddleBrackets(cmp, b, m, a, key);
    SlotBetween(cmp, t.ents, t.kids, j, key);
    if j < |t.ents| {
      assert a[0] == t.ents[j];
    }
  }

  lemma MiddleBrackets(cmp: Comparator, b: seq<Entry>, m: seq<Entry>, a: seq<Entry>, key: Key)
    requires TotalPreorder(cmp) && Sorted(cmp, b + m + a) && Has(cmp, m, key)
    ensures AllBelow(cmp, b, key) && AllAbove(cmp, a, key) && Sorted(cmp, m)
  {
    SortedConcat(cmp, b + m, a);
    SortedConcat(cmp, b, m);
    var i :| 0 <= i < |m| && cmp(key, m[i].key) == 0;
    assert (b + m)[|b| + i] == m[i];
    forall k | 0 <= k < |b| ensures cmp(b[k].key, key) < 0 { LessTransitive(cmp, b[k].key, m[i].key, key); }
    forall k | 0 <= k < |a| ensures cmp(key, a[k].key) < 0 { LessTransitive(cmp, key, m[i].key, a[k].key); }
  }

  /** A key that is separator `j` is found there, with its surroundings on the right sides. */
  lemma KeyAt(cmp: Comparator, t: Tree, j: nat, key: Key)
    requires TotalPreorder(cmp) && Inner(t) && Sorted(cmp, InOrder(t)) && j < |t.ents|
    requires cmp(key, t.ents[j].key) == 0
    ensures LowerBound(cmp, t.ents, key) == j && FoundAt(cmp, t.ents, key)
    ensures AllBelow(cmp, Before(t.ents[..j], t.kids[..j]) + InOrder(t.kids[j]), key)
    ensures AllAbove(cmp, InOrder(t.kids[j + 1]) + After(t.ents[j + 1..], t.kids[j + 2..]), key)
  {
    hide InOrder, Before, After, LowerBound;
    var b0 := Before(t.ents[..j], t.kids[..j]);
    var b := b0 + InOrder(t.kids[j]);
    var a := InOrder(t.kids[j + 1]) + After(t.ents[j + 1..], t.kids[j + 2..]);
    InOrderAround(t, j);
    assert InOrder(t) == b + [t.ents[j]] + a;
    SeparatorBrackets(cmp, b, t.ents[j], a, key);
    assert forall i :: 0 <= i < |b0| ==> b0[i] == b[i];
    BeforeBounds(cmp, t.ents[..j], t.kids[..j], key);
    forall i | 0 <= i < j ensures cmp(key, t.ents[i].key) > 0 { assert t.ents[..j][i] == t.ents[i]; }
    LowerBoundUnique(cmp, t.ents, key, j);
  }

  lemma HasInParts(cmp: Comparator, x: seq<Entry>, m: seq<Entry>, y: seq<Entry>, key: Key)
    requires Has(cmp, m, key)
    ensures Has(cmp, x + m + y, key)
  {
    var i :| 0 <= i < |m| && cmp(key, m[i].key) == 0;
    assert (x + m + y)[|x| + i] == m[i];
  }

  lemma HasEntry(cmp: Comparator, x: seq<Entry>, e: Entry, y: seq<Entry>, key: Key)
    requires cmp(key, e.key) == 0
    ensures Has(cmp, x + [e] + y, key)
  {
    assert (x + [e] + y)[|x|] == e;
  }

  /** A key of the tree that is no separator of the top node is below the child a comparison picks. */
  lemma HeldBelow(cmp: Comparator, t: Tree, key: Key)
    requires TotalPreorder(cmp) && Inner(t) && Sorted(cmp, InOrder(t))
    requires Has(cmp, InOrder(t), key) && !FoundAt(cmp, t.ents, key)
    ensures Has(cmp, InOrder(t.kids[LowerBound(cmp, t.ents, key)]), key)
  {
    hide InOrder, Before, After, LowerBound, Has, FoundAt;
    var i := LowerBound(cmp, t.ents, key);
    var b, m, a := Before(t.ents[..i], t.kids[..i]), InOrder(t.kids[i]), After(t.ents[i..], t.kids[i + 1..]);
    SidesOfChild(cmp, t, key);
    InOrderAt(t, i);
    FoundIffHas(cmp, b + m + a, key);
    BracketedBound(cmp, b, m, a, key);
    FoundIffHas(cmp, m, key);
  }

  // ---------------------------------------------------------------- ensure_min_keys and the sought key

  lemma HasAtFront(cmp: Comparator, m: seq<Entry>, e: Entry, y: seq<Entry>, key: Key)
    requires Has(cmp, m, key)
    ensures Has(cmp, m + [e] + y, key)
  {
    var i :| 0 <= i < |m| && cmp(key, m[i].key) == 0;
    assert (m + [e] + y)[i] == m[i];
  }

  lemma HasAtEnd(cmp: Comparator, x: seq<Entry>, e: Entry, m: seq<Entry>, key: Key)
    requires Has(cmp, m, key)
    ensures Has(cmp, x + [e] + m, key)
  {
    var i :| 0 <= i < |m| && cmp(key, m[i].key) == 0;
    assert (x + [e] + m)[|x| + 1 + i] == m[i];
  }

  lemma StealLeftKeeps(cmp: Comparator, p: Tree, k: nat, key: Key)
    requires Inner(p) && k < |p.ents| && |p.kids[k].ents| > 0 && Alike(p.kids[k], p.kids[k + 1])
    requires Has(cmp, InOrder(p.kids[k + 1]), key)
    ensures Has(cmp, InOrder(StealLeft(p, k).kids[k + 1]), key)
  {
    hide InOrder, Has;
    var x := StealLeft(p, k).kids[k + 1];
    FrontPart(p, k);
    PeelFirst(x);
    HasAtEnd(cmp, if x.kids == [] then [] else InOrder(x.kids[0]), x.ents[0], InOrder(p.kids[k + 1]), key);
  }

  lemma StealRightKeeps(cmp: Comparator, p: Tree, k: nat, key: Key)
    requires Inner(p) && k < |p.ents| && |p.kids[k + 1].ents| > 0 && Alike(p.kids[k], p.kids[k + 1])
    requires Has(cmp, InOrder(p.kids[k]), key)
    ensures Has(cmp, InOrder(StealRight(p, k).kids[k]), key)
  {
    hide InOrder, Has;
    var x, n := StealRight(p, k).kids[k], |p.kids[k].ents|;
    BackPart(p, k);
    PeelLast(x, n);
    HasAtFront(cmp, InOrder(p.kids[k]), x.ents[n], if x.kids == [] then [] else InOrder(x.kids[n + 1]), key);
  }

  lemma MergeKeeps(cmp: Comparator, p: Tree, k: nat, i: nat, key: Key)
    requires Inner(p) && k < |p.ents| && p.kids[k].kids == [] && p.kids[k + 1].kids == []
    requires k <= i <= k + 1 && Has(cmp, InOrder(p.kids[i]), key)
    ensures Has(cmp, InOrder(MergeLeaves(p, k).kids[k]), key)
  {
    var left, right := p.kids[k], p.kids[k + 1];
    InOrderLeaf(left);
    InOrderLeaf(right);
    InOrderLeaf(MergeLeaves(p, k).kids[k]);
    if i == k {
      HasAtFront(cmp, left.ents, p.ents[k], right.ents, key);
    } else {
      HasAtEnd(cmp, left.ents, p.ents[k], right.ents, key);
    }
  }

  /** The visited child only gains: a key strictly below it stays below it. */
  lemma {:induction false} VisitKeeps(l: BtreeLayout, cmp: Comparator, t: Tree, h: nat, lo: nat, i: nat, key: Key)
    requires Roomy(l, t, h, lo) && h > 0 && i < |t.kids| && EnsureMin(l, t, i).Deleted?
    requires Has(cmp, InOrder(t.kids[i]), key)
    ensures VisitAt(l, t, i) < |EnsureMin(l, t, i).tree.kids|
    ensures Has(cmp, InOrder(EnsureMin(l, t, i).tree.kids[VisitAt(l, t, i)]), key)
  {
    hide InOrder, Has, Roomy;
    RoomyInner(l, t, h, lo);
    match RemedyFor(l, t, i)
    case Nothing =>
    case FromLeft =>
      KidsAlike(l, t, h, lo, i - 1);
      StealLeftKeeps(cmp, t, i - 1, key);
    case FromRight =>
      KidsAlike(l, t, h, lo, i);
      StealRightKeeps(cmp, t, i, key);
    case MergeAt(k) =>
      KidsAlike(l, t, h, lo, k);
      LeavesSuffice(l, t, h, lo, k);
      MergeKeeps(cmp, t, k, i, key);
  }

  lemma LeavesSuffice(l: BtreeLayout, t: Tree, h: nat, lo: nat, k: nat)
    requires Roomy(l, t, h, lo) && h > 0 && k < |t.ents| && k < |t.kids| && t.kids[k].leaf
    ensures h == 1
  {
    KidShaped(l, t, h, lo + 1, k);
  }

  lemma FrontPart(p: Tree, k: nat)
    requires Inner(p) && k < |p.ents| && |p.kids[k].ents| > 0 && Alike(p.kids[k], p.kids[k + 1])
    ensures var x, c := StealLeft(p, k).kids[k + 1], p.kids[k + 1];
      && |x.ents| > 0 && (x.kids == [] || Inner(x)) && x.ents[0] == p.ents[k]
      && Tree(x.ref, x.leaf, x.ents[1..], if x.kids == [] then [] else x.kids[1..]) == c
  {
    var x, c := StealLeft(p, k).kids[k + 1], p.kids[k + 1];
    assert x.ents[1..] == c.ents;
    if x.kids != [] { assert x.kids[1..] == c.kids; }
  }

  lemma BackPart(p: Tree, k: nat)
    requires Inner(p) && k < |p.ents| && |p.kids[k + 1].ents| > 0 && Alike(p.kids[k], p.kids[k + 1])
    ensures var x, c := StealRight(p, k).kids[k], p.kids[k];
      && |x.ents| == |c.ents| + 1 && (x.kids == [] || Inner(x)) && x.ents[|c.ents|] == p.ents[k]
      && Tree(x.ref, x.leaf, x.ents[..|c.ents|], if x.kids == [] then [] else x.kids[..|c.ents| + 1]) == c
  {
    var x, c := StealRight(p, k).kids[k], p.kids[k];
    assert x.ents[..|c.ents|] == c.ents;
    if x.kids != [] { assert x.kids[..|c.ents| + 1] == c.kids; }
  }

  // ---------------------------------------------------------------- a key found in an inner node

  /** Whether ensure_min_keys leaves separator `pos` a separator: it is not lent down and not merged down. */
  ghost predicate Kept(l: BtreeLayout, t: Tree, pos: nat)
    requires Inner(t) && pos < |t.ents|
  {
    match RemedyFor(l, t, pos)
    case Nothing => true
    case FromLeft => true
    case FromRight => false
    case MergeAt(_) => pos > 0
  }

  lemma KeptSeparator(l: BtreeLayout, t: Tree, h: nat, lo: nat, pos: nat)
    requires Roomy(l, t, h, lo) && h > 0 && Inner(t) && pos < |t.ents| && EnsureMin(l, t, pos).Deleted?
    requires Kept(l, t, pos)
    ensures var u, j := EnsureMin(l, t, pos).tree, VisitAt(l, t, pos);
      Inner(u) && j < |u.ents| && u.ents[j] == t.ents[pos]
  {
    hide Roomy;
    match RemedyFor(l, t, pos)
    case Nothing =>
    case FromLeft => KidsAlike(l, t, h, lo, pos - 1);
    case FromRight =>
    case MergeAt(k) => KidsAlike(l, t, h, lo, k);
  }

  lemma LentDown(cmp: Comparator, p: Tree, k: nat, key: Key)
    requires Inner(p) && k < |p.ents| && |p.kids[k + 1].ents| > 0 && Alike(p.kids[k], p.kids[k + 1])
    requires cmp(key, p.ents[k].key) == 0
    ensures var x := StealRight(p, k).kids[k];
      |x.ents| > 0 && x.ents[|x.ents| - 1] == p.ents[k] && Has(cmp, InOrder(x), key)
  {
    hide InOrder, Has;
    var x, n := StealRight(p, k).kids[k], |p.kids[k].ents|;
    BackPart(p, k);
    PeelLast(x, n);
    HasEntry(cmp, InOrder(p.kids[k]), x.ents[n], if x.kids == [] then [] else InOrder(x.kids[n + 1]), key);
  }

  lemma MergedDown(cmp: Comparator, p: Tree, k: nat, key: Key)
    requires Inner(p) && k < |p.ents| && p.kids[k].kids == [] && p.kids[k + 1].kids == []
    requires cmp(key, p.ents[k].key) == 0
    ensures Has(cmp, InOrder(MergeLeaves(p, k).kids[k]), key)
  {
    InOrderLeaf(MergeLeaves(p, k).kids[k]);
    HasEntry(cmp, p.kids[k].ents, p.ents[k], p.kids[k + 1].ents, key);
  }

  /** A separator that is not kept ends up in the visited child. */
  lemma {:induction false} PushedDown(l: BtreeLayout, cmp: Comparator, t: Tree, h: nat, lo: nat, pos: nat, key: Key)
    requires Roomy(l, t, h, lo) && h > 0 && Inner(t) && pos < |t.ents| && EnsureMin(l, t, pos).Deleted?
    requires cmp(key, t.ents[pos].key) == 0 && !Kept(l, t, pos)
    ensures VisitAt(l, t, pos) == pos && pos < |EnsureMin(l, t, pos).tree.kids|
    ensures Has(cmp, InOrder(EnsureMin(l, t, pos).tree.kids[pos]), key)
  {
    hide InOrder, Has, Roomy;
    KidsAlike(l, t, h, lo, pos);
    match RemedyFor(l, t, pos)
    case Nothing =>
    case FromLeft =>
    case FromRight => LentDown(cmp, t, pos, key);
    case MergeAt(k) =>
      LeavesSuffice(l, t, h, lo, k);
      MergedDown(cmp, t, k, key);
  }

  /** After ensure_min_keys the second key comparison always picks the visited child. */
  lemma {:induction false} SecondPosition(l: BtreeLayout, cmp: Comparator, t: Tree, h: nat, lo: nat, key: Key)
    requires TotalPreorder(cmp) && Roomy(l, t, h, lo) && h > 0 && Inner(t)
    requires Sorted(cmp, InOrder(t)) && Has(cmp, InOrder(t), key)
    requires |t.ents| > 0 && EnsureMin(l, t, LowerBound(cmp, t.ents, key)).Deleted?
    ensures var pos := LowerBound(cmp, t.ents, key);
      var u, j := EnsureMin(l, t, pos).tree, VisitAt(l, t, pos);
      && Inner(u) && j < |u.kids| && InOrder(u) == InOrder(t)
      && LowerBound(cmp, u.ents, key) == j && Sorted(cmp, InOrder(u.kids[j]))
      && (if FoundAt(cmp, t.ents, key) && Kept(l, t, pos) then j < |u.ents| && u.ents[j] == t.ents[pos]
          else Has(cmp, InOrder(u.kids[j]), key))
  {
    hide Has, Roomy, InOrder;
    var pos := LowerBound(cmp, t.ents, key);
    RoomyInner(l, t, h, lo);
    EnsureMinConserves(l, t, h, lo, pos);
    EnsureMinShaped(l, t, h, lo, pos);
    var u, j := EnsureMin(l, t, pos).tree, VisitAt(l, t, pos);
    EnsureMinInner(l, t, h, lo, pos);
    if FoundAt(cmp, t.ents, key) && Kept(l, t, pos) {
      KeptSeparator(l, t, h, lo, pos);
      KeyAt(cmp, u, j, key);
      KidRunSorted(cmp, u, j);
    } else {
      if FoundAt(cmp, t.ents, key) {
        PushedDown(l, cmp, t, h, lo, pos, key);
      } else {
        HeldBelow(cmp, t, key);
        VisitKeeps(l, cmp, t, h, lo, pos, key);
      }
      KeyBelow(cmp, u, j, key);
    }
  }

  lemma EnsureMinInner(l: BtreeLayout, t: Tree, h: nat, lo: nat, i: nat)
    requires Roomy(l, t, h, lo) && h > 0 && Inner(t) && i < |t.kids| && EnsureMin(l, t, i).Deleted?
    ensures Inner(EnsureMin(l, t, i).tree)
  {
  }

  lemma KidRunSorted(cmp: Comparator, t: Tree, i: nat)
    requires Inner(t) && i < |t.kids| && Sorted(cmp, InOrder(t))
    ensures Sorted(cmp, InOrder(t.kids[i]))
  {
    InOrderAt(t, i);
    var b, m, a := Before(t.ents[..i], t.kids[..i]), InOrder(t.kids[i]), After(t.ents[i..], t.kids[i + 1..]);
    hide InOrder, Before, After;
    SortedConcat(cmp, b + m, a);
    SortedConcat(cmp, b, m);
  }
}
