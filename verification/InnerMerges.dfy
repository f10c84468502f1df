/**
 * What a merge of two inner nodes leads to. The right node's last child is cut off and the one before it
 * comes to stand behind a larger key: from then on, whatever the dead slots hold, the run ends too low.
 */
module InnerMerges {
  import opened Ordering
  import opened Layout
  import opened Trees
  import opened Contexts
  import opened NodeOps
  import opened TreeOrder
  import opened Rebalance
  import opened DeleteSpec
  import opened DeleteCorrect

  ghost predicate EndsBelow(cmp: Comparator, s: seq<Entry>, b: Key) {
    s != [] ==> cmp(s[|s| - 1].key, b) < 0
  }

  /** A subtree in shape, all of it below a bound. */
  ghost predicate LowTree(l: BtreeLayout, cmp: Comparator, t: Tree, h: nat, b: Key) {
    Shaped(t, h, l.minKeys, l.minKeys, l.maxKeys) && AllBelow(cmp, InOrder(t), b)
  }

  /** A node, in order or not, that ends in such a subtree; its last own key is low too, or its largest. */
  ghost predicate LowEnd(l: BtreeLayout, cmp: Comparator, t: Tree, h: nat, b: Key) {
    && |t.ents| > 0
    && if h == 0 then t.leaf && t.kids == [] && cmp(t.ents[|t.ents| - 1].key, b) < 0
       else Inner(t) && LowTree(l, cmp, t.kids[|t.ents|], h - 1, b) && LastLowOrLargest(cmp, t.ents, b)
  }

  ghost predicate LastLowOrLargest(cmp: Comparator, es: seq<Entry>, b: Key) {
    && |es| > 0
    && (cmp(es[|es| - 1].key, b) < 0 || forall i :: 0 <= i < |es| ==> cmp(es[i].key, es[|es| - 1].key) <= 0)
  }

  // ---------------------------------------------------------------- low subtrees

  lemma PartBelow(cmp: Comparator, x: seq<Entry>, m: seq<Entry>, y: seq<Entry>, b: Key)
    requires AllBelow(cmp, x + m + y, b)
    ensures AllBelow(cmp, m, b)
  {
    assert forall i :: 0 <= i < |m| ==> m[i] == (x + m + y)[|x| + i];
  }

  lemma LowTreeShape(l: BtreeLayout, cmp: Comparator, t: Tree, h: nat, b: Key)
    requires Usable(l) && LowTree(l, cmp, t, h, b)
    ensures |t.ents| > 0 && (if h == 0 then t.leaf && t.kids == [] else Inner(t))
  {
  }

  lemma LowTreeKid(l: BtreeLayout, cmp: Comparator, t: Tree, h: nat, b: Key, i: nat)
    requires Usable(l) && LowTree(l, cmp, t, h, b) && h > 0 && i < |t.kids|
    ensures LowTree(l, cmp, t.kids[i], h - 1, b)
  {
    InOrderAt(t, i);
    PartBelow(cmp, Before(t.ents[..i], t.kids[..i]), InOrder(t.kids[i]), After(t.ents[i..], t.kids[i + 1..]), b);
  }

  lemma LowTreeEntry(l: BtreeLayout, cmp: Comparator, t: Tree, h: nat, b: Key, i: nat)
    requires Usable(l) && LowTree(l, cmp, t, h, b) && i < |t.ents|
    ensures cmp(t.ents[i].key, b) < 0
  {
    LowTreeShape(l, cmp, t, h, b);
    if h == 0 {
      InOrderLeaf(t);
    } else {
      InOrderAround(t, i);
      var x, m := Before(t.ents[..i], t.kids[..i]), InOrder(t.kids[i]) + [t.ents[i]] + InOrder(t.kids[i + 1]);
      PartBelow(cmp, x, m, After(t.ents[i + 1..], t.kids[i + 2..]), b);
      assert m[|InOrder(t.kids[i])|] == t.ents[i];
    }
  }

  lemma LowTreeEnds(l: BtreeLayout, cmp: Comparator, t: Tree, h: nat, b: Key)
    requires Usable(l) && LowTree(l, cmp, t, h, b)
    ensures LowEnd(l, cmp, t, h, b)
  {
    LowTreeShape(l, cmp, t, h, b);
    LowTreeEntry(l, cmp, t, h, b, |t.ents| - 1);
    if h > 0 { LowTreeKid(l, cmp, t, h, b, |t.ents|); }
  }

  lemma RunHasEntries(t: Tree)
    requires |t.ents| > 0 && (t.kids == [] || Inner(t))
    ensures InOrder(t) != []
  {
    if t.kids == [] { InOrderLeaf(t); } else { InOrderAround(t, 0); }
  }

  /** Such a node's run ends below the bound. */
  lemma LowEndRun(l: BtreeLayout, cmp: Comparator, t: Tree, h: nat, b: Key)
    requires Usable(l) && LowEnd(l, cmp, t, h, b)
    ensures InOrder(t) != [] && EndsBelow(cmp, InOrder(t), b)
  {
    if h == 0 {
      InOrderLeaf(t);
    } else {
      var q := t.kids[|t.ents|];
      InOrderLast(t);
      LowTreeShape(l, cmp, q, h - 1, b);
      RunHasEntries(q);
    }
  }

  /** The run of an inner node ends as its last child's does. */
  lemma EndsAsLastKid(cmp: Comparator, t: Tree, b: Key)
    requires Inner(t) && InOrder(t.kids[|t.ents|]) != [] && EndsBelow(cmp, InOrder(t.kids[|t.ents|]), b)
    ensures EndsBelow(cmp, InOrder(t), b)
  {
    InOrderLast(t);
    hide Before, InOrder;
    var x, m := Before(t.ents, t.kids[..|t.ents|]), InOrder(t.kids[|t.ents|]);
    assert (x + m)[|x + m| - 1] == m[|m| - 1];
  }

  /** If that child's run is empty, it ends with the last own entry. */
  lemma EndsAsLastEntry(cmp: Comparator, t: Tree, b: Key)
    requires Inner(t) && InOrder(t.kids[|t.ents|]) == [] && EndsBelow(cmp, t.ents, b)
    ensures EndsBelow(cmp, InOrder(t), b)
  {
    InOrderLast(t);
    if |t.ents| > 0 { BeforeEnds(t.ents, t.kids[..|t.ents|]); }
  }

  // ---------------------------------------------------------------- ensure_min_keys keeps a low end

  /** What one step of the descent needs to know of the rebalanced node `u`. */
  ghost predicate StillLow(l: BtreeLayout, cmp: Comparator, u: Tree, key: Key, h: nat, b: Key) {
    && h > 0 && Inner(u) && LowEnd(l, cmp, u.kids[|u.ents|], h - 1, b)
    && (LowerBound(cmp, u.ents, key) == |u.ents| ==> |u.kids[|u.ents|].ents| >= 2 || EndsBelow(cmp, u.ents, b))
  }

  /** The last child and the last own entry stand as they were. */
  lemma UntouchedEnd(l: BtreeLayout, cmp: Comparator, t: Tree, u: Tree, key: Key, h: nat, b: Key)
    requires TotalPreorder(cmp) && Usable(l) && LowEnd(l, cmp, t, h, b) && h > 0
    requires LowerBound(cmp, t.ents, key) < |t.ents| && Inner(u) && |u.ents| > 0
    requires u.kids[|u.ents|] == t.kids[|t.ents|] && u.ents[|u.ents| - 1] == t.ents[|t.ents| - 1]
    ensures StillLow(l, cmp, u, key, h, b)
  {
    LowTreeEnds(l, cmp, t.kids[|t.ents|], h - 1, b);
    var p := LowerBound(cmp, t.ents, key);
    assert cmp(key, t.ents[p].key) <= 0;
  }

  lemma LeftLends(l: BtreeLayout, cmp: Comparator, t: Tree, key: Key, h: nat, b: Key)
    requires TotalPreorder(cmp) && Usable(l) && LowEnd(l, cmp, t, h, b) && h > 0 && LowerBound(cmp, t.ents, key) > 0
    requires var p := LowerBound(cmp, t.ents, key); |t.kids[p - 1].ents| > 0 && Alike(t.kids[p - 1], t.kids[p])
    ensures StillLow(l, cmp, StealLeft(t, LowerBound(cmp, t.ents, key) - 1), key, h, b)
  {
    hide LowerBound, LowTree;
    var p, n := LowerBound(cmp, t.ents, key), |t.ents|;
    var u := StealLeft(t, p - 1);
    if p == n {
      LeftLendsLast(l, cmp, t, h, b);
    } else {
      UntouchedEnd(l, cmp, t, u, key, h, b);
    }
  }

  lemma LeftLendsLast(l: BtreeLayout, cmp: Comparator, t: Tree, h: nat, b: Key)
    requires Usable(l) && LowEnd(l, cmp, t, h, b) && h > 0
    requires var n := |t.ents|; |t.kids[n - 1].ents| > 0 && Alike(t.kids[n - 1], t.kids[n])
    ensures var n := |t.ents|;
      var u := StealLeft(t, n - 1);
      Inner(u) && |u.ents| == n && LowEnd(l, cmp, u.kids[n], h - 1, b) && |u.kids[n].ents| >= 2
  {
    hide LowTree;
    var n := |t.ents|;
    var q, c := StealLeft(t, n - 1).kids[n], t.kids[n];
    LowTreeEnds(l, cmp, c, h - 1, b);
    LowTreeEntry(l, cmp, c, h - 1, b, |c.ents| - 1);
    assert q.ents[|q.ents| - 1] == c.ents[|c.ents| - 1];
    if h > 1 { assert q.kids[|q.ents|] == c.kids[|c.ents|]; }
  }

  lemma RightLends(l: BtreeLayout, cmp: Comparator, t: Tree, key: Key, h: nat, b: Key)
    requires TotalPreorder(cmp) && Usable(l) && LowEnd(l, cmp, t, h, b) && h > 0 && LowerBound(cmp, t.ents, key) < |t.ents|
    requires var p := LowerBound(cmp, t.ents, key); |t.kids[p + 1].ents| > l.minKeys && Alike(t.kids[p], t.kids[p + 1])
    ensures StillLow(l, cmp, StealRight(t, LowerBound(cmp, t.ents, key)), key, h, b)
  {
    hide LowerBound, LowTree;
    var p, n := LowerBound(cmp, t.ents, key), |t.ents|;
    var u := StealRight(t, p);
    if p == n - 1 {
      var q, c := u.kids[n], t.kids[n];
      LowTreeEnds(l, cmp, c, h - 1, b);
      LowTreeEntry(l, cmp, c, h - 1, b, 0);
      LowTreeEntry(l, cmp, c, h - 1, b, |c.ents| - 1);
      assert u.ents[n - 1] == c.ents[0] && q.ents == c.ents[1..];
      assert q.ents[|q.ents| - 1] == c.ents[|c.ents| - 1];
      if h > 1 { assert q.kids == c.kids[1..] && q.kids[|q.ents|] == c.kids[|c.ents|]; }
    } else {
      UntouchedEnd(l, cmp, t, u, key, h, b);
    }
  }

  /** Merging the last two children, or two others; `x` is what they become. */
  lemma Merges(l: BtreeLayout, cmp: Comparator, t: Tree, key: Key, h: nat, b: Key, k: nat, x: Tree)
    requires TotalPreorder(cmp) && Usable(l) && LowEnd(l, cmp, t, h, b) && h > 0
    requires k < |t.ents| && LowerBound(cmp, t.ents, key) <= k + 1
    requires k + 1 == |t.ents| ==> LowEnd(l, cmp, x, h - 1, b) && |x.ents| >= 2
    ensures StillLow(l, cmp, WithOne(t, k, x), key, h, b)
  {
    hide LowerBound, LowTree;
    var u, n := WithOne(t, k, x), |t.ents|;
    if k + 1 == n {
      assert u.kids[|u.ents|] == x;
    } else {
      UntouchedEnd(l, cmp, t, u, key, h, b);
    }
  }

  lemma MergedLeafLow(l: BtreeLayout, cmp: Comparator, t: Tree, h: nat, b: Key)
    requires Usable(l) && LowEnd(l, cmp, t, h, b) && h > 0
    requires var k := |t.ents| - 1; t.kids[k].leaf && Alike(t.kids[k], t.kids[k + 1])
    ensures var k := |t.ents| - 1;
      var x := Tree(t.kids[k].ref, t.kids[k].leaf, t.kids[k].ents + [t.ents[k]] + t.kids[k + 1].ents, t.kids[k].kids);
      LowEnd(l, cmp, x, h - 1, b) && |x.ents| >= 2
  {
    hide LowTree;
    var c := t.kids[|t.ents|];
    LowTreeEnds(l, cmp, c, h - 1, b);
  }

  lemma MergedInnerLow(l: BtreeLayout, cmp: Comparator, t: Tree, h: nat, b: Key, between: Tree)
    requires Usable(l) && LowEnd(l, cmp, t, h, b) && h > 0
    requires var k := |t.ents| - 1; !t.kids[k].leaf && Alike(t.kids[k], t.kids[k + 1])
    ensures var k := |t.ents| - 1;
      var x, y := t.kids[k], t.kids[k + 1];
      var z := Tree(x.ref, x.leaf, x.ents + [t.ents[k]] + y.ents, x.kids + [between] + y.kids[..|y.ents|]);
      LowEnd(l, cmp, z, h - 1, b) && |z.ents| >= 2
  {
    hide LowTree;
    var x, y := t.kids[|t.ents| - 1], t.kids[|t.ents|];
    LowTreeEnds(l, cmp, y, h - 1, b);
    LowTreeShape(l, cmp, y, h - 1, b);
    LowTreeEntry(l, cmp, y, h - 1, b, |y.ents| - 1);
    LowTreeKid(l, cmp, y, h - 1, b, |y.ents| - 1);
    var z := Tree(x.ref, x.leaf, x.ents + [t.ents[|t.ents| - 1]] + y.ents, x.kids + [between] + y.kids[..|y.ents|]);
    assert z.kids[|z.ents|] == y.kids[|y.ents| - 1];
    assert z.ents[|z.ents| - 1] == y.ents[|y.ents| - 1];
  }

  /** Whatever ensure_min_keys does on the way down, the node still ends low. */
  lemma {:induction false} RebalancedLow(l: BtreeLayout, cmp: Comparator, t: Tree, key: Key, h: nat, b: Key, slot: Option<Tree>)
    requires TotalPreorder(cmp) && Usable(l) && LowEnd(l, cmp, t, h, b) && h > 0
    requires Rebalanced(l, t, LowerBound(cmp, t.ents, key), slot).Deleted?
    ensures StillLow(l, cmp, Rebalanced(l, t, LowerBound(cmp, t.ents, key), slot).tree, key, h, b)
  {
    hide LowerBound, StillLow, StealLeft, StealRight, MergeLeaves, InnerMerged, LowTree, LastLowOrLargest;
    var p := LowerBound(cmp, t.ents, key);
    match RemedyFor(l, t, p)
    case Nothing =>
      if p < |t.ents| { UntouchedEnd(l, cmp, t, t, key, h, b); } else { RoomyEnd(l, cmp, t, key, h, b); }
    case FromLeft => LeftLends(l, cmp, t, key, h, b);
    case FromRight => RightLends(l, cmp, t, key, h, b);
    case MergeAt(k) =>
      assert Alike(t.kids[k], t.kids[k + 1]);
      if t.kids[k].leaf { LeavesMergeLow(l, cmp, t, key, h, b, k); } else { InnerMergeLow(l, cmp, t, key, h, b, k, slot); }
  }

  lemma LeavesMergeLow(l: BtreeLayout, cmp: Comparator, t: Tree, key: Key, h: nat, b: Key, k: nat)
    requires TotalPreorder(cmp) && Usable(l) && LowEnd(l, cmp, t, h, b) && h > 0
    requires k < |t.ents| && LowerBound(cmp, t.ents, key) <= k + 1 && t.kids[k].leaf && Alike(t.kids[k], t.kids[k + 1])
    ensures StillLow(l, cmp, MergeLeaves(t, k), key, h, b)
  {
    hide LowerBound, StillLow, WithOne, LowTree, LastLowOrLargest;
    var x, y := t.kids[k], t.kids[k + 1];
    if k + 1 == |t.ents| { MergedLeafLow(l, cmp, t, h, b); }
    Merges(l, cmp, t, key, h, b, k, Tree(x.ref, x.leaf, x.ents + [t.ents[k]] + y.ents, x.kids));
  }

  lemma InnerMergeLow(l: BtreeLayout, cmp: Comparator, t: Tree, key: Key, h: nat, b: Key, k: nat, slot: Option<Tree>)
    requires TotalPreorder(cmp) && Usable(l) && LowEnd(l, cmp, t, h, b) && h > 0
    requires k < |t.ents| && LowerBound(cmp, t.ents, key) <= k + 1 && !t.kids[k].leaf && Alike(t.kids[k], t.kids[k + 1])
    ensures StillLow(l, cmp, InnerMerged(t, k, slot), key, h, b)
  {
    hide LowerBound, StillLow, WithOne, LowTree, LastLowOrLargest;
    var x, y := t.kids[k], t.kids[k + 1];
    var between := if slot.Some? then slot.value else NoNode(x.ref);
    if k + 1 == |t.ents| { MergedInnerLow(l, cmp, t, h, b, between); }
    Merges(l, cmp, t, key, h, b, k, Tree(x.ref, x.leaf, x.ents + [t.ents[k]] + y.ents, x.kids + [between] + y.kids[..|y.ents|]));
  }

  lemma RoomyEnd(l: BtreeLayout, cmp: Comparator, t: Tree, key: Key, h: nat, b: Key)
    requires Usable(l) && LowEnd(l, cmp, t, h, b) && h > 0 && |t.kids[|t.ents|].ents| > l.minKeys
    ensures StillLow(l, cmp, t, key, h, b)
  {
    LowTreeEnds(l, cmp, t.kids[|t.ents|], h - 1, b);
  }

  // ---------------------------------------------------------------- deletion keeps a low end

  lemma RebalancedWidth(l: BtreeLayout, t: Tree, i: nat, slot: Option<Tree>)
    requires Inner(t) && i < |t.kids| && Rebalanced(l, t, i, slot).Deleted?
    ensures |Rebalanced(l, t, i, slot).tree.ents| >= |t.ents| - 1 && Inner(Rebalanced(l, t, i, slot).tree)
  {
  }

  /** A node with two entries of its own is not emptied by a deletion. */
  lemma LeavesSomething(l: BtreeLayout, cmp: Comparator, t: Tree, key: Key, h: nat, dead: Slots)
    requires |t.ents| >= 2 && (t.leaf ==> t.kids == []) && Delete(l, cmp, t, key, h, dead).Deleted?
    ensures InOrder(Delete(l, cmp, t, key, h, dead).tree) != []
  {
    hide LowerBound, Rebalanced;
    if !t.leaf { RebalancedWidth(l, t, LowerBound(cmp, t.ents, key), dead(h)); }
    RunHasEntries(Delete(l, cmp, t, key, h, dead).tree);
  }

  /** One level of delete_recursive in any inner node: the rebalanced node with one child replaced. */
  lemma {:induction false} DeleteOpened(l: BtreeLayout, cmp: Comparator, t: Tree, key: Key, h: nat, dead: Slots) returns (u: Tree, next: Key)
    requires !t.leaf && Delete(l, cmp, t, key, h, dead).Deleted?
    ensures h > 0 && Inner(t) && Rebalanced(l, t, LowerBound(cmp, t.ents, key), dead(h)) == Deleted(u) && Inner(u)
    ensures var p := LowerBound(cmp, u.ents, key);
      var below, w := Delete(l, cmp, u.kids[p], next, h - 1, dead), Delete(l, cmp, t, key, h, dead).tree;
      && below.Deleted? && Inner(w) && |w.ents| == |u.ents| && w.kids == u.kids[p := below.tree]
      && (p == |u.ents| ==> w.ents == u.ents)
  {
    hide LowerBound, Rebalanced;
    u := Rebalanced(l, t, LowerBound(cmp, t.ents, key), dead(h)).tree;
    var c := u.kids[LowerBound(cmp, u.ents, key)];
    next := if FoundAt(cmp, t.ents, key) then c.ents[|c.ents| - 1].key else key;
  }

  /** One level of the descent from a node that ends low. */
  lemma {:induction false} LowStep(l: BtreeLayout, cmp: Comparator, u: Tree, key: Key, h: nat, b: Key, w: Tree, kid: Tree)
    requires Usable(l) && StillLow(l, cmp, u, key, h, b)
    requires Inner(w) && |w.ents| == |u.ents| && w.kids == u.kids[LowerBound(cmp, u.ents, key) := kid]
    requires LowerBound(cmp, u.ents, key) == |u.ents| ==> w.ents == u.ents
    requires LowerBound(cmp, u.ents, key) == |u.ents| ==> EndsBelow(cmp, InOrder(kid), b)
    requires LowerBound(cmp, u.ents, key) == |u.ents| && |u.kids[|u.ents|].ents| >= 2 ==> InOrder(kid) != []
    ensures EndsBelow(cmp, InOrder(w), b)
  {
    hide LowerBound, InOrder, EndsBelow;
    var p, n := LowerBound(cmp, u.ents, key), |u.ents|;
    if p < n {
      LowEndRun(l, cmp, u.kids[n], h - 1, b);
      EndsAsLastKid(cmp, w, b);
    } else if InOrder(kid) != [] {
      EndsAsLastKid(cmp, w, b);
    } else {
      EndsAsLastEntry(cmp, w, b);
    }
  }

  /** Whatever a deletion takes out of a node that ends low, and whatever its dead slots hold, it still ends low. */
  lemma {:induction false} DeleteEndsLow(l: BtreeLayout, cmp: Comparator, t: Tree, key: Key, h: nat, b: Key, dead: Slots)
    requires TotalPreorder(cmp) && Usable(l) && LowEnd(l, cmp, t, h, b) && Delete(l, cmp, t, key, h, dead).Deleted?
    ensures EndsBelow(cmp, InOrder(Delete(l, cmp, t, key, h, dead).tree), b)
    decreases h
  {
    hide InOrder, Rebalanced, LowEnd, LowerBound, EndsBelow, StillLow, Delete, FoundAt;
    LowEndShape(l, cmp, t, h, b);
    if h == 0 {
      LeafEndsLow(l, cmp, t, key, b, dead);
    } else {
      var u, next := DeleteOpened(l, cmp, t, key, h, dead);
      RebalancedLow(l, cmp, t, key, h, b, dead(h));
      StillLowKid(l, cmp, u, key, h, b);
      var q := u.kids[|u.ents|];
      LowEndShape(l, cmp, q, h - 1, b);
      var p := LowerBound(cmp, u.ents, key);
      var below := Delete(l, cmp, u.kids[p], next, h - 1, dead);
      if p == |u.ents| {
        DeleteEndsLow(l, cmp, q, next, h - 1, b, dead);
        if |q.ents| >= 2 { LeavesSomething(l, cmp, q, next, h - 1, dead); }
      }
      LowStep(l, cmp, u, key, h, b, Delete(l, cmp, t, key, h, dead).tree, below.tree);
    }
  }

  lemma StillLowKid(l: BtreeLayout, cmp: Comparator, u: Tree, key: Key, h: nat, b: Key)
    requires StillLow(l, cmp, u, key, h, b)
    ensures h > 0 && Inner(u) && LowEnd(l, cmp, u.kids[|u.ents|], h - 1, b)
  {
  }

  lemma LowEndShape(l: BtreeLayout, cmp: Comparator, t: Tree, h: nat, b: Key)
    requires LowEnd(l, cmp, t, h, b)
    ensures |t.ents| > 0 && (t.leaf ==> t.kids == []) && (t.leaf <==> h == 0)
  {
  }

  lemma LeafEndsLow(l: BtreeLayout, cmp: Comparator, t: Tree, key: Key, b: Key, dead: Slots)
    requires TotalPreorder(cmp) && LowEnd(l, cmp, t, 0, b) && Delete(l, cmp, t, key, 0, dead).Deleted?
    ensures EndsBelow(cmp, InOrder(Delete(l, cmp, t, key, 0, dead).tree), b)
  {
    hide LowerBound;
    var es, k := t.ents, LowerBound(cmp, t.ents, key);
    InOrderLeaf(t.(ents := DropAt(es, k)));
    DroppedEndsLow(cmp, es, key, b);
  }

  lemma DroppedEndsLow(cmp: Comparator, es: seq<Entry>, key: Key, b: Key)
    requires TotalPreorder(cmp) && |es| > 0 && cmp(es[|es| - 1].key, b) < 0 && FoundAt(cmp, es, key)
    ensures EndsBelow(cmp, DropAt(es, LowerBound(cmp, es, key)), b)
  {
    var k := LowerBound(cmp, es, key);
    hide LowerBound;
    if |es| > 1 && k == |es| - 1 {
      LessTransitive(cmp, es[k - 1].key, key, es[k].key);
      LessTransitive(cmp, es[k - 1].key, es[k].key, b);
    }
  }
}
