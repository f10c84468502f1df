/** btree_delete: the descent on the heap does what the value function of deletion says. */
module DeleteHeap {
  import opened Ordering
  import opened Layout
  import opened Trees
  import opened Contexts
  import opened NodeOps
  import opened TreeOrder
  import opened Rebalance
  import opened DeleteSpec
  import opened DeleteCorrect
  import opened DeleteTheorem
  import opened Deletion

  // ---------------------------------------------------------------- buffers of the right length everywhere

  lemma SizedKid(t: Tree, maxKeys: nat, i: nat)
    requires Sized(t, maxKeys) && i < |t.kids|
    ensures Buffers(t.ref, maxKeys) && Buffers(t.kids[i].ref, maxKeys) && Sized(t.kids[i], maxKeys)
  {
  }

  ghost predicate AllSized(ks: seq<Tree>, maxKeys: nat) {
    forall i :: 0 <= i < |ks| ==> Sized(ks[i], maxKeys)
  }

  lemma PairSized(t: Tree, k: nat, q: Tree, maxKeys: nat)
    requires Sized(t, maxKeys) && Inner(t) && k < |t.ents| && |q.kids| == |t.kids| && q.ref == t.ref
    requires q.kids[k].ref == t.kids[k].ref && q.kids[k + 1].ref == t.kids[k + 1].ref
    requires q.kids[..k] == t.kids[..k] && q.kids[k + 2..] == t.kids[k + 2..]
    requires AllSized(q.kids[k].kids, maxKeys) && AllSized(q.kids[k + 1].kids, maxKeys)
    ensures Sized(q, maxKeys)
  {
    assert Sized(t.kids[k], maxKeys) && Sized(t.kids[k + 1], maxKeys);
    forall i | 0 <= i < |q.kids|
      ensures Sized(q.kids[i], maxKeys)
    {
      if i < k {
        assert q.kids[i] == q.kids[..k][i] == t.kids[i];
      } else if i > k + 1 {
        assert q.kids[i] == q.kids[k + 2..][i - k - 2] == t.kids[i];
      }
    }
  }

  lemma StealLeftSized(t: Tree, k: nat, maxKeys: nat)
    requires Inner(t) && k < |t.ents| && |t.kids[k].ents| > 0 && Alike(t.kids[k], t.kids[k + 1]) && Sized(t, maxKeys)
    ensures Sized(StealLeft(t, k), maxKeys)
  {
    hide StealLeft;
    StealLeftParts(t, k);
    assert Sized(t.kids[k], maxKeys) && Sized(t.kids[k + 1], maxKeys);
    PairSized(t, k, StealLeft(t, k), maxKeys);
  }

  lemma StealRightSized(t: Tree, k: nat, maxKeys: nat)
    requires Inner(t) && k < |t.ents| && |t.kids[k + 1].ents| > 0 && Alike(t.kids[k], t.kids[k + 1]) && Sized(t, maxKeys)
    ensures Sized(StealRight(t, k), maxKeys)
  {
    hide StealRight;
    StealRightParts(t, k);
    assert Sized(t.kids[k], maxKeys) && Sized(t.kids[k + 1], maxKeys);
    PairSized(t, k, StealRight(t, k), maxKeys);
  }

  lemma MergeSized(t: Tree, k: nat, maxKeys: nat)
    requires Inner(t) && k < |t.ents| && t.kids[k].kids == [] && Sized(t, maxKeys)
    ensures Sized(MergeLeaves(t, k), maxKeys)
  {
    assert Sized(t.kids[k], maxKeys);
    var q := MergeLeaves(t, k);
    forall i | 0 <= i < |q.kids|
      ensures Sized(q.kids[i], maxKeys)
    {
      if i > k { assert q.kids[i] == t.kids[i + 1]; }
    }
  }

  lemma EnsureMinSized(l: BtreeLayout, t: Tree, h: nat, lo: nat, i: nat)
    requires Roomy(l, t, h, lo) && h > 0 && i < |t.kids| && EnsureMin(l, t, i).Deleted?
    requires Sized(t, l.maxKeys)
    ensures Sized(EnsureMin(l, t, i).tree, l.maxKeys)
  {
    hide StealLeft, StealRight, MergeLeaves, Roomy;
    RoomyInner(l, t, h, lo);
    match RemedyFor(l, t, i)
    case Nothing =>
    case FromLeft =>
      KidsAlike(l, t, h, lo, i - 1);
      StealLeftSized(t, i - 1, l.maxKeys);
    case FromRight =>
      KidsAlike(l, t, h, lo, i);
      StealRightSized(t, i, l.maxKeys);
    case MergeAt(k) =>
      KidsAlike(l, t, h, lo, k);
      MergeSized(t, k, l.maxKeys);
  }

  // ---------------------------------------------------------------- storage after deletion

  lemma RefillSep(w: Tree, j: nat, kid: Tree)
    requires j < |w.kids| && Sep(w) && Sep(kid) && Foot(kid) <= Foot(w.kids[j])
    ensures Sep(Refill(w, j, kid)) && Foot(Refill(w, j, kid)) <= Foot(w)
  {
    var ks := w.kids[j := kid];
    SepKidsAt(w.kids, j);
    KidsFootAt(w.kids, j);
    assert ks[..j] == w.kids[..j] && ks[j + 1..] == w.kids[j + 1..];
    hide Own;
    SepKidsAt(ks, j);
    KidsFootAt(ks, j);
  }

  lemma RefillSized(w: Tree, j: nat, kid: Tree, maxKeys: nat)
    requires j < |w.kids| && Sized(w, maxKeys) && Sized(kid, maxKeys)
    ensures Sized(Refill(w, j, kid), maxKeys)
  {
  }

  /** The storage of a node: apart, and of the right size everywhere. */
  ghost predicate Stored(l: BtreeLayout, t: Tree) {
    Sep(t) && Sized(t, l.maxKeys)
  }

  lemma RefillStored(l: BtreeLayout, w: Tree, j: nat, kid: Tree)
    requires j < |w.kids| && Stored(l, w) && Stored(l, kid) && Foot(kid) <= Foot(w.kids[j])
    ensures Stored(l, Refill(w, j, kid)) && Foot(Refill(w, j, kid)) <= Foot(w)
  {
    hide Sep, Foot, Sized;
    RefillSep(w, j, kid);
    RefillSized(w, j, kid, l.maxKeys);
  }

  lemma OverwriteStored(l: BtreeLayout, w: Tree, j: nat, e: Entry)
    requires Inner(w) && j < |w.kids| && Stored(l, w)
    ensures Stored(l, Overwrite(w, j, e, w.kids[j])) && Foot(Overwrite(w, j, e, w.kids[j])) == Foot(w)
    ensures Inner(Overwrite(w, j, e, w.kids[j])) && Overwrite(w, j, e, w.kids[j]).kids == w.kids
  {
    assert w.kids[j := w.kids[j]] == w.kids;
  }

  lemma StoredKid(l: BtreeLayout, w: Tree, j: nat)
    requires j < |w.kids| && Stored(l, w)
    ensures Stored(l, w.kids[j]) && Foot(w.kids[j]) <= KidsFoot(w.kids) && Buffers(w.kids[j].ref, l.maxKeys)
    ensures Buffers(w.ref, l.maxKeys) && Own(w.ref) !! KidsFoot(w.kids)
  {
    SepKidsAt(w.kids, j);
    KidsFootAt(w.kids, j);
    SizedKid(w, l.maxKeys, j);
  }

  lemma EnsureMinStored(l: BtreeLayout, t: Tree, h: nat, lo: nat, i: nat)
    requires Roomy(l, t, h, lo) && h > 0 && i < |t.kids| && EnsureMin(l, t, i).Deleted? && Stored(l, t)
    ensures Stored(l, EnsureMin(l, t, i).tree) && Foot(EnsureMin(l, t, i).tree) <= Foot(t)
  {
    hide Roomy, EnsureMin, Sep, Sized, Foot;
    EnsureMinSep(l, t, h, lo, i);
    EnsureMinSized(l, t, h, lo, i);
  }

  /** Deletion never makes two nodes share storage and never takes in storage from outside. */
  lemma {:induction false} DeleteStored(l: BtreeLayout, cmp: Comparator, t: Tree, key: Key, h: nat, lo: nat)
    requires Sought(l, cmp, t, key, h, lo) && Stored(l, t) && MergesNoInner(l, cmp, t, key, h)
    ensures Delete(l, cmp, t, key, h, NoSlots).Deleted?
    ensures Stored(l, Delete(l, cmp, t, key, h, NoSlots).tree) && Foot(Delete(l, cmp, t, key, h, NoSlots).tree) <= Foot(t)
    decreases h
  {
    hide Has, InOrder, LowerBound, Sorted, EnsureMin, RemedyFor, Foot, Stored, Delete;
    if h == 0 {
      LeafStep(l, cmp, t, key, lo, NoSlots);
      LeafStored(l, t, DropAt(t.ents, LowerBound(cmp, t.ents, key)));
    } else {
      NotLeaf(l, t, h, lo);
      var pos := LowerBound(cmp, t.ents, key);
      var u, j, next := InnerStep(l, cmp, t, key, h, lo, NoSlots);
      MergesNoInnerBelow(l, cmp, t, key, h, lo, u, j, next);
      EnsureMinStored(l, t, h, lo, pos);
      StoredKid(l, u, j);
      DeleteStored(l, cmp, u.kids[j], next, h - 1, l.minKeys);
      var below := Delete(l, cmp, u.kids[j], next, h - 1, NoSlots);
      var e := u.kids[j].ents[|u.kids[j].ents| - 1];
      var w := if FoundAt(cmp, t.ents, key) then Overwrite(u, j, e, u.kids[j]) else u;
      OverwriteStored(l, u, j, e);
      RefillStored(l, w, j, below.tree);
      assert Overwrite(u, j, e, below.tree) == Refill(Overwrite(u, j, e, u.kids[j]), j, below.tree);
    }
  }

  lemma LeafStored(l: BtreeLayout, t: Tree, es: seq<Entry>)
    requires Stored(l, t)
    ensures Stored(l, t.(ents := es)) && Foot(t.(ents := es)) == Foot(t)
  {
  }

  // ---------------------------------------------------------------- ensure_min_keys and remove_from_leaf

  /** Room in the visited child and, for a merge, in the left of the two leaves. */
  lemma RoomForRemedy(l: BtreeLayout, p: Tree, h: nat, lo: nat, i: nat, k: nat)
    requires Roomy(l, p, h, lo) && h > 0 && Sized(p, l.maxKeys) && i < |p.kids| && k < |p.ents|
    ensures |p.kids[i].ents| <= l.minKeys ==>
      var c := p.kids[i].ref; |p.kids[i].ents| < c.keys.Length && |p.kids[i].ents| < c.offsets.Length && |p.kids[i].ents| + 1 < c.children.Length
    ensures |p.kids[k].ents| <= l.minKeys && |p.kids[k + 1].ents| <= l.minKeys ==>
      var x := p.kids[k].ref; |p.kids[k].ents| + 1 + |p.kids[k + 1].ents| <= x.keys.Length && |p.kids[k].ents| + 1 + |p.kids[k + 1].ents| <= x.offsets.Length
  {
    assert Sized(p.kids[i], l.maxKeys) && Sized(p.kids[k], l.maxKeys);
  }

  lemma KidCount(p: Tree, i: nat)
    requires Body(p) && i < |p.kids|
    ensures i < p.ref.children.Length && p.ref.children[i] == p.kids[i].ref && p.kids[i].ref.keyCount == |p.kids[i].ents|
    ensures p.ref.keyCount == |p.ents|
  {
  }

  lemma FootParts(t: Tree)
    ensures Foot(t) == Own(t.ref) + KidsFoot(t.kids)
  {
  }

  lemma PairStorage(p: Tree, k: nat)
    requires Inner(p) && k < |p.ents|
    ensures Own(p.kids[k].ref) <= KidsFoot(p.kids) && KidsFoot(p.kids[k].kids) <= KidsFoot(p.kids)
    ensures Own(p.kids[k + 1].ref) <= KidsFoot(p.kids) && KidsFoot(p.kids[k + 1].kids) <= KidsFoot(p.kids)
  {
    KidInFoot(p.kids, k);
    KidInFoot(p.kids, k + 1);
  }

  lemma RefsInFoot(ks: seq<Tree>)
    requires SepKids(ks)
    ensures Refs(ks) <= KidsFoot(ks)
  {
    RefsOutside(ks);
  }

  /** Children `k` and `k + 1` after the left one has given its last pair to the right one, through the parent. */
  ghost predicate LeftGave(t: Tree, k: nat, u: Tree)
    requires Inner(t) && k < |t.ents|
  {
    var x, y := t.kids[k].ents, t.kids[k + 1].ents;
    && |x| > 0 && |u.kids| == |t.kids| && u.ents == t.ents[k := x[|x| - 1]]
    && u.kids[k].ents == x[..|x| - 1] && u.kids[k + 1].ents == [t.ents[k]] + y
    && u.kids[..k] == t.kids[..k] && u.kids[k + 2..] == t.kids[k + 2..]
  }

  ghost predicate RightGave(t: Tree, k: nat, u: Tree)
    requires Inner(t) && k < |t.ents|
  {
    var x, y := t.kids[k].ents, t.kids[k + 1].ents;
    && |y| > 0 && |u.kids| == |t.kids| && u.ents == t.ents[k := y[0]]
    && u.kids[k].ents == x + [t.ents[k]] && u.kids[k + 1].ents == y[1..]
    && u.kids[..k] == t.kids[..k] && u.kids[k + 2..] == t.kids[k + 2..]
  }

  ghost predicate Joined(t: Tree, k: nat, u: Tree)
    requires Inner(t) && k < |t.ents|
  {
    && |u.kids| == |t.kids| - 1 && u.ents == t.ents[..k] + t.ents[k + 1..]
    && u.kids[k].ents == t.kids[k].ents + [t.ents[k]] + t.kids[k + 1].ents
    && u.kids[..k] == t.kids[..k] && u.kids[k + 1..] == t.kids[k + 2..]
  }

  /**
   * ensure_min_keys by key counts alone: a child with a key to spare is left alone; else the left neighbour gives if it
   * can, else the right one if it can, else the child is joined with the left neighbour, or the first with the second.
   */
  ghost predicate ByCounts(minKeys: nat, t: Tree, i: nat, u: Tree)
    requires Inner(t) && i < |t.kids| && |t.ents| > 0
  {
    if |t.kids[i].ents| > minKeys then u == t
    else if i > 0 && |t.kids[i - 1].ents| > minKeys then LeftGave(t, i - 1, u)
    else if i + 1 < |t.kids| && |t.kids[i + 1].ents| > minKeys then RightGave(t, i, u)
    else Joined(t, if i > 0 then i - 1 else 0, u)
  }

  lemma {:induction false} EnsureMinByCounts(l: BtreeLayout, t: Tree, h: nat, lo: nat, i: nat)
    requires Roomy(l, t, h, lo) && h > 0 && i < |t.kids| && EnsureMin(l, t, i).Deleted?
    ensures Inner(t) && |t.ents| > 0 && ByCounts(l.minKeys, t, i, EnsureMin(l, t, i).tree)
  {
    hide Roomy, StealLeft, StealRight, MergeLeaves, LeftGave, RightGave, Joined;
    RoomyInner(l, t, h, lo);
    match RemedyFor(l, t, i)
    case Nothing =>
    case FromLeft =>
      KidsAlike(l, t, h, lo, i - 1);
      LeftGives(t, i - 1);
    case FromRight =>
      KidsAlike(l, t, h, lo, i);
      RightGives(t, i);
    case MergeAt(k) =>
      KidsAlike(l, t, h, lo, k);
      LeavesSuffice(l, t, h, lo, k);
      LeavesJoin(t, k);
  }

  /** Two inner nodes merge exactly when the child above inner nodes and its neighbours have no key to spare. */
  lemma {:induction false} InnerMergeByCounts(l: BtreeLayout, t: Tree, h: nat, lo: nat, i: nat)
    requires Roomy(l, t, h, lo) && h > 0 && Inner(t) && |t.ents| > 0 && i < |t.kids|
    ensures !EnsureMin(l, t, i).Deleted? <==>
      && h > 1 && |t.kids[i].ents| <= l.minKeys
      && (i > 0 ==> |t.kids[i - 1].ents| <= l.minKeys) && (i + 1 < |t.kids| ==> |t.kids[i + 1].ents| <= l.minKeys)
  {
    hide Roomy;
    if i > 0 { KidsAlike(l, t, h, lo, i - 1); }
    if i < |t.ents| { KidsAlike(l, t, h, lo, i); }
  }

  lemma LeftGives(t: Tree, k: nat)
    requires Inner(t) && k < |t.ents| && |t.kids[k].ents| > 0 && Alike(t.kids[k], t.kids[k + 1])
    ensures LeftGave(t, k, StealLeft(t, k))
  {
    hide StealLeft;
    StealLeftParts(t, k);
  }

  lemma RightGives(t: Tree, k: nat)
    requires Inner(t) && k < |t.ents| && |t.kids[k + 1].ents| > 0 && Alike(t.kids[k], t.kids[k + 1])
    ensures RightGave(t, k, StealRight(t, k))
  {
    hide StealRight;
    StealRightParts(t, k);
    assert DropAt(t.kids[k + 1].ents, 0) == t.kids[k + 1].ents[1..];
  }

  lemma LeavesJoin(t: Tree, k: nat)
    requires Inner(t) && k < |t.ents| && t.kids[k].kids == []
    ensures Joined(t, k, MergeLeaves(t, k))
  {
    hide MergeLeaves;
    MergeParts(t, k);
  }

  /** ensure_min_keys; which neighbour gives up a pair, if one does, is told by the key counts. */
  method EnsureMinKeys(cfg: Config, parent: BtreeNode, childIndex: nat, ghost p: Tree, ghost h: nat, ghost lo: nat)
    requires Roomy(cfg.layout, p, h, lo) && h > 0 && p.ref == parent && childIndex < |p.kids|
    requires Stored(cfg.layout, p) && Body(p) && EnsureMin(cfg.layout, p, childIndex).Deleted?
    modifies parent`keyCount, parent.keys, parent.offsets, parent.children, KidsFoot(p.kids)
    ensures Body(EnsureMin(cfg.layout, p, childIndex).tree)
    ensures Inner(p) && |p.ents| > 0 && ByCounts(cfg.layout.minKeys, p, childIndex, EnsureMin(cfg.layout, p, childIndex).tree)
  {
    hide Body, Roomy, StealLeft, StealRight, MergeLeaves, KidsFoot, Sized, Sep, Refs, Own, ByCounts;
    EnsureMinByCounts(cfg.layout, p, h, lo, childIndex);
    RoomyInner(cfg.layout, p, h, lo);
    KidCount(p, childIndex);
    if parent.children[childIndex].keyCount > cfg.layout.minKeys {
      return;
    }
    if childIndex > 0 {
      KidCount(p, childIndex - 1);
      if parent.children[childIndex - 1].keyCount > cfg.layout.minKeys {
        StealFromLeft(cfg, parent, childIndex, p, h, lo);
        return;
      }
    }
    if childIndex < parent.keyCount {
      KidCount(p, childIndex + 1);
      if parent.children[childIndex + 1].keyCount > cfg.layout.minKeys {
        StealFromRight(cfg, parent, childIndex, p, h, lo);
        return;
      }
    }
    var leftIndex := if childIndex > 0 then childIndex - 1 else childIndex;
    MergeAround(cfg, parent, leftIndex, p, h, lo);
  }

  method StealFromLeft(cfg: Config, parent: BtreeNode, childIndex: nat, ghost p: Tree, ghost h: nat, ghost lo: nat)
    requires Roomy(cfg.layout, p, h, lo) && h > 0 && p.ref == parent && 0 < childIndex < |p.kids| && Inner(p)
    requires Stored(cfg.layout, p) && Body(p)
    requires |p.kids[childIndex].ents| <= cfg.layout.minKeys
    modifies parent`keyCount, parent.keys, parent.offsets, parent.children, KidsFoot(p.kids)
    ensures |p.kids[childIndex - 1].ents| > 0 && Body(StealLeft(p, childIndex - 1))
  {
    hide Body, Roomy, StealLeft, KidsFoot, Sized;
    KidsAlike(cfg.layout, p, h, lo, childIndex - 1);
    RoomForRemedy(cfg.layout, p, h, lo, childIndex, childIndex - 1);
    KidCount(p, childIndex);
    KidCount(p, childIndex - 1);
    PairStorage(p, childIndex - 1);
    PairFacts(p, childIndex - 1);
    RefsInFoot(p.kids[childIndex - 1].kids);
    BtreeStealLeft(parent, childIndex - 1, parent.children[childIndex], parent.children[childIndex - 1], p);
  }

  method StealFromRight(cfg: Config, parent: BtreeNode, childIndex: nat, ghost p: Tree, ghost h: nat, ghost lo: nat)
    requires Roomy(cfg.layout, p, h, lo) && h > 0 && p.ref == parent && childIndex < |p.ents| && Inner(p)
    requires Stored(cfg.layout, p) && Body(p)
    requires |p.kids[childIndex].ents| <= cfg.layout.minKeys
    modifies parent`keyCount, parent.keys, parent.offsets, parent.children, KidsFoot(p.kids)
    ensures |p.kids[childIndex + 1].ents| > 0 && Body(StealRight(p, childIndex))
  {
    hide Body, Roomy, StealRight, KidsFoot, Sized;
    KidsAlike(cfg.layout, p, h, lo, childIndex);
    RoomForRemedy(cfg.layout, p, h, lo, childIndex, childIndex);
    KidCount(p, childIndex);
    KidCount(p, childIndex + 1);
    PairStorage(p, childIndex);
    PairFacts(p, childIndex);
    RefsInFoot(p.kids[childIndex + 1].kids);
    BtreeStealRight(parent, childIndex, parent.children[childIndex], parent.children[childIndex + 1], p);
  }

  method MergeAround(cfg: Config, parent: BtreeNode, leftIndex: nat, ghost p: Tree, ghost h: nat, ghost lo: nat)
    requires Roomy(cfg.layout, p, h, lo) && h > 0 && p.ref == parent && leftIndex < |p.ents| && Inner(p)
    requires Stored(cfg.layout, p) && Body(p) && p.kids[leftIndex].leaf
    requires |p.kids[leftIndex].ents| <= cfg.layout.minKeys && |p.kids[leftIndex + 1].ents| <= cfg.layout.minKeys
    modifies parent`keyCount, parent.keys, parent.offsets, parent.children, KidsFoot(p.kids)
    ensures Body(MergeLeaves(p, leftIndex))
  {
    hide Body, Roomy, MergeLeaves, KidsFoot, Sized;
    KidsAlike(cfg.layout, p, h, lo, leftIndex);
    RoomForRemedy(cfg.layout, p, h, lo, leftIndex, leftIndex);
    PairStorage(p, leftIndex);
    PairFacts(p, leftIndex);
    RefsInFoot(p.kids[leftIndex + 1].kids);
    BtreeMerge(parent, leftIndex, p);
  }

  /** remove_from_leaf. */
  method RemoveFromLeaf(node: BtreeNode, pos: nat, ghost t: Tree)
    requires t.ref == node && t.leaf && t.kids == [] && pos < |t.ents| && Body(t)
    modifies node`keyCount, node.keys, node.offsets
    ensures Body(t.(ents := DropAt(t.ents, pos)))
  {
    if node.isLeaf {
      DropPair(node, pos, t.ents);
    }
  }

  // ---------------------------------------------------------------- the descent

  /** A node ready for delete_recursive: it holds the key, and no two inner nodes merge on the way down. */
  ghost predicate Ready(cfg: Config, t: Tree, key: Key, h: nat, lo: nat) {
    && Sought(cfg.layout, cfg.compare, t, key, h, lo) && Stored(cfg.layout, t)
    && MergesNoInner(cfg.layout, cfg.compare, t, key, h)
  }

  ghost function AfterDelete(cfg: Config, t: Tree, key: Key, h: nat): Tree {
    var d := Delete(cfg.layout, cfg.compare, t, key, h, NoSlots);
    if d.Deleted? then d.tree else t
  }

  /** The node as it is when the descent goes on: rebalanced, and its separator overwritten if the key was there. */
  ghost function Prepared(cfg: Config, t: Tree, key: Key, u: Tree, j: nat): Tree
    requires Inner(u) && j < |u.kids| && |u.kids[j].ents| > 0
  {
    if FoundAt(cfg.compare, t.ents, key) then Overwrite(u, j, u.kids[j].ents[|u.kids[j].ents| - 1], u.kids[j]) else u
  }

  /** What one level of the descent needs, gathered. */
  lemma LevelFacts(cfg: Config, t: Tree, key: Key, h: nat, lo: nat) returns (u: Tree, j: nat, next: Key)
    requires Ready(cfg, t, key, h, lo) && !t.leaf
    ensures h > 0 && Inner(t) && |t.ents| > 0
    ensures var pos := LowerBound(cfg.compare, t.ents, key);
      EnsureMin(cfg.layout, t, pos).Deleted? && u == EnsureMin(cfg.layout, t, pos).tree
    ensures Inner(u) && j < |u.kids| && |u.kids[j].ents| > 0 && u.ref == t.ref && j == LowerBound(cfg.compare, u.ents, key)
    ensures FoundAt(cfg.compare, t.ents, key) ==> j < |t.ents|
    ensures next == if FoundAt(cfg.compare, t.ents, key) then u.kids[j].ents[|u.kids[j].ents| - 1].key else key
    ensures Stored(cfg.layout, u) && Foot(u) <= Foot(t) && Ready(cfg, u.kids[j], next, h - 1, cfg.layout.minKeys)
    ensures AfterDelete(cfg, t, key, h) == Refill(Prepared(cfg, t, key, u, j), j, AfterDelete(cfg, u.kids[j], next, h - 1))
    ensures |t.ents| <= cfg.layout.maxKeys && |u.ents| <= |t.ents|
    ensures Roomy(cfg.layout, t, h, lo) && Stored(cfg.layout, t)
  {
    hide Has, InOrder, LowerBound, Sorted, EnsureMin, RemedyFor, Foot, Stored, Roomy, Shaped, Delete;
    var l, cmp := cfg.layout, cfg.compare;
    AtLeaf(l, t, h, lo);
    NotLeaf(l, t, h, lo);
    var pos := LowerBound(cmp, t.ents, key);
    u, j, next := InnerStep(l, cmp, t, key, h, lo, NoSlots);
    MergesNoInnerBelow(l, cmp, t, key, h, lo, u, j, next);
    SecondPosition(l, cmp, t, h, lo, key);
    EnsureMinStored(l, t, h, lo, pos);
    StoredKid(l, u, j);
    VisitBounds(l, t, h, lo, pos);
    DeleteKeepsShape(l, cmp, t, key, h, lo, NoSlots);
    DeleteKeepsShape(l, cmp, u.kids[j], next, h - 1, l.minKeys, NoSlots);
  }

  lemma AtLeaf(l: BtreeLayout, t: Tree, h: nat, lo: nat)
    requires Roomy(l, t, h, lo)
    ensures t.leaf <==> h == 0
  {
  }

  lemma VisitBounds(l: BtreeLayout, t: Tree, h: nat, lo: nat, i: nat)
    requires Roomy(l, t, h, lo) && h > 0 && Inner(t) && i < |t.kids| && EnsureMin(l, t, i).Deleted?
    ensures VisitAt(l, t, i) <= i && |EnsureMin(l, t, i).tree.ents| <= |t.ents| <= l.maxKeys
  {
    RoomyInner(l, t, h, lo);
  }

  lemma OpenKid(w: Tree, j: nat)
    requires j < |w.kids| && Sep(w) && Body(w)
    ensures Local(w) && KidsRep(w.kids[..j], w.ref) && KidsRep(w.kids[j + 1..], w.ref) && Rep(w.kids[j], w.ref)
    ensures Foot(w.kids[j]) !! Own(w.ref) && Foot(w.kids[j]) !! KidsFoot(w.kids[..j]) && Foot(w.kids[j]) !! KidsFoot(w.kids[j + 1..])
    ensures Foot(w.kids[j]) <= KidsFoot(w.kids)
    ensures Foot(w.kids[j]) == Own(w.kids[j].ref) + KidsFoot(w.kids[j].kids)
  {
    BodyKids(w);
    KidsRepAt(w.kids, j, w.ref);
    SepKidsAt(w.kids, j);
    KidsFootAt(w.kids, j);
  }

  lemma AfterDeleteRef(cfg: Config, t: Tree, key: Key, h: nat, lo: nat)
    requires Ready(cfg, t, key, h, lo)
    ensures AfterDelete(cfg, t, key, h).ref == t.ref
    ensures Stored(cfg.layout, AfterDelete(cfg, t, key, h)) && Foot(AfterDelete(cfg, t, key, h)) <= Foot(t)
  {
    hide Stored, Sought, Delete, Foot;
    DeleteKeepsShape(cfg.layout, cfg.compare, t, key, h, lo, NoSlots);
    DeleteStored(cfg.layout, cfg.compare, t, key, h, lo);
  }

  /** The descent into one child, the rest of the node standing still. */
  method DeleteBelow(cfg: Config, child: BtreeNode, key: Key, ghost w: Tree, ghost j: nat, ghost h: nat)
    requires j < |w.kids| && w.kids[j].ref == child && Stored(cfg.layout, w) && Body(w)
    requires Ready(cfg, w.kids[j], key, h, cfg.layout.minKeys)
    modifies KidsFoot(w.kids)
    ensures Body(Refill(w, j, AfterDelete(cfg, w.kids[j], key, h)))
    decreases h, 1
  {
    hide Body, KidsFoot, Foot, Sep, Sized, KidsRep, Ready, AfterDelete;
    OpenKid(w, j);
    ReadyStored(cfg, w.kids[j], key, h, cfg.layout.minKeys);
    StoredTop(cfg.layout, w.kids[j]);
    AfterDeleteRef(cfg, w.kids[j], key, h, cfg.layout.minKeys);
    assert allocated(KidsFoot(w.kids[..j])) && allocated(KidsFoot(w.kids[j + 1..]));
    DeleteRecursive(cfg, child, key, w.kids[j], h, cfg.layout.minKeys);
    RefillRep(w, j, AfterDelete(cfg, w.kids[j], key, h));
  }

  lemma OverwriteBody(u: Tree, j: nat, e: Entry)
    requires Inner(u) && j < |u.kids| && KidsRep(u.kids, u.ref) && u.ref.isLeaf == u.leaf && u.ref.keyCount == |u.ents|
    requires HoldsKids(u.ref.children, u.kids)
    requires HoldsEntries(u.ref.keys, u.ref.offsets, if j < |u.ents| then u.ents[j := e] else u.ents)
    ensures Body(Overwrite(u, j, e, u.kids[j]))
  {
    var w := Overwrite(u, j, e, u.kids[j]);
    assert w.kids == u.kids;
    BodyKids(w);
  }

  lemma BodyFields(t: Tree)
    requires Body(t)
    ensures Local(t) && KidsRep(t.kids, t.ref)
  {
    BodyKids(t);
  }

  lemma LastPair(w: Tree, j: nat)
    requires Body(w) && j < |w.kids| && |w.kids[j].ents| > 0
    ensures j < w.ref.children.Length && w.ref.children[j] == w.kids[j].ref
    ensures var c, n := w.kids[j].ref, |w.kids[j].ents| - 1;
      && c.keyCount == n + 1 && n < c.keys.Length && n < c.offsets.Length
      && c.keys[n] == w.kids[j].ents[n].key && c.offsets[n] == w.kids[j].ents[n].offset
  {
  }

  /** The found separator is overwritten by the last pair of the child left of it; past the end, only a dead slot is. */
  method OverwriteSeparator(node: BtreeNode, pos: nat, key: Key, offset: FileOffset, ghost u: Tree)
    requires Inner(u) && u.ref == node && pos < |u.kids| && pos < node.keys.Length && pos < node.offsets.Length
    requires Body(u) && Own(node) !! KidsFoot(u.kids)
    modifies node.keys, node.offsets
    ensures Body(Overwrite(u, pos, Entry(key, offset), u.kids[pos]))
  {
    hide Body, KidsFoot, KidsRep, HoldsKids;
    BodyFields(u);
    assert allocated(KidsFoot(u.kids));
    node.keys[pos] := key;
    node.offsets[pos] := offset;
    OverwriteBody(u, pos, Entry(key, offset));
  }

  /** What is left to do after one level: delete `next` below child `j` of the node `w`. */
  ghost predicate Remainder(cfg: Config, t: Tree, key: Key, h: nat, w: Tree, j: nat, next: Key) {
    && j < |w.kids| && h > 0 && Stored(cfg.layout, w) && KidsFoot(w.kids) <= KidsFoot(t.kids)
    && Ready(cfg, w.kids[j], next, h - 1, cfg.layout.minKeys)
    && AfterDelete(cfg, t, key, h) == Refill(w, j, AfterDelete(cfg, w.kids[j], next, h - 1))
  }

  lemma RemainingAfter(cfg: Config, t: Tree, key: Key, h: nat, lo: nat) returns (u: Tree, j: nat, next: Key, w: Tree)
    requires Ready(cfg, t, key, h, lo) && !t.leaf
    ensures h > 0 && Roomy(cfg.layout, t, h, lo) && Stored(cfg.layout, t) && Inner(t) && |t.ents| > 0
    ensures LowerBound(cfg.compare, t.ents, key) < |t.kids| && |t.ents| <= cfg.layout.maxKeys
    ensures var d := EnsureMin(cfg.layout, t, LowerBound(cfg.compare, t.ents, key)); d.Deleted? && d.tree == u
    ensures Inner(u) && u.ref == t.ref && j < |u.kids| && |u.kids[j].ents| > 0 && j == LowerBound(cfg.compare, u.ents, key)
    ensures FoundAt(cfg.compare, t.ents, key) ==> j < |t.ents|
    ensures w == Prepared(cfg, t, key, u, j) && Remainder(cfg, t, key, h, w, j, next)
    ensures next == if FoundAt(cfg.compare, t.ents, key) then u.kids[j].ents[|u.kids[j].ents| - 1].key else key
    ensures w.kids == u.kids && Own(t.ref) !! KidsFoot(u.kids) && Buffers(t.ref, cfg.layout.maxKeys)
  {
    hide Stored, Sought, Roomy, Ready, LowerBound, EnsureMin, Refill, Overwrite, AfterDelete, Delete, Own, KidsFoot, Foot;
    u, j, next := LevelFacts(cfg, t, key, h, lo);
    OverwriteStored(cfg.layout, u, j, u.kids[j].ents[|u.kids[j].ents| - 1]);
    KidsWithin(cfg.layout, t, u);
    w := Prepared(cfg, t, key, u, j);
  }

  /** One level above the leaves: rebalance, look again, and overwrite the separator if the key was there. */
  method PrepareNode(cfg: Config, node: BtreeNode, key: Key, pos: nat, found: bool, ghost t: Tree, ghost h: nat, ghost lo: nat)
    returns (child: BtreeNode, next: Key, ghost w: Tree, ghost j: nat)
    requires Ready(cfg, t, key, h, lo) && !t.leaf && t.ref == node && Body(t)
    requires pos == LowerBound(cfg.compare, t.ents, key) && (found <==> FoundAt(cfg.compare, t.ents, key))
    modifies node`keyCount, node.keys, node.offsets, node.children, KidsFoot(t.kids)
    ensures Body(w) && Remainder(cfg, t, key, h, w, j, next) && child == w.kids[j].ref
  {
    hide Body, KidsFoot, Foot, Stored, Remainder, Ready, Roomy, LowerBound, EnsureMin, Overwrite, KidsRep, FoundAt;
    ghost var u, n;
    u, j, n, w := RemainingAfter(cfg, t, key, h, lo);
    EnsureMinKeys(cfg, node, pos, t, h, lo);
    BodyFields(u);
    assert allocated(KidsFoot(u.kids));
    var pos2, _ := NodeKeyPosition(cfg.compare, node, key, u.ents);
    LastPair(u, pos2);
    child := node.children[pos2];
    next := key;
    if found {
      next := child.keys[child.keyCount - 1];
      OverwriteSeparator(node, pos2, next, child.offsets[child.keyCount - 1], u);
    }
  }

  lemma RemainingFacts(cfg: Config, t: Tree, key: Key, h: nat, w: Tree, j: nat, next: Key)
    requires Remainder(cfg, t, key, h, w, j, next)
    ensures j < |w.kids| && h > 0 && Stored(cfg.layout, w) && KidsFoot(w.kids) <= KidsFoot(t.kids)
    ensures Ready(cfg, w.kids[j], next, h - 1, cfg.layout.minKeys)
    ensures AfterDelete(cfg, t, key, h) == Refill(w, j, AfterDelete(cfg, w.kids[j], next, h - 1))
  {
    hide Stored, KidsFoot, Ready, AfterDelete, Refill;
  }

  method DeleteRecursive(cfg: Config, node: BtreeNode, key: Key, ghost t: Tree, ghost h: nat, ghost lo: nat)
    requires Ready(cfg, t, key, h, lo) && t.ref == node && Body(t)
    modifies node`keyCount, node.keys, node.offsets, node.children, KidsFoot(t.kids)
    ensures Body(AfterDelete(cfg, t, key, h))
    decreases h, 0
  {
    hide Body, KidsFoot, Stored, Ready, Remainder, LowerBound, FoundAt, Refill, AfterDelete;
    BodyFields(t);
    assert allocated(KidsFoot(t.kids));
    var pos, found := NodeKeyPosition(cfg.compare, node, key, t.ents);
    if found && node.isLeaf {
      LeafCase(cfg, t, key, h, lo);
      RemoveFromLeaf(node, pos, t);
      return;
    }
    NotALeaf(cfg, t, key, h, lo);
    var child, next, w, j := PrepareNode(cfg, node, key, pos, found, t, h, lo);
    RemainingFacts(cfg, t, key, h, w, j, next);
    DeleteBelow(cfg, child, next, w, j, h - 1);
  }

  lemma StoredTop(l: BtreeLayout, t: Tree)
    requires Stored(l, t)
    ensures Own(t.ref) !! KidsFoot(t.kids) && Foot(t) == Own(t.ref) + KidsFoot(t.kids) && Buffers(t.ref, l.maxKeys)
  {
  }

  lemma ReadyStored(cfg: Config, t: Tree, key: Key, h: nat, lo: nat)
    requires Ready(cfg, t, key, h, lo)
    ensures Stored(cfg.layout, t)
  {
  }

  /** The children that rebalancing leaves are among the old ones' storage. */
  lemma KidsWithin(l: BtreeLayout, t: Tree, u: Tree)
    requires Stored(l, t) && Stored(l, u) && u.ref == t.ref && Foot(u) <= Foot(t)
    ensures KidsFoot(u.kids) <= KidsFoot(t.kids) && Own(t.ref) !! KidsFoot(u.kids) && Buffers(t.ref, l.maxKeys)
  {
    hide Stored, Own, KidsFoot, Foot;
    StoredTop(l, t);
    StoredTop(l, u);
  }

  lemma LeafCase(cfg: Config, t: Tree, key: Key, h: nat, lo: nat)
    requires Ready(cfg, t, key, h, lo) && t.leaf && FoundAt(cfg.compare, t.ents, key)
    ensures t.kids == [] && LowerBound(cfg.compare, t.ents, key) < |t.ents|
    ensures AfterDelete(cfg, t, key, h) == t.(ents := DropAt(t.ents, LowerBound(cfg.compare, t.ents, key)))
  {
  }

  lemma NotALeaf(cfg: Config, t: Tree, key: Key, h: nat, lo: nat)
    requires Ready(cfg, t, key, h, lo) && !(t.leaf && FoundAt(cfg.compare, t.ents, key))
    ensures !t.leaf
  {
  }
}
