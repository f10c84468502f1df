/** btree_insert_do: the whole insertion. */
module Insertion {
  import opened Ordering
  import opened Layout
  import opened Trees
  import opened Contexts
  import opened NodeOps
  import opened TreeOrder
  import opened Splitting
  import opened BtreeInsert
  import opened Climbing

  ghost function RootTree(root: BtreeNode, left: Tree, mid: Entry, sibling: Tree): Tree {
    Tree(root, false, [mid], [left, sibling])
  }

  lemma PendingAtTop(cfg: Config, goal: seq<Entry>, left: Tree, mid: Entry, sibling: Tree, h: nat)
    requires Climb(cfg, goal, Top, left, mid, sibling, h) && PendingRep(Top, left, sibling)
    ensures SepKids([left, sibling]) && KidsBody([left, sibling])
    ensures KidsFoot([left, sibling]) == Used(Top, left, sibling) && Refs([left, sibling]) <= Used(Top, left, sibling)
    ensures 1 <= cfg.layout.maxKeys
  {
    hide Body, Sep, Foot, PendingRun, Sorted;
    PairFoot(left, sibling);
    RefsOutside([left, sibling]);
    KidsRepBody([left, sibling], null);
  }

  lemma RootRun(left: Tree, mid: Entry, sibling: Tree, root: BtreeNode)
    ensures InOrder(RootTree(root, left, mid, sibling)) == InOrder(left) + [mid] + InOrder(sibling)
  {
    var t := RootTree(root, left, mid, sibling);
    InOrderAround(t, 0);
    assert t.kids[..0] == [] && t.kids[2..] == [] && t.ents[..0] == [] && t.ents[1..] == [];
  }

  lemma RootZipped(cfg: Config, goal: seq<Entry>, left: Tree, mid: Entry, sibling: Tree, h: nat, root: BtreeNode)
    requires Climb(cfg, goal, Top, left, mid, sibling, h)
    requires Buffers(root, cfg.layout.maxKeys) && Own(root) !! Used(Top, left, sibling)
    ensures Zipped(Top, RootTree(root, left, mid, sibling), h + 1, cfg.layout.minKeys, cfg.layout.maxKeys)
    ensures Foot(RootTree(root, left, mid, sibling)) == Own(root) + Used(Top, left, sibling)
  {
    hide PendingRun, Sorted, TotalPreorder;
    PairFoot(left, sibling);
  }

  lemma RootDone(cfg: Config, goal: seq<Entry>, left: Tree, mid: Entry, sibling: Tree, h: nat, root: BtreeNode)
    requires Climb(cfg, goal, Top, left, mid, sibling, h)
    requires Buffers(root, cfg.layout.maxKeys) && Own(root) !! Used(Top, left, sibling)
    requires Rep(RootTree(root, left, mid, sibling), null)
    ensures ValidTree(cfg, RootTree(root, left, mid, sibling), h + 1)
    ensures InOrder(RootTree(root, left, mid, sibling)) == goal
  {
    hide Zipped, Rep, Pending, Sorted, TotalPreorder, Usable, InOrder, Used;
    RootZipped(cfg, goal, left, mid, sibling, h, root);
    RootRun(left, mid, sibling, root);
    NothingAround(InOrder(left) + [mid] + InOrder(sibling));
  }

  lemma NothingAround(s: seq<Entry>)
    ensures [] + s + [] == s
  {
  }

  /** The pending pair goes under a new root, or into the parent; or the parent is full and nothing changes. */
  method Place(cfg: Config, root: BtreeNode, node: BtreeNode, right: BtreeNode, tmpKeys: array<Key>, tmpOffsets: array<FileOffset>,
               ghost goal: seq<Entry>, ghost c: Ctx, ghost left: Tree, ghost mid: Entry, ghost sibling: Tree, ghost h: nat)
    returns (done: bool, newRoot: BtreeNode, ghost model: Tree, ghost top: nat, ghost extra: set<object>)
    requires Climb(cfg, goal, c, left, mid, sibling, h) && PendingRep(c, left, sibling)
    requires left.ref == node && sibling.ref == right && RootRef(c, node) == root
    requires HoldsMiddle(cfg, tmpKeys, tmpOffsets, mid)
    modifies Used(c, left, sibling)
    ensures done ==>
      ValidTree(cfg, model, top) && InOrder(model) == goal && model.ref == newRoot
    ensures done ==> Foot(model) <= Used(c, left, sibling) + extra
    ensures !done ==> c.Frame? && |c.node.ents| == cfg.layout.maxKeys && PendingRep(c, left, sibling)
    ensures fresh(extra)
  {
    hide Climb, PendingRep, HoldsMiddle, Used, Foot, InOrder, ValidTree;
    model, top, newRoot, extra := left, h, root, {};
    if node.parent == null {
      newRoot := PlaceAtTop(cfg, node, right, tmpKeys, tmpOffsets, goal, c, left, mid, sibling, h);
      model, top, done, extra := RootTree(newRoot, left, mid, sibling), h + 1, true, Own(newRoot);
    } else {
      done, model, top := PlaceInParent(cfg, node, right, tmpKeys, tmpOffsets, goal, c, left, mid, sibling, h);
    }
  }

  method PlaceAtTop(cfg: Config, node: BtreeNode, right: BtreeNode, tmpKeys: array<Key>, tmpOffsets: array<FileOffset>,
                    ghost goal: seq<Entry>, ghost c: Ctx, ghost left: Tree, ghost mid: Entry, ghost sibling: Tree, ghost h: nat)
    returns (newRoot: BtreeNode)
    requires Climb(cfg, goal, c, left, mid, sibling, h) && PendingRep(c, left, sibling)
    requires left.ref == node && sibling.ref == right && node.parent == null
    requires HoldsMiddle(cfg, tmpKeys, tmpOffsets, mid)
    modifies Used(c, left, sibling)
    ensures ValidTree(cfg, RootTree(newRoot, left, mid, sibling), h + 1)
    ensures InOrder(RootTree(newRoot, left, mid, sibling)) == goal
    ensures fresh(Own(newRoot)) && Foot(RootTree(newRoot, left, mid, sibling)) == Own(newRoot) + Used(c, left, sibling)
  {
    hide Climb, Rep, Body, Foot, KidsFoot, SepKids, KidsBody, Refs, InOrder, ValidTree, RepCtx, Own, CtxFoot;
    assert c.Top? by { TopIfNoParent(c, left, sibling); }
    PendingAtTop(cfg, goal, left, mid, sibling, h);
    assert allocated(Used(c, left, sibling));
    newRoot := CreateRoot(cfg, node, right, tmpKeys[cfg.layout.mid], tmpOffsets[cfg.layout.mid], [left, sibling]);
    RootZipped(cfg, goal, left, mid, sibling, h, newRoot);
    RootDone(cfg, goal, left, mid, sibling, h, newRoot);
  }

  lemma TopIfNoParent(c: Ctx, left: Tree, sibling: Tree)
    requires PendingRep(c, left, sibling) && left.ref.parent == null
    ensures c.Top?
  {
    hide Body, RepCtx;
  }

  method PlaceInParent(cfg: Config, node: BtreeNode, right: BtreeNode, tmpKeys: array<Key>, tmpOffsets: array<FileOffset>,
                       ghost goal: seq<Entry>, ghost c: Ctx, ghost left: Tree, ghost mid: Entry, ghost sibling: Tree, ghost h: nat)
    returns (ok: bool, ghost model: Tree, ghost top: nat)
    requires Climb(cfg, goal, c, left, mid, sibling, h) && PendingRep(c, left, sibling)
    requires left.ref == node && sibling.ref == right && node.parent != null
    requires HoldsMiddle(cfg, tmpKeys, tmpOffsets, mid)
    modifies Used(c, left, sibling)
    ensures ok ==>
      && ValidTree(cfg, model, top) && InOrder(model) == goal && model.ref == RootRef(c, node)
      && Foot(model) == Used(c, left, sibling)
    ensures !ok ==> c.Frame? && |c.node.ents| == cfg.layout.maxKeys && PendingRep(c, left, sibling)
  {
    hide Climb, PendingRep, ParentRep, ParentApart, AtSlot, Grown, KidsFoot, InOrder, ValidTree, RepCtx, CtxFoot, Used;
    FrameIfParent(c, left, sibling);
    Round(cfg, goal, c, left, mid, sibling, h);
    ghost var v := Parent(c, left, mid, sibling);
    ok := AttachPending(cfg, node.parent, right, tmpKeys[cfg.layout.mid], tmpOffsets[cfg.layout.mid],
                        c.up, Filled(c, left), c.hole, sibling, v);
    model, top := left, h;
    if ok {
      ClimbFits(cfg, goal, c, left, mid, sibling, h);
      top := FinishAttached(cfg, goal, c, left, mid, sibling, h);
      model := Plug(c.up, v);
    } else {
      ClimbFits(cfg, goal, c, left, mid, sibling, h);
      UnclimbRep(c, left, mid, sibling);
    }
  }

  lemma FrameIfParent(c: Ctx, left: Tree, sibling: Tree)
    requires PendingRep(c, left, sibling) && left.ref.parent != null
    ensures c.Frame? && left.ref.parent == c.node.ref == sibling.ref.parent
  {
    hide Body, RepCtx;
  }

  /** The first split, of the leaf. */
  lemma ClimbFromLeaf(cfg: Config, model: Tree, height: nat, c: Ctx, t: Tree, e: Entry, right: BtreeNode)
    requires ValidTree(cfg, model, height) && !Has(cfg.compare, InOrder(model), e.key)
    requires Descending(cfg, model, e.key, c, t, 0) && |t.ents| == cfg.layout.maxKeys
    requires Buffers(right, cfg.layout.maxKeys) && Own(right) !! CtxFoot(c) + Foot(t)
    ensures var l, v := cfg.layout, Overfull(cfg, t, e);
      && |v.ents| == cfg.layout.maxKeys + 1 && t.leaf && t.kids == []
      && Climb(cfg, InsertSorted(cfg.compare, InOrder(model), e), c, LeftHalf(l, v), v.ents[l.leftCount], RightHalf(l, v, right), 0)
      && Used(c, LeftHalf(l, v), RightHalf(l, v, right)) == CtxFoot(c) + Foot(t) + Own(right)
  {
    hide Descending, ValidTree, Has, Own, Foot, LeftHalf, RightHalf, InsertSorted, LowerBound, Pending, Holed, InOrder, Sorted, RepCtx, Rep;
    DescendLeaf(cfg, model, height, e, c, t);
    LeafHalves(cfg, c, t, e, right);
  }

  /** Where the descent ends, the whole run with the new entry is the leaf's with the new entry, in its surroundings. */
  lemma DescendLeaf(cfg: Config, model: Tree, height: nat, e: Entry, c: Ctx, t: Tree)
    requires ValidTree(cfg, model, height) && !Has(cfg.compare, InOrder(model), e.key)
    requires Descending(cfg, model, e.key, c, t, 0)
    ensures TotalPreorder(cfg.compare) && Usable(cfg.layout)
    ensures t.leaf && t.kids == [] && |t.ents| <= cfg.layout.maxKeys && Buffers(t.ref, cfg.layout.maxKeys)
    ensures Holed(cfg.layout, c, t, 0) && RepCtx(c) && Rep(t, ParentRef(c)) && Own(t.ref) !! CtxFoot(c)
    ensures Sorted(cfg.compare, InsertSorted(cfg.compare, InOrder(model), e))
    ensures CtxBefore(c) + InsertSorted(cfg.compare, t.ents, e) + CtxAfter(c) == InsertSorted(cfg.compare, InOrder(model), e)
    ensures CtxFoot(c) + Foot(t) == Foot(model) && Least(c, 0, cfg.layout.minKeys) <= |t.ents|
    ensures RootRef(c, t.ref) == model.ref
  {
    PlugRoot(c, t);
    var cmp := cfg.compare;
    InsertKeepsSorted(cmp, InOrder(model), e);
    PlugInOrder(c, t);
    BracketedInsert(cmp, CtxBefore(c), InOrder(t), CtxAfter(c), e);
    var _ := PlugZipped(c, t, 0, cfg.layout.minKeys, cfg.layout.maxKeys);
  }

  ghost predicate Temporary(cfg: Config, tmpKeys: array<Key>, tmpOffsets: array<FileOffset>, used: set<object>) {
    && tmpKeys.Length == cfg.layout.maxKeys + 1 && tmpOffsets.Length == cfg.layout.maxKeys + 1
    && tmpKeys !in used && tmpOffsets !in used
  }

  /** One round of the climbing loop: the full parent splits and hands up its own middle. */
  method ClimbRound(cfg: Config, child: BtreeNode, incoming: BtreeNode, tmpKeys: array<Key>, tmpOffsets: array<FileOffset>,
                    ghost goal: seq<Entry>, ghost c: Ctx, ghost left: Tree, ghost mid: Entry, ghost sibling: Tree, ghost h: nat)
    returns (node: BtreeNode, right: BtreeNode, ghost left2: Tree, ghost mid2: Entry, ghost sibling2: Tree)
    requires Climb(cfg, goal, c, left, mid, sibling, h) && PendingRep(c, left, sibling)
    requires left.ref == child && sibling.ref == incoming && c.Frame? && |c.node.ents| == cfg.layout.maxKeys
    requires HoldsMiddle(cfg, tmpKeys, tmpOffsets, mid) && Temporary(cfg, tmpKeys, tmpOffsets, Used(c, left, sibling))
    modifies Used(c, left, sibling), tmpKeys, tmpOffsets
    ensures Climb(cfg, goal, c.up, left2, mid2, sibling2, h + 1) && PendingRep(c.up, left2, sibling2)
    ensures left2.ref == node == c.node.ref && sibling2.ref == right && fresh(Own(right))
    ensures HoldsMiddle(cfg, tmpKeys, tmpOffsets, mid2)
    ensures Used(c.up, left2, sibling2) == Used(c, left, sibling) + Own(right)
  {
    hide Climb, PendingRep, ParentRep, ParentApart, AtSlot, Grown, KidsFoot, CtxFoot, Used, LeftHalf, RightHalf, Usable;
    Round(cfg, goal, c, left, mid, sibling, h);
    ClimbUsable(cfg, goal, c, left, mid, sibling, h);
    ghost var l, v := cfg.layout, Parent(c, left, mid, sibling);
    node := child.parent;
    var keyCopy := tmpKeys[cfg.layout.mid];
    assert allocated(Used(c, left, sibling)) && allocated(CtxFoot(c.up)) && allocated(KidsFoot(v.kids));
    right := new BtreeNode(cfg.layout.maxKeys);
    HalfRefs(l, v, right);
    ClimbUp(cfg, goal, c, left, mid, sibling, h, right);
    left2, mid2, sibling2 := LeftHalf(l, v), v.ents[l.leftCount], RightHalf(l, v, right);
    SplitInner(cfg, node, right, incoming, keyCopy, tmpOffsets[cfg.layout.mid], tmpKeys, tmpOffsets, c.up, Filled(c, left), c.hole, sibling, v);
  }

  lemma ClimbUsable(cfg: Config, goal: seq<Entry>, c: Ctx, left: Tree, mid: Entry, sibling: Tree, h: nat)
    requires Climb(cfg, goal, c, left, mid, sibling, h) && c.Frame? && |c.node.ents| == cfg.layout.maxKeys
    requires c.hole < |c.node.kids| && |c.node.kids| == |c.node.ents| + 1
    ensures Usable(cfg.layout)
    ensures cfg.layout.rightStart == cfg.layout.leftCount + 1 && cfg.layout.mid == cfg.layout.leftCount
    ensures cfg.layout.rightStart <= |Parent(c, left, mid, sibling).ents| == cfg.layout.maxKeys + 1
    ensures Inner(Parent(c, left, mid, sibling))
  {
    hide PendingRun, Sorted;
  }

  lemma LeafRoomZipped(cfg: Config, c: Ctx, t: Tree, e: Entry)
    requires Holed(cfg.layout, c, t, 0) && t.leaf && t.kids == [] && Buffers(t.ref, cfg.layout.maxKeys)
    requires Least(c, 0, cfg.layout.minKeys) <= |t.ents| < cfg.layout.maxKeys
    ensures Zipped(c, Overfull(cfg, t, e), 0, cfg.layout.minKeys, cfg.layout.maxKeys)
    ensures Foot(Overfull(cfg, t, e)) == Foot(t) && InOrder(Overfull(cfg, t, e)) == InsertSorted(cfg.compare, t.ents, e)
  {
    InsertSortedAt(cfg.compare, t.ents, e, 0);
    hide InsertSorted, LowerBound;
  }

  /** The leaf where an absent key belongs takes it, or is full and stays as it is. */
  method TryLeaf(cfg: Config, leaf: BtreeNode, key: Key, offset: FileOffset, ghost model: Tree, ghost height: nat, ghost c: Ctx, ghost t: Tree)
    returns (ok: bool, ghost model2: Tree, ghost top: nat)
    requires ValidTree(cfg, model, height) && !Has(cfg.compare, InOrder(model), key)
    requires Descending(cfg, model, key, c, t, 0) && t.ref == leaf
    modifies leaf`keyCount, leaf.keys, leaf.offsets
    ensures ok ==>
      && ValidTree(cfg, model2, top) && InOrder(model2) == InsertSorted(cfg.compare, InOrder(model), Entry(key, offset))
      && model2.ref == model.ref && Foot(model2) == Foot(model)
    ensures !ok ==> |t.ents| == cfg.layout.maxKeys && unchanged(leaf`keyCount) && unchanged(leaf.keys) && unchanged(leaf.offsets)
  {
    hide Descending, ValidTree, Has, InOrder, InsertSorted, LowerBound, RepCtx, CtxFoot, Zipped, Holed, Sorted, Plug, Body;
    ghost var e := Entry(key, offset);
    DescendLeaf(cfg, model, height, e, c, t);
    LeafLocal(t);
    assert allocated(CtxFoot(c));
    ok := InsertIntoLeaf(cfg, leaf, key, offset, t.ents);
    model2, top := t, 0;
    if ok {
      LeafRoomZipped(cfg, c, t, e);
      InsertSortedAt(cfg.compare, t.ents, e, 0);
      LeafLocal(Overfull(cfg, t, e));
      top := Finish(cfg, InsertSorted(cfg.compare, InOrder(model), e), c, Overfull(cfg, t, e), 0);
      model2 := Plug(c, Overfull(cfg, t, e));
    }
  }

  /** allocate_node. */
  method AllocateNode(cfg: Config) returns (node: BtreeNode)
    ensures fresh(Own(node)) && Buffers(node, cfg.layout.maxKeys)
    ensures node.parent == null && node.keyCount == 0 && !node.isLeaf
    ensures forall i :: 0 <= i <= cfg.layout.maxKeys ==> node.children[i] == null
  {
    node := new BtreeNode(cfg.layout.maxKeys);
  }

  /** A full leaf splits: the first round of the climb. */
  method FirstRound(cfg: Config, leaf: BtreeNode, key: Key, offset: FileOffset, tmpKeys: array<Key>, tmpOffsets: array<FileOffset>,
                    ghost model: Tree, ghost height: nat, ghost c: Ctx, ghost t: Tree)
    returns (right: BtreeNode, ghost left: Tree, ghost mid: Entry, ghost sibling: Tree)
    requires ValidTree(cfg, model, height) && !Has(cfg.compare, InOrder(model), key)
    requires Descending(cfg, model, key, c, t, 0) && t.ref == leaf && |t.ents| == cfg.layout.maxKeys
    requires Temporary(cfg, tmpKeys, tmpOffsets, Foot(model))
    modifies leaf`keyCount, leaf.keys, leaf.offsets, tmpKeys, tmpOffsets
    ensures Climb(cfg, InsertSorted(cfg.compare, InOrder(model), Entry(key, offset)), c, left, mid, sibling, 0)
    ensures PendingRep(c, left, sibling) && left.ref == leaf && sibling.ref == right && fresh(Own(right))
    ensures HoldsMiddle(cfg, tmpKeys, tmpOffsets, mid)
    ensures Used(c, left, sibling) == Foot(model) + Own(right)
  {
    hide Descending, ValidTree, Has, InOrder, InsertSorted, LowerBound, RepCtx, CtxFoot, Zipped, Holed, Sorted, Body, Rep, Climb, Used, LeftHalf, RightHalf, PendingRep, HoldsMiddle, Usable, TotalPreorder;
    ghost var e := Entry(key, offset);
    DescendLeaf(cfg, model, height, e, c, t);
    assert allocated(CtxFoot(c)) && allocated(Foot(t));
    right := AllocateNode(cfg);
    ClimbFromLeaf(cfg, model, height, c, t, e, right);
    ghost var l, v := cfg.layout, Overfull(cfg, t, e);
    HalfRefs(l, v, right);
    left, mid, sibling := LeftHalf(l, v), v.ents[l.leftCount], RightHalf(l, v, right);
    SplitLeaf(cfg, leaf, right, key, offset, tmpKeys, tmpOffsets, c, t, v);
  }

  lemma SingleLeaf(cfg: Config, t: Tree)
    requires Usable(cfg.layout) && Buffers(t.ref, cfg.layout.maxKeys) && t.leaf && t.kids == [] && |t.ents| == 1
    ensures Zipped(Top, t, 0, cfg.layout.minKeys, cfg.layout.maxKeys)
    ensures Foot(t) == Own(t.ref)
  {
  }

  /** create_leaf: the first entry of an empty tree. */
  method CreateLeaf(cfg: Config, key: Key, offset: FileOffset) returns (leaf: BtreeNode)
    requires TotalPreorder(cfg.compare) && Usable(cfg.layout)
    ensures fresh(leaf) && fresh(Foot(Tree(leaf, true, [Entry(key, offset)], [])))
    ensures ValidTree(cfg, Tree(leaf, true, [Entry(key, offset)], []), 0)
    ensures InOrder(Tree(leaf, true, [Entry(key, offset)], [])) == [Entry(key, offset)]
  {
    hide TotalPreorder;
    leaf := new BtreeNode(cfg.layout.maxKeys);
    leaf.keys[0] := key;
    leaf.keyCount := 1;
    leaf.offsets[0] := offset;
    leaf.isLeaf := true;
    ghost var t := Tree(leaf, true, [Entry(key, offset)], []);
    SingleLeaf(cfg, t);
  }

  lemma DescentFoot(cfg: Config, model: Tree, height: nat, key: Key, c: Ctx, t: Tree)
    requires ValidTree(cfg, model, height) && !Has(cfg.compare, InOrder(model), key)
    requires Descending(cfg, model, key, c, t, 0)
    ensures Own(t.ref) <= Foot(t) && CtxFoot(c) + Foot(t) == Foot(model) && RootRef(c, t.ref) == model.ref
  {
    hide Descending, ValidTree, Has, Sorted, Rep, RepCtx, InsertSorted, Holed;
    DescendLeaf(cfg, model, height, Entry(key, 0), c, t);
  }

  /** A round has ended without room in the parent: the climb goes on from here. */
  ghost predicate Stalled(cfg: Config, goal: seq<Entry>, root: BtreeNode, node: BtreeNode, right: BtreeNode,
                          tmpKeys: array<Key>, tmpOffsets: array<FileOffset>,
                          c: Ctx, left: Tree, mid: Entry, sibling: Tree, h: nat)
    reads CtxFoot(c), Foot(left), Foot(sibling), tmpKeys, tmpOffsets
  {
    && Climb(cfg, goal, c, left, mid, sibling, h) && PendingRep(c, left, sibling)
    && left.ref == node && sibling.ref == right && RootRef(c, node) == root
    && c.Frame? && |c.node.ents| == cfg.layout.maxKeys
    && HoldsMiddle(cfg, tmpKeys, tmpOffsets, mid) && Temporary(cfg, tmpKeys, tmpOffsets, Used(c, left, sibling))
  }

  ghost predicate Finished(cfg: Config, goal: seq<Entry>, model: Tree, top: nat, root: BtreeNode)
    reads Foot(model)
  {
    ValidTree(cfg, model, top) && InOrder(model) == goal && model.ref == root
  }

  /** One round: split the full parent, then place what it hands up. */
  method SplitAndPlace(cfg: Config, root: BtreeNode, child: BtreeNode, incoming: BtreeNode, tmpKeys: array<Key>, tmpOffsets: array<FileOffset>,
                ghost goal: seq<Entry>, ghost c: Ctx, ghost left: Tree, ghost mid: Entry, ghost sibling: Tree, ghost h: nat)
    returns (done: bool, newRoot: BtreeNode, node: BtreeNode, right: BtreeNode, ghost left2: Tree, ghost mid2: Entry, ghost sibling2: Tree,
             ghost model: Tree, ghost top: nat, ghost extra: set<object>)
    requires Stalled(cfg, goal, root, child, incoming, tmpKeys, tmpOffsets, c, left, mid, sibling, h)
    modifies Used(c, left, sibling), tmpKeys, tmpOffsets
    ensures done ==> Finished(cfg, goal, model, top, newRoot) && Foot(model) <= Used(c, left, sibling) + extra
    ensures !done ==>
      && Stalled(cfg, goal, root, node, right, tmpKeys, tmpOffsets, c.up, left2, mid2, sibling2, h + 1)
      && Used(c.up, left2, sibling2) <= Used(c, left, sibling) + extra
    ensures fresh(extra)
  {
    hide Climb, PendingRep, HoldsMiddle, Used, Foot, InOrder, ValidTree, CtxFoot;
    node, right, left2, mid2, sibling2 := ClimbRound(cfg, child, incoming, tmpKeys, tmpOffsets, goal, c, left, mid, sibling, h);
    extra := Own(right);
    ghost var more;
    done, newRoot, model, top, more := Place(cfg, root, node, right, tmpKeys, tmpOffsets, goal, c.up, left2, mid2, sibling2, h + 1);
    extra := extra + more;
  }

  /** The splitting part: the leaf splits, then every full ancestor, until a node with room or a new root. */
  method InsertSplitting(cfg: Config, root: BtreeNode, leaf: BtreeNode, key: Key, offset: FileOffset,
                         ghost model: Tree, ghost height: nat, ghost path: Ctx, ghost t: Tree)
    returns (newRoot: BtreeNode, ghost model2: Tree, ghost top: nat, ghost extra: set<object>)
    requires ValidTree(cfg, model, height) && model.ref == root && !Has(cfg.compare, InOrder(model), key)
    requires Descending(cfg, model, key, path, t, 0) && t.ref == leaf && |t.ents| == cfg.layout.maxKeys
    modifies Foot(model)
    ensures Finished(cfg, InsertSorted(cfg.compare, InOrder(model), Entry(key, offset)), model2, top, newRoot)
    ensures Foot(model2) <= Foot(model) + extra && fresh(extra)
  {
    hide Descending, ValidTree, Has, InOrder, InsertSorted, Stalled, Finished, Used, Foot;
    ghost var goal := InsertSorted(cfg.compare, InOrder(model), Entry(key, offset));
    var tmpKeys, tmpOffsets, done, node, right;
    ghost var c, left, mid, sibling;
    tmpKeys, tmpOffsets, done, newRoot, node, right, left, mid, sibling, model2, top, extra :=
      StartSplitting(cfg, root, leaf, key, offset, model, height, path, t);
    c := path;
    ghost var h := 0;
    while !done
      invariant fresh(extra)
      invariant done ==> Finished(cfg, goal, model2, top, newRoot) && Foot(model2) <= Foot(model) + extra
      invariant !done ==>
        && Stalled(cfg, goal, root, node, right, tmpKeys, tmpOffsets, c, left, mid, sibling, h)
        && Used(c, left, sibling) <= Foot(model) + extra
      decreases c
    {
      ghost var more;
      assert c.Frame? by { StalledBelow(cfg, goal, root, node, right, tmpKeys, tmpOffsets, c, left, mid, sibling, h); }
      done, newRoot, node, right, left, mid, sibling, model2, top, more :=
        SplitAndPlace(cfg, root, node, right, tmpKeys, tmpOffsets, goal, c, left, mid, sibling, h);
      c, h, extra := c.up, h + 1, extra + more;
    }
  }

  lemma StalledBelow(cfg: Config, goal: seq<Entry>, root: BtreeNode, node: BtreeNode, right: BtreeNode,
                     tmpKeys: array<Key>, tmpOffsets: array<FileOffset>,
                     c: Ctx, left: Tree, mid: Entry, sibling: Tree, h: nat)
    requires Stalled(cfg, goal, root, node, right, tmpKeys, tmpOffsets, c, left, mid, sibling, h)
    ensures c.Frame?
  {
  }

  method StartSplitting(cfg: Config, root: BtreeNode, leaf: BtreeNode, key: Key, offset: FileOffset,
                        ghost model: Tree, ghost height: nat, ghost path: Ctx, ghost t: Tree)
    returns (tmpKeys: array<Key>, tmpOffsets: array<FileOffset>, done: bool, newRoot: BtreeNode, node: BtreeNode, right: BtreeNode,
             ghost left: Tree, ghost mid: Entry, ghost sibling: Tree, ghost model2: Tree, ghost top: nat, ghost extra: set<object>)
    requires ValidTree(cfg, model, height) && model.ref == root && !Has(cfg.compare, InOrder(model), key)
    requires Descending(cfg, model, key, path, t, 0) && t.ref == leaf && |t.ents| == cfg.layout.maxKeys
    modifies Foot(model)
    ensures fresh(tmpKeys) && fresh(tmpOffsets) && fresh(extra)
    ensures done ==>
      && Finished(cfg, InsertSorted(cfg.compare, InOrder(model), Entry(key, offset)), model2, top, newRoot)
      && Foot(model2) <= Foot(model) + extra
    ensures !done ==>
      && Stalled(cfg, InsertSorted(cfg.compare, InOrder(model), Entry(key, offset)), root, node, right, tmpKeys, tmpOffsets,
                 path, left, mid, sibling, 0)
      && Used(path, left, sibling) <= Foot(model) + extra
  {
    hide Descending, ValidTree, Has, InOrder, InsertSorted, PendingRep, Climb, CtxFoot, Used, HoldsMiddle, Foot;
    DescentFoot(cfg, model, height, key, path, t);
    assert allocated(Foot(model)) && allocated(CtxFoot(path)) && allocated(Foot(t));
    tmpKeys := new Key[cfg.layout.maxKeys + 1](_ => []);
    tmpOffsets := new FileOffset[cfg.layout.maxKeys + 1](_ => 0);
    node := leaf;
    right, left, mid, sibling := FirstRound(cfg, leaf, key, offset, tmpKeys, tmpOffsets, model, height, path, t);
    extra := Own(right);
    ghost var more;
    done, newRoot, model2, top, more := Place(cfg, root, node, right, tmpKeys, tmpOffsets,
      InsertSorted(cfg.compare, InOrder(model), Entry(key, offset)), path, left, mid, sibling, 0);
    extra := extra + more;
  }

  /** btree_insert_do on a non-empty tree: an absent key is put in its place, whatever splits that takes. */
  method InsertDo(cfg: Config, root: BtreeNode, key: Key, offset: FileOffset, ghost model: Tree, ghost height: nat)
    returns (newRoot: BtreeNode, ghost model2: Tree, ghost top: nat, ghost extra: set<object>)
    requires ValidTree(cfg, model, height) && model.ref == root && !Has(cfg.compare, InOrder(model), key)
    modifies Foot(model)
    ensures Finished(cfg, InsertSorted(cfg.compare, InOrder(model), Entry(key, offset)), model2, top, newRoot)
    ensures Foot(model2) <= Foot(model) + extra && fresh(extra)
  {
    hide Descending, ValidTree, Has, InOrder, InsertSorted, LowerBound, PendingRep, Climb, Foot, CtxFoot, Used;
    assert allocated(Foot(model));
    var leaf, c, t := FindLeaf(cfg, root, key, model, height);
    DescentFoot(cfg, model, height, key, c, t);
    assert allocated(CtxFoot(c)) && allocated(Foot(t));
    var done;
    done, model2, top := TryLeaf(cfg, leaf, key, offset, model, height, c, t);
    newRoot, extra := root, {};
    if !done {
      newRoot, model2, top, extra := InsertSplitting(cfg, root, leaf, key, offset, model, height, c, t);
    }
  }
}
