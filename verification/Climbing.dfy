/** The climb of an insertion: what every round keeps and how it ends. */
module Climbing {
  import opened Ordering
  import opened Layout
  import opened Trees
  import opened Contexts
  import opened NodeOps
  import opened TreeOrder
  import opened Splitting
  import opened BtreeInsert

  /** The tree and the one pending separator and sibling together hold the goal, in order and in shape. */
  ghost predicate Climb(cfg: Config, goal: seq<Entry>, c: Ctx, left: Tree, mid: Entry, sibling: Tree, h: nat) {
    && TotalPreorder(cfg.compare) && Usable(cfg.layout)
    && Pending(cfg.layout, c, left, sibling, h)
    && PendingRun(c, left, mid, sibling) == goal && Sorted(cfg.compare, goal)
  }

  ghost function Filled(c: Ctx, left: Tree): Tree
    requires c.Frame? && c.hole < |c.node.kids|
  {
    Refill(c.node, c.hole, left)
  }

  ghost function Parent(c: Ctx, left: Tree, mid: Entry, sibling: Tree): Tree
    requires c.Frame? && c.hole < |c.node.kids| && |c.node.kids| == |c.node.ents| + 1
  {
    Grown(c.node, c.hole, left, mid, sibling)
  }

  ghost function Used(c: Ctx, left: Tree, sibling: Tree): set<object> {
    CtxFoot(c) + Foot(left) + Foot(sibling)
  }

  lemma ClimbFits(cfg: Config, goal: seq<Entry>, c: Ctx, left: Tree, mid: Entry, sibling: Tree, h: nat)
    requires Climb(cfg, goal, c, left, mid, sibling, h) && c.Frame?
    ensures c.hole < |c.node.kids| && |c.node.kids| == |c.node.ents| + 1 && |c.node.ents| <= cfg.layout.maxKeys
    ensures !c.node.leaf && Buffers(c.node.ref, cfg.layout.maxKeys) && c.node.kids[c.hole].ref == left.ref
    ensures Fits(c) && Fits(c.up) && Expects(c.up, c.node.ref)
  {
  }

  /** The key comparison in the parent puts the pending pair exactly beside the node that split. */
  lemma ClimbParent(cfg: Config, goal: seq<Entry>, c: Ctx, left: Tree, mid: Entry, sibling: Tree, h: nat)
    requires Climb(cfg, goal, c, left, mid, sibling, h) && c.Frame?
    requires c.hole < |c.node.kids| && |c.node.kids| == |c.node.ents| + 1 && !c.node.leaf
    ensures LowerBound(cfg.compare, c.node.ents, mid.key) == c.hole
    ensures Parent(c, left, mid, sibling)
         == Tree(c.node.ref, false, InsertSorted(cfg.compare, c.node.ents, mid), AddKid(Filled(c, left).kids, c.hole, sibling))
  {
    PendingSlot(cfg.compare, c, left, mid, sibling);
    hide LowerBound, PendingRun, Pending;
    GrownIsAddKid(c.node, c.hole, left, mid, sibling);
  }

  lemma ClimbSeparate(cfg: Config, goal: seq<Entry>, c: Ctx, left: Tree, mid: Entry, sibling: Tree, h: nat)
    requires Climb(cfg, goal, c, left, mid, sibling, h) && c.Frame?
    requires c.hole < |c.node.kids| && |c.node.kids| == |c.node.ents| + 1
    ensures var v := Parent(c, left, mid, sibling);
      && Holed(cfg.layout, c.up, v, h + 1) && KidsReady(cfg.layout, v, h)
      && SepKids(v.kids) && Own(c.node.ref) !! KidsFoot(v.kids)
      && CtxFoot(c.up) !! Own(c.node.ref) + KidsFoot(v.kids)
      && Used(c, left, sibling) == CtxFoot(c.up) + Own(c.node.ref) + KidsFoot(v.kids)
      && Foot(v) == Own(c.node.ref) + KidsFoot(v.kids)
  {
    GrownHoled(cfg.layout, c, left, mid, sibling, h);
    hide Sorted, PendingRun, SideFoot, KidsFoot, Pending, Own;
  }

  lemma ClimbRep(c: Ctx, left: Tree, mid: Entry, sibling: Tree)
    requires c.Frame? && c.hole < |c.node.kids| && |c.node.kids| == |c.node.ents| + 1 && c.node.kids[c.hole].ref == left.ref
    requires PendingRep(c, left, sibling)
    ensures Local(Filled(c, left)) && RepCtx(c.up) && c.node.ref.parent == ParentRef(c.up)
    ensures KidsRep(Parent(c, left, mid, sibling).kids, c.node.ref)
    ensures sibling.ref in KidsFoot(Parent(c, left, mid, sibling).kids) && sibling.ref.parent == c.node.ref
  {
    var a, b := c.node.kids[..c.hole], c.node.kids[c.hole + 1..];
    hide Body;
    KidsRepConcat([left], [sibling], c.node.ref);
    assert [left] + [sibling] == [left, sibling];
    KidsRepConcat(a, [left, sibling], c.node.ref);
    KidsRepConcat(a + [left, sibling], b, c.node.ref);
    KidInFoot(Parent(c, left, mid, sibling).kids, c.hole + 1);
  }

  /** What a round needs of the parent: the slot, its representation, its separation from the rest. */
  lemma Round(cfg: Config, goal: seq<Entry>, c: Ctx, left: Tree, mid: Entry, sibling: Tree, h: nat)
    requires Climb(cfg, goal, c, left, mid, sibling, h) && PendingRep(c, left, sibling) && c.Frame?
    ensures c.hole < |c.node.kids| && |c.node.kids| == |c.node.ents| + 1 && c.node.kids[c.hole].ref == left.ref
    ensures var v := Parent(c, left, mid, sibling);
      && AtSlot(cfg, c.node.ref, sibling.ref, mid, Filled(c, left), c.hole, sibling, v)
      && ParentRep(c.up, Filled(c, left), v) && ParentApart(c.up, c.node.ref, v)
      && sibling.ref in KidsFoot(v.kids) && Refs(v.kids) <= KidsFoot(v.kids)
      && Used(c, left, sibling) == CtxFoot(c.up) + Own(c.node.ref) + KidsFoot(v.kids)
    ensures sibling.ref.parent == left.ref.parent == c.node.ref
  {
    hide Climb, Body, KidsFoot, SepKids, KidsRep, RepCtx, CtxFoot, InsertSorted, AddKid, LowerBound, Grown, Holed, KidsReady, Used;
    ClimbFits(cfg, goal, c, left, mid, sibling, h);
    ClimbParent(cfg, goal, c, left, mid, sibling, h);
    ClimbSeparate(cfg, goal, c, left, mid, sibling, h);
    ClimbRep(c, left, mid, sibling);
    ParentFull(cfg, goal, c, left, mid, sibling, h);
    RefsOutside(Parent(c, left, mid, sibling).kids);
  }

  /** The converse, for a round in which the parent was full and nothing moved. */
  lemma UnclimbRep(c: Ctx, left: Tree, mid: Entry, sibling: Tree)
    requires c.Frame? && c.hole < |c.node.kids| && |c.node.kids| == |c.node.ents| + 1 && c.node.kids[c.hole].ref == left.ref
    requires ParentRep(c.up, Filled(c, left), Parent(c, left, mid, sibling))
    ensures PendingRep(c, left, sibling)
  {
    var a, b := c.node.kids[..c.hole], c.node.kids[c.hole + 1..];
    hide Body;
    KidsRepConcat([left], [sibling], c.node.ref);
    assert [left] + [sibling] == [left, sibling];
    KidsRepConcat(a, [left, sibling], c.node.ref);
    KidsRepConcat(a + [left, sibling], b, c.node.ref);
    assert [left][0] == left && [sibling][0] == sibling;
    LocalFilled(c, left);
  }

  lemma LocalFilled(c: Ctx, left: Tree)
    requires c.Frame? && c.hole < |c.node.kids| && c.node.kids[c.hole].ref == left.ref
    ensures Local(Filled(c, left)) <==> Local(c.node)
  {
    var f := Filled(c, left);
    assert forall i :: 0 <= i < |f.kids| ==> f.kids[i].ref == c.node.kids[i].ref;
  }

  /** The outermost node of a path: the root object. */
  ghost function RootRef(c: Ctx, n: BtreeNode): BtreeNode {
    if c.Top? then n else RootRef(c.up, c.node.ref)
  }

  lemma {:induction false} PlugRoot(c: Ctx, t: Tree)
    requires Fits(c)
    ensures Plug(c, t).ref == RootRef(c, t.ref)
    decreases c
  {
    if c.Frame? { PlugRoot(c.up, Refill(c.node, c.hole, t)); }
  }

  /** A tree is finished once a value in shape fills the hole. */
  lemma Finish(cfg: Config, goal: seq<Entry>, c: Ctx, t: Tree, h: nat) returns (top: nat)
    requires TotalPreorder(cfg.compare) && Usable(cfg.layout) && Sorted(cfg.compare, goal)
    requires Zipped(c, t, h, cfg.layout.minKeys, cfg.layout.maxKeys)
    requires CtxBefore(c) + InOrder(t) + CtxAfter(c) == goal
    requires RepCtx(c) && Rep(t, ParentRef(c))
    ensures ValidTree(cfg, Plug(c, t), top) && InOrder(Plug(c, t)) == goal
    ensures Foot(Plug(c, t)) == CtxFoot(c) + Foot(t) && Plug(c, t).ref == RootRef(c, t.ref)
  {
    PlugInOrder(c, t);
    PlugRep(c, t);
    PlugRoot(c, t);
    top := PlugZipped(c, t, h, cfg.layout.minKeys, cfg.layout.maxKeys);
  }

  lemma ParentRun(c: Ctx, left: Tree, mid: Entry, sibling: Tree)
    requires Fits(c) && c.Frame?
    ensures CtxBefore(c.up) + InOrder(Parent(c, left, mid, sibling)) + CtxAfter(c.up) == PendingRun(c, left, mid, sibling)
  {
    GrownInOrder(c.node, c.hole, left, mid, sibling);
    hide InOrder, Before, After;
    Regroup(CtxBefore(c.up), Before(c.node.ents[..c.hole], c.node.kids[..c.hole]), InOrder(left) + [mid] + InOrder(sibling),
            After(c.node.ents[c.hole..], c.node.kids[c.hole + 1..]), CtxAfter(c.up));
  }

  /** The last round: the parent had room. */
  lemma FinishAttached(cfg: Config, goal: seq<Entry>, c: Ctx, left: Tree, mid: Entry, sibling: Tree, h: nat) returns (top: nat)
    requires Climb(cfg, goal, c, left, mid, sibling, h) && c.Frame?
    requires c.hole < |c.node.kids| && |c.node.kids| == |c.node.ents| + 1 && |c.node.ents| < cfg.layout.maxKeys
    requires RepCtx(c.up) && Rep(Parent(c, left, mid, sibling), ParentRef(c.up))
    ensures ValidTree(cfg, Plug(c.up, Parent(c, left, mid, sibling)), top)
    ensures InOrder(Plug(c.up, Parent(c, left, mid, sibling))) == goal
    ensures Foot(Plug(c.up, Parent(c, left, mid, sibling))) == Used(c, left, sibling)
    ensures Plug(c.up, Parent(c, left, mid, sibling)).ref == RootRef(c, left.ref)
  {
    hide Pending, PendingRun, KidsReady, Parent, Zipped, Sorted, TotalPreorder, Usable, RepCtx, Rep, Foot, ValidTree, InOrder, Plug, Holed;
    var v := Parent(c, left, mid, sibling);
    ClimbFits(cfg, goal, c, left, mid, sibling, h);
    ClimbSeparate(cfg, goal, c, left, mid, sibling, h);
    ParentRun(c, left, mid, sibling);
    ParentShaped(cfg, goal, c, left, mid, sibling, h);
    top := Finish(cfg, goal, c.up, v, h + 1);
  }

  lemma ParentShaped(cfg: Config, goal: seq<Entry>, c: Ctx, left: Tree, mid: Entry, sibling: Tree, h: nat)
    requires Climb(cfg, goal, c, left, mid, sibling, h) && c.Frame?
    requires c.hole < |c.node.kids| && |c.node.kids| == |c.node.ents| + 1 && |c.node.ents| < cfg.layout.maxKeys
    ensures Zipped(c.up, Parent(c, left, mid, sibling), h + 1, cfg.layout.minKeys, cfg.layout.maxKeys)
    ensures Parent(c, left, mid, sibling).ref == c.node.ref
  {
    ClimbSeparate(cfg, goal, c, left, mid, sibling, h);
    hide Separate, Sep, KidsFoot, PendingRun;
  }

  /** One round up: the parent was full and split in its turn. */
  lemma ClimbUp(cfg: Config, goal: seq<Entry>, c: Ctx, left: Tree, mid: Entry, sibling: Tree, h: nat, n: BtreeNode)
    requires Climb(cfg, goal, c, left, mid, sibling, h) && c.Frame?
    requires c.hole < |c.node.kids| && |c.node.kids| == |c.node.ents| + 1 && |c.node.ents| == cfg.layout.maxKeys
    requires Buffers(n, cfg.layout.maxKeys) && Own(n) !! Used(c, left, sibling)
    ensures var l, v := cfg.layout, Parent(c, left, mid, sibling);
      && Climb(cfg, goal, c.up, LeftHalf(l, v), v.ents[l.leftCount], RightHalf(l, v, n), h + 1)
      && Used(c.up, LeftHalf(l, v), RightHalf(l, v, n)) == Used(c, left, sibling) + Own(n)
      && LeftHalf(l, v).ref == c.node.ref
  {
    hide Pending, KidsReady, Sorted, TotalPreorder, InOrder, Holed, KidsFoot, Foot, Own, CtxFoot, Sep, SepKids, CtxBefore, CtxAfter, LeftHalf, RightHalf;
    var l, v := cfg.layout, Parent(c, left, mid, sibling);
    ParentFull(cfg, goal, c, left, mid, sibling, h);
    ClimbSeparate(cfg, goal, c, left, mid, sibling, h);
    HalvesPending(l, c.up, v, n, h + 1);
    HalvesInOrder(l, v, n);
    ParentRun(c, left, mid, sibling);
    HalfRefs(l, v, n);
  }

  lemma ParentFull(cfg: Config, goal: seq<Entry>, c: Ctx, left: Tree, mid: Entry, sibling: Tree, h: nat)
    requires Climb(cfg, goal, c, left, mid, sibling, h) && c.Frame?
    requires c.hole < |c.node.kids| && |c.node.kids| == |c.node.ents| + 1
    ensures Fits(c) && Fits(c.up)
    ensures Inner(Parent(c, left, mid, sibling))
    ensures |Parent(c, left, mid, sibling).ents| == |c.node.ents| + 1
    ensures Parent(c, left, mid, sibling).ref == c.node.ref
  {
  }
}
