/** The path from the root to a node under work: a tree with one subtree taken out. */
module Contexts {
  import opened Ordering
  import opened Trees

  /** `Frame(up, node, hole)`: the work is inside child `hole` of `node`; that child's value is stale. */
  datatype Ctx = Top | Frame(up: Ctx, node: Tree, hole: nat)

  ghost predicate Fits(c: Ctx) {
    c.Frame? ==>
      && c.hole < |c.node.kids| && |c.node.kids| == |c.node.ents| + 1
      && Fits(c.up) && Expects(c.up, c.node.ref)
  }

  /** The node whose value fills the hole is still the node object that was there. */
  ghost predicate Expects(c: Ctx, n: BtreeNode) {
    c.Frame? ==> c.hole < |c.node.kids| && c.node.kids[c.hole].ref == n
  }

  ghost function Refill(node: Tree, hole: nat, t: Tree): Tree
    requires hole < |node.kids|
  {
    node.(kids := node.kids[hole := t])
  }

  ghost function Plug(c: Ctx, t: Tree): Tree
    requires Fits(c)
    decreases c
  {
    if c.Top? then t else Plug(c.up, Refill(c.node, c.hole, t))
  }

  /** What the parent pointer of the node in the hole must be. */
  ghost function ParentRef(c: Ctx): BtreeNode? {
    if c.Top? then null else c.node.ref
  }

  /** The least key count allowed in a hole of height `h`: an inner root may hold a single key, a leaf root none. */
  ghost function Least(c: Ctx, h: nat, minKeys: nat): nat {
    if !c.Top? then minKeys else if h == 0 then 0 else 1
  }

  ghost function SideFoot(ks: seq<Tree>, hole: nat): set<object> {
    if hole < |ks| then KidsFoot(ks[..hole]) + KidsFoot(ks[hole + 1..]) else {}
  }

  ghost function CtxFoot(c: Ctx): set<object> {
    if c.Top? then {} else Own(c.node.ref) + SideFoot(c.node.kids, c.hole) + CtxFoot(c.up)
  }

  ghost predicate SepCtx(c: Ctx) {
    c.Frame? ==>
      && SepSides(c.node.kids, c.hole)
      && Own(c.node.ref) !! SideFoot(c.node.kids, c.hole)
      && Own(c.node.ref) + SideFoot(c.node.kids, c.hole) !! CtxFoot(c.up)
      && SepCtx(c.up)
  }

  ghost predicate SepSides(ks: seq<Tree>, hole: nat) {
    && hole < |ks|
    && SepKids(ks[..hole]) && SepKids(ks[hole + 1..])
    && KidsFoot(ks[..hole]) !! KidsFoot(ks[hole + 1..])
  }

  ghost predicate SizedCtx(c: Ctx, maxKeys: nat) {
    c.Frame? ==>
      && Buffers(c.node.ref, maxKeys)
      && (forall i :: 0 <= i < |c.node.kids| && i != c.hole ==> Sized(c.node.kids[i], maxKeys))
      && SizedCtx(c.up, maxKeys)
  }

  ghost predicate CtxShaped(c: Ctx, h: nat, minKeys: nat, maxKeys: nat)
    decreases c
  {
    c.Frame? ==>
      && !c.node.leaf && |c.node.kids| == |c.node.ents| + 1
      && Least(c.up, h + 1, minKeys) <= |c.node.ents| <= maxKeys
      && (forall i :: 0 <= i < |c.node.kids| && i != c.hole ==> Shaped(c.node.kids[i], h, minKeys, minKeys, maxKeys))
      && CtxShaped(c.up, h + 1, minKeys, maxKeys)
  }

  ghost predicate RepCtx(c: Ctx)
    reads CtxFoot(c)
    decreases c
  {
    c.Frame? ==>
      && c.node.ref.parent == ParentRef(c.up)
      && Local(c.node)
      && c.hole < |c.node.kids|
      && KidsRep(c.node.kids[..c.hole], c.node.ref) && KidsRep(c.node.kids[c.hole + 1..], c.node.ref)
      && RepCtx(c.up)
  }

  ghost predicate Separate(c: Ctx, t: Tree) {
    SepCtx(c) && Sep(t) && CtxFoot(c) !! Foot(t)
  }

  ghost predicate InShape(c: Ctx, t: Tree, h: nat, minKeys: nat, maxKeys: nat) {
    CtxShaped(c, h, minKeys, maxKeys) && Shaped(t, h, Least(c, h, minKeys), minKeys, maxKeys)
  }

  /** Everything about a context and the value in its hole that does not depend on the heap. */
  ghost predicate Zipped(c: Ctx, t: Tree, h: nat, minKeys: nat, maxKeys: nat) {
    && Fits(c) && Expects(c, t.ref)
    && Separate(c, t)
    && SizedCtx(c, maxKeys) && Sized(t, maxKeys)
    && InShape(c, t, h, minKeys, maxKeys)
  }

  ghost function CtxBefore(c: Ctx): seq<Entry>
    requires Fits(c)
  {
    if c.Top? then [] else CtxBefore(c.up) + Before(c.node.ents[..c.hole], c.node.kids[..c.hole])
  }

  ghost function CtxAfter(c: Ctx): seq<Entry>
    requires Fits(c)
  {
    if c.Top? then [] else After(c.node.ents[c.hole..], c.node.kids[c.hole + 1..]) + CtxAfter(c.up)
  }

  lemma InOrderRefill(node: Tree, hole: nat, t: Tree)
    requires hole < |node.kids| && |node.kids| == |node.ents| + 1
    ensures InOrder(Refill(node, hole, t))
         == Before(node.ents[..hole], node.kids[..hole]) + InOrder(t) + After(node.ents[hole..], node.kids[hole + 1..])
  {
    var n := Refill(node, hole, t);
    InOrderAt(n, hole);
    assert n.kids[..hole] == node.kids[..hole];
    assert n.kids[hole + 1..] == node.kids[hole + 1..];
  }

  /** The in-order run of the whole tree, seen from the hole. */
  lemma {:induction false} PlugInOrder(c: Ctx, t: Tree)
    requires Fits(c)
    ensures InOrder(Plug(c, t)) == CtxBefore(c) + InOrder(t) + CtxAfter(c)
    decreases c
  {
    if c.Frame? {
      PlugInOrder(c.up, Refill(c.node, c.hole, t));
      InOrderRefill(c.node, c.hole, t);
      Regroup(CtxBefore(c.up), Before(c.node.ents[..c.hole], c.node.kids[..c.hole]), InOrder(t),
              After(c.node.ents[c.hole..], c.node.kids[c.hole + 1..]), CtxAfter(c.up));
    }
  }

  lemma Regroup(a: seq<Entry>, b: seq<Entry>, m: seq<Entry>, y: seq<Entry>, z: seq<Entry>)
    ensures a + (b + m + y) + z == (a + b) + m + (y + z)
  {
  }

  lemma SeparateDown(c: Ctx, t: Tree, i: nat)
    requires Separate(c, t) && i < |t.kids|
    ensures Separate(Frame(c, t, i), t.kids[i])
  {
    hide Own;
    KidsFootAt(t.kids, i);
    SepKidsAt(t.kids, i);
  }

  /** Moving the hole from `t` down to its child `i`. */
  lemma ZipDown(c: Ctx, t: Tree, i: nat, h: nat, minKeys: nat, maxKeys: nat)
    requires Zipped(c, t, h, minKeys, maxKeys) && h > 0 && i < |t.kids|
    ensures Zipped(Frame(c, t, i), t.kids[i], h - 1, minKeys, maxKeys)
    ensures Plug(Frame(c, t, i), t.kids[i]) == Plug(c, t)
  {
    assert t.kids[i := t.kids[i]] == t.kids;
    SeparateDown(c, t, i);
  }

  lemma RefillFoot(node: Tree, hole: nat, t: Tree)
    requires hole < |node.kids|
    ensures KidsFoot(Refill(node, hole, t).kids) == SideFoot(node.kids, hole) + Foot(t)
    ensures Foot(Refill(node, hole, t)) == Own(node.ref) + SideFoot(node.kids, hole) + Foot(t)
  {
    var ks := node.kids[hole := t];
    KidsFootAt(ks, hole);
    assert ks[..hole] == node.kids[..hole] && ks[hole + 1..] == node.kids[hole + 1..];
  }

  lemma SeparateUp(c: Ctx, t: Tree)
    requires c.Frame? && c.hole < |c.node.kids| && Separate(c, t)
    ensures Separate(c.up, Refill(c.node, c.hole, t))
  {
    var ks := c.node.kids[c.hole := t];
    RefillFoot(c.node, c.hole, t);
    SepKidsAt(ks, c.hole);
    assert ks[..c.hole] == c.node.kids[..c.hole] && ks[c.hole + 1..] == c.node.kids[c.hole + 1..];
    hide Own;
  }

  lemma ShapeUp(c: Ctx, t: Tree, h: nat, minKeys: nat, maxKeys: nat)
    requires c.Frame? && c.hole < |c.node.kids| && InShape(c, t, h, minKeys, maxKeys)
    ensures InShape(c.up, Refill(c.node, c.hole, t), h + 1, minKeys, maxKeys)
  {
  }

  /** Putting a value back into the parent, one level up. */
  lemma ZipUp(c: Ctx, t: Tree, h: nat, minKeys: nat, maxKeys: nat)
    requires c.Frame? && Zipped(c, t, h, minKeys, maxKeys)
    ensures Zipped(c.up, Refill(c.node, c.hole, t), h + 1, minKeys, maxKeys)
  {
    SeparateUp(c, t);
    ShapeUp(c, t, h, minKeys, maxKeys);
  }

  /** A well-placed hole makes a well-formed whole. */
  lemma {:induction false} PlugZipped(c: Ctx, t: Tree, h: nat, minKeys: nat, maxKeys: nat) returns (top: nat)
    requires Zipped(c, t, h, minKeys, maxKeys)
    ensures Zipped(Top, Plug(c, t), top, minKeys, maxKeys)
    ensures Foot(Plug(c, t)) == CtxFoot(c) + Foot(t)
    decreases c
  {
    hide Separate, InShape, SizedCtx;
    if c.Top? {
      top := h;
    } else {
      ZipUp(c, t, h, minKeys, maxKeys);
      RefillFoot(c.node, c.hole, t);
      top := PlugZipped(c.up, Refill(c.node, c.hole, t), h + 1, minKeys, maxKeys);
    }
  }

  lemma RefillRep(node: Tree, hole: nat, t: Tree)
    requires hole < |node.kids| && node.kids[hole].ref == t.ref && Local(node)
    requires KidsRep(node.kids[..hole], node.ref) && KidsRep(node.kids[hole + 1..], node.ref) && Rep(t, node.ref)
    ensures Body(Refill(node, hole, t))
  {
    var n := Refill(node, hole, t);
    assert n.kids[..hole] == node.kids[..hole] && n.kids[hole + 1..] == node.kids[hole + 1..];
    hide Body;
    KidsRepAt(n.kids, hole, node.ref);
    BodyKids(n);
  }

  lemma {:induction false} PlugRep(c: Ctx, t: Tree)
    requires Fits(c) && Expects(c, t.ref)
    requires RepCtx(c) && Rep(t, ParentRef(c))
    ensures Rep(Plug(c, t), null)
    decreases c
  {
    if c.Frame? {
      RefillRep(c.node, c.hole, t);
      PlugRep(c.up, Refill(c.node, c.hole, t));
    }
  }

  lemma RepDown(c: Ctx, t: Tree, i: nat)
    requires Fits(c) && RepCtx(c) && Rep(t, ParentRef(c)) && i < |t.kids|
    ensures RepCtx(Frame(c, t, i)) && Rep(t.kids[i], t.ref)
  {
    BodyKids(t);
    KidsRepAt(t.kids, i, t.ref);
  }
}
