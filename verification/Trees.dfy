/** B-tree nodes on the heap, and the ghost value of the tree they form. */
module Trees {
  import opened Ordering

  /** One allocated node: fixed buffers of which `keyCount` slots (and one child more) are live. */
  class BtreeNode {
    var parent: BtreeNode?
    var isLeaf: bool
    var keyCount: nat
    const keys: array<Key>
    const offsets: array<FileOffset>
    const children: array<BtreeNode?>

    constructor (maxKeys: nat)
      ensures parent == null && !isLeaf && keyCount == 0
      ensures fresh(keys) && fresh(offsets) && fresh(children)
      ensures Buffers(this, maxKeys)
      ensures forall i :: 0 <= i <= maxKeys ==> children[i] == null
    {
      parent, isLeaf, keyCount := null, false, 0;
      keys := new Key[maxKeys](_ => []);
      offsets := new FileOffset[maxKeys](_ => 0);
      children := new BtreeNode?[maxKeys + 1](_ => null);
    }
  }

  ghost predicate Buffers(n: BtreeNode, maxKeys: nat) {
    n.keys.Length == maxKeys && n.offsets.Length == maxKeys && n.children.Length == maxKeys + 1
  }

  /** The value of a (sub)tree: which node object, its live entries and its children. */
  datatype Tree = Tree(ref: BtreeNode, leaf: bool, ents: seq<Entry>, kids: seq<Tree>)

  // ---------------------------------------------------------------- footprints

  ghost function Own(n: BtreeNode): set<object> {
    {n, n.keys, n.offsets, n.children}
  }

  ghost function Foot(t: Tree): set<object>
    decreases t, 1
  {
    Own(t.ref) + KidsFoot(t.kids)
  }

  ghost function KidsFoot(ks: seq<Tree>): set<object>
    decreases ks, 0
  {
    if ks == [] then {} else Foot(ks[0]) + KidsFoot(ks[1..])
  }

  lemma {:induction false} KidsFootConcat(a: seq<Tree>, b: seq<Tree>)
    ensures KidsFoot(a + b) == KidsFoot(a) + KidsFoot(b)
    decreases |a|
  {
    if a == [] {
      assert a + b == b;
    } else {
      KidsFootConcat(a[1..], b);
      assert (a + b)[1..] == a[1..] + b;
    }
  }

  lemma KidsFootAt(ks: seq<Tree>, i: nat)
    requires i < |ks|
    ensures KidsFoot(ks) == KidsFoot(ks[..i]) + Foot(ks[i]) + KidsFoot(ks[i + 1..])
  {
    KidsFootConcat(ks[..i], ks[i..]);
    assert ks == ks[..i] + ks[i..];
    assert ks[i..][1..] == ks[i + 1..];
  }

  lemma KidInFoot(ks: seq<Tree>, i: nat)
    requires i < |ks|
    ensures Own(ks[i].ref) <= Foot(ks[i]) <= KidsFoot(ks)
    ensures KidsFoot(ks[i].kids) <= Foot(ks[i])
  {
    KidsFootAt(ks, i);
  }

  /** No two nodes of the tree share storage. A fact about the value alone: buffers never move. */
  ghost predicate Sep(t: Tree)
    decreases t, 1
  {
    Own(t.ref) !! KidsFoot(t.kids) && SepKids(t.kids)
  }

  ghost predicate SepKids(ks: seq<Tree>)
    decreases ks, 0
  {
    ks != [] ==> Sep(ks[0]) && Foot(ks[0]) !! KidsFoot(ks[1..]) && SepKids(ks[1..])
  }

  lemma {:induction false} SepKidsConcat(a: seq<Tree>, b: seq<Tree>)
    ensures SepKids(a + b) <==> SepKids(a) && SepKids(b) && KidsFoot(a) !! KidsFoot(b)
    decreases |a|
  {
    if a == [] {
      assert a + b == b;
    } else {
      SepKidsConcat(a[1..], b);
      KidsFootConcat(a[1..], b);
      assert (a + b)[1..] == a[1..] + b;
    }
  }

  /** Separation around one child, both ways. */
  lemma SepKidsAt(ks: seq<Tree>, i: nat)
    requires i < |ks|
    ensures SepKids(ks) <==>
      && SepKids(ks[..i]) && Sep(ks[i]) && SepKids(ks[i + 1..])
      && KidsFoot(ks[..i]) !! Foot(ks[i]) && KidsFoot(ks[..i]) !! KidsFoot(ks[i + 1..])
      && Foot(ks[i]) !! KidsFoot(ks[i + 1..])
  {
    SepKidsConcat(ks[..i], ks[i..]);
    assert ks == ks[..i] + ks[i..];
    assert ks[i..][1..] == ks[i + 1..];
  }

  ghost predicate Sized(t: Tree, maxKeys: nat) {
    Buffers(t.ref, maxKeys) && forall i :: 0 <= i < |t.kids| ==> Sized(t.kids[i], maxKeys)
  }

  // ---------------------------------------------------------------- heap agreement

  ghost predicate HoldsEntries(keys: array<Key>, offsets: array<FileOffset>, es: seq<Entry>)
    reads keys, offsets
  {
    && |es| <= keys.Length && |es| <= offsets.Length
    && forall i :: 0 <= i < |es| ==> keys[i] == es[i].key && offsets[i] == es[i].offset
  }

  ghost predicate HoldsKids(children: array<BtreeNode?>, ks: seq<Tree>)
    reads children
  {
    |ks| <= children.Length && forall i :: 0 <= i < |ks| ==> children[i] == ks[i].ref
  }

  /** The fields and buffers of the top node agree with the value. */
  ghost predicate Local(t: Tree)
    reads t.ref`isLeaf, t.ref`keyCount, t.ref.keys, t.ref.offsets, t.ref.children
  {
    && t.ref.isLeaf == t.leaf
    && t.ref.keyCount == |t.ents|
    && HoldsEntries(t.ref.keys, t.ref.offsets, t.ents)
    && HoldsKids(t.ref.children, t.kids)
  }

  /** Every node below and including `t` agrees, and every child points back at its parent. */
  ghost predicate Body(t: Tree)
    reads t.ref`isLeaf, t.ref`keyCount, t.ref.keys, t.ref.offsets, t.ref.children
    reads KidsFoot(t.kids)
    decreases t
  {
    && Local(t)
    && forall i :: 0 <= i < |t.kids| ==>
        (KidInFoot(t.kids, i); t.kids[i].ref.parent == t.ref && Body(t.kids[i]))
  }

  ghost predicate Rep(t: Tree, p: BtreeNode?)
    reads Foot(t)
  {
    t.ref.parent == p && Body(t)
  }

  ghost predicate KidsRep(ks: seq<Tree>, p: BtreeNode?)
    reads KidsFoot(ks)
  {
    forall i :: 0 <= i < |ks| ==> (KidInFoot(ks, i); Rep(ks[i], p))
  }

  lemma BodyKids(t: Tree)
    ensures Body(t) <==> Local(t) && KidsRep(t.kids, t.ref)
  {
  }

  lemma KidsRepConcat(a: seq<Tree>, b: seq<Tree>, p: BtreeNode?)
    ensures KidsRep(a + b, p) <==> KidsRep(a, p) && KidsRep(b, p)
  {
    hide Body;
    assert forall i :: 0 <= i < |a| ==> (a + b)[i] == a[i];
    assert forall i :: 0 <= i < |b| ==> (a + b)[|a| + i] == b[i];
  }

  lemma KidsRepAt(ks: seq<Tree>, i: nat, p: BtreeNode?)
    requires i < |ks|
    ensures KidsRep(ks, p) <==> KidsRep(ks[..i], p) && Rep(ks[i], p) && KidsRep(ks[i + 1..], p)
  {
    hide Body;
    KidsRepConcat(ks[..i], ks[i..], p);
    KidsRepConcat([ks[i]], ks[i + 1..], p);
    assert ks == ks[..i] + ks[i..] && ks[i..] == [ks[i]] + ks[i + 1..];
  }

  // ---------------------------------------------------------------- shape and order

  /** Occupancy bounds and uniform depth: `lo` is the least key count allowed at the top node. */
  ghost predicate Shaped(t: Tree, h: nat, lo: nat, minKeys: nat, maxKeys: nat)
    decreases h
  {
    && lo <= |t.ents| <= maxKeys
    && if h == 0 then t.leaf && t.kids == []
       else
         && !t.leaf && |t.kids| == |t.ents| + 1
         && forall i :: 0 <= i < |t.kids| ==> Shaped(t.kids[i], h - 1, minKeys, minKeys, maxKeys)
  }

  ghost function InOrder(t: Tree): seq<Entry>
    decreases t, 1
  {
    if t.kids == [] then t.ents
    else if |t.kids| != |t.ents| + 1 then []
    else InOrder(t.kids[0]) + After(t.ents, t.kids[1..])
  }

  /** Separators each followed by the subtree to their right. */
  ghost function After(es: seq<Entry>, ks: seq<Tree>): seq<Entry>
    requires |es| == |ks|
    decreases ks, 0
  {
    if ks == [] then [] else [es[0]] + InOrder(ks[0]) + After(es[1..], ks[1..])
  }

  /** Separators each preceded by the subtree to their left. */
  ghost function Before(es: seq<Entry>, ks: seq<Tree>): seq<Entry>
    requires |es| == |ks|
    decreases ks, 0
  {
    if ks == [] then [] else InOrder(ks[0]) + [es[0]] + Before(es[1..], ks[1..])
  }

  lemma {:induction false} AfterConcat(ea: seq<Entry>, ka: seq<Tree>, eb: seq<Entry>, kb: seq<Tree>)
    requires |ea| == |ka| && |eb| == |kb|
    ensures After(ea + eb, ka + kb) == After(ea, ka) + After(eb, kb)
    decreases |ka|
  {
    if ka == [] {
      assert ea + eb == eb && ka + kb == kb;
    } else {
      AfterConcat(ea[1..], ka[1..], eb, kb);
      assert (ea + eb)[1..] == ea[1..] + eb && (ka + kb)[1..] == ka[1..] + kb;
    }
  }

  lemma {:induction false} BeforeConcat(ea: seq<Entry>, ka: seq<Tree>, eb: seq<Entry>, kb: seq<Tree>)
    requires |ea| == |ka| && |eb| == |kb|
    ensures Before(ea + eb, ka + kb) == Before(ea, ka) + Before(eb, kb)
    decreases |ka|
  {
    if ka == [] {
      assert ea + eb == eb && ka + kb == kb;
    } else {
      BeforeConcat(ea[1..], ka[1..], eb, kb);
      assert (ea + eb)[1..] == ea[1..] + eb && (ka + kb)[1..] == ka[1..] + kb;
    }
  }

  /** The two readings of an alternating run, left-leaning and right-leaning, agree. */
  lemma {:induction false} BeforeIsAfter(es: seq<Entry>, ks: seq<Tree>)
    requires |ks| == |es| + 1
    ensures InOrder(ks[0]) + After(es, ks[1..]) == Before(es, ks[..|es|]) + InOrder(ks[|es|])
    decreases |es|
  {
    if es != [] {
      BeforeIsAfter(es[1..], ks[1..]);
      var rest := Before(es[1..], ks[1..][..|es| - 1]);
      assert ks[..|es|][1..] == ks[1..][..|es| - 1];
      assert Before(es, ks[..|es|]) == InOrder(ks[0]) + [es[0]] + rest;
      assert After(es, ks[1..]) == [es[0]] + (InOrder(ks[1]) + After(es[1..], ks[1..][1..]));
    }
  }

  /** Reading a node around its child `i`. */
  lemma {:induction false} InOrderAt(t: Tree, i: nat)
    requires |t.kids| == |t.ents| + 1 && i <= |t.ents|
    ensures InOrder(t) == Before(t.ents[..i], t.kids[..i]) + InOrder(t.kids[i]) + After(t.ents[i..], t.kids[i + 1..])
  {
    BeforeIsAfter(t.ents[..i], t.kids[..i + 1]);
    AfterConcat(t.ents[..i], t.kids[1..i + 1], t.ents[i..], t.kids[i + 1..]);
    assert t.ents[..i] + t.ents[i..] == t.ents;
    assert t.kids[1..i + 1] + t.kids[i + 1..] == t.kids[1..];
    assert t.kids[..i + 1][1..] == t.kids[1..i + 1];
    assert t.kids[..i + 1][..i] == t.kids[..i];
  }

  /** Reading a node around the separator `i` and its two neighbours. */
  lemma {:induction false} InOrderAround(t: Tree, i: nat)
    requires |t.kids| == |t.ents| + 1 && i < |t.ents|
    ensures InOrder(t) == Before(t.ents[..i], t.kids[..i])
                          + (InOrder(t.kids[i]) + [t.ents[i]] + InOrder(t.kids[i + 1]))
                          + After(t.ents[i + 1..], t.kids[i + 2..])
  {
    InOrderAt(t, i);
    assert t.ents[i..][1..] == t.ents[i + 1..] && t.kids[i + 1..][1..] == t.kids[i + 2..];
    assert t.ents[i..][0] == t.ents[i] && t.kids[i + 1..][0] == t.kids[i + 1];
  }

  lemma InOrderFirst(t: Tree)
    requires |t.kids| == |t.ents| + 1
    ensures InOrder(t) == InOrder(t.kids[0]) + After(t.ents, t.kids[1..])
  {
  }

  lemma InOrderLast(t: Tree)
    requires |t.kids| == |t.ents| + 1
    ensures InOrder(t) == Before(t.ents, t.kids[..|t.ents|]) + InOrder(t.kids[|t.ents|])
  {
    BeforeIsAfter(t.ents, t.kids);
  }

  lemma InOrderLeaf(t: Tree)
    requires t.kids == []
    ensures InOrder(t) == t.ents
  {
  }
}
