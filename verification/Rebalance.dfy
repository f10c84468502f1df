/** The value side of deletion: lending a pair between siblings, and merging two leaves. */
module Rebalance {
  import opened Ordering
  import opened Trees
  import opened Contexts
  import opened TreeOrder

  /** Two neighbours that are both leaves or both inner nodes. */
  ghost predicate Alike(x: Tree, y: Tree) {
    if x.kids == [] then y.kids == [] && x.leaf && y.leaf else Inner(x) && Inner(y)
  }

  /** An inner node with its separator `k` and the two children around it replaced. */
  ghost function WithPair(p: Tree, k: nat, x: Tree, e: Entry, y: Tree): Tree
    requires Inner(p) && k < |p.ents|
  {
    Tree(p.ref, p.leaf, p.ents[..k] + [e] + p.ents[k + 1..], p.kids[..k] + [x, y] + p.kids[k + 2..])
  }

  ghost function WithOne(p: Tree, k: nat, x: Tree): Tree
    requires Inner(p) && k < |p.ents|
  {
    Tree(p.ref, p.leaf, p.ents[..k] + p.ents[k + 1..], p.kids[..k] + [x] + p.kids[k + 2..])
  }

  /** The left neighbour gives its last pair up; the old separator comes down in front of the child. */
  ghost function StealLeft(p: Tree, k: nat): Tree
    requires Inner(p) && k < |p.ents| && |p.kids[k].ents| > 0
  {
    var left, child := p.kids[k], p.kids[k + 1];
    var n := |left.ents| - 1;
    WithPair(p, k,
      Tree(left.ref, left.leaf, left.ents[..n], if left.kids == [] then [] else left.kids[..|left.kids| - 1]),
      left.ents[n],
      Tree(child.ref, child.leaf, [p.ents[k]] + child.ents, if left.kids == [] then child.kids else [left.kids[|left.kids| - 1]] + child.kids))
  }

  /** The right neighbour gives its first pair up; the old separator comes down behind the child. */
  ghost function StealRight(p: Tree, k: nat): Tree
    requires Inner(p) && k < |p.ents| && |p.kids[k + 1].ents| > 0
  {
    var child, right := p.kids[k], p.kids[k + 1];
    WithPair(p, k,
      Tree(child.ref, child.leaf, child.ents + [p.ents[k]], if right.kids == [] then child.kids else child.kids + [right.kids[0]]),
      right.ents[0],
      Tree(right.ref, right.leaf, right.ents[1..], if right.kids == [] then [] else right.kids[1..]))
  }

  /** Two leaves and the separator between them become one leaf. */
  ghost function MergeLeaves(p: Tree, k: nat): Tree
    requires Inner(p) && k < |p.ents|
  {
    var left, right := p.kids[k], p.kids[k + 1];
    WithOne(p, k, Tree(left.ref, left.leaf, left.ents + [p.ents[k]] + right.ents, left.kids))
  }

  // ---------------------------------------------------------------- conservation of the in-order run

  lemma WithPairInOrder(p: Tree, k: nat, x: Tree, e: Entry, y: Tree)
    requires Inner(p) && k < |p.ents|
    ensures Inner(WithPair(p, k, x, e, y))
    ensures InOrder(WithPair(p, k, x, e, y))
         == Before(p.ents[..k], p.kids[..k]) + (InOrder(x) + [e] + InOrder(y)) + After(p.ents[k + 1..], p.kids[k + 2..])
  {
    var v := WithPair(p, k, x, e, y);
    InOrderAround(v, k);
    assert v.ents[..k] == p.ents[..k] && v.kids[..k] == p.kids[..k];
    assert v.ents[k + 1..] == p.ents[k + 1..] && v.kids[k + 2..] == p.kids[k + 2..];
  }

  lemma WithOneInOrder(p: Tree, k: nat, x: Tree)
    requires Inner(p) && k < |p.ents|
    ensures Inner(WithOne(p, k, x))
    ensures InOrder(WithOne(p, k, x))
         == Before(p.ents[..k], p.kids[..k]) + InOrder(x) + After(p.ents[k + 1..], p.kids[k + 2..])
  {
    var v := WithOne(p, k, x);
    InOrderAt(v, k);
    assert v.ents[..k] == p.ents[..k] && v.kids[..k] == p.kids[..k];
    assert v.ents[k..] == p.ents[k + 1..] && v.kids[k + 1..] == p.kids[k + 2..];
  }

  /** The last pair and the last child of an inner node, read off its run. */
  lemma PeelLast(t: Tree, n: nat)
    requires |t.ents| == n + 1 && (t.kids == [] || Inner(t))
    ensures InOrder(t) == InOrder(Tree(t.ref, t.leaf, t.ents[..n], if t.kids == [] then [] else t.kids[..n + 1]))
                          + [t.ents[n]] + (if t.kids == [] then [] else InOrder(t.kids[n + 1]))
  {
    if t.kids != [] {
      var s := Tree(t.ref, t.leaf, t.ents[..n], t.kids[..n + 1]);
      InOrderAround(t, n);
      InOrderLast(s);
      assert s.kids[..n] == t.kids[..n] && s.kids[n] == t.kids[n];
      assert t.ents[n + 1..] == [] && t.kids[n + 2..] == [];
    }
  }

  /** The first child and the first pair of a node, read off its run. */
  lemma PeelFirst(t: Tree)
    requires |t.ents| > 0 && (t.kids == [] || Inner(t))
    ensures InOrder(t) == (if t.kids == [] then [] else InOrder(t.kids[0])) + [t.ents[0]]
                          + InOrder(Tree(t.ref, t.leaf, t.ents[1..], if t.kids == [] then [] else t.kids[1..]))
  {
    if t.kids != [] {
      var s := Tree(t.ref, t.leaf, t.ents[1..], t.kids[1..]);
      InOrderFirst(t);
      InOrderFirst(s);
      assert After(t.ents, t.kids[1..]) == [t.ents[0]] + InOrder(t.kids[1]) + After(t.ents[1..], t.kids[1..][1..]);
    }
  }

  lemma FiveParts(a: seq<Entry>, e: Entry, m: seq<Entry>, f: Entry, b: seq<Entry>)
    ensures (a + [e] + m) + [f] + b == a + [e] + (m + [f] + b)
  {
  }

  lemma {:induction false} StealLeftConserves(p: Tree, k: nat)
    requires Inner(p) && k < |p.ents| && |p.kids[k].ents| > 0 && Alike(p.kids[k], p.kids[k + 1])
    ensures InOrder(StealLeft(p, k)) == InOrder(p)
  {
    hide InOrder, Before, After;
    var left, child := p.kids[k], p.kids[k + 1];
    var n := |left.ents| - 1;
    var v := StealLeft(p, k);
    assert v == WithPair(p, k, v.kids[k], left.ents[n], v.kids[k + 1]);
    WithPairInOrder(p, k, v.kids[k], left.ents[n], v.kids[k + 1]);
    InOrderAround(p, k);
    PeelLast(left, n);
    PeelFirst(v.kids[k + 1]);
    var moved := if left.kids == [] then [] else InOrder(left.kids[n + 1]);
    assert v.kids[k + 1].ents[1..] == child.ents;
    if left.kids != [] { assert v.kids[k + 1].kids[1..] == child.kids; }
    assert Tree(child.ref, child.leaf, child.ents, child.kids) == child;
    FiveParts(InOrder(v.kids[k]), left.ents[n], moved, p.ents[k], InOrder(child));
  }

  lemma {:induction false} StealRightConserves(p: Tree, k: nat)
    requires Inner(p) && k < |p.ents| && |p.kids[k + 1].ents| > 0 && Alike(p.kids[k], p.kids[k + 1])
    ensures InOrder(StealRight(p, k)) == InOrder(p)
  {
    hide InOrder, Before, After;
    var child, right := p.kids[k], p.kids[k + 1];
    var v := StealRight(p, k);
    var grown := v.kids[k];
    WithPairInOrder(p, k, grown, right.ents[0], v.kids[k + 1]);
    InOrderAround(p, k);
    PeelFirst(right);
    PeelLast(grown, |child.ents|);
    var moved := if right.kids == [] then [] else InOrder(right.kids[0]);
    assert grown.ents[..|child.ents|] == child.ents;
    if right.kids != [] { assert grown.kids[..|child.ents| + 1] == child.kids; }
    assert Tree(child.ref, child.leaf, child.ents, child.kids) == child;
    FiveParts(InOrder(child), p.ents[k], moved, right.ents[0], InOrder(v.kids[k + 1]));
  }

  lemma {:induction false} MergeLeavesConserves(p: Tree, k: nat)
    requires Inner(p) && k < |p.ents| && p.kids[k].kids == [] && p.kids[k + 1].kids == []
    ensures InOrder(MergeLeaves(p, k)) == InOrder(p)
  {
    var left, right := p.kids[k], p.kids[k + 1];
    var x := Tree(left.ref, left.leaf, left.ents + [p.ents[k]] + right.ents, left.kids);
    WithOneInOrder(p, k, x);
    InOrderAround(p, k);
    hide Before, After;
  }

  // ---------------------------------------------------------------- conservation of storage

  lemma WithPairSep(p: Tree, k: nat, x: Tree, e: Entry, y: Tree)
    requires Inner(p) && k < |p.ents| && Sep(p)
    requires Sep(x) && Sep(y) && Foot(x) !! Foot(y) && Foot(x) + Foot(y) <= Foot(p.kids[k]) + Foot(p.kids[k + 1])
    ensures Sep(WithPair(p, k, x, e, y)) && Foot(WithPair(p, k, x, e, y)) <= Foot(p)
  {
    PairOut(p, k);
    PairIn(p.kids[..k], x, y, p.kids[k + 2..]);
    hide Own;
  }

  lemma PairIn(a: seq<Tree>, x: Tree, y: Tree, b: seq<Tree>)
    ensures KidsFoot(a + [x, y] + b) == KidsFoot(a) + Foot(x) + Foot(y) + KidsFoot(b)
    ensures SepKids(a + [x, y] + b) <==>
      && SepKids(a) && Sep(x) && Sep(y) && SepKids(b)
      && KidsFoot(a) !! Foot(x) && KidsFoot(a) !! Foot(y) && KidsFoot(a) !! KidsFoot(b)
      && Foot(x) !! Foot(y) && Foot(x) !! KidsFoot(b) && Foot(y) !! KidsFoot(b)
  {
    var ks := a + [x, y] + b;
    var i := |a|;
    assert ks[..i] == a && ks[i] == x && ks[i + 1..] == [y] + b;
    assert ([y] + b)[1..] == b;
    SepKidsAt(ks, i);
    KidsFootAt(ks, i);
  }

  lemma OneIn(a: seq<Tree>, x: Tree, b: seq<Tree>)
    ensures KidsFoot(a + [x] + b) == KidsFoot(a) + Foot(x) + KidsFoot(b)
    ensures SepKids(a + [x] + b) <==>
      && SepKids(a) && Sep(x) && SepKids(b)
      && KidsFoot(a) !! Foot(x) && KidsFoot(a) !! KidsFoot(b) && Foot(x) !! KidsFoot(b)
  {
    var ks := a + [x] + b;
    assert ks[..|a|] == a && ks[|a| + 1..] == b;
    SepKidsAt(ks, |a|);
    KidsFootAt(ks, |a|);
  }

  lemma PairOut(p: Tree, k: nat)
    requires Inner(p) && k < |p.ents| && Sep(p)
    ensures var a, x, y, b := p.kids[..k], p.kids[k], p.kids[k + 1], p.kids[k + 2..];
      && SepKids(a) && Sep(x) && Sep(y) && SepKids(b)
      && KidsFoot(a) !! Foot(x) && KidsFoot(a) !! Foot(y) && KidsFoot(a) !! KidsFoot(b)
      && Foot(x) !! Foot(y) && Foot(x) !! KidsFoot(b) && Foot(y) !! KidsFoot(b)
      && KidsFoot(p.kids) == KidsFoot(a) + Foot(x) + Foot(y) + KidsFoot(b)
  {
    PairIn(p.kids[..k], p.kids[k], p.kids[k + 1], p.kids[k + 2..]);
    assert p.kids == p.kids[..k] + [p.kids[k], p.kids[k + 1]] + p.kids[k + 2..];
  }

  lemma WithOneSep(p: Tree, k: nat, x: Tree)
    requires Inner(p) && k < |p.ents| && Sep(p)
    requires Sep(x) && Foot(x) <= Foot(p.kids[k]) + Foot(p.kids[k + 1])
    ensures Sep(WithOne(p, k, x)) && Foot(WithOne(p, k, x)) <= Foot(p)
  {
    PairOut(p, k);
    OneIn(p.kids[..k], x, p.kids[k + 2..]);
    hide Own;
  }

  lemma NoKids()
    ensures KidsFoot([]) == {} && SepKids([])
  {
  }

  /** A child moved from the end of one run of siblings to the front of the next. */
  lemma MoveLastKid(a: seq<Tree>, b: seq<Tree>)
    requires a != [] && SepKids(a) && SepKids(b) && KidsFoot(a) !! KidsFoot(b)
    ensures var m := |a| - 1;
      && SepKids(a[..m]) && SepKids([a[m]] + b) && KidsFoot(a[..m]) !! KidsFoot([a[m]] + b)
      && KidsFoot(a[..m]) + KidsFoot([a[m]] + b) == KidsFoot(a) + KidsFoot(b)
  {
    hide KidsFoot, SepKids, Sep, Foot;
    var m := |a| - 1;
    NoKids();
    OneIn(a[..m], a[m], []);
    assert a == a[..m] + [a[m]] + [];
    OneIn([], a[m], b);
    assert [] + [a[m]] + b == [a[m]] + b;
  }

  /** A child moved from the front of one run of siblings to the end of the one before. */
  lemma MoveFirstKid(a: seq<Tree>, b: seq<Tree>)
    requires b != [] && SepKids(a) && SepKids(b) && KidsFoot(a) !! KidsFoot(b)
    ensures SepKids(a + [b[0]]) && SepKids(b[1..]) && KidsFoot(a + [b[0]]) !! KidsFoot(b[1..])
    ensures KidsFoot(a + [b[0]]) + KidsFoot(b[1..]) == KidsFoot(a) + KidsFoot(b)
  {
    hide KidsFoot, SepKids, Sep, Foot;
    NoKids();
    OneIn([], b[0], b[1..]);
    assert b == [] + [b[0]] + b[1..];
    OneIn(a, b[0], []);
    assert a + [b[0]] + [] == a + [b[0]];
  }

  /** Two nodes that share their children out anew stay apart. */
  lemma Reshared(x: Tree, y: Tree, x2: Tree, y2: Tree)
    requires Sep(x) && Sep(y) && Foot(x) !! Foot(y) && x2.ref == x.ref && y2.ref == y.ref
    requires SepKids(x2.kids) && SepKids(y2.kids) && KidsFoot(x2.kids) !! KidsFoot(y2.kids)
    requires KidsFoot(x2.kids) + KidsFoot(y2.kids) == KidsFoot(x.kids) + KidsFoot(y.kids)
    ensures Sep(x2) && Sep(y2) && Foot(x2) !! Foot(y2) && Foot(x2) + Foot(y2) == Foot(x) + Foot(y)
  {
    hide Own, KidsFoot, SepKids;
  }

  lemma {:induction false} StealLeftSep(p: Tree, k: nat)
    requires Inner(p) && k < |p.ents| && |p.kids[k].ents| > 0 && Alike(p.kids[k], p.kids[k + 1]) && Sep(p)
    ensures Sep(StealLeft(p, k)) && Foot(StealLeft(p, k)) <= Foot(p)
  {
    hide Own, KidsFoot, SepKids, Sep, Foot;
    var left, child := p.kids[k], p.kids[k + 1];
    var v := StealLeft(p, k);
    PairOut(p, k);
    SepParts(left, child);
    if left.kids != [] { MoveLastKid(left.kids, child.kids); }
    Reshared(left, child, v.kids[k], v.kids[k + 1]);
    WithPairSep(p, k, v.kids[k], left.ents[|left.ents| - 1], v.kids[k + 1]);
  }

  lemma SepParts(x: Tree, y: Tree)
    requires Sep(x) && Sep(y) && Foot(x) !! Foot(y)
    ensures SepKids(x.kids) && SepKids(y.kids) && KidsFoot(x.kids) !! KidsFoot(y.kids)
  {
  }

  lemma {:induction false} StealRightSep(p: Tree, k: nat)
    requires Inner(p) && k < |p.ents| && |p.kids[k + 1].ents| > 0 && Alike(p.kids[k], p.kids[k + 1]) && Sep(p)
    ensures Sep(StealRight(p, k)) && Foot(StealRight(p, k)) <= Foot(p)
  {
    hide Own, KidsFoot, SepKids, Sep, Foot;
    var child, right := p.kids[k], p.kids[k + 1];
    var v := StealRight(p, k);
    PairOut(p, k);
    SepParts(child, right);
    if right.kids != [] { MoveFirstKid(child.kids, right.kids); }
    Reshared(child, right, v.kids[k], v.kids[k + 1]);
    WithPairSep(p, k, v.kids[k], right.ents[0], v.kids[k + 1]);
  }

  lemma {:induction false} MergeLeavesSep(p: Tree, k: nat)
    requires Inner(p) && k < |p.ents| && Alike(p.kids[k], p.kids[k + 1]) && Sep(p)
    ensures Sep(MergeLeaves(p, k)) && Foot(MergeLeaves(p, k)) <= Foot(p)
  {
    var left, right := p.kids[k], p.kids[k + 1];
    PairOut(p, k);
    hide Own;
    WithOneSep(p, k, Tree(left.ref, left.leaf, left.ents + [p.ents[k]] + right.ents, left.kids));
  }
}
