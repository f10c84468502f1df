/** btree_search: the in-memory lookup. */
module Searching {
  import opened Ordering
  import opened Layout
  import opened Trees
  import opened Contexts
  import opened NodeOps
  import opened TreeOrder

  /** The lookup in the whole tree is the lookup below `t`. */
  ghost predicate Reached(cfg: Config, goal: Option<FileOffset>, key: Key, t: Tree, h: nat) {
    && TotalPreorder(cfg.compare)
    && Shaped(t, h, 0, 0, cfg.layout.maxKeys) && Sized(t, cfg.layout.maxKeys)
    && Sorted(cfg.compare, InOrder(t))
    && Lookup(cfg.compare, InOrder(t), key) == goal
  }

  lemma {:induction false} LooselyShaped(t: Tree, h: nat, lo: nat, minKeys: nat, maxKeys: nat)
    requires Shaped(t, h, lo, minKeys, maxKeys)
    ensures Shaped(t, h, 0, 0, maxKeys)
    decreases h
  {
    forall i | 0 <= i < |t.kids|
      ensures h > 0 ==> Shaped(t.kids[i], h - 1, 0, 0, maxKeys)
    {
      if h > 0 { LooselyShaped(t.kids[i], h - 1, minKeys, minKeys, maxKeys); }
    }
  }

  lemma KidSorted(cmp: Comparator, t: Tree, i: nat)
    requires Inner(t) && i < |t.kids| && Sorted(cmp, InOrder(t))
    ensures Sorted(cmp, InOrder(t.kids[i]))
  {
    InOrderAt(t, i);
    var b, m, a := Before(t.ents[..i], t.kids[..i]), InOrder(t.kids[i]), After(t.ents[i..], t.kids[i + 1..]);
    SortedConcat(cmp, b + m, a);
    SortedConcat(cmp, b, m);
  }

  lemma ReachFurther(cfg: Config, goal: Option<FileOffset>, key: Key, t: Tree, h: nat)
    requires Reached(cfg, goal, key, t, h)
    ensures t.leaf <==> h == 0
    ensures FoundAt(cfg.compare, t.ents, key) ==> goal == Some(t.ents[LowerBound(cfg.compare, t.ents, key)].offset)
    ensures !FoundAt(cfg.compare, t.ents, key) && t.leaf ==> goal == None
    ensures h > 0 ==> |t.kids| == |t.ents| + 1
    ensures !FoundAt(cfg.compare, t.ents, key) && h > 0 ==>
      Reached(cfg, goal, key, t.kids[LowerBound(cfg.compare, t.ents, key)], h - 1)
  {
    hide LowerBound;
    if h > 0 {
      LookupStep(cfg.compare, t, key);
      KidSorted(cfg.compare, t, LowerBound(cfg.compare, t.ents, key));
    } else {
      InOrderLeaf(t);
    }
  }

  lemma ReachBounds(cfg: Config, goal: Option<FileOffset>, key: Key, t: Tree, h: nat)
    requires Reached(cfg, goal, key, t, h)
    ensures |t.ents| <= cfg.layout.maxKeys && Buffers(t.ref, cfg.layout.maxKeys)
  {
  }

  lemma BodyKid(t: Tree, i: nat)
    requires Body(t) && i < |t.kids|
    ensures Body(t.kids[i]) && t.ref.children.Length > i && t.ref.children[i] == t.kids[i].ref
  {
  }

  method Search(cfg: Config, root: BtreeNode, key: Key, ghost model: Tree, ghost height: nat)
    returns (found: bool, offset: FileOffset)
    requires Reached(cfg, Lookup(cfg.compare, InOrder(model), key), key, model, height)
    requires model.ref == root && Body(model)
    ensures Lookup(cfg.compare, InOrder(model), key) == if found then Some(offset) else None
  {
    hide Reached, LowerBound, Lookup, InOrder;
    ghost var goal := Lookup(cfg.compare, InOrder(model), key);
    ghost var t, h := model, height;
    var node := root;
    offset := 0;
    while true
      invariant Reached(cfg, goal, key, t, h) && t.ref == node && Body(t)
      decreases h
    {
      ReachFurther(cfg, goal, key, t, h);
      ReachBounds(cfg, goal, key, t, h);
      assert allocated(KidsFoot(t.kids));
      var c, hit := NodeKeyPosition(cfg.compare, node, key, t.ents);
      if hit {
        return true, node.offsets[c];
      }
      var next := node.children[c];
      if node.isLeaf {
        return false, 0;
      }
      BodyKid(t, c);
      t, h := t.kids[c], h - 1;
      node := next;
    }
  }
}
