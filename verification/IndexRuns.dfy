/** Whole runs on a B-tree index: every insertion, search and safe deletion is one on the map of the index interface. */
module IndexRuns {
  import opened Ordering
  import opened Layout
  import opened NodeOps
  import opened KeyOrder
  import opened KeyRefinement
  import opened SortedMap
  import opened TreeContract
  import opened DeleteTheorem
  import opened BtreeIndex

  datatype IndexOp = Put(key: Key, offset: FileOffset) | Drop(key: Key) | Get(key: Key)

  /** The operation on the map, and what it answers: the offset held before, if any. */
  function OnMap(op: IndexOp, m: map<Key, FileOffset>): map<Key, FileOffset> {
    match op
    case Put(key, offset) => m[key := offset]
    case Drop(key) => m - {key}
    case Get(_) => m
  }

  function Answer(op: IndexOp, m: map<Key, FileOffset>): Option<FileOffset> {
    if op.key in m then Some(m[op.key]) else None
  }

  /** The same on a sorted run, as the methods of the tree perform it. */
  function OnRun(cmp: Comparator, op: IndexOp, s: seq<Entry>): seq<Entry> {
    match op
    case Put(key, offset) => InsertSorted(cmp, s, Entry(key, offset))
    case Drop(key) => RemoveSorted(cmp, s, key)
    case Get(_) => s
  }

  /** Keys are prepared, and nothing is put under a key that is held: what the engine makes sure of. */
  ghost predicate Allowed(parts: seq<KeyPart>, op: IndexOp, m: map<Key, FileOffset>) {
    PreparedKey(parts, op.key) && (op.Put? ==> op.key !in m)
  }

  ghost predicate SortedAndPrepared(parts: seq<KeyPart>, s: seq<Entry>) {
    Sorted(Comparing(parts), s) && AllPrepared(parts, s)
  }

  lemma {:induction false} HeldIffInMap(parts: seq<KeyPart>, s: seq<Entry>, key: Key)
    requires SortedAndPrepared(parts, s) && PreparedKey(parts, key)
    ensures Has(Comparing(parts), s, key) <==> key in AsMap(s)
    ensures Lookup(Comparing(parts), s, key) == if key in AsMap(s) then Some(AsMap(s)[key]) else None
  {
    hide Has, Sorted, Lookup, Comparing, AsMap, PreparedKey;
    CompoundIsTotalPreorder(parts);
    SearchIsMapLookup(parts, s, key);
    LookupIffHas(Comparing(parts), s, key);
  }

  /** One operation: the map of the run follows, and the run stays sorted and prepared. */
  lemma {:induction false} StepRefines(parts: seq<KeyPart>, op: IndexOp, s: seq<Entry>)
    requires SortedAndPrepared(parts, s) && Allowed(parts, op, AsMap(s))
    ensures SortedAndPrepared(parts, OnRun(Comparing(parts), op, s))
    ensures AsMap(OnRun(Comparing(parts), op, s)) == OnMap(op, AsMap(s))
    ensures Lookup(Comparing(parts), s, op.key) == Answer(op, AsMap(s))
  {
    hide Sorted, Comparing, AsMap, PreparedKey, InsertSorted, RemoveSorted, Has, Lookup;
    CompoundIsTotalPreorder(parts);
    HeldIffInMap(parts, s, op.key);
    match op
    case Put(key, offset) =>
      InsertIsMapUpdate(parts, s, Entry(key, offset));
      InsertKeepsSorted(Comparing(parts), s, Entry(key, offset));
      InsertKeepsPrepared(parts, s, Entry(key, offset));
    case Drop(key) =>
      RemoveIsMapRemoval(parts, s, key);
      RemoveKeepsSorted(Comparing(parts), s, key);
      RemoveKeepsPrepared(parts, s, key);
    case Get(_) =>
  }

  lemma InsertKeepsPrepared(parts: seq<KeyPart>, s: seq<Entry>, e: Entry)
    requires AllPrepared(parts, s) && PreparedKey(parts, e.key)
    ensures AllPrepared(parts, InsertSorted(Comparing(parts), s, e))
  {
    hide PreparedKey, LowerBound;
  }

  lemma RemoveKeepsPrepared(parts: seq<KeyPart>, s: seq<Entry>, key: Key)
    requires AllPrepared(parts, s)
    ensures AllPrepared(parts, RemoveSorted(Comparing(parts), s, key))
  {
    hide PreparedKey, LowerBound;
  }

  // ---------------------------------------------------------------- runs

  function RunOnMap(ops: seq<IndexOp>, m: map<Key, FileOffset>): (map<Key, FileOffset>, seq<Option<FileOffset>>) {
    if ops == [] then (m, [])
    else
      var (last, answers) := RunOnMap(ops[1..], OnMap(ops[0], m));
      (last, [Answer(ops[0], m)] + answers)
  }

  function RunOnRun(cmp: Comparator, ops: seq<IndexOp>, s: seq<Entry>): (seq<Entry>, seq<Option<FileOffset>>) {
    if ops == [] then (s, [])
    else
      var (last, answers) := RunOnRun(cmp, ops[1..], OnRun(cmp, ops[0], s));
      (last, [Lookup(cmp, s, ops[0].key)] + answers)
  }

  ghost predicate AllowedRun(parts: seq<KeyPart>, ops: seq<IndexOp>, m: map<Key, FileOffset>) {
    ops != [] ==> Allowed(parts, ops[0], m) && AllowedRun(parts, ops[1..], OnMap(ops[0], m))
  }

  /** Every run: the sorted run and the map go through the same states and give the same answers. */
  lemma {:induction false} RunRefines(parts: seq<KeyPart>, ops: seq<IndexOp>, s: seq<Entry>)
    requires SortedAndPrepared(parts, s) && AllowedRun(parts, ops, AsMap(s))
    ensures SortedAndPrepared(parts, RunOnRun(Comparing(parts), ops, s).0)
    ensures AsMap(RunOnRun(Comparing(parts), ops, s).0) == RunOnMap(ops, AsMap(s)).0
    ensures RunOnRun(Comparing(parts), ops, s).1 == RunOnMap(ops, AsMap(s)).1
    decreases |ops|
  {
    hide SortedAndPrepared, Comparing, AsMap, Allowed, OnRun, OnMap, Lookup, Answer;
    if ops != [] {
      StepRefines(parts, ops[0], s);
      RunRefines(parts, ops[1..], OnRun(Comparing(parts), ops[0], s));
    }
  }

  // ---------------------------------------------------------------- on the tree

  /** One operation on the tree itself; a deletion, on the branches that remove the key and nothing else. */
  method Perform(index: Btree, parts: seq<KeyPart>, op: IndexOp) returns (answer: Option<FileOffset>)
    requires index.Valid() && index.cfg.compare == Comparing(parts)
    requires SortedAndPrepared(parts, index.Contents()) && Allowed(parts, op, AsMap(index.Contents()))
    requires op.Drop? && op.key in AsMap(index.Contents()) ==>
      index.model.Some? && Safe(index.cfg.layout, index.cfg.compare, index.model.value, op.key, index.height)
    modifies index, index.Repr
    ensures index.Valid() && SortedAndPrepared(parts, index.Contents())
    ensures index.Contents() == OnRun(index.cfg.compare, op, old(index.Contents()))
    ensures AsMap(index.Contents()) == OnMap(op, old(AsMap(index.Contents())))
    ensures answer == Answer(op, old(AsMap(index.Contents())))
  {
    hide SortedAndPrepared, AsMap, Comparing, Lookup, InsertSorted, RemoveSorted, Has, PreparedKey, Safe;
    HeldIffInMap(parts, index.Contents(), op.key);
    StepRefines(parts, op, index.Contents());
    HasSomewhere(index.cfg.compare, index.Contents(), op.key);
    assert allocated(index.Repr);
    var found, offset := index.Find(op.key);
    answer := if found then Some(offset) else None;
    match op
    case Put(key, at) => index.Insert(key, at);
    case Drop(key) => var removed := index.Delete(key);
    case Get(_) =>
  }

  lemma HasSomewhere(cmp: Comparator, s: seq<Entry>, key: Key)
    ensures Has(cmp, s, key) ==> s != []
  {
  }
}
