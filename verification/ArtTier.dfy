/** The hot index tier: a trie with an entry count, over runs of inserts and drains. */
module ArtTier {
  import opened Bytes
  import opened Art

  // ---- Leaves ----

  ghost function Leaves(node: ArtNode): set<Entry> {
    match node
    case Leaf(e) => {e}
    case Inner(_, children) => set b, e | b in children && e in Leaves(children[b]) :: e
  }

  /** Lookups find exactly the leaves, so no two leaves have the same key. */
  lemma {:induction false} GetIsLeaf(node: ArtNode, path: Text, e: Entry)
    requires Wf(node, path)
    ensures e in Leaves(node) <==> path <= e.key && Get(node, e.key, e.key[|path|..]) == Some((e.value, e.txid))
    decreases node
  {
    match node
    case Leaf(_) =>
    case Inner(prefix, children) =>
      forall b | b in children
        ensures e in Leaves(children[b]) <==>
          path <= e.key && prefix < e.key[|path|..] && Next(e.key[|path|..], prefix) == b
          && Get(children[b], e.key, Beyond(e.key[|path|..], prefix)) == Some((e.value, e.txid))
      {
        GetIsLeaf(children[b], path + prefix + [b], e);
      }
  }

  // ---- The index ----

  datatype Index = Index(root: Option<ArtNode>, count: nat, bytes: nat)
  datatype Op = Put(entry: Entry) | Drain

  const EMPTY: Index := Index(None, 0, 0)

  predicate Valid(root: Option<ArtNode>) { root.Some? ==> Wf(root.value, []) }

  ghost function AllLeaves(root: Option<ArtNode>): set<Entry> {
    if root.Some? then Leaves(root.value) else {}
  }

  function Find(root: Option<ArtNode>, key: Text): Found {
    if root.Some? then Get(root.value, key, key) else None
  }

  function Meeting(root: Option<ArtNode>, key: Text): Outcome {
    if root.Some? then Meets(root.value, key, key) else Added
  }

  function PutRoot(root: Option<ArtNode>, e: Entry): (r: (Option<ArtNode>, bool))
    requires Valid(root)
  {
    if root.None? then (Some(Leaf(e)), true)
    else
      assert e.key == [] + e.key;
      var r := Insert(root.value, e, [], e.key);
      (Some(r.0), r.1)
  }

  function Apply(s: Index, op: Op): Index
    requires Valid(s.root)
  {
    match op
    case Drain => EMPTY
    case Put(e) =>
      var r := PutRoot(s.root, e);
      if r.1 then Index(r.0, s.count + 1, s.bytes + |e.key| + |e.value| + 16) else Index(r.0, s.count, s.bytes)
  }

  /** The insert of `e` reports a new key, yet an entry is lost: one of two keys begins with
      the other. */
  predicate Loses(root: Option<ArtNode>, key: Text) {
    Meeting(root, key).Split? && !Apart(Meeting(root, key).existing, key)
  }

  lemma PutKeeps(root: Option<ArtNode>, e: Entry, q: Text)
    requires Valid(root)
    ensures Valid(PutRoot(root, e).0)
    ensures Find(PutRoot(root, e).0, q) == Expected(Meeting(root, e.key), e, q, Find(root, q))
    ensures PutRoot(root, e).1 == (Meeting(root, e.key).Split? || Meeting(root, e.key).Added?)
  {
    if root.Some? {
      assert e.key == [] + e.key && q == [] + q;
      InsertWf(root.value, e, [], e.key);
      InsertGet(root.value, e, [], e.key, q);
    }
  }

  lemma FindIsLeaf(root: Option<ArtNode>, e: Entry)
    requires Valid(root)
    ensures e in AllLeaves(root) <==> Find(root, e.key) == Some((e.value, e.txid))
  {
    if root.Some? { GetIsLeaf(root.value, [], e); }
  }

  lemma MeetingFound(root: Option<ArtNode>, key: Text)
    requires Valid(root)
    ensures Meeting(root, key).Updated? <==> Find(root, key).Some?
    ensures var o := Meeting(root, key); o.Split? ==> o.existing != key && Find(root, o.existing).Some?
  {
    if root.Some? {
      assert key == [] + key;
      MeetsBelow(root.value, key, [], key);
    }
  }

  /** An insert is a map update exactly when nothing blocks it and it parts from the leaf it
      meets. */
  lemma PutRefinesMap(root: Option<ArtNode>, e: Entry)
    requires Valid(root)
    ensures TakesEffect(Meeting(root, e.key), e.key)
       <==> forall q :: Find(PutRoot(root, e).0, q) == if q == e.key then Some((e.value, e.txid)) else Find(root, q)
  {
    var o := Meeting(root, e.key);
    MeetingFound(root, e.key);
    if TakesEffect(o, e.key) {
      forall q ensures Find(PutRoot(root, e).0, q) == if q == e.key then Some((e.value, e.txid)) else Find(root, q) {
        PutKeeps(root, e, q);
      }
    } else {
      var q := if o.Split? && o.existing <= e.key then o.existing else e.key;
      PutKeeps(root, e, q);
      assert Find(PutRoot(root, e).0, q) != if q == e.key then Some((e.value, e.txid)) else Find(root, q);
    }
  }

  /** A blocked insert changes no lookup. */
  lemma BlockedChangesNothing(root: Option<ArtNode>, e: Entry, q: Text)
    requires Valid(root) && Meeting(root, e.key).Blocked?
    ensures !PutRoot(root, e).1 && Find(PutRoot(root, e).0, q) == Find(root, q) && Find(root, e.key).None?
  {
    PutKeeps(root, e, q);
    MeetingFound(root, e.key);
  }

  /** One entry after an insert of `e` that met `o`. */
  predicate Stays(o: Outcome, e: Entry, x: Entry) {
    match o
    case Blocked => true
    case Added => true
    case Updated => x.key != e.key
    case Split(k) => !(x.key == k && k <= e.key)
  }

  predicate Arrives(o: Outcome, e: Entry) { o.Added? || o.Updated? || (o.Split? && !(e.key <= o.existing)) }

  lemma LeafAfterPut(root: Option<ArtNode>, e: Entry, x: Entry)
    requires Valid(root)
    ensures Valid(PutRoot(root, e).0)
    ensures var o := Meeting(root, e.key);
      x in AllLeaves(PutRoot(root, e).0) <==> (x in AllLeaves(root) && Stays(o, e, x)) || (x == e && Arrives(o, e))
  {
    PutKeeps(root, e, x.key);
    MeetingFound(root, e.key);
    FindIsLeaf(root, x);
    FindIsLeaf(PutRoot(root, e).0, x);
  }

  /** Replacing at most one element of a set. */
  lemma CardAfter(a: set<Entry>, b: set<Entry>, gone: set<Entry>, come: set<Entry>)
    requires gone <= a && come !! (a - gone) && |gone| <= 1 && |come| <= 1
    requires forall x :: x in b <==> (x in a && x !in gone) || x in come
    ensures |b| == |a| - |gone| + |come|
  {
    assert b == (a - gone) + come;
  }

  function Entries(root: Option<ArtNode>, key: Text): (r: set<Entry>)
    ensures |r| <= 1
  {
    match Find(root, key)
    case None => {}
    case Some(v) => {Entry(key, v.0, v.1)}
  }

  lemma EntriesAreLeaves(root: Option<ArtNode>, key: Text)
    requires Valid(root)
    ensures Entries(root, key) <= AllLeaves(root)
    ensures forall x :: x in AllLeaves(root) && x.key == key ==> x in Entries(root, key)
  {
    forall x: Entry | x.key == key && (x in AllLeaves(root) || x in Entries(root, key))
      ensures x in Entries(root, key) && x in AllLeaves(root)
    {
      FindIsLeaf(root, x);
    }
  }

  /** How many leaves an insert leaves behind. */
  lemma PutLeaves(root: Option<ArtNode>, e: Entry)
    requires Valid(root)
    ensures Valid(PutRoot(root, e).0)
    ensures |AllLeaves(PutRoot(root, e).0)|
         == |AllLeaves(root)| + if PutRoot(root, e).1 && !Loses(root, e.key) then 1 else 0
    ensures forall x :: x in AllLeaves(PutRoot(root, e).0) ==> x == e || x in AllLeaves(root)
  {
    var o, after := Meeting(root, e.key), PutRoot(root, e).0;
    PutKeeps(root, e, e.key);
    MeetingFound(root, e.key);
    var lost := if o.Updated? then e.key else if o.Split? then o.existing else e.key;
    EntriesAreLeaves(root, lost);
    EntriesAreLeaves(root, e.key);
    var gone := if o.Updated? || (o.Split? && lost <= e.key) then Entries(root, lost) else {};
    var come := if Arrives(o, e) then {e} else {};
    forall x ensures x in AllLeaves(after) <==> (x in AllLeaves(root) && x !in gone) || x in come {
      LeafAfterPut(root, e, x);
    }
    CardAfter(AllLeaves(root), AllLeaves(after), gone, come);
  }

  // ---- Runs ----

  ghost function Run(s: Index, ops: seq<Op>): (r: Index)
    requires Valid(s.root)
    ensures Valid(r.root)
    decreases |ops|
  {
    if |ops| == 0 then s
    else
      Steady(s, ops[0]);
      Run(Apply(s, ops[0]), ops[1..])
  }

  lemma Steady(s: Index, op: Op)
    requires Valid(s.root)
    ensures Valid(Apply(s, op).root)
  {
    if op.Put? { PutKeeps(s.root, op.entry, []); }
  }

  /** The lossy inserts of a run since its last drain, on top of `sofar`. */
  ghost function Losses(s: Index, ops: seq<Op>, sofar: nat): nat
    requires Valid(s.root)
    decreases |ops|
  {
    if |ops| == 0 then sofar
    else
      Steady(s, ops[0]);
      var now := if ops[0].Drain? then 0 else if Loses(s.root, ops[0].entry.key) then sofar + 1 else sofar;
      Losses(Apply(s, ops[0]), ops[1..], now)
  }

  /** The count is the number of leaves plus the lossy inserts since the last drain. */
  lemma {:induction false} CountDrift(s: Index, ops: seq<Op>, sofar: nat)
    requires Valid(s.root) && s.count == |AllLeaves(s.root)| + sofar
    ensures Run(s, ops).count == |AllLeaves(Run(s, ops).root)| + Losses(s, ops, sofar)
    decreases |ops|
  {
    if |ops| > 0 {
      Steady(s, ops[0]);
      if ops[0].Put? {
        PutLeaves(s.root, ops[0].entry);
        PutKeeps(s.root, ops[0].entry, []);
        var now := if Loses(s.root, ops[0].entry.key) then sofar + 1 else sofar;
        CountDrift(Apply(s, ops[0]), ops[1..], now);
      } else {
        CountDrift(EMPTY, ops[1..], 0);
      }
    }
  }

  /** So from an empty index the count is right exactly when no insert was lossy. */
  lemma CountIsLeaves(ops: seq<Op>)
    ensures Run(EMPTY, ops).count == |AllLeaves(Run(EMPTY, ops).root)| <==> Losses(EMPTY, ops, 0) == 0
  {
    CountDrift(EMPTY, ops, 0);
  }

  /** No key that is put begins with another one. */
  ghost predicate KeysApart(keys: set<Text>) { forall a, b :: a in keys && b in keys && a != b ==> Apart(a, b) }

  ghost predicate PutsIn(ops: seq<Op>, keys: set<Text>) {
    forall i :: 0 <= i < |ops| && ops[i].Put? ==> ops[i].entry.key in keys
  }

  ghost predicate Holds(root: Option<ArtNode>, keys: set<Text>) {
    Valid(root) && forall x :: x in AllLeaves(root) ==> x.key in keys
  }

  lemma EqualLengthsApart(keys: set<Text>, n: nat)
    requires forall k :: k in keys ==> |k| == n
    ensures KeysApart(keys)
  {}

  /** Over such keys an insert either sets its own key alone or changes nothing. */
  lemma ApartPut(root: Option<ArtNode>, e: Entry, keys: set<Text>)
    requires Holds(root, keys) && KeysApart(keys) && e.key in keys
    ensures !Loses(root, e.key) && Holds(PutRoot(root, e).0, keys)
    ensures (forall q :: Find(PutRoot(root, e).0, q) == if q == e.key then Some((e.value, e.txid)) else Find(root, q))
         || (forall q :: Find(PutRoot(root, e).0, q) == Find(root, q))
  {
    var o := Meeting(root, e.key);
    MeetingFound(root, e.key);
    PutLeaves(root, e);
    if o.Split? {
      var was := Find(root, o.existing).value;
      FindIsLeaf(root, Entry(o.existing, was.0, was.1));
      assert Apart(o.existing, e.key);
    }
    PutRefinesMap(root, e);
    if o.Blocked? {
      forall q ensures Find(PutRoot(root, e).0, q) == Find(root, q) { BlockedChangesNothing(root, e, q); }
    }
  }

  lemma {:induction false} ApartRun(s: Index, ops: seq<Op>, keys: set<Text>)
    requires Holds(s.root, keys) && KeysApart(keys) && PutsIn(ops, keys)
    ensures Losses(s, ops, 0) == 0 && Holds(Run(s, ops).root, keys)
    decreases |ops|
  {
    if |ops| > 0 {
      Steady(s, ops[0]);
      if ops[0].Put? { ApartPut(s.root, ops[0].entry, keys); }
      ApartRun(Apply(s, ops[0]), ops[1..], keys);
    }
  }

  // ---- What goes wrong ----

  /** Storing a key and then one that begins with it forgets the first, and the count says two. */
  lemma PrefixKeyForgotten(a: Text, b: Text, v: Text, t: u64)
    requires a <= b && a != b
    ensures var ops := [Put(Entry(a, v, t)), Put(Entry(b, v, t))];
      Find(Run(EMPTY, ops).root, a).None? && Run(EMPTY, ops).count == 2 && |AllLeaves(Run(EMPTY, ops).root)| == 1
  {
    var x, y := Entry(a, v, t), Entry(b, v, t);
    var ops := [Put(x), Put(y)];
    var one := Apply(EMPTY, ops[0]);
    assert ops[1..] == [Put(y)] && [Put(y)][1..] == [];
    assert one.root == Some(Leaf(x)) && Meeting(one.root, y.key) == Split(x.key);
    PutKeeps(one.root, y, x.key);
    PutLeaves(one.root, y);
    assert AllLeaves(one.root) == {x};
    var two := Apply(one, Put(y));
    assert Run(one, [Put(y)]) == Run(two, []) == two;
    assert Run(EMPTY, ops) == Run(one, ops[1..]);
  }

  // ---- When the count is right ----

  /** Over keys none of which begins with another, the count is the number of leaves after
      every run of inserts and drains. */
  lemma ApartCount(ops: seq<Op>, keys: set<Text>)
    requires KeysApart(keys) && PutsIn(ops, keys)
    ensures Run(EMPTY, ops).count == |AllLeaves(Run(EMPTY, ops).root)|
  {
    ApartRun(EMPTY, ops, keys);
    CountIsLeaves(ops);
  }

  /** The count is right after every run that puts only some keys. */
  ghost predicate CountsRight(keys: set<Text>) {
    forall ops :: PutsIn(ops, keys) ==> Run(EMPTY, ops).count == |AllLeaves(Run(EMPTY, ops).root)|
  }

  /** That holds if and only if none of the keys begins with another. */
  lemma CountsRightExactly(keys: set<Text>)
    ensures CountsRight(keys) <==> KeysApart(keys)
  {
    if KeysApart(keys) {
      forall ops | PutsIn(ops, keys) ensures Run(EMPTY, ops).count == |AllLeaves(Run(EMPTY, ops).root)| {
        ApartCount(ops, keys);
      }
    } else {
      var a, b :| a in keys && b in keys && a != b && !Apart(a, b);
      var x, y := if a <= b then a else b, if a <= b then b else a;
      PrefixKeyForgotten(x, y, [], 0);
      assert PutsIn([Put(Entry(x, [], 0)), Put(Entry(y, [], 0))], keys);
    }
  }

  // ---- The index as it runs ----

  ghost function LeavesOf(children: map<byte, ArtNode>, done: set<byte>): set<Entry> {
    set b, e | b in children && b in done && e in Leaves(children[b]) :: e
  }

  lemma ChildLeaf(node: ArtNode, path: Text, b: byte, e: Entry)
    requires node.Inner? && Wf(node, path) && b in node.children && e in Leaves(node.children[b])
    ensures var end := |path + node.prefix|; end < |e.key| && e.key[end] == b
  {
    var start := path + node.prefix;
    GetIsLeaf(node.children[b], start + [b], e);
    assert e.key[|start|] == (start + [b])[|start|];
  }

  lemma LeavesOfStep(node: ArtNode, path: Text, done: set<byte>, b: byte)
    requires node.Inner? && Wf(node, path) && b in node.children && b !in done
    ensures LeavesOf(node.children, done + {b}) == LeavesOf(node.children, done) + Leaves(node.children[b])
    ensures LeavesOf(node.children, done) !! Leaves(node.children[b])
  {
    forall c, e | c in node.children && c in done && e in Leaves(node.children[c]) ensures e !in Leaves(node.children[b]) {
      ChildLeaf(node, path, c, e);
      if e in Leaves(node.children[b]) { ChildLeaf(node, path, b, e); }
    }
  }

  lemma LeavesOfAll(node: ArtNode)
    requires node.Inner?
    ensures LeavesOf(node.children, node.children.Keys) == Leaves(node)
    ensures LeavesOf(node.children, {}) == {}
  {}

  /** `out` has each of the entries once. */
  ghost predicate Lists(out: seq<Entry>, entries: set<Entry>) {
    (set e | e in out) == entries && |out| == |entries|
  }

  lemma CollectStep(node: ArtNode, path: Text, done: set<byte>, b: byte, out: seq<Entry>, more: seq<Entry>)
    requires node.Inner? && Wf(node, path) && b in node.children && b !in done
    requires Lists(out, LeavesOf(node.children, done)) && Lists(more, Leaves(node.children[b]))
    ensures Lists(out + more, LeavesOf(node.children, done + {b}))
  {
    LeavesOfStep(node, path, done, b);
    assert (set e | e in out + more) == (set e | e in out) + (set e | e in more);
  }

  /** `collect_all`: the children are visited in any order. */
  method CollectAll(node: ArtNode, ghost path: Text) returns (out: seq<Entry>)
    requires Wf(node, path)
    ensures Lists(out, Leaves(node))
    decreases node
  {
    if node.Leaf? {
      return [node.entry];
    }
    out := [];
    var todo := node.children.Keys;
    ghost var done: set<byte> := {};
    LeavesOfAll(node);
    while todo != {}
      invariant done + todo == node.children.Keys && done !! todo
      invariant Lists(out, LeavesOf(node.children, done))
      decreases |todo|
    {
      var b :| b in todo;
      var more := CollectAll(node.children[b], path + node.prefix + [b]);
      CollectStep(node, path, done, b, out, more);
      out := out + more;
      done, todo := done + {b}, todo - {b};
    }
    assert done == node.children.Keys;
  }

  class ArtIndex {
    var root: Option<ArtNode>
    var byteSize: nat
    var count: nat
    const maxSize: nat

    constructor (maxSize: nat)
      ensures State() == EMPTY && this.maxSize == maxSize
    {
      root, byteSize, count := None, 0, 0;
      this.maxSize := maxSize;
    }

    function State(): Index
      reads this
    {
      Index(root, count, byteSize)
    }

    method Insert(e: Entry) returns (added: bool)
      requires Valid(root)
      modifies this`root, this`byteSize, this`count
      ensures State() == Apply(old(State()), Put(e)) && Valid(root)
      ensures added == PutRoot(old(root), e).1
      ensures count == old(count) + (if added then 1 else 0)
      ensures byteSize == old(byteSize) + (if added then |e.key| + |e.value| + 16 else 0)
    {
      Steady(State(), Put(e));
      var delta := |e.key| + |e.value| + 16;
      if root.None? {
        root := Some(Leaf(e));
        added := true;
      } else {
        assert e.key == [] + e.key;
        var r := Art.Insert(root.value, e, [], e.key);
        root := Some(r.0);
        added := r.1;
      }
      if added {
        byteSize := byteSize + delta;
        count := count + 1;
      }
    }

    method Lookup(key: Text) returns (r: Found)
      ensures r == Find(root, key)
    {
      if root.None? { return None; }
      return Get(root.value, key, key);
    }

    method ScanAll() returns (out: seq<Entry>)
      requires Valid(root)
      ensures Lists(out, AllLeaves(root))
    {
      out := [];
      if root.Some? { out := CollectAll(root.value, []); }
    }

    method DrainAll() returns (out: seq<Entry>)
      requires Valid(root)
      modifies this`root, this`byteSize, this`count
      ensures State() == Apply(old(State()), Drain)
      ensures Lists(out, AllLeaves(old(root)))
    {
      out := ScanAll();
      root, byteSize, count := None, 0, 0;
    }
  }
}
