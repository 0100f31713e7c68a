/** Savepoints: the undo log of one transaction, as a class, and what rolling back restores,
    over every run of writes, savepoints, rollbacks and releases. */
module Savepoints {
  import opened Bytes

  const MAX_DEPTH: nat := 16

  /** What a key held before the transaction wrote it. */
  datatype Original = Existing(value: Text) | New
  /** key -> (original value, collection). The key is the document id alone. */
  type Log = map<Text, (Original, u32)>
  datatype Savepoint = Savepoint(name: Text, snapshot: Log)

  datatype Status = Done | DepthError | NameExists | NameNotFound

  // ---- The log and its savepoints ----

  function Record(log: Log, key: Text, original: Original, coll: u32): Log {
    if key in log then log else log[key := (original, coll)]
  }

  predicate HasName(sps: seq<Savepoint>, name: Text) {
    exists i :: 0 <= i < |sps| && sps[i].name == name
  }

  /** `rposition`: the last savepoint of that name. */
  function IndexOf(sps: seq<Savepoint>, name: Text): (i: nat)
    requires HasName(sps, name)
    ensures i < |sps| && sps[i].name == name
    ensures forall j :: i < j < |sps| ==> sps[j].name != name
  {
    if sps[|sps| - 1].name == name then |sps| - 1
    else
      var init := sps[..|sps| - 1];
      assert HasName(init, name) by {
        var i :| 0 <= i < |sps| && sps[i].name == name;
        assert init[i].name == name;
      }
      IndexOf(init, name)
  }

  function CreateStatus(sps: seq<Savepoint>, name: Text): Status {
    if |sps| >= MAX_DEPTH then DepthError else if HasName(sps, name) then NameExists else Done
  }

  /** The log entries that a rollback to `snapshot` undoes. */
  function UndoOf(log: Log, snapshot: Log): Log {
    map k | k in log && k !in snapshot :: log[k]
  }

  class SavepointState {
    var savepoints: seq<Savepoint>
    var writeLog: Log

    constructor ()
      ensures savepoints == [] && writeLog == map[]
    {
      savepoints, writeLog := [], map[];
    }

    /** `record_write`: only the first write of a key is logged. */
    method RecordWrite(key: Text, original: Original, coll: u32)
      modifies this`writeLog
      ensures writeLog == Record(old(writeLog), key, original, coll)
      ensures key in writeLog && writeLog[key] == if key in old(writeLog) then old(writeLog)[key] else (original, coll)
    {
      if key !in writeLog { writeLog := writeLog[key := (original, coll)]; }
    }

    method CreateSavepoint(name: Text) returns (r: Status)
      modifies this`savepoints
      ensures r == CreateStatus(old(savepoints), name)
      ensures r == DepthError <==> |old(savepoints)| >= 16
      ensures r == Done <==> |old(savepoints)| < 16 && forall i :: 0 <= i < |old(savepoints)| ==> old(savepoints)[i].name != name
      ensures savepoints == if r == Done then old(savepoints) + [Savepoint(name, writeLog)] else old(savepoints)
    {
      if |savepoints| >= MAX_DEPTH { return DepthError; }
      var at := Find(name);
      if at.Some? { return NameExists; }
      savepoints := savepoints + [Savepoint(name, writeLog)];
      return Done;
    }

    /** `iter().rposition(...)`. */
    method Find(name: Text) returns (at: Option<nat>)
      ensures at.Some? <==> HasName(savepoints, name)
      ensures at.Some? ==> at.value == IndexOf(savepoints, name)
    {
      var i := |savepoints|;
      while i > 0
        invariant 0 <= i <= |savepoints|
        invariant forall j :: i <= j < |savepoints| ==> savepoints[j].name != name
      {
        i := i - 1;
        if savepoints[i].name == name { return Some(i); }
      }
      return None;
    }

    /** `rollback_to_savepoint` on the log: the savepoint itself goes too. */
    method RollbackToSavepoint(name: Text) returns (r: Status, undo: Log)
      modifies this
      ensures r == if HasName(old(savepoints), name) then Done else NameNotFound
      ensures r == Done ==>
                var i := IndexOf(old(savepoints), name);
                undo == UndoOf(old(writeLog), old(savepoints)[i].snapshot)
                && (forall k :: k in undo <==> k in old(writeLog) && k !in old(savepoints)[i].snapshot)
                && (forall k :: k in undo ==> undo[k] == old(writeLog)[k])
                && writeLog == old(savepoints)[i].snapshot && savepoints == old(savepoints)[..i]
      ensures r != Done ==> undo == map[] && writeLog == old(writeLog) && savepoints == old(savepoints)
    {
      var at := Find(name);
      if at.None? { return NameNotFound, map[]; }
      var snapshot := savepoints[at.value].snapshot;
      undo := map k | k in writeLog && k !in snapshot :: writeLog[k];
      writeLog := snapshot;
      savepoints := savepoints[..at.value];
      r := Done;
    }

    /** `release_savepoint`: the inner savepoints stay. */
    method ReleaseSavepoint(name: Text) returns (r: Status)
      modifies this`savepoints
      ensures r == if HasName(old(savepoints), name) then Done else NameNotFound
      ensures savepoints == if r == Done
                            then var i := IndexOf(old(savepoints), name);
                                 old(savepoints)[..i] + old(savepoints)[i + 1..]
                            else old(savepoints)
    {
      var at := Find(name);
      if at.None? { return NameNotFound; }
      savepoints := savepoints[..at.value] + savepoints[at.value + 1..];
      return Done;
    }
  }

  // ---- The store ----

  /** (collection, document id) -> value; a tombstoned key is absent. */
  type Store = map<(u32, Text), Text>

  function Value(store: Store, coll: u32, key: Text): Option<Text> {
    if (coll, key) in store then Some(store[(coll, key)]) else None
  }

  function Before(original: Original): Option<Text> {
    match original
    case Existing(v) => Some(v)
    case New => None
  }

  function OriginalOf(v: Option<Text>): Original {
    match v
    case Some(x) => Existing(x)
    case None => New
  }

  function Put(store: Store, coll: u32, key: Text, v: Option<Text>): Store {
    match v
    case Some(x) => store[(coll, key) := x]
    case None => store - {(coll, key)}
  }

  /** What undoing leaves at one place of the store. */
  function UndoneValue(store: Store, undo: Log, coll: u32, key: Text): Option<Text> {
    if key in undo && undo[key].1 == coll then Before(undo[key].0) else Value(store, coll, key)
  }

  /** The engine's loop over the undo entries: restore the original, or tombstone the key. */
  method Undo(store: Store, undo: Log) returns (restored: Store)
    ensures forall coll, key :: Value(restored, coll, key) == UndoneValue(store, undo, coll, key)
  {
    restored := store;
    var todo := undo.Keys;
    while todo != {}
      invariant todo <= undo.Keys
      invariant forall coll, key ::
        Value(restored, coll, key)
        == if key in todo then Value(store, coll, key) else UndoneValue(store, undo, coll, key)
      decreases todo
    {
      var key :| key in todo;
      var (original, coll) := undo[key];
      restored := Put(restored, coll, key, Before(original));
      todo := todo - {key};
    }
  }

  // ---- Runs of one transaction ----

  /** The transaction's state. `start` is the store when it began and `at[i]` the store when
      savepoint `i` was made: history that the code does not keep. */
  datatype Txn = Txn(start: Store, store: Store, log: Log, sps: seq<Savepoint>, at: seq<Store>)

  datatype Op =
    | Write(coll: u32, key: Text, value: Option<Text>)
    | Create(name: Text)
    | Rollback(name: Text, restored: Store) // the store that undoing left
    | Release(name: Text)

  function Apply(t: Txn, op: Op): Txn {
    match op
    case Write(coll, key, v) =>
      t.(log := Record(t.log, key, OriginalOf(Value(t.store, coll, key)), coll), store := Put(t.store, coll, key, v))
    case Create(name) =>
      if CreateStatus(t.sps, name) == Done
      then t.(sps := t.sps + [Savepoint(name, t.log)], at := t.at + [t.store]) else t
    case Rollback(name, restored) =>
      if HasName(t.sps, name) && |t.at| == |t.sps| then
        var i := IndexOf(t.sps, name);
        Txn(t.start, restored, t.sps[i].snapshot, t.sps[..i], t.at[..i])
      else t
    case Release(name) =>
      if HasName(t.sps, name) && |t.at| == |t.sps| then
        var i := IndexOf(t.sps, name);
        t.(sps := t.sps[..i] + t.sps[i + 1..], at := t.at[..i] + t.at[i + 1..])
      else t
  }

  ghost predicate IsUndone(restored: Store, store: Store, undo: Log) {
    forall coll, key :: Value(restored, coll, key) == UndoneValue(store, undo, coll, key)
  }

  /** A rollback restores what `Undo` restores, and a logged key is written in the collection
      that it was logged for. The log forgets the collection, so this is a real condition. */
  ghost predicate Fits(t: Txn, op: Op) {
    match op
    case Write(coll, key, _) => key in t.log ==> t.log[key].1 == coll
    case Rollback(name, restored) =>
      HasName(t.sps, name) ==> IsUndone(restored, t.store, UndoOf(t.log, t.sps[IndexOf(t.sps, name)].snapshot))
    case _ => true
  }

  function Begin(store: Store): Txn { Txn(store, store, map[], [], []) }

  ghost predicate Run(t: Txn, ops: seq<Op>)
    decreases ops
  {
    |ops| == 0 || (Fits(t, ops[0]) && Run(Apply(t, ops[0]), ops[1..]))
  }

  function After(t: Txn, ops: seq<Op>): Txn
    decreases ops
  {
    if |ops| == 0 then t else After(Apply(t, ops[0]), ops[1..])
  }

  /** `log` accounts for how `store` differs from `start`. */
  ghost predicate Accounts(log: Log, start: Store, store: Store) {
    (forall key :: key in log ==> Before(log[key].0) == Value(start, log[key].1, key))
    && (forall coll, key :: !(key in log && log[key].1 == coll) ==> Value(store, coll, key) == Value(start, coll, key))
  }

  predicate SubLog(a: Log, b: Log) {
    forall k :: k in a ==> k in b && b[k] == a[k]
  }

  ghost predicate Inv(t: Txn) {
    |t.at| == |t.sps| <= MAX_DEPTH
    && Accounts(t.log, t.start, t.store)
    && (forall i :: 0 <= i < |t.sps| ==> Accounts(t.sps[i].snapshot, t.start, t.at[i]) && SubLog(t.sps[i].snapshot, t.log))
    && (forall i, j :: 0 <= i < j < |t.sps| ==>
          SubLog(t.sps[i].snapshot, t.sps[j].snapshot) && t.sps[i].name != t.sps[j].name)
  }

  lemma WriteKeeps(t: Txn, coll: u32, key: Text, v: Option<Text>)
    requires Inv(t) && Fits(t, Write(coll, key, v))
    ensures Inv(Apply(t, Write(coll, key, v)))
  {}

  /** A write keeps the invariant exactly if its key is not logged for another collection, or
      if it does not change the value. */
  lemma WriteKeepsExactly(t: Txn, coll: u32, key: Text, v: Option<Text>)
    requires Inv(t)
    ensures Inv(Apply(t, Write(coll, key, v))) <==> Fits(t, Write(coll, key, v)) || v == Value(t.store, coll, key)
  {
    var next := Apply(t, Write(coll, key, v));
    if Fits(t, Write(coll, key, v)) {
      WriteKeeps(t, coll, key, v);
    } else {
      assert Value(next.store, coll, key) == v && Value(t.store, coll, key) == Value(t.start, coll, key);
      if v == Value(t.store, coll, key) {
        forall c, k ensures Value(next.store, c, k) == Value(t.store, c, k) {}
      }
    }
  }

  lemma RollbackKeeps(t: Txn, name: Text, restored: Store)
    requires Inv(t) && Fits(t, Rollback(name, restored))
    ensures Inv(Apply(t, Rollback(name, restored)))
  {}

  lemma ReleaseKeeps(t: Txn, name: Text)
    requires Inv(t)
    ensures Inv(Apply(t, Release(name)))
  {
    if HasName(t.sps, name) {
      var i := IndexOf(t.sps, name);
      var next := Apply(t, Release(name));
      forall j | 0 <= j < |next.sps|
        ensures next.sps[j] == t.sps[if j < i then j else j + 1] && next.at[j] == t.at[if j < i then j else j + 1]
      {}
    }
  }

  lemma CreateKeeps(t: Txn, name: Text)
    requires Inv(t)
    ensures Inv(Apply(t, Create(name)))
  {}

  lemma StepKeeps(t: Txn, op: Op)
    requires Inv(t) && Fits(t, op)
    ensures Inv(Apply(t, op))
  {
    match op
    case Write(coll, key, v) => WriteKeeps(t, coll, key, v);
    case Create(name) => CreateKeeps(t, name);
    case Rollback(name, restored) => RollbackKeeps(t, name, restored);
    case Release(name) => ReleaseKeeps(t, name);
  }

  lemma {:induction false} RunKeeps(t: Txn, ops: seq<Op>)
    requires Inv(t) && Run(t, ops)
    ensures Inv(After(t, ops))
    decreases ops
  {
    if |ops| > 0 {
      StepKeeps(t, ops[0]);
      RunKeeps(Apply(t, ops[0]), ops[1..]);
    }
  }

  /** In every reachable state: keys outside the log hold their value from the start of the
      transaction, logged originals are those values, and each snapshot is part of every
      later one and of the log. */
  lemma ReachableInv(start: Store, ops: seq<Op>)
    requires Run(Begin(start), ops)
    ensures Inv(After(Begin(start), ops))
  {
    RunKeeps(Begin(start), ops);
  }

  /** What a rollback brings back, exactly. One place of the store regains its value from
      the time of the savepoint if and only if its key was not yet logged then (for that
      collection), or its value has not changed since. */
  lemma RollbackRestores(t: Txn, name: Text, restored: Store, coll: u32, key: Text)
    requires Inv(t) && HasName(t.sps, name) && Fits(t, Rollback(name, restored))
    ensures var i := IndexOf(t.sps, name);
            var snapshot := t.sps[i].snapshot;
            Value(restored, coll, key) == Value(t.at[i], coll, key)
            <==> !(key in snapshot && snapshot[key].1 == coll) || Value(t.store, coll, key) == Value(t.at[i], coll, key)
  {}

  /** The whole store is as it was at the savepoint if and only if no key written before the
      savepoint has a different value now. */
  lemma RollbackRestoresAll(t: Txn, name: Text, restored: Store)
    requires Inv(t) && HasName(t.sps, name) && Fits(t, Rollback(name, restored))
    ensures var i := IndexOf(t.sps, name);
            var snapshot := t.sps[i].snapshot;
            restored == t.at[i] <==>
            forall key :: key in snapshot ==>
              Value(t.store, snapshot[key].1, key) == Value(t.at[i], snapshot[key].1, key)
  {
    var i := IndexOf(t.sps, name);
    var snapshot := t.sps[i].snapshot;
    forall coll, key
      ensures Value(restored, coll, key) == Value(t.at[i], coll, key)
              <==> !(key in snapshot && snapshot[key].1 == coll) || Value(t.store, coll, key) == Value(t.at[i], coll, key)
    {
      RollbackRestores(t, name, restored, coll, key);
    }
    if forall key :: key in snapshot ==> Value(t.store, snapshot[key].1, key) == Value(t.at[i], snapshot[key].1, key) {
      StoresEqual(restored, t.at[i]);
    }
  }

  lemma StoresEqual(a: Store, b: Store)
    requires forall coll, key :: Value(a, coll, key) == Value(b, coll, key)
    ensures a == b
  {
    forall p ensures p in a <==> p in b {
      assert Value(a, p.0, p.1) == Value(b, p.0, p.1);
    }
    forall p | p in a ensures a[p] == b[p] {
      assert Value(a, p.0, p.1) == Value(b, p.0, p.1);
    }
  }

  // ---- The places that a transaction may write ----

  /** Rollbacks restore what `Undo` restores; writes may go anywhere. */
  ghost predicate Executes(t: Txn, ops: seq<Op>)
    decreases ops
  {
    |ops| == 0 || ((ops[0].Rollback? ==> Fits(t, ops[0])) && Executes(Apply(t, ops[0]), ops[1..]))
  }

  predicate WritesIn(ops: seq<Op>, places: set<(u32, Text)>) {
    forall i :: 0 <= i < |ops| && ops[i].Write? ==> (ops[i].coll, ops[i].key) in places
  }

  /** No document id occurs with two collections. */
  predicate OneCollection(places: set<(u32, Text)>) {
    forall p, q :: p in places && q in places && p.1 == q.1 ==> p == q
  }

  predicate LogIn(log: Log, places: set<(u32, Text)>) { forall k :: k in log ==> (log[k].1, k) in places }

  predicate LogsIn(t: Txn, places: set<(u32, Text)>) {
    LogIn(t.log, places) && forall i :: 0 <= i < |t.sps| ==> LogIn(t.sps[i].snapshot, places)
  }

  lemma LogsInKept(t: Txn, op: Op, places: set<(u32, Text)>)
    requires LogsIn(t, places) && (op.Write? ==> (op.coll, op.key) in places)
    ensures LogsIn(Apply(t, op), places)
  {}

  lemma {:induction false} OneCollectionKeeps(t: Txn, ops: seq<Op>, places: set<(u32, Text)>)
    requires OneCollection(places) && Inv(t) && LogsIn(t, places) && Executes(t, ops) && WritesIn(ops, places)
    ensures Run(t, ops) && Inv(After(t, ops))
    decreases ops
  {
    if |ops| > 0 {
      var op := ops[0];
      if op.Write? && op.key in t.log { assert (t.log[op.key].1, op.key) == (op.coll, op.key); }
      assert Fits(t, op);
      StepKeeps(t, op);
      LogsInKept(t, op, places);
      OneCollectionKeeps(Apply(t, op), ops[1..], places);
    }
  }

  /** Every run that writes only some places keeps the invariant. */
  ghost predicate AllRunsKeep(places: set<(u32, Text)>) {
    forall start, ops :: Executes(Begin(start), ops) && WritesIn(ops, places) ==> Inv(After(Begin(start), ops))
  }

  lemma TwoCollectionsBreak(c: u32, d: u32, key: Text, v: Text)
    requires c != d
    ensures var ops := [Write(c, key, Some(v)), Write(d, key, Some(v))];
            Executes(Begin(map[]), ops) && !Inv(After(Begin(map[]), ops))
  {
    var first, second := Write(c, key, Some(v)), Write(d, key, Some(v));
    var ops := [first, second];
    var t := Apply(Begin(map[]), first);
    assert ops[1..] == [second] && [second][1..] == [];
    assert Executes(t, [second]);
    assert After(t, [second]) == After(Apply(t, second), []) == Apply(t, second);
    WriteKeeps(Begin(map[]), c, key, Some(v));
    WriteKeepsExactly(t, d, key, Some(v));
  }

  /** Every run keeps the invariant if and only if no document id may be written in two
      collections. */
  lemma ReachableInvExactly(places: set<(u32, Text)>)
    ensures AllRunsKeep(places) <==> OneCollection(places)
  {
    if OneCollection(places) {
      forall start, ops | Executes(Begin(start), ops) && WritesIn(ops, places) ensures Inv(After(Begin(start), ops)) {
        OneCollectionKeeps(Begin(start), ops, places);
      }
    } else {
      var p, q :| p in places && q in places && p.1 == q.1 && p != q;
      TwoCollectionsBreak(p.0, q.0, p.1, []);
      assert WritesIn([Write(p.0, p.1, Some([])), Write(q.0, p.1, Some([]))], places);
    }
  }

  // ---- What a rollback leaves in place ----

  /** Rewriting a key that was written before the savepoint is not undone: after the rollback
      it has its new value, not the one from the time of the savepoint. */
  lemma RewriteSurvives(start: Store, coll: u32, key: Text, first: Option<Text>, second: Option<Text>,
                        name: Text, restored: Store)
    requires var t := RewriteRun(start, coll, key, first, second, name);
             HasName(t.sps, name) && Fits(t, Rollback(name, restored))
    ensures Value(restored, coll, key) == second
            && Value(RewriteRun(start, coll, key, first, second, name).at[0], coll, key) == first
  {
    var t := RewriteRun(start, coll, key, first, second, name);
    assert Value(restored, coll, key) == UndoneValue(t.store, UndoOf(t.log, t.sps[0].snapshot), coll, key);
  }

  function RewriteRun(start: Store, coll: u32, key: Text, first: Option<Text>, second: Option<Text>, name: Text): Txn {
    var t := Apply(Apply(Begin(start), Write(coll, key, first)), Create(name));
    Apply(t, Write(coll, key, second))
  }

  /** One document id written in two collections: only the first write is logged, so a
      rollback to before both leaves the second in place, whatever the values. */
  lemma SecondCollectionSurvives(start: Store, c: u32, d: u32, key: Text, v: Option<Text>, w: Option<Text>,
                                 name: Text, restored: Store)
    requires c != d
    requires var t := TwoCollectionsRun(start, c, d, key, v, w, name);
             HasName(t.sps, name) && Fits(t, Rollback(name, restored))
    ensures Value(restored, c, key) == Value(start, c, key)
    ensures Value(restored, d, key) == w && TwoCollectionsRun(start, c, d, key, v, w, name).at[0] == start
  {
    var t := TwoCollectionsRun(start, c, d, key, v, w, name);
    var undo := UndoOf(t.log, t.sps[0].snapshot);
    assert Value(restored, c, key) == UndoneValue(t.store, undo, c, key);
    assert Value(restored, d, key) == UndoneValue(t.store, undo, d, key);
  }

  function TwoCollectionsRun(start: Store, c: u32, d: u32, key: Text, v: Option<Text>, w: Option<Text>, name: Text): Txn {
    var t := Apply(Apply(Begin(start), Create(name)), Write(c, key, v));
    Apply(t, Write(d, key, w))
  }
}
