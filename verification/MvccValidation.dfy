/** What MVCC promises about validation over whole runs: whether `commit` finds the conflicts,
    and whether garbage collection can hide one. Both depend on the writes that have taken an
    id and not yet installed their version when the transaction begins. */
module MvccValidation {
  import opened Bytes
  import opened Mvcc
  import opened MvccRuns

  predicate Newer(chain: seq<Version>, i: nat, t: u64)
    requires i < |chain|
  {
    chain[i].txid > t
  }

  predicate AnyNewer(chain: seq<Version>, t: u64) { exists i :: 0 <= i < |chain| && Newer(chain, i, t) }

  /** A version of `key` from after transaction `t` began. */
  predicate HasNewer(db: Db, t: u64, key: Text) { AnyNewer(ChainOf(db.chains, key), t) }

  lemma ConflictIsNewer(w: World, t: u64)
    requires Inv(w) && t in w.db.active
    ensures Conflict(w.db.chains, w.db.active[t])
            <==> exists key :: key in w.db.active[t].readSet && HasNewer(w.db, t, key)
  {
    var txn := w.db.active[t];
    assert ActiveOk(w.db, t);
    forall key, i | 0 <= i < |ChainOf(w.db.chains, key)|
      ensures var id := ChainOf(w.db.chains, key)[i].txid;
        Newer(ChainOf(w.db.chains, key), i, t) == (id > txn.snapshot.txid && id !in txn.snapshot.activeTxids)
    {
      assert WriteId(w.db, w.db.chains[key][i].txid);
    }
  }

  lemma NothingNewer(w: World, t: u64, key: Text)
    requires Inv(w) && t == w.db.clock
    ensures !HasNewer(w.db, t, key)
  {}

  // ---- What garbage collection does to newer versions ----

  /** Versions newer than `t` come first. */
  predicate NewerFirst(chain: seq<Version>, t: u64) {
    forall i, j :: 0 <= i < j < |chain| && Newer(chain, j, t) ==> Newer(chain, i, t)
  }

  /** At most one other version stands in front of any version newer than `t`. */
  predicate NewerNearlyFirst(chain: seq<Version>, t: u64) {
    forall h, i, j :: 0 <= h < i < j < |chain| && Newer(chain, j, t) ==> Newer(chain, h, t) || Newer(chain, i, t)
  }

  lemma {:induction false} KeepsThrough(chain: seq<Version>, i: nat, horizon: u64)
    requires i <= |chain|
    ensures var n := KeepFrom(chain, i, horizon); n < |chain| ==> n > 1 && chain[n - 1].txid < horizon
    decreases |chain| - i
  {
    if i < |chain| && !(chain[i].txid < horizon && i > 0) { KeepsThrough(chain, i + 1, horizon); }
  }

  /** Then what a collection keeps has a version newer than `t` exactly if the chain has. */
  lemma TruncatedNewer(chain: seq<Version>, horizon: u64, t: u64)
    requires NewerNearlyFirst(chain, t) && horizon <= t
    ensures AnyNewer(Truncated(chain, horizon), t) <==> AnyNewer(chain, t)
    ensures NewerNearlyFirst(Truncated(chain, horizon), t)
    ensures NewerFirst(chain, t) ==> NewerFirst(Truncated(chain, horizon), t)
  {
    var kept := Truncated(chain, horizon);
    KeepsThrough(chain, 0, horizon);
    forall i | 0 <= i < |kept| ensures Newer(kept, i, t) == Newer(chain, i, t) {}
    if j :| 0 <= j < |chain| && Newer(chain, j, t) {
      if j < |kept| {
        assert Newer(kept, j, t);
      } else {
        assert !Newer(chain, |kept| - 1, t);
        assert Newer(chain, 0, t) && Newer(kept, 0, t);
      }
    }
  }

  lemma FrontNewer(v: Version, chain: seq<Version>, t: u64)
    ensures AnyNewer([v] + chain, t) <==> v.txid > t || AnyNewer(chain, t)
    ensures NewerFirst(chain, t) ==> NewerNearlyFirst([v] + chain, t)
    ensures v.txid > t && NewerFirst(chain, t) ==> NewerFirst([v] + chain, t)
    ensures v.txid > t && NewerNearlyFirst(chain, t) ==> NewerNearlyFirst([v] + chain, t)
  {
    var all := [v] + chain;
    forall i | 0 < i < |all| ensures Newer(all, i, t) == Newer(chain, i - 1, t) {}
    forall i | 0 <= i < |chain| ensures Newer(chain, i, t) == Newer(all, i + 1, t) {}
    if v.txid > t { assert Newer(all, 0, t); }
  }

  // ---- With one older write in flight ----

  predicate OlderInFlight(w: World, t: u64) { exists id :: id in w.inFlight && id < t }

  /** At most one older write is in flight, and has pushed no version in front of a newer one. */
  ghost predicate OneOlder(w: World, t: u64) {
    (forall a, b :: a in w.inFlight && b in w.inFlight && a < t && b < t ==> a == b)
    && forall key :: NewerNearlyFirst(ChainOf(w.db.chains, key), t)
                     && (OlderInFlight(w, t) ==> NewerFirst(ChainOf(w.db.chains, key), t))
  }

  predicate WritesTo(a: Action, key: Text) { a.Install? && a.key == key }

  predicate Written(actions: seq<Action>, key: Text) {
    exists i :: 0 <= i < |actions| && WritesTo(actions[i], key)
  }

  /** A version with an id above `t` is installed. */
  predicate WritesNewer(a: Action, t: u64, key: Text) { WritesTo(a, key) && a.version.txid > t }

  predicate WrittenNewer(actions: seq<Action>, t: u64, key: Text) {
    exists i :: 0 <= i < |actions| && WritesNewer(actions[i], t, key)
  }

  /** One step adds a newer version of a key exactly if it installs one; `gc` drops none that
      matters. */
  lemma StepNewer(w: World, a: Action, t: u64, key: Text)
    requires Inv(w) && Enabled(w, a) && t in w.db.active && OneOlder(w, t)
    ensures HasNewer(Apply(w, a).db, t, key) <==> HasNewer(w.db, t, key) || WritesNewer(a, t, key)
  {
    assert ActiveOk(w.db, t);
    var was, now := ChainOf(w.db.chains, key), ChainOf(Apply(w, a).db.chains, key);
    match a
    case Install(k, v) => if k == key { FrontNewer(v, was, t); }
    case Gc => if key in w.db.chains { TruncatedNewer(was, w.db.horizon, t); }
    case _ => assert now == was;
  }

  lemma StepOneOlder(w: World, a: Action, t: u64)
    requires Inv(w) && Enabled(w, a) && t in w.db.active && OneOlder(w, t)
    ensures OneOlder(Apply(w, a), t)
  {
    assert ActiveOk(w.db, t);
    var next := Apply(w, a);
    if a.Install? { assert WriteId(w.db, a.version.txid); }
    forall key
      ensures NewerNearlyFirst(ChainOf(next.db.chains, key), t)
      ensures OlderInFlight(next, t) ==> NewerFirst(ChainOf(next.db.chains, key), t)
    {
      var was := ChainOf(w.db.chains, key);
      match a
      case Install(k, v) => if k == key { FrontNewer(v, was, t); }
      case Gc => if key in w.db.chains { TruncatedNewer(was, w.db.horizon, t); }
      case _ => assert ChainOf(next.db.chains, key) == was;
    }
  }

  /** Over a run a key has a newer version exactly if it had one or one was installed. */
  lemma {:induction false} RunNewer(w: World, actions: seq<Action>, t: u64, key: Text)
    requires Inv(w) && Runs(w, actions) && t in w.db.active && t in After(w, actions).db.active && OneOlder(w, t)
    ensures HasNewer(After(w, actions).db, t, key) <==> HasNewer(w.db, t, key) || WrittenNewer(actions, t, key)
    ensures OneOlder(After(w, actions), t)
    decreases actions
  {
    if |actions| > 0 {
      var a, rest, next := actions[0], actions[1..], Apply(w, actions[0]);
      assert ActiveOk(w.db, t);
      StepKeeps(w, a);
      if t !in next.db.active { EndedForGood(next, rest, t); }
      StepOneOlder(w, a, t);
      StepNewer(w, a, t, key);
      RunNewer(next, rest, t, key);
      WrittenSplit(a, rest, actions, t, key);
    }
  }

  lemma WrittenSplit(a: Action, rest: seq<Action>, actions: seq<Action>, t: u64, key: Text)
    requires actions == [a] + rest
    ensures Written(actions, key) <==> WritesTo(a, key) || Written(rest, key)
    ensures WrittenNewer(actions, t, key) <==> WritesNewer(a, t, key) || WrittenNewer(rest, t, key)
  {
    assert WritesTo(actions[0], key) == WritesTo(a, key) && WritesNewer(actions[0], t, key) == WritesNewer(a, t, key);
    forall i | 0 <= i < |rest|
      ensures WritesTo(rest[i], key) == WritesTo(actions[i + 1], key)
      ensures WritesNewer(rest[i], t, key) == WritesNewer(actions[i + 1], t, key)
    {}
    forall i | 0 < i < |actions|
      ensures WritesTo(rest[i - 1], key) == WritesTo(actions[i], key)
      ensures WritesNewer(rest[i - 1], t, key) == WritesNewer(actions[i], t, key)
    {}
  }

  // ---- Validation with at most one write in flight ----

  lemma AtMostOne(ids: set<u64>, a: u64, b: u64)
    requires |ids| <= 1 && a in ids && b in ids
    ensures a == b
  {
    var rest := ids - {a};
    assert |rest| == 0 && b !in rest;
  }

  lemma BeginOneOlder(w: World, id: u64)
    requires Inv(w) && |w.inFlight| <= 1 && id > w.db.clock
    ensures OneOlder(Apply(w, Begin(id)), id)
    ensures forall key :: !HasNewer(Apply(w, Begin(id)).db, id, key)
  {
    forall a, b | a in w.inFlight && b in w.inFlight ensures a == b { AtMostOne(w.inFlight, a, b); }
    var begun := Apply(w, Begin(id));
    StepKeeps(w, Begin(id));
    forall key, i | 0 <= i < |ChainOf(begun.db.chains, key)| ensures !Newer(ChainOf(begun.db.chains, key), i, id) {
      assert key in begun.db.chains && WriteId(begun.db, begun.db.chains[key][i].txid);
    }
  }

  /** Validation is exact. For a transaction that begins with at most one write in flight, and
      any steps of anyone after that (garbage collection included), commit succeeds if and only
      if none of those steps installed a version of a key in the read set under a later id; and
      a collection right before the commit changes nothing. */
  lemma ValidationExact(w: World, id: u64, actions: seq<Action>)
    requires Inv(w) && |w.inFlight| <= 1 && id > w.db.clock
    requires var begun := Apply(w, Begin(id)); Runs(begun, actions) && id in After(begun, actions).db.active
    ensures var now := After(Apply(w, Begin(id)), actions).db;
            (CommitOk(now, id) <==> forall key :: key in now.active[id].readSet ==> !WrittenNewer(actions, id, key))
            && (CommitOk(AfterGc(now), id) <==> CommitOk(now, id))
  {
    var begun := Apply(w, Begin(id));
    var end := After(begun, actions);
    StepKeeps(w, Begin(id));
    BeginOneOlder(w, id);
    RunKeeps(begun, actions);
    StepKeeps(end, Gc);
    ConflictIsNewer(end, id);
    ConflictIsNewer(Apply(end, Gc), id);
    forall key
      ensures HasNewer(end.db, id, key) <==> WrittenNewer(actions, id, key)
      ensures HasNewer(AfterGc(end.db), id, key) <==> HasNewer(end.db, id, key)
    {
      RunNewer(begun, actions, id, key);
      StepNewer(end, Gc, id, key);
    }
  }

  /** After a commit that succeeds, in any reachable state: every key in the read set still
      has as its newest version the one that the snapshot sees. */
  lemma CommitSeesNewest(w: World, t: u64, key: Text)
    requires Inv(w) && CommitOk(w.db, t) && key in w.db.active[t].readSet
    ensures var chain := ChainOf(w.db.chains, key);
            FirstVisible(chain, w.db.active[t].snapshot) == (if |chain| == 0 then None else Some(chain[0]))
  {}

  // ---- Every write of a read key ----

  /** With no older write in flight, whatever is installed is newer. */
  lemma {:induction false} AllNewer(w: World, actions: seq<Action>, t: u64, key: Text)
    requires Inv(w) && Runs(w, actions) && t <= w.db.clock && NoneOlder(w, t)
    ensures WrittenNewer(actions, t, key) <==> Written(actions, key)
    decreases actions
  {
    if |actions| > 0 {
      StepKeeps(w, actions[0]);
      AllNewer(Apply(w, actions[0]), actions[1..], t, key);
      WrittenSplit(actions[0], actions[1..], actions, t, key);
    }
  }

  /** Whatever happens after `id` began, its commit succeeds exactly if no key that it read
      was written since. */
  ghost predicate Validates(begun: World, id: u64) {
    forall actions :: Runs(begun, actions) && id in After(begun, actions).db.active ==>
      var now := After(begun, actions).db;
      CommitOk(now, id) <==> forall key :: key in now.active[id].readSet ==> !Written(actions, key)
  }

  function ReadThenWrite(id: u64, key: Text, v: Version): seq<Action> { [RecordRead(id, key), Install(key, v)] }

  lemma AfterTwo(w: World, a: Action, b: Action)
    ensures Runs(w, [a, b]) == (Enabled(w, a) && Enabled(Apply(w, a), b))
    ensures After(w, [a, b]) == Apply(Apply(w, a), b)
  {
    assert [a, b][1..] == [b] && [b][1..] == [];
    assert Runs(Apply(w, a), [b]) == Enabled(Apply(w, a), b);
    assert After(Apply(w, a), [b]) == After(Apply(Apply(w, a), b), []);
  }

  /** A stale read commits: a write that took its id before the transaction began and
      installs its version after the transaction read the key is not noticed. */
  lemma StaleReadCommits(w: World, id: u64, older: u64, key: Text, v: Version)
    requires Inv(w) && id > w.db.clock && older in w.inFlight && v.txid == older
    ensures var begun, actions := Apply(w, Begin(id)), ReadThenWrite(id, key, v);
            Runs(begun, actions) && id in After(begun, actions).db.active
            && key in After(begun, actions).db.active[id].readSet && Written(actions, key)
            && CommitOk(After(begun, actions).db, id)
  {
    var begun, actions := Apply(w, Begin(id)), ReadThenWrite(id, key, v);
    var end := After(begun, actions);
    AfterTwo(begun, RecordRead(id, key), Install(key, v));
    assert WritesTo(actions[1], key);
    StepKeeps(w, Begin(id));
    RunKeeps(begun, actions);
    forall k ensures !HasNewer(end.db, id, k) {
      NothingNewer(begun, id, k);
    }
    ConflictIsNewer(end, id);
  }

  /** Over all continuations validation finds all writes of read keys and no others if and only
      if no write was in flight when the transaction began. */
  lemma ValidatesExactly(w: World, id: u64)
    requires Inv(w) && id > w.db.clock
    ensures Validates(Apply(w, Begin(id)), id) <==> w.inFlight == {}
  {
    var begun := Apply(w, Begin(id));
    if w.inFlight == {} {
      StepKeeps(w, Begin(id));
      forall actions | Runs(begun, actions) && id in After(begun, actions).db.active
        ensures var now := After(begun, actions).db;
          CommitOk(now, id) <==> forall key :: key in now.active[id].readSet ==> !Written(actions, key)
      {
        ValidationExact(w, id, actions);
        forall key ensures WrittenNewer(actions, id, key) <==> Written(actions, key) { AllNewer(begun, actions, id, key); }
      }
    } else {
      var older :| older in w.inFlight;
      var v := Version(older, [], false);
      StaleReadCommits(w, id, older, [], v);
      assert Runs(begun, ReadThenWrite(id, [], v));
    }
  }

  // ---- Two writes in flight ----

  lemma {:induction false} RunsJoin(w: World, a: seq<Action>, b: seq<Action>)
    ensures Runs(w, a + b) <==> Runs(w, a) && Runs(After(w, a), b)
    ensures After(w, a + b) == After(After(w, a), b)
    decreases a
  {
    if |a| == 0 {
      assert a + b == b;
    } else {
      assert (a + b)[0] == a[0] && (a + b)[1..] == a[1..] + b;
      RunsJoin(Apply(w, a[0]), a[1..], b);
    }
  }

  function Alone(db: Db, id: u64): Db
    requires id in db.active
  {
    db.(active := map[id := db.active[id]], horizon := id)
  }

  /** All other transactions may abort. */
  lemma {:induction false} OthersAbort(w: World, id: u64) returns (actions: seq<Action>)
    requires id in w.db.active && w.db == WithHorizon(w.db)
    ensures Runs(w, actions) && After(w, actions) == World(Alone(w.db, id), w.inFlight)
    decreases |w.db.active|
  {
    if other :| other in w.db.active && other != id {
      var next := Apply(w, Abort(other));
      assert next.db.active.Keys == w.db.active.Keys - {other};
      assert next.db == WithHorizon(next.db);
      var rest := OthersAbort(next, id);
      actions := [Abort(other)] + rest;
      assert actions[1..] == rest;
    } else {
      actions := [];
      assert w.db.active == map[id := w.db.active[id]];
    }
  }

  lemma CollectsSecond(chain: seq<Version>, horizon: u64)
    requires |chain| > 1 && chain[1].txid < horizon
    ensures Truncated(chain, horizon) == [chain[0], chain[1]]
  {
    assert KeepFrom(chain, 0, horizon) == KeepFrom(chain, 1, horizon) == 2;
  }

  /** A read of `key`, a newer write of it, and two older writes that arrive on top. */
  function LateWrites(id: u64, newer: Version, a: Version, b: Version, key: Text): seq<Action> {
    [RecordRead(id, key), TakeId(newer.txid), Install(key, newer), Install(key, a), Install(key, b)]
  }

  lemma LateWritesRun(begun: World, id: u64, newer: Version, a: Version, b: Version, key: Text)
    requires begun.db.clock < newer.txid
    requires a.txid in begun.inFlight && b.txid in begun.inFlight && a.txid != b.txid
    requires a.txid < newer.txid && b.txid < newer.txid
    ensures Runs(begun, LateWrites(id, newer, a, b, key))
    ensures After(begun, LateWrites(id, newer, a, b, key)).db == LateDb(begun.db, id, newer, a, b, key)
  {
    FiveSteps(begun, RecordRead(id, key), TakeId(newer.txid), Install(key, newer), Install(key, a), Install(key, b));
  }

  function LateDb(db: Db, id: u64, newer: Version, a: Version, b: Version, key: Text): Db {
    Installed(Installed(Installed(Recorded(db, id, key).(clock := newer.txid), key, newer), key, a), key, b)
  }

  lemma LateDbHides(db: Db, id: u64, s: Snapshot, newer: Version, a: Version, b: Version, key: Text)
    requires db.active == map[id := Transaction(id, s, {})] && s.txid == id && db.horizon == id
    requires newer.txid !in s.activeTxids && a.txid < id && b.txid < id < newer.txid
    requires forall i :: 0 <= i < |ChainOf(db.chains, key)| ==> ChainOf(db.chains, key)[i].txid <= id
    ensures var end := LateDb(db, id, newer, a, b, key);
            id in end.active && end.active[id].readSet == {key} && !CommitOk(end, id) && CommitOk(AfterGc(end), id)
  {
    var end := LateDb(db, id, newer, a, b, key);
    var chain := ChainOf(end.chains, key);
    assert chain[0] == b && chain[1] == a && chain[2] == newer;
    CollectsSecond(chain, id);
    assert ChainOf(AfterGc(end).chains, key) == [b, a];
  }

  /** Garbage collection hides a conflict. Two writes took their ids before the transaction
      began. The other transactions abort, the transaction reads a key, a newer write installs
      its version of it, and the two install theirs on top. Commit would fail; after a
      collection it succeeds. */
  lemma GcHidesConflict(w: World, id: u64, newer: Version, a: Version, b: Version, key: Text) returns (actions: seq<Action>)
    requires Inv(w) && w.db.clock < id < newer.txid
    requires a.txid in w.inFlight && b.txid in w.inFlight && a.txid != b.txid
    ensures var begun := Apply(w, Begin(id));
            var now := After(begun, actions).db;
            Runs(begun, actions) && id in now.active && key in now.active[id].readSet && WrittenNewer(actions, id, key)
            && !CommitOk(now, id) && CommitOk(AfterGc(now), id)
  {
    var begun := Apply(w, Begin(id));
    var aborts := OthersAbort(begun, id);
    var alone, late := After(begun, aborts), LateWrites(id, newer, a, b, key);
    actions := aborts + late;
    RunsJoin(begun, aborts, late);
    assert WriteId(w.db, a.txid) && WriteId(w.db, b.txid);
    LateWritesRun(alone, id, newer, a, b, key);
    LateDbHides(alone.db, id, begun.db.active[id].snapshot, newer, a, b, key);
    assert WritesNewer(actions[|aborts| + 2], id, key);
  }

  /** Whatever happens after `id` began, a collection right before its commit does not change
      the verdict. */
  ghost predicate GcNeutral(begun: World, id: u64) {
    forall actions :: Runs(begun, actions) && id in After(begun, actions).db.active ==>
      (CommitOk(AfterGc(After(begun, actions).db), id) <==> CommitOk(After(begun, actions).db, id))
  }

  /** Garbage collection never hides a conflict if and only if at most one write was in flight
      when the transaction began. */
  lemma GcNeutralExactly(w: World, id: u64)
    requires Inv(w) && w.db.clock < id < TWO_64 - 1
    ensures GcNeutral(Apply(w, Begin(id)), id) <==> |w.inFlight| <= 1
  {
    var begun := Apply(w, Begin(id));
    if |w.inFlight| <= 1 {
      forall actions | Runs(begun, actions) && id in After(begun, actions).db.active
        ensures CommitOk(AfterGc(After(begun, actions).db), id) <==> CommitOk(After(begun, actions).db, id)
      {
        ValidationExact(w, id, actions);
      }
    } else {
      var a, b := TwoOf(w.inFlight);
      var _ := GcHidesConflict(w, id, Version(id + 1, [], false), Version(a, [], false), Version(b, [], false), []);
    }
  }

  /** Whatever happens after `id` began, its commit succeeds exactly if no key that it read was
      written since under a later id. */
  ghost predicate DetectsNewer(begun: World, id: u64) {
    forall actions :: Runs(begun, actions) && id in After(begun, actions).db.active ==>
      var now := After(begun, actions).db;
      CommitOk(now, id) <==> forall key :: key in now.active[id].readSet ==> !WrittenNewer(actions, id, key)
  }

  /** That too holds if and only if at most one write was in flight. */
  lemma DetectsNewerExactly(w: World, id: u64)
    requires Inv(w) && w.db.clock < id < TWO_64 - 1
    ensures DetectsNewer(Apply(w, Begin(id)), id) <==> |w.inFlight| <= 1
  {
    var begun := Apply(w, Begin(id));
    if |w.inFlight| <= 1 {
      forall actions | Runs(begun, actions) && id in After(begun, actions).db.active
        ensures var now := After(begun, actions).db;
          CommitOk(now, id) <==> forall key :: key in now.active[id].readSet ==> !WrittenNewer(actions, id, key)
      {
        ValidationExact(w, id, actions);
      }
    } else {
      var a, b := TwoOf(w.inFlight);
      var run := GcHidesConflict(w, id, Version(id + 1, [], false), Version(a, [], false), Version(b, [], false), []);
      var actions := run + [Gc];
      RunsJoin(begun, run, [Gc]);
      assert [Gc][1..] == [] && After(After(begun, run), [Gc]) == Apply(After(begun, run), Gc);
      assert Runs(begun, actions) && After(begun, actions).db == AfterGc(After(begun, run).db);
      var i :| 0 <= i < |run| && WritesNewer(run[i], id, []);
      assert WritesNewer(actions[i], id, []);
    }
  }

  lemma TwoOf(ids: set<u64>) returns (a: u64, b: u64)
    requires |ids| > 1
    ensures a in ids && b in ids && a != b
  {
    a :| a in ids;
    assert |ids - {a}| > 0;
    b :| b in ids - {a};
  }

  lemma FiveSteps(w: World, a: Action, b: Action, c: Action, d: Action, e: Action)
    ensures var w1 := Apply(w, a); var w2 := Apply(w1, b); var w3 := Apply(w2, c); var w4 := Apply(w3, d);
            Runs(w, [a, b, c, d, e]) == (Enabled(w, a) && Enabled(w1, b) && Enabled(w2, c) && Enabled(w3, d) && Enabled(w4, e))
            && After(w, [a, b, c, d, e]) == Apply(w4, e)
  {
    var w3 := Apply(Apply(Apply(w, a), b), c);
    AfterTwo(w3, d, e);
    assert [a, b, c, d, e][1..] == [b, c, d, e] && [b, c, d, e][1..] == [c, d, e] && [c, d, e][1..] == [d, e];
    assert Runs(Apply(Apply(w, a), b), [c, d, e]) == (Enabled(Apply(Apply(w, a), b), c) && Runs(w3, [d, e]));
    assert After(Apply(Apply(w, a), b), [c, d, e]) == After(w3, [d, e]);
  }
}
