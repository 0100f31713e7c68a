/** What MVCC promises over whole runs: an invariant of every state, and repeatable snapshot
    reads. */
module MvccRuns {
  import opened Bytes
  import opened Mvcc

  /** The manager together with the ids that writers have taken but not yet installed. */
  datatype World = World(db: Db, inFlight: set<u64>)

  datatype Action =
    | Begin(id: u64)
    | Commit(txid: u64)
    | Abort(txid: u64)
    | RecordRead(txid: u64, key: Text)
    | TakeId(id: u64)
    | Install(key: Text, version: Version)
    | Gc

  predicate Enabled(w: World, a: Action) {
    match a
    case Begin(id) => id > w.db.clock
    case TakeId(id) => id > w.db.clock
    case Install(_, v) => v.txid in w.inFlight
    case _ => true
  }

  ghost function Apply(w: World, a: Action): World {
    match a
    case Begin(id) => w.(db := Began(w.db, id))
    case Commit(txid) => w.(db := AfterCommit(w.db, txid))
    case Abort(txid) => w.(db := Removed(w.db, txid))
    case RecordRead(txid, key) => w.(db := Recorded(w.db, txid, key))
    case TakeId(id) => World(w.db.(clock := id), w.inFlight + {id})
    case Install(key, v) => World(Installed(w.db, key, v), w.inFlight - {v.txid})
    case Gc => w.(db := AfterGc(w.db))
  }

  ghost predicate Runs(w: World, actions: seq<Action>)
    decreases actions
  {
    |actions| == 0 || (Enabled(w, actions[0]) && Runs(Apply(w, actions[0]), actions[1..]))
  }

  ghost function After(w: World, actions: seq<Action>): World
    decreases actions
  {
    if |actions| == 0 then w else After(Apply(w, actions[0]), actions[1..])
  }

  // ---- The invariant of every run ----

  /** An id of a document write: never one that a snapshot lists as an active transaction. */
  predicate WriteId(db: Db, id: u64) {
    id <= db.clock
    && id !in db.active
    && forall t :: t in db.active ==> id !in db.active[t].snapshot.activeTxids
  }

  predicate ActiveOk(db: Db, t: u64)
    requires t in db.active
  {
    t <= db.clock && db.horizon <= t
    && db.active[t].txid == t && db.active[t].snapshot.txid == t
    && forall k :: k in db.active[t].snapshot.activeTxids ==> k <= db.clock
  }

  predicate Inv(w: World) {
    (forall t :: t in w.db.active ==> ActiveOk(w.db, t))
    && (forall id :: id in w.inFlight ==> WriteId(w.db, id))
    && (forall key, i :: key in w.db.chains && 0 <= i < |w.db.chains[key]| ==>
          WriteId(w.db, w.db.chains[key][i].txid) && w.db.chains[key][i].txid !in w.inFlight)
  }

  lemma InvInit(seed: u64)
    ensures Inv(World(Db(seed, map[], map[], 0), {}))
  {}

  lemma RemovedKeeps(w: World, txid: u64)
    requires Inv(w)
    ensures Inv(w.(db := Removed(w.db, txid)))
  {}

  lemma BeganKeeps(w: World, id: u64)
    requires Inv(w) && id > w.db.clock
    ensures Inv(w.(db := Began(w.db, id)))
  {}

  lemma InstalledKeeps(w: World, key: Text, v: Version)
    requires Inv(w) && v.txid in w.inFlight
    ensures Inv(World(Installed(w.db, key, v), w.inFlight - {v.txid}))
  {}

  lemma TakeIdKeeps(w: World, id: u64)
    requires Inv(w) && id > w.db.clock
    ensures Inv(Apply(w, TakeId(id)))
  {}

  lemma RecordedKeeps(w: World, txid: u64, key: Text)
    requires Inv(w)
    ensures Inv(Apply(w, RecordRead(txid, key)))
  {}

  lemma StepKeeps(w: World, a: Action)
    requires Inv(w) && Enabled(w, a)
    ensures Inv(Apply(w, a))
  {
    match a
    case Begin(id) => BeganKeeps(w, id);
    case Commit(txid) => RemovedKeeps(w, txid);
    case Abort(txid) => RemovedKeeps(w, txid);
    case RecordRead(txid, key) => RecordedKeeps(w, txid, key);
    case TakeId(id) => TakeIdKeeps(w, id);
    case Install(key, v) => InstalledKeeps(w, key, v);
    case Gc =>
  }

  /** Every state of every run satisfies the invariant. */
  lemma {:induction false} RunKeeps(w: World, actions: seq<Action>)
    requires Inv(w) && Runs(w, actions)
    ensures Inv(After(w, actions))
    decreases actions
  {
    if |actions| > 0 {
      StepKeeps(w, actions[0]);
      RunKeeps(Apply(w, actions[0]), actions[1..]);
    }
  }

  // ---- What one step does to what a transaction sees ----

  /** The version of `key` that active transaction `t` reads. */
  function View(db: Db, t: u64, key: Text): Option<Version>
    requires t in db.active
  {
    ReadVersion(db.chains, key, db.active[t].snapshot)
  }

  /** Garbage collection keeps the version that any snapshot at or above the horizon needs. */
  lemma {:induction false} KeptPrefix(chain: seq<Version>, i: nat, horizon: u64, s: Snapshot)
    requires i <= |chain| && horizon <= s.txid
    requires forall j :: 0 <= j < |chain| ==> chain[j].txid !in s.activeTxids
    ensures FirstVisible(chain[i..KeepFrom(chain, i, horizon)], s) == FirstVisible(chain[i..], s)
    decreases |chain| - i
  {
    var n := KeepFrom(chain, i, horizon);
    if i < |chain| {
      assert chain[i..n][0] == chain[i] && chain[i..][0] == chain[i];
      if !(chain[i].txid < horizon && i > 0) {
        KeptPrefix(chain, i + 1, horizon, s);
        assert chain[i..n][1..] == chain[i + 1..n] && chain[i..][1..] == chain[i + 1..];
      }
    }
  }

  lemma GcInvisible(w: World, t: u64, key: Text)
    requires Inv(w) && t in w.db.active
    ensures View(AfterGc(w.db), t, key) == View(w.db, t, key)
  {
    assert ActiveOk(w.db, t);
    if key in w.db.chains {
      var chain, s := w.db.chains[key], w.db.active[t].snapshot;
      KeptPrefix(chain, 0, w.db.horizon, s);
      assert chain[0..] == chain;
      assert chain[0..KeepFrom(chain, 0, w.db.horizon)] == Truncated(chain, w.db.horizon);
    }
  }

  /** The exact effect of a step on a view: only installing a version that is older than the
      transaction changes it, and then it shows exactly that version. */
  lemma StepView(w: World, a: Action, t: u64, key: Text)
    requires Inv(w) && Enabled(w, a) && t in w.db.active && t in Apply(w, a).db.active
    ensures View(Apply(w, a).db, t, key) ==
            if a.Install? && a.key == key && a.version.txid < t then
              if a.version.tombstone then None else Some(a.version)
            else View(w.db, t, key)
  {
    assert ActiveOk(w.db, t);
    match a
    case Install(k, v) =>
      assert WriteId(w.db, v.txid);
      assert ([v] + ChainOf(w.db.chains, k))[1..] == ChainOf(w.db.chains, k);
    case Gc => GcInvisible(w, t, key);
    case _ =>
  }

  // ---- Repeatable reads ----

  /** No writer holds an id older than the transaction. */
  predicate NoneOlder(w: World, t: u64) {
    forall id :: id in w.inFlight ==> id > t
  }

  /** Ids are fresh, so a transaction that has ended stays ended. */
  lemma {:induction false} EndedForGood(w: World, actions: seq<Action>, t: u64)
    requires Runs(w, actions) && t <= w.db.clock && t !in w.db.active
    ensures t !in After(w, actions).db.active
    decreases actions
  {
    if |actions| > 0 { EndedForGood(Apply(w, actions[0]), actions[1..], t); }
  }

  lemma {:induction false} ViewStable(w: World, actions: seq<Action>, t: u64, key: Text)
    requires Inv(w) && Runs(w, actions) && t in w.db.active && NoneOlder(w, t)
    requires t in After(w, actions).db.active
    ensures View(After(w, actions).db, t, key) == View(w.db, t, key)
    decreases actions
  {
    if |actions| > 0 {
      var a, next := actions[0], Apply(w, actions[0]);
      assert ActiveOk(w.db, t);
      StepKeeps(w, a);
      if t !in next.db.active { EndedForGood(next, actions[1..], t); }
      StepView(w, a, t, key);
      ViewStable(next, actions[1..], t, key);
    }
  }

  /** Whatever happens while `t` stays active, every key reads as it does now. */
  ghost predicate Repeatable(w: World, t: u64)
    requires t in w.db.active
  {
    forall actions, key {:trigger Runs(w, actions), View(w.db, t, key)} ::
      Runs(w, actions) && t in After(w, actions).db.active ==>
        View(After(w, actions).db, t, key) == View(w.db, t, key)
  }

  lemma OlderInstallShows(w: World, t: u64, id: u64, key: Text)
    requires Inv(w) && t in w.db.active && id in w.inFlight && id <= t
    ensures !Repeatable(w, t)
  {
    var v := Version(id, [], false);
    var a := Install(key, v);
    assert ActiveOk(w.db, t) && WriteId(w.db, id);
    StepView(w, a, t, key);
    NotYetSeen(w, t, key, id);
    var actions := [a];
    assert actions[1..] == [];
    assert After(w, actions) == After(Apply(w, a), []) == Apply(w, a);
    assert Runs(w, actions);
    assert View(After(w, actions).db, t, key) != View(w.db, t, key);
  }

  lemma {:induction false} SeenIsInChain(chain: seq<Version>, s: Snapshot)
    ensures FirstVisible(chain, s).Some? ==> FirstVisible(chain, s).value in chain
  {
    if |chain| > 0 { SeenIsInChain(chain[1..], s); }
  }

  lemma NotYetSeen(w: World, t: u64, key: Text, id: u64)
    requires Inv(w) && t in w.db.active && id in w.inFlight
    ensures View(w.db, t, key).Some? ==> View(w.db, t, key).value.txid != id
  {
    SeenIsInChain(ChainOf(w.db.chains, key), w.db.active[t].snapshot);
  }

  /** Repeatable reads, exactly: over all continuations of any reachable state, a
      transaction's reads never change if and only if no writer that took its id before the
      transaction began has still to install its version. */
  lemma RepeatableExactly(w: World, t: u64)
    requires Inv(w) && t in w.db.active
    ensures Repeatable(w, t) <==> NoneOlder(w, t)
  {
    if NoneOlder(w, t) {
      forall actions, key | Runs(w, actions) && t in After(w, actions).db.active
        ensures View(After(w, actions).db, t, key) == View(w.db, t, key)
      {
        ViewStable(w, actions, t, key);
      }
    } else {
      var id :| id in w.inFlight && id <= t;
      OlderInstallShows(w, t, id, []);
    }
  }

  /** In particular: a transaction that begins while no write is in flight has repeatable reads. */
  lemma QuiescentBegin(w: World, id: u64)
    requires Inv(w) && w.inFlight == {} && id > w.db.clock
    ensures var begun := Apply(w, Begin(id)); id in begun.db.active && Repeatable(begun, id)
  {
    StepKeeps(w, Begin(id));
    RepeatableExactly(Apply(w, Begin(id)), id);
  }
}
