/** Multi-version concurrency control: snapshots, optimistic validation and garbage
    collection as a transition system. Every manager method is one atomic step; a document
    write is two, taking an id and installing the version, and they may be interleaved. */
module Mvcc {
  import opened Bytes

  datatype Version = Version(txid: u64, data: Text, tombstone: bool)
  datatype Snapshot = Snapshot(txid: u64, activeTxids: set<u64>)
  datatype Transaction = Transaction(txid: u64, snapshot: Snapshot, readSet: set<Text>)
  type Chains = map<Text, seq<Version>>

  /** The manager's state; `clock` is the last id that the generator has returned. */
  datatype Db = Db(clock: u64, active: map<u64, Transaction>, chains: Chains, horizon: u64)

  datatype CommitResult = Committed | NotFound | WriteConflict(key: Text, winner: u64)

  // ---- Reading ----

  predicate IsVisible(s: Snapshot, txid: u64) {
    txid <= s.txid && txid !in s.activeTxids
  }

  function ChainOf(chains: Chains, key: Text): seq<Version> {
    if key in chains then chains[key] else []
  }

  function FirstVisible(chain: seq<Version>, s: Snapshot): Option<Version> {
    if |chain| == 0 then None
    else if IsVisible(s, chain[0].txid) then Some(chain[0])
    else FirstVisible(chain[1..], s)
  }

  function Live(v: Option<Version>): Option<Version> {
    if v.Some? && v.value.tombstone then None else v
  }

  /** `read_version`. */
  function ReadVersion(chains: Chains, key: Text, s: Snapshot): Option<Version> {
    Live(FirstVisible(ChainOf(chains, key), s))
  }

  /** The place of the first version in a chain that is not above the snapshot's id and not
      among its active ids. */
  predicate FirstSeenAt(chain: seq<Version>, s: Snapshot, i: int) {
    0 <= i < |chain| && chain[i].txid <= s.txid && chain[i].txid !in s.activeTxids
    && forall j :: 0 <= j < i ==> chain[j].txid > s.txid || chain[j].txid in s.activeTxids
  }

  lemma {:induction false} FirstVisibleAt(chain: seq<Version>, s: Snapshot)
    ensures match FirstVisible(chain, s)
            case None => forall i :: 0 <= i < |chain| ==> chain[i].txid > s.txid || chain[i].txid in s.activeTxids
            case Some(v) => exists i :: FirstSeenAt(chain, s, i) && chain[i] == v
  {
    if |chain| > 0 {
      if IsVisible(s, chain[0].txid) {
        assert FirstSeenAt(chain, s, 0);
      } else {
        var rest := chain[1..];
        FirstVisibleAt(rest, s);
        assert forall i :: 0 < i < |chain| ==> chain[i] == rest[i - 1];
        if FirstVisible(chain, s).Some? {
          var i :| FirstSeenAt(rest, s, i) && rest[i] == FirstVisible(rest, s).value;
          assert FirstSeenAt(chain, s, i + 1);
        }
      }
    }
  }

  /** A read gives the first version that the snapshot sees unless that is a tombstone; it
      gives nothing if the snapshot sees none, or first sees a tombstone. */
  lemma ReadExactly(chains: Chains, key: Text, s: Snapshot, v: Version)
    ensures var chain := ChainOf(chains, key);
      (ReadVersion(chains, key, s) == Some(v) <==>
         !v.tombstone && exists i :: FirstSeenAt(chain, s, i) && chain[i] == v)
      && (ReadVersion(chains, key, s) == None <==>
            forall i :: FirstSeenAt(chain, s, i) ==> chain[i].tombstone)
  {
    var chain := ChainOf(chains, key);
    FirstVisibleAt(chain, s);
    forall i, j | FirstSeenAt(chain, s, i) && FirstSeenAt(chain, s, j) ensures i == j {}
  }

  // ---- Garbage collection ----

  /** How many versions `gc` keeps: up to and including the first, other than the newest,
      that is older than the horizon. */
  function KeepFrom(chain: seq<Version>, i: nat, horizon: u64): (n: nat)
    requires i <= |chain|
    ensures i <= n <= |chain|
    ensures i == 0 && |chain| > 0 ==> n > 0
    decreases |chain| - i
  {
    if i == |chain| then i
    else if chain[i].txid < horizon && i > 0 then i + 1
    else KeepFrom(chain, i + 1, horizon)
  }

  function Truncated(chain: seq<Version>, horizon: u64): (r: seq<Version>)
    ensures r <= chain
  {
    chain[..KeepFrom(chain, 0, horizon)]
  }

  function Collected(chains: Chains, horizon: u64): Chains {
    map k | k in chains :: Truncated(chains[k], horizon)
  }

  /** The places of all versions in all chains. */
  ghost function Slots(chains: Chains): set<(Text, int)> {
    set k, i | k in chains && 0 <= i < |chains[k]| :: (k, i)
  }

  ghost function Places(k: Text, start: int, count: nat): set<(Text, int)> {
    set i | start <= i < start + count :: (k, i)
  }

  lemma {:induction false} PlacesCount(k: Text, start: int, count: nat)
    ensures |Places(k, start, count)| == count
    decreases count
  {
    if count == 0 {
      assert Places(k, start, 0) == {};
    } else {
      PlacesCount(k, start, count - 1);
      assert Places(k, start, count) == Places(k, start, count - 1) + {(k, start + count - 1)};
    }
  }

  /** Truncating a chain takes away as many places as it is cut. */
  lemma SlotsTruncated(chains: Chains, k: Text, n: nat)
    requires k in chains && n <= |chains[k]|
    ensures |Slots(chains[k := chains[k][..n]])| == |Slots(chains)| - (|chains[k]| - n)
  {
    var after, gone := chains[k := chains[k][..n]], Places(k, n, |chains[k]| - n);
    PlacesCount(k, n, |chains[k]| - n);
    assert Slots(after) !! gone;
    assert Slots(chains) == Slots(after) + gone;
  }

  // ---- The horizon ----

  lemma {:induction false} LeastExists(ids: set<u64>) returns (m: u64)
    requires ids != {}
    ensures m in ids && forall k :: k in ids ==> m <= k
  {
    var x :| x in ids;
    var rest := ids - {x};
    if rest == {} {
      assert ids == {x};
      m := x;
    } else {
      var n := LeastExists(rest);
      m := if n < x then n else x;
      assert ids == rest + {x};
    }
  }

  ghost function Least(ids: set<u64>): (m: u64)
    requires ids != {}
    ensures m in ids && forall k :: k in ids ==> m <= k
  {
    assert exists m: u64 :: m in ids && forall k :: k in ids ==> m <= k by {
      var m := LeastExists(ids);
    }
    var m: u64 :| m in ids && forall k :: k in ids ==> m <= k;
    m
  }

  /** `update_horizon`. */
  ghost function WithHorizon(db: Db): Db {
    db.(horizon := if db.active == map[] then db.clock else
                     assert db.active.Keys != {};
                     Least(db.active.Keys))
  }

  // ---- The methods as state transformers ----

  ghost function Began(db: Db, id: u64): Db {
    var txn := Transaction(id, Snapshot(id, db.active.Keys), {});
    WithHorizon(db.(clock := id, active := db.active[id := txn]))
  }

  /** Some key that was read has a version from after the snapshot. */
  predicate Conflict(chains: Chains, txn: Transaction) {
    exists key :: key in txn.readSet
      && exists i :: 0 <= i < |ChainOf(chains, key)|
           && ChainOf(chains, key)[i].txid > txn.snapshot.txid
           && ChainOf(chains, key)[i].txid !in txn.snapshot.activeTxids
  }

  /** The first version of a chain that is newer than the snapshot: the winner that a failed
      commit names. */
  function Winner(chain: seq<Version>, txn: Transaction): Option<u64> {
    if |chain| == 0 then None
    else if chain[0].txid > txn.snapshot.txid && chain[0].txid !in txn.snapshot.activeTxids then Some(chain[0].txid)
    else Winner(chain[1..], txn)
  }

  lemma {:induction false} WinnerExact(chain: seq<Version>, txn: Transaction)
    ensures Winner(chain, txn).Some? <==>
      exists i :: 0 <= i < |chain| && chain[i].txid > txn.snapshot.txid && chain[i].txid !in txn.snapshot.activeTxids
    ensures Winner(chain, txn).Some? ==> exists i :: Wins(chain, i, txn) && Winner(chain, txn).value == chain[i].txid
  {
    if |chain| > 0 {
      WinnerExact(chain[1..], txn);
      assert forall i :: 0 < i < |chain| ==> chain[i] == chain[1..][i - 1];
      assert forall i :: 0 <= i < |chain| - 1 ==> chain[1..][i] == chain[i + 1];
      if Winner(chain, txn).Some? {
        if chain[0].txid > txn.snapshot.txid && chain[0].txid !in txn.snapshot.activeTxids {
          assert Wins(chain, 0, txn);
        } else {
          var i :| Wins(chain[1..], i, txn) && Winner(chain, txn).value == chain[1..][i].txid;
          assert Wins(chain, i + 1, txn);
        }
      }
    }
  }

  /** Version `i` is the first of the chain that is neither below nor in the snapshot. */
  predicate Wins(chain: seq<Version>, i: int, txn: Transaction) {
    0 <= i < |chain| && chain[i].txid > txn.snapshot.txid && chain[i].txid !in txn.snapshot.activeTxids
    && forall j :: 0 <= j < i ==> chain[j].txid <= txn.snapshot.txid || chain[j].txid in txn.snapshot.activeTxids
  }

  predicate CommitOk(db: Db, txid: u64) {
    txid in db.active && !Conflict(db.chains, db.active[txid])
  }

  /** `abort`, and what `commit` does to a known transaction whether or not it succeeds. */
  ghost function Removed(db: Db, txid: u64): Db {
    WithHorizon(db.(active := db.active - {txid}))
  }

  ghost function AfterCommit(db: Db, txid: u64): Db {
    if txid in db.active then Removed(db, txid) else db
  }

  function Recorded(db: Db, txid: u64, key: Text): Db {
    if txid !in db.active then db
    else
      var txn := db.active[txid];
      db.(active := db.active[txid := txn.(readSet := txn.readSet + {key})])
  }

  function Installed(db: Db, key: Text, v: Version): Db {
    db.(chains := db.chains[key := [v] + ChainOf(db.chains, key)])
  }

  function AfterGc(db: Db): Db {
    db.(chains := Collected(db.chains, db.horizon))
  }

  // ---- The manager ----

  class MvccManager {
    var clock: u64
    var active: map<u64, Transaction>
    var chains: Chains
    var horizon: u64

    constructor (seed: u64)
      ensures State() == Db(seed, map[], map[], 0)
    {
      clock, active, chains, horizon := seed, map[], map[], 0;
    }

    function State(): Db
      reads this
    {
      Db(clock, active, chains, horizon)
    }

    method UpdateHorizon()
      modifies this`horizon
      ensures State() == WithHorizon(old(State()))
    {
      if active == map[] {
        horizon := clock;
      } else {
        var ids := active.Keys;
        assert ids != {};
        var least :| least in ids;
        var rest := ids - {least};
        while rest != {}
          invariant rest <= ids && least in ids
          invariant least in ids - rest && forall k :: k in ids - rest ==> least <= k
          decreases rest
        {
          var k :| k in rest;
          ghost var seen := ids - rest;
          rest := rest - {k};
          assert ids - rest == seen + {k};
          if k < least { least := k; }
        }
        assert ids - rest == ids;
        assert least == Least(ids);
        horizon := least;
      }
    }

    /** `begin_transaction`, given the id that the generator returns. */
    method BeginTransaction(id: u64) returns (txn: Transaction)
      requires id > clock
      modifies this
      ensures State() == Began(old(State()), id)
      ensures txn == Transaction(id, Snapshot(id, old(active).Keys), {}) && id in active && active[id] == txn
    {
      clock := id;
      txn := Transaction(id, Snapshot(id, active.Keys), {});
      active := active[id := txn];
      UpdateHorizon();
    }

    /** `record_read`, on the transaction that `commit` will look at. */
    method RecordRead(txid: u64, key: Text)
      modifies this`active
      ensures State() == Recorded(old(State()), txid, key)
    {
      if txid in active {
        var txn := active[txid];
        active := active[txid := txn.(readSet := txn.readSet + {key})];
      }
    }

    /** `commit`: the scan over the read set and its version chains. */
    method Commit(txid: u64) returns (r: CommitResult)
      modifies this
      ensures State() == AfterCommit(old(State()), txid)
      ensures match r
              case NotFound => txid !in old(active)
              case Committed =>
                CommitOk(old(State()), txid) && txid in old(active)
                && forall key, i {:trigger ChainOf(old(chains), key)[i]} ::
                  key in old(active)[txid].readSet && 0 <= i < |ChainOf(old(chains), key)| ==>
                    var id := ChainOf(old(chains), key)[i].txid;
                    id <= old(active)[txid].snapshot.txid || id in old(active)[txid].snapshot.activeTxids
              case WriteConflict(key, winner) =>
                txid in old(active) && !CommitOk(old(State()), txid)
                && key in old(active)[txid].readSet
                && exists i :: Wins(ChainOf(old(chains), key), i, old(active)[txid])
                     && winner == ChainOf(old(chains), key)[i].txid
    {
      if txid !in active { return NotFound; }
      var txn := active[txid];
      var todo := txn.readSet;
      while todo != {}
        invariant State() == old(State()) && todo <= txn.readSet
        invariant forall key :: key in txn.readSet - todo ==> Winner(ChainOf(chains, key), txn).None?
        decreases todo
      {
        var key :| key in todo;
        var winner := ScanChain(ChainOf(chains, key), txn);
        if winner.Some? {
          WinnerExact(ChainOf(chains, key), txn);
          active := active - {txid};
          UpdateHorizon();
          return WriteConflict(key, winner.value);
        }
        todo := todo - {key};
      }
      forall key | key in txn.readSet
        ensures !exists i :: 0 <= i < |ChainOf(chains, key)|
                  && ChainOf(chains, key)[i].txid > txn.snapshot.txid
                  && ChainOf(chains, key)[i].txid !in txn.snapshot.activeTxids
      {
        WinnerExact(ChainOf(chains, key), txn);
      }
      active := active - {txid};
      UpdateHorizon();
      return Committed;
    }

    /** `abort`. */
    method Abort(txid: u64)
      modifies this
      ensures State() == Removed(old(State()), txid)
    {
      active := active - {txid};
      UpdateHorizon();
    }

    /** `add_version`: newest first. */
    method AddVersion(key: Text, v: Version)
      modifies this`chains
      ensures State() == Installed(old(State()), key, v)
    {
      chains := chains[key := [v] + ChainOf(chains, key)];
    }

    /** `read_version`: the walk down the chain. */
    method Read(key: Text, s: Snapshot) returns (r: Option<Version>)
      ensures r == ReadVersion(chains, key, s)
      ensures match r
              case None => forall i :: FirstSeenAt(ChainOf(chains, key), s, i) ==> ChainOf(chains, key)[i].tombstone
              case Some(v) => !v.tombstone && exists i :: FirstSeenAt(ChainOf(chains, key), s, i) && ChainOf(chains, key)[i] == v
    {
      ReadExactly(chains, key, s, Version(0, [], false));
      if ReadVersion(chains, key, s).Some? { ReadExactly(chains, key, s, ReadVersion(chains, key, s).value); }
      if key !in chains { return None; }
      var chain, i := chains[key], 0;
      while i < |chain|
        invariant 0 <= i <= |chain|
        invariant FirstVisible(chain, s) == FirstVisible(chain[i..], s)
      {
        if IsVisible(s, chain[i].txid) {
          return if chain[i].tombstone then None else Some(chain[i]);
        }
        assert chain[i..][1..] == chain[i + 1..];
        i := i + 1;
      }
      return None;
    }

    /** `gc`: truncates every chain and counts the versions it drops. */
    method Gc() returns (purged: nat)
      modifies this`chains
      ensures State() == AfterGc(old(State()))
      ensures purged == |Slots(old(chains))| - |Slots(chains)|
    {
      var todo := chains.Keys;
      purged := 0;
      while todo != {}
        invariant todo <= chains.Keys == old(chains).Keys
        invariant forall k :: k in todo ==> chains[k] == old(chains)[k]
        invariant forall k :: k in chains.Keys - todo ==> chains[k] == Truncated(old(chains)[k], horizon)
        invariant purged == |Slots(old(chains))| - |Slots(chains)|
        decreases todo
      {
        var k :| k in todo;
        var chain, keep := chains[k], 0;
        while keep < |chain| && !(keep > 1 && chain[keep - 1].txid < horizon)
          invariant 0 <= keep <= |chain|
          invariant if keep > 1 && chain[keep - 1].txid < horizon then KeepFrom(chain, 0, horizon) == keep
                    else KeepFrom(chain, 0, horizon) == KeepFrom(chain, keep, horizon)
        {
          keep := keep + 1;
        }
        if |chain| > keep {
          purged := purged + (|chain| - keep);
          SlotsTruncated(chains, k, keep);
          chains := chains[k := chain[..keep]];
        } else {
          assert chain[..keep] == chain;
        }
        todo := todo - {k};
      }
    }
  }

  /** The inner loop of `commit`, over the versions of one key. */
  method ScanChain(chain: seq<Version>, txn: Transaction) returns (winner: Option<u64>)
    ensures winner == Winner(chain, txn)
  {
    var rest := chain;
    while |rest| > 0
      invariant Winner(rest, txn) == Winner(chain, txn)
    {
      if rest[0].txid > txn.snapshot.txid && rest[0].txid !in txn.snapshot.activeTxids { return Some(rest[0].txid); }
      rest := rest[1..];
    }
    return None;
  }
}
