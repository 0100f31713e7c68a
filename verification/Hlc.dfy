/** The hybrid logical clock: 48 bits of physical milliseconds over a 16-bit counter, packed
    into the `u64` that serves as a transaction id. */
module Hlc {
  import opened Bytes

  const MAX_DRIFT_MS: nat := 60_000
  const MAX_ID: nat := 0xFFFF_FFFF_FFFF_FFFF
  const MAX_LOGICAL: nat := 0xFFFF

  // ---- Timestamps ----

  function Physical(ts: u64): (ms: nat)
    ensures ms < TWO_48
  {
    ts / TWO_16
  }

  function Logical(ts: u64): (l: u16) { ts % TWO_16 }

  /** `HlcTimestamp::new`: the shift drops physical bits beyond the 48th. */
  function Pack(physicalMs: nat, logical: u16): u64 {
    physicalMs % TWO_48 * TWO_16 + logical
  }

  /** Packing is a bijection that turns the order of pairs into the order of ids. */
  lemma PackOrder(p: nat, l: u16, q: nat, m: u16)
    requires p < TWO_48 && q < TWO_48
    ensures Physical(Pack(p, l)) == p && Logical(Pack(p, l)) == l
    ensures Pack(p, l) < Pack(q, m) <==> p < q || (p == q && l < m)
  {}

  lemma Unpack(ts: u64)
    ensures Pack(Physical(ts), Logical(ts)) == ts
  {}

  // ---- One round of each loop: the new state for the state that was loaded ----

  /** What `now` tries to install. */
  function NowNext(wallMs: nat, seen: u64): u64 {
    if wallMs > Physical(seen) then Pack(wallMs, 0)
    else
      var logical := if Logical(seen) == MAX_LOGICAL then 0 else Logical(seen) + 1;
      Pack(if logical == 0 then Physical(seen) + 1 else Physical(seen), logical)
  }

  /** `u16` addition of one, as a release build does it. */
  function Inc(l: u16): u16 { (l + 1) % TWO_16 }

  function Max(a: int, b: int): int { if a < b then b else a }

  /** What `recv` tries to install for a remote timestamp that is not too far ahead. */
  function RecvNext(wallMs: nat, remote: u64, seen: u64): u64 {
    var p := Max(Max(Physical(seen), Physical(remote)), wallMs);
    var logical :=
      if p == Physical(seen) && p == Physical(remote) then Inc(Max(Logical(seen), Logical(remote)))
      else if p == Physical(seen) then Inc(Logical(seen))
      else if p == Physical(remote) then Inc(Logical(remote))
      else 0;
    Pack(p, logical)
  }

  predicate Rejected(wallMs: nat, remote: u64) { Physical(remote) > wallMs + MAX_DRIFT_MS }

  /** The counter that `recv` increments is already at its maximum. */
  predicate RecvOverflows(wallMs: nat, remote: u64, seen: u64) {
    var top := Max(seen, remote);
    wallMs <= Physical(top) && Logical(top) == MAX_LOGICAL
  }

  /** Until the very last id, `now` yields the least id above both the state and the wall clock. */
  lemma NowIsLeast(wallMs: nat, seen: u64)
    requires wallMs < TWO_48
    ensures seen < MAX_ID ==> NowNext(wallMs, seen) == Max(seen + 1, Pack(wallMs, 0))
    ensures NowNext(wallMs, seen) > seen <==> seen < MAX_ID
  {}

  /** The id after `top`, if its counter is not exhausted. */
  lemma NextOf(top: u64)
    ensures Logical(top) < MAX_LOGICAL ==> Pack(Physical(top), Inc(Logical(top))) == top + 1
    ensures Logical(top) == MAX_LOGICAL ==> Pack(Physical(top), Inc(Logical(top))) <= top
  {
    Unpack(top);
  }

  lemma WallOrder(wallMs: nat, top: u64)
    requires wallMs < TWO_48
    ensures wallMs <= Physical(top) <==> Pack(wallMs, 0) <= top
  {
    Unpack(top);
    PackOrder(Physical(top), Logical(top), wallMs, 0);
  }

  /** Exactly when the counter does not overflow, `recv` yields the least id above the state,
      the remote timestamp and the wall clock. */
  lemma RecvIsLeast(wallMs: nat, remote: u64, seen: u64)
    requires wallMs < TWO_48
    ensures !RecvOverflows(wallMs, remote, seen) ==>
              RecvNext(wallMs, remote, seen) == Max(Max(seen, remote) + 1, Pack(wallMs, 0))
    ensures RecvNext(wallMs, remote, seen) > seen && RecvNext(wallMs, remote, seen) > remote
            <==> !RecvOverflows(wallMs, remote, seen)
  {
    NextOf(Max(seen, remote));
    WallOrder(wallMs, Max(seen, remote));
  }

  /** The overflow is real: an exhausted counter makes `recv` move the clock back. */
  lemma RecvOverflowMovesBack(wallMs: nat, seen: u64)
    requires wallMs <= Physical(seen) && Logical(seen) == MAX_LOGICAL && Physical(seen) > 0
    ensures RecvNext(wallMs, 0, seen) < seen
  {}

  // ---- The clock used by one thread ----

  class HlcClock {
    var state: u64

    constructor (wallMs: nat)
      ensures state == Pack(wallMs, 0)
    {
      state := Pack(wallMs, 0);
    }

    /** `now`, undisturbed: the first compare-and-swap succeeds. */
    method Now(wallMs: nat) returns (id: u64)
      requires wallMs < TWO_48 && state < MAX_ID
      modifies this
      ensures id == state == NowNext(wallMs, old(state)) && id > old(state)
    {
      NowIsLeast(wallMs, state);
      id := NowNext(wallMs, state);
      state := id;
    }

    /** `recv`, undisturbed; `wallLater` is the clock that a fallback to `now` reads. */
    method Recv(wallMs: nat, remote: u64, wallLater: nat) returns (id: u64)
      requires wallMs < TWO_48 && wallLater < TWO_48 && state < MAX_ID
      requires !Rejected(wallMs, remote) ==> !RecvOverflows(wallMs, remote, state)
      modifies this
      ensures id == state > old(state)
      ensures remote / 65536 <= wallMs + 60_000 ==> id == Max(Max(old(state), remote) + 1, 65536 * wallMs)
      ensures remote / 65536 > wallMs + 60_000 ==> id == Max(old(state) + 1, 65536 * wallLater)
    {
      hide RecvNext, RecvOverflows, NowNext;
      if Rejected(wallMs, remote) {
        NowIsLeast(wallLater, state);
        id := Now(wallLater);
      } else {
        RecvIsLeast(wallMs, remote, state);
        id := RecvNext(wallMs, remote, state);
        state := id;
      }
    }

    /** `advance_to`. */
    method AdvanceTo(min: u64)
      modifies this
      ensures state == Max(old(state), min)
    {
      if state < min { state := min; }
    }
  }

  // ---- Threads: load, compute, compare-and-swap, in any interleaving ----

  datatype Thread =
    | Idle
    | NowStart(wallMs: nat)
    | NowLoaded(wallMs: nat, seen: u64)
    | RecvStart(wallMs: nat, remote: u64)
    | RecvLoaded(wallMs: nat, remote: u64, seen: u64)
    | AdvanceStart(min: u64)
    | AdvanceLoaded(min: u64, seen: u64)

  /** An id handed out, with the remote timestamp it answers if `recv` returned it. */
  datatype Issued = Issued(id: u64, remote: Option<u64>)

  datatype System = System(clock: u64, threads: map<nat, Thread>, issued: seq<Issued>)

  datatype Action =
    | CallNow(wallMs: nat)
    | CallRecv(wallMs: nat, remote: u64)
    | CallAdvance(min: u64)
    | Load(wallMs: nat) // the wall clock is read again only when `recv` falls back to `now`
    | Cas

  datatype Step = Step(thread: nat, action: Action)

  function At(s: System, t: nat): Thread {
    if t in s.threads then s.threads[t] else Idle
  }

  function Goto(s: System, t: nat, next: Thread): System {
    s.(threads := s.threads[t := next])
  }

  function Issue(s: System, t: nat, id: u64, remote: Option<u64>): System {
    System(id, s.threads[t := Idle], s.issued + [Issued(id, remote)])
  }

  /** One atomic step of one thread; a step that does not fit the thread does nothing. */
  function Apply(s: System, step: Step): System {
    var t := step.thread;
    match (At(s, t), step.action)
    case (Idle, CallNow(wall)) => Goto(s, t, NowStart(wall))
    case (Idle, CallRecv(wall, remote)) => Goto(s, t, RecvStart(wall, remote))
    case (Idle, CallAdvance(min)) => Goto(s, t, AdvanceStart(min))
    case (NowStart(wall), Load(_)) => Goto(s, t, NowLoaded(wall, s.clock))
    case (NowLoaded(wall, seen), Cas) =>
      if s.clock == seen then Issue(s, t, NowNext(wall, seen), None) else Goto(s, t, NowStart(wall))
    case (RecvStart(wall, remote), Load(wallNow)) =>
      if Rejected(wall, remote) then Goto(s, t, NowStart(wallNow)) else Goto(s, t, RecvLoaded(wall, remote, s.clock))
    case (RecvLoaded(wall, remote, seen), Cas) =>
      if s.clock == seen then Issue(s, t, RecvNext(wall, remote, seen), Some(remote))
      else Goto(s, t, RecvStart(wall, remote))
    case (AdvanceStart(min), Load(_)) =>
      if s.clock >= min then Goto(s, t, Idle) else Goto(s, t, AdvanceLoaded(min, s.clock))
    case (AdvanceLoaded(min, seen), Cas) =>
      if s.clock == seen then System(min, s.threads[t := Idle], s.issued) else Goto(s, t, AdvanceStart(min))
    case _ => s
  }

  /** The step does not exhaust the 48 physical bits, the last id or `recv`'s counter. */
  predicate Fits(s: System, step: Step) {
    match (At(s, step.thread), step.action)
    case (NowLoaded(wall, seen), Cas) => s.clock == seen ==> wall < TWO_48 && seen < MAX_ID
    case (RecvLoaded(wall, remote, seen), Cas) => s.clock == seen ==> wall < TWO_48 && !RecvOverflows(wall, remote, seen)
    case _ => true
  }

  /** A run from a fresh clock: the states it goes through. */
  predicate Run(states: seq<System>, steps: seq<Step>) {
    |states| == |steps| + 1
    && states[0].threads == map[] && states[0].issued == []
    && forall i :: 0 <= i < |steps| ==> Fits(states[i], steps[i]) && states[i + 1] == Apply(states[i], steps[i])
  }

  /** Any clock begins a run, and any step that fits carries it on. */
  lemma RunGoesOn(s: System, states: seq<System>, steps: seq<Step>, step: Step)
    ensures s.threads == map[] && s.issued == [] ==> Run([s], [])
    ensures Run(states, steps) && Fits(states[|steps|], step) ==>
              Run(states + [Apply(states[|steps|], step)], steps + [step])
  {
    if Run(states, steps) && Fits(states[|steps|], step) {
      var longer := states + [Apply(states[|steps|], step)];
      assert longer[0] == states[0];
      forall i | 0 <= i <= |steps|
        ensures Fits(longer[i], (steps + [step])[i]) && longer[i + 1] == Apply(longer[i], (steps + [step])[i])
      {
        if i < |steps| { assert longer[i] == states[i] && longer[i + 1] == states[i + 1]; }
      }
    }
  }

  predicate Inv(s: System) {
    (forall i, j :: 0 <= i < j < |s.issued| ==> s.issued[i].id < s.issued[j].id)
    && (forall i :: 0 <= i < |s.issued| ==> s.issued[i].id <= s.clock)
    && (forall i :: 0 <= i < |s.issued| && s.issued[i].remote.Some? ==> s.issued[i].id > s.issued[i].remote.value)
    && (forall t :: t in s.threads ==> SeenBelow(s.threads[t], s.clock))
  }

  /** What a thread has loaded is not above the clock. */
  predicate SeenBelow(thread: Thread, clock: u64) {
    match thread
    case NowLoaded(_, seen) => seen <= clock
    case RecvLoaded(_, _, seen) => seen <= clock
    case AdvanceLoaded(min, seen) => seen <= clock && seen < min
    case _ => true
  }

  lemma GotoKeeps(s: System, t: nat, next: Thread)
    requires Inv(s) && SeenBelow(next, s.clock)
    ensures Inv(Goto(s, t, next))
  {}

  lemma AdvanceKeeps(s: System, t: nat, min: u64)
    requires Inv(s) && s.clock <= min
    ensures Inv(System(min, s.threads[t := Idle], s.issued))
  {}

  lemma IssueKeeps(s: System, t: nat, id: u64, remote: Option<u64>)
    requires Inv(s) && id > s.clock && (remote.Some? ==> id > remote.value)
    ensures Inv(Issue(s, t, id, remote))
  {}

  /** A compare-and-swap: an id is issued, the clock is advanced, or the thread starts over. */
  lemma CasKeeps(s: System, t: nat)
    requires Inv(s) && Fits(s, Step(t, Cas))
    ensures Inv(Apply(s, Step(t, Cas)))
  {
    assert SeenBelow(At(s, t), s.clock);
    match At(s, t)
    case NowLoaded(wall, seen) =>
      if s.clock == seen {
        NowIsLeast(wall, seen);
        IssueKeeps(s, t, NowNext(wall, seen), None);
      } else {
        GotoKeeps(s, t, NowStart(wall));
      }
    case RecvLoaded(wall, remote, seen) =>
      if s.clock == seen {
        RecvIsLeast(wall, remote, seen);
        IssueKeeps(s, t, RecvNext(wall, remote, seen), Some(remote));
      } else {
        GotoKeeps(s, t, RecvStart(wall, remote));
      }
    case AdvanceLoaded(min, seen) =>
      if s.clock == seen { AdvanceKeeps(s, t, min); } else { GotoKeeps(s, t, AdvanceStart(min)); }
    case _ =>
  }

  /** A call or a load moves only the thread. */
  lemma MoveKeeps(s: System, step: Step)
    requires Inv(s) && Fits(s, step) && !step.action.Cas?
    ensures Inv(Apply(s, step)) && Apply(s, step).clock == s.clock && Apply(s, step).issued == s.issued
  {
    var t := step.thread;
    match (At(s, t), step.action)
    case (Idle, CallNow(wall)) => GotoKeeps(s, t, NowStart(wall));
    case (Idle, CallRecv(wall, remote)) => GotoKeeps(s, t, RecvStart(wall, remote));
    case (Idle, CallAdvance(min)) => GotoKeeps(s, t, AdvanceStart(min));
    case (NowStart(wall), Load(_)) => GotoKeeps(s, t, NowLoaded(wall, s.clock));
    case (RecvStart(wall, remote), Load(wallNow)) =>
      GotoKeeps(s, t, if Rejected(wall, remote) then NowStart(wallNow) else RecvLoaded(wall, remote, s.clock));
    case (AdvanceStart(min), Load(_)) =>
      GotoKeeps(s, t, if s.clock >= min then Idle else AdvanceLoaded(min, s.clock));
    case _ =>
  }

  lemma CasMoves(s: System, t: nat)
    requires Inv(s) && Fits(s, Step(t, Cas))
    ensures var next := Apply(s, Step(t, Cas));
      s.clock <= next.clock && s.issued <= next.issued && (|next.issued| > |s.issued| ==> s.clock < next.clock)
  {
    assert SeenBelow(At(s, t), s.clock);
    match At(s, t)
    case NowLoaded(wall, seen) => if s.clock == seen { NowIsLeast(wall, seen); }
    case RecvLoaded(wall, remote, seen) => if s.clock == seen { RecvIsLeast(wall, remote, seen); }
    case _ =>
  }

  lemma StepKeeps(s: System, step: Step)
    requires Inv(s) && Fits(s, step)
    ensures Inv(Apply(s, step))
    ensures s.clock <= Apply(s, step).clock
    ensures s.issued <= Apply(s, step).issued
    ensures |Apply(s, step).issued| > |s.issued| ==> s.clock < Apply(s, step).clock
  {
    if step.action.Cas? {
      CasKeeps(s, step.thread);
      CasMoves(s, step.thread);
    } else {
      MoveKeeps(s, step);
    }
  }

  predicate WallFits(thread: Thread) {
    match thread
    case NowLoaded(wall, _) => wall < TWO_48
    case RecvLoaded(wall, _, _) => wall < TWO_48
    case _ => true
  }

  /** An id that the step issues is above the clock and above the remote id it answers. */
  predicate IssuesAbove(s: System, step: Step) {
    var next := Apply(s, step);
    |next.issued| > |s.issued| ==>
      var last := next.issued[|next.issued| - 1];
      last.id > s.clock && (last.remote.Some? ==> last.id > last.remote.value)
  }

  /** With wall clocks below 48 bits, the steps that `Fits` leaves out are exactly those that
      go wrong: they issue an id that is not above the clock or not above the remote one. */
  lemma FitsExactly(s: System, step: Step)
    requires Inv(s) && WallFits(At(s, step.thread))
    ensures Fits(s, step) <==> IssuesAbove(s, step)
  {
    match (At(s, step.thread), step.action)
    case (NowLoaded(wall, seen), Cas) => NowIsLeast(wall, seen);
    case (RecvLoaded(wall, remote, seen), Cas) => RecvIsLeast(wall, remote, seen);
    case _ =>
  }

  /** Every run, any interleaving, any wall clocks below 48 bits, backward ones too: all ids
      handed out so far are distinct, increase in the order of the compare-and-swaps, do not
      exceed the clock, and the ids of accepted `recv`s exceed the remote timestamps they
      answer. */
  lemma {:induction false} ClockSafety(states: seq<System>, steps: seq<Step>, i: nat)
    requires Run(states, steps) && i < |states|
    ensures Inv(states[i])
    decreases i
  {
    if i > 0 {
      ClockSafety(states, steps, i - 1);
      StepKeeps(states[i - 1], steps[i - 1]);
    }
  }

  /** The clock never goes back and no issued id is ever forgotten or reordered. */
  lemma {:induction false} ClockMonotone(states: seq<System>, steps: seq<Step>, i: nat, j: nat)
    requires Run(states, steps) && i <= j < |states|
    ensures states[i].clock <= states[j].clock && states[i].issued <= states[j].issued
    decreases j
  {
    if i < j {
      ClockMonotone(states, steps, i, j - 1);
      ClockSafety(states, steps, j - 1);
      StepKeeps(states[j - 1], steps[j - 1]);
    }
  }

  /** Lock freedom: a compare-and-swap fails only if the clock has moved up since the load,
      so some other thread's succeeded; a loaded value never comes back. */
  lemma FailureMeansProgress(states: seq<System>, steps: seq<Step>, i: nat)
    requires Run(states, steps) && i < |steps| && steps[i].action == Cas
    ensures match At(states[i], steps[i].thread)
            case NowLoaded(wall, seen) =>
              |states[i + 1].issued| == |states[i].issued| ==> seen < states[i].clock
            case RecvLoaded(wall, remote, seen) =>
              |states[i + 1].issued| == |states[i].issued| ==> seen < states[i].clock
            case AdvanceLoaded(min, seen) => states[i + 1].clock == min || seen < states[i].clock
            case _ => true
  {
    ClockSafety(states, steps, i);
  }

  /** `advance_to` has done its work when it returns. */
  lemma AdvanceReaches(states: seq<System>, steps: seq<Step>, i: nat, min: u64)
    requires Run(states, steps) && i < |steps|
    requires At(states[i], steps[i].thread) == AdvanceStart(min)
             || (At(states[i], steps[i].thread).AdvanceLoaded? && At(states[i], steps[i].thread).min == min)
    requires At(states[i + 1], steps[i].thread) == Idle
    ensures states[i + 1].clock >= min
  {}

  // ---- Bounded drift ----

  /** The wall clocks that a step brings in are at most `wall`, its arguments of `advance_to` at
      most `min`. */
  predicate Brings(step: Step, wall: nat, min: u64) {
    match step.action
    case CallNow(w) => w <= wall
    case CallRecv(w, _) => w <= wall
    case Load(w) => w <= wall
    case CallAdvance(m) => m <= min
    case Cas => true
  }

  /** What a thread carries on is within those bounds, and a remote id that it will merge is at
      most a minute ahead. */
  predicate Carries(thread: Thread, wall: nat, min: u64) {
    match thread
    case Idle => true
    case NowStart(w) => w <= wall
    case NowLoaded(w, _) => w <= wall
    case RecvStart(w, _) => w <= wall
    case RecvLoaded(w, remote, _) => w <= wall && remote / 65536 <= wall + 60_000
    case AdvanceStart(m) => m <= min
    case AdvanceLoaded(m, _) => m <= min
  }

  /** The last id of the last millisecond that a remote clock may be ahead at `wall`. */
  function Farthest(wall: nat): nat { 65536 * (wall + 60_000) + 65535 }

  predicate Drifts(s: System, start: u64, wall: nat, min: u64) {
    s.clock <= Max(Max(start, min), Farthest(wall)) + |s.issued|
    && forall t :: t in s.threads ==> Carries(s.threads[t], wall, min)
  }

  lemma MergesBelow(wallMs: nat, remote: u64, seen: u64, wall: nat, bound: nat)
    requires wallMs <= wall && wallMs < TWO_48 && remote / 65536 <= wall + 60_000
    requires !RecvOverflows(wallMs, remote, seen) && seen <= bound && Farthest(wall) <= bound
    ensures RecvNext(wallMs, remote, seen) <= bound + 1
  {
    RecvIsLeast(wallMs, remote, seen);
  }

  lemma IssuesBelow(wallMs: nat, seen: u64, wall: nat, bound: nat)
    requires wallMs <= wall && wallMs < TWO_48 && seen < MAX_ID && seen <= bound && Farthest(wall) <= bound
    ensures NowNext(wallMs, seen) <= bound + 1
  {
    NowIsLeast(wallMs, seen);
  }

  lemma StepDrifts(s: System, step: Step, start: u64, wall: nat, min: u64)
    requires Fits(s, step) && Brings(step, wall, min) && Drifts(s, start, wall, min)
    ensures Drifts(Apply(s, step), start, wall, min)
  {
    var t := step.thread;
    var bound := Max(Max(start, min), Farthest(wall)) + |s.issued|;
    assert Carries(At(s, t), wall, min);
    match (At(s, t), step.action)
    case (NowLoaded(w, seen), Cas) => if s.clock == seen { IssuesBelow(w, seen, wall, bound); }
    case (RecvLoaded(w, remote, seen), Cas) => if s.clock == seen { MergesBelow(w, remote, seen, wall, bound); }
    case _ =>
  }

  /** Drift is bounded: if no wall clock shows more than `wall` ms, the clock is at most the
      larger of where it started, where it was advanced to and a minute past `wall`, plus one
      for each id issued, whatever the remote timestamps are. */
  lemma {:induction false} DriftBounded(states: seq<System>, steps: seq<Step>, wall: nat, min: u64, i: nat)
    requires Run(states, steps) && i < |states|
    requires forall k :: 0 <= k < |steps| ==> Brings(steps[k], wall, min)
    ensures Drifts(states[i], states[0].clock, wall, min)
    decreases i
  {
    if i > 0 {
      DriftBounded(states, steps, wall, min, i - 1);
      StepDrifts(states[i - 1], steps[i - 1], states[0].clock, wall, min);
    }
  }

  /** A remote timestamp is merged, and answered by a larger id, if and only if it is at most a
      minute ahead of the wall clock; otherwise `recv` goes on as `now`. */
  lemma MergesExactly(s: System, t: nat, wallMs: nat, remote: u64, wallNow: nat)
    requires At(s, t) == RecvStart(wallMs, remote)
    ensures var next := Apply(s, Step(t, Load(wallNow)));
      At(next, t) == if remote / 65536 <= wallMs + 60_000 then RecvLoaded(wallMs, remote, s.clock) else NowStart(wallNow)
    ensures var done := Apply(Apply(s, Step(t, Load(wallNow))), Step(t, Cas));
      remote / 65536 <= wallMs + 60_000 ==> done.issued == s.issued + [Issued(done.clock, Some(remote))]
    ensures var loaded := Apply(s, Step(t, Load(wallNow)));
      remote / 65536 <= wallMs + 60_000 && Fits(loaded, Step(t, Cas)) ==>
        Apply(loaded, Step(t, Cas)).clock == Max(Max(s.clock, remote) + 1, 65536 * wallMs)
  {
    if wallMs < TWO_48 { RecvIsLeast(wallMs, remote, s.clock); }
  }
}
