/** The learned (PGM-style) index: greedy fitting of linear segments to sorted keys, and a
    lookup that searches a window around the predicted position before it searches
    everything. The numeric image of a key is rounded to 53 bits as `f64` rounds it; the
    arithmetic on images and slopes is over `real`. */
module LearnedIndex {
  import opened Bytes
  import opened Rounding

  const EPSILON: nat := 64

  datatype Entry = Entry(key: Text, value: Text, txid: u64)
  datatype Segment = Segment(firstKey: Text, slope: real, intercept: real, startPos: nat)

  predicate SortedKeys(data: seq<Entry>) {
    forall i, j :: 0 <= i < j < |data| ==> LexLess(data[i].key, data[j].key)
  }

  // ---- Numeric images ----

  /** The big-endian number whose leading digits are `acc` and whose next `n` bytes are those
      of `key`, padded with zeros. */
  function Padded(key: Text, n: nat, acc: nat): nat
    decreases n, |key|, acc
  {
    if n == 0 then acc
    else if |key| == 0 then Padded([], n - 1, 256 * acc)
    else Padded(key[1..], n - 1, 256 * acc + key[0])
  }

  /** `bytes_to_f64`: the first eight bytes as a number, rounded as `u64 as f64` rounds. */
  function Image(key: Text): nat { RoundFrom(Padded(key, 8, 0), 1) }

  lemma {:induction false} LeadingDigits(a: Text, b: Text, n: nat, accA: nat, accB: nat)
    requires accA < accB
    ensures Padded(a, n, accA) < Padded(b, n, accB)
    decreases n
  {
    if n > 0 {
      LeadingDigits(if |a| == 0 then [] else a[1..], if |b| == 0 then [] else b[1..], n - 1,
                    256 * accA + (if |a| == 0 then 0 else a[0]), 256 * accB + (if |b| == 0 then 0 else b[0]));
    }
  }

  lemma {:induction false} PaddedMonotone(a: Text, b: Text, n: nat, acc: nat)
    requires LexLess(a, b) || a == b
    ensures Padded(a, n, acc) <= Padded(b, n, acc)
    decreases n
  {
    if n > 0 && a != b {
      if |a| == 0 {
        if b[0] == 0 {
          LexFromEmpty(b[1..]);
          PaddedMonotone([], b[1..], n - 1, 256 * acc);
        } else {
          LeadingDigits([], b[1..], n - 1, 256 * acc, 256 * acc + b[0]);
        }
      } else if a[0] < b[0] {
        LeadingDigits(a[1..], b[1..], n - 1, 256 * acc + a[0], 256 * acc + b[0]);
      } else {
        PaddedMonotone(a[1..], b[1..], n - 1, 256 * acc + a[0]);
      }
    }
  }

  lemma LexFromEmpty(b: Text)
    ensures LexLess([], b) || b == []
  {}

  /** The images of all keys. */
  function Xs(data: seq<Entry>): (xs: seq<real>)
    ensures |xs| == |data|
  {
    seq(|data|, i requires 0 <= i < |data| => Image(data[i].key) as real)
  }

  predicate Ascending(xs: seq<real>) { forall i, j :: 0 <= i <= j < |xs| ==> xs[i] <= xs[j] }

  /** Key order is kept, if not strictly: different keys may share an image. */
  lemma ImageMonotone(a: Text, b: Text)
    requires LexLess(a, b)
    ensures Image(a) <= Image(b)
  {
    PaddedMonotone(a, b, 8, 0);
    RoundFromMonotone(Padded(a, 8, 0), Padded(b, 8, 0), 1);
  }

  lemma ImagesAscend(data: seq<Entry>)
    requires SortedKeys(data)
    ensures Ascending(Xs(data))
  {
    forall i, j | 0 <= i <= j < |data| ensures Xs(data)[i] <= Xs(data)[j] {
      if i < j { ImageMonotone(data[i].key, data[j].key); }
    }
  }

  // ---- Fitting, over ascending images ----

  function Abs(x: real): real { if x < 0.0 then 0.0 - x else x }

  /** A line of this slope misses `t` at `dx` by at most `e`. */
  predicate Within(slope: real, dx: real, t: real, e: real) { Abs(slope * dx - t) <= e }

  /** The line through the segment's first entry misses position `j` by at most epsilon. */
  predicate Near(xs: seq<real>, epsilon: nat, start: nat, j: nat, slope: real)
    requires start <= j < |xs|
  {
    Within(slope, xs[j] - xs[start], (j - start) as real, epsilon as real)
  }

  /** `slope` serves every entry of `start..end` whose image differs from the first one's. */
  predicate Feasible(xs: seq<real>, epsilon: nat, start: nat, end: nat, slope: real)
    requires start <= end <= |xs|
  {
    forall j :: start <= j < end && xs[j] != xs[start] ==> Near(xs, epsilon, start, j, slope)
  }

  ghost predicate Infeasible(xs: seq<real>, epsilon: nat, start: nat, end: nat)
    requires start <= end <= |xs|
  {
    forall slope: real :: !Feasible(xs, epsilon, start, end, slope)
  }

  /** No slope would have served one entry more. */
  ghost predicate Maximal(xs: seq<real>, epsilon: nat, start: nat, end: nat)
    requires start <= end < |xs|
  {
    Infeasible(xs, epsilon, start, end + 1)
  }

  /** The slopes still possible: all of them (`-inf` to `+inf`), or an interval. */
  datatype Cone = Open | Between(lo: real, hi: real)

  predicate Admits(cone: Cone, slope: real) {
    cone.Open? || cone.lo <= slope <= cone.hi
  }

  /** The loop's knowledge about the segment that starts at `start`. */
  ghost predicate ConeOf(xs: seq<real>, epsilon: nat, start: nat, end: nat, cone: Cone)
    requires start < end <= |xs|
  {
    (forall slope: real :: Admits(cone, slope) <==> Feasible(xs, epsilon, start, end, slope))
    && (cone.Between? ==> cone.lo <= cone.hi && cone.hi > 0.0)
    && (cone.Between? && end - start <= epsilon + 1 ==> cone.lo <= 0.0)
  }

  lemma TimesDx(a: real, b: real, dx: real)
    requires dx > 0.0
    ensures a <= b <==> a * dx <= b * dx
  {}

  lemma QuotientTimes(n: real, dx: real)
    requires dx > 0.0
    ensures n / dx * dx == n
  {}

  /** The slopes that serve an entry `dx` and `t` positions after the first: from
      `new_slope_lo` to `new_slope_hi`. */
  function Constraint(dx: real, t: real, e: real): (c: Cone)
    requires dx != 0.0
    ensures c.Between?
  {
    Between((t - e) / dx, (t + e) / dx)
  }

  lemma ConstraintTimes(dx: real, t: real, e: real)
    requires dx > 0.0
    ensures Constraint(dx, t, e).lo * dx == t - e && Constraint(dx, t, e).hi * dx == t + e
  {
    QuotientTimes(t - e, dx);
    QuotientTimes(t + e, dx);
  }

  lemma ConstraintSign(dx: real, t: real, e: real)
    requires dx > 0.0 && t > 0.0 && e >= 0.0
    ensures var c := Constraint(dx, t, e); c.lo <= c.hi && c.hi > 0.0 && (t <= e ==> c.lo <= 0.0)
  {
    var c := Constraint(dx, t, e);
    ConstraintTimes(dx, t, e);
    TimesDx(c.lo, c.hi, dx);
    TimesDx(c.hi, 0.0, dx);
    TimesDx(c.lo, 0.0, dx);
  }

  lemma BoundsExact(slope: real, dx: real, lo: real, hi: real, t: real, e: real)
    requires dx > 0.0 && lo * dx == t - e && hi * dx == t + e
    ensures lo <= slope <= hi <==> Within(slope, dx, t, e)
  {
    TimesDx(lo, slope, dx);
    TimesDx(slope, hi, dx);
  }

  lemma ConstraintExact(dx: real, t: real, e: real, slope: real)
    requires dx > 0.0
    ensures Admits(Constraint(dx, t, e), slope) <==> Within(slope, dx, t, e)
  {
    var c := Constraint(dx, t, e);
    ConstraintTimes(dx, t, e);
    BoundsExact(slope, dx, c.lo, c.hi, t, e);
  }

  /** `slope_lo.max(new_slope_lo)` and `slope_hi.min(new_slope_hi)`. */
  function Meet(cone: Cone, c: Cone): (r: Cone)
    requires c.Between?
    ensures r.Between?
    ensures forall slope: real :: Admits(r, slope) <==> Admits(cone, slope) && Admits(c, slope)
  {
    match cone
    case Open => c
    case Between(l, h) => Between(if l < c.lo then c.lo else l, if h < c.hi then h else c.hi)
  }

  lemma FeasibleMore(xs: seq<real>, epsilon: nat, start: nat, i: nat, slope: real)
    requires start < i < |xs|
    ensures Feasible(xs, epsilon, start, i + 1, slope)
      <==> Feasible(xs, epsilon, start, i, slope)
           && (xs[i] != xs[start] ==> Near(xs, epsilon, start, i, slope))
  {}

  /** The cone after entry `i`. */
  function Narrowed(xs: seq<real>, epsilon: nat, start: nat, i: nat, cone: Cone): (next: Cone)
    requires start < i < |xs| && xs[i] != xs[start]
    ensures next.Between?
  {
    Meet(cone, Constraint(xs[i] - xs[start], (i - start) as real, epsilon as real))
  }

  lemma MeetExactAt(xs: seq<real>, epsilon: nat, start: nat, i: nat, cone: Cone, slope: real)
    requires Ascending(xs) && start < i < |xs| && xs[i] != xs[start]
    requires Admits(cone, slope) <==> Feasible(xs, epsilon, start, i, slope)
    ensures Admits(Narrowed(xs, epsilon, start, i, cone), slope) <==> Feasible(xs, epsilon, start, i + 1, slope)
  {
    ConstraintExact(xs[i] - xs[start], (i - start) as real, epsilon as real, slope);
    FeasibleMore(xs, epsilon, start, i, slope);
  }

  lemma MeetExact(xs: seq<real>, epsilon: nat, start: nat, i: nat, cone: Cone)
    requires Ascending(xs) && start < i < |xs| && xs[i] != xs[start]
    requires ConeOf(xs, epsilon, start, i, cone)
    ensures forall slope: real :: Admits(Narrowed(xs, epsilon, start, i, cone), slope)
                                  <==> Feasible(xs, epsilon, start, i + 1, slope)
  {
    forall slope: real
      ensures Admits(Narrowed(xs, epsilon, start, i, cone), slope) <==> Feasible(xs, epsilon, start, i + 1, slope)
    {
      MeetExactAt(xs, epsilon, start, i, cone, slope);
    }
  }

  lemma MeetKeeps(xs: seq<real>, epsilon: nat, start: nat, i: nat, cone: Cone)
    requires Ascending(xs) && start < i < |xs| && xs[i] != xs[start]
    requires ConeOf(xs, epsilon, start, i, cone)
    ensures var next := Narrowed(xs, epsilon, start, i, cone);
            next.lo <= next.hi ==> ConeOf(xs, epsilon, start, i + 1, next)
    ensures var next := Narrowed(xs, epsilon, start, i, cone);
            next.lo > next.hi ==> i - start >= epsilon + 1 && Maximal(xs, epsilon, start, i)
  {
    var next := Narrowed(xs, epsilon, start, i, cone);
    ConstraintSign(xs[i] - xs[start], (i - start) as real, epsilon as real);
    MeetExact(xs, epsilon, start, i, cone);
    if next.lo > next.hi {
      var end := i + 1;
      forall slope: real ensures !Feasible(xs, epsilon, start, end, slope) {
        assert !Admits(next, slope);
      }
    }
  }

  lemma SkipKeeps(xs: seq<real>, epsilon: nat, start: nat, i: nat, cone: Cone)
    requires start < i < |xs| && xs[i] == xs[start]
    requires ConeOf(xs, epsilon, start, i, cone)
    ensures ConeOf(xs, epsilon, start, i + 1, cone)
  {}

  lemma OpenCone(xs: seq<real>, epsilon: nat, start: nat)
    requires start < |xs|
    ensures ConeOf(xs, epsilon, start, start + 1, Open)
  {}

  /** The slope a finished segment gets: the middle of the cone, at least zero. */
  function Middle(cone: Cone): real {
    match cone
    case Open => 0.0
    case Between(lo, hi) => if (lo + hi) / 2.0 < 0.0 then 0.0 else (lo + hi) / 2.0
  }

  lemma MiddleFits(xs: seq<real>, epsilon: nat, start: nat, end: nat, cone: Cone)
    requires start < end <= |xs| && ConeOf(xs, epsilon, start, end, cone)
    ensures Middle(cone) >= 0.0 && Feasible(xs, epsilon, start, end, Middle(cone))
  {}

  // ---- Segments ----

  function EndOf(data: seq<Entry>, segments: seq<Segment>, s: nat): nat
    requires s < |segments|
  {
    if s + 1 < |segments| then segments[s + 1].startPos else |data|
  }

  predicate Layout(data: seq<Entry>, segments: seq<Segment>) {
    (forall s :: 0 <= s < |segments| ==>
       segments[s].startPos < |data| && segments[s].firstKey == data[segments[s].startPos].key
       && segments[s].intercept == 0.0)
    && (|segments| > 0 ==> segments[0].startPos == 0)
    && (forall s, t :: 0 <= s < t < |segments| ==> segments[s].startPos < segments[t].startPos)
  }

  /** A closed segment that serves the entries up to `end`. */
  ghost predicate Complete(xs: seq<real>, epsilon: nat, segment: Segment, end: nat) {
    segment.startPos + epsilon + 1 <= end < |xs|
    && segment.slope >= 0.0
    && Feasible(xs, epsilon, segment.startPos, end, segment.slope)
    && Maximal(xs, epsilon, segment.startPos, end)
  }

  ghost predicate AllComplete(xs: seq<real>, epsilon: nat, segments: seq<Segment>) {
    forall s :: 0 <= s < |segments| - 1 ==> Complete(xs, epsilon, segments[s], segments[s + 1].startPos)
  }

  /** The segments closed so far, before entry `start`. */
  ghost predicate Closed(xs: seq<real>, epsilon: nat, segments: seq<Segment>, start: nat) {
    (|segments| > 0 ==> Complete(xs, epsilon, segments[|segments| - 1], start)) && AllComplete(xs, epsilon, segments)
  }

  /** What fitting promises: the segments tile the data, each serves its entries, and each
      but the last is as long as its starting point allows, which is more than epsilon. */
  ghost predicate Models(data: seq<Entry>, epsilon: nat, segments: seq<Segment>) {
    Layout(data, segments)
    && (|data| == 0) == (|segments| == 0)
    && AllComplete(Xs(data), epsilon, segments)
    && (|segments| > 0 ==>
          var last := segments[|segments| - 1];
          last.slope >= 0.0 && Feasible(Xs(data), epsilon, last.startPos, |data|, last.slope))
  }

  lemma LayoutMore(data: seq<Entry>, segments: seq<Segment>, segment: Segment)
    requires Layout(data, segments)
    requires segment.startPos < |data| && segment.firstKey == data[segment.startPos].key && segment.intercept == 0.0
    requires if |segments| == 0 then segment.startPos == 0 else segments[|segments| - 1].startPos < segment.startPos
    ensures Layout(data, segments + [segment])
  {}

  lemma CompleteMore(xs: seq<real>, epsilon: nat, segments: seq<Segment>, start: nat, segment: Segment)
    requires Closed(xs, epsilon, segments, start) && segment.startPos == start
    ensures AllComplete(xs, epsilon, segments + [segment])
  {
    var all := segments + [segment];
    forall s | 0 <= s < |all| - 1 ensures Complete(xs, epsilon, all[s], all[s + 1].startPos) {
      if s < |segments| - 1 {
        assert all[s] == segments[s] && all[s + 1] == segments[s + 1];
      } else {
        assert all[s] == segments[|segments| - 1] && all[s + 1] == segment;
      }
    }
  }

  /** What the loop of `fit_segments` keeps. */
  ghost predicate Progress(data: seq<Entry>, epsilon: nat, segments: seq<Segment>, start: nat, i: nat, cone: Cone) {
    var xs := Xs(data);
    start < i <= |data|
    && Layout(data, segments)
    && (if |segments| == 0 then start == 0 else segments[|segments| - 1].startPos < start)
    && (Ascending(xs) ==> Closed(xs, epsilon, segments, start) && ConeOf(xs, epsilon, start, i, cone))
  }

  function Close(data: seq<Entry>, start: nat, cone: Cone): Segment
    requires start < |data|
  {
    Segment(data[start].key, Middle(cone), 0.0, start)
  }

  lemma ProgressClose(data: seq<Entry>, epsilon: nat, segments: seq<Segment>, start: nat, i: nat, cone: Cone)
    requires Progress(data, epsilon, segments, start, i, cone)
    ensures var all := segments + [Close(data, start, cone)]; var xs := Xs(data);
            Layout(data, all)
            && (Ascending(xs) ==>
                  AllComplete(xs, epsilon, all) && Middle(cone) >= 0.0 && Feasible(xs, epsilon, start, i, Middle(cone)))
  {
    LayoutMore(data, segments, Close(data, start, cone));
    if Ascending(Xs(data)) {
      MiddleFits(Xs(data), epsilon, start, i, cone);
      CompleteMore(Xs(data), epsilon, segments, start, Close(data, start, cone));
    }
  }

  lemma ProgressNext(data: seq<Entry>, epsilon: nat, segments: seq<Segment>, start: nat, i: nat, cone: Cone)
    requires Progress(data, epsilon, segments, start, i, cone) && i < |data|
    ensures var xs := Xs(data);
            if xs[i] == xs[start] then Progress(data, epsilon, segments, start, i + 1, cone)
            else
              var next := Narrowed(xs, epsilon, start, i, cone);
              if next.lo > next.hi then Progress(data, epsilon, segments + [Close(data, start, cone)], i, i + 1, Open)
              else Progress(data, epsilon, segments, start, i + 1, next)
  {
    var xs := Xs(data);
    OpenCone(xs, epsilon, i);
    ProgressClose(data, epsilon, segments, start, i, cone);
    if Ascending(xs) {
      if xs[i] == xs[start] { SkipKeeps(xs, epsilon, start, i, cone); } else { MeetKeeps(xs, epsilon, start, i, cone); }
    }
  }

  /** `fit_segments`: one pass, closing a segment when the cone would become empty. On any
      data the segments tile it; on sorted data they are a model of it. */
  method FitSegments(data: seq<Entry>, epsilon: nat) returns (segments: seq<Segment>)
    ensures Layout(data, segments) && (|data| == 0) == (|segments| == 0)
    ensures SortedKeys(data) ==> Models(data, epsilon, segments)
  {
    segments := [];
    if |data| == 0 { return; }
    var start, cone, i := 0, Open, 1;
    OpenCone(Xs(data), epsilon, 0);
    while i < |data|
      invariant Progress(data, epsilon, segments, start, i, cone)
    {
      ProgressNext(data, epsilon, segments, start, i, cone);
      var dx := Image(data[i].key) as real - Image(data[start].key) as real;
      if dx != 0.0 {
        var next := Meet(cone, Constraint(dx, (i - start) as real, epsilon as real));
        assert next == Narrowed(Xs(data), epsilon, start, i, cone);
        if next.lo > next.hi {
          segments := segments + [Segment(data[start].key, Middle(cone), 0.0, start)];
          start, cone := i, Open;
        } else {
          cone := next;
        }
      }
      i := i + 1;
    }
    ProgressClose(data, epsilon, segments, start, i, cone);
    if SortedKeys(data) { ImagesAscend(data); }
    segments := segments + [Segment(data[start].key, Middle(cone), 0.0, start)];
  }

  lemma {:induction false} StartsApart(segments: seq<Segment>, step: nat, s: nat)
    requires s < |segments|
    requires forall t :: 0 <= t < |segments| - 1 ==> segments[t].startPos + step <= segments[t + 1].startPos
    ensures segments[s].startPos >= s * step
    decreases s
  {
    if s > 0 {
      StartsApart(segments, step, s - 1);
      assert s * step == (s - 1) * step + step;
    }
  }

  /** The size of the model: `n` entries give at most `(n - 1) / (EPSILON + 1) + 1` segments. */
  lemma ModelSizeBound(data: seq<Entry>, segments: seq<Segment>)
    requires Models(data, EPSILON, segments) && |data| > 0
    ensures 1 <= |segments| <= (|data| - 1) / (EPSILON + 1) + 1
  {
    forall t | 0 <= t < |segments| - 1
      ensures segments[t].startPos + (EPSILON + 1) <= segments[t + 1].startPos
    {
      assert Complete(Xs(data), EPSILON, segments[t], segments[t + 1].startPos);
    }
    StartsApart(segments, EPSILON + 1, |segments| - 1);
  }

  // ---- Lookup ----

  /** Where a full search finds `key`. */
  function PositionFrom(data: seq<Entry>, key: Text, from: nat): (r: Option<nat>)
    requires from <= |data|
    decreases |data| - from
  {
    if from == |data| then None
    else if data[from].key == key then Some(from)
    else PositionFrom(data, key, from + 1)
  }

  function Position(data: seq<Entry>, key: Text): Option<nat> { PositionFrom(data, key, 0) }

  lemma {:induction false} PositionAt(data: seq<Entry>, i: nat, from: nat)
    requires SortedKeys(data) && from <= i < |data|
    ensures PositionFrom(data, data[i].key, from) == Some(i)
    decreases i - from
  {
    if from < i {
      LexAsymmetric(data[from].key, data[i].key);
      PositionAt(data, i, from + 1);
    }
  }

  lemma {:induction false} PositionNone(data: seq<Entry>, key: Text, from: nat)
    requires from <= |data| && forall i :: from <= i < |data| ==> data[i].key != key
    ensures PositionFrom(data, key, from) == None
    decreases |data| - from
  {
    if from < |data| { PositionNone(data, key, from + 1); }
  }

  /** `binary_search_by_key` on `data[lo..hi]`. */
  method SearchWindow(data: seq<Entry>, key: Text, lo: nat, hi: nat) returns (r: Option<nat>)
    requires SortedKeys(data) && lo <= hi <= |data|
    ensures r.Some? ==> lo <= r.value < hi && data[r.value].key == key
    ensures r.None? ==> forall i :: lo <= i < hi ==> data[i].key != key
  {
    var low, high := lo, hi;
    while low < high
      invariant lo <= low <= high <= hi
      invariant forall i :: lo <= i < low ==> LexLess(data[i].key, key)
      invariant forall i :: high <= i < hi ==> LexLess(key, data[i].key)
    {
      var mid := (low + high) / 2;
      if data[mid].key == key { return Some(mid); }
      if LexLess(data[mid].key, key) {
        forall i | lo <= i < mid + 1 ensures LexLess(data[i].key, key) {
          if low <= i < mid { LexTransitive(data[i].key, data[mid].key, key); }
        }
        low := mid + 1;
      } else {
        LexTotal(data[mid].key, key);
        forall i | mid <= i < hi ensures LexLess(key, data[i].key) {
          if mid < i < high { LexTransitive(key, data[mid].key, data[i].key); }
        }
        high := mid;
      }
    }
    forall i | lo <= i < hi ensures data[i].key != key {
      LexIrreflexive(key);
    }
    return None;
  }

  predicate LexAtMost(a: Text, b: Text) { a == b || LexLess(a, b) }

  predicate SortedSegments(segments: seq<Segment>) {
    forall s, t :: 0 <= s < t < |segments| ==> LexLess(segments[s].firstKey, segments[t].firstKey)
  }

  /** Segment `s` is the last one that starts at or before `key` (or the first of all). */
  predicate Covers(segments: seq<Segment>, key: Text, s: nat)
    requires s < |segments|
  {
    (s > 0 ==> LexAtMost(segments[s].firstKey, key))
    && (s + 1 < |segments| ==> !LexAtMost(segments[s + 1].firstKey, key))
  }

  lemma CoversUnique(segments: seq<Segment>, key: Text, s: nat, t: nat)
    requires SortedSegments(segments) && s < t < |segments|
    requires Covers(segments, key, s)
    ensures !Covers(segments, key, t)
  {
    if LexAtMost(segments[t].firstKey, key) {
      var a, b := segments[s + 1].firstKey, segments[t].firstKey;
      if s + 1 < t { LexAtMostTransitive(a, b, key); }
    }
  }

  lemma LexAtMostTransitive(a: Text, b: Text, c: Text)
    requires LexLess(a, b) && LexAtMost(b, c)
    ensures LexAtMost(a, c)
  {
    if b != c { LexTransitive(a, b, c); }
  }

  /** `find_segment`: `partition_point` on the first keys, less one. */
  method FindSegment(segments: seq<Segment>, key: Text) returns (s: nat)
    requires |segments| > 0
    ensures s < |segments|
    ensures SortedSegments(segments) ==> Covers(segments, key, s)
  {
    var low, high := 0, |segments|;
    while low < high
      invariant 0 <= low <= high <= |segments|
      invariant low > 0 ==> LexAtMost(segments[low - 1].firstKey, key)
      invariant high < |segments| ==> !LexAtMost(segments[high].firstKey, key)
    {
      var mid := (low + high) / 2;
      if LexAtMost(segments[mid].firstKey, key) { low := mid + 1; } else { high := mid; }
    }
    s := if low == 0 then 0 else low - 1;
    if SortedSegments(segments) && low == 0 && |segments| > 1 && LexAtMost(segments[1].firstKey, key) {
      LexAtMostTransitive(segments[0].firstKey, segments[1].firstKey, key);
    }
  }

  /** `f64::round`: half away from zero. */
  function Round(x: real): int {
    if x >= 0.0 then (x + 0.5).Floor else 0 - (0.5 - x).Floor
  }

  function LineAt(slope: real, dx: real, intercept: real): real { slope * dx + intercept }

  function Line(segment: Segment, key: Text): real {
    LineAt(segment.slope, Image(key) as real - Image(segment.firstKey) as real, segment.intercept)
  }

  function Predict(segment: Segment, key: Text): int {
    segment.startPos + Round(Line(segment, key))
  }

  /** `.max(0).min(len - 1)`. */
  function Clamp(p: int, n: nat): (r: nat)
    requires n > 0
    ensures r < n
  {
    if p < 0 then 0 else if p > n - 1 then n - 1 else p
  }

  function WindowLo(p: nat): nat { if p < EPSILON then 0 else p - EPSILON }

  function WindowHi(p: nat, n: nat): (h: nat)
    requires p < n
    ensures WindowLo(p) < h <= n
  {
    if p + EPSILON + 1 < n then p + EPSILON + 1 else n
  }

  /** The window around what segment `s` predicts for `key` contains `key`. */
  predicate Hit(data: seq<Entry>, segment: Segment, key: Text)
    requires |data| > 0
  {
    var p := Clamp(Predict(segment, key), |data|);
    exists i :: WindowLo(p) <= i < WindowHi(p, |data|) && data[i].key == key
  }

  /** `round`: to the nearest integer, of two the one farther from zero. */
  lemma RoundMeans(x: real)
    ensures x - 0.5 <= Round(x) as real <= x + 0.5
    ensures Round(x) as real == x + 0.5 ==> x > 0.0
    ensures Round(x) as real == x - 0.5 ==> x < 0.0
  {}

  /** A lookup hits exactly if the key is at most `EPSILON` positions from where the segment
      predicts it, a prediction outside the data meaning its first or last entry. */
  lemma HitMeans(data: seq<Entry>, segment: Segment, key: Text, p: int)
    requires |data| > 0 && p == segment.startPos + Round(Line(segment, key))
    ensures Hit(data, segment, key)
       <==> exists i :: 0 <= i < |data| && data[i].key == key
              && var q := if p < 0 then 0 else if p >= |data| then |data| - 1 else p;
                 q - 64 <= i <= q + 64
  {}

  class LearnedIndex {
    var data: seq<Entry>
    var segments: seq<Segment>
    var dirty: bool
    var lookupCount: nat
    var missCount: nat

    constructor ()
      ensures data == [] && segments == [] && dirty && lookupCount == 0 && missCount == 0
    {
      data, segments, dirty, lookupCount, missCount := [], [], true, 0, 0;
    }

    /** `build_from_sorted`. The code does not check that the entries are sorted, whatever
        its comment says about a panic. */
    method BuildFromSorted(entries: seq<Entry>)
      modifies this
      ensures data == entries && !dirty && lookupCount == 0 && missCount == 0
      ensures Layout(data, segments) && (SortedKeys(data) ==> Models(data, EPSILON, segments))
    {
      data := entries;
      segments := FitSegments(data, EPSILON);
      dirty, lookupCount, missCount := false, 0, 0;
    }

    /** `get`. Whatever the segments are (stale, wrong or none), the answer is the one of a
        full search; they only decide whether the lookup is a miss. */
    method Get(key: Text) returns (r: Option<(Text, u64)>)
      requires SortedKeys(data)
      modifies this`lookupCount, this`missCount
      ensures match Position(data, key)
              case None => r == None
              case Some(i) => i < |data| && r == Some((data[i].value, data[i].txid))
      ensures lookupCount == old(lookupCount) + (if |data| == 0 then 0 else 1)
      ensures old(missCount) <= missCount <= old(missCount) + 1
      ensures |data| == 0 || dirty || |segments| == 0 ==> missCount == old(missCount)
      ensures |data| > 0 && !dirty && |segments| > 0 && SortedSegments(segments) ==>
              (exists s :: 0 <= s < |segments| && Covers(segments, key, s))
              && forall s :: 0 <= s < |segments| && Covers(segments, key, s) ==>
                (missCount == old(missCount) <==> Hit(data, segments[s], key))
    {
      if |data| == 0 { return None; }
      lookupCount := lookupCount + 1;
      var idx: Option<nat>;
      if dirty || |segments| == 0 {
        idx := SearchWindow(data, key, 0, |data|);
      } else {
        var s := FindSegment(segments, key);
        if SortedSegments(segments) {
          forall t | 0 <= t < |segments| && Covers(segments, key, t) ensures t == s {
            if s < t { CoversUnique(segments, key, s, t); } else if t < s { CoversUnique(segments, key, t, s); }
          }
        }
        var predicted := Clamp(Predict(segments[s], key), |data|);
        var lo, hi := WindowLo(predicted), WindowHi(predicted, |data|);
        idx := SearchWindow(data, key, lo, hi);
        if idx.None? {
          missCount := missCount + 1;
          idx := SearchWindow(data, key, 0, |data|);
        }
      }
      if idx.None? {
        PositionNone(data, key, 0);
        return None;
      }
      PositionAt(data, idx.value, 0);
      return Some((data[idx.value].value, data[idx.value].txid));
    }
  }

  // ---- The epsilon guarantee ----

  lemma ModelIsSorted(data: seq<Entry>, segments: seq<Segment>)
    requires SortedKeys(data) && Layout(data, segments)
    ensures SortedSegments(segments)
  {}

  /** The segment found for a stored key is the one whose range holds the key's position. */
  lemma CoveringSegment(data: seq<Entry>, segments: seq<Segment>, i: nat, s: nat)
    requires SortedKeys(data) && Models(data, EPSILON, segments) && i < |data|
    requires s < |segments| && Covers(segments, data[i].key, s)
    ensures segments[s].startPos <= i < EndOf(data, segments, s) <= |data|
  {
    var start := segments[s].startPos;
    if i < start { LexAsymmetric(data[i].key, data[start].key); }
    if s + 1 < |segments| {
      var next := segments[s + 1].startPos;
      assert segments[s + 1].firstKey == data[next].key;
    }
  }

  /** The exact condition for a lookup of a stored key to stay inside the window. Only
      entries that share the image of their segment's first key can be mispredicted. */
  lemma StoredKeyHits(data: seq<Entry>, segments: seq<Segment>, i: nat, s: nat)
    requires SortedKeys(data) && Models(data, EPSILON, segments) && i < |data|
    requires s < |segments| && Covers(segments, data[i].key, s)
    ensures var start := segments[s].startPos;
            start <= i
            && (Hit(data, segments[s], data[i].key)
                <==> (Image(data[i].key) == Image(data[start].key) ==> i - start <= EPSILON))
  {
    CoveringSegment(data, segments, i, s);
    var seg := segments[s];
    var start := seg.startPos;
    var key := data[i].key;
    OnlyAt(data, i);
    if Image(key) == Image(data[start].key) {
      SameImage(seg, key);
    } else {
      SegmentServes(data, segments, i, s);
      PredictNear(data, seg, i);
      var p := Clamp(Predict(seg, key), |data|);
      assert WindowLo(p) <= i < WindowHi(p, |data|);
    }
  }

  lemma SegmentServes(data: seq<Entry>, segments: seq<Segment>, i: nat, s: nat)
    requires Models(data, EPSILON, segments) && s < |segments|
    requires segments[s].startPos <= i < EndOf(data, segments, s) <= |data|
    ensures Feasible(Xs(data), EPSILON, segments[s].startPos, EndOf(data, segments, s), segments[s].slope)
  {}

  lemma SameImage(seg: Segment, key: Text)
    requires seg.intercept == 0.0 && Image(key) == Image(seg.firstKey)
    ensures Predict(seg, key) == seg.startPos
  {}

  lemma WithinLine(slope: real, dx: real, t: real, e: real)
    requires Within(slope, dx, t, e)
    ensures Abs(LineAt(slope, dx, 0.0) - t) <= e
  {}

  lemma LineNear(data: seq<Entry>, seg: Segment, i: nat)
    requires seg.intercept == 0.0 && seg.startPos <= i < |data| && seg.firstKey == data[seg.startPos].key
    requires Near(Xs(data), EPSILON, seg.startPos, i, seg.slope)
    ensures Abs(Line(seg, data[i].key) - (i - seg.startPos) as real) <= EPSILON as real
  {
    var dx := Xs(data)[i] - Xs(data)[seg.startPos];
    assert Line(seg, data[i].key) == LineAt(seg.slope, dx, 0.0);
    WithinLine(seg.slope, dx, (i - seg.startPos) as real, EPSILON as real);
  }

  lemma PredictNear(data: seq<Entry>, seg: Segment, i: nat)
    requires seg.intercept == 0.0 && seg.startPos <= i < |data| && seg.firstKey == data[seg.startPos].key
    requires Near(Xs(data), EPSILON, seg.startPos, i, seg.slope)
    ensures var p := Clamp(Predict(seg, data[i].key), |data|); WindowLo(p) <= i < WindowHi(p, |data|)
  {
    LineNear(data, seg, i);
    WindowHolds(seg.startPos, Line(seg, data[i].key), i - seg.startPos, |data|);
  }

  lemma WindowHolds(start: nat, line: real, n: nat, total: nat)
    requires start + n < total && Abs(line - n as real) <= EPSILON as real
    ensures var p := Clamp(start + Round(line), total); WindowLo(p) <= start + n < WindowHi(p, total)
  {}

  lemma OnlyAt(data: seq<Entry>, i: nat)
    requires SortedKeys(data) && i < |data|
    ensures forall j :: 0 <= j < |data| && data[j].key == data[i].key ==> j == i
  {
    forall j | 0 <= j < |data| && data[j].key == data[i].key ensures j == i {
      LexIrreflexive(data[i].key);
    }
  }

  /** Keys between two keys with one image share it. */
  lemma SharedBetween(data: seq<Entry>, start: nat, i: nat, j: nat)
    requires SortedKeys(data) && start <= j <= i < |data| && Image(data[start].key) == Image(data[i].key)
    ensures Image(data[j].key) == Image(data[i].key)
  {
    if start < j { ImageMonotone(data[start].key, data[j].key); }
    if j < i { ImageMonotone(data[j].key, data[i].key); }
  }

  /** If no `EPSILON + 2` keys in a row share an image (in particular if images strictly
      increase), no lookup of a stored key ever falls back. */
  lemma EpsilonGuarantee(data: seq<Entry>, segments: seq<Segment>, i: nat, s: nat)
    requires SortedKeys(data) && Models(data, EPSILON, segments) && i < |data|
    requires forall j :: 0 <= j < |data| - EPSILON - 1 ==> Image(data[j].key) != Image(data[j + EPSILON + 1].key)
    requires s < |segments| && Covers(segments, data[i].key, s)
    ensures Hit(data, segments[s], data[i].key)
  {
    StoredKeyHits(data, segments, i, s);
    var start := segments[s].startPos;
    if i - start > EPSILON && Image(data[i].key) == Image(data[start].key) {
      SharedBetween(data, start, i, start + EPSILON + 1);
    }
  }

  /** The condition is needed: of the first keys with one image, all beyond the first
      `EPSILON + 1` miss. */
  lemma SharedImagesMiss(data: seq<Entry>, segments: seq<Segment>, i: nat, s: nat)
    requires SortedKeys(data) && Models(data, EPSILON, segments)
    requires EPSILON < i < |data| && Image(data[0].key) == Image(data[i].key)
    requires s < |segments| && Covers(segments, data[i].key, s)
    ensures !Hit(data, segments[s], data[i].key)
  {
    CoveringSegment(data, segments, i, s);
    StoredKeyHits(data, segments, i, s);
    if s > 0 { ZeroSlopeServes(data, segments, i); }
  }

  /** The first segment never ends inside a run of shared images: a zero slope would serve more. */
  lemma ZeroSlopeServes(data: seq<Entry>, segments: seq<Segment>, i: nat)
    requires SortedKeys(data) && Models(data, EPSILON, segments) && |segments| > 1
    requires i < |data| && Image(data[0].key) == Image(data[i].key)
    ensures segments[1].startPos > i
  {
    var second := segments[1].startPos;
    assert Complete(Xs(data), EPSILON, segments[0], second);
    if second <= i { FlatFeasible(data, i, second + 1); }
  }

  lemma FlatFeasible(data: seq<Entry>, i: nat, end: nat)
    requires SortedKeys(data) && end <= i + 1 <= |data|
    requires Image(data[0].key) == Image(data[i].key)
    ensures Feasible(Xs(data), EPSILON, 0, end, 0.0)
  {
    forall j | 0 <= j < end ensures Xs(data)[j] == Xs(data)[0] {
      SharedBetween(data, 0, i, j);
    }
  }

  // ---- Keys short enough for a float ----

  lemma NextDigit(acc: nat, digit: byte, p: nat)
    ensures acc * (256 * p) <= (256 * acc + digit) * p
    ensures (256 * acc + digit + 1) * p <= (acc + 1) * (256 * p)
  {
    MulMonotone(256 * acc, 256 * acc + digit, p);
    MulMonotone(256 * acc + digit + 1, 256 * (acc + 1), p);
    assert acc * (256 * p) == 256 * acc * p && (acc + 1) * (256 * p) == 256 * (acc + 1) * p;
  }

  lemma {:induction false} PaddedBelow(key: Text, n: nat, acc: nat)
    ensures acc * Pow256(n) <= Padded(key, n, acc) < (acc + 1) * Pow256(n)
    decreases n
  {
    if n > 0 {
      var digit := if |key| == 0 then 0 else key[0];
      PaddedBelow(if |key| == 0 then [] else key[1..], n - 1, 256 * acc + digit);
      NextDigit(acc, digit, Pow256(n - 1));
    }
  }

  /** The first six bytes are the leading digits of the first eight. */
  lemma {:induction false} PaddedLeads(key: Text, n: nat, acc: nat)
    ensures 0x1_0000 * Padded(key, n, acc) <= Padded(key, n + 2, acc) < 0x1_0000 * Padded(key, n, acc) + 0x1_0000
    decreases n
  {
    if n == 0 {
      PaddedBelow(key, 2, acc);
      assert Pow256(2) == 0x1_0000;
    } else {
      PaddedLeads(if |key| == 0 then [] else key[1..], n - 1, 256 * acc + (if |key| == 0 then 0 else key[0]));
    }
  }

  /** Rounding moves the number of eight bytes by less than 2049. */
  lemma ImageNear(key: Text)
    ensures -2049 < Image(key) - Padded(key, 8, 0) < 2049
  {
    PaddedBelow(key, 8, 0);
    Pow256Values();
    RoundFromNear(Padded(key, 8, 0), 1);
  }

  lemma SixBytesApart(a: Text, b: Text)
    requires Padded(a, 6, 0) + 1 < Padded(b, 6, 0)
    ensures Image(a) < Image(b)
  {
    PaddedLeads(a, 6, 0);
    PaddedLeads(b, 6, 0);
    ImageNear(a);
    ImageNear(b);
  }

  lemma {:induction false} PaddedStrict(a: Text, b: Text, n: nat, acc: nat)
    requires LexLess(a, b) && |a| == |b| <= n
    ensures Padded(a, n, acc) < Padded(b, n, acc)
    decreases n
  {
    if a[0] < b[0] {
      LeadingDigits(a[1..], b[1..], n - 1, 256 * acc + a[0], 256 * acc + b[0]);
    } else {
      PaddedStrict(a[1..], b[1..], n - 1, 256 * acc + a[0]);
    }
  }

  /** Keys of one length of at most six bytes (numbers of 48 bits, say) never share an
      image: no lookup of a stored one falls back. */
  lemma ShortKeysHit(data: seq<Entry>, segments: seq<Segment>, i: nat, s: nat, length: nat)
    requires SortedKeys(data) && Models(data, EPSILON, segments) && i < |data|
    requires length <= 6 && forall j :: 0 <= j < |data| ==> |data[j].key| == length
    requires s < |segments| && Covers(segments, data[i].key, s)
    ensures Hit(data, segments[s], data[i].key)
  {
    forall j | 0 <= j < |data| - EPSILON - 1 ensures Image(data[j].key) != Image(data[j + EPSILON + 1].key) {
      PaddedStrict(data[j].key, data[j + 1].key, 6, 0);
      PaddedStrict(data[j + 1].key, data[j + EPSILON + 1].key, 6, 0);
      SixBytesApart(data[j].key, data[j + EPSILON + 1].key);
    }
    EpsilonGuarantee(data, segments, i, s);
  }

  // ---- An ordinary input that misses ----

  /** Seven letters `a` and one more byte. */
  function OneByteApart(b: byte): Text { [0x61, 0x61, 0x61, 0x61, 0x61, 0x61, 0x61, b] }

  const SEVEN_LETTERS: nat := 0x61_6161_6161_6161

  lemma PaddedEight(b: byte)
    ensures Padded(OneByteApart(b), 8, 0) == 256 * SEVEN_LETTERS + b
  {
    var k := OneByteApart(b);
    assert Padded(k, 8, 0) == Padded(k[1..], 7, 0x61) == Padded(k[2..], 6, 0x6161);
    assert Padded(k[2..], 6, 0x6161) == Padded(k[3..], 5, 0x61_6161) == Padded(k[4..], 4, 0x6161_6161);
    assert Padded(k[4..], 4, 0x6161_6161) == Padded(k[5..], 3, 0x61_6161_6161) == Padded(k[6..], 2, 0x6161_6161_6161);
    assert Padded(k[6..], 2, 0x6161_6161_6161) == Padded(k[7..], 1, SEVEN_LETTERS);
    assert k[7..] == [b] && [b][1..] == [];
    assert Padded([b], 1, SEVEN_LETTERS) == Padded([], 0, 256 * SEVEN_LETTERS + b);
  }

  /** The last of 53 bits is worth 1024 there, so the eighth byte is rounded away. */
  lemma OneImage(b: byte)
    ensures Image(OneByteApart(b)) == 256 * SEVEN_LETTERS - 256
  {
    PaddedEight(b);
    var u := 256 * SEVEN_LETTERS + b;
    assert RoundFrom(u, 1) == RoundFrom(u, 2) == RoundFrom(u, 4) == RoundFrom(u, 8) == RoundFrom(u, 16);
    assert RoundFrom(u, 16) == RoundFrom(u, 32) == RoundFrom(u, 64) == RoundFrom(u, 128) == RoundFrom(u, 256);
    assert RoundFrom(u, 256) == RoundFrom(u, 512) == RoundFrom(u, 1024) == RoundTo(u, 1024);
  }

  predicate OneByteKeys(data: seq<Entry>) {
    |data| == 256 && forall i :: 0 <= i < 256 ==> data[i].key == OneByteApart(i)
  }

  lemma OneByteKeysSorted(data: seq<Entry>)
    requires OneByteKeys(data)
    ensures SortedKeys(data)
  {
    forall i, j | 0 <= i < j < 256 ensures LexLess(data[i].key, data[j].key) {
      var p: Text := [0x61, 0x61, 0x61, 0x61, 0x61, 0x61, 0x61];
      assert OneByteApart(i) == p + [i] && OneByteApart(j) == p + [j];
      LexPrefix(p, [i], [j]);
    }
  }

  /** 256 keys that differ in their eighth byte only: all but the first 65 miss. */
  lemma OneByteKeysMiss(data: seq<Entry>, segments: seq<Segment>, i: nat, s: nat)
    requires OneByteKeys(data) && Models(data, EPSILON, segments)
    requires i < 256 && s < |segments| && Covers(segments, data[i].key, s)
    ensures Hit(data, segments[s], data[i].key) <==> i <= EPSILON
  {
    OneByteKeysSorted(data);
    OneImage(0);
    OneImage(i);
    StoredKeyHits(data, segments, i, s);
    if i > EPSILON { SharedImagesMiss(data, segments, i, s); }
  }

  // ---- A lookup of a stored key, from building to counting ----

  /** After a build from sorted entries a stored key is found, and the lookup counts as a hit
      exactly when the key does not share the image of its segment's first key more than
      `EPSILON` positions later. */
  method BuildAndGet(entries: seq<Entry>, i: nat) returns (index: LearnedIndex, r: Option<(Text, u64)>)
    requires SortedKeys(entries) && i < |entries|
    ensures r == Some((entries[i].value, entries[i].txid))
    ensures index.data == entries && Models(entries, EPSILON, index.segments)
    ensures forall s :: 0 <= s < |index.segments| && Covers(index.segments, entries[i].key, s) ==>
              var start := index.segments[s].startPos;
              start <= i < |entries|
              && (index.missCount == 0 <==> (Image(entries[i].key) == Image(entries[start].key) ==> i - start <= EPSILON))
    ensures exists s :: 0 <= s < |index.segments| && Covers(index.segments, entries[i].key, s)
  {
    index := new LearnedIndex();
    index.BuildFromSorted(entries);
    ModelIsSorted(entries, index.segments);
    PositionAt(entries, i, 0);
    r := index.Get(entries[i].key);
    forall s | 0 <= s < |index.segments| && Covers(index.segments, entries[i].key, s)
      ensures index.segments[s].startPos <= i
      ensures index.missCount == 0 <==> Hit(entries, index.segments[s], entries[i].key)
    {
      CoveringSegment(entries, index.segments, i, s);
    }
    forall s | 0 <= s < |index.segments| && Covers(index.segments, entries[i].key, s) {
      StoredKeyHits(entries, index.segments, i, s);
    }
  }
}
