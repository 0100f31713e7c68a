/** Large byte strings stored in chunks, one page each, over a page store that hands out pages
    filled with zeros. */
module Blob {
  import opened Bytes

  datatype Page = Page(isBlob: bool, payload: Text)
  datatype Result = Missing | Corrupted(page: nat) | Data(bytes: Text)

  type Directory = map<Text, seq<nat>>
  datatype Store = Store(pages: seq<Page>, directory: Directory)

  /** Without the zeros at the end. */
  function Trim(data: Text): (r: Text)
    ensures r <= data && (|r| > 0 ==> r[|r| - 1] != 0)
  {
    if |data| > 0 && data[|data| - 1] == 0 then Trim(data[..|data| - 1]) else data
  }

  // ---- Storing ----

  /** The page payloads for `data`; the last one keeps the zeros of the new page. */
  function Chunks(data: Text, capacity: nat): seq<Text>
    requires capacity > 0
    decreases |data|
  {
    if |data| == 0 then []
    else
      var take := if |data| < capacity then |data| else capacity;
      [data[..take] + Zeros(capacity - take)] + Chunks(data[take..], capacity)
  }

  function BlobPages(chunks: seq<Text>): seq<Page> {
    seq(|chunks|, i requires 0 <= i < |chunks| => Page(true, chunks[i]))
  }

  function Numbers(start: nat, n: nat): seq<nat> { seq(n, i requires 0 <= i < n => start + i) }

  /** The store after `put_blob` under a given id. */
  function Put(s: Store, id: Text, data: Text, capacity: nat): Store
    requires capacity > 0
  {
    var chunks := Chunks(data, capacity);
    Store(s.pages + BlobPages(chunks), s.directory[id := Numbers(|s.pages|, |chunks|)])
  }

  // ---- Reading ----

  predicate InRange(numbers: seq<nat>, count: nat) { forall i :: 0 <= i < |numbers| ==> numbers[i] < count }

  function ReadPages(pages: seq<Page>, numbers: seq<nat>, data: Text): Result
    requires InRange(numbers, |pages|)
    decreases |numbers|
  {
    if |numbers| == 0 then Data(Trim(data))
    else if !pages[numbers[0]].isBlob then Corrupted(numbers[0])
    else ReadPages(pages, numbers[1..], data + pages[numbers[0]].payload)
  }

  /** The directory names pages of the store. */
  ghost predicate Valid(s: Store) {
    forall id :: id in s.directory ==> InRange(s.directory[id], |s.pages|)
  }

  ghost function Get(s: Store, id: Text): Result
    requires Valid(s)
  {
    if id in s.directory then ReadPages(s.pages, s.directory[id], []) else Missing
  }

  /** One turn of the loop of `put_blob`: `rest` is still to be stored. */
  lemma NextChunk(rest: Text, capacity: nat, chunks: seq<Text>, k: nat, take: nat, page: Text)
    requires capacity > 0 && |rest| > 0 && k <= |chunks| && chunks[k..] == Chunks(rest, capacity)
    requires take == if |rest| < capacity then |rest| else capacity
    requires page == rest[..take] + Zeros(capacity)[take..]
    ensures k < |chunks| && chunks[k] == page && chunks[k + 1..] == Chunks(rest[take..], capacity)
  {
    assert Zeros(capacity)[take..] == Zeros(capacity - take);
    assert chunks[k..][0] == page && chunks[k..][1..] == chunks[k + 1..];
  }

  lemma OneMorePage(chunks: seq<Text>, k: nat)
    requires k < |chunks|
    ensures BlobPages(chunks[..k + 1]) == BlobPages(chunks[..k]) + [Page(true, chunks[k])]
  {}

  lemma OneMoreNumber(start: nat, k: nat)
    ensures Numbers(start, k + 1) == Numbers(start, k) + [start + k]
  {}

  class BlobManager {
    const capacity: nat
    var pages: seq<Page>
    var directory: Directory

    constructor (capacity: nat, pages: seq<Page>)
      ensures State() == Store(pages, map[]) && this.capacity == capacity
    {
      this.capacity, this.pages, directory := capacity, pages, map[];
    }

    function State(): Store
      reads this
    {
      Store(pages, directory)
    }

    /** `put_blob`; the new random id is a parameter. */
    method PutBlob(id: Text, data: Text) returns (total: nat)
      requires capacity > 0
      modifies this`pages, this`directory
      ensures State() == Put(old(State()), id, data, capacity) && total == |data|
    {
      var numbers: seq<nat> := [];
      var offset := 0;
      ghost var chunks := Chunks(data, capacity);
      ghost var k := 0;
      assert data[0..] == data;
      while offset < |data|
        invariant 0 <= offset <= |data| && 0 <= k <= |chunks|
        invariant chunks[k..] == Chunks(data[offset..], capacity)
        invariant pages == old(pages) + BlobPages(chunks[..k])
        invariant numbers == Numbers(|old(pages)|, k)
        invariant directory == old(directory)
      {
        var number, page := |pages|, Zeros(capacity);
        var remaining := |data| - offset;
        var take := if remaining < capacity then remaining else capacity;
        page := data[offset..offset + take] + page[take..];
        assert data[offset..][..take] == data[offset..offset + take] && data[offset..][take..] == data[offset + take..];
        NextChunk(data[offset..], capacity, chunks, k, take, page);
        OneMorePage(chunks, k);
        OneMoreNumber(|old(pages)|, k);
        pages := pages + [Page(true, page)];
        numbers := numbers + [number];
        offset := offset + take;
        k := k + 1;
      }
      assert chunks[..k] == chunks;
      directory := directory[id := numbers];
      total := |data|;
    }

    /** `get_blob`. */
    method GetBlob(id: Text) returns (r: Result)
      requires Valid(State())
      ensures r == Get(State(), id)
    {
      if id !in directory { return Missing; }
      var rest: seq<nat>, data: Text := directory[id], [];
      while |rest| > 0
        invariant InRange(rest, |pages|)
        invariant ReadPages(pages, rest, data) == Get(State(), id)
      {
        if !pages[rest[0]].isBlob { return Corrupted(rest[0]); }
        data := data + pages[rest[0]].payload;
        rest := rest[1..];
      }
      while |data| > 0 && data[|data| - 1] == 0
        invariant Data(Trim(data)) == Get(State(), id)
      {
        data := data[..|data| - 1];
      }
      return Data(data);
    }
  }

  // ---- What was put is what one gets, without the zeros at the end ----

  lemma {:induction false} TrimZeros(data: Text, n: nat)
    ensures Trim(data + Zeros(n)) == Trim(data)
    decreases n
  {
    if n == 0 {
      assert data + Zeros(0) == data;
    } else {
      assert (data + Zeros(n))[..|data| + n - 1] == data + Zeros(n - 1);
      TrimZeros(data, n - 1);
    }
  }

  function Joined(chunks: seq<Text>): Text {
    if |chunks| == 0 then [] else chunks[0] + Joined(chunks[1..])
  }

  /** The number of zeros that fill the last page. */
  function Padding(data: Text, capacity: nat): nat
    requires capacity > 0
    decreases |data|
  {
    if |data| == 0 then 0
    else if |data| < capacity then capacity - |data|
    else Padding(data[capacity..], capacity)
  }

  lemma {:induction false} ChunksJoined(data: Text, capacity: nat)
    requires capacity > 0
    ensures Joined(Chunks(data, capacity)) == data + Zeros(Padding(data, capacity))
    decreases |data|
  {
    if |data| > 0 {
      var take := if |data| < capacity then |data| else capacity;
      var chunks := Chunks(data, capacity);
      assert chunks[1..] == Chunks(data[take..], capacity);
      ChunksJoined(data[take..], capacity);
      if |data| < capacity {
        assert data[take..] == [] && data[..take] == data;
      } else {
        var zeros := Zeros(Padding(data[take..], capacity));
        assert data[..take] + Zeros(0) == data[..take];
        assert data[..take] + (data[take..] + zeros) == data[..take] + data[take..] + zeros;
        assert data[..take] + data[take..] == data;
      }
    }
  }

  /** Pages `start`, `start + 1`, … hold the chunks. */
  ghost predicate Holds(pages: seq<Page>, start: nat, chunks: seq<Text>) {
    start + |chunks| <= |pages|
    && forall i {:trigger chunks[i]} :: 0 <= i < |chunks| ==> pages[start + i] == Page(true, chunks[i])
  }

  lemma {:induction false} ReadChunks(pages: seq<Page>, start: nat, chunks: seq<Text>, data: Text)
    requires Holds(pages, start, chunks)
    ensures InRange(Numbers(start, |chunks|), |pages|)
    ensures ReadPages(pages, Numbers(start, |chunks|), data) == Data(Trim(data + Joined(chunks)))
    decreases |chunks|
  {
    if |chunks| == 0 {
      assert data + [] == data;
    } else {
      var numbers, rest := Numbers(start, |chunks|), chunks[1..];
      assert numbers == [start] + Numbers(start + 1, |rest|);
      ReadChunks(pages, start + 1, rest, data + chunks[0]);
      assert data + chunks[0] + Joined(rest) == data + (chunks[0] + Joined(rest));
    }
  }

  /** Getting what was put gives the input without the zeros at its end. */
  lemma PutReads(s: Store, id: Text, data: Text, capacity: nat)
    requires Valid(s) && capacity > 0
    ensures Valid(Put(s, id, data, capacity)) && Get(Put(s, id, data, capacity), id) == Data(Trim(data))
  {
    var chunks, pages := Chunks(data, capacity), Put(s, id, data, capacity).pages;
    StoredReads(pages, |s.pages|, chunks, data, capacity);
  }

  lemma StoredReads(pages: seq<Page>, start: nat, chunks: seq<Text>, data: Text, capacity: nat)
    requires capacity > 0 && chunks == Chunks(data, capacity) && Holds(pages, start, chunks)
    ensures InRange(Numbers(start, |chunks|), |pages|)
    ensures ReadPages(pages, Numbers(start, |chunks|), []) == Data(Trim(data))
  {
    ReadChunks(pages, start, chunks, []);
    assert [] + Joined(chunks) == Joined(chunks);
    ChunksTrimmed(data, capacity);
  }

  lemma ChunksTrimmed(data: Text, capacity: nat)
    requires capacity > 0
    ensures Trim(Joined(Chunks(data, capacity))) == Trim(data)
  {
    ChunksJoined(data, capacity);
    TrimZeros(data, Padding(data, capacity));
  }

  /** So it gives the input itself exactly when that does not end in zero. */
  lemma PutGet(s: Store, id: Text, data: Text, capacity: nat)
    requires Valid(s) && capacity > 0
    ensures Valid(Put(s, id, data, capacity))
    ensures Get(Put(s, id, data, capacity), id) == Data(Trim(data))
    ensures Get(Put(s, id, data, capacity), id) == Data(data) <==> |data| == 0 || data[|data| - 1] != 0
  {
    PutReads(s, id, data, capacity);
  }

  lemma {:induction false} ReadMorePages(pages: seq<Page>, more: seq<Page>, numbers: seq<nat>, data: Text)
    requires InRange(numbers, |pages|)
    ensures ReadPages(pages + more, numbers, data) == ReadPages(pages, numbers, data)
    decreases |numbers|
  {
    if |numbers| > 0 && pages[numbers[0]].isBlob {
      ReadMorePages(pages, more, numbers[1..], data + pages[numbers[0]].payload);
    }
  }

  /** Putting a blob, or any growth of the page store, changes no other blob. */
  lemma PutKeepsOthers(s: Store, id: Text, data: Text, capacity: nat, other: Text)
    requires Valid(s) && capacity > 0 && other != id
    ensures Valid(Put(s, id, data, capacity))
    ensures Get(Put(s, id, data, capacity), other) == Get(s, other)
  {
    if other in s.directory {
      ReadMorePages(s.pages, BlobPages(Chunks(data, capacity)), s.directory[other], []);
    }
  }

  // ---- Runs ----

  datatype Action = PutBlob(id: Text, data: Text) | OtherPage(page: Page)

  function Apply(s: Store, a: Action, capacity: nat): Store
    requires capacity > 0
  {
    match a
    case PutBlob(id, data) => Put(s, id, data, capacity)
    case OtherPage(page) => s.(pages := s.pages + [page])
  }

  function Run(s: Store, actions: seq<Action>, capacity: nat): Store
    requires capacity > 0
  {
    if |actions| == 0 then s
    else Apply(Run(s, actions[..|actions| - 1], capacity), actions[|actions| - 1], capacity)
  }

  /** The data last put under an id. */
  function LastPut(actions: seq<Action>, id: Text): Option<Text> {
    if |actions| == 0 then None
    else
      var a := actions[|actions| - 1];
      if a.PutBlob? && a.id == id then Some(a.data) else LastPut(actions[..|actions| - 1], id)
  }

  /** After any run of puts and other page allocations, an id gives what was last put under
      it, without the zeros at the end. */
  lemma {:induction false} RunGet(pages: seq<Page>, actions: seq<Action>, capacity: nat, id: Text)
    requires capacity > 0
    ensures var s := Run(Store(pages, map[]), actions, capacity);
      Valid(s) && Get(s, id) == (match LastPut(actions, id) case None => Missing case Some(data) => Data(Trim(data)))
  {
    if |actions| > 0 {
      var before, a := actions[..|actions| - 1], actions[|actions| - 1];
      RunGet(pages, before, capacity, id);
      var s := Run(Store(pages, map[]), before, capacity);
      match a
      case PutBlob(i, data) =>
        if i == id { PutReads(s, id, data, capacity); } else { PutKeepsOthers(s, i, data, capacity, id); }
      case OtherPage(page) =>
        if id in s.directory { ReadMorePages(s.pages, [page], s.directory[id], []); }
    }
  }
}
