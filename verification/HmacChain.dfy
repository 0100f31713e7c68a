/** The chained message authentication codes of the log. The keyed HMAC-SHA256 is a function
    from byte strings to 32 bytes; where it matters the messages that are hashed are assumed
    not to collide. */
module HmacChain {
  import opened Bytes

  type Tag = t: Text | |t| == 32 witness Zeros(32)

  /** HMAC-SHA256 under the database key (RFC 2104, section 2). */
  type Mac = Text -> Tag

  const GENESIS: Tag := Zeros(32)

  datatype Record = Record(payload: Text, tag: Tag)

  /** The chain tip after writing `payloads` to a new log. */
  function Tip(mac: Mac, payloads: seq<Text>): Tag {
    if |payloads| == 0 then GENESIS
    else
      var last := |payloads| - 1;
      mac(Tip(mac, payloads[..last]) + payloads[last])
  }

  /** The messages that writing `payloads` hashes. */
  ghost function Hashed(mac: Mac, payloads: seq<Text>): set<Text> {
    set i | 0 <= i < |payloads| :: Tip(mac, payloads[..i]) + payloads[i]
  }

  /** No two of the messages have the same code, and none has the genesis value as its code. */
  ghost predicate NoCollision(mac: Mac, messages: set<Text>) {
    (forall m :: m in messages ==> mac(m) != GENESIS)
    && forall m, n :: m in messages && n in messages && mac(m) == mac(n) ==> m == n
  }

  /** What is written: each payload with the tip after it. */
  function Written(mac: Mac, payloads: seq<Text>): seq<Record> {
    seq(|payloads|, i requires 0 <= i < |payloads| => Record(payloads[i], Tip(mac, payloads[..i + 1])))
  }

  /** One more record goes to the end of the log, tagged with the code of the tip before it
      and the payload; the first tip is the genesis value. */
  lemma WrittenMore(mac: Mac, payloads: seq<Text>, payload: Text)
    ensures Tip(mac, []) == GENESIS && Written(mac, []) == []
    ensures Tip(mac, payloads + [payload]) == mac(Tip(mac, payloads) + payload)
    ensures Written(mac, payloads + [payload]) == Written(mac, payloads) + [Record(payload, mac(Tip(mac, payloads) + payload))]
  {
    var more := payloads + [payload];
    assert more[..|payloads|] == payloads;
    forall i | 0 <= i < |payloads| ensures Written(mac, more)[i] == Written(mac, payloads)[i] {
      assert more[..i + 1] == payloads[..i + 1];
    }
    assert more[..|payloads| + 1] == more;
  }

  /** Whether a verifier whose tip is `prev` accepts all the records in turn. */
  predicate Accepts(mac: Mac, prev: Tag, records: seq<Record>)
    decreases |records|
  {
    |records| == 0
    || (mac(prev + records[0].payload) == records[0].tag && Accepts(mac, records[0].tag, records[1..]))
  }

  class ChainedHmacVerifier {
    const mac: Mac
    var prev: Tag

    constructor (mac: Mac)
      ensures this.mac == mac && prev == GENESIS
    {
      this.mac := mac;
      prev := GENESIS;
    }

    method VerifyAndAdvance(payload: Text, stored: Tag) returns (ok: bool)
      modifies this`prev
      ensures ok <==> Accepts(mac, old(prev), [Record(payload, stored)])
      ensures prev == if ok then stored else old(prev)
    {
      var expected := mac(prev + payload);
      ok := expected == stored;
      if ok { prev := expected; }
    }

    method Advance(payload: Text) returns (tag: Tag)
      modifies this`prev
      ensures prev == tag && Accepts(mac, old(prev), [Record(payload, tag)])
      ensures forall written :: old(prev) == Tip(mac, written) ==> tag == Tip(mac, written + [payload])
    {
      tag := mac(prev + payload);
      forall written | prev == Tip(mac, written) ensures tag == Tip(mac, written + [payload]) {
        assert (written + [payload])[..|written|] == written;
      }
      prev := tag;
    }
  }

  lemma HashedPrefix(mac: Mac, payloads: seq<Text>, n: nat)
    requires n <= |payloads|
    ensures Hashed(mac, payloads[..n]) <= Hashed(mac, payloads)
  {
    forall m | m in Hashed(mac, payloads[..n]) ensures m in Hashed(mac, payloads) {
      var i :| 0 <= i < n && m == Tip(mac, payloads[..n][..i]) + payloads[..n][i];
      assert payloads[..n][..i] == payloads[..i];
    }
  }

  lemma HashedFront(mac: Mac, payloads: seq<Text>, front: seq<Text>)
    requires front <= payloads
    ensures Hashed(mac, front) <= Hashed(mac, payloads)
  {
    assert front == payloads[..|front|];
    HashedPrefix(mac, payloads, |front|);
  }

  lemma LastHashed(mac: Mac, payloads: seq<Text>) returns (front: seq<Text>, last: Text, message: Text)
    requires |payloads| > 0
    ensures payloads == front + [last] && Hashed(mac, front) <= Hashed(mac, payloads)
    ensures message == Tip(mac, front) + last && Tip(mac, payloads) == mac(message) && message in Hashed(mac, payloads)
  {
    front, last := payloads[..|payloads| - 1], payloads[|payloads| - 1];
    message := Tip(mac, front) + last;
    HashedPrefix(mac, payloads, |front|);
  }

  /** A tip determines everything that was written before it. */
  lemma {:induction false} TipInjective(mac: Mac, a: seq<Text>, b: seq<Text>, messages: set<Text>)
    requires NoCollision(mac, messages) && Hashed(mac, a) <= messages && Hashed(mac, b) <= messages
    requires Tip(mac, a) == Tip(mac, b)
    ensures a == b
    decreases |a|
  {
    if |a| > 0 && |b| > 0 {
      var front, last, m := LastHashed(mac, a);
      var front', last', n := LastHashed(mac, b);
      SplitFront(Tip(mac, front), Tip(mac, front'), last, last');
      TipInjective(mac, front, front', messages);
    } else if |a| > 0 {
      var _, _, m := LastHashed(mac, a);
    } else if |b| > 0 {
      var _, _, n := LastHashed(mac, b);
    }
  }

  function Payloads(records: seq<Record>): seq<Text> {
    seq(|records|, i requires 0 <= i < |records| => records[i].payload)
  }

  /** The tag of a record is the tip after `done` and the records up to it. */
  predicate TagRight(mac: Mac, done: seq<Text>, records: seq<Record>, i: nat)
    requires i < |records|
  {
    records[i].tag == Tip(mac, done + Payloads(records)[..i + 1])
  }

  lemma TagShift(mac: Mac, done: seq<Text>, records: seq<Record>, i: nat)
    requires i + 1 < |records|
    ensures TagRight(mac, done + [records[0].payload], records[1..], i) == TagRight(mac, done, records, i + 1)
  {
    var next, rest := done + [records[0].payload], records[1..];
    assert Payloads(records)[..i + 2] == [records[0].payload] + Payloads(rest)[..i + 1];
    assert next + Payloads(rest)[..i + 1] == done + Payloads(records)[..i + 2];
  }

  /** A verifier that has followed `done` accepts exactly the records whose tags are the tips
      of what they themselves write. */
  lemma {:induction false} AcceptsTips(mac: Mac, done: seq<Text>, records: seq<Record>)
    ensures Accepts(mac, Tip(mac, done), records) <==> forall i :: 0 <= i < |records| ==> TagRight(mac, done, records, i)
    decreases |records|
  {
    if |records| > 0 {
      var first, rest := records[0], records[1..];
      var next := done + [first.payload];
      assert next[..|done|] == done;
      assert done + Payloads(records)[..0 + 1] == next;
      AcceptsTips(mac, next, rest);
      forall i | 0 <= i < |rest| ensures TagRight(mac, next, rest, i) == TagRight(mac, done, records, i + 1) {
        TagShift(mac, done, records, i);
      }
      assert TagRight(mac, done, records, 0) <==> first.tag == Tip(mac, next);
      if forall i :: 0 <= i < |rest| ==> TagRight(mac, next, rest, i) {
        forall i | 0 < i < |records| ensures TagRight(mac, done, records, i) {
          assert TagRight(mac, next, rest, i - 1);
        }
      }
    }
  }

  /** Each record is one that was written. */
  ghost predicate DrawnFrom(records: seq<Record>, written: seq<Record>) {
    forall i :: 0 <= i < |records| ==> records[i] in written
  }

  /** Where two logs have the same tip, the same was written before it. */
  lemma SameFront(mac: Mac, a: seq<Text>, front: seq<Text>, b: seq<Text>, front': seq<Text>)
    requires NoCollision(mac, Hashed(mac, a) + Hashed(mac, b))
    requires front <= a && front' <= b && Tip(mac, front) == Tip(mac, front')
    ensures front == front'
  {
    HashedFront(mac, a, front);
    HashedFront(mac, b, front');
    TipInjective(mac, front, front', Hashed(mac, a) + Hashed(mac, b));
  }

  /** A written record whose tag is right stands at its own place. */
  lemma PlaceIsRight(mac: Mac, payloads: seq<Text>, records: seq<Record>, i: nat)
    requires NoCollision(mac, Hashed(mac, payloads) + Hashed(mac, Payloads(records)))
    requires i < |records| && records[i] in Written(mac, payloads) && TagRight(mac, [], records, i)
    ensures i < |payloads| && records[i] == Written(mac, payloads)[i]
  {
    var j :| 0 <= j < |payloads| && Written(mac, payloads)[j] == records[i];
    var mine, theirs := Payloads(records)[..i + 1], payloads[..j + 1];
    assert [] + mine == mine;
    SameFront(mac, payloads, theirs, Payloads(records), mine);
    assert |mine| == i + 1 && |theirs| == j + 1;
  }

  lemma PrefixIsRight(mac: Mac, payloads: seq<Text>, records: seq<Record>, i: nat)
    requires records <= Written(mac, payloads) && i < |records|
    ensures TagRight(mac, [], records, i)
  {
    var written := Written(mac, payloads);
    forall j | 0 <= j <= i ensures Payloads(records)[j] == payloads[j] {
      assert records[j] == written[j];
    }
    assert [] + Payloads(records)[..i + 1] == payloads[..i + 1];
    assert records[i] == written[i];
  }

  /** A new verifier accepts records drawn from a log exactly when they are the beginning of
      the log: none deleted, repeated or moved. */
  lemma ChainDetects(mac: Mac, payloads: seq<Text>, records: seq<Record>)
    requires DrawnFrom(records, Written(mac, payloads))
    requires NoCollision(mac, Hashed(mac, payloads) + Hashed(mac, Payloads(records)))
    ensures Accepts(mac, GENESIS, records) <==> records <= Written(mac, payloads)
  {
    var written := Written(mac, payloads);
    AcceptsTips(mac, [], records);
    if Accepts(mac, GENESIS, records) {
      forall i | 0 <= i < |records| ensures i < |written| && records[i] == written[i] {
        PlaceIsRight(mac, payloads, records, i);
      }
      if |records| > 0 { PlaceIsRight(mac, payloads, records, |records| - 1); }
    }
    if records <= written {
      forall i | 0 <= i < |records| ensures TagRight(mac, [], records, i) {
        PrefixIsRight(mac, payloads, records, i);
      }
    }
  }

  /** The tips of one log are all different. */
  lemma TipsDistinct(mac: Mac, payloads: seq<Text>, i: nat, j: nat)
    requires NoCollision(mac, Hashed(mac, payloads)) && i < j <= |payloads|
    ensures Tip(mac, payloads[..i]) != Tip(mac, payloads[..j])
  {
    HashedPrefix(mac, payloads, i);
    HashedPrefix(mac, payloads, j);
    if Tip(mac, payloads[..i]) == Tip(mac, payloads[..j]) {
      TipInjective(mac, payloads[..i], payloads[..j], Hashed(mac, payloads));
    }
  }
}
