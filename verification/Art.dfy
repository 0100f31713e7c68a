/** The radix trie of the hot index tier. Inner nodes carry a compressed prefix that an insert
    never splits, so some keys cannot be stored. */
module Art {
  import opened Bytes

  datatype Entry = Entry(key: Text, value: Text, txid: u64)

  datatype ArtNode =
    | Leaf(entry: Entry)
    | Inner(prefix: Text, children: map<byte, ArtNode>)

  type Found = Option<(Text, u64)>

  // The code walks a key with a depth. Here the key up to the depth is `path` and the key
  // from the depth on is `rest`.

  /** Every leaf below a node extends the path to the node. */
  predicate Wf(node: ArtNode, path: Text) {
    match node
    case Leaf(e) => path <= e.key
    case Inner(prefix, children) => forall b <- children :: Wf(children[b], path + prefix + [b])
  }

  /** The byte after a proper prefix. */
  function Next(rest: Text, prefix: Text): byte
    requires prefix < rest
  {
    rest[|prefix|]
  }

  /** What comes after that byte. */
  function Beyond(rest: Text, prefix: Text): Text
    requires prefix < rest
  {
    rest[|prefix| + 1..]
  }

  /** `ArtNode::get`. */
  function Get(node: ArtNode, key: Text, rest: Text): Found {
    match node
    case Leaf(e) => if e.key == key then Some((e.value, e.txid)) else None
    case Inner(prefix, children) =>
      if prefix < rest && Next(rest, prefix) in children then Get(children[Next(rest, prefix)], key, Beyond(rest, prefix))
      else None
  }

  function CommonPrefix(a: Text, b: Text): (n: nat)
    ensures n <= |a| && n <= |b| && a[..n] == b[..n]
    ensures n < |a| && n < |b| ==> a[n] != b[n]
  {
    if |a| == 0 || |b| == 0 || a[0] != b[0] then 0
    else
      var n := CommonPrefix(a[1..], b[1..]);
      assert a[..n + 1] == [a[0]] + a[1..][..n] && b[..n + 1] == [b[0]] + b[1..][..n];
      n + 1
  }

  /** Two leaves, with `x` and `y` left of their keys, under one inner node that takes `n`
      bytes; an entry whose key ends there is lost. */
  function Pair(leaf: Entry, x: Text, e: Entry, y: Text, n: nat): ArtNode
    requires n <= |x| && n <= |y|
  {
    var one: map<byte, ArtNode> := if |x| > n then map[x[n] := Leaf(leaf)] else map[];
    Inner(y[..n], if |y| > n then one[y[n] := Leaf(e)] else one)
  }

  lemma Deeper(path: Text, rest: Text, prefix: Text)
    requires prefix < rest
    ensures path + rest == path + prefix + [Next(rest, prefix)] + Beyond(rest, prefix)
  {
    assert rest == prefix + [Next(rest, prefix)] + Beyond(rest, prefix);
  }

  /** `ArtNode::insert`: the node afterwards, and whether it reports a new key. A leaf with
      another key is replaced by a node with what the two keys have in common. */
  function Insert(node: ArtNode, e: Entry, path: Text, rest: Text): (r: (ArtNode, bool))
    requires e.key == path + rest && Wf(node, path)
    decreases node
  {
    match node
    case Leaf(leaf) =>
      if leaf.key == e.key then (Leaf(e), false)
      else
        var x := leaf.key[|path|..];
        (Pair(leaf, x, e, rest, CommonPrefix(x, rest)), true)
    case Inner(prefix, children) =>
      if !(prefix < rest) then (node, false)
      else
        var b := Next(rest, prefix);
        Deeper(path, rest, prefix);
        if b in children then
          var r := Insert(children[b], e, path + prefix + [b], Beyond(rest, prefix));
          (Inner(prefix, children[b := r.0]), r.1)
        else (Inner(prefix, children[b := Leaf(e)]), true)
  }

  lemma PrefixBoth(path: Text, a: Text, b: Text)
    ensures path + a <= path + b <==> a <= b
    ensures path + a == path + b <==> a == b
  {
    assert (path + a)[|path|..] == a && (path + b)[|path|..] == b;
    if path + a <= path + b { assert (path + b)[..|path + a|] == path + a; }
  }

  lemma BeginsWith(rest: Text, prefix: Text, b: byte)
    ensures prefix + [b] <= rest <==> prefix < rest && Next(rest, prefix) == b
  {
    if prefix + [b] <= rest { assert rest[..|prefix| + 1] == prefix + [b]; }
    if prefix < rest && Next(rest, prefix) == b { assert rest[..|prefix| + 1] == prefix + [b]; }
  }

  /** A key below `path` goes on to the longer path exactly when its rest begins with it. */
  lemma PathFollows(path: Text, rest: Text, prefix: Text, b: byte)
    ensures path + prefix + [b] <= path + rest <==> prefix < rest && Next(rest, prefix) == b
  {
    assert path + prefix + [b] == path + (prefix + [b]);
    PrefixBoth(path, prefix + [b], rest);
    BeginsWith(rest, prefix, b);
  }

  // ---- What an insert does ----

  /** What an insert runs into: a prefix that does not match or a key that ends too early, a
      leaf with its key, a leaf with another key, or a free place. */
  datatype Outcome = Blocked | Updated | Split(existing: Text) | Added

  function Meets(node: ArtNode, key: Text, rest: Text): Outcome {
    match node
    case Leaf(leaf) => if leaf.key == key then Updated else Split(leaf.key)
    case Inner(prefix, children) =>
      if !(prefix < rest) then Blocked
      else if Next(rest, prefix) in children then Meets(children[Next(rest, prefix)], key, Beyond(rest, prefix))
      else Added
  }

  /** Neither of two keys begins with the other. */
  predicate Apart(a: Text, b: Text) { !(a <= b) && !(b <= a) }

  predicate TakesEffect(o: Outcome, key: Text) {
    o.Updated? || o.Added? || (o.Split? && Apart(o.existing, key))
  }

  /** What a lookup of `q` gives after an insert of `e` that met `o`. */
  function Expected(o: Outcome, e: Entry, q: Text, before: Found): Found {
    if q == e.key then (if o.Blocked? || (o.Split? && e.key <= o.existing) then before else Some((e.value, e.txid)))
    else if o.Split? && q == o.existing && o.existing <= e.key then None
    else before
  }

  /** Two keys part at `n`: one of them ends there, or they go on differently. */
  predicate PartAt(a: Text, b: Text, n: nat) {
    n <= |a| && n <= |b| && a[..n] == b[..n]
    && (|a| > n || |b| > n)
    && (|a| > n && |b| > n ==> a[n] != b[n])
  }

  lemma CommonParts(a: Text, b: Text)
    requires a != b
    ensures PartAt(a, b, CommonPrefix(a, b))
  {
    var n := CommonPrefix(a, b);
    assert a == a[..n] + a[n..] && b == b[..n] + b[n..];
  }

  lemma PairWf(leaf: Entry, x: Text, e: Entry, y: Text, n: nat, path: Text)
    requires leaf.key == path + x && e.key == path + y && PartAt(x, y, n)
    ensures Wf(Pair(leaf, x, e, y, n), path)
  {
    if |x| > n { PathFollows(path, x, y[..n], x[n]); }
    if |y| > n { PathFollows(path, y, y[..n], y[n]); }
  }

  /** A lookup with `z` left, under the node of two leaves. */
  lemma PairGet(leaf: Entry, x: Text, e: Entry, y: Text, n: nat, path: Text, z: Text)
    requires leaf.key == path + x && e.key == path + y && PartAt(x, y, n)
    ensures Get(Pair(leaf, x, e, y, n), path + z, z)
         == Expected(Split(leaf.key), e, path + z, Get(Leaf(leaf), path + z, z))
  {
    PrefixBoth(path, x, y);
    PrefixBoth(path, y, x);
    PrefixBoth(path, z, x);
    PrefixBoth(path, z, y);
    assert x <= y <==> |x| == n by { if |x| == n { assert x == y[..n]; } }
    assert y <= x <==> |y| == n by { if |y| == n { assert y == x[..n]; } }
    assert y[..n] < y <==> |y| > n;
    assert y[..n] < x <==> |x| > n;
  }

  /** A changed child leaves the rest of the node as it was. */
  lemma WfReplaced(prefix: Text, children: map<byte, ArtNode>, b: byte, child: ArtNode, path: Text)
    requires Wf(Inner(prefix, children), path) && Wf(child, path + prefix + [b])
    ensures Wf(Inner(prefix, children[b := child]), path)
  {}

  lemma GetReplaced(prefix: Text, children: map<byte, ArtNode>, b: byte, child: ArtNode, q: Text, rest: Text)
    ensures Get(Inner(prefix, children[b := child]), q, rest)
         == if prefix < rest && Next(rest, prefix) == b then Get(child, q, Beyond(rest, prefix))
            else Get(Inner(prefix, children), q, rest)
  {}

  lemma LeafInsert(leaf: Entry, e: Entry, path: Text, rest: Text) returns (x: Text, n: nat)
    requires e.key == path + rest && path <= leaf.key && leaf.key != e.key
    ensures leaf.key == path + x && PartAt(x, rest, n)
    ensures Insert(Leaf(leaf), e, path, rest) == (Pair(leaf, x, e, rest, n), true)
  {
    x := leaf.key[|path|..];
    n := CommonPrefix(x, rest);
    CommonParts(x, rest);
  }

  lemma {:induction false} InsertWf(node: ArtNode, e: Entry, path: Text, rest: Text)
    requires e.key == path + rest && Wf(node, path)
    ensures Wf(Insert(node, e, path, rest).0, path)
    decreases node
  {
    match node
    case Leaf(leaf) =>
      if leaf.key != e.key {
        var x, n := LeafInsert(leaf, e, path, rest);
        PairWf(leaf, x, e, rest, n, path);
      }
    case Inner(prefix, children) =>
      if prefix < rest {
        var b, more := Next(rest, prefix), Beyond(rest, prefix);
        Deeper(path, rest, prefix);
        if b in children {
          InsertWf(children[b], e, path + prefix + [b], more);
          WfReplaced(prefix, children, b, Insert(children[b], e, path + prefix + [b], more).0, path);
        } else {
          WfReplaced(prefix, children, b, Leaf(e), path);
        }
      }
  }

  /** The leaf that a split meets lies below the node. */
  lemma {:induction false} MeetsBelow(node: ArtNode, key: Text, path: Text, rest: Text)
    requires key == path + rest && Wf(node, path)
    ensures var o := Meets(node, key, rest);
      o.Split? ==> path <= o.existing && o.existing != key && Get(node, o.existing, o.existing[|path|..]).Some?
    ensures Meets(node, key, rest).Updated? <==> Get(node, key, rest).Some?
    decreases node
  {
    match node
    case Leaf(_) =>
    case Inner(prefix, children) =>
      if prefix < rest && Next(rest, prefix) in children {
        var b, more := Next(rest, prefix), Beyond(rest, prefix);
        var longer := path + prefix + [b];
        Deeper(path, rest, prefix);
        MeetsBelow(children[b], key, longer, more);
        var o := Meets(node, key, rest);
        if o.Split? { SplitBelow(path, prefix, b, o.existing); }
      }
  }

  lemma SplitBelow(path: Text, prefix: Text, b: byte, existing: Text)
    requires path + prefix + [b] <= existing
    ensures path <= existing
    ensures var z := existing[|path|..];
      prefix < z && Next(z, prefix) == b && Beyond(z, prefix) == existing[|path + prefix + [b]|..]
  {
    var longer := path + prefix + [b];
    assert existing == longer + existing[|longer|..];
    assert longer + existing[|longer|..] == path + (prefix + [b] + existing[|longer|..]);
    assert existing[|path|..] == prefix + [b] + existing[|longer|..];
  }

  lemma Elsewhere(node: ArtNode, e: Entry, path: Text, rest: Text, q: Text, before: Found)
    requires e.key == path + rest && Wf(node, path) && !(path <= q)
    ensures Expected(Meets(node, e.key, rest), e, q, before) == before
  {
    MeetsBelow(node, e.key, path, rest);
  }

  /** One insert, seen through every lookup. */
  lemma {:induction false} InsertGet(node: ArtNode, e: Entry, path: Text, rest: Text, z: Text)
    requires e.key == path + rest && Wf(node, path)
    ensures Get(Insert(node, e, path, rest).0, path + z, z)
         == Expected(Meets(node, e.key, rest), e, path + z, Get(node, path + z, z))
    ensures Insert(node, e, path, rest).1 == (Meets(node, e.key, rest).Split? || Meets(node, e.key, rest).Added?)
    decreases node
  {
    match node
    case Leaf(leaf) =>
      if leaf.key != e.key {
        var x, n := LeafInsert(leaf, e, path, rest);
        PairGet(leaf, x, e, rest, n, path, z);
      }
    case Inner(prefix, children) =>
      if prefix < rest {
        var b := Next(rest, prefix);
        Deeper(path, rest, prefix);
        if b in children {
          InsertGetBelow(node, e, path, rest, z);
        } else {
          GetReplaced(prefix, children, b, Leaf(e), path + z, z);
          PathFollows(path, z, prefix, b);
          PrefixBoth(path, z, rest);
        }
      }
  }

  lemma {:induction false} InsertGetBelow(node: ArtNode, e: Entry, path: Text, rest: Text, z: Text)
    requires e.key == path + rest && Wf(node, path)
    requires node.Inner? && node.prefix < rest && Next(rest, node.prefix) in node.children
    ensures Get(Insert(node, e, path, rest).0, path + z, z)
         == Expected(Meets(node, e.key, rest), e, path + z, Get(node, path + z, z))
    ensures Insert(node, e, path, rest).1 == (Meets(node, e.key, rest).Split? || Meets(node, e.key, rest).Added?)
    decreases node, 0
  {
    var prefix, children := node.prefix, node.children;
    var b, more := Next(rest, prefix), Beyond(rest, prefix);
    var longer := path + prefix + [b];
    Deeper(path, rest, prefix);
    GetReplaced(prefix, children, b, Insert(children[b], e, longer, more).0, path + z, z);
    if prefix < z && Next(z, prefix) == b {
      Deeper(path, z, prefix);
      InsertGet(children[b], e, longer, more, Beyond(z, prefix));
    } else {
      InsertGet(children[b], e, longer, more, more);
      PathFollows(path, z, prefix, b);
      Elsewhere(children[b], e, longer, more, path + z, Get(node, path + z, z));
    }
  }
}
