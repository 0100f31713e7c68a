/** The `$unwind`, `$group` and `$bucket` stages of the aggregation pipeline. */
module Aggregation {
  import opened Bytes
  import opened ObeValue
  import opened Json
  import opened Rounding
  import opened Accumulators
  import opened ValueLaws
  import TextMap

  /** Renders a value as JSON text; the text is the key of a group. */
  type Render = ObeValue -> Text

  // ---- $unwind ----

  datatype UnwindConfig = UnwindConfig(path: Text, index: Option<Text>, preserve: bool)

  function Set(d: ObeDocument, field: Text, v: ObeValue): ObeDocument {
    d.(fields := TextMap.Insert(d.fields, field, v))
  }

  /** The row of one array element. */
  function Row(d: ObeDocument, cfg: UnwindConfig, elem: ObeValue, i: nat): ObeDocument {
    var row := Set(d, cfg.path, elem);
    match cfg.index
    case None => row
    case Some(field) => Set(row, field, Int64(Signed(i % TWO_64, TWO_63)))
  }

  function UnwindDoc(d: ObeDocument, cfg: UnwindConfig): seq<ObeDocument> {
    var v: Option<ObeValue> := TextMap.Get(d.fields, cfg.path);
    match v
    case Some(Array(elems)) =>
      if |elems| > 0 then seq(|elems|, i requires 0 <= i < |elems| => Row(d, cfg, elems[i], i))
      else if cfg.preserve then [d] else []
    case Some(Null) => if cfg.preserve then [d] else []
    case None => if cfg.preserve then [d] else []
    case Some(_) => [d]
  }

  function UnwindAll(docs: seq<ObeDocument>, cfg: UnwindConfig): seq<ObeDocument> {
    if |docs| == 0 then [] else UnwindAll(docs[..|docs| - 1], cfg) + UnwindDoc(docs[|docs| - 1], cfg)
  }

  /** A row has the element at the path, its index under the index field, and every other field
      of the document. */
  lemma RowHolds(d: ObeDocument, cfg: UnwindConfig, elem: ObeValue, i: nat, q: Text)
    requires cfg.index != Some(cfg.path)
    ensures var row := Row(d, cfg, elem, i);
      row.id == d.id && row.txid == d.txid && row.tombstone == d.tombstone
      && TextMap.Get(row.fields, cfg.path) == Some(elem)
      && (cfg.index.Some? && i < TWO_63 ==> TextMap.Get(row.fields, cfg.index.value) == Some(Int64(i)))
      && (q != cfg.path && cfg.index != Some(q) ==> TextMap.Get(row.fields, q) == TextMap.Get(d.fields, q))
  {
    var one := Set(d, cfg.path, elem);
    TextMap.GetInsert(d.fields, cfg.path, elem, cfg.path);
    TextMap.GetInsert(d.fields, cfg.path, elem, q);
    if cfg.index.Some? {
      var n := Int64(Signed(i % TWO_64, TWO_63));
      TextMap.GetInsert(one.fields, cfg.index.value, n, cfg.index.value);
      TextMap.GetInsert(one.fields, cfg.index.value, n, cfg.path);
      TextMap.GetInsert(one.fields, cfg.index.value, n, q);
    }
  }

  /** One row for each element; a document without one is kept as it is if that is asked for,
      and one whose field is no array always. */
  lemma UnwindRows(d: ObeDocument, cfg: UnwindConfig)
    ensures var rows := UnwindDoc(d, cfg);
      var v: Option<ObeValue> := TextMap.Get(d.fields, cfg.path);
      match v
      case Some(Array(elems)) =>
        if elems == [] then rows == (if cfg.preserve then [d] else [])
        else |rows| == |elems| && forall i :: 0 <= i < |elems| ==> rows[i] == Row(d, cfg, elems[i], i)
      case Some(x) => rows == if x.Null? && !cfg.preserve then [] else [d]
      case None => rows == if cfg.preserve then [d] else []
  {}

  method UnwindArray(d: ObeDocument, cfg: UnwindConfig, elems: seq<ObeValue>) returns (rows: seq<ObeDocument>)
    ensures rows == seq(|elems|, i requires 0 <= i < |elems| => Row(d, cfg, elems[i], i))
  {
    rows := [];
    for i := 0 to |elems|
      invariant |rows| == i && forall j :: 0 <= j < i ==> rows[j] == Row(d, cfg, elems[j], j)
    {
      var row := Set(d, cfg.path, elems[i]);
      if cfg.index.Some? { row := Set(row, cfg.index.value, Int64(Signed(i % TWO_64, TWO_63))); }
      rows := rows + [row];
    }
  }

  method Unwind(docs: seq<ObeDocument>, cfg: UnwindConfig) returns (result: seq<ObeDocument>)
    ensures result == UnwindAll(docs, cfg)
  {
    result := [];
    for n := 0 to |docs|
      invariant result == UnwindAll(docs[..n], cfg)
    {
      var d := docs[n];
      assert docs[..n + 1][..n] == docs[..n];
      var rows := [];
      var v: Option<ObeValue> := TextMap.Get(d.fields, cfg.path);
      if v.Some? && v.value.Array? && |v.value.elems| > 0 {
        rows := UnwindArray(d, cfg, v.value.elems);
      } else if v.None? || v.value.Null? || v.value.Array? {
        if cfg.preserve { rows := [d]; }
      } else {
        rows := [d];
      }
      result := result + rows;
    }
    assert docs[..|docs|] == docs;
  }

  // ---- $group ----

  function NullKey(): Text { Ascii("null") }

  function GroupKey(d: ObeDocument, idExpr: Text, render: Render): Text {
    if idExpr == NullKey() then NullKey()
    else
      match GetPath(d.fields, idExpr)
      case None => NullKey()
      case Some(v) => render(v)
  }

  /** If the values that they are grouped by are told apart by their texts, two documents share
      a group exactly when they have the same value, or both none or null. */
  lemma SharesGroup(a: ObeDocument, b: ObeDocument, idExpr: Text, render: Render)
    requires render(Null) == Ascii("null")
    requires var x, y := OrNull(GetPath(a.fields, idExpr)), OrNull(GetPath(b.fields, idExpr));
             render(x) == render(y) ==> x == y
    ensures GroupKey(a, idExpr, render) == GroupKey(b, idExpr, render)
       <==> idExpr == Ascii("null") || OrNull(GetPath(a.fields, idExpr)) == OrNull(GetPath(b.fields, idExpr))
  {}

  type Groups = seq<(Text, seq<ObeDocument>)>

  function AddTo(groups: Groups, key: Text, d: ObeDocument): Groups {
    var found := TextMap.Get(groups, key);
    TextMap.Insert(groups, key, (if found.Some? then found.value else []) + [d])
  }

  function GroupDocs(docs: seq<ObeDocument>, idExpr: Text, render: Render): Groups {
    if |docs| == 0 then []
    else
      var last := |docs| - 1;
      AddTo(GroupDocs(docs[..last], idExpr, render), GroupKey(docs[last], idExpr, render), docs[last])
  }

  function Outputs(fields: Fields, accs: seq<(Text, Accumulator)>, docs: seq<ObeDocument>): Fields
    decreases |accs|
  {
    if |accs| == 0 then fields
    else Outputs(TextMap.Insert(fields, accs[0].0, Accumulate(accs[0].1, docs)), accs[1..], docs)
  }

  /** The fields of the document of one group; `parse` reads a key back as a value. */
  function GroupFields(key: Text, docs: seq<ObeDocument>, accs: seq<(Text, Accumulator)>, parse: Text -> ObeValue): Fields {
    var id := if key == NullKey() then Null else parse(key);
    Outputs(TextMap.Insert([], Ascii("_id"), id), accs, docs)
  }

  /** Each accumulator's value stands under its name, unless a later one has the same. */
  lemma {:induction false} OutputsHold(fields: Fields, accs: seq<(Text, Accumulator)>, docs: seq<ObeDocument>, q: Text)
    ensures (forall i :: 0 <= i < |accs| ==> accs[i].0 != q) ==>
              TextMap.Get(Outputs(fields, accs, docs), q) == TextMap.Get(fields, q)
    ensures forall i :: 0 <= i < |accs| && accs[i].0 == q && (forall j :: i < j < |accs| ==> accs[j].0 != q) ==>
              TextMap.Get(Outputs(fields, accs, docs), q) == Some(Accumulate(accs[i].1, docs))
    decreases |accs|
  {
    if |accs| > 0 {
      var name, value, rest := accs[0].0, Accumulate(accs[0].1, docs), accs[1..];
      TextMap.GetInsert(fields, name, value, q);
      OutputsHold(TextMap.Insert(fields, name, value), rest, docs, q);
      assert forall j :: 0 < j < |accs| ==> accs[j] == rest[j - 1];
    }
  }

  /** The document of a group has its key as `_id`. */
  lemma GroupHasKey(key: Text, docs: seq<ObeDocument>, accs: seq<(Text, Accumulator)>, parse: Text -> ObeValue)
    requires forall i :: 0 <= i < |accs| ==> accs[i].0 != Ascii("_id")
    ensures TextMap.Get(GroupFields(key, docs, accs, parse), Ascii("_id"))
         == Some(if key == Ascii("null") then Null else parse(key))
  {
    OutputsHold(TextMap.Insert([], Ascii("_id"), if key == NullKey() then Null else parse(key)), accs, docs, Ascii("_id"));
  }

  /** `execute_group`, as it runs: one document for each key, in the order of the keys. */
  method ExecuteGroup(docs: seq<ObeDocument>, idExpr: Text, accs: seq<(Text, Accumulator)>,
      render: Render, parse: Text -> ObeValue) returns (result: seq<Fields>)
    ensures var groups := GroupDocs(docs, idExpr, render);
      |result| == |groups|
      && forall g :: 0 <= g < |groups| ==> result[g] == GroupFields(groups[g].0, groups[g].1, accs, parse)
  {
    var groups := CollectGroups(docs, idExpr, render);
    result := [];
    for g := 0 to |groups|
      invariant |result| == g
      invariant forall h :: 0 <= h < g ==> result[h] == GroupFields(groups[h].0, groups[h].1, accs, parse)
    {
      var fields := GroupDocument(groups[g].0, groups[g].1, accs, parse);
      result := result + [fields];
    }
  }

  method GroupDocument(key: Text, docs: seq<ObeDocument>, accs: seq<(Text, Accumulator)>, parse: Text -> ObeValue)
    returns (fields: Fields)
    ensures fields == GroupFields(key, docs, accs, parse)
  {
    var id := if key == NullKey() then Null else parse(key);
    fields := RunAccumulators(TextMap.Insert([], Ascii("_id"), id), accs, docs);
  }

  /** The first loop of `execute_group`: each document joins the group of its key. */
  method CollectGroups(docs: seq<ObeDocument>, idExpr: Text, render: Render) returns (groups: Groups)
    ensures groups == GroupDocs(docs, idExpr, render)
  {
    groups := [];
    for n := 0 to |docs|
      invariant groups == GroupDocs(docs[..n], idExpr, render)
    {
      assert docs[..n + 1][..n] == docs[..n];
      var v := GetPath(docs[n].fields, idExpr);
      var key := NullKey();
      if idExpr != NullKey() && v.Some? { key := render(v.value); }
      groups := AddTo(groups, key, docs[n]);
    }
    assert docs[..|docs|] == docs;
  }

  /** The inner loop of `execute_group`: one output field for each accumulator. */
  method RunAccumulators(start: Fields, accs: seq<(Text, Accumulator)>, docs: seq<ObeDocument>) returns (fields: Fields)
    ensures fields == Outputs(start, accs, docs)
  {
    fields := start;
    var rest := accs;
    while |rest| > 0
      invariant Outputs(fields, rest, docs) == Outputs(start, accs, docs)
    {
      var value := ComputeAccumulator(rest[0].1, docs);
      fields := TextMap.Insert(fields, rest[0].0, value);
      rest := rest[1..];
    }
  }

  // ---- What grouping means ----

  /** The documents with a given key, in their order. */
  function Members(docs: seq<ObeDocument>, key: Text, idExpr: Text, render: Render): seq<ObeDocument> {
    if |docs| == 0 then []
    else
      var last := |docs| - 1;
      var before := Members(docs[..last], key, idExpr, render);
      if GroupKey(docs[last], idExpr, render) == key then before + [docs[last]] else before
  }

  /** A group is the documents with its key; there is a group for each key that occurs, in
      the order of the keys. */
  lemma {:induction false} GroupsAreMembers(docs: seq<ObeDocument>, key: Text, idExpr: Text, render: Render)
    ensures TextMap.Sorted(GroupDocs(docs, idExpr, render))
    ensures var members := Members(docs, key, idExpr, render);
      TextMap.Get(GroupDocs(docs, idExpr, render), key) == if members == [] then None else Some(members)
  {
    if |docs| > 0 {
      var last := |docs| - 1;
      var groups, k := GroupDocs(docs[..last], idExpr, render), GroupKey(docs[last], idExpr, render);
      GroupsAreMembers(docs[..last], key, idExpr, render);
      var found := TextMap.Get(groups, k);
      var members := (if found.Some? then found.value else []) + [docs[last]];
      TextMap.InsertSorted(groups, k, members);
      TextMap.GetInsert(groups, k, members, key);
    }
  }

  function Sizes(groups: Groups): nat {
    if |groups| == 0 then 0 else |groups[0].1| + Sizes(groups[1..])
  }

  lemma {:induction false} SizesAdd(groups: Groups, key: Text, d: ObeDocument)
    requires TextMap.Sorted(groups)
    ensures Sizes(AddTo(groups, key, d)) == Sizes(groups) + 1
  {
    var r := AddTo(groups, key, d);
    if |groups| > 0 && groups[0].0 == key {
      assert r[1..] == groups[1..];
    } else if |groups| > 0 && !LexLess(key, groups[0].0) {
      assert TextMap.Sorted(groups[1..]) by {
        forall i, j | 0 <= i < j < |groups[1..]| ensures LexLess(groups[1..][i].0, groups[1..][j].0) {
          assert LexLess(groups[i + 1].0, groups[j + 1].0);
        }
      }
      SizesAdd(groups[1..], key, d);
      assert r[1..] == AddTo(groups[1..], key, d);
    } else {
      AbsentBefore(groups, key);
      assert r[1..] == groups;
    }
  }

  /** A key below all keys of a sorted map is not in it. */
  lemma AbsentBefore(groups: Groups, key: Text)
    requires TextMap.Sorted(groups) && (|groups| > 0 ==> LexLess(key, groups[0].0))
    ensures TextMap.Get(groups, key).None?
  {
    TextMap.GetMember(groups, key);
    forall i | 0 <= i < |groups| ensures groups[i].0 != key {
      if i > 0 { LexTransitive(key, groups[0].0, groups[i].0); }
      LexIrreflexive(key);
    }
  }

  /** Every document is in one group: the sizes of the groups add up. */
  lemma {:induction false} GroupsConserve(docs: seq<ObeDocument>, idExpr: Text, render: Render)
    ensures Sizes(GroupDocs(docs, idExpr, render)) == |docs|
  {
    if |docs| > 0 {
      var last := |docs| - 1;
      GroupsConserve(docs[..last], idExpr, render);
      GroupsAreMembers(docs[..last], [], idExpr, render);
      SizesAdd(GroupDocs(docs[..last], idExpr, render), GroupKey(docs[last], idExpr, render), docs[last]);
    }
  }

  // ---- $unwind followed by $group with $push ----

  /** Unwinding does not touch what the group key reads, nor overwrite the element. */
  predicate KeepsApart(cfg: UnwindConfig, idExpr: Text) {
    DOT !in cfg.path && cfg.index != Some(cfg.path)
    && Split(idExpr)[0] != cfg.path && cfg.index != Some(Split(idExpr)[0])
  }

  /** What the rows of one document contribute to a pushed array. */
  function Contribution(d: ObeDocument, cfg: UnwindConfig): seq<ObeValue> {
    var v: Option<ObeValue> := TextMap.Get(d.fields, cfg.path);
    match v
    case Some(Array(elems)) => if |elems| > 0 then elems else if cfg.preserve then [Array([])] else []
    case Some(Null) => if cfg.preserve then [Null] else []
    case None => []
    case Some(x) => [x]
  }

  lemma RowKeeps(d: ObeDocument, cfg: UnwindConfig, elem: ObeValue, i: nat, idExpr: Text, render: Render)
    requires KeepsApart(cfg, idExpr)
    ensures GroupKey(Row(d, cfg, elem, i), idExpr, render) == GroupKey(d, idExpr, render)
    ensures Resolve(FieldPath(cfg.path), Row(d, cfg, elem, i)) == Some(elem)
  {
    var one := Set(d, cfg.path, elem);
    var first := Split(idExpr)[0];
    TextMap.GetInsert(d.fields, cfg.path, elem, first);
    TextMap.GetInsert(d.fields, cfg.path, elem, cfg.path);
    if cfg.index.Some? {
      var n := Int64(Signed(i % TWO_64, TWO_63));
      TextMap.GetInsert(one.fields, cfg.index.value, n, first);
      TextMap.GetInsert(one.fields, cfg.index.value, n, cfg.path);
    }
    GetPathPlain(Row(d, cfg, elem, i).fields, cfg.path);
  }

  predicate AllKeyed(docs: seq<ObeDocument>, key: Text, idExpr: Text, render: Render) {
    forall i :: 0 <= i < |docs| ==> GroupKey(docs[i], idExpr, render) == key
  }

  lemma {:induction false} PushRows(docs: seq<ObeDocument>, values: seq<ObeValue>, expr: Expr)
    requires |docs| == |values|
    requires forall i :: 0 <= i < |docs| ==> Resolve(expr, docs[i]) == Some(values[i])
    ensures PushAll(expr, docs) == values
  {
    if |docs| > 0 {
      var last := |docs| - 1;
      PushRows(docs[..last], values[..last], expr);
      assert values == values[..last] + [values[last]];
    }
  }

  lemma UnwindDocKeeps(d: ObeDocument, cfg: UnwindConfig, idExpr: Text, render: Render)
    requires KeepsApart(cfg, idExpr)
    ensures AllKeyed(UnwindDoc(d, cfg), GroupKey(d, idExpr, render), idExpr, render)
    ensures PushAll(FieldPath(cfg.path), UnwindDoc(d, cfg)) == Contribution(d, cfg)
  {
    var rows, key := UnwindDoc(d, cfg), GroupKey(d, idExpr, render);
    var v := TextMap.Get(d.fields, cfg.path);
    GetPathPlain(d.fields, cfg.path);
    if v.Some? && v.value.Array? && |v.value.elems| > 0 {
      var elems := v.value.elems;
      forall i | 0 <= i < |rows|
        ensures GroupKey(rows[i], idExpr, render) == key && Resolve(FieldPath(cfg.path), rows[i]) == Some(elems[i])
      {
        RowKeeps(d, cfg, elems[i], i, idExpr, render);
      }
      PushRows(rows, elems, FieldPath(cfg.path));
    } else if rows == [d] {
      assert [d][..0] == [];
      assert PushAll(FieldPath(cfg.path), []) == [];
    }
  }

  lemma {:induction false} MembersAppend(a: seq<ObeDocument>, b: seq<ObeDocument>, all: seq<ObeDocument>,
                                       k: Text, key: Text, idExpr: Text, render: Render)
    requires all == a + b && AllKeyed(b, k, idExpr, render)
    ensures Members(all, key, idExpr, render) == Members(a, key, idExpr, render) + if k == key then b else []
    decreases |b|
  {
    var members := Members(a, key, idExpr, render);
    if |b| == 0 {
      assert all == a && members + [] == members;
    } else {
      var front, d := b[..|b| - 1], b[|b| - 1];
      assert b == front + [d] && a + (front + [d]) == a + front + [d];
      MembersAppend(a, front, a + front, k, key, idExpr, render);
      assert members + (front + [d]) == members + front + [d];
    }
  }

  lemma {:induction false} PushAppend(expr: Expr, a: seq<ObeDocument>, b: seq<ObeDocument>)
    ensures PushAll(expr, a + b) == PushAll(expr, a) + PushAll(expr, b)
  {
    if |b| == 0 {
      assert a + b == a;
    } else {
      var last := |b| - 1;
      assert (a + b)[..|a + b| - 1] == a + b[..last];
      PushAppend(expr, a, b[..last]);
    }
  }

  function Contributions(docs: seq<ObeDocument>, cfg: UnwindConfig): seq<ObeValue> {
    if |docs| == 0 then [] else Contributions(docs[..|docs| - 1], cfg) + Contribution(docs[|docs| - 1], cfg)
  }

  /** Unwinding commutes with grouping: the rows with a key are the rows of the documents with
      that key. */
  lemma {:induction false} UnwindMembers(docs: seq<ObeDocument>, cfg: UnwindConfig, key: Text, idExpr: Text, render: Render)
    requires KeepsApart(cfg, idExpr)
    ensures Members(UnwindAll(docs, cfg), key, idExpr, render) == UnwindAll(Members(docs, key, idExpr, render), cfg)
  {
    if |docs| > 0 {
      var last := |docs| - 1;
      var a, b := UnwindAll(docs[..last], cfg), UnwindDoc(docs[last], cfg);
      var before := Members(docs[..last], key, idExpr, render);
      UnwindMembers(docs[..last], cfg, key, idExpr, render);
      UnwindDocKeeps(docs[last], cfg, idExpr, render);
      MembersAppend(a, b, UnwindAll(docs, cfg), GroupKey(docs[last], idExpr, render), key, idExpr, render);
      assert Members(a, key, idExpr, render) + [] == Members(a, key, idExpr, render);
      assert (before + [docs[last]])[..|before|] == before;
    }
  }

  lemma {:induction false} PushUnwound(docs: seq<ObeDocument>, cfg: UnwindConfig, idExpr: Text, render: Render)
    requires KeepsApart(cfg, idExpr)
    ensures PushAll(FieldPath(cfg.path), UnwindAll(docs, cfg)) == Contributions(docs, cfg)
  {
    if |docs| > 0 {
      var last := |docs| - 1;
      PushUnwound(docs[..last], cfg, idExpr, render);
      UnwindDocKeeps(docs[last], cfg, idExpr, render);
      PushAppend(FieldPath(cfg.path), UnwindAll(docs[..last], cfg), UnwindDoc(docs[last], cfg));
    }
  }

  /** Pushing back what was unwound gives, for each key, the arrays of its documents one after
      the other. */
  lemma PushOfUnwind(docs: seq<ObeDocument>, cfg: UnwindConfig, key: Text, idExpr: Text, render: Render)
    requires KeepsApart(cfg, idExpr)
    ensures PushAll(FieldPath(cfg.path), Members(UnwindAll(docs, cfg), key, idExpr, render))
         == Contributions(Members(docs, key, idExpr, render), cfg)
  {
    UnwindMembers(docs, cfg, key, idExpr, render);
    PushUnwound(Members(docs, key, idExpr, render), cfg, idExpr, render);
  }

  predicate DistinctKeys(docs: seq<ObeDocument>, idExpr: Text, render: Render) {
    forall i, j :: 0 <= i < j < |docs| ==> GroupKey(docs[i], idExpr, render) != GroupKey(docs[j], idExpr, render)
  }

  lemma {:induction false} OneMember(docs: seq<ObeDocument>, i: nat, idExpr: Text, render: Render)
    requires i < |docs| && DistinctKeys(docs, idExpr, render)
    ensures Members(docs, GroupKey(docs[i], idExpr, render), idExpr, render) == [docs[i]]
  {
    var last, key := |docs| - 1, GroupKey(docs[i], idExpr, render);
    if i == last { NoMember(docs[..last], key, idExpr, render); } else { OneMember(docs[..last], i, idExpr, render); }
  }

  lemma {:induction false} NoMember(docs: seq<ObeDocument>, key: Text, idExpr: Text, render: Render)
    requires forall j :: 0 <= j < |docs| ==> GroupKey(docs[j], idExpr, render) != key
    ensures Members(docs, key, idExpr, render) == []
  {
    if |docs| > 0 { NoMember(docs[..|docs| - 1], key, idExpr, render); }
  }

  /** What `$group` by `idExpr` with `$push` of the unwound field gives for a key, if the key
      has a group. */
  function Pushed(docs: seq<ObeDocument>, cfg: UnwindConfig, key: Text, idExpr: Text, render: Render): Option<ObeValue> {
    PushedOf(TextMap.Get(GroupDocs(UnwindAll(docs, cfg), idExpr, render), key), cfg.path)
  }

  function PushedOf(group: Option<seq<ObeDocument>>, path: Text): Option<ObeValue> {
    match group
    case None => None
    case Some(members) => Some(Accumulate(Push(FieldPath(path)), members))
  }

  lemma RowsOfKey(docs: seq<ObeDocument>, i: nat, cfg: UnwindConfig, idExpr: Text, render: Render)
    requires i < |docs| && DistinctKeys(docs, idExpr, render) && KeepsApart(cfg, idExpr)
    ensures Members(UnwindAll(docs, cfg), GroupKey(docs[i], idExpr, render), idExpr, render) == UnwindDoc(docs[i], cfg)
  {
    UnwindMembers(docs, cfg, GroupKey(docs[i], idExpr, render), idExpr, render);
    OneMember(docs, i, idExpr, render);
  }

  lemma PushedAll(rows: seq<ObeDocument>, path: Text, key: Text, idExpr: Text, render: Render)
    ensures var members := Members(rows, key, idExpr, render);
      PushedOf(TextMap.Get(GroupDocs(rows, idExpr, render), key), path)
      == if members == [] then None else Some(Array(PushAll(FieldPath(path), members)))
  {
    GroupsAreMembers(rows, key, idExpr, render);
  }

  lemma PushedOne(docs: seq<ObeDocument>, i: nat, cfg: UnwindConfig, idExpr: Text, render: Render)
    requires i < |docs| && DistinctKeys(docs, idExpr, render) && KeepsApart(cfg, idExpr)
    ensures Pushed(docs, cfg, GroupKey(docs[i], idExpr, render), idExpr, render)
         == if UnwindDoc(docs[i], cfg) == [] then None else Some(Array(Contribution(docs[i], cfg)))
  {
    PushedAll(UnwindAll(docs, cfg), cfg.path, GroupKey(docs[i], idExpr, render), idExpr, render);
    RowsOfKey(docs, i, cfg, idExpr, render);
    UnwindDocKeeps(docs[i], cfg, idExpr, render);
  }

  /** Over documents with different keys, unwinding an array field and pushing it back gives a
      document its array again exactly when the array is not empty. */
  lemma UnwindThenPush(docs: seq<ObeDocument>, i: nat, elems: seq<ObeValue>, cfg: UnwindConfig, idExpr: Text, render: Render)
    requires i < |docs| && DistinctKeys(docs, idExpr, render) && KeepsApart(cfg, idExpr)
    requires TextMap.Get(docs[i].fields, cfg.path) == Some(Array(elems))
    ensures Pushed(docs, cfg, GroupKey(docs[i], idExpr, render), idExpr, render) == Some(Array(elems)) <==> elems != []
  {
    PushedOne(docs, i, cfg, idExpr, render);
    if elems == [] && cfg.preserve { assert |Contribution(docs[i], cfg)| == 1; }
  }

  // ---- $bucket ----

  /** `as_f64` of the field that is grouped by. */
  function Measure(d: ObeDocument, groupBy: Text): Option<F64> {
    match GetPath(d.fields, groupBy)
    case None => None
    case Some(v) => AsF64(v)
  }

  /** `as_f64` of a boundary. */
  function Number(json: Json): Option<F64> {
    match json
    case JInt(i) => Some(Finite(RoundedInt(i) as real))
    case JFloat(bits) => Some(Denotes(bits))
    case _ => None
  }

  function BoundOr(json: Json, otherwise: F64): F64 {
    var x := Number(json);
    if x.Some? then x.value else otherwise
  }

  predicate Between(v: F64, lower: Json, upper: Json) {
    AtMost(BoundOr(lower, LOWEST), v) && CompareF64(v, BoundOr(upper, LARGEST)) == Some(Less)
  }

  /** The first bucket from `i` on whose bounds take the value. */
  function BucketFrom(v: F64, bounds: seq<Json>, i: nat): (r: Option<nat>)
    ensures r.Some? ==> i <= r.value && r.value + 1 < |bounds|
    decreases |bounds| - i
  {
    if i + 1 >= |bounds| then None
    else if Between(v, bounds[i], bounds[i + 1]) then Some(i)
    else BucketFrom(v, bounds, i + 1)
  }

  function BucketOf(d: ObeDocument, groupBy: Text, bounds: seq<Json>): Option<nat> {
    var v := Measure(d, groupBy);
    if v.None? then None else BucketFrom(v.value, bounds, 0)
  }

  /** How many documents go to a bucket; `None` is the default bucket. */
  function BucketCount(docs: seq<ObeDocument>, groupBy: Text, bounds: seq<Json>, bucket: Option<nat>): nat {
    if |docs| == 0 then 0
    else
      var last := |docs| - 1;
      BucketCount(docs[..last], groupBy, bounds, bucket) + if BucketOf(docs[last], groupBy, bounds) == bucket then 1 else 0
  }

  /** A bucket that gives an output document. */
  datatype Bucket = Bucket(id: ObeValue, size: nat)

  function BucketDoc(b: Bucket): Fields {
    TextMap.Insert(TextMap.Insert([], Ascii("_id"), b.id), Ascii("count"), Int64(Signed(b.size % TWO_64, TWO_63)))
  }

  lemma BucketDocHolds(b: Bucket)
    requires b.size < TWO_63
    ensures TextMap.Get(BucketDoc(b), Ascii("_id")) == Some(b.id)
    ensures TextMap.Get(BucketDoc(b), Ascii("count")) == Some(Int64(b.size))
  {
    var id, count := Ascii("_id"), Ascii("count");
    assert id[0] != count[0];
    TextMap.GetInsert(TextMap.Insert([], id, b.id), count, Int64(b.size), count);
    TextMap.GetInsert(TextMap.Insert([], id, b.id), count, Int64(b.size), id);
  }

  /** An empty bucket has no document. */
  function Full(id: ObeValue, size: nat): seq<Bucket> { if size > 0 then [Bucket(id, size)] else [] }

  /** The first `n` buckets, without the empty ones. */
  function FullBuckets(docs: seq<ObeDocument>, groupBy: Text, bounds: seq<Json>, n: nat): seq<Bucket>
    requires n <= |bounds|
  {
    if n == 0 then []
    else
      FullBuckets(docs, groupBy, bounds, n - 1)
      + Full(FromJson(bounds[n - 1]), BucketCount(docs, groupBy, bounds, Some(n - 1)))
  }

  /** The id of the documents that no bucket takes. */
  function DefaultId(other: Option<Json>): ObeValue { if other.Some? then FromJson(other.value) else OtherId() }

  function OtherId(): ObeValue {
    AsciiIsUtf8(Ascii("Other"));
    String(Ascii("Other"))
  }

  /** The number of buckets: one between each two boundaries. */
  function Intervals(bounds: seq<Json>): nat { if |bounds| == 0 then 0 else |bounds| - 1 }

  function AllBuckets(docs: seq<ObeDocument>, groupBy: Text, bounds: seq<Json>, other: Option<Json>): seq<Bucket> {
    FullBuckets(docs, groupBy, bounds, Intervals(bounds)) + Full(DefaultId(other), BucketCount(docs, groupBy, bounds, None))
  }

  /** A bucket that has documents is there under its lower boundary, with its size, and there
      are no others. */
  lemma {:induction false} BucketIds(docs: seq<ObeDocument>, groupBy: Text, bounds: seq<Json>, n: nat, b: Bucket)
    requires n <= |bounds|
    ensures b in FullBuckets(docs, groupBy, bounds, n)
       <==> exists i :: 0 <= i < n && b == Bucket(FromJson(bounds[i]), BucketCount(docs, groupBy, bounds, Some(i))) && b.size > 0
  {
    if n > 0 { BucketIds(docs, groupBy, bounds, n - 1, b); }
  }

  /** The documents that no bucket takes come last, under the given id or `Other`. */
  lemma DefaultIds(docs: seq<ObeDocument>, groupBy: Text, bounds: seq<Json>, other: Option<Json>)
    ensures var size := BucketCount(docs, groupBy, bounds, None);
      var full := FullBuckets(docs, groupBy, bounds, Intervals(bounds));
      AllBuckets(docs, groupBy, bounds, other) == if size == 0 then full else full + [Bucket(DefaultId(other), size)]
    ensures DefaultId(other) == match other { case Some(json) => FromJson(json) case None => String(Ascii("Other")) }
  {
    AsciiIsUtf8(Ascii("Other"));
  }

  /** `execute_bucket`, as it runs. */
  method ExecuteBucket(docs: seq<ObeDocument>, groupBy: Text, bounds: seq<Json>, other: Option<Json>)
    returns (result: seq<Fields>)
    requires |bounds| > 0 || forall d :: d in docs ==> Measure(d, groupBy).None?
    ensures var buckets := AllBuckets(docs, groupBy, bounds, other);
      |result| == |buckets| && forall i :: 0 <= i < |buckets| ==> result[i] == BucketDoc(buckets[i])
  {
    var counts, others := FillBuckets(docs, groupBy, bounds);
    result := [];
    ghost var done: seq<Bucket> := [];
    for i := 0 to |counts|
      invariant done == FullBuckets(docs, groupBy, bounds, i)
      invariant |result| == |done| && forall j :: 0 <= j < |done| ==> result[j] == BucketDoc(done[j])
    {
      done := done + Full(FromJson(bounds[i]), counts[i]);
      if counts[i] > 0 { result := result + [BucketDoc(Bucket(FromJson(bounds[i]), counts[i]))]; }
    }
    if others > 0 { result := result + [BucketDoc(Bucket(DefaultId(other), others))]; }
  }

  /** The first loop of `execute_bucket`: the size of each bucket and of the default bucket. */
  method FillBuckets(docs: seq<ObeDocument>, groupBy: Text, bounds: seq<Json>) returns (counts: seq<nat>, others: nat)
    requires |bounds| > 0 || forall d :: d in docs ==> Measure(d, groupBy).None?
    ensures |counts| == Intervals(bounds)
    ensures forall i :: 0 <= i < |counts| ==> counts[i] == BucketCount(docs, groupBy, bounds, Some(i))
    ensures others == BucketCount(docs, groupBy, bounds, None)
  {
    counts, others := seq(Intervals(bounds), _ => 0), 0;
    for n := 0 to |docs|
      invariant |counts| == Intervals(bounds)
      invariant forall i :: 0 <= i < |counts| ==> counts[i] == BucketCount(docs[..n], groupBy, bounds, Some(i))
      invariant others == BucketCount(docs[..n], groupBy, bounds, None)
    {
      assert docs[..n + 1][..n] == docs[..n];
      var v := Measure(docs[n], groupBy);
      var i := 0;
      if v.Some? {
        while i + 1 < |bounds| && !Between(v.value, bounds[i], bounds[i + 1])
          invariant i + 1 <= |bounds| && BucketFrom(v.value, bounds, 0) == BucketFrom(v.value, bounds, i)
        {
          i := i + 1;
        }
      }
      if v.Some? && i + 1 < |bounds| {
        counts := counts[i := counts[i] + 1];
      } else {
        others := others + 1;
      }
    }
    assert docs[..|docs|] == docs;
  }

  function CountsBelow(docs: seq<ObeDocument>, groupBy: Text, bounds: seq<Json>, n: nat): nat {
    if n == 0 then 0 else CountsBelow(docs, groupBy, bounds, n - 1) + BucketCount(docs, groupBy, bounds, Some(n - 1))
  }

  lemma {:induction false} CountsGrow(docs: seq<ObeDocument>, groupBy: Text, bounds: seq<Json>, n: nat)
    requires |docs| > 0
    ensures var b := BucketOf(docs[|docs| - 1], groupBy, bounds);
      CountsBelow(docs, groupBy, bounds, n)
      == CountsBelow(docs[..|docs| - 1], groupBy, bounds, n) + if b.Some? && b.value < n then 1 else 0
    decreases n
  {
    if n > 0 { CountsGrow(docs, groupBy, bounds, n - 1); }
  }

  lemma {:induction false} NoCounts(groupBy: Text, bounds: seq<Json>, n: nat)
    ensures CountsBelow([], groupBy, bounds, n) == 0
    decreases n
  {
    if n > 0 { NoCounts(groupBy, bounds, n - 1); }
  }

  /** Every document is in one bucket, whatever the boundaries: the counts add up. */
  lemma {:induction false} BucketsConserve(docs: seq<ObeDocument>, groupBy: Text, bounds: seq<Json>)
    ensures CountsBelow(docs, groupBy, bounds, Intervals(bounds)) + BucketCount(docs, groupBy, bounds, None) == |docs|
  {
    if |docs| > 0 {
      BucketsConserve(docs[..|docs| - 1], groupBy, bounds);
      CountsGrow(docs, groupBy, bounds, Intervals(bounds));
    } else {
      NoCounts(groupBy, bounds, Intervals(bounds));
    }
  }

  function Total(buckets: seq<Bucket>): nat {
    if |buckets| == 0 then 0 else Total(buckets[..|buckets| - 1]) + buckets[|buckets| - 1].size
  }

  lemma TotalAppend(buckets: seq<Bucket>, id: ObeValue, size: nat)
    ensures Total(buckets + Full(id, size)) == Total(buckets) + size
  {
    var all := buckets + Full(id, size);
    if size == 0 { assert all == buckets; } else { assert all[..|all| - 1] == buckets; }
  }

  lemma {:induction false} FullBucketsCount(docs: seq<ObeDocument>, groupBy: Text, bounds: seq<Json>, n: nat)
    requires n <= |bounds|
    ensures Total(FullBuckets(docs, groupBy, bounds, n)) == CountsBelow(docs, groupBy, bounds, n)
  {
    if n > 0 {
      FullBucketsCount(docs, groupBy, bounds, n - 1);
      TotalAppend(FullBuckets(docs, groupBy, bounds, n - 1), FromJson(bounds[n - 1]),
                  BucketCount(docs, groupBy, bounds, Some(n - 1)));
    }
  }

  /** The counts of the output documents add up to the number of documents. */
  lemma OutputConserves(docs: seq<ObeDocument>, groupBy: Text, bounds: seq<Json>, other: Option<Json>)
    ensures Total(AllBuckets(docs, groupBy, bounds, other)) == |docs|
  {
    FullBucketsCount(docs, groupBy, bounds, Intervals(bounds));
    BucketsConserve(docs, groupBy, bounds);
    TotalAppend(FullBuckets(docs, groupBy, bounds, Intervals(bounds)), DefaultId(other), BucketCount(docs, groupBy, bounds, None));
  }

  /** The boundaries are numbers, each below the next. */
  predicate Ascending(bounds: seq<Json>) {
    (forall i :: 0 <= i < |bounds| ==> Number(bounds[i]).Some?)
    && forall i, j :: 0 <= i < j < |bounds| ==> CompareF64(Number(bounds[i]).value, Number(bounds[j]).value) == Some(Less)
  }

  lemma LessAtLeast(v: F64, a: F64, b: F64)
    requires CompareF64(v, a) == Some(Less) && (CompareF64(a, b) == Some(Less) || a == b)
    ensures !AtMost(b, v)
  {}

  lemma {:induction false} BucketFirst(v: F64, bounds: seq<Json>, i: nat, k: nat)
    requires i <= k && k + 1 < |bounds|
    requires Between(v, bounds[k], bounds[k + 1])
    requires forall j :: i <= j < k ==> !Between(v, bounds[j], bounds[j + 1])
    ensures BucketFrom(v, bounds, i) == Some(k)
    decreases k - i
  {
    if i < k { BucketFirst(v, bounds, i + 1, k); }
  }

  lemma {:induction false} BucketTakes(v: F64, bounds: seq<Json>, i: nat)
    ensures var r := BucketFrom(v, bounds, i); r.Some? ==> Between(v, bounds[r.value], bounds[r.value + 1])
    decreases |bounds| - i
  {
    if i + 1 < |bounds| && !Between(v, bounds[i], bounds[i + 1]) { BucketTakes(v, bounds, i + 1); }
  }

  /** With ascending boundaries a value goes to the bucket whose bounds take it, and no other
      bucket would. */
  lemma BucketExact(v: F64, bounds: seq<Json>, k: nat)
    requires Ascending(bounds) && k + 1 < |bounds|
    ensures BucketFrom(v, bounds, 0) == Some(k) <==> Between(v, bounds[k], bounds[k + 1])
  {
    BucketTakes(v, bounds, 0);
    if Between(v, bounds[k], bounds[k + 1]) {
      forall j | 0 <= j < k ensures !Between(v, bounds[j], bounds[j + 1]) {
        var upper, lower := Number(bounds[j + 1]).value, Number(bounds[k]).value;
        if CompareF64(v, upper) == Some(Less) { LessAtLeast(v, upper, lower); }
      }
      BucketFirst(v, bounds, 0, k);
    }
  }
  /** Boundaries that are numbers in ascending order. */
  predicate Bounds(bounds: seq<Json>, xs: seq<real>) {
    |bounds| == |xs| && (forall i :: 0 <= i < |xs| ==> Stands(FromJson(bounds[i]), xs[i]))
    && forall i, j :: 0 <= i < j < |xs| ==> xs[i] < xs[j]
  }

  lemma BoundNumber(json: Json, x: real)
    requires Stands(FromJson(json), x)
    ensures Number(json) == Some(Finite(x))
  {
    if json.JInt? { RoundedExact(json.i); }
  }

  lemma BoundsAscend(bounds: seq<Json>, xs: seq<real>)
    requires Bounds(bounds, xs)
    ensures Ascending(bounds)
  {
    forall i | 0 <= i < |xs| ensures Number(bounds[i]) == Some(Finite(xs[i])) { BoundNumber(bounds[i], xs[i]); }
  }

  /** A document whose field holds a number goes to the bucket whose bounds take the number. */
  lemma BucketMeans(d: ObeDocument, groupBy: Text, v: ObeValue, x: real, bounds: seq<Json>, xs: seq<real>, k: nat)
    requires GetPath(d.fields, groupBy) == Some(v) && Stands(v, x)
    requires Bounds(bounds, xs) && k + 1 < |bounds|
    ensures BucketOf(d, groupBy, bounds) == Some(k) <==> xs[k] <= x < xs[k + 1]
  {
    StandsFor(v, x);
    BoundsAscend(bounds, xs);
    BucketExact(Finite(x), bounds, k);
    BoundNumber(bounds[k], xs[k]);
    BoundNumber(bounds[k + 1], xs[k + 1]);
  }

  /** A document whose field holds no number goes to the default bucket. */
  lemma NoBucket(d: ObeDocument, groupBy: Text, bounds: seq<Json>)
    requires match GetPath(d.fields, groupBy) case None => true case Some(v) => !IsNumber(v)
    ensures BucketOf(d, groupBy, bounds) == None
  {}
}
