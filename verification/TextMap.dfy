/** `BTreeMap<String, V>`: an association list strictly sorted by key, which is also the
    order of iteration. */
module TextMap {
  import opened Bytes

  predicate Sorted<V>(m: seq<(Text, V)>) {
    forall i, j :: 0 <= i < j < |m| ==> LexLess(m[i].0, m[j].0)
  }

  function Get<V>(m: seq<(Text, V)>, k: Text): Option<V> {
    if |m| == 0 then None
    else if m[0].0 == k then Some(m[0].1)
    else Get(m[1..], k)
  }

  /** Inserts or overwrites, keeping the order. */
  function Insert<V>(m: seq<(Text, V)>, k: Text, v: V): (r: seq<(Text, V)>)
    ensures |m| <= |r| <= |m| + 1
  {
    if |m| == 0 then [(k, v)]
    else if m[0].0 == k then [(k, v)] + m[1..]
    else if LexLess(k, m[0].0) then [(k, v)] + m
    else [m[0]] + Insert(m[1..], k, v)
  }

  lemma {:induction false} InsertMembers<V>(m: seq<(Text, V)>, k: Text, v: V)
    ensures forall e :: e in Insert(m, k, v) ==> e in m || e == (k, v)
  {
    if |m| > 0 && m[0].0 != k && !LexLess(k, m[0].0) {
      InsertMembers(m[1..], k, v);
      assert m == [m[0]] + m[1..];
    }
  }

  lemma {:induction false} InsertSorted<V>(m: seq<(Text, V)>, k: Text, v: V)
    requires Sorted(m)
    ensures Sorted(Insert(m, k, v))
  {
    if |m| > 0 && m[0].0 != k {
      var r := Insert(m, k, v);
      if LexLess(k, m[0].0) {
        forall i, j | 0 <= i < j < |r| ensures LexLess(r[i].0, r[j].0) {
          if i == 0 && j > 1 { LexTransitive(k, m[0].0, m[j - 1].0); }
        }
      } else {
        InsertSorted(m[1..], k, v);
        InsertMembers(m[1..], k, v);
        LexTotal(k, m[0].0);
        forall i, j | 0 <= i < j < |r| ensures LexLess(r[i].0, r[j].0) {
          if i == 0 {
            var rest := Insert(m[1..], k, v);
            assert r[j] == rest[j - 1] && rest[j - 1] in rest;
          }
        }
      }
    }
  }

  lemma {:induction false} GetInsert<V>(m: seq<(Text, V)>, k: Text, v: V, q: Text)
    ensures Get(Insert(m, k, v), q) == (if q == k then Some(v) else Get(m, q))
  {
    if |m| > 0 && m[0].0 != k && !LexLess(k, m[0].0) {
      GetInsert(m[1..], k, v, q);
      assert Insert(m, k, v)[1..] == Insert(m[1..], k, v);
    } else if |m| > 0 && m[0].0 == k {
      assert Insert(m, k, v)[1..] == m[1..];
    } else if |m| > 0 {
      assert Insert(m, k, v)[1..] == m;
    } else {
      assert Insert(m, k, v)[1..] == m;
    }
  }

  lemma SortedPrefix<V>(a: seq<(Text, V)>, b: seq<(Text, V)>)
    requires Sorted(a + b)
    ensures Sorted(a)
  {
    assert forall i :: 0 <= i < |a| ==> (a + b)[i] == a[i];
  }

  /** A key above all others goes to the end. */
  lemma {:induction false} InsertLast<V>(m: seq<(Text, V)>, k: Text, v: V)
    requires Sorted(m + [(k, v)])
    ensures Insert(m, k, v) == m + [(k, v)]
  {
    if |m| > 0 {
      var all := m + [(k, v)];
      assert all[0] == m[0] && all[|m|] == (k, v);
      LexAsymmetric(m[0].0, k);
      assert all[1..] == m[1..] + [(k, v)];
      forall i, j | 0 <= i < j < |all| - 1 ensures LexLess(all[1..][i].0, all[1..][j].0) {
        assert all[1..][i] == all[i + 1] && all[1..][j] == all[j + 1];
      }
      InsertLast(m[1..], k, v);
    } else {
      assert m + [(k, v)] == [(k, v)];
    }
  }

  /** In a sorted list every entry is what its key looks up. */
  lemma {:induction false} GetAt<V>(m: seq<(Text, V)>, i: nat)
    requires Sorted(m) && i < |m|
    ensures Get(m, m[i].0) == Some(m[i].1)
  {
    if i > 0 {
      LexAsymmetric(m[0].0, m[i].0);
      assert m[1..][i - 1] == m[i];
      GetAt(m[1..], i - 1);
    }
  }

  lemma {:induction false} GetMember<V>(m: seq<(Text, V)>, k: Text)
    ensures Get(m, k).None? <==> forall i :: 0 <= i < |m| ==> m[i].0 != k
    ensures Get(m, k).Some? ==> (k, Get(m, k).value) in m
  {
    if |m| > 0 {
      GetMember(m[1..], k);
      assert forall i :: 0 < i < |m| ==> m[i] == m[1..][i - 1];
      assert forall i :: 0 <= i < |m| - 1 ==> m[1..][i] == m[i + 1];
    }
  }
}
