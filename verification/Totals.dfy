// The sum of a table's numeric column.
module Totals {
  import opened Sorting

  ghost function Total<K>(m: map<K, nat>): nat
    decreases |m|
  {
    if m == map[] then 0
    else
      var k := Pick(m.Keys);
      ShrinkByOne(m, k);
      m[k] + Total(m - {k})
  }

  lemma ShrinkByOne<K, V>(m: map<K, V>, k: K)
    requires k in m
    ensures (m - {k}).Keys == m.Keys - {k} && |m - {k}| == |m| - 1
  {
    assert (m - {k}).Keys == m.Keys - {k};
  }

  // Which row is summed first does not matter.
  lemma {:induction false} TotalWithout<K>(m: map<K, nat>, k: K)
    requires k in m
    ensures Total(m) == m[k] + Total(m - {k})
    decreases |m|
  {
    var first := Pick(m.Keys);
    ShrinkByOne(m, first);
    ShrinkByOne(m, k);
    if first == k {
    } else {
      TotalWithout(m - {first}, k);
      TotalWithout(m - {k}, first);
      assert m - {first} - {k} == m - {k} - {first};
    }
  }

  lemma TotalWith<K>(m: map<K, nat>, k: K, v: nat)
    ensures Total(m[k := v]) == v + Total(m - {k})
    ensures k !in m ==> Total(m[k := v]) == v + Total(m)
    ensures k in m ==> Total(m[k := v]) == Total(m) - m[k] + v
  {
    var m' := m[k := v];
    TotalWithout(m', k);
    assert m' - {k} == m - {k};
    if k in m {
      TotalWithout(m, k);
    } else {
      assert m - {k} == m;
    }
  }
}
