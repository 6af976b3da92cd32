// Dropping the n stalest rows of a table: collect the keys with their times, sort
// by time, remove the first n. Equal times are ordered by the hash map's whim.
module Eviction {
  import opened Sorting

  // A possible outcome: n keys, none of them fresher than a key that stays.
  ghost predicate IsOldestChoice<K(!new), V>(m: map<K, V>, time: V -> real, n: nat, gone: set<K>) {
    && gone <= m.Keys
    && |gone| == n
    && forall a, b | a in gone && b in m.Keys - gone :: time(m[a]) <= time(m[b])
  }

  predicate IsStalest<K(!new, ==), V>(m: map<K, V>, time: V -> real, k: K)
    requires k in m
  {
    forall j | j in m :: time(m[k]) <= time(m[j])
  }

  lemma {:induction false} StalestExists<K(!new), V>(m: map<K, V>, time: V -> real)
    requires |m| > 0
    ensures exists k :: k in m && IsStalest(m, time, k)
    decreases |m|
  {
    var k := Pick(m.Keys);
    var rest := m - {k};
    assert rest.Keys == m.Keys - {k};
    assert forall j | j in m :: j == k || j in rest;
    if |rest| == 0 {
      assert IsStalest(m, time, k);
    } else {
      StalestExists(rest, time);
      var j :| j in rest && IsStalest(rest, time, j);
      assert IsStalest(m, time, if time(m[k]) < time(m[j]) then k else j);
    }
  }

  ghost function Stalest<K(!new), V>(m: map<K, V>, time: V -> real): (k: K)
    requires |m| > 0
    ensures k in m && IsStalest(m, time, k)
  {
    StalestExists(m, time);
    var k :| k in m && IsStalest(m, time, k);
    k
  }

  lemma ChoiceGrows<K(!new), V>(m: map<K, V>, time: V -> real, n: nat, gone: set<K>, k: K)
    requires IsOldestChoice(m, time, n, gone)
    requires k in m - gone && IsStalest(m - gone, time, k)
    ensures IsOldestChoice(m, time, n + 1, gone + {k})
    ensures m - (gone + {k}) == m - gone - {k}
  {
    assert (m - gone).Keys == m.Keys - gone;
    forall a, b | a in gone + {k} && b in m.Keys - (gone + {k}) ensures time(m[a]) <= time(m[b]) {
      assert b in m.Keys - gone && b in m - gone;
    }
  }

  lemma {:induction false} ChoiceExists<K(!new), V>(m: map<K, V>, time: V -> real, n: nat)
    requires n <= |m|
    ensures exists gone :: IsOldestChoice(m, time, n, gone)
  {
    if n == 0 {
      assert IsOldestChoice(m, time, 0, {});
    } else {
      ChoiceExists(m, time, n - 1);
      var gone :| IsOldestChoice(m, time, n - 1, gone);
      assert (m - gone).Keys == m.Keys - gone;
      assert |m.Keys - gone| == |m.Keys| - |gone|;
      StalestExists(m - gone, time);
      var k :| k in m - gone && IsStalest(m - gone, time, k);
      ChoiceGrows(m, time, n - 1, gone, k);
    }
  }

  method DropOldest<K(!new, ==), V>(m: map<K, V>, time: V -> real, n: nat) returns (kept: map<K, V>, ghost gone: set<K>)
    requires n <= |m|
    ensures IsOldestChoice(m, time, n, gone) && kept == m - gone
    ensures kept.Keys <= m.Keys && |kept| == |m| - n
    ensures forall k | k in kept :: kept[k] == m[k]
    ensures forall a, b | a in m && a !in kept && b in kept :: time(m[a]) <= time(m[b])
  {
    kept, gone := m, {};
    var dropped := 0;
    while dropped < n
      invariant dropped <= n && kept == m - gone && IsOldestChoice(m, time, dropped, gone)
    {
      assert kept.Keys == m.Keys - gone;
      assert |kept.Keys| == |m.Keys| - |gone|;
      StalestExists(kept, time);
      var k :| k in kept && IsStalest(kept, time, k);
      ChoiceGrows(m, time, dropped, gone, k);
      kept := kept - {k};
      gone := gone + {k};
      dropped := dropped + 1;
    }
    assert kept.Keys == m.Keys - gone;
    assert |kept.Keys| == |m.Keys| - |gone|;
  }
}
