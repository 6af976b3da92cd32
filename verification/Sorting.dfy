// Stand-ins for the library calls the server leans on: a comparison sort, and
// the "largest k" / "smallest k" of a finite set that an SQL ORDER BY ... LIMIT k
// over a unique column returns. A finite set also has a largest and a smallest
// member, and a count of its members.
module Sorting {

  ghost predicate TotalPreorder<T(!new)>(le: (T, T) -> bool) {
    && (forall a, b :: le(a, b) || le(b, a))
    && (forall a, b, c :: le(a, b) && le(b, c) ==> le(a, c))
  }

  ghost predicate Antisymmetric<T(!new)>(le: (T, T) -> bool) {
    forall a, b :: le(a, b) && le(b, a) ==> a == b
  }

  ghost predicate SortedBy<T>(xs: seq<T>, le: (T, T) -> bool) {
    forall i, j | 0 <= i < j < |xs| :: le(xs[i], xs[j])
  }

  ghost predicate Distinct<T>(xs: seq<T>) {
    forall i, j | 0 <= i < j < |xs| :: xs[i] != xs[j]
  }

  function Insert<T>(x: T, xs: seq<T>, le: (T, T) -> bool): seq<T> {
    if xs == [] then [x]
    else if le(x, xs[0]) then [x] + xs
    else [xs[0]] + Insert(x, xs[1..], le)
  }

  function Sort<T>(xs: seq<T>, le: (T, T) -> bool): seq<T> {
    if xs == [] then [] else Insert(xs[0], Sort(xs[1..], le), le)
  }

  lemma PrependKeepsOrder<T>(x: T, xs: seq<T>, le: (T, T) -> bool)
    requires SortedBy(xs, le) && forall y | y in xs :: le(x, y)
    ensures SortedBy([x] + xs, le)
  {
    forall i, j | 0 <= i < j < |[x] + xs| ensures le(([x] + xs)[i], ([x] + xs)[j]) {
      assert ([x] + xs)[j] == xs[j - 1];
      assert i > 0 ==> ([x] + xs)[i] == xs[i - 1];
    }
  }

  lemma {:induction false} InsertKeepsOrder<T(!new)>(x: T, xs: seq<T>, le: (T, T) -> bool)
    requires TotalPreorder(le) && SortedBy(xs, le)
    ensures SortedBy(Insert(x, xs, le), le)
    ensures multiset(Insert(x, xs, le)) == multiset{x} + multiset(xs)
  {
    if xs == [] {
    } else if le(x, xs[0]) {
    } else {
      InsertKeepsOrder(x, xs[1..], le);
      var rest := Insert(x, xs[1..], le);
      assert xs == [xs[0]] + xs[1..];
      forall y | y in rest
        ensures le(xs[0], y)
      {
        assert y in multiset(rest);
        if y != x {
          assert y in xs[1..];
        }
      }
      PrependKeepsOrder(xs[0], rest, le);
    }
  }

  // The sort returns an ordered rearrangement of its input.
  lemma {:induction false} SortIsOrderedPermutation<T(!new)>(xs: seq<T>, le: (T, T) -> bool)
    requires TotalPreorder(le)
    ensures SortedBy(Sort(xs, le), le)
    ensures multiset(Sort(xs, le)) == multiset(xs)
    ensures |Sort(xs, le)| == |xs|
    ensures forall x :: x in Sort(xs, le) <==> x in xs
  {
    if xs == [] {
    } else {
      SortIsOrderedPermutation(xs[1..], le);
      InsertKeepsOrder(xs[0], Sort(xs[1..], le), le);
      assert xs == [xs[0]] + xs[1..];
    }
    assert |multiset(Sort(xs, le))| == |multiset(xs)|;
    forall x ensures x in Sort(xs, le) <==> x in xs {
      assert x in multiset(Sort(xs, le)) <==> x in multiset(xs);
    }
  }

  // Under a strict order, an ordered arrangement is determined by its members.
  lemma {:induction false} OrderedArrangementIsUnique<T(!new)>(a: seq<T>, b: seq<T>, le: (T, T) -> bool)
    requires TotalPreorder(le) && Antisymmetric(le)
    requires SortedBy(a, le) && SortedBy(b, le) && Distinct(a) && Distinct(b)
    requires forall x :: x in a <==> x in b
    ensures a == b
  {
    assert a == [] <==> b == [] by {
      if a != [] { assert a[0] in b; }
      if b != [] { assert b[0] in a; }
    }
    if a == [] {
    } else {
      assert a[0] in b && b[0] in a;
      assert a[0] == b[0];
      forall x ensures x in a[1..] <==> x in b[1..] {
        if x in a[1..] {
          assert x in b && x != a[0];
        }
        if x in b[1..] {
          assert x in a && x != b[0];
        }
      }
      OrderedArrangementIsUnique(a[1..], b[1..], le);
      assert a == [a[0]] + a[1..] && b == [b[0]] + b[1..];
    }
  }

  lemma {:induction false} DistinctMeansOnce<T>(a: seq<T>)
    requires Distinct(a)
    ensures forall x :: multiset(a)[x] <= 1
  {
    if a == [] {
    } else {
      var init, last := a[..|a| - 1], a[|a| - 1];
      DistinctMeansOnce(init);
      assert a == init + [last];
      assert last !in init;
    }
  }

  lemma OnceMeansDistinct<T>(b: seq<T>)
    requires forall x :: multiset(b)[x] <= 1
    ensures Distinct(b)
  {
    forall i, j | 0 <= i < j < |b|
      ensures b[i] != b[j]
    {
      assert b == b[..i] + [b[i]] + b[i + 1..j] + [b[j]] + b[j + 1..];
      assert multiset(b)[b[i]] >= if b[i] == b[j] then 2 else 1;
    }
  }

  function Members<T(==)>(xs: seq<T>): set<T> {
    set x | x in xs
  }

  lemma {:induction false} DistinctCount<T>(xs: seq<T>)
    requires Distinct(xs)
    ensures |Members(xs)| == |xs|
  {
    if xs == [] {
      assert Members(xs) == {};
    } else {
      var init := xs[..|xs| - 1];
      DistinctCount(init);
      assert xs == init + [xs[|xs| - 1]];
      assert Members(xs) == Members(init) + {xs[|xs| - 1]};
    }
  }

  // --- extremes of a finite integer set ---------------------------------------

  predicate IsLargest(s: set<int>, m: int) {
    m in s && forall y | y in s :: y <= m
  }

  predicate IsSmallest(s: set<int>, m: int) {
    m in s && forall y | y in s :: m <= y
  }

  ghost function Pick<T>(s: set<T>): (x: T)
    requires s != {}
    ensures x in s
  {
    var x :| x in s;
    x
  }

  lemma {:induction false} ExtremesExist(s: set<int>)
    requires s != {}
    ensures exists m :: IsLargest(s, m)
    ensures exists m :: IsSmallest(s, m)
  {
    var x := Pick(s);
    var rest := s - {x};
    assert forall y | y in s :: y == x || y in rest;
    if rest == {} {
      assert IsLargest(s, x) && IsSmallest(s, x);
    } else {
      ExtremesExist(rest);
      var hi :| IsLargest(rest, hi);
      var lo :| IsSmallest(rest, lo);
      assert IsLargest(s, if hi < x then x else hi);
      assert IsSmallest(s, if x < lo then x else lo);
    }
  }

  function Largest(s: set<int>): (m: int)
    requires s != {}
    ensures IsLargest(s, m)
  {
    ExtremesExist(s);
    assert forall a, b | IsLargest(s, a) && IsLargest(s, b) :: a == b;
    var m :| m in s && IsLargest(s, m);
    m
  }

  function Smallest(s: set<int>): (m: int)
    requires s != {}
    ensures IsSmallest(s, m)
  {
    ExtremesExist(s);
    assert forall a, b | IsSmallest(s, a) && IsSmallest(s, b) :: a == b;
    var m :| m in s && IsSmallest(s, m);
    m
  }

  lemma {:induction false} SubsetSize<T>(a: set<T>, b: set<T>)
    requires a <= b
    ensures |a| <= |b|
  {
    if a == {} {
    } else {
      var x := Pick(a);
      SubsetSize(a - {x}, b - {x});
    }
  }

  // A set of integers inside lo..hi has at most hi - lo + 1 members.
  lemma {:induction false} SpanSize(s: set<int>, lo: int, hi: int)
    requires lo <= hi && forall x | x in s :: lo <= x <= hi
    ensures |s| <= hi - lo + 1
    decreases |s|
  {
    if s == {} {
    } else {
      var top := Largest(s);
      var rest := s - {top};
      if rest != {} {
        var next := Largest(rest);
        assert lo <= next <= top - 1;
        SpanSize(rest, lo, top - 1);
      }
      assert |s| == |rest| + 1;
    }
  }

  // The largest k members, greatest first: ORDER BY x DESC LIMIT k.
  function Newest(s: set<int>, k: nat): seq<int> {
    if k == 0 || s == {} then []
    else var m := Largest(s); [m] + Newest(s - {m}, k - 1)
  }

  // The smallest k members, least first: ORDER BY x ASC LIMIT k.
  function Oldest(s: set<int>, k: nat): seq<int> {
    if k == 0 || s == {} then []
    else var m := Smallest(s); [m] + Oldest(s - {m}, k - 1)
  }

  lemma {:induction false} NewestMembers(s: set<int>, k: nat)
    ensures forall x | x in Newest(s, k) :: x in s
    ensures |Newest(s, k)| <= k
  {
    if k == 0 || s == {} {
    } else {
      NewestMembers(s - {Largest(s)}, k - 1);
    }
  }

  // `top` is the upper end of `s`: k members in decreasing order, everything left out
  // lying below them, and all of `s` when it is shorter than k.
  ghost predicate IsUpperEnd(top: seq<int>, s: set<int>, k: nat) {
    && |top| <= k
    && (forall x | x in top :: x in s)
    && (forall i, j | 0 <= i < j < |top| :: top[i] > top[j])
    && (forall x, y | x in top && y in s && y !in top :: x > y)
    && (|top| < k ==> forall x | x in s :: x in top)
  }

  lemma {:induction false} NewestIsUpperEnd(s: set<int>, k: nat)
    ensures IsUpperEnd(Newest(s, k), s, k)
  {
    if k == 0 || s == {} {
    } else {
      var m := Largest(s);
      var rest := Newest(s - {m}, k - 1);
      NewestIsUpperEnd(s - {m}, k - 1);
      forall j | 0 <= j < |rest| ensures m > rest[j] {
        assert rest[j] in rest;
      }
      forall x, y | x in [m] + rest && y in s && y !in [m] + rest ensures x > y {
        assert y in s - {m} && y !in rest;
      }
    }
  }

  // `batch` is the lower end of `s`: k members in increasing order, everything
  // left out lying above them, and all of `s` when it is shorter than k.
  ghost predicate IsLowerEnd(batch: seq<int>, s: set<int>, k: nat) {
    && |batch| <= k
    && (forall x | x in batch :: x in s)
    && (forall i, j | 0 <= i < j < |batch| :: batch[i] < batch[j])
    && (forall x, y | x in batch && y in s && y !in batch :: x < y)
    && (|batch| < k ==> forall x | x in s :: x in batch)
  }

  lemma {:induction false} OldestIsLowerEnd(s: set<int>, k: nat)
    ensures IsLowerEnd(Oldest(s, k), s, k)
    ensures Oldest(s, k) == [] <==> k == 0 || s == {}
  {
    if k == 0 || s == {} {
    } else {
      var m := Smallest(s);
      var rest := Oldest(s - {m}, k - 1);
      OldestIsLowerEnd(s - {m}, k - 1);
      forall j | 0 <= j < |rest| ensures m < rest[j] {
        assert rest[j] in rest;
      }
      forall x, y | x in [m] + rest && y in s && y !in [m] + rest ensures x < y {
        assert y in s - {m} && y !in rest;
      }
    }
  }
}
