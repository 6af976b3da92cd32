// Tag co-occurrence counting (parser-api/src/db/cooccurrence.rs): the incremental,
// chunked upsert that runs once per saved post, and the from-scratch rebuild.
module Cooccurrence {
  import opened Sorting
  import opened Totals

  // A tag pair in canonical order, and a table of pair counts.
  type Pair = (int, int)
  type Counts = map<Pair, nat>

  function Count(t: Counts, p: Pair): nat {
    if p in t then t[p] else 0
  }

  predicate InPost(p: Pair, tags: set<int>) {
    p.0 < p.1 && p.0 in tags && p.1 in tags
  }

  // Counting one post adds one to each of its pairs and touches no other row.
  ghost predicate AddsPost(t: Counts, t': Counts, tags: set<int>) {
    forall p ::
      && Count(t', p) == Count(t, p) + (if InPost(p, tags) then 1 else 0)
      && (p in t' <==> p in t || InPost(p, tags))
  }

  // Posts of `counted` that carry both tags of `p`.
  function Carrying(posts: map<int, set<int>>, counted: set<int>, p: Pair): set<int> {
    set i | i in counted && i in posts && InPost(p, posts[i])
  }

  // `t` is the exact count over the posts in `counted`: a row for every pair some
  // post carries, holding how many do, and no other row.
  ghost predicate Exact(t: Counts, posts: map<int, set<int>>, counted: set<int>) {
    forall p ::
      && Count(t, p) == |Carrying(posts, counted, p)|
      && (p in t <==> Carrying(posts, counted, p) != {})
  }

  lemma ExactIsUnique(t: Counts, t': Counts, posts: map<int, set<int>>, counted: set<int>)
    requires Exact(t, posts, counted) && Exact(t', posts, counted)
    ensures t == t'
  {
    forall p ensures p in t <==> p in t' {
      assert Count(t, p) == |Carrying(posts, counted, p)|;
      assert Count(t', p) == |Carrying(posts, counted, p)|;
    }
    forall p | p in t ensures t[p] == t'[p] {
      assert Count(t, p) == Count(t', p);
    }
  }

  lemma NothingCounted(posts: map<int, set<int>>)
    ensures Exact(map[], posts, {})
  {
    forall p: Pair ensures Carrying(posts, {}, p) == {} {
    }
  }

  lemma AddingKeepsExact(t: Counts, t': Counts, posts: map<int, set<int>>, counted: set<int>, id: int)
    requires Exact(t, posts, counted) && id in posts && id !in counted
    requires AddsPost(t, t', posts[id])
    ensures Exact(t', posts, counted + {id})
  {
    forall p
      ensures Count(t', p) == |Carrying(posts, counted + {id}, p)|
      ensures p in t' <==> Carrying(posts, counted + {id}, p) != {}
    {
      var before, after := Carrying(posts, counted, p), Carrying(posts, counted + {id}, p);
      assert after == if InPost(p, posts[id]) then before + {id} else before;
    }
  }

  // --- the incremental upsert -----------------------------------------------------

  function Canonical(a: int, b: int): Pair {
    if a < b then (a, b) else (b, a)
  }

  function PairsWith(a: int, rest: seq<int>): seq<Pair> {
    if rest == [] then [] else [Canonical(a, rest[0])] + PairsWith(a, rest[1..])
  }

  function PairsOf(ids: seq<int>): seq<Pair> {
    if ids == [] then [] else PairsWith(ids[0], ids[1..]) + PairsOf(ids[1..])
  }

  // INSERT .. ON CONFLICT DO UPDATE SET cooc_count = cooc_count + 1
  function Bump(t: Counts, p: Pair): Counts {
    t[p := Count(t, p) + 1]
  }

  function BumpAll(t: Counts, pairs: seq<Pair>): Counts {
    if pairs == [] then t else Bump(BumpAll(t, pairs[..|pairs| - 1]), pairs[|pairs| - 1])
  }

  lemma {:induction false} BumpAllCounts(t: Counts, pairs: seq<Pair>, p: Pair)
    ensures Count(BumpAll(t, pairs), p) == Count(t, p) + multiset(pairs)[p]
    ensures p in BumpAll(t, pairs) <==> p in t || p in pairs
  {
    if pairs == [] {
    } else {
      var init, last := pairs[..|pairs| - 1], pairs[|pairs| - 1];
      BumpAllCounts(t, init, p);
      assert pairs == init + [last];
    }
  }

  lemma {:induction false} BumpAllTotal(t: Counts, pairs: seq<Pair>)
    ensures Total(BumpAll(t, pairs)) == Total(t) + |pairs|
  {
    if pairs == [] {
    } else {
      var init, last := pairs[..|pairs| - 1], pairs[|pairs| - 1];
      BumpAllTotal(t, init);
      TotalWith(BumpAll(t, init), last, Count(BumpAll(t, init), last) + 1);
    }
  }

  // Splitting the pairs into statements of any size changes nothing.
  lemma {:induction false} BumpAllSplits(t: Counts, a: seq<Pair>, b: seq<Pair>)
    ensures BumpAll(t, a + b) == BumpAll(BumpAll(t, a), b)
  {
    if b == [] {
      assert a + b == a;
    } else {
      BumpAllSplits(t, a, b[..|b| - 1]);
      assert (a + b)[..|a + b| - 1] == a + b[..|b| - 1];
    }
  }

  ghost predicate PairsOne(p: Pair, a: int, rest: seq<int>) {
    p.0 < p.1 && ((p.0 == a && p.1 in rest) || (p.1 == a && p.0 in rest))
  }

  lemma {:induction false} PairsWithOnce(a: int, rest: seq<int>, p: Pair)
    requires Distinct(rest) && a !in rest
    ensures multiset(PairsWith(a, rest))[p] == if PairsOne(p, a, rest) then 1 else 0
  {
    if rest == [] {
    } else {
      PairsWithOnce(a, rest[1..], p);
      assert rest == [rest[0]] + rest[1..];
      assert rest[0] !in rest[1..];
    }
  }

  lemma HeadPairs(ids: seq<int>, p: Pair)
    requires ids != [] && Distinct(ids)
    ensures ids[0] !in ids[1..] && Distinct(ids[1..])
    ensures InPost(p, Members(ids)) <==> PairsOne(p, ids[0], ids[1..]) || InPost(p, Members(ids[1..]))
    ensures !(PairsOne(p, ids[0], ids[1..]) && InPost(p, Members(ids[1..])))
  {
    assert ids == [ids[0]] + ids[1..];
    assert ids[0] !in ids[1..];
  }

  // Every pair of distinct tags occurs exactly once, whatever the tag order.
  lemma {:induction false} PairsOfOnce(ids: seq<int>, p: Pair)
    requires Distinct(ids)
    ensures multiset(PairsOf(ids))[p] == if InPost(p, Members(ids)) then 1 else 0
  {
    if ids == [] {
    } else {
      HeadPairs(ids, p);
      PairsWithOnce(ids[0], ids[1..], p);
      PairsOfOnce(ids[1..], p);
    }
  }

  lemma {:induction false} PairsWithLength(a: int, rest: seq<int>)
    ensures |PairsWith(a, rest)| == |rest|
  {
    if rest == [] {
    } else {
      PairsWithLength(a, rest[1..]);
    }
  }

  lemma {:induction false} PairsOfLength(ids: seq<int>)
    ensures 2 * |PairsOf(ids)| == |ids| * (|ids| - 1)
  {
    if ids == [] {
    } else {
      PairsWithLength(ids[0], ids[1..]);
      PairsOfLength(ids[1..]);
      var n := |ids|;
      assert n * (n - 1) == (n - 1) * (n - 2) + 2 * (n - 1);
    }
  }

  lemma UpsertAddsPost(t: Counts, ids: seq<int>)
    requires Distinct(ids)
    ensures AddsPost(t, BumpAll(t, PairsOf(ids)), Members(ids))
    ensures 2 * (Total(BumpAll(t, PairsOf(ids))) - Total(t)) == |ids| * (|ids| - 1)
  {
    forall p
      ensures Count(BumpAll(t, PairsOf(ids)), p) == Count(t, p) + (if InPost(p, Members(ids)) then 1 else 0)
      ensures p in BumpAll(t, PairsOf(ids)) <==> p in t || InPost(p, Members(ids))
    {
      BumpAllCounts(t, PairsOf(ids), p);
      PairsOfOnce(ids, p);
      assert p in PairsOf(ids) <==> multiset(PairsOf(ids))[p] > 0;
    }
    BumpAllTotal(t, PairsOf(ids));
    PairsOfLength(ids);
  }

  // --- rebuild, and the two ways agreeing ---------------------------------------------

  function AllPairs(posts: map<int, set<int>>, owned: set<int>): set<Pair> {
    set i, a, b | i in owned && i in posts && a in posts[i] && b in posts[i] && a < b :: (a, b)
  }

  // INSERT .. SELECT .. COUNT(*) .. GROUP BY tp1.tag_id, tp2.tag_id
  function Rebuilt(posts: map<int, set<int>>, owned: set<int>): Counts {
    map p | p in AllPairs(posts, owned) :: |Carrying(posts, owned, p)|
  }

  lemma RebuildIsExact(posts: map<int, set<int>>, owned: set<int>)
    ensures Exact(Rebuilt(posts, owned), posts, owned)
  {
    forall p: Pair
      ensures p in Rebuilt(posts, owned) <==> Carrying(posts, owned, p) != {}
    {
      if p in AllPairs(posts, owned) {
        var i, a, b :| i in owned && i in posts && a in posts[i] && b in posts[i] && a < b && p == (a, b);
        assert i in Carrying(posts, owned, p);
      }
      if Carrying(posts, owned, p) != {} {
        var i := Pick(Carrying(posts, owned, p));
        assert p == (p.0, p.1);
      }
    }
  }

  // One saved post: its id and its tag ids, in the order the writer has them.
  datatype Save = Save(post: int, ids: seq<int>)

  ghost function SaveAll(t: Counts, saves: seq<Save>): Counts {
    if saves == [] then t
    else BumpAll(SaveAll(t, saves[..|saves| - 1]), PairsOf(saves[|saves| - 1].ids))
  }

  ghost function SavedPosts(saves: seq<Save>): set<int> {
    set s | s in saves :: s.post
  }

  // The live caller's promise: each post once, its tag ids sorted and deduplicated.
  ghost predicate OncePerPost(saves: seq<Save>, posts: map<int, set<int>>) {
    && (forall i, j | 0 <= i < j < |saves| :: saves[i].post != saves[j].post)
    && (forall s | s in saves :: s.post in posts && Distinct(s.ids) && Members(s.ids) == posts[s.post])
  }

  lemma {:induction false} SavesAreExact(posts: map<int, set<int>>, saves: seq<Save>)
    requires OncePerPost(saves, posts)
    ensures Exact(SaveAll(map[], saves), posts, SavedPosts(saves))
  {
    if saves == [] {
      NothingCounted(posts);
      assert SavedPosts(saves) == {};
    } else {
      var init, last := saves[..|saves| - 1], saves[|saves| - 1];
      assert saves == init + [last];
      assert last in saves;
      SavesAreExact(posts, init);
      UpsertAddsPost(SaveAll(map[], init), last.ids);
      assert last.post !in SavedPosts(init);
      AddingKeepsExact(SaveAll(map[], init), SaveAll(map[], saves), posts, SavedPosts(init), last.post);
      assert SavedPosts(saves) == SavedPosts(init) + {last.post};
    }
  }

  // Upserting each saved post once, in any post order and any tag order, builds
  // the very table the rebuild computes from scratch.
  lemma IncrementalMatchesRebuild(posts: map<int, set<int>>, saves: seq<Save>)
    requires OncePerPost(saves, posts)
    ensures SaveAll(map[], saves) == Rebuilt(posts, SavedPosts(saves))
  {
    SavesAreExact(posts, saves);
    RebuildIsExact(posts, SavedPosts(saves));
    ExactIsUnique(SaveAll(map[], saves), Rebuilt(posts, SavedPosts(saves)), posts, SavedPosts(saves));
  }

  // "Once per post" is needed: saving a post that has a pair a second time is
  // counted again.
  lemma SavingTwiceDrifts(t: Counts, posts: map<int, set<int>>, saved: set<int>, s: Save)
    requires Exact(t, posts, saved) && s.post in saved && s.post in posts
    requires Distinct(s.ids) && Members(s.ids) == posts[s.post]
    ensures Exact(BumpAll(t, PairsOf(s.ids)), posts, saved) <==> |s.ids| < 2
  {
    UpsertAddsPost(t, s.ids);
    var t' := BumpAll(t, PairsOf(s.ids));
    if |s.ids| >= 2 {
      var p := Canonical(s.ids[0], s.ids[1]);
      assert s.ids[0] in s.ids && s.ids[1] in s.ids && s.ids[0] != s.ids[1];
      assert InPost(p, Members(s.ids));
      assert Count(t', p) == Count(t, p) + 1;
      assert Count(t, p) == |Carrying(posts, saved, p)|;
    } else {
      forall p ensures Count(t', p) == Count(t, p) && (p in t' <==> p in t) {
        assert !InPost(p, Members(s.ids));
      }
    }
  }

  const COOC_PAIRS_PER_STATEMENT: nat := 200
  const COOC_ACCOUNT_PAIRS_PER_STMT: nat := 100

  class CooccurrenceTables {
    var global: Counts
    var accounts: map<int, Counts>

    function AccountRows(account: int): Counts
      reads this
    {
      if account in accounts then accounts[account] else map[]
    }

    constructor ()
      ensures global == map[] && accounts == map[]
    {
      global, accounts := map[], map[];
    }

    static method CollectPairs(ids: seq<int>) returns (pairs: seq<Pair>)
      ensures pairs == PairsOf(ids)
    {
      pairs := [];
      for i := 0 to |ids|
        invariant pairs + PairsOf(ids[i..]) == PairsOf(ids)
      {
        ghost var done := pairs;
        assert ids[i..][1..] == ids[i + 1..];
        for j := i + 1 to |ids|
          invariant pairs + PairsWith(ids[i], ids[j..]) == done + PairsWith(ids[i], ids[i + 1..])
        {
          assert ids[j..][1..] == ids[j + 1..];
          if ids[i] < ids[j] {
            pairs := pairs + [(ids[i], ids[j])];
          } else {
            pairs := pairs + [(ids[j], ids[i])];
          }
        }
        assert PairsWith(ids[i], ids[|ids|..]) == [];
        assert pairs == done + PairsWith(ids[i], ids[i + 1..]);
      }
      assert PairsOf(ids[|ids|..]) == [];
    }

    // One multi-row upsert statement per chunk.
    static method UpsertInChunks(t: Counts, pairs: seq<Pair>, chunk: nat) returns (t': Counts)
      requires chunk > 0
      ensures t' == BumpAll(t, pairs)
    {
      t' := t;
      var at := 0;
      while at < |pairs|
        invariant at <= |pairs| && t' == BumpAll(t, pairs[..at])
      {
        var end := if at + chunk < |pairs| then at + chunk else |pairs|;
        BumpAllSplits(t, pairs[..at], pairs[at..end]);
        assert pairs[..end] == pairs[..at] + pairs[at..end];
        t' := BumpAll(t', pairs[at..end]);
        at := end;
      }
      assert pairs[..|pairs|] == pairs;
    }

    method UpsertAccountCooccurrencePairs(account: int, tagIds: seq<int>)
      requires Distinct(tagIds)
      modifies this`accounts
      ensures AddsPost(old(AccountRows(account)), AccountRows(account), Members(tagIds))
      ensures 2 * (Total(AccountRows(account)) - Total(old(AccountRows(account)))) == |tagIds| * (|tagIds| - 1)
      ensures forall other | other != account :: AccountRows(other) == old(AccountRows(other))
    {
      UpsertAddsPost(AccountRows(account), tagIds);
      if |tagIds| < 2 {
        assert PairsOf(tagIds) == [];
        return;
      }
      var pairs := CollectPairs(tagIds);
      var rows := UpsertInChunks(AccountRows(account), pairs, COOC_ACCOUNT_PAIRS_PER_STMT);
      accounts := accounts[account := rows];
    }

    method UpsertCooccurrencePairs(tagIds: seq<int>)
      requires Distinct(tagIds)
      modifies this`global
      ensures AddsPost(old(global), global, Members(tagIds))
      ensures 2 * (Total(global) - Total(old(global))) == |tagIds| * (|tagIds| - 1)
    {
      UpsertAddsPost(global, tagIds);
      if |tagIds| < 2 {
        assert PairsOf(tagIds) == [];
        return;
      }
      var pairs := CollectPairs(tagIds);
      global := UpsertInChunks(global, pairs, COOC_PAIRS_PER_STATEMENT);
    }

    // Wipe the account's rows, then count its posts again; `owned` is the
    // account's side of the join with accounts_post.
    method SetAccountTagCooccurrence(account: int, posts: map<int, set<int>>, owned: set<int>)
      modifies this`accounts
      ensures Exact(AccountRows(account), posts, owned)
      ensures AccountRows(account) == Rebuilt(posts, owned)
      ensures forall other | other != account :: AccountRows(other) == old(AccountRows(other))
    {
      accounts := accounts - {account};
      accounts := accounts[account := Rebuilt(posts, owned)];
      RebuildIsExact(posts, owned);
    }
  }
}
