// The two tag-driven streams of the local candidate pool (parser-api/src/db/feed.rs):
// the newest posts carrying any of a tag list, and the backlog of old favourites.
module CandidateStreams {
  import opened Sorting

  datatype PostRow = PostRow(isDeleted: bool, hasPreview: bool, favCount: int, createdAt: int)

  // `tags`, `tags_posts` and `posts` as the queries see them.
  datatype Catalog = Catalog(tagIds: map<string, int>, postings: map<int, set<int>>, posts: map<int, PostRow>) {
    // Posts the per-tag query may return: an unknown name resolves to no id and
    // so to no rows.
    function Eligible(tag: string): set<int> {
      if tag in tagIds && tagIds[tag] in postings
      then set p | p in postings[tagIds[tag]] && p in posts && !posts[p].isDeleted && posts[p].hasPreview
      else {}
    }

    function EligibleOlderThan(tag: string, cutoff: int): set<int> {
      set p | p in Eligible(tag) && p in posts && posts[p].createdAt < cutoff
    }

    function EligibleForAny(tags: seq<string>): set<int> {
      set i, p | 0 <= i < |tags| && p in Eligible(tags[i]) :: p
    }

    function OlderForAny(tags: seq<string>, cutoff: int): set<int> {
      set i, p | 0 <= i < |tags| && p in EligibleOlderThan(tags[i], cutoff) :: p
    }
  }

  ghost predicate Carries(db: Catalog, tag: string, p: int) {
    tag in db.tagIds && db.tagIds[tag] in db.postings && p in db.postings[db.tagIds[tag]]
  }

  // A known post, not deleted and with a preview, that carries one of the tags.
  ghost predicate Servable(db: Catalog, tags: seq<string>, p: int) {
    && p in db.posts && !db.posts[p].isDeleted && db.posts[p].hasPreview
    && exists i :: 0 <= i < |tags| && Carries(db, tags[i], p)
  }

  lemma EligibleIsServable(db: Catalog, tags: seq<string>, cutoff: int, p: int)
    ensures p in db.EligibleForAny(tags) <==> Servable(db, tags, p)
    ensures p in db.OlderForAny(tags, cutoff) <==> Servable(db, tags, p) && db.posts[p].createdAt < cutoff
  {
    forall i | 0 <= i < |tags|
      ensures p in db.Eligible(tags[i]) <==>
              Carries(db, tags[i], p) && p in db.posts && !db.posts[p].isDeleted && db.posts[p].hasPreview
    {
    }
    if Servable(db, tags, p) && db.posts[p].createdAt < cutoff {
      var i :| 0 <= i < |tags| && Carries(db, tags[i], p);
      assert p in db.EligibleOlderThan(tags[i], cutoff);
    }
    if p in db.OlderForAny(tags, cutoff) {
      var i, q :| 0 <= i < |tags| && q in db.EligibleOlderThan(tags[i], cutoff) && p == q;
      assert p in db.Eligible(tags[i]);
    }
  }

  // --- newest posts over several tags ------------------------------------------

  // A larger limit only appends.
  lemma {:induction false} NewestGrows(s: set<int>, k: nat)
    requires k > 0
    ensures forall x | x in Newest(s, k - 1) :: x in Newest(s, k)
  {
    if k == 1 || s == {} {
    } else {
      NewestGrows(s - {Largest(s)}, k - 1);
    }
  }

  // What survives the global cut survives the cut of every subset holding it.
  lemma {:induction false} GlobalCutImpliesLocalCut(all: set<int>, part: set<int>, k: nat, x: int)
    requires part <= all && x in part && x in Newest(all, k)
    ensures x in Newest(part, k)
  {
    var top := Largest(all);
    NewestMembers(all - {top}, k - 1);
    if x == top {
      assert Largest(part) == x;
    } else {
      GlobalCutImpliesLocalCut(all - {top}, part - {top}, k - 1, x);
      if top in part {
        assert Largest(part) == top;
      } else {
        assert part - {top} == part;
        NewestGrows(part, k);
      }
    }
  }

  // Only the members that survive the cut matter to the cut.
  lemma {:induction false} CutDependsOnSurvivors(all: set<int>, part: set<int>, k: nat)
    requires part <= all
    requires forall x | x in Newest(all, k) :: x in part
    ensures Newest(part, k) == Newest(all, k)
  {
    if k == 0 || all == {} {
    } else {
      var top := Largest(all);
      assert top in Newest(all, k);
      assert IsLargest(part, top) && Largest(part) == top;
      NewestMembers(all - {top}, k - 1);
      forall x | x in Newest(all - {top}, k - 1) ensures x in part - {top} {
        assert x in Newest(all, k);
      }
      CutDependsOnSurvivors(all - {top}, part - {top}, k - 1);
    }
  }

  predicate Descending(a: int, b: int) { a >= b }

  // Vec::dedup: drop an element equal to the one before it.
  function Dedup(xs: seq<int>): seq<int> {
    if |xs| < 2 then xs
    else if xs[|xs| - 1] == xs[|xs| - 2] then Dedup(xs[..|xs| - 1])
    else Dedup(xs[..|xs| - 1]) + [xs[|xs| - 1]]
  }

  lemma {:induction false} DedupOfDescending(xs: seq<int>)
    requires SortedBy(xs, Descending)
    ensures forall x :: x in Dedup(xs) <==> x in xs
    ensures StrictlyDescending(Dedup(xs))
  {
    if |xs| < 2 {
    } else {
      var init, last := xs[..|xs| - 1], xs[|xs| - 1];
      DedupOfDescending(init);
      assert xs == init + [last];
      assert init[|init| - 1] in Dedup(init);
      if last != xs[|xs| - 2] {
        forall i | 0 <= i < |Dedup(init)| ensures Dedup(init)[i] > last {
          assert Dedup(init)[i] in init;
        }
      }
    }
  }

  ghost predicate StrictlyDescending(xs: seq<int>) {
    forall i, j | 0 <= i < j < |xs| :: xs[i] > xs[j]
  }

  function Truncate(xs: seq<int>, k: nat): seq<int> {
    if |xs| <= k then xs else xs[..k]
  }

  lemma HeadIsLargest(xs: seq<int>)
    requires StrictlyDescending(xs) && xs != []
    ensures Members(xs) != {} && Largest(Members(xs)) == xs[0]
    ensures Members(xs) - {xs[0]} == Members(xs[1..])
  {
    assert xs == [xs[0]] + xs[1..];
    assert IsLargest(Members(xs), xs[0]);
    assert xs[0] !in xs[1..];
  }

  // A strictly descending arrangement, truncated, is the newest-k of its members.
  lemma {:induction false} TruncatedDescendingIsNewest(xs: seq<int>, k: nat)
    requires StrictlyDescending(xs)
    ensures Truncate(xs, k) == Newest(Members(xs), k)
  {
    if xs == [] {
      assert Members(xs) == {};
    } else if k > 0 {
      var head, rest := xs[0], xs[1..];
      HeadIsLargest(xs);
      TailDescends(xs);
      TruncatedDescendingIsNewest(rest, k - 1);
      NewestUnfolds(Members(xs), k, head);
      TruncateKeepsHead(xs, k);
    } else {
      assert Truncate(xs, 0) == [];
    }
  }

  lemma TruncateKeepsHead(xs: seq<int>, k: nat)
    requires xs != [] && k > 0
    ensures Truncate(xs, k) == [xs[0]] + Truncate(xs[1..], k - 1)
  {
  }

  lemma TailDescends(xs: seq<int>)
    requires StrictlyDescending(xs) && xs != []
    ensures StrictlyDescending(xs[1..])
  {
  }

  lemma NewestUnfolds(s: set<int>, k: nat, top: int)
    requires k > 0 && s != {} && Largest(s) == top
    ensures Newest(s, k) == [top] + Newest(s - {top}, k - 1)
  {
  }

  // Every per-tag answer, one bounded query a tag, for the first `n` tags in query order.
  function Fetched(db: Catalog, tags: seq<string>, n: nat, limit: nat): seq<int>
    requires n <= |tags|
  {
    if n == 0 then [] else Fetched(db, tags, n - 1, limit) + Newest(db.Eligible(tags[n - 1]), limit)
  }

  lemma {:induction false} FetchedIsEligible(db: Catalog, tags: seq<string>, n: nat, limit: nat, x: int)
    requires n <= |tags| && x in Fetched(db, tags, n, limit)
    ensures x in db.EligibleForAny(tags)
  {
    if x in Newest(db.Eligible(tags[n - 1]), limit) {
      NewestMembers(db.Eligible(tags[n - 1]), limit);
    } else {
      FetchedIsEligible(db, tags, n - 1, limit, x);
    }
  }

  lemma {:induction false} FetchedHasAnswer(db: Catalog, tags: seq<string>, n: nat, limit: nat, t: nat, x: int)
    requires t < n <= |tags| && x in Newest(db.Eligible(tags[t]), limit)
    ensures x in Fetched(db, tags, n, limit)
  {
    if t == n - 1 {
    } else {
      FetchedHasAnswer(db, tags, n - 1, limit, t, x);
    }
  }

  lemma SurvivorsAreFetched(db: Catalog, tags: seq<string>, limit: nat, x: int)
    requires x in Newest(db.EligibleForAny(tags), limit)
    ensures x in Fetched(db, tags, |tags|, limit)
  {
    var all := db.EligibleForAny(tags);
    NewestMembers(all, limit);
    var t, p :| 0 <= t < |tags| && p in db.Eligible(tags[t]) && p == x;
    assert db.Eligible(tags[t]) <= all by {
      forall y | y in db.Eligible(tags[t]) ensures y in all {}
    }
    GlobalCutImpliesLocalCut(all, db.Eligible(tags[t]), limit, x);
    FetchedHasAnswer(db, tags, |tags|, limit, t, x);
  }

  // The cut of what was fetched is the cut of everything eligible.
  lemma FetchingPerTagLosesNothing(db: Catalog, tags: seq<string>, limit: nat)
    ensures Newest(Members(Fetched(db, tags, |tags|, limit)), limit) == Newest(db.EligibleForAny(tags), limit)
  {
    var fetched := Fetched(db, tags, |tags|, limit);
    forall x | x in Members(fetched) ensures x in db.EligibleForAny(tags) {
      FetchedIsEligible(db, tags, |tags|, limit, x);
    }
    forall x | x in Newest(db.EligibleForAny(tags), limit) ensures x in Members(fetched) {
      SurvivorsAreFetched(db, tags, limit, x);
    }
    CutDependsOnSurvivors(db.EligibleForAny(tags), Members(fetched), limit);
  }

  // Per-tag top-k, merged, sorted, deduplicated and truncated, is the top-k of
  // the union: fetching only `limit` rows per tag loses nothing.
  method LocalCandidatesForTagNames(db: Catalog, tags: seq<string>, limit: nat) returns (merged: seq<int>)
    ensures merged == Newest(db.EligibleForAny(tags), limit)
    ensures |merged| <= limit && StrictlyDescending(merged) && forall p | p in merged :: Servable(db, tags, p)
    ensures forall p | Servable(db, tags, p) && p !in merged :: |merged| == limit && forall q | q in merged :: q > p
  {
    NewestIsUpperEnd(db.EligibleForAny(tags), limit);
    forall p ensures p in db.EligibleForAny(tags) <==> Servable(db, tags, p) {
      EligibleIsServable(db, tags, 0, p);
    }
    merged := [];
    for i := 0 to |tags|
      invariant merged == Fetched(db, tags, i, limit)
    {
      merged := merged + Newest(db.Eligible(tags[i]), limit);
    }
    RankingIsNewest(merged, limit);
    FetchingPerTagLosesNothing(db, tags, limit);
    merged := Sort(merged, Descending);
    merged := Dedup(merged);
    merged := Truncate(merged, limit);
  }

  // Sorting, deduplicating and truncating any list takes the newest of its members.
  lemma RankingIsNewest(xs: seq<int>, k: nat)
    ensures Truncate(Dedup(Sort(xs, Descending)), k) == Newest(Members(xs), k)
  {
    var sorted := Sort(xs, Descending);
    assert TotalPreorder(Descending);
    SortIsOrderedPermutation(xs, Descending);
    DedupOfDescending(sorted);
    assert Members(Dedup(sorted)) == Members(xs);
    TruncatedDescendingIsNewest(Dedup(sorted), k);
  }

  // --- backlog: ranked by favourites, engine-chosen ties ------------------------

  datatype Hit = Hit(fav: int, id: int)

  // What ORDER BY fav_count DESC LIMIT k promises when favourites tie: some k
  // eligible rows, best first, none of the omitted ones strictly better.
  ghost predicate TopByFavourites(rows: seq<Hit>, eligible: set<int>, posts: map<int, PostRow>, k: nat) {
    && |rows| <= k
    && (forall i | 0 <= i < |rows| ::
          rows[i].id in eligible && rows[i].id in posts && posts[rows[i].id].favCount == rows[i].fav)
    && (forall i, j | 0 <= i < j < |rows| :: rows[i].id != rows[j].id && rows[i].fav >= rows[j].fav)
    && (forall p | p in eligible && (forall i | 0 <= i < |rows| :: rows[i].id != p) ::
          |rows| == k && p in posts && forall i | 0 <= i < |rows| :: posts[p].favCount <= rows[i].fav)
  }

  predicate BetterHit(a: Hit, b: Hit) {
    a.fav > b.fav || (a.fav == b.fav && a.id >= b.id)
  }

  // `out` ranks `eligible` by favourites: nothing omitted beats anything kept,
  // and nothing is omitted while there is room.
  ghost predicate RanksByFavourites(out: seq<int>, eligible: set<int>, posts: map<int, PostRow>, limit: nat) {
    && Distinct(out)
    && |out| <= limit
    && (forall q | q in out :: q in eligible && q in posts)
    && (forall i, j | 0 <= i < j < |out| ::
          BetterHit(Hit(posts[out[i]].favCount, out[i]), Hit(posts[out[j]].favCount, out[j])))
    && (forall p, q | p in eligible && p !in out && q in out :: p in posts && posts[p].favCount <= posts[q].favCount)
    && (|out| < limit ==> forall p | p in eligible :: p in out)
  }

  function Ids(rows: seq<Hit>): (ids: seq<int>)
    ensures |ids| == |rows| && forall i | 0 <= i < |ids| :: ids[i] == rows[i].id
  {
    seq(|rows|, i requires 0 <= i < |rows| => rows[i].id)
  }

  // A query that omitted an eligible post returned `limit` rows; if they are all
  // among `kept`, then `kept` holds at least `limit` posts.
  lemma OmissionFillsTheLimit(
      rows: seq<Hit>, eligible: set<int>, posts: map<int, PostRow>, limit: nat, kept: set<int>, p: int)
    requires TopByFavourites(rows, eligible, posts, limit) && p in eligible && p !in Ids(rows)
    requires forall i | 0 <= i < |rows| :: rows[i].id in kept
    ensures limit <= |kept|
  {
    var ids := Ids(rows);
    forall i | 0 <= i < |rows| ensures rows[i].id != p {
      assert ids[i] in ids;
    }
    DistinctCount(ids);
    SubsetSize(Members(ids), kept);
  }

  // An eligible post the per-tag query left out cannot beat a kept one: its
  // tag's `limit` better rows would already have filled the output.
  lemma OmittedByQueryIsNoBetter(
      rows: seq<Hit>, eligible: set<int>, posts: map<int, PostRow>, limit: nat, out: seq<int>, p: int, q: int)
    requires TopByFavourites(rows, eligible, posts, limit) && p in eligible && p !in Ids(rows)
    requires Distinct(out) && |out| <= limit && q in out && q in posts
    requires forall i | 0 <= i < |rows| ::
               (rows[i].id in out && rows[i].id != q) || rows[i].fav <= posts[q].favCount
    ensures p in posts && posts[p].favCount <= posts[q].favCount
  {
    var ids := Ids(rows);
    forall i | 0 <= i < |rows| ensures rows[i].id != p {
      assert ids[i] in ids;
    }
    DistinctCount(out);
    if forall i | 0 <= i < |rows| :: rows[i].fav > posts[q].favCount {
      OmissionFillsTheLimit(rows, eligible, posts, limit, Members(out) - {q}, p);
    }
  }

  function Joined(answers: seq<seq<Hit>>): seq<Hit> {
    if answers == [] then [] else Joined(answers[..|answers| - 1]) + answers[|answers| - 1]
  }

  lemma {:induction false} JoinedMembers(answers: seq<seq<Hit>>)
    ensures forall h :: h in Joined(answers) <==> exists u :: 0 <= u < |answers| && h in answers[u]
  {
    if answers == [] {
    } else {
      var init := answers[..|answers| - 1];
      JoinedMembers(init);
      forall h ensures h in Joined(answers) <==> exists u :: 0 <= u < |answers| && h in answers[u] {
        if u :| 0 <= u < |answers| && h in answers[u] {
          assert u < |init| ==> h in init[u];
        }
        if h in Joined(init) {
          var u :| 0 <= u < |init| && h in init[u];
          assert h in answers[u];
        }
      }
    }
  }

  lemma HitOrderIsTotal()
    ensures TotalPreorder(BetterHit)
  {
  }

  // The first `limit` distinct ids of the ranked rows.
  method DistinctUpTo(merged: seq<Hit>, limit: nat) returns (out: seq<int>, ghost read: nat, ghost at: seq<nat>)
    requires limit > 0
    ensures IsDistinctPrefix(merged, read, at, out, limit)
    ensures Distinct(out) && |out| <= limit && forall x | x in out :: x in Ids(merged)
  {
    out := [];
    var seen: set<int> := {};
    var i := 0;
    at := [];
    while i < |merged|
      invariant IsDistinctRun(merged, i, at, out) && |out| < limit && seen == Members(out)
    {
      var id := merged[i].id;
      if id !in seen {
        RunGrows(merged, i, at, out);
        seen := seen + {id};
        out := out + [id];
        at := at + [i];
        if |out| >= limit {
          i := i + 1;
          break;
        }
      }
      i := i + 1;
    }
    read := i;
    PrefixIdsAreMerged(merged, i, at, out, limit);
  }

  lemma RunGrows(merged: seq<Hit>, i: nat, at: seq<nat>, out: seq<int>)
    requires i < |merged| && IsDistinctRun(merged, i, at, out) && merged[i].id !in out
    ensures IsDistinctRun(merged, i + 1, at + [i], out + [merged[i].id])
    ensures Members(out + [merged[i].id]) == Members(out) + {merged[i].id}
  {
  }

  lemma PrefixIdsAreMerged(merged: seq<Hit>, i: nat, at: seq<nat>, out: seq<int>, limit: nat)
    requires IsDistinctPrefix(merged, i, at, out, limit)
    ensures forall x | x in out :: x in Ids(merged)
  {
    forall x | x in out ensures x in Ids(merged) {
      var j :| 0 <= j < |out| && out[j] == x;
      assert Ids(merged)[at[j]] == x;
    }
  }

  // `answers[t]` is the engine's answer to the query for `tags[t]`.
  method LocalCandidatesBacklog(
      db: Catalog, tags: seq<string>, cutoff: int, limit: int, answers: seq<seq<Hit>>) returns (out: seq<int>)
    requires limit > 0 ==> |answers| == |tags|
    requires limit > 0 ==> forall t | 0 <= t < |tags| ::
               TopByFavourites(answers[t], db.EligibleOlderThan(tags[t], cutoff), db.posts, limit)
    ensures limit <= 0 ==> out == []
    ensures limit > 0 ==> RanksByFavourites(out, db.OlderForAny(tags, cutoff), db.posts, limit)
    ensures forall p | p in out :: Servable(db, tags, p) && db.posts[p].createdAt < cutoff
    ensures limit > 0 ==>
              forall p | Servable(db, tags, p) && db.posts[p].createdAt < cutoff && p !in out ::
                |out| == limit && forall q | q in out :: q in db.posts && db.posts[p].favCount <= db.posts[q].favCount
  {
    forall p
      ensures p in db.OlderForAny(tags, cutoff) <==> Servable(db, tags, p) && db.posts[p].createdAt < cutoff
    {
      EligibleIsServable(db, tags, cutoff, p);
    }
    if limit <= 0 || tags == [] {
      return [];
    }
    var merged: seq<Hit> := [];
    for t := 0 to |tags|
      invariant merged == Joined(answers[..t])
    {
      merged := merged + answers[t];
      assert answers[..t + 1] == answers[..t] + [answers[t]];
    }
    assert answers[..|tags|] == answers;
    ghost var fetched := merged;
    JoinedMembers(answers);
    HitOrderIsTotal();
    SortIsOrderedPermutation(merged, BetterHit);
    merged := Sort(merged, BetterHit);
    ghost var i, at;
    out, i, at := DistinctUpTo(merged, limit);
    assert forall h :: h in merged <==> h in fetched;
    FetchedHitsAreEligible(db, tags, cutoff, limit, answers, merged);
    CutIsRanked(db, tags, cutoff, limit, answers, merged, i, at, out);
  }

  lemma FetchedHitsAreEligible(
      db: Catalog, tags: seq<string>, cutoff: int, limit: nat, answers: seq<seq<Hit>>, merged: seq<Hit>)
    requires |answers| == |tags|
    requires forall t | 0 <= t < |tags| ::
               TopByFavourites(answers[t], db.EligibleOlderThan(tags[t], cutoff), db.posts, limit)
    requires forall h :: h in merged <==> exists u :: 0 <= u < |tags| && h in answers[u]
    ensures forall h | h in merged ::
              h.id in db.posts && db.posts[h.id].favCount == h.fav && h.id in db.OlderForAny(tags, cutoff)
  {
    forall h | h in merged
      ensures h.id in db.posts && db.posts[h.id].favCount == h.fav && h.id in db.OlderForAny(tags, cutoff)
    {
      var u :| 0 <= u < |tags| && h in answers[u];
      var k :| 0 <= k < |answers[u]| && answers[u][k] == h;
    }
  }

  // `out` is the distinct ids of the best `i` merged rows, in order.
  ghost predicate IsDistinctRun(merged: seq<Hit>, i: nat, at: seq<nat>, out: seq<int>) {
    && i <= |merged| && |at| == |out| && Distinct(out)
    && (forall j | 0 <= j < |out| :: at[j] < i && merged[at[j]].id == out[j])
    && (forall j, k | 0 <= j < k < |out| :: at[j] < at[k])
    && (forall j | 0 <= j < i :: merged[j].id in out)
  }

  // Such a run, stopped at `limit`.
  ghost predicate IsDistinctPrefix(merged: seq<Hit>, i: nat, at: seq<nat>, out: seq<int>, limit: nat) {
    IsDistinctRun(merged, i, at, out) && |out| <= limit && (|out| < limit ==> i == |merged|)
  }

  lemma CutIsRanked(
      db: Catalog, tags: seq<string>, cutoff: int, limit: nat, answers: seq<seq<Hit>>,
      merged: seq<Hit>, i: nat, at: seq<nat>, out: seq<int>)
    requires |answers| == |tags|
    requires forall t | 0 <= t < |tags| ::
               TopByFavourites(answers[t], db.EligibleOlderThan(tags[t], cutoff), db.posts, limit)
    requires SortedBy(merged, BetterHit)
    requires forall h :: h in merged <==> exists u :: 0 <= u < |tags| && h in answers[u]
    requires forall h | h in merged ::
               h.id in db.posts && db.posts[h.id].favCount == h.fav && h.id in db.OlderForAny(tags, cutoff)
    requires IsDistinctPrefix(merged, i, at, out, limit)
    ensures RanksByFavourites(out, db.OlderForAny(tags, cutoff), db.posts, limit)
  {
    var posts := db.posts;
    forall q | q in out ensures q in posts && q in db.OlderForAny(tags, cutoff) {
      var j :| 0 <= j < |out| && out[j] == q;
      assert merged[at[j]] in merged;
    }
    forall j, k | 0 <= j < k < |out|
      ensures BetterHit(Hit(posts[out[j]].favCount, out[j]), Hit(posts[out[k]].favCount, out[k]))
    {
      assert merged[at[j]] in merged && merged[at[k]] in merged;
      assert BetterHit(merged[at[j]], merged[at[k]]);
    }
    forall p, q | p in db.OlderForAny(tags, cutoff) && p !in out && q in out
      ensures p in posts && posts[p].favCount <= posts[q].favCount
    {
      OmittedIsNoBetter(db, tags, cutoff, limit, answers, merged, i, at, out, p, q);
    }
    if |out| < limit {
      DistinctCount(out);
      forall p | p in db.OlderForAny(tags, cutoff) ensures p in out {
        var t :| 0 <= t < |tags| && p in db.EligibleOlderThan(tags[t], cutoff);
        var rows := answers[t];
        forall r | 0 <= r < |rows| ensures rows[r].id in out {
          assert rows[r] in answers[t];
          assert rows[r] in merged;
        }
        if p !in Ids(rows) {
          OmissionFillsTheLimit(rows, db.EligibleOlderThan(tags[t], cutoff), posts, limit, Members(out), p);
        } else {
          var r :| 0 <= r < |rows| && Ids(rows)[r] == p;
        }
      }
    }
  }

  lemma OmittedIsNoBetter(
      db: Catalog, tags: seq<string>, cutoff: int, limit: nat, answers: seq<seq<Hit>>,
      merged: seq<Hit>, i: nat, at: seq<nat>, out: seq<int>, p: int, q: int)
    requires |answers| == |tags|
    requires forall t | 0 <= t < |tags| ::
               TopByFavourites(answers[t], db.EligibleOlderThan(tags[t], cutoff), db.posts, limit)
    requires SortedBy(merged, BetterHit)
    requires forall h :: h in merged <==> exists u :: 0 <= u < |tags| && h in answers[u]
    requires forall h | h in merged :: h.id in db.posts && db.posts[h.id].favCount == h.fav
    requires IsDistinctPrefix(merged, i, at, out, limit)
    requires p in db.OlderForAny(tags, cutoff) && p !in out && q in out
    ensures p in db.posts && q in db.posts && db.posts[p].favCount <= db.posts[q].favCount
  {
    var t :| 0 <= t < |tags| && p in db.EligibleOlderThan(tags[t], cutoff);
    var rows := answers[t];
    var j :| 0 <= j < |out| && out[j] == q;
    assert merged[at[j]] in merged;
    var qFav := db.posts[q].favCount;
    forall r | 0 <= r < |rows|
      ensures (rows[r].id in out && rows[r].id != q) || rows[r].fav <= qFav
      ensures rows[r].id !in out ==> rows[r].fav <= qFav
    {
      assert rows[r] in answers[t];
      assert rows[r] in merged;
      var m :| 0 <= m < |merged| && merged[m] == rows[r];
      if m >= i {
        assert BetterHit(merged[at[j]], merged[m]);
      }
    }
    if p in Ids(rows) {
      var r :| 0 <= r < |rows| && Ids(rows)[r] == p;
    } else {
      OmittedByQueryIsNoBetter(rows, db.EligibleOlderThan(tags[t], cutoff), db.posts, limit, out, p, q);
    }
  }
}
