// The resumable one-shot backfill of the global co-occurrence table
// (parser-api/src/db/cooccurrence_backfill.rs). A batch's pairs are committed
// together with the watermark.
module CooccurrenceBackfill {
  import opened Wrappers
  import opened Sorting
  import opened Cooccurrence

  const COOC_BACKFILL_BATCH: nat := 200

  // The durable state: the count table and the watermark row, which a database
  // older than the state table lacks.
  datatype Db = Db(counts: Counts, watermark: Option<int>)

  // Tagged posts: `tags_posts` grouped by post, so no post is listed without tags.
  type Posts = map<int, set<int>>

  ghost predicate PostIdsNonNegative(posts: Posts) {
    forall i | i in posts :: i >= 0
  }

  function NewestPost(posts: Posts): int {
    if posts.Keys == {} then -1 else Largest(posts.Keys)
  }

  // Highest fully counted post id. Without a state row a non-empty table is read
  // as finished.
  function Watermark(db: Db, posts: Posts): int {
    match db.watermark
    case Some(w) => w
    case None => if db.counts == map[] then -1 else NewestPost(posts)
  }

  function Beyond(posts: Posts, w: int): set<int> {
    set i | i in posts && i > w
  }

  function UpTo(posts: Posts, w: int): set<int> {
    set i | i in posts && i <= w
  }

  predicate NeedsGlobalBackfill(db: Db, posts: Posts) {
    Beyond(posts, Watermark(db, posts)) != {}
  }

  // The committed table counts exactly the posts at or below the watermark.
  ghost predicate CountedToWatermark(db: Db, posts: Posts) {
    Exact(db.counts, posts, UpTo(posts, Watermark(db, posts)))
  }

  // --- one batch ----------------------------------------------------------------------

  // The posts a pass at `last` counts next: SELECT DISTINCT .. ORDER BY .. LIMIT.
  function NextBatch(posts: Posts, last: int): seq<int> {
    Oldest(Beyond(posts, last), COOC_BACKFILL_BATCH)
  }

  // The self-join tp1.tag_id < tp2.tag_id of one post's tags.
  function JoinedPairs(tags: set<int>): set<Pair> {
    set a, b | a in tags && b in tags && a < b :: (a, b)
  }

  ghost function WithPost(t: Counts, tags: set<int>): Counts {
    map p | p in t.Keys + JoinedPairs(tags) :: Count(t, p) + if p in JoinedPairs(tags) then 1 else 0
  }

  lemma JoinIsEveryPair(tags: set<int>)
    ensures forall p :: p in JoinedPairs(tags) <==> InPost(p, tags)
  {
    forall p ensures p in JoinedPairs(tags) <==> InPost(p, tags) {
      if InPost(p, tags) {
        assert (p.0, p.1) in JoinedPairs(tags);
      }
    }
  }

  lemma WithPostAddsPost(t: Counts, t': Counts, tags: set<int>)
    ensures AddsPost(t, t', tags) <==> t' == WithPost(t, tags)
  {
    JoinIsEveryPair(tags);
    if AddsPost(t, t', tags) {
      forall p ensures p in t' <==> p in WithPost(t, tags) {
        assert p in t' <==> p in t || InPost(p, tags);
      }
      forall p | p in t' ensures t'[p] == WithPost(t, tags)[p] {
        assert Count(t', p) == Count(t, p) + (if InPost(p, tags) then 1 else 0);
      }
    }
  }

  function TagsAt(posts: Posts, i: int): set<int> {
    if i in posts then posts[i] else {}
  }

  // The table after one batch: every pair of every post of the batch, once more.
  ghost function WithBatch(t: Counts, posts: Posts, batch: seq<int>): Counts
    decreases |batch|
  {
    if batch == [] then t
    else WithPost(WithBatch(t, posts, batch[..|batch| - 1]), TagsAt(posts, batch[|batch| - 1]))
  }

  lemma {:induction false} BatchKeepsExact(t: Counts, posts: Posts, base: set<int>, batch: seq<int>)
    requires Exact(t, posts, base) && Distinct(batch)
    requires forall k | 0 <= k < |batch| :: batch[k] in posts && batch[k] !in base
    ensures Exact(WithBatch(t, posts, batch), posts, base + Members(batch))
    decreases |batch|
  {
    if batch == [] {
      assert base + Members(batch) == base;
    } else {
      var init, last := batch[..|batch| - 1], batch[|batch| - 1];
      assert batch == init + [last];
      assert last in batch && last !in init;
      BatchKeepsExact(t, posts, base, init);
      var mid := WithBatch(t, posts, init);
      WithPostAddsPost(mid, WithPost(mid, posts[last]), posts[last]);
      AddingKeepsExact(mid, WithPost(mid, posts[last]), posts, base + Members(init), last);
      assert base + Members(batch) == base + Members(init) + {last};
    }
  }

  // The posts up to the batch's last id are those before it plus the batch.
  lemma BatchAdvances(posts: Posts, last: int)
    ensures var batch := NextBatch(posts, last);
            && IsLowerEnd(batch, Beyond(posts, last), COOC_BACKFILL_BATCH)
            && Distinct(batch)
            && (forall k | 0 <= k < |batch| :: batch[k] in posts && batch[k] !in UpTo(posts, last))
            && (batch == [] <==> Beyond(posts, last) == {})
            && (batch != [] ==>
                  && batch[|batch| - 1] > last
                  && UpTo(posts, batch[|batch| - 1]) == UpTo(posts, last) + Members(batch))
  {
    var ids := Beyond(posts, last);
    var batch := NextBatch(posts, last);
    OldestIsLowerEnd(ids, COOC_BACKFILL_BATCH);
    forall k | 0 <= k < |batch| ensures batch[k] in posts && batch[k] !in UpTo(posts, last) {
      assert batch[k] in batch;
    }
    if batch != [] {
      var top := batch[|batch| - 1];
      assert top in batch && top in ids;
      forall i ensures i in UpTo(posts, top) <==> i in UpTo(posts, last) + Members(batch) {
        if i in batch {
          assert i in ids;
          var k :| 0 <= k < |batch| && batch[k] == i;
        }
        if i in posts && last < i <= top {
          assert i in ids;
        }
      }
    }
  }

  // Committing the next batch with its last id as the watermark keeps the table
  // exact up to the watermark and leaves strictly fewer posts to count.
  lemma CommitKeepsExact(db: Db, posts: Posts)
    requires CountedToWatermark(db, posts) && NextBatch(posts, Watermark(db, posts)) != []
    ensures var last := Watermark(db, posts);
            var batch := NextBatch(posts, last);
            && CountedToWatermark(Db(WithBatch(db.counts, posts, batch), Some(batch[|batch| - 1])), posts)
            && Beyond(posts, batch[|batch| - 1]) < Beyond(posts, last)
  {
    var last := Watermark(db, posts);
    var batch := NextBatch(posts, last);
    BatchAdvances(posts, last);
    BatchKeepsExact(db.counts, posts, UpTo(posts, last), batch);
    assert batch[|batch| - 1] in batch;
    assert batch[|batch| - 1] in Beyond(posts, last);
  }

  // A fresh database, with or without its state row, starts exact.
  lemma FreshIsConsistent(posts: Posts, watermark: Option<int>)
    requires PostIdsNonNegative(posts) && (watermark == None || watermark == Some(-1))
    ensures CountedToWatermark(Db(map[], watermark), posts)
  {
    assert UpTo(posts, -1) == {};
    NothingCounted(posts);
  }

  // --- what the restart test tells ----------------------------------------------------

  ghost predicate HasPair(posts: Posts, i: int)
    requires i in posts
  {
    exists p :: InPost(p, posts[i])
  }

  // In a consistent database the table is the full count exactly when no post
  // beyond the watermark carries a pair.
  lemma CompleteIffNoPairsBeyond(db: Db, posts: Posts)
    requires CountedToWatermark(db, posts)
    ensures Exact(db.counts, posts, posts.Keys) <==>
            forall i | i in Beyond(posts, Watermark(db, posts)) :: !HasPair(posts, i)
  {
    var w := Watermark(db, posts);
    if forall i | i in Beyond(posts, w) :: !HasPair(posts, i) {
      forall p
        ensures Carrying(posts, posts.Keys, p) == Carrying(posts, UpTo(posts, w), p)
      {
        forall i | i in Carrying(posts, posts.Keys, p) ensures i in UpTo(posts, w) {
          assert HasPair(posts, i);
          assert i !in Beyond(posts, w);
        }
      }
    } else {
      var i :| i in Beyond(posts, w) && HasPair(posts, i);
      var p :| InPost(p, posts[i]);
      var part, all := Carrying(posts, UpTo(posts, w), p), Carrying(posts, posts.Keys, p);
      assert i in all && i !in part;
      SubsetSize(part, all - {i});
      assert Count(db.counts, p) == |part|;
    }
  }

  // "No backfill needed" means the table is complete.
  lemma NotNeededMeansComplete(db: Db, posts: Posts)
    requires CountedToWatermark(db, posts) && !NeedsGlobalBackfill(db, posts)
    ensures Exact(db.counts, posts, posts.Keys)
  {
    CompleteIffNoPairsBeyond(db, posts);
  }

  // The converse fails exactly when posts remain and none of them carries a pair:
  // the table is already complete, yet a pass is still asked for.
  lemma NeededThoughComplete(db: Db, posts: Posts)
    requires CountedToWatermark(db, posts)
    ensures NeedsGlobalBackfill(db, posts) && Exact(db.counts, posts, posts.Keys) <==>
            && Beyond(posts, Watermark(db, posts)) != {}
            && forall i | i in Beyond(posts, Watermark(db, posts)) :: !HasPair(posts, i)
  {
    CompleteIffNoPairsBeyond(db, posts);
  }

  lemma SingleTagPostAsksForAPass()
    ensures var posts: Posts := map[10 := {1}];
            var db := Db(map[], Some(-1));
            CountedToWatermark(db, posts) && NeedsGlobalBackfill(db, posts) && Exact(db.counts, posts, posts.Keys)
  {
    var posts: Posts := map[10 := {1}];
    var db := Db(map[], Some(-1));
    assert 10 in Beyond(posts, -1);
    forall p: Pair, s ensures Carrying(posts, s, p) == {} {
      assert !InPost(p, {1});
    }
  }
}
