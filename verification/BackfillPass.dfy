// The pass that backfills the global co-occurrence table
// (parser-api/src/db/cooccurrence_backfill.rs), as a history of the machine in
// CooccurrenceRuns: each batch is read and then committed on its own.
module BackfillPass {
  import opened Wrappers
  import opened Sorting
  import opened Cooccurrence
  import opened CooccurrenceBackfill
  import opened CooccurrenceRuns

  ghost predicate AddsPairs(t: Counts, t': Counts, pairs: set<Pair>) {
    forall p ::
      && Count(t', p) == Count(t, p) + (if p in pairs then 1 else 0)
      && (p in t' <==> p in t || p in pairs)
  }

  // `n` batches, each read and committed.
  ghost function Rounds(n: nat): seq<Step> {
    if n == 0 then [] else Rounds(n - 1) + [Fetch, Commit]
  }

  // A pass that commits `n` batches, and then finds no more or fails on the next.
  ghost function PassSteps(n: nat, ok: bool): seq<Step> {
    [Open] + Rounds(n) + if ok then [Fetch] else [Fetch, Abort]
  }

  // The watermark moved from `from` to `to` in `n` full batches, the last of them
  // perhaps short.
  ghost predicate MovedBy(posts: Posts, from: int, to: int, n: nat) {
    && from <= to
    && (Beyond(posts, to) != {} ==> |Beyond(posts, from)| - |Beyond(posts, to)| == 200 * n)
    && (Beyond(posts, to) == {} ==> 200 * (n - 1) < |Beyond(posts, from)| <= 200 * n)
  }

  lemma {:induction false} RunAppends(s: State, a: seq<Step>, b: seq<Step>)
    requires Runs(s, a) && Runs(Run(s, a), b)
    ensures Runs(s, a + b) && Run(s, a + b) == Run(Run(s, a), b)
    decreases |a|
  {
    if a == [] {
      assert a + b == b;
    } else {
      RunAppends(Next(s, a[0]), a[1..], b);
      assert (a + b)[1..] == a[1..] + b;
    }
  }

  // Where the durable state stands after `n` rounds of the pass.
  ghost predicate After(start: State, n: nat, now: State) {
    Runs(start, [Open] + Rounds(n)) && Run(start, [Open] + Rounds(n)) == now
  }

  lemma OpenStarts(start: State)
    requires start.pass.None? && start.posts != map[]
    ensures After(start, 0, start.(pass := Some(Pass(Watermark(start.db, start.posts), []))))
  {
    assert [Open] + Rounds(0) == [Open];
  }

  lemma RoundCommits(start: State, n: nat, now: State)
    requires After(start, n, now) && now.pass.Some? && now.pass.value.batch == []
    requires NextBatch(now.posts, now.pass.value.last) != []
    ensures var batch := NextBatch(now.posts, now.pass.value.last);
            var top := batch[|batch| - 1];
            After(start, n + 1,
                  State(Db(WithBatch(now.db.counts, now.posts, batch), Some(top)), now.posts, Some(Pass(top, []))))
  {
    var read := Next(now, Fetch);
    assert [Fetch, Commit][1..] == [Commit] && [Commit][1..] == [];
    assert Runs(read, [Commit]) && Runs(now, [Fetch, Commit]);
    RunAppends(start, [Open] + Rounds(n), [Fetch, Commit]);
    assert [Open] + Rounds(n) + [Fetch, Commit] == [Open] + Rounds(n + 1);
  }

  lemma PassEnds(start: State, n: nat, now: State, ok: bool)
    requires After(start, n, now) && now.pass.Some? && now.pass.value.batch == []
    requires ok <==> NextBatch(now.posts, now.pass.value.last) == []
    ensures Runs(start, PassSteps(n, ok)) && Run(start, PassSteps(n, ok)) == now.(pass := None)
  {
    if ok {
      assert [Fetch][1..] == [];
      RunAppends(start, [Open] + Rounds(n), [Fetch]);
    } else {
      assert [Fetch, Abort][1..] == [Abort] && [Abort][1..] == [];
      assert Runs(Next(now, Fetch), [Abort]) && Runs(now, [Fetch, Abort]);
      RunAppends(start, [Open] + Rounds(n), [Fetch, Abort]);
    }
  }

  // A batch holds 200 posts unless nothing is left behind it.
  lemma BatchTakes(posts: Posts, last: int)
    requires NextBatch(posts, last) != []
    ensures var batch := NextBatch(posts, last);
            var top := batch[|batch| - 1];
            && last < top && |Beyond(posts, last)| == |Beyond(posts, top)| + |batch|
            && 0 < |batch| <= 200 && (|batch| == 200 || Beyond(posts, top) == {})
  {
    var batch := NextBatch(posts, last);
    var top := batch[|batch| - 1];
    BatchAdvances(posts, last);
    forall i ensures i in Beyond(posts, last) <==> i in Beyond(posts, top) || i in Members(batch) {
      assert i in posts ==> (i in UpTo(posts, top) <==> i in UpTo(posts, last) || i in Members(batch));
      assert i in batch ==> i in Beyond(posts, last);
    }
    assert Beyond(posts, last) == Beyond(posts, top) + Members(batch);
    DistinctCount(batch);
    forall i | i in Members(batch) ensures i !in Beyond(posts, top) {
      assert i in posts ==> (i in UpTo(posts, top) <==> i in UpTo(posts, last) || i in Members(batch));
    }
    assert |Beyond(posts, last)| == |Beyond(posts, top)| + |Members(batch)|;
  }

  // The pass after `n` committed batches, standing at `last`.
  ghost predicate Underway(posts: Posts, start: State, db: Db, last: int, n: nat) {
    && start.posts == posts && CountedToWatermark(db, posts) && last == Watermark(db, posts)
    && MovedBy(posts, Watermark(start.db, posts), last, n)
    && (n == 0 ==> db == start.db)
    && After(start, n, State(db, posts, Some(Pass(last, []))))
  }

  lemma NextBatchCommits(posts: Posts, start: State, db: Db, last: int, n: nat)
    requires Underway(posts, start, db, last, n) && NextBatch(posts, last) != []
    ensures var batch := NextBatch(posts, last);
            var top := batch[|batch| - 1];
            && Underway(posts, start, Db(WithBatch(db.counts, posts, batch), Some(top)), top, n + 1)
            && |Beyond(posts, top)| < |Beyond(posts, last)|
  {
    BatchAdvances(posts, last);
    CommitKeepsExact(db, posts);
    BatchTakes(posts, last);
    RoundCommits(start, n, State(db, posts, Some(Pass(last, []))));
  }

  class GlobalGraph {
    const posts: Posts
    var counts: Counts
    var watermark: Option<int>

    ghost function Durable(): Db
      reads this
    {
      Db(counts, watermark)
    }

    constructor (posts: Posts)
      ensures this.posts == posts && Durable() == Db(map[], Some(-1))
    {
      this.posts := posts;
      counts, watermark := map[], Some(-1);
    }

    // One post's pairs, in whatever order the join returns them.
    static method CountPost(t: Counts, tags: set<int>) returns (t': Counts)
      ensures AddsPost(t, t', tags)
    {
      t' := t;
      var rest := JoinedPairs(tags);
      ghost var done: set<Pair> := {};
      while rest != {}
        invariant done + rest == JoinedPairs(tags) && done !! rest
        invariant AddsPairs(t, t', done)
        decreases |rest|
      {
        var p :| p in rest;
        t' := Bump(t', p);
        done := done + {p};
        rest := rest - {p};
      }
      JoinIsEveryPair(tags);
    }

    static method CountBatch(posts: Posts, t: Counts, batch: seq<int>) returns (t': Counts)
      requires forall k | 0 <= k < |batch| :: batch[k] in posts
      ensures t' == WithBatch(t, posts, batch)
    {
      t' := t;
      for k := 0 to |batch|
        invariant t' == WithBatch(t, posts, batch[..k])
      {
        ghost var mid := t';
        t' := CountPost(t', posts[batch[k]]);
        WithPostAddsPost(mid, t', posts[batch[k]]);
        assert batch[..k + 1][..k] == batch[..k];
      }
      assert batch[..|batch|] == batch;
    }

    // One pass. `faults` says which batches fail before their commit; the pass
    // then stops with an error and leaves what the `n` earlier batches committed.
    method Backfill(faults: set<nat>) returns (ok: bool, ghost n: nat)
      requires CountedToWatermark(Durable(), posts)
      modifies this
      ensures CountedToWatermark(Durable(), posts)
      ensures ok ==> posts == map[] || !NeedsGlobalBackfill(Durable(), posts)
      ensures ok ==> Exact(counts, posts, posts.Keys)
      // It fails at the first failing batch it reaches, and at no other.
      ensures posts == map[] ==> ok
      ensures posts != map[] ==> (forall k | k in faults :: n <= k) && (!ok ==> n in faults)
      // Every batch before that stays committed.
      ensures posts != map[] ==> MovedBy(posts, Watermark(old(Durable()), posts), Watermark(Durable(), posts), n)
      ensures !ok ==> NeedsGlobalBackfill(Durable(), posts)
      ensures posts == map[] || n == 0 ==> Durable() == old(Durable())
      ensures posts != map[] ==>
                var start := State(old(Durable()), posts, None);
                Runs(start, PassSteps(n, ok)) && Run(start, PassSteps(n, ok)) == State(Durable(), posts, None)
    {
      n := 0;
      if |posts| == 0 {
        assert UpTo(posts, Watermark(Durable(), posts)) == posts.Keys;
        return true, n;
      }
      ghost var start := State(Durable(), posts, None);
      OpenStarts(start);
      var last := Watermark(Db(counts, watermark), posts);
      var batchNo := 0;
      while true
        invariant Underway(posts, start, Durable(), last, batchNo)
        invariant forall k | k in faults :: batchNo <= k
        decreases |Beyond(posts, last)|
      {
        var batch := NextBatch(posts, last);
        BatchAdvances(posts, last);
        n := batchNo;
        if batch == [] || batchNo in faults {
          ok := batch == [];
          PassEnds(start, n, State(Durable(), posts, Some(Pass(last, []))), ok);
          if ok {
            NotNeededMeansComplete(Durable(), posts);
          }
          return;
        }
        NextBatchCommits(posts, start, Durable(), last, batchNo);
        var work := CountBatch(posts, counts, batch);
        last := batch[|batch| - 1];
        counts, watermark := work, Some(last);
        batchNo := batchNo + 1;
      }
    }
  }
}
