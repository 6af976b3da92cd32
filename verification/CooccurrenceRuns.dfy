// The global co-occurrence table over whole histories: passes that start, fail and
// restart (parser-api/src/db/cooccurrence_backfill.rs) among posts being saved.
module CooccurrenceRuns {
  import opened Wrappers
  import opened Sorting
  import opened Cooccurrence
  import opened CooccurrenceBackfill

  // The running pass: its position, and the ids it has read but not yet counted.
  datatype Pass = Pass(last: int, batch: seq<int>)

  // A crash loses the pass and keeps the rest.
  datatype State = State(db: Db, posts: Posts, pass: Option<Pass>)

  // A pass reads a batch of ids first and counts it in one transaction later; a
  // save (parser-api/src/db/tags.rs) may come between the two.
  datatype Step =
    | Open                      // a pass starts and reads the watermark
    | Fetch                     // it reads the next batch of ids
    | Commit                    // the batch's transaction commits
    | Abort                     // a query or transaction fails, or the process dies
    // A post is saved with these tags; `track` is the caller's track_cooccurrence.
    | SavePost(id: int, tags: set<int>, track: bool)

  ghost predicate Enabled(s: State, step: Step) {
    match step
    case Open => s.pass.None?
    case Fetch => s.pass.Some? && s.pass.value.batch == []
    case Commit => s.pass.Some? && s.pass.value.batch != []
    case Abort => true
    case SavePost(_, _, _) => s.db.watermark.Some?
  }

  // A tracked save counts the post's pairs if the post had no tags before.
  predicate Counted(s: State, id: int, track: bool) {
    track && TagsAt(s.posts, id) == {}
  }

  // Tags are only ever added to a post.
  function Tagged(posts: Posts, id: int, tags: set<int>): Posts {
    if tags == {} then posts else posts[id := TagsAt(posts, id) + tags]
  }

  ghost function Next(s: State, step: Step): State
    requires Enabled(s, step)
  {
    match step
    case Open => if s.posts == map[] then s else s.(pass := Some(Pass(Watermark(s.db, s.posts), [])))
    case Fetch =>
      var batch := NextBatch(s.posts, s.pass.value.last);
      s.(pass := if batch == [] then None else Some(s.pass.value.(batch := batch)))
    case Commit =>
      var batch := s.pass.value.batch;
      var top := batch[|batch| - 1];
      State(Db(WithBatch(s.db.counts, s.posts, batch), Some(top)), s.posts, Some(Pass(top, [])))
    case Abort => s.(pass := None)
    case SavePost(id, tags, track) =>
      var counts := if Counted(s, id, track) then WithPost(s.db.counts, tags) else s.db.counts;
      State(Db(counts, s.db.watermark), Tagged(s.posts, id, tags), s.pass)
  }

  ghost predicate Runs(s: State, steps: seq<Step>)
    decreases |steps|
  {
    steps == [] || (Enabled(s, steps[0]) && Runs(Next(s, steps[0]), steps[1..]))
  }

  ghost function Run(s: State, steps: seq<Step>): State
    requires Runs(s, steps)
    decreases |steps|
  {
    if steps == [] then s else Run(Next(s, steps[0]), steps[1..])
  }

  // A running pass stands at the watermark, and what it has read lies beyond.
  ghost predicate Aligned(s: State) {
    && RowsPositive(s.db.counts)
    && (s.pass.Some? ==>
          && s.pass.value.last == Watermark(s.db, s.posts)
          && IsBatchBeyond(s.pass.value.batch, s.posts, s.pass.value.last))
  }

  ghost predicate IsBatchBeyond(batch: seq<int>, posts: Posts, last: int) {
    && Distinct(batch)
    && forall k | 0 <= k < |batch| :: batch[k] in posts && last < batch[k] <= batch[|batch| - 1]
  }

  ghost predicate RowsPositive(t: Counts) {
    forall p | p in t :: t[p] > 0
  }

  // --- the drift of the table --------------------------------------------------------

  // By how much a pair is over- or undercounted, up to the watermark.
  ghost function Drift(s: State, p: Pair): int {
    Count(s.db.counts, p) - |Carrying(s.posts, UpTo(s.posts, Watermark(s.db, s.posts)), p)|
  }

  ghost predicate DriftFree(s: State) {
    forall p :: Drift(s, p) == 0
  }

  lemma ExactIffNoDrift(s: State)
    requires RowsPositive(s.db.counts)
    ensures CountedToWatermark(s.db, s.posts) <==> DriftFree(s)
  {
    var base := UpTo(s.posts, Watermark(s.db, s.posts));
    if DriftFree(s) {
      forall p
        ensures Count(s.db.counts, p) == |Carrying(s.posts, base, p)|
        ensures p in s.db.counts <==> Carrying(s.posts, base, p) != {}
      {
        assert Drift(s, p) == 0;
      }
    } else {
      var p :| Drift(s, p) != 0;
      assert Count(s.db.counts, p) != |Carrying(s.posts, base, p)|;
    }
  }

  lemma ExactRowsArePositive(t: Counts, posts: Posts, base: set<int>)
    requires Exact(t, posts, base)
    ensures RowsPositive(t)
  {
    forall p | p in t ensures t[p] > 0 {
      assert Count(t, p) == |Carrying(posts, base, p)|;
    }
  }

  // What one step adds to the drift of a pair. A save counts the post now or not,
  // and enlarges what is below the watermark or not; a commit passes over whatever
  // was saved inside its range after its ids were read.
  ghost function StepDrift(s: State, step: Step, p: Pair): int
    requires Enabled(s, step)
  {
    match step
    case SavePost(id, tags, track) =>
      (if Counted(s, id, track) && InPost(p, tags) then 1 else 0)
      - (if id <= s.db.watermark.value && IsNewPair(s.posts, id, tags, p) then 1 else 0)
    case Commit => -|Carrying(s.posts, PassedOver(s), p)|
    case Open => 0
    case Fetch => 0
    case Abort => 0
  }

  // The save gives the post this pair.
  predicate IsNewPair(posts: Posts, id: int, tags: set<int>, p: Pair) {
    InPost(p, TagsAt(posts, id) + tags) && !InPost(p, TagsAt(posts, id))
  }

  // Posts in the range of the batch that the batch does not list.
  ghost function PassedOver(s: State): set<int>
    requires Enabled(s, Commit)
  {
    var batch := s.pass.value.batch;
    (set i | i in s.posts && s.pass.value.last < i <= batch[|batch| - 1]) - Members(batch)
  }

  lemma SaveDrifts(s: State, id: int, tags: set<int>, track: bool, p: Pair)
    requires s.db.watermark.Some?
    ensures Drift(Next(s, SavePost(id, tags, track)), p) == Drift(s, p) + StepDrift(s, SavePost(id, tags, track), p)
  {
    var s' := Next(s, SavePost(id, tags, track));
    var w := s.db.watermark.value;
    SaveCounts(s, id, tags, track, p);
    SaveCarries(s.posts, id, tags, w, p);
    assert Watermark(s.db, s.posts) == Watermark(s'.db, s'.posts) == w;
  }

  lemma SaveCounts(s: State, id: int, tags: set<int>, track: bool, p: Pair)
    requires s.db.watermark.Some?
    ensures Count(Next(s, SavePost(id, tags, track)).db.counts, p) ==
            Count(s.db.counts, p) + if Counted(s, id, track) && InPost(p, tags) then 1 else 0
  {
    WithPostAddsPost(s.db.counts, WithPost(s.db.counts, tags), tags);
  }

  lemma SaveCarries(posts: Posts, id: int, tags: set<int>, w: int, p: Pair)
    ensures var posts' := Tagged(posts, id, tags);
            |Carrying(posts', UpTo(posts', w), p)| ==
            |Carrying(posts, UpTo(posts, w), p)| + if id <= w && IsNewPair(posts, id, tags, p) then 1 else 0
  {
    var was, now := TagsAt(posts, id), TagsAt(posts, id) + tags;
    if tags == {} {
      assert now == was;
    } else {
      RetaggedCarriers(posts, id, now, w, p);
      OwnPart(posts, id, w, p);
    }
  }

  // A post is among the carriers by its own tags.
  lemma OwnPart(posts: Posts, id: int, w: int, p: Pair)
    ensures id in Carrying(posts, UpTo(posts, w), p) <==> id <= w && InPost(p, TagsAt(posts, id))
  {
  }

  // Whatever tags a post gets, no other post's part changes.
  lemma RetaggedCarriers(posts: Posts, id: int, tags: set<int>, w: int, p: Pair)
    ensures var posts' := posts[id := tags];
            Carrying(posts', UpTo(posts', w), p) ==
            Carrying(posts, UpTo(posts, w), p) - {id} + if id <= w && InPost(p, tags) then {id} else {}
  {
  }

  lemma {:induction false} BatchCounts(t: Counts, posts: Posts, batch: seq<int>, p: Pair)
    requires Distinct(batch)
    ensures Count(WithBatch(t, posts, batch), p) == Count(t, p) + |Carrying(posts, Members(batch), p)|
    decreases |batch|
  {
    if batch == [] {
      assert Carrying(posts, Members(batch), p) == {};
    } else {
      var init, last := batch[..|batch| - 1], batch[|batch| - 1];
      BatchCounts(t, posts, init, p);
      assert batch == init + [last] && last !in init;
      var mid := WithBatch(t, posts, init);
      WithPostAddsPost(mid, WithPost(mid, TagsAt(posts, last)), TagsAt(posts, last));
      var before, after := Carrying(posts, Members(init), p), Carrying(posts, Members(batch), p);
      assert after == if InPost(p, TagsAt(posts, last)) then before + {last} else before;
    }
  }

  // Carriers of disjoint sets of posts add up.
  lemma CarryingSplits(posts: Posts, a: set<int>, b: set<int>, p: Pair)
    requires a !! b
    ensures |Carrying(posts, a + b, p)| == |Carrying(posts, a, p)| + |Carrying(posts, b, p)|
  {
    assert Carrying(posts, a + b, p) == Carrying(posts, a, p) + Carrying(posts, b, p);
  }

  lemma CommitDrifts(s: State, p: Pair)
    requires Aligned(s) && Enabled(s, Commit)
    ensures Drift(Next(s, Commit), p) == Drift(s, p) + StepDrift(s, Commit, p)
  {
    var last, batch := s.pass.value.last, s.pass.value.batch;
    var top := batch[|batch| - 1];
    var below := UpTo(s.posts, last);
    BatchCounts(s.db.counts, s.posts, batch, p);
    assert last < top;
    assert UpTo(s.posts, top) == below + (Members(batch) + PassedOver(s)) by {
      forall i | i in Members(batch) ensures i in s.posts && last < i <= top {
        var k :| 0 <= k < |batch| && batch[k] == i;
      }
    }
    assert below !! Members(batch) + PassedOver(s) by {
      forall i | i in Members(batch) ensures last < i {
        var k :| 0 <= k < |batch| && batch[k] == i;
      }
    }
    CarryingSplits(s.posts, below, Members(batch) + PassedOver(s), p);
    CarryingSplits(s.posts, Members(batch), PassedOver(s), p);
  }

  lemma StepDrifts(s: State, step: Step, p: Pair)
    requires Aligned(s) && Enabled(s, step)
    ensures Drift(Next(s, step), p) == Drift(s, p) + StepDrift(s, step, p)
  {
    match step
    case SavePost(id, tags, track) => SaveDrifts(s, id, tags, track, p);
    case Commit => CommitDrifts(s, p);
    case Open =>
    case Fetch =>
    case Abort =>
  }

  lemma {:induction false} BatchKeepsRowsPositive(t: Counts, posts: Posts, batch: seq<int>)
    requires RowsPositive(t)
    ensures RowsPositive(WithBatch(t, posts, batch))
    decreases |batch|
  {
    if batch == [] {
    } else {
      BatchKeepsRowsPositive(t, posts, batch[..|batch| - 1]);
    }
  }

  lemma FetchedBatchIsBeyond(posts: Posts, last: int)
    ensures IsBatchBeyond(NextBatch(posts, last), posts, last)
  {
    var batch := NextBatch(posts, last);
    BatchAdvances(posts, last);
    forall k | 0 <= k < |batch| ensures batch[k] in posts && last < batch[k] <= batch[|batch| - 1] {
      assert batch[k] in batch;
    }
  }

  lemma StepKeepsAligned(s: State, step: Step)
    requires Aligned(s) && Enabled(s, step)
    ensures Aligned(Next(s, step))
  {
    match step
    case Commit => BatchKeepsRowsPositive(s.db.counts, s.posts, s.pass.value.batch);
    case Fetch => FetchedBatchIsBeyond(s.posts, s.pass.value.last);
    case SavePost(id, tags, track) =>
    case Open =>
    case Abort =>
  }

  // --- whole histories -----------------------------------------------------------------

  ghost function NetDrift(s: State, steps: seq<Step>, p: Pair): int
    requires Runs(s, steps)
    decreases |steps|
  {
    if steps == [] then 0 else StepDrift(s, steps[0], p) + NetDrift(Next(s, steps[0]), steps[1..], p)
  }

  // Passes, failures and restarts neither cause nor repair a miscount: after any
  // history the drift of each pair is what its saves, and the commits that passed
  // over one, contributed.
  lemma {:induction false} DriftIsConserved(s: State, steps: seq<Step>, p: Pair)
    requires Aligned(s) && Runs(s, steps)
    ensures Drift(Run(s, steps), p) == Drift(s, p) + NetDrift(s, steps, p)
    ensures Aligned(Run(s, steps))
    decreases |steps|
  {
    if steps == [] {
    } else {
      StepDrifts(s, steps[0], p);
      StepKeepsAligned(s, steps[0]);
      DriftIsConserved(Next(s, steps[0]), steps[1..], p);
    }
  }

  ghost predicate Consistent(s: State) {
    Aligned(s) && CountedToWatermark(s.db, s.posts)
  }

  // No pair has drifted on balance.
  ghost predicate Balanced(s: State, steps: seq<Step>)
    requires Runs(s, steps)
  {
    forall p :: NetDrift(s, steps, p) == 0
  }

  // Wherever passes are interrupted, however often they restart and whatever is
  // saved in between, the committed table is exact up to the committed watermark
  // if and only if its saves, and the commits that passed over one, balance.
  lemma EveryRunIsExact(s: State, steps: seq<Step>)
    requires Consistent(s) && Runs(s, steps)
    ensures Consistent(Run(s, steps)) <==> Balanced(s, steps)
  {
    var end := Run(s, steps);
    ExactIffNoDrift(s);
    DriftIsConserved(s, steps, (0, 0));
    ExactIffNoDrift(end);
    if Balanced(s, steps) {
      forall p ensures Drift(end, p) == 0 {
        DriftIsConserved(s, steps, p);
        assert NetDrift(s, steps, p) == 0 && Drift(s, p) == 0;
      }
    }
    if DriftFree(end) {
      forall p ensures NetDrift(s, steps, p) == 0 {
        DriftIsConserved(s, steps, p);
        assert Drift(end, p) == 0 && Drift(s, p) == 0;
      }
    }
  }

  // --- which steps are harmless ----------------------------------------------------------

  // A save between passes keeps the table exact if it is counted when the post lies
  // below the watermark, left to the next pass when it lies above, or brings no
  // pair the post did not have.
  ghost predicate HarmlessSave(s: State, id: int, tags: set<int>, track: bool)
    requires s.db.watermark.Some?
  {
    (Counted(s, id, track) <==> id <= s.db.watermark.value) || NoNewPair(s.posts, id, tags)
  }

  ghost predicate NoNewPair(posts: Posts, id: int, tags: set<int>) {
    forall p :: !IsNewPair(posts, id, tags, p)
  }

  // That condition is exact, for new and for already tagged posts, counted or not.
  lemma SaveIsHarmlessIff(s: State, id: int, tags: set<int>, track: bool)
    requires Consistent(s) && s.db.watermark.Some?
    ensures Consistent(Next(s, SavePost(id, tags, track))) <==> HarmlessSave(s, id, tags, track)
  {
    var save := SavePost(id, tags, track);
    StepKeepsAligned(s, save);
    ExactIffNoDrift(s);
    ExactIffNoDrift(Next(s, save));
    forall p ensures Drift(Next(s, save), p) == StepDrift(s, save, p) {
      SaveDrifts(s, id, tags, track, p);
      assert Drift(s, p) == 0;
    }
    SaveDriftsNothingIff(s, id, tags, track);
    if HarmlessSave(s, id, tags, track) {
      forall p ensures Drift(Next(s, save), p) == 0 {
        assert StepDrift(s, save, p) == 0;
      }
    }
    if DriftFree(Next(s, save)) {
      forall p ensures StepDrift(s, save, p) == 0 {
        assert Drift(Next(s, save), p) == 0;
      }
    }
  }

  lemma SaveDriftsNothingIff(s: State, id: int, tags: set<int>, track: bool)
    requires s.db.watermark.Some?
    ensures HarmlessSave(s, id, tags, track) <==> forall p :: StepDrift(s, SavePost(id, tags, track), p) == 0
  {
    var save := SavePost(id, tags, track);
    forall p ensures IsNewPair(s.posts, id, tags, p) && Counted(s, id, track) <==>
                     InPost(p, tags) && Counted(s, id, track)
    {
      assert Counted(s, id, track) ==> TagsAt(s.posts, id) + tags == tags;
    }
    if !HarmlessSave(s, id, tags, track) {
      var p :| IsNewPair(s.posts, id, tags, p);
      assert StepDrift(s, save, p) != 0;
    }
  }

  // What a pass has read is still the next batch.
  ghost predicate Fresh(s: State) {
    s.pass.Some? && s.pass.value.batch != [] ==>
      s.pass.value.batch == NextBatch(s.posts, s.pass.value.last)
  }

  ghost predicate Harmless(s: State, step: Step)
    requires Enabled(s, step)
  {
    step.SavePost? ==> s.pass.None? && HarmlessSave(s, step.id, step.tags, step.track)
  }

  ghost predicate AllHarmless(s: State, steps: seq<Step>)
    requires Runs(s, steps)
    decreases |steps|
  {
    steps == [] || (Harmless(s, steps[0]) && AllHarmless(Next(s, steps[0]), steps[1..]))
  }

  lemma FreshBatchPassesOverNothing(s: State)
    requires Aligned(s) && Fresh(s) && Enabled(s, Commit)
    ensures PassedOver(s) == {}
  {
    var last, batch := s.pass.value.last, s.pass.value.batch;
    BatchAdvances(s.posts, last);
    forall i | i in s.posts && last < i <= batch[|batch| - 1] ensures i in Members(batch) {
      assert i in UpTo(s.posts, batch[|batch| - 1]);
    }
  }

  lemma HarmlessStepDrifts(s: State, step: Step, p: Pair)
    requires Consistent(s) && Fresh(s) && Enabled(s, step) && Harmless(s, step)
    ensures StepDrift(s, step, p) == 0
  {
    match step
    case Commit =>
      FreshBatchPassesOverNothing(s);
      assert Carrying(s.posts, {}, p) == {};
    case SavePost(id, tags, track) =>
      SaveIsHarmlessIff(s, id, tags, track);
      SaveDrifts(s, id, tags, track, p);
      ExactIffNoDrift(s);
      ExactIffNoDrift(Next(s, step));
    case Open =>
    case Fetch =>
    case Abort =>
  }

  lemma HarmlessStepKeepsConsistent(s: State, step: Step)
    requires Consistent(s) && Fresh(s) && Enabled(s, step) && Harmless(s, step)
    ensures Consistent(Next(s, step)) && Fresh(Next(s, step))
  {
    StepKeepsAligned(s, step);
    ExactIffNoDrift(s);
    ExactIffNoDrift(Next(s, step));
    forall p ensures Drift(Next(s, step), p) == 0 {
      StepDrifts(s, step, p);
      HarmlessStepDrifts(s, step, p);
    }
  }

  // With harmless saves alone, and none of them during a pass, every history of
  // passes, failures and restarts is exact; without saves, always.
  lemma {:induction false} HarmlessHistoriesAreExact(s: State, steps: seq<Step>)
    requires Consistent(s) && Fresh(s) && Runs(s, steps) && AllHarmless(s, steps)
    ensures Consistent(Run(s, steps)) && Fresh(Run(s, steps))
    decreases |steps|
  {
    if steps == [] {
    } else {
      HarmlessStepKeepsConsistent(s, steps[0]);
      HarmlessHistoriesAreExact(Next(s, steps[0]), steps[1..]);
    }
  }

  // --- what a harmful save leaves behind ---------------------------------------------------

  ghost predicate PassesOnly(steps: seq<Step>) {
    forall i | 0 <= i < |steps| :: !steps[i].SavePost?
  }

  lemma {:induction false} PassesDoNotDrift(s: State, steps: seq<Step>, p: Pair)
    requires Aligned(s) && Fresh(s) && Runs(s, steps) && PassesOnly(steps)
    ensures NetDrift(s, steps, p) == 0 && Run(s, steps).posts == s.posts
    decreases |steps|
  {
    if steps == [] {
    } else {
      if steps[0].Commit? {
        FreshBatchPassesOverNothing(s);
        assert Carrying(s.posts, {}, p) == {};
      }
      StepKeepsAligned(s, steps[0]);
      assert steps[0] == steps[0..][0] && forall i | 0 <= i < |steps[1..]| :: steps[1..][i] == steps[i + 1];
      PassesDoNotDrift(Next(s, steps[0]), steps[1..], p);
    }
  }

  // No number of later passes and restarts corrects it: once nothing is left to
  // count, each pair is off by exactly what the save put it off.
  lemma SaveDriftSurvives(s: State, id: int, tags: set<int>, track: bool, steps: seq<Step>, p: Pair)
    requires Consistent(s) && s.pass.None? && s.db.watermark.Some?
    requires Runs(Next(s, SavePost(id, tags, track)), steps) && PassesOnly(steps)
    requires var end := Run(Next(s, SavePost(id, tags, track)), steps); !NeedsGlobalBackfill(end.db, end.posts)
    ensures var end := Run(Next(s, SavePost(id, tags, track)), steps);
            Count(end.db.counts, p) ==
            |Carrying(end.posts, end.posts.Keys, p)| + StepDrift(s, SavePost(id, tags, track), p)
  {
    var saved := Next(s, SavePost(id, tags, track));
    var end := Run(saved, steps);
    StepKeepsAligned(s, SavePost(id, tags, track));
    ExactIffNoDrift(s);
    SaveDrifts(s, id, tags, track, p);
    PassesDoNotDrift(saved, steps, p);
    DriftIsConserved(saved, steps, p);
    assert Drift(end, p) == StepDrift(s, SavePost(id, tags, track), p);
    var w := Watermark(end.db, end.posts);
    assert UpTo(end.posts, w) == end.posts.Keys by {
      forall i | i in end.posts ensures i <= w {
        assert i !in Beyond(end.posts, w);
      }
    }
  }

  // The ordinary course of events is enough: after a finished backfill a newly
  // saved post is counted at once, lies above the watermark, and is counted again
  // by the pass of the next boot.
  lemma NextBootCountsTwice(s: State, id: int, tags: set<int>, steps: seq<Step>, p: Pair)
    requires Consistent(s) && s.pass.None? && s.db.watermark.Some? && !NeedsGlobalBackfill(s.db, s.posts)
    requires TagsAt(s.posts, id) == {} && id > s.db.watermark.value
    requires Runs(Next(s, SavePost(id, tags, true)), steps) && PassesOnly(steps)
    requires var end := Run(Next(s, SavePost(id, tags, true)), steps); !NeedsGlobalBackfill(end.db, end.posts)
    ensures var end := Run(Next(s, SavePost(id, tags, true)), steps);
            Count(end.db.counts, p) ==
            |Carrying(end.posts, end.posts.Keys, p)| + if InPost(p, tags) then 1 else 0
  {
    SaveDriftSurvives(s, id, tags, true, steps, p);
  }

  // A prefetched post at or below the watermark is not counted when it is saved,
  // and no pass looks at it again.
  lemma PrefetchedPostStaysUncounted(s: State, id: int, tags: set<int>, steps: seq<Step>, p: Pair)
    requires Consistent(s) && s.pass.None? && s.db.watermark.Some?
    requires TagsAt(s.posts, id) == {} && id <= s.db.watermark.value
    requires Runs(Next(s, SavePost(id, tags, false)), steps) && PassesOnly(steps)
    requires var end := Run(Next(s, SavePost(id, tags, false)), steps); !NeedsGlobalBackfill(end.db, end.posts)
    ensures var end := Run(Next(s, SavePost(id, tags, false)), steps);
            Count(end.db.counts, p) ==
            |Carrying(end.posts, end.posts.Keys, p)| - if InPost(p, tags) then 1 else 0
  {
    assert {} + tags == tags;
    SaveDriftSurvives(s, id, tags, false, steps, p);
  }

  // That pass is always there to run: one batch, and nothing is left.
  lemma NextBootRuns(s: State, id: int, tags: set<int>, p: Pair)
    requires Consistent(s) && s.pass.None? && s.db.watermark.Some? && !NeedsGlobalBackfill(s.db, s.posts)
    requires TagsAt(s.posts, id) == {} && id > s.db.watermark.value && tags != {}
    ensures var steps := [SavePost(id, tags, true), Open, Fetch, Commit, Fetch];
            && Runs(s, steps)
            && var end := Run(s, steps);
               && !NeedsGlobalBackfill(end.db, end.posts)
               && Count(end.db.counts, p) ==
                  |Carrying(end.posts, end.posts.Keys, p)| + if InPost(p, tags) then 1 else 0
  {
    var save, passes := SavePost(id, tags, true), [Open, Fetch, Commit, Fetch];
    var saved := Next(s, save);
    assert Beyond(saved.posts, s.db.watermark.value) == {id} by {
      forall i | i in s.posts ensures i <= s.db.watermark.value {
        assert i !in Beyond(s.posts, s.db.watermark.value);
      }
    }
    PassOverOnePost(saved, id);
    OneMore(s, save, passes);
    assert [save] + passes == [save, Open, Fetch, Commit, Fetch];
    NextBootCountsTwice(s, id, tags, passes, p);
  }

  // One such state, where the pair (1, 2) of two posts ends with a count of three.
  lemma DoubleCountHappens()
    ensures var s := State(Db(map[(1, 2) := 1], Some(5)), map[5 := {1, 2}], None);
            var steps := [SavePost(9, {1, 2}, true), Open, Fetch, Commit, Fetch];
            && Consistent(s) && !NeedsGlobalBackfill(s.db, s.posts) && Runs(s, steps)
            && var end := Run(s, steps);
               Count(end.db.counts, (1, 2)) == |Carrying(end.posts, end.posts.Keys, (1, 2))| + 1
  {
    var s := State(Db(map[(1, 2) := 1], Some(5)), map[5 := {1, 2}], None);
    OnePostIsExact(s);
    assert Beyond(s.posts, 5) == {};
    NextBootRuns(s, 9, {1, 2}, (1, 2));
  }

  // A pass over the one post beyond the watermark.
  lemma PassOverOnePost(s: State, i: int)
    requires s.pass.None? && s.db.watermark.Some? && Beyond(s.posts, s.db.watermark.value) == {i}
    ensures var passes := [Open, Fetch, Commit, Fetch];
            && Runs(s, passes) && Run(s, passes).posts == s.posts && Run(s, passes).db.watermark == Some(i)
            && !NeedsGlobalBackfill(Run(s, passes).db, Run(s, passes).posts)
  {
    var w := s.db.watermark.value;
    var batch := NextBatch(s.posts, w);
    BatchAdvances(s.posts, w);
    forall k | 0 <= k < |batch| ensures batch[k] == i {
      assert batch[k] in batch;
      assert batch[k] in Beyond(s.posts, w);
    }
    BatchOfOne(batch, i);
    var read := Next(Next(s, Open), Fetch);
    var counted := Next(read, Commit);
    assert counted.db.watermark == Some(i) && counted.posts == s.posts;
    assert i in Beyond(s.posts, w);
    assert forall j | j in s.posts && j > i :: j in Beyond(s.posts, w);
    assert Beyond(s.posts, i) == {};
    BatchAdvances(s.posts, i);
    OneMore(counted, Fetch, []);
    OneMore(read, Commit, [Fetch]);
    OneMore(Next(s, Open), Fetch, [Commit, Fetch]);
    OneMore(s, Open, [Fetch, Commit, Fetch]);
    assert [Commit] + [Fetch] == [Commit, Fetch] && [Fetch] + [Commit, Fetch] == [Fetch, Commit, Fetch];
    assert [Open] + [Fetch, Commit, Fetch] == [Open, Fetch, Commit, Fetch] && [Fetch] + [] == [Fetch];
  }

  lemma OneMore(s: State, step: Step, steps: seq<Step>)
    requires Enabled(s, step) && Runs(Next(s, step), steps)
    ensures Runs(s, [step] + steps) && Run(s, [step] + steps) == Run(Next(s, step), steps)
  {
    assert ([step] + steps)[1..] == steps;
  }

  lemma BatchOfOne(batch: seq<int>, i: int)
    requires batch != [] && Distinct(batch) && forall k | 0 <= k < |batch| :: batch[k] == i
    ensures batch == [i]
  {
    assert batch[0] == batch[|batch| - 1];
  }

  lemma OnePostIsExact(s: State)
    requires s == State(Db(map[(1, 2) := 1], Some(5)), map[5 := {1, 2}], None)
    ensures Consistent(s)
  {
    forall p
      ensures Carrying(s.posts, UpTo(s.posts, 5), p) == if p == (1, 2) then {5} else {}
    {
      assert InPost(p, {1, 2}) <==> p == (1, 2);
    }
  }
}
