// The cached "already seen" set of an account against the table query it stands
// in for (parser-api/src/db/feed.rs over parser-api/src/db/hydrate_cache.rs).
// Every operation is atomic.
module SeenSets {
  import opened FeedInteractions
  import HC = HydrateCache

  const DAY: real := 86400.0

  // Days are floored at one.
  function Span(days: int): real {
    if days < 1 then DAY else days as real * DAY
  }

  // The same, spelled out.
  function Seconds(days: int): (s: real)
    ensures s >= 86400.0
  {
    (if days > 1 then days else 1) as real * (24.0 * 60.0 * 60.0)
  }

  // SEEN_POST_IDS_SQL: counted interactions or exposures not older than the cutoff.
  function TableSeen(db: Db, account: int, cutoff: real): set<int> {
    (set k | k in db.log && k.account == account && k.event != Unknown && db.log[k].createdAt >= cutoff :: k.post)
    + (set s | s in db.shown && s.0 == account && db.shown[s].last >= cutoff :: s.1)
  }

  lemma LaterCutoffSeesLess(db: Db, account: int, early: real, late: real)
    requires early <= late
    ensures TableSeen(db, account, late) <= TableSeen(db, account, early)
  {
  }

  // A warm entry holds exactly what the query gives with the cutoff it was built
  // for, however the tables have grown since.
  ghost predicate CacheExact(db: Db, es: HC.Entries, window: real, ttl: real, now: real) {
    forall a | a in es :: ExactEntry(db, a, es[a], window, ttl, now)
  }

  ghost predicate ExactEntry(db: Db, a: int, e: HC.SetEntry, window: real, ttl: real, now: real) {
    Holds(e, TableSeen(db, a, e.insertedAt - window), ttl, now)
  }

  ghost predicate Holds(e: HC.SetEntry, seen: set<int>, ttl: real, now: real) {
    e.insertedAt <= now && (now - e.insertedAt < ttl ==> e.ids == seen)
  }

  // The tables gained `added`, and so did the entry if it was still warm.
  lemma EntryGrows(e: HC.SetEntry, e': HC.SetEntry, seen: set<int>, added: set<int>, ttl: real, since: real, at: real)
    requires since <= at && Holds(e, seen, ttl, since) && e'.insertedAt == e.insertedAt
    requires at - e.insertedAt < ttl ==> e'.ids == e.ids + added
    ensures Holds(e', seen + added, ttl, at)
  {
  }

  // --- how the tables move ------------------------------------------------------------

  function NewPost(db: Db, req: Request, a: int): set<int> {
    if a == req.account && req.Id() !in db.log then {req.post} else {}
  }

  // A new row, whatever its event, adds exactly its post to every window that
  // reaches back from now.
  lemma RecordSeen(db: Db, tags: TagIndex, req: Request, now: real, a: int, cutoff: real)
    requires now >= cutoff
    ensures TableSeen(Record(db, tags, req, now), a, cutoff) ==
            TableSeen(db, a, cutoff) + NewPost(db, req, a)
  {
    if req.Id() !in db.log {
      var db' := Record(db, tags, req, now);
      var k := (req.account, req.post);
      assert db'.log == db.log[req.Id() := Row(req.position, now)];
      assert forall s | s in db.shown && s != k :: s in db'.shown && db'.shown[s] == db.shown[s];
      assert k in db'.shown && db'.shown[k].last == now;
      forall p ensures p in TableSeen(db', a, cutoff) <==>
                       p in TableSeen(db, a, cutoff) || (a == req.account && p == req.post) {
        SeenByShown(db', a, cutoff, p);
        SeenByShown(db, a, cutoff, p);
      }
    }
  }

  // Membership, with the exposure row named.
  lemma SeenByShown(db: Db, a: int, cutoff: real, p: int)
    ensures p in TableSeen(db, a, cutoff) <==>
            || ((a, p) in db.shown && db.shown[(a, p)].last >= cutoff)
            || (exists k ::
                  k in db.log && k.account == a && k.post == p && k.event != Unknown && db.log[k].createdAt >= cutoff)
  {
  }

  // Posts of the rows a batch inserts for one account.
  function NewPosts(log: Log, reqs: seq<Request>, a: int): set<int> {
    set e | e in NewEvents(log, reqs) && e.0 == a :: e.1
  }

  lemma {:induction false} BatchSeen(db: Db, tags: TagIndex, reqs: seq<Request>, now: real, a: int, cutoff: real)
    requires now >= cutoff
    ensures TableSeen(RecordAll(db, tags, reqs, now), a, cutoff) == TableSeen(db, a, cutoff) + NewPosts(db.log, reqs, a)
  {
    if reqs == [] {
      assert NewPosts(db.log, reqs, a) == {};
    } else {
      var init, last := reqs[..|reqs| - 1], reqs[|reqs| - 1];
      BatchSeen(db, tags, init, now, a, cutoff);
      RecordSeen(RecordAll(db, tags, init, now), tags, last, now, a, cutoff);
      InsertedIffNew(db, tags, init, now, last);
      NewPostsStep(db.log, init, last, a);
      assert reqs == init + [last];
    }
  }

  lemma NewPostsStep(log: Log, init: seq<Request>, last: Request, a: int)
    ensures NewPosts(log, init + [last], a) ==
            NewPosts(log, init, a)
            + if a == last.account && last.Id() !in log && !AlreadySent(last, init) then {last.post} else {}
  {
    NewEventsStep(log, init, last);
  }

  // Undo and clear reach no other account.
  lemma UndoIsLocal(db: Db, tags: TagIndex, req: Request, a: int, cutoff: real)
    requires a != req.account || req.Id() !in db.log
    ensures TableSeen(Undo(db, tags, req), a, cutoff) == TableSeen(db, a, cutoff)
  {
    forall p ensures p in TableSeen(Undo(db, tags, req), a, cutoff) <==> p in TableSeen(db, a, cutoff) {
      SeenByShown(Undo(db, tags, req), a, cutoff, p);
      SeenByShown(db, a, cutoff, p);
    }
  }

  lemma ClearIsLocal(db: Db, account: int, a: int, cutoff: real)
    requires a != account
    ensures TableSeen(Clear(db, account), a, cutoff) == TableSeen(db, a, cutoff)
  {
    forall p ensures p in TableSeen(Clear(db, account), a, cutoff) <==> p in TableSeen(db, a, cutoff) {
      SeenByShown(Clear(db, account), a, cutoff, p);
      SeenByShown(db, a, cutoff, p);
    }
  }

  // Pruning removes only exposures no window still reaches.
  lemma PruneIsOutsideWindow(db: Db, pruneBefore: real, a: int, cutoff: real)
    requires pruneBefore <= cutoff
    ensures TableSeen(Prune(db, pruneBefore), a, cutoff) == TableSeen(db, a, cutoff)
  {
  }

  // --- one cache over any sequence of operations -----------------------------------------

  datatype State = State(db: Db, cache: HC.Entries)

  datatype Step =
    | RecordOne(req: Request, at: real)
    | RecordMany(reqs: seq<Request>, at: real)
    | UndoOne(req: Request, at: real)
    | ClearAccount(account: int, at: real)
    | PruneShown(retentionDays: int, at: real)
    | Read(account: int, evicted: set<int>, at: real)

  // Accounts with new rows, and those rows' posts: what a batch merges.
  ghost function NewlySeen(log: Log, reqs: seq<Request>): map<int, set<int>> {
    map a | a in (set e | e in NewEvents(log, reqs) :: e.0) :: NewPosts(log, reqs, a)
  }

  ghost function Next(s: State, tags: TagIndex, window: real, ttl: real, step: Step): State {
    match step
    case RecordOne(req, at) =>
      State(Record(s.db, tags, req, at),
            if req.Id() in s.db.log then s.cache else HC.Merged(s.cache, req.account, {req.post}, ttl, at))
    case RecordMany(reqs, at) =>
      State(RecordAll(s.db, tags, reqs, at), HC.MergedAll(s.cache, NewlySeen(s.db.log, reqs), ttl, at))
    case UndoOne(req, at) =>
      State(Undo(s.db, tags, req), if req.Id() in s.db.log then s.cache - {req.account} else s.cache)
    case ClearAccount(account, at) => State(Clear(s.db, account), s.cache - {account})
    case PruneShown(days, at) => State(Prune(s.db, at - Span(days)), s.cache)
    case Read(account, evicted, at) =>
      if HC.IsWarm(s.cache, account, ttl, at) then s
      else State(s.db, HC.Refilled(s.cache, account, TableSeen(s.db, account, at - window), ttl, at) - evicted)
  }

  // What a read returns.
  ghost function Answer(s: State, window: real, ttl: real, account: int, at: real): set<int> {
    if HC.IsWarm(s.cache, account, ttl, at) then s.cache[account].ids else TableSeen(s.db, account, at - window)
  }

  // `seen` is the query's answer for the cutoff of `built`, less than one TTL before `at`.
  ghost predicate BuiltAt(db: Db, account: int, seen: set<int>, built: real, ttl: real, at: real, window: real) {
    at - ttl < built <= at && seen == TableSeen(db, account, built - window)
  }

  // The read lies between the query with today's cutoff and the query with the
  // cutoff of a moment less than one TTL ago.
  ghost predicate Sandwiched(s: State, window: real, ttl: real, account: int, at: real) {
    var seen := Answer(s, window, ttl, account, at);
    && TableSeen(s.db, account, at - window) <= seen
    && exists built: real :: BuiltAt(s.db, account, seen, built, ttl, at, window)
  }

  // Prunes keep at least a window and a TTL of history.
  ghost predicate LegalStep(s: Step, window: real, ttl: real) {
    s.PruneShown? ==> Span(s.retentionDays) >= window + ttl
  }

  lemma NewlySeenIsNewPosts(log: Log, reqs: seq<Request>, a: int)
    ensures NewPosts(log, reqs, a) == if a in NewlySeen(log, reqs) then NewlySeen(log, reqs)[a] else {}
  {
    if a !in NewlySeen(log, reqs) {
      forall e | e in NewEvents(log, reqs) ensures e.0 != a {
        assert e.0 in (set e | e in NewEvents(log, reqs) :: e.0);
      }
    }
  }

  lemma RecordEntry(
      db: Db, tags: TagIndex, req: Request, at: real, a: int, e: HC.SetEntry, e': HC.SetEntry, window: real,
      ttl: real, since: real)
    requires window >= 0.0 && since <= at && ExactEntry(db, a, e, window, ttl, since) && e'.insertedAt == e.insertedAt
    requires at - e.insertedAt < ttl ==> e'.ids == e.ids + NewPost(db, req, a)
    ensures ExactEntry(Record(db, tags, req, at), a, e', window, ttl, at)
  {
    var cutoff := e.insertedAt - window;
    RecordSeen(db, tags, req, at, a, cutoff);
    EntryGrows(e, e', TableSeen(db, a, cutoff), NewPost(db, req, a), ttl, since, at);
  }

  lemma BatchEntry(
      db: Db, tags: TagIndex, reqs: seq<Request>, at: real, a: int, e: HC.SetEntry, e': HC.SetEntry,
      window: real, ttl: real, since: real)
    requires window >= 0.0 && since <= at && ExactEntry(db, a, e, window, ttl, since) && e'.insertedAt == e.insertedAt
    requires at - e.insertedAt < ttl ==> e'.ids == e.ids + NewPosts(db.log, reqs, a)
    ensures ExactEntry(RecordAll(db, tags, reqs, at), a, e', window, ttl, at)
  {
    var cutoff := e.insertedAt - window;
    BatchSeen(db, tags, reqs, at, a, cutoff);
    EntryGrows(e, e', TableSeen(db, a, cutoff), NewPosts(db.log, reqs, a), ttl, since, at);
  }

  lemma RecordKeepsExact(s: State, tags: TagIndex, req: Request, at: real, window: real, ttl: real, since: real)
    requires window >= 0.0 && since <= at && CacheExact(s.db, s.cache, window, ttl, since)
    ensures var s' := Next(s, tags, window, ttl, RecordOne(req, at)); CacheExact(s'.db, s'.cache, window, ttl, at)
  {
    forall a | a in s.cache
      ensures var s' := Next(s, tags, window, ttl, RecordOne(req, at));
              ExactEntry(s'.db, a, s'.cache[a], window, ttl, at)
    {
      var s' := Next(s, tags, window, ttl, RecordOne(req, at));
      assert s.cache[a].ids + {} == s.cache[a].ids;
      RecordEntry(s.db, tags, req, at, a, s.cache[a], s'.cache[a], window, ttl, since);
    }
  }

  lemma BatchKeepsExact(s: State, tags: TagIndex, reqs: seq<Request>, at: real, window: real, ttl: real, since: real)
    requires window >= 0.0 && since <= at && CacheExact(s.db, s.cache, window, ttl, since)
    ensures var s' := Next(s, tags, window, ttl, RecordMany(reqs, at)); CacheExact(s'.db, s'.cache, window, ttl, at)
  {
    var merged := HC.MergedAll(s.cache, NewlySeen(s.db.log, reqs), ttl, at);
    forall a | a in merged ensures ExactEntry(RecordAll(s.db, tags, reqs, at), a, merged[a], window, ttl, at) {
      NewlySeenIsNewPosts(s.db.log, reqs, a);
      assert s.cache[a].ids + {} == s.cache[a].ids;
      BatchEntry(s.db, tags, reqs, at, a, s.cache[a], merged[a], window, ttl, since);
    }
  }

  // A step that leaves the account's windows alone leaves its entry exact.
  lemma SameTablesSameEntry(db: Db, db': Db, a: int, e: HC.SetEntry, window: real, ttl: real, since: real, at: real)
    requires since <= at && ExactEntry(db, a, e, window, ttl, since)
    requires at - e.insertedAt < ttl ==>
               TableSeen(db', a, e.insertedAt - window) == TableSeen(db, a, e.insertedAt - window)
    ensures ExactEntry(db', a, e, window, ttl, at)
  {
  }

  lemma UndoEntry(
      db: Db, tags: TagIndex, req: Request, at: real, a: int, e: HC.SetEntry, window: real, ttl: real,
      since: real)
    requires since <= at && ExactEntry(db, a, e, window, ttl, since) && (a != req.account || req.Id() !in db.log)
    ensures ExactEntry(Undo(db, tags, req), a, e, window, ttl, at)
  {
    UndoIsLocal(db, tags, req, a, e.insertedAt - window);
    SameTablesSameEntry(db, Undo(db, tags, req), a, e, window, ttl, since, at);
  }

  lemma ClearEntry(db: Db, account: int, at: real, a: int, e: HC.SetEntry, window: real, ttl: real, since: real)
    requires since <= at && ExactEntry(db, a, e, window, ttl, since) && a != account
    ensures ExactEntry(Clear(db, account), a, e, window, ttl, at)
  {
    ClearIsLocal(db, account, a, e.insertedAt - window);
    SameTablesSameEntry(db, Clear(db, account), a, e, window, ttl, since, at);
  }

  lemma PruneEntry(db: Db, before: real, at: real, a: int, e: HC.SetEntry, window: real, ttl: real, since: real)
    requires since <= at && ExactEntry(db, a, e, window, ttl, since) && before <= at - window - ttl
    ensures ExactEntry(Prune(db, before), a, e, window, ttl, at)
  {
    if at - e.insertedAt < ttl {
      PruneIsOutsideWindow(db, before, a, e.insertedAt - window);
    }
    SameTablesSameEntry(db, Prune(db, before), a, e, window, ttl, since, at);
  }

  lemma UndoKeepsExact(s: State, tags: TagIndex, req: Request, at: real, window: real, ttl: real, since: real)
    requires since <= at && CacheExact(s.db, s.cache, window, ttl, since)
    ensures var s' := Next(s, tags, window, ttl, UndoOne(req, at)); CacheExact(s'.db, s'.cache, window, ttl, at)
  {
    forall a | a in s.cache && (a != req.account || req.Id() !in s.db.log)
      ensures ExactEntry(Undo(s.db, tags, req), a, s.cache[a], window, ttl, at)
    {
      UndoEntry(s.db, tags, req, at, a, s.cache[a], window, ttl, since);
    }
  }

  lemma ClearKeepsExact(s: State, tags: TagIndex, account: int, at: real, window: real, ttl: real, since: real)
    requires since <= at && CacheExact(s.db, s.cache, window, ttl, since)
    ensures var s' := Next(s, tags, window, ttl, ClearAccount(account, at));
            CacheExact(s'.db, s'.cache, window, ttl, at)
  {
    forall a | a in s.cache && a != account ensures ExactEntry(Clear(s.db, account), a, s.cache[a], window, ttl, at) {
      ClearEntry(s.db, account, at, a, s.cache[a], window, ttl, since);
    }
  }

  lemma PruneKeepsExact(s: State, tags: TagIndex, days: int, at: real, window: real, ttl: real, since: real)
    requires since <= at && CacheExact(s.db, s.cache, window, ttl, since) && Span(days) >= window + ttl
    ensures var s' := Next(s, tags, window, ttl, PruneShown(days, at)); CacheExact(s'.db, s'.cache, window, ttl, at)
  {
    PruneKeepsEntries(s.db, s.cache, at - Span(days), at, window, ttl, since);
  }

  lemma PruneKeepsEntries(db: Db, es: HC.Entries, before: real, at: real, window: real, ttl: real, since: real)
    requires since <= at && CacheExact(db, es, window, ttl, since) && before <= at - window - ttl
    ensures CacheExact(Prune(db, before), es, window, ttl, at)
  {
    forall a | a in es ensures ExactEntry(Prune(db, before), a, es[a], window, ttl, at) {
      PruneEntry(db, before, at, a, es[a], window, ttl, since);
    }
  }

  lemma ReadKeepsExact(
      s: State, tags: TagIndex, account: int, evicted: set<int>, at: real, window: real, ttl: real, since: real)
    requires since <= at && CacheExact(s.db, s.cache, window, ttl, since)
    ensures var s' := Next(s, tags, window, ttl, Read(account, evicted, at));
            CacheExact(s'.db, s'.cache, window, ttl, at)
  {
    var s' := Next(s, tags, window, ttl, Read(account, evicted, at));
    forall a | a in s'.cache ensures ExactEntry(s'.db, a, s'.cache[a], window, ttl, at) {
      if a in s.cache {
        assert ExactEntry(s.db, a, s.cache[a], window, ttl, since);
      }
    }
  }

  lemma StepKeepsExact(s: State, tags: TagIndex, window: real, ttl: real, step: Step, since: real)
    requires window >= 0.0 && ttl > 0.0 && since <= step.at && LegalStep(step, window, ttl)
    requires CacheExact(s.db, s.cache, window, ttl, since)
    ensures var s' := Next(s, tags, window, ttl, step); CacheExact(s'.db, s'.cache, window, ttl, step.at)
  {
    match step
    case RecordOne(req, at) => RecordKeepsExact(s, tags, req, at, window, ttl, since);
    case RecordMany(reqs, at) => BatchKeepsExact(s, tags, reqs, at, window, ttl, since);
    case UndoOne(req, at) => UndoKeepsExact(s, tags, req, at, window, ttl, since);
    case ClearAccount(account, at) => ClearKeepsExact(s, tags, account, at, window, ttl, since);
    case PruneShown(days, at) => PruneKeepsExact(s, tags, days, at, window, ttl, since);
    case Read(account, evicted, at) => ReadKeepsExact(s, tags, account, evicted, at, window, ttl, since);
  }

  ghost predicate LegalRun(steps: seq<Step>, window: real, ttl: real, since: real) {
    && (forall i | 0 <= i < |steps| :: LegalStep(steps[i], window, ttl) && steps[i].at >= since)
    && (forall i, j | 0 <= i < j < |steps| :: steps[i].at <= steps[j].at)
  }

  ghost function Run(s: State, tags: TagIndex, window: real, ttl: real, steps: seq<Step>): State {
    if steps == [] then s
    else Next(Run(s, tags, window, ttl, steps[..|steps| - 1]), tags, window, ttl, steps[|steps| - 1])
  }

  ghost function Clock(steps: seq<Step>, since: real): real {
    if steps == [] then since else steps[|steps| - 1].at
  }

  lemma {:induction false} EveryRunIsExact(
      s: State, tags: TagIndex, window: real, ttl: real, steps: seq<Step>, since: real)
    requires window >= 0.0 && ttl > 0.0 && LegalRun(steps, window, ttl, since)
    requires CacheExact(s.db, s.cache, window, ttl, since)
    ensures var s' := Run(s, tags, window, ttl, steps);
            CacheExact(s'.db, s'.cache, window, ttl, Clock(steps, since))
  {
    if steps == [] {
    } else {
      var init, last := steps[..|steps| - 1], steps[|steps| - 1];
      assert forall i | 0 <= i < |init| :: init[i] == steps[i];
      EveryRunIsExact(s, tags, window, ttl, init, since);
      StepKeepsExact(Run(s, tags, window, ttl, init), tags, window, ttl, last, Clock(init, since));
    }
  }

  lemma ExactMeansSandwiched(s: State, window: real, ttl: real, account: int, at: real)
    requires ttl > 0.0 && CacheExact(s.db, s.cache, window, ttl, at)
    ensures Sandwiched(s, window, ttl, account, at)
  {
    var built := if HC.IsWarm(s.cache, account, ttl, at) then s.cache[account].insertedAt else at;
    LaterCutoffSeesLess(s.db, account, built - window, at - window);
    assert HC.IsWarm(s.cache, account, ttl, at) ==> ExactEntry(s.db, account, s.cache[account], window, ttl, at);
    assert BuiltAt(s.db, account, Answer(s, window, ttl, account, at), built, ttl, at, window);
  }

  // After any run of records, batches, undos, clears, prunes and reads from an
  // empty cache, every read is sandwiched: it misses nothing inside the window
  // and keeps nothing older than the window was one TTL ago.
  lemma EveryReadIsSandwiched(
      db: Db, tags: TagIndex, days: int, ttl: real, steps: seq<Step>, since: real, account: int, at: real)
    requires ttl > 0.0 && LegalRun(steps, Span(days), ttl, since) && at >= Clock(steps, since)
    ensures Sandwiched(Run(State(db, map[]), tags, Span(days), ttl, steps), Span(days), ttl, account, at)
  {
    var s := Run(State(db, map[]), tags, Span(days), ttl, steps);
    EveryRunIsExact(State(db, map[]), tags, Span(days), ttl, steps, since);
    ExactMeansSandwiched(s, Span(days), ttl, account, at);
  }

  // As shipped: time moves forward and every prune keeps 90 days.
  ghost predicate ShippedRun(steps: seq<Step>, since: real) {
    && (forall i | 0 <= i < |steps| ::
          steps[i].at >= since && (steps[i].PruneShown? ==> steps[i].retentionDays == 90))
    && (forall i, j | 0 <= i < j < |steps| :: steps[i].at <= steps[j].at)
  }

  // With the shipped TTLs and prunes and any window of at most 60 days, which the
  // 90 days leave room for, every read of either cache is sandwiched.
  lemma ShippedReadsAreSandwiched(
      db: Db, tags: TagIndex, days: int, ttl: real, steps: seq<Step>, since: real, account: int, at: real)
    requires days <= 60 && (ttl == 20.0 || ttl == 30.0)
    requires ShippedRun(steps, since) && at >= Clock(steps, since)
    ensures Sandwiched(Run(State(db, map[]), tags, Seconds(days), ttl, steps), Seconds(days), ttl, account, at)
  {
    assert Seconds(days) == Span(days) && Span(90) >= Span(days) + ttl;
    EveryReadIsSandwiched(db, tags, days, ttl, steps, since, account, at);
  }

  // --- what a read leaves behind ---------------------------------------------------------

  // No step of the run drops the account's entry: no undo or clear of the account,
  // and no other account's refill evicts it.
  ghost predicate Spares(steps: seq<Step>, account: int) {
    forall i | 0 <= i < |steps| ::
      match steps[i]
      case UndoOne(req, _) => req.account != account
      case ClearAccount(a, _) => a != account
      case Read(_, evicted, _) => account !in evicted
      case RecordOne(_, _) => true
      case RecordMany(_, _) => true
      case PruneShown(_, _) => true
  }

  // The entry of a read at `built`, with whatever was merged since.
  ghost predicate Remembers(es: HC.Entries, account: int, seen: set<int>, built: real) {
    account in es && es[account].insertedAt == built && seen <= es[account].ids
  }

  // A read that missed is remembered: for one TTL, as long as the account is neither
  // undone, cleared nor evicted, later reads are answered from what it stored.
  lemma {:induction false} ReadIsRemembered(
      s: State, tags: TagIndex, window: real, ttl: real, account: int, evicted: set<int>, built: real,
      steps: seq<Step>)
    requires !HC.IsWarm(s.cache, account, ttl, built) && account !in evicted
    requires Spares(steps, account) && forall i | 0 <= i < |steps| :: steps[i].at < built + ttl
    ensures var s' := Run(Next(s, tags, window, ttl, Read(account, evicted, built)), tags, window, ttl, steps);
            Remembers(s'.cache, account, TableSeen(s.db, account, built - window), built)
    ensures forall at: real | at < built + ttl ::
              var s' := Run(Next(s, tags, window, ttl, Read(account, evicted, built)), tags, window, ttl, steps);
              HC.IsWarm(s'.cache, account, ttl, at)
              && TableSeen(s.db, account, built - window) <= Answer(s', window, ttl, account, at)
  {
    if steps == [] {
    } else {
      var init := steps[..|steps| - 1];
      assert forall i | 0 <= i < |init| :: init[i] == steps[i];
      ReadIsRemembered(s, tags, window, ttl, account, evicted, built, init);
    }
  }

  // Only records of the account bring its rows back.
  ghost predicate RecordsFor(step: Step, account: int) {
    match step
    case RecordOne(req, _) => req.account == account
    case RecordMany(reqs, _) => exists r :: r in reqs && r.account == account
    case UndoOne(_, _) => false
    case ClearAccount(_, _) => false
    case PruneShown(_, _) => false
    case Read(_, _, _) => false
  }

  // Neither the tables nor the cache know a post of the account.
  ghost predicate Forgotten(s: State, account: int) {
    NoRowsOf(s.db, account) && (account in s.cache ==> s.cache[account].ids == {})
  }

  lemma {:induction false} BatchOfOthers(db: Db, tags: TagIndex, reqs: seq<Request>, now: real, account: int)
    requires NoRowsOf(db, account) && forall r | r in reqs :: r.account != account
    ensures NoRowsOf(RecordAll(db, tags, reqs, now), account)
    ensures forall e | e in NewEvents(db.log, reqs) :: e.0 != account
  {
    if reqs == [] {
    } else {
      var init, last := reqs[..|reqs| - 1], reqs[|reqs| - 1];
      assert reqs == init + [last];
      BatchOfOthers(db, tags, init, now, account);
      RecordOfOthers(RecordAll(db, tags, init, now), tags, last, now, account);
    }
  }

  lemma RecordOfOthers(db: Db, tags: TagIndex, req: Request, now: real, account: int)
    requires NoRowsOf(db, account) && req.account != account
    ensures NoRowsOf(Record(db, tags, req, now), account)
  {
  }

  lemma StepKeepsForgotten(s: State, tags: TagIndex, window: real, ttl: real, step: Step, account: int)
    requires Forgotten(s, account) && !RecordsFor(step, account)
    ensures Forgotten(Next(s, tags, window, ttl, step), account)
  {
    match step
    case RecordOne(req, at) => RecordOfOthers(s.db, tags, req, at, account);
    case RecordMany(reqs, at) =>
      BatchOfOthers(s.db, tags, reqs, at, account);
      assert account !in NewlySeen(s.db.log, reqs);
    case Read(a, evicted, at) => assert TableSeen(s.db, account, at - window) == {};
    case UndoOne(_, _) =>
    case ClearAccount(_, _) =>
    case PruneShown(_, _) =>
  }

  // After a clear, and until something new is recorded for the account, every read
  // of it is empty, whatever was cached before and whatever others do.
  lemma {:induction false} ClearedAccountReadsEmpty(
      s: State, tags: TagIndex, window: real, ttl: real, account: int, cleared: real, steps: seq<Step>, at: real)
    requires forall i | 0 <= i < |steps| :: !RecordsFor(steps[i], account)
    ensures var s' := Run(Next(s, tags, window, ttl, ClearAccount(account, cleared)), tags, window, ttl, steps);
            Forgotten(s', account) && Answer(s', window, ttl, account, at) == {}
  {
    if steps == [] {
      ClearForgets(s.db, account);
    } else {
      var init := steps[..|steps| - 1];
      assert forall i | 0 <= i < |init| :: init[i] == steps[i];
      ClearedAccountReadsEmpty(s, tags, window, ttl, account, cleared, init, at);
      var before := Run(Next(s, tags, window, ttl, ClearAccount(account, cleared)), tags, window, ttl, init);
      StepKeepsForgotten(before, tags, window, ttl, steps[|steps| - 1], account);
    }
  }

  // The first of the import's items to name a key the log does not hold yet; the
  // others are ignored.
  ghost predicate IsNewItem(log: Log, account: int, items: seq<(int, EventType, Row)>, i: nat) {
    && i < |items|
    && RestoreKey(account, items[i]) !in log
    && forall j | 0 <= j < i :: RestoreKey(account, items[j]) != RestoreKey(account, items[i])
  }

  function RestoreKey(account: int, item: (int, EventType, Row)): Key {
    Key(account, item.0, item.1, INTERACTION_RESTORE_SESSION)
  }

  // A new item is in a window if its event counts and it is recent enough.
  ghost predicate Shows(item: (int, EventType, Row), cutoff: real) {
    item.1 != Unknown && item.2.createdAt >= cutoff
  }

  lemma EarlierItemsAreNewAlike(log: Log, account: int, items: seq<(int, EventType, Row)>, i: nat)
    requires i + 1 < |items|
    ensures IsNewItem(log, account, items, i) <==> IsNewItem(log, account, items[..|items| - 1], i)
  {
    var init := items[..|items| - 1];
    assert forall j | 0 <= j <= i :: items[j] == init[j];
  }

  // Item `i` is new and names `k`.
  ghost predicate NewItemFor(log: Log, account: int, items: seq<(int, EventType, Row)>, k: Key, i: nat) {
    IsNewItem(log, account, items, i) && RestoreKey(account, items[i]) == k
  }

  // A restored log adds exactly its new items, with their own rows.
  ghost predicate AddsNewItem(log: Log, account: int, items: seq<(int, EventType, Row)>, k: Key) {
    var replayed := ReplayedLog(log, account, items);
    && (k in log ==> k in replayed && replayed[k] == log[k])
    && (k in replayed && k !in log ==> exists i: nat :: NewItemFor(log, account, items, k, i))
    && (forall i: nat | NewItemFor(log, account, items, k, i) :: k in replayed && replayed[k] == items[i].2)
  }

  lemma {:induction false} ReplayAddsNewItem(log: Log, account: int, items: seq<(int, EventType, Row)>, k: Key)
    ensures AddsNewItem(log, account, items, k)
  {
    if items == [] {
    } else {
      var n := |items| - 1;
      ReplayAddsNewItem(log, account, items[..n], k);
      LastItemAddsIfNew(log, account, items, k);
    }
  }

  lemma LastItemAddsIfNew(log: Log, account: int, items: seq<(int, EventType, Row)>, k: Key)
    requires items != [] && AddsNewItem(log, account, items[..|items| - 1], k)
    ensures AddsNewItem(log, account, items, k)
  {
    var n := |items| - 1;
    var init, last := items[..n], RestoreKey(account, items[n]);
    var before, after := ReplayedLog(log, account, init), ReplayedLog(log, account, items);
    assert after == if last in before then before else before[last := items[n].2];
    forall i: nat | i < n ensures NewItemFor(log, account, items, k, i) <==> NewItemFor(log, account, init, k, i) {
      EarlierItemsAreNewAlike(log, account, items, i);
      assert items[i] == init[i];
    }
    if k == last {
      LastItemIsNewIff(log, account, items);
      assert NewItemFor(log, account, items, k, n) <==> last !in before;
    } else {
      assert !NewItemFor(log, account, items, k, n);
    }
    if k in after && k !in log {
      if k in before {
        var i: nat :| NewItemFor(log, account, init, k, i);
        assert NewItemFor(log, account, items, k, i);
      } else {
        assert NewItemFor(log, account, items, k, n);
      }
    }
  }

  lemma LastItemIsNewIff(log: Log, account: int, items: seq<(int, EventType, Row)>)
    requires items != []
    requires AddsNewItem(log, account, items[..|items| - 1], RestoreKey(account, items[|items| - 1]))
    ensures IsNewItem(log, account, items, |items| - 1) <==>
            RestoreKey(account, items[|items| - 1]) !in ReplayedLog(log, account, items[..|items| - 1])
  {
    var n := |items| - 1;
    var init, last := items[..n], RestoreKey(account, items[n]);
    if j :| 0 <= j < n && RestoreKey(account, items[j]) == last {
      EarlierItemIsReplayed(log, account, init, j);
    }
    if last in ReplayedLog(log, account, init) && last !in log {
      var i: nat :| NewItemFor(log, account, init, last, i);
      assert items[i] == init[i];
    }
  }

  lemma {:induction false} EarlierItemIsReplayed(log: Log, account: int, items: seq<(int, EventType, Row)>, j: nat)
    requires j < |items|
    ensures RestoreKey(account, items[j]) in ReplayedLog(log, account, items)
  {
    if j == |items| - 1 {
    } else {
      EarlierItemIsReplayed(log, account, items[..|items| - 1], j);
    }
  }

  // Restoring an import does not touch the caches. A warm entry stays exact
  // exactly when every new item that its window shows is of a post it already
  // holds.
  lemma RestoreIsNotMerged(
      s: State, tags: TagIndex, account: int, items: seq<(int, EventType, Row)>, window: real, ttl: real, now: real)
    requires CacheExact(s.db, s.cache, window, ttl, now) && HC.IsWarm(s.cache, account, ttl, now)
    ensures var e := s.cache[account];
            ExactEntry(Restored(s.db, tags, account, items), account, e, window, ttl, now) <==>
            forall i: nat | IsNewItem(s.db.log, account, items, i) && Shows(items[i], e.insertedAt - window) ::
              items[i].0 in e.ids
  {
    var e := s.cache[account];
    var cutoff := e.insertedAt - window;
    var db' := Restored(s.db, tags, account, items);
    assert ExactEntry(s.db, account, e, window, ttl, now);
    RestoredWindow(s.db, db', account, items, cutoff);
  }

  // The restored window is the old one exactly when its new items are in there.
  lemma RestoredWindow(db: Db, db': Db, account: int, items: seq<(int, EventType, Row)>, cutoff: real)
    requires db'.log == ReplayedLog(db.log, account, items) && db'.shown == db.shown
    ensures TableSeen(db', account, cutoff) == TableSeen(db, account, cutoff) <==>
            forall i: nat | IsNewItem(db.log, account, items, i) && Shows(items[i], cutoff) ::
              items[i].0 in TableSeen(db, account, cutoff)
  {
    forall p ensures p in TableSeen(db', account, cutoff) <==>
                     p in TableSeen(db, account, cutoff) || ShownByNewItem(db.log, account, items, cutoff, p)
    {
      RestoredPostIsSeen(db, db', account, items, cutoff, p);
    }
    forall i: nat | IsNewItem(db.log, account, items, i) && Shows(items[i], cutoff)
      ensures ShownByNewItem(db.log, account, items, cutoff, items[i].0)
    {
    }
  }

  ghost predicate ShownByNewItem(
      log: Log, account: int, items: seq<(int, EventType, Row)>, cutoff: real, p: int) {
    exists i: nat :: IsNewItem(log, account, items, i) && Shows(items[i], cutoff) && items[i].0 == p
  }

  lemma RestoredPostIsSeen(
      db: Db, db': Db, account: int, items: seq<(int, EventType, Row)>, cutoff: real, p: int)
    requires db'.log == ReplayedLog(db.log, account, items) && db'.shown == db.shown
    ensures p in TableSeen(db', account, cutoff) <==>
            p in TableSeen(db, account, cutoff) || ShownByNewItem(db.log, account, items, cutoff, p)
  {
    ReplayTouchesOneAccount(db.log, account, items);
    SeenByShown(db', account, cutoff, p);
    SeenByShown(db, account, cutoff, p);
    forall k ensures AddsNewItem(db.log, account, items, k) {
      ReplayAddsNewItem(db.log, account, items, k);
    }
    if k :| k in db'.log && k !in db.log && k.post == p && k.event != Unknown && db'.log[k].createdAt >= cutoff {
      assert AddsNewItem(db.log, account, items, k);
      var i: nat :| NewItemFor(db.log, account, items, k, i);
      assert Shows(items[i], cutoff) && items[i].0 == p;
    }
    if ShownByNewItem(db.log, account, items, cutoff, p) {
      var i: nat :| IsNewItem(db.log, account, items, i) && Shows(items[i], cutoff) && items[i].0 == p;
      var k := RestoreKey(account, items[i]);
      assert AddsNewItem(db.log, account, items, k) && NewItemFor(db.log, account, items, k, i);
      assert k in db'.log && k.account == account && k.post == p;
    }
  }

  // One counted sighting inside the window, of a post the entry lacks and under a
  // key not logged, is enough.
  lemma OneRestoredSightingIsMissed(
      s: State, tags: TagIndex, account: int, item: (int, EventType, Row), window: real, ttl: real, now: real)
    requires CacheExact(s.db, s.cache, window, ttl, now) && HC.IsWarm(s.cache, account, ttl, now)
    requires Shows(item, s.cache[account].insertedAt - window)
    requires item.0 !in s.cache[account].ids && RestoreKey(account, item) !in s.db.log
    ensures !ExactEntry(Restored(s.db, tags, account, [item]), account, s.cache[account], window, ttl, now)
  {
    RestoreIsNotMerged(s, tags, account, [item], window, ttl, now);
    assert IsNewItem(s.db.log, account, [item], 0);
  }

  // Such a state: an empty cache refilled from empty tables just before.
  lemma RestoreIsMissedByAWarmEntry(tags: TagIndex, window: real, ttl: real)
    requires window >= 0.0 && ttl > 0.0
    ensures var db := Db(map[], map[], map[]);
            var cache: HC.Entries := map[7 := HC.SetEntry({}, 0.0)];
            && CacheExact(db, cache, window, ttl, 0.0)
            && !CacheExact(Restored(db, tags, 7, [(3, Open, Row(0, 0.0))]), cache, window, ttl, 0.0)
  {
    var db := Db(map[], map[], map[]);
    var cache: HC.Entries := map[7 := HC.SetEntry({}, 0.0)];
    assert TableSeen(db, 7, 0.0 - window) == {};
    assert ExactEntry(db, 7, cache[7], window, ttl, 0.0);
    OneRestoredSightingIsMissed(State(db, cache), tags, 7, (3, Open, Row(0, 0.0)), window, ttl, 0.0);
  }
}
