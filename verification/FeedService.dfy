// The operations of parser-api/src/db/feed.rs over the interaction tables, with
// the merge into or clearing of the two seen caches that follows each commit. Each
// is proved to be a step of the machines in FeedInteractions and SeenSets.
module FeedService {
  import opened FeedInteractions
  import opened SeenSets
  import HC = HydrateCache

  datatype Result<T> = Ok(value: T) | OutOfScope

  // Posts of one account's events, in order.
  function PostsOf(events: seq<(int, int)>, account: int): seq<int> {
    if events == [] then []
    else PostsOf(events[..|events| - 1], account)
         + if events[|events| - 1].0 == account then [events[|events| - 1].1] else []
  }

  ghost function Paired(account: int, posts: seq<int>): seq<(int, int)> {
    if posts == [] then [] else Paired(account, posts[..|posts| - 1]) + [(account, posts[|posts| - 1])]
  }

  lemma PairedAppends(account: int, posts: seq<int>, p: int)
    ensures Paired(account, posts + [p]) == Paired(account, posts) + [(account, p)]
  {
    assert (posts + [p])[..|posts|] == posts;
  }

  lemma {:induction false} PairedPosts(events: seq<(int, int)>, account: int, k: (int, int))
    ensures multiset(Paired(account, PostsOf(events, account)))[k] == if k.0 == account then multiset(events)[k] else 0
  {
    if events == [] {
    } else {
      var init, last := events[..|events| - 1], events[|events| - 1];
      assert events == init + [last] && last == (last.0, last.1);
      PairedPosts(init, account, k);
      PairedAppends(account, PostsOf(init, account), last.1);
      assert PostsOf(events, account) ==
                if last.0 == account then PostsOf(init, account) + [last.1] else PostsOf(init, account);
      CountAppends(init, last, k);
      CountAppends(Paired(account, PostsOf(init, account)), (account, last.1), k);
    }
  }

  lemma CountAppends<T>(xs: seq<T>, x: T, k: T)
    ensures multiset(xs + [x])[k] == multiset(xs)[k] + if x == k then 1 else 0
  {
  }

  lemma {:induction false} PostsOfMembers(events: seq<(int, int)>, account: int, p: int)
    ensures p in PostsOf(events, account) <==> (account, p) in events
  {
    if events == [] {
    } else {
      var init, last := events[..|events| - 1], events[|events| - 1];
      assert events == init + [last];
      PostsOfMembers(init, account, p);
      assert last == (last.0, last.1);
    }
  }

  lemma {:induction false} ExposeConcat(shown: Exposures, a: seq<(int, int)>, b: seq<(int, int)>, now: real)
    ensures ExposeAll(shown, a + b, now) == ExposeAll(ExposeAll(shown, a, now), b, now)
  {
    if b == [] {
      assert a + b == a;
    } else {
      ExposeConcat(shown, a, b[..|b| - 1], now);
      assert (a + b)[..|a + b| - 1] == a + b[..|b| - 1];
    }
  }

  // Events grouped per account, as the batch collects them.
  ghost predicate Grouped(groups: map<int, seq<int>>, events: seq<(int, int)>) {
    && (forall a | a in groups :: groups[a] == PostsOf(events, a) && groups[a] != [])
    && (forall e | e in events :: e.0 in groups)
  }

  lemma PostsMeanGroup(groups: map<int, seq<int>>, events: seq<(int, int)>, account: int)
    requires Grouped(groups, events) && PostsOf(events, account) != []
    ensures account in groups
  {
    var p := PostsOf(events, account)[0];
    PostsOfMembers(events, account, p);
    assert (account, p).0 == account;
  }

  lemma GroupedAppends(groups: map<int, seq<int>>, events: seq<(int, int)>, account: int, post: int)
    requires Grouped(groups, events)
    ensures var posts := if account in groups then groups[account] else [];
            Grouped(groups[account := posts + [post]], events + [(account, post)])
  {
    var events' := events + [(account, post)];
    assert events'[..|events|] == events;
    if PostsOf(events, account) != [] {
      PostsMeanGroup(groups, events, account);
    }
  }

  // `done` holds every event of the accounts no longer pending, and no other.
  ghost predicate CoveredBut(done: seq<(int, int)>, events: seq<(int, int)>, pending: set<int>) {
    forall k :: multiset(done)[k] == if k.0 in pending then 0 else multiset(events)[k]
  }

  lemma NothingCovered(groups: map<int, seq<int>>, events: seq<(int, int)>)
    requires Grouped(groups, events)
    ensures CoveredBut([], events, groups.Keys)
  {
    forall k: (int, int) | k.0 !in groups.Keys ensures multiset(events)[k] == 0 {
      assert k !in events;
    }
  }

  lemma CoverOneMore(done: seq<(int, int)>, events: seq<(int, int)>, pending: set<int>, a: int)
    requires CoveredBut(done, events, pending) && a in pending
    ensures CoveredBut(done + Paired(a, PostsOf(events, a)), events, pending - {a})
  {
    forall k
      ensures multiset(done + Paired(a, PostsOf(events, a)))[k] ==
                if k.0 in pending - {a} then 0 else multiset(events)[k]
    {
      PairedPosts(events, a, k);
      assert multiset(done)[k] == if k.0 in pending then 0 else multiset(events)[k];
    }
  }

  lemma SameCounts<T>(a: seq<T>, b: seq<T>)
    requires forall x :: multiset(a)[x] == multiset(b)[x]
    ensures multiset(a) == multiset(b)
  {
  }

  lemma AllCovered(done: seq<(int, int)>, events: seq<(int, int)>)
    requires CoveredBut(done, events, {})
    ensures multiset(done) == multiset(events) && |done| == |events|
  {
    SameCounts(done, events);
    assert |multiset(done)| == |multiset(events)|;
  }

  // The tables and one cache moved as the state machine of SeenSets says. Only a
  // read looks at the window, and no read is meant here.
  ghost predicate MovesBy(
      tags: TagIndex, db: Db, db': Db, es: HC.Entries, es': HC.Entries, ttl: real, step: SeenSets.Step) {
    forall window: real :: SeenSets.Next(State(db, es), tags, window, ttl, step) == State(db', es')
  }

  ghost predicate BothStep(
      tags: TagIndex, db: Db, db': Db, recent: HC.Entries, recent': HC.Entries,
      longTerm: HC.Entries, longTerm': HC.Entries, step: SeenSets.Step) {
    && MovesBy(tags, db, db', recent, recent', HC.RECENT_SEEN_TTL, step)
    && MovesBy(tags, db, db', longTerm, longTerm', HC.LONG_TERM_SEEN_TTL, step)
  }

  class FeedStore {
    const tags: TagIndex
    var log: Log
    var feedback: Feedback
    var shown: Exposures
    const recent: HC.SetCache
    const longTerm: HC.SetCache

    ghost function Tables(): Db
      reads this
    {
      Db(log, feedback, shown)
    }

    ghost predicate Valid()
    {
      recent != longTerm && recent.ttl == 20.0 && longTerm.ttl == 30.0
    }

    constructor (tags: TagIndex)
      ensures Valid() && fresh(recent) && fresh(longTerm) && this.tags == tags
      ensures Tables() == Db(map[], map[], map[]) && recent.entries == map[] && longTerm.entries == map[]
    {
      this.tags := tags;
      log, feedback, shown := map[], map[], map[];
      recent := new HC.SetCache(HC.RECENT_SEEN_TTL);
      longTerm := new HC.SetCache(HC.LONG_TERM_SEEN_TTL);
    }

    // INSERT OR IGNORE, and on a new row the exposure and the credit with it.
    method InsertEvent(req: Request, now: real) returns (inserted: bool)
      modifies this
      ensures inserted == (req.Id() !in old(log))
      ensures log == if inserted then old(log)[req.Id() := Row(req.position, now)] else old(log)
      ensures feedback ==
                if inserted
                then Credited(old(feedback), req.account, TagsOf(tags, req.post), req.event)
                else old(feedback)
      ensures shown == old(shown)
    {
      inserted := req.Id() !in log;
      if inserted {
        log := log[req.Id() := Row(req.position, now)];
        feedback := Credited(feedback, req.account, TagsOf(tags, req.post), req.event);
      }
    }

    method RecordFeedInteraction(req: Request, inScope: bool, now: real) returns (r: Result<bool>)
      requires Valid()
      modifies this, recent, longTerm
      ensures r == if inScope then Ok(req.Id() !in old(log)) else OutOfScope
      ensures Tables() == if inScope then Record(old(Tables()), tags, req, now) else old(Tables())
      ensures r == Ok(true) ==> IsRecorded(old(Tables()), Tables(), tags, req, now)
      ensures r != Ok(true) ==> Tables() == old(Tables())
      ensures recent.entries ==
                if r == Ok(true)
                then HC.Merged(old(recent.entries), req.account, {req.post}, recent.ttl, now)
                else old(recent.entries)
      ensures longTerm.entries ==
                if r == Ok(true)
                then HC.Merged(old(longTerm.entries), req.account, {req.post}, longTerm.ttl, now)
                else old(longTerm.entries)
      ensures inScope ==>
                BothStep(tags, old(Tables()), Tables(), old(recent.entries), recent.entries,
                         old(longTerm.entries), longTerm.entries, RecordOne(req, now))
    {
      if !inScope {
        return OutOfScope;
      }
      var inserted := InsertEvent(req, now);
      if inserted {
        RecordIsRecorded(old(Tables()), tags, req, now);
        shown := Exposed(shown, req.account, req.post, now);
        recent.MergeInto(req.account, {req.post}, now);
        longTerm.MergeInto(req.account, {req.post}, now);
      }
      r := Ok(inserted);
    }

    // upsert_shown_posts: one upsert per post of one account.
    method UpsertShownPosts(account: int, posts: seq<int>, now: real) returns (written: nat)
      modifies this`shown
      ensures shown == ExposeAll(old(shown), Paired(account, posts), now) && written == |posts|
    {
      written := 0;
      for i := 0 to |posts|
        invariant shown == ExposeAll(old(shown), Paired(account, posts[..i]), now) && written == i
      {
        assert posts[..i + 1][..i] == posts[..i];
        ExposeAppends(old(shown), Paired(account, posts[..i]), account, posts[i], now);
        shown := Exposed(shown, account, posts[i], now);
        written := written + 1;
      }
      assert posts[..|posts|] == posts;
    }

    // The first half of a batch: insert every event, collecting the new ones.
    method InsertBatch(reqs: seq<Request>, now: real) returns (recorded: nat, newlySeen: map<int, seq<int>>)
      modifies this`log, this`feedback
      ensures var after := RecordAll(old(Tables()), tags, reqs, now); log == after.log && feedback == after.feedback
      ensures Grouped(newlySeen, NewEvents(old(log), reqs)) && recorded == |NewEvents(old(log), reqs)|
    {
      recorded, newlySeen := 0, map[];
      for i := 0 to |reqs|
        invariant var after := RecordAll(old(Tables()), tags, reqs[..i], now);
                  log == after.log && feedback == after.feedback
        invariant Grouped(newlySeen, NewEvents(old(log), reqs[..i])) && recorded == |NewEvents(old(log), reqs[..i])|
      {
        var req := reqs[i];
        assert reqs[..i + 1] == reqs[..i] + [req];
        RecordAllStep(old(Tables()), tags, reqs[..i], req, now);
        NewEventsStep(old(log), reqs[..i], req);
        InsertedIffNew(old(Tables()), tags, reqs[..i], now, req);
        if req.Id() !in log {
          log := log[req.Id() := Row(req.position, now)];
          feedback := Credited(feedback, req.account, TagsOf(tags, req.post), req.event);
          GroupedAppends(newlySeen, NewEvents(old(log), reqs[..i]), req.account, req.post);
          var posts := if req.account in newlySeen then newlySeen[req.account] else [];
          newlySeen := newlySeen[req.account := posts + [req.post]];
          recorded := recorded + 1;
        } else {
          assert NewEvents(old(log), reqs[..i]) + [] == NewEvents(old(log), reqs[..i]);
        }
      }
      assert reqs[..|reqs|] == reqs;
    }

    // The second half: exposures, account by account in whatever order the map
    // yields them.
    method ExposeBatch(newlySeen: map<int, seq<int>>, ghost events: seq<(int, int)>, now: real) returns (exposures: nat)
      requires Grouped(newlySeen, events)
      modifies this`shown
      ensures shown == ExposeAll(old(shown), events, now) && exposures == |events|
    {
      exposures := 0;
      var rest := newlySeen;
      ghost var done: seq<(int, int)> := [];
      NothingCovered(newlySeen, events);
      while |rest| > 0
        invariant rest.Keys <= newlySeen.Keys && forall a | a in rest :: rest[a] == PostsOf(events, a)
        invariant shown == ExposeAll(old(shown), done, now) && exposures == |done|
        invariant CoveredBut(done, events, rest.Keys)
        decreases |rest|
      {
        ghost var someone := SomeKey(rest);
        assert someone in rest;
        var a :| a in rest;
        var written := UpsertShownPosts(a, rest[a], now);
        PairedLength(a, rest[a]);
        ExposeConcat(old(shown), done, Paired(a, rest[a]), now);
        CoverOneMore(done, events, rest.Keys, a);
        done := done + Paired(a, rest[a]);
        exposures := exposures + written;
        DropKey(rest, a);
        rest := rest - {a};
      }
      assert rest.Keys == {};
      AllCovered(done, events);
      ExposureOrderIsIrrelevant(old(shown), done, events, now);
    }

    method MergeBatch(cache: HC.SetCache, newlySeen: map<int, seq<int>>, ghost posts: map<int, set<int>>, now: real)
      requires newlySeen.Keys == posts.Keys && forall a | a in newlySeen :: posts[a] == SetOf(newlySeen[a])
      modifies cache
      ensures cache.entries == HC.MergedAll(old(cache.entries), posts, cache.ttl, now)
    {
      var rest := newlySeen;
      NoneMerged(cache.entries, posts, cache.ttl, now);
      while |rest| > 0
        invariant rest.Keys <= newlySeen.Keys && forall a | a in rest :: posts[a] == SetOf(rest[a])
        invariant cache.entries == HC.MergedAll(old(cache.entries), Without(posts, rest.Keys), cache.ttl, now)
        decreases |rest|
      {
        ghost var someone := SomeKey(rest);
        assert someone in rest;
        var a :| a in rest;
        MergeOneMore(old(cache.entries), posts, rest.Keys, a, cache.ttl, now);
        cache.MergeInto(a, SetOf(rest[a]), now);
        DropKey(rest, a);
        rest := rest - {a};
      }
      assert rest.Keys == {};
      assert Without(posts, {}) == posts;
    }

    method RecordFeedInteractionsBatch(reqs: seq<Request>, scope: set<int>, now: real) returns (r: Result<(nat, nat)>)
      requires Valid()
      modifies this, recent, longTerm
      ensures r.OutOfScope? <==> exists q :: q in reqs && q.account !in scope
      ensures r.OutOfScope? ==> Tables() == old(Tables())
      ensures r.OutOfScope? ==> recent.entries == old(recent.entries) && longTerm.entries == old(longTerm.entries)
      ensures r.Ok? ==> Tables() == RecordAll(old(Tables()), tags, reqs, now)
      ensures r.Ok? ==> r.value.0 == r.value.1 == |log| - |old(log)|
      ensures r.Ok? ==> recent.entries == HC.MergedAll(old(recent.entries), NewlySeen(old(log), reqs), recent.ttl, now)
      ensures r.Ok? ==>
                longTerm.entries == HC.MergedAll(old(longTerm.entries), NewlySeen(old(log), reqs), longTerm.ttl, now)
      ensures r.Ok? ==>
                BothStep(tags, old(Tables()), Tables(), old(recent.entries), recent.entries,
                         old(longTerm.entries), longTerm.entries, RecordMany(reqs, now))
    {
      if exists q :: q in reqs && q.account !in scope {
        return OutOfScope;
      }
      RecordsExposeNewEvents(Tables(), tags, reqs, now);
      ghost var events := NewEvents(log, reqs);
      ghost var posts := NewlySeen(log, reqs);
      var recorded, newlySeen := InsertBatch(reqs, now);
      var exposures := ExposeBatch(newlySeen, events, now);
      GroupedMatchesNewlySeen(newlySeen, old(log), reqs);
      MergeBatch(recent, newlySeen, posts, now);
      MergeBatch(longTerm, newlySeen, posts, now);
      r := Ok((recorded, exposures));
    }

    method RemoveFeedInteraction(req: Request, inScope: bool, ghost now: real) returns (r: Result<bool>)
      requires Valid()
      modifies this, recent, longTerm
      ensures r == if inScope then Ok(req.Id() in old(log)) else OutOfScope
      ensures Tables() == if inScope then Undo(old(Tables()), tags, req) else old(Tables())
      ensures r == Ok(true) ==> IsUndone(old(Tables()), Tables(), tags, req)
      ensures r != Ok(true) ==> Tables() == old(Tables())
      ensures recent.entries == if r == Ok(true) then old(recent.entries) - {req.account} else old(recent.entries)
      ensures longTerm.entries == if r == Ok(true) then old(longTerm.entries) - {req.account} else old(longTerm.entries)
      ensures inScope ==>
                BothStep(tags, old(Tables()), Tables(), old(recent.entries), recent.entries,
                         old(longTerm.entries), longTerm.entries, UndoOne(req, now))
    {
      if !inScope {
        return OutOfScope;
      }
      if req.Id() !in log {
        return Ok(false);
      }
      UndoIsUndone(Tables(), tags, req);
      log := log - {req.Id()};
      feedback := Debited(feedback, req.account, TagsOf(tags, req.post), req.event);
      shown := shown - {(req.account, req.post)};
      recent.Clear(req.account);
      longTerm.Clear(req.account);
      r := Ok(true);
    }

    method ClearFeedInteractions(account: int, inScope: bool, ghost now: real) returns (r: Result<nat>)
      requires Valid()
      modifies this, recent, longTerm
      ensures r == if inScope then Ok(|EventsOf(old(log), account)|) else OutOfScope
      ensures inScope ==> Forgets(old(Tables()), Tables(), account)
      ensures Tables() == if inScope then Clear(old(Tables()), account) else old(Tables())
      ensures recent.entries == if inScope then old(recent.entries) - {account} else old(recent.entries)
      ensures longTerm.entries == if inScope then old(longTerm.entries) - {account} else old(longTerm.entries)
      ensures inScope ==>
                BothStep(tags, old(Tables()), Tables(), old(recent.entries), recent.entries,
                         old(longTerm.entries), longTerm.entries, ClearAccount(account, now))
    {
      if !inScope {
        return OutOfScope;
      }
      ClearForgets(Tables(), account);
      var kept := map k | k in log && k.account != account :: log[k];
      var deleted := |log| - |kept|;
      log := kept;
      feedback := map f | f in feedback && f.0 != account :: feedback[f];
      shown := map s | s in shown && s.0 != account :: shown[s];
      recent.Clear(account);
      longTerm.Clear(account);
      r := Ok(deleted);
    }

    method PruneShownPosts(retentionDays: int, now: real) returns (before: nat, after: nat)
      modifies this`shown
      ensures Tables() == Prune(old(Tables()), now - Span(retentionDays))
      ensures IsPruned(old(Tables()), Tables(), now - Seconds(retentionDays))
      ensures before == |old(shown)| && after == |shown|
    {
      before := |shown|;
      var cutoff := now - Span(retentionDays);
      shown := map s | s in shown && shown[s].last >= cutoff :: shown[s];
      after := |shown|;
    }

    // SEEN_POST_IDS_SQL
    method QuerySeen(account: int, cutoff: real) returns (seen: set<int>)
      ensures seen == TableSeen(Tables(), account, cutoff)
    {
      seen := TableSeen(Db(log, feedback, shown), account, cutoff);
    }

    // store_recent_seen and store_long_term_seen
    method StoreSeen(cache: HC.SetCache, account: int, seen: set<int>, now: real) returns (ghost evicted: set<int>)
      modifies cache
      ensures cache.entries == HC.Refilled(old(cache.entries), account, seen, cache.ttl, now) - evicted
    {
      evicted := cache.Put(account, seen, now);
    }

    // get_recently_seen_post_ids and get_long_term_seen_post_ids, by their cache.
    method SeenPostIds(cache: HC.SetCache, account: int, days: int, now: real)
        returns (seen: set<int>, ghost evicted: set<int>)
      modifies cache
      ensures seen == Answer(State(Tables(), old(cache.entries)), Span(days), cache.ttl, account, now)
      ensures cache.entries ==
              AfterRead(State(Tables(), old(cache.entries)), tags, Span(days), cache.ttl, account, evicted, now)
    {
      evicted := {};
      ghost var before := State(Tables(), cache.entries);
      var hit, ids := cache.Lookup(account, now);
      if hit {
        ReadHits(before, tags, Span(days), cache.ttl, account, evicted, now);
        return ids, evicted;
      }
      seen := QuerySeen(account, now - Span(days));
      evicted := StoreSeen(cache, account, seen, now);
      ReadMisses(before, tags, Span(days), cache.ttl, account, evicted, now);
    }
  }

  ghost function AfterRead(
      s: State, tags: TagIndex, window: real, ttl: real, account: int, evicted: set<int>, now: real): HC.Entries {
    SeenSets.Next(s, tags, window, ttl, Read(account, evicted, now)).cache
  }

  lemma ReadHits(s: State, tags: TagIndex, window: real, ttl: real, account: int, evicted: set<int>, now: real)
    requires HC.IsWarm(s.cache, account, ttl, now)
    ensures AfterRead(s, tags, window, ttl, account, evicted, now) == s.cache
    ensures Answer(s, window, ttl, account, now) == s.cache[account].ids
  {
  }

  lemma ReadMisses(s: State, tags: TagIndex, window: real, ttl: real, account: int, evicted: set<int>, now: real)
    requires !HC.IsWarm(s.cache, account, ttl, now)
    ensures AfterRead(s, tags, window, ttl, account, evicted, now)
         == HC.Refilled(s.cache, account, TableSeen(s.db, account, now - window), ttl, now) - evicted
    ensures Answer(s, window, ttl, account, now) == TableSeen(s.db, account, now - window)
  {
  }

  function SetOf(posts: seq<int>): set<int> {
    set p | p in posts
  }

  ghost function SomeKey<K, V>(m: map<K, V>): (k: K)
    requires |m| > 0
    ensures k in m
  {
    var k :| k in m.Keys;
    k
  }

  lemma {:induction false} PairedLength(account: int, posts: seq<int>)
    ensures |Paired(account, posts)| == |posts|
  {
    if posts == [] {
    } else {
      PairedLength(account, posts[..|posts| - 1]);
    }
  }

  lemma DropKey<K, V>(m: map<K, V>, k: K)
    requires k in m
    ensures (m - {k}).Keys == m.Keys - {k} && |m - {k}| < |m|
  {
    assert (m - {k}).Keys == m.Keys - {k};
  }

  ghost function Without(posts: map<int, set<int>>, pending: set<int>): map<int, set<int>> {
    map a | a in posts && a !in pending :: posts[a]
  }

  lemma NoneMerged(es: HC.Entries, posts: map<int, set<int>>, ttl: real, now: real)
    ensures HC.MergedAll(es, Without(posts, posts.Keys), ttl, now) == es
  {
    assert Without(posts, posts.Keys) == map[];
  }

  lemma MergeOneMore(es: HC.Entries, posts: map<int, set<int>>, pending: set<int>, a: int, ttl: real, now: real)
    requires a in pending && a in posts
    ensures HC.Merged(HC.MergedAll(es, Without(posts, pending), ttl, now), a, posts[a], ttl, now)
         == HC.MergedAll(es, Without(posts, pending - {a}), ttl, now)
  {
    assert Without(posts, pending - {a}) == Without(posts, pending)[a := posts[a]];
  }

  lemma GroupedMatchesNewlySeen(groups: map<int, seq<int>>, log: Log, reqs: seq<Request>)
    requires Grouped(groups, NewEvents(log, reqs))
    ensures groups.Keys == NewlySeen(log, reqs).Keys
    ensures forall a | a in groups :: NewlySeen(log, reqs)[a] == SetOf(groups[a])
  {
    var events := NewEvents(log, reqs);
    forall a ensures a in groups <==> a in NewlySeen(log, reqs) {
      if a in groups {
        var p := groups[a][0];
        PostsOfMembers(events, a, p);
        assert (a, p).0 == a;
      }
    }
    forall a | a in groups ensures NewlySeen(log, reqs)[a] == SetOf(groups[a]) {
      forall p ensures p in NewPosts(log, reqs, a) <==> p in SetOf(groups[a]) {
        PostsOfMembers(events, a, p);
        if p in NewPosts(log, reqs, a) {
          var e :| e in events && e.0 == a && e.1 == p;
          assert e == (a, p);
        }
        if (a, p) in events {
          assert (a, p).1 in NewPosts(log, reqs, a);
        }
      }
    }
  }
}
