// The e621 response cache with conditional revalidation (parser-api/src/api.rs).
// Requests are sequential and instantaneous.
module ResponseCache {
  import opened Wrappers
  import opened Sorting
  import opened Eviction

  datatype Representation = Representation(body: string, etag: Option<string>)

  datatype CachedBody = CachedBody(body: string, etag: Option<string>, insertedAt: real)

  type Entries = map<string, CachedBody>

  datatype Cache = Cache(entries: Entries, lastAccess: real)

  // What came back from upstream; every error path of the fetch is Failed.
  datatype Response = NotModified | Success(body: string, etag: Option<string>) | Failed

  datatype Outcome = Body(body: string, notModified: bool) | Error

  function FreshBody(c: Cache, url: string, ttl: real, now: real): Option<string> {
    if ttl > 0.0 && url in c.entries && now - c.entries[url].insertedAt < ttl
    then Some(c.entries[url].body) else None
  }

  // The validator sent as If-None-Match, if any.
  function Validator(c: Cache, url: string, bypass: bool): Option<string> {
    if !bypass && url in c.entries then c.entries[url].etag else None
  }

  function Unexpired(entries: Entries, ttl: real, now: real): Entries {
    map u | u in entries && now - entries[u].insertedAt < ttl :: entries[u]
  }

  function EvictCount(maxEntries: nat, size: nat): nat {
    if maxEntries / 10 + 1 < size then maxEntries / 10 + 1 else size
  }

  // A legal pick of the entries a full cache drops before inserting.
  ghost predicate OldestEntries(entries: Entries, maxEntries: nat, evicted: set<string>) {
    IsOldestChoice(entries, InsertedAt, EvictCount(maxEntries, |entries|), evicted)
  }

  function InsertedAt(b: CachedBody): real {
    b.insertedAt
  }

  function Put(
      c: Cache, maxEntries: nat, url: string, body: string, etag: Option<string>, ttl: real, now: real,
      evicted: set<string>): Cache {
    if ttl <= 0.0 || maxEntries == 0 then c
    else
      var kept := if |c.entries| >= maxEntries then Unexpired(c.entries - evicted, ttl, now) else c.entries;
      Cache(kept[url := CachedBody(body, etag, now)], now)
  }

  function Fetch(
      c: Cache, maxEntries: nat, url: string, bypass: bool, ttl: real, now: real, resp: Response,
      evicted: set<string>): (Cache, Outcome) {
    if !bypass && FreshBody(c, url, ttl, now).Some? then
      (c.(lastAccess := now), Body(c.entries[url].body, false))
    else match resp
      case NotModified =>
        if url in c.entries
        then (Cache(c.entries[url := c.entries[url].(insertedAt := now)], now), Body(c.entries[url].body, true))
        else (c, Error)
      case Success(body, etag) =>
        (if bypass then c else Put(c, maxEntries, url, body, etag, ttl, now, evicted), Body(body, false))
      case Failed => (c, Error)
  }

  datatype Event =
    | Get(url: string, bypass: bool, ttl: real, at: real, resp: Response, evicted: set<string>)
    | Prune(ttl: real, at: real)
    | EvictIfIdle(idleSecs: nat, at: real)
    | Remove(url: string, at: real)
    | Clear(at: real)

  function Step(c: Cache, maxEntries: nat, e: Event): Cache {
    match e
    case Get(url, bypass, ttl, at, resp, evicted) => Fetch(c, maxEntries, url, bypass, ttl, at, resp, evicted).0
    case Prune(ttl, at) => if ttl <= 0.0 then c else c.(entries := Unexpired(c.entries, ttl, at))
    case EvictIfIdle(idle, at) =>
      if idle == 0 || (at - c.lastAccess).Floor < idle || c.entries == map[] then c
      else Cache(map[], at)
    case Remove(url, _) => c.(entries := c.entries - {url})
    case Clear(_) => c.(entries := map[])
  }

  // --- the origin ------------------------------------------------------------------
  //
  // A function from time to the current representation of each URL.

  // Strong validators (section 8.8.1 of RFC 9110): a URL never reuses an entity
  // tag for a different body.
  ghost predicate StrongValidators(origin: (real, string) -> Representation) {
    forall s, t, u ::
      origin(s, u).etag.Some? && origin(s, u).etag == origin(t, u).etag ==> origin(s, u).body == origin(t, u).body
  }

  // The origin answers 304 only to a validator that is current (sections 13.1.2
  // and 15.4.5 of RFC 9110), and 200 with its current representation.
  ghost predicate Answers(
      origin: (real, string) -> Representation, url: string, at: real, sent: Option<string>, resp: Response) {
    match resp
    case NotModified => sent.Some? && origin(at, url).etag == sent
    case Success(body, etag) => origin(at, url) == Representation(body, etag)
    case Failed => true
  }

  // The body was the origin's at some moment of the last `ttl` seconds, or is now.
  ghost predicate WasCurrent(
      origin: (real, string) -> Representation, url: string, body: string, ttl: real, now: real) {
    origin(now, url).body == body
    || exists t: real :: now - ttl < t <= now && origin(t, url).body == body
  }

  ghost predicate Faithful(c: Cache, origin: (real, string) -> Representation, now: real) {
    forall u | u in c.entries ::
      c.entries[u].insertedAt <= now
      && origin(c.entries[u].insertedAt, u) == Representation(c.entries[u].body, c.entries[u].etag)
  }

  // One legal event: the clock does not go back, the origin behaves, and a full
  // cache drops its oldest entries.
  ghost predicate Legal(c: Cache, maxEntries: nat, e: Event, origin: (real, string) -> Representation, since: real) {
    && since <= e.at
    && (e.Get? ==>
          && Answers(origin, e.url, e.at, Validator(c, e.url, e.bypass), e.resp)
          && (|c.entries| >= maxEntries ==> OldestEntries(c.entries, maxEntries, e.evicted)))
  }

  ghost predicate GoodOutcome(c: Cache, maxEntries: nat, e: Event, origin: (real, string) -> Representation) {
    e.Get? ==>
      var outcome := Fetch(c, maxEntries, e.url, e.bypass, e.ttl, e.at, e.resp, e.evicted).1;
      outcome.Body? ==>
        && WasCurrent(origin, e.url, outcome.body, e.ttl, e.at)
        && (e.bypass ==> origin(e.at, e.url).body == outcome.body)
  }

  lemma StepIsFaithful(c: Cache, maxEntries: nat, e: Event, origin: (real, string) -> Representation, since: real)
    requires StrongValidators(origin) && Faithful(c, origin, since) && Legal(c, maxEntries, e, origin, since)
    ensures Faithful(Step(c, maxEntries, e), origin, e.at)
    ensures GoodOutcome(c, maxEntries, e, origin)
  {
    if e.Get? && e.url in c.entries {
      assert origin(c.entries[e.url].insertedAt, e.url).body == c.entries[e.url].body;
    }
  }

  ghost predicate LegalRun(
      c: Cache, maxEntries: nat, events: seq<Event>, origin: (real, string) -> Representation, since: real)
    decreases |events|
  {
    events == [] ||
    (Legal(c, maxEntries, events[0], origin, since)
     && LegalRun(Step(c, maxEntries, events[0]), maxEntries, events[1..], origin, events[0].at))
  }

  ghost predicate AllOutcomesGood(
      c: Cache, maxEntries: nat, events: seq<Event>, origin: (real, string) -> Representation)
    decreases |events|
  {
    events == [] ||
    (GoodOutcome(c, maxEntries, events[0], origin)
     && AllOutcomesGood(Step(c, maxEntries, events[0]), maxEntries, events[1..], origin))
  }

  ghost function Run(c: Cache, maxEntries: nat, events: seq<Event>): Cache
    decreases |events|
  {
    if events == [] then c else Run(Step(c, maxEntries, events[0]), maxEntries, events[1..])
  }

  // Over every sequence of gets, prunes, idle evictions, removals and origin
  // changes, no caller is handed a body older than its TTL.
  lemma {:induction false} NoStaleBodies(
      c: Cache, maxEntries: nat, events: seq<Event>, origin: (real, string) -> Representation, since: real)
    requires StrongValidators(origin) && Faithful(c, origin, since) && LegalRun(c, maxEntries, events, origin, since)
    ensures AllOutcomesGood(c, maxEntries, events, origin)
    decreases |events|
  {
    if events == [] {
    } else {
      StepIsFaithful(c, maxEntries, events[0], origin, since);
      NoStaleBodies(Step(c, maxEntries, events[0]), maxEntries, events[1..], origin, events[0].at);
    }
  }

  lemma StepStaysBounded(c: Cache, maxEntries: nat, e: Event)
    requires |c.entries| <= maxEntries
    requires e.Get? && |c.entries| >= maxEntries ==> OldestEntries(c.entries, maxEntries, e.evicted)
    ensures |Step(c, maxEntries, e).entries| <= maxEntries
  {
    match e
    case Get(url, bypass, ttl, at, resp, evicted) =>
      if !(!bypass && FreshBody(c, url, ttl, at).Some?) {
        if resp.NotModified? && url in c.entries {
          assert c.entries[url := c.entries[url].(insertedAt := at)].Keys == c.entries.Keys;
        } else if resp.Success? && !bypass && ttl > 0.0 && maxEntries > 0 {
          PutStaysBounded(c, maxEntries, url, resp.body, resp.etag, ttl, at, evicted);
        }
      }
    case Prune(ttl, at) => SubsetSize(Unexpired(c.entries, ttl, at).Keys, c.entries.Keys);
    case Remove(url, at) => SubsetSize((c.entries - {url}).Keys, c.entries.Keys);
    case EvictIfIdle(_, _) =>
    case Clear(_) =>
  }

  lemma PutStaysBounded(
      c: Cache, maxEntries: nat, url: string, body: string, etag: Option<string>, ttl: real, now: real,
      evicted: set<string>)
    requires |c.entries| <= maxEntries && maxEntries > 0
    requires |c.entries| >= maxEntries ==> OldestEntries(c.entries, maxEntries, evicted)
    ensures |Put(c, maxEntries, url, body, etag, ttl, now, evicted).entries| <= maxEntries
  {
    if ttl > 0.0 {
      var kept := if |c.entries| >= maxEntries then Unexpired(c.entries - evicted, ttl, now) else c.entries;
      if |c.entries| >= maxEntries {
        assert (c.entries - evicted).Keys == c.entries.Keys - evicted;
        SubsetSize(kept.Keys, c.entries.Keys - evicted);
      }
      assert kept[url := CachedBody(body, etag, now)].Keys == kept.Keys + {url};
    }
  }

  // With a fixed limit the cache never exceeds it.
  lemma {:induction false} CacheStaysBounded(
      c: Cache, maxEntries: nat, events: seq<Event>, origin: (real, string) -> Representation, since: real)
    requires |c.entries| <= maxEntries && LegalRun(c, maxEntries, events, origin, since)
    ensures |Run(c, maxEntries, events).entries| <= maxEntries
    decreases |events|
  {
    if events == [] {
    } else {
      StepStaysBounded(c, maxEntries, events[0]);
      CacheStaysBounded(Step(c, maxEntries, events[0]), maxEntries, events[1..], origin, events[0].at);
    }
  }

  // A bypassed fetch of a well-behaved origin leaves the cache and its idle
  // timer exactly as they were.
  lemma BypassLeavesNoTrace(c: Cache, maxEntries: nat, e: Event, origin: (real, string) -> Representation, since: real)
    requires Legal(c, maxEntries, e, origin, since) && e.Get? && e.bypass
    ensures Step(c, maxEntries, e) == c
  {
    assert Validator(c, e.url, true) == None;
  }

  // The 304 rule depends on strong validators: with one entity tag shared by two
  // bodies, a revalidation hands out a body the origin no longer has, however
  // long ago that was.
  lemma WeakValidatorsServeStaleBodies(ttl: real)
    requires ttl > 0.0
    ensures exists origin: (real, string) -> Representation, c: Cache, e: Event ::
              && Faithful(c, origin, 0.0) && Legal(c, 10, e, origin, 0.0)
              && !GoodOutcome(c, 10, e, origin)
  {
    var origin := (t: real, u: string) => Representation(if t <= 0.0 then "old" else "new", Some("W"));
    var c := Cache(map["u" := CachedBody("old", Some("W"), 0.0)], 0.0);
    var e := Get("u", false, ttl, ttl + ttl, NotModified, {});
    assert Faithful(c, origin, 0.0);
    assert |c.entries| == 1;
    assert Legal(c, 10, e, origin, 0.0);
    assert Fetch(c, 10, e.url, e.bypass, e.ttl, e.at, e.resp, e.evicted).1 == Body("old", true);
    assert !WasCurrent(origin, "u", "old", ttl, ttl + ttl);
  }

  // A body whose validator still matches after a full TTL was current within the
  // last TTL, whatever the strength of the comparison.
  ghost predicate RevalidatesCurrent(origin: (real, string) -> Representation, ttl: real) {
    forall s, t, u :: s + ttl <= t && SameTag(origin, s, t, u) ==> WasCurrent(origin, u, origin(s, u).body, ttl, t)
  }

  ghost predicate SameTag(origin: (real, string) -> Representation, s: real, t: real, u: string) {
    origin(s, u).etag.Some? && origin(s, u).etag == origin(t, u).etag
  }

  ghost predicate AllGetsGood(origin: (real, string) -> Representation, maxEntries: nat, ttl: real) {
    forall c, e, since ::
      Faithful(c, origin, since) && Legal(c, maxEntries, e, origin, since) && e.Get? && e.ttl == ttl ==>
        GoodOutcome(c, maxEntries, e, origin)
  }

  lemma GetIsGood(
      c: Cache, maxEntries: nat, e: Event, origin: (real, string) -> Representation, since: real, ttl: real)
    requires Faithful(c, origin, since) && Legal(c, maxEntries, e, origin, since) && e.Get? && e.ttl == ttl
    requires RevalidatesCurrent(origin, ttl)
    ensures GoodOutcome(c, maxEntries, e, origin)
  {
    if e.url in c.entries {
      var s := c.entries[e.url].insertedAt;
      assert origin(s, e.url) == Representation(c.entries[e.url].body, c.entries[e.url].etag);
      if e.resp.NotModified? && !e.bypass && s + ttl <= e.at {
        assert SameTag(origin, s, e.at, e.url);
        assert WasCurrent(origin, e.url, origin(s, e.url).body, ttl, e.at);
      }
    }
  }

  // An origin that reuses a tag is served stale by this very revalidation.
  lemma StaleRevalidation(
      origin: (real, string) -> Representation, maxEntries: nat, ttl: real, s: real, t: real, u: string)
      returns (c: Cache, e: Event)
    requires ttl > 0.0 && maxEntries > 1 && s + ttl <= t && SameTag(origin, s, t, u)
    requires !WasCurrent(origin, u, origin(s, u).body, ttl, t)
    ensures Faithful(c, origin, s) && Legal(c, maxEntries, e, origin, s) && e.Get? && e.ttl == ttl
    ensures !GoodOutcome(c, maxEntries, e, origin)
  {
    c := Cache(map[u := CachedBody(origin(s, u).body, origin(s, u).etag, s)], s);
    e := Get(u, false, ttl, t, NotModified, {});
    assert |c.entries| == 1;
    assert Fetch(c, maxEntries, u, false, ttl, t, NotModified, {}).1 == Body(origin(s, u).body, true);
  }

  // For a single get from a cache no 304 has touched yet: it is answered with a body
  // current within its TTL exactly when the origin brings back a tag only with such
  // a body.
  lemma OneRevalidationIsSoundIff(origin: (real, string) -> Representation, maxEntries: nat, ttl: real)
    requires ttl > 0.0 && maxEntries > 1
    ensures AllGetsGood(origin, maxEntries, ttl) <==> RevalidatesCurrent(origin, ttl)
  {
    if RevalidatesCurrent(origin, ttl) {
      forall c, e, since |
        Faithful(c, origin, since) && Legal(c, maxEntries, e, origin, since) && e.Get? && e.ttl == ttl
        ensures GoodOutcome(c, maxEntries, e, origin)
      {
        GetIsGood(c, maxEntries, e, origin, since, ttl);
      }
    } else {
      var s, t, u :| s + ttl <= t && SameTag(origin, s, t, u) && !WasCurrent(origin, u, origin(s, u).body, ttl, t);
      var c, e := StaleRevalidation(origin, maxEntries, ttl, s, t, u);
    }
  }

  // --- revalidation over whole runs ------------------------------------------------------

  // A revalidated body is handed out for another TTL, so it has to stay current for
  // that long: whenever a tag comes back at `t`, a full TTL or more after `s`, the
  // body of `s` was current within the last TTL at every moment until `t + ttl`.
  ghost predicate RevalidatesThroughout(origin: (real, string) -> Representation, ttl: real) {
    forall s, t, now, u ::
      s + ttl <= t <= now < t + ttl && SameTag(origin, s, t, u) ==> WasCurrent(origin, u, origin(s, u).body, ttl, now)
  }

  ghost predicate GetsUse(events: seq<Event>, ttl: real) {
    forall i | 0 <= i < |events| :: events[i].Get? ==> events[i].ttl == ttl
  }

  ghost predicate AllRunsGood(origin: (real, string) -> Representation, maxEntries: nat, ttl: real) {
    forall c, events, since ::
      Faithful(c, origin, since) && LegalRun(c, maxEntries, events, origin, since) && GetsUse(events, ttl) ==>
        AllOutcomesGood(c, maxEntries, events, origin)
  }

  // The entry is the origin's representation of `s`: of when it was inserted, or of
  // an earlier moment whose tag came back when it was last revalidated.
  ghost predicate RootedAt(
      e: CachedBody, u: string, origin: (real, string) -> Representation, ttl: real, s: real) {
    && origin(s, u) == Representation(e.body, e.etag)
    && (s == e.insertedAt || (s + ttl <= e.insertedAt && SameTag(origin, s, e.insertedAt, u)))
  }

  ghost predicate Rooted(c: Cache, origin: (real, string) -> Representation, ttl: real, now: real) {
    forall u | u in c.entries ::
      c.entries[u].insertedAt <= now && exists s :: RootedAt(c.entries[u], u, origin, ttl, s)
  }

  // A fresh hit on a rooted entry is current.
  lemma RootedHitIsCurrent(
      e: CachedBody, u: string, origin: (real, string) -> Representation, ttl: real, s: real, now: real)
    requires RevalidatesThroughout(origin, ttl) && RootedAt(e, u, origin, ttl, s)
    requires e.insertedAt <= now < e.insertedAt + ttl
    ensures WasCurrent(origin, u, e.body, ttl, now)
  {
    if s == e.insertedAt {
      assert now - ttl < s <= now && origin(s, u).body == e.body;
    } else {
      assert SameTag(origin, s, e.insertedAt, u);
      assert WasCurrent(origin, u, origin(s, u).body, ttl, now);
    }
  }

  lemma RootedGetIsGood(
      c: Cache, maxEntries: nat, e: Event, origin: (real, string) -> Representation, since: real, ttl: real)
    requires ttl > 0.0 && RevalidatesThroughout(origin, ttl) && Rooted(c, origin, ttl, since)
    requires Legal(c, maxEntries, e, origin, since) && e.Get? && e.ttl == ttl
    ensures GoodOutcome(c, maxEntries, e, origin)
  {
    if e.url in c.entries && !e.bypass {
      var entry := c.entries[e.url];
      var s :| RootedAt(entry, e.url, origin, ttl, s);
      if e.at < entry.insertedAt + ttl {
        RootedHitIsCurrent(entry, e.url, origin, ttl, s, e.at);
      } else if e.resp.NotModified? {
        var fresh' := entry.(insertedAt := e.at);
        assert SameTag(origin, s, e.at, e.url);
        assert RootedAt(fresh', e.url, origin, ttl, s);
        RootedHitIsCurrent(fresh', e.url, origin, ttl, s, e.at);
      }
    }
  }

  lemma StepKeepsRooted(
      c: Cache, maxEntries: nat, e: Event, origin: (real, string) -> Representation, since: real, ttl: real)
    requires ttl > 0.0 && Rooted(c, origin, ttl, since) && Legal(c, maxEntries, e, origin, since)
    requires e.Get? ==> e.ttl == ttl
    ensures Rooted(Step(c, maxEntries, e), origin, ttl, e.at)
  {
    var c' := Step(c, maxEntries, e);
    forall u | u in c'.entries
      ensures c'.entries[u].insertedAt <= e.at && exists s :: RootedAt(c'.entries[u], u, origin, ttl, s)
    {
      if u in c.entries && c'.entries[u] == c.entries[u] {
        assert c.entries[u].insertedAt <= since;
      } else if e.resp.NotModified? {
        var s :| RootedAt(c.entries[u], u, origin, ttl, s);
        assert SameTag(origin, s, e.at, u);
        assert RootedAt(c'.entries[u], u, origin, ttl, s);
      } else {
        assert RootedAt(c'.entries[u], u, origin, ttl, e.at);
      }
    }
  }

  lemma {:induction false} RootedRunsAreGood(
      c: Cache, maxEntries: nat, events: seq<Event>, origin: (real, string) -> Representation, since: real, ttl: real)
    requires ttl > 0.0 && RevalidatesThroughout(origin, ttl) && Rooted(c, origin, ttl, since)
    requires LegalRun(c, maxEntries, events, origin, since) && GetsUse(events, ttl)
    ensures AllOutcomesGood(c, maxEntries, events, origin)
    decreases |events|
  {
    if events == [] {
    } else {
      var e := events[0];
      assert forall i | 0 <= i < |events[1..]| :: events[1..][i] == events[i + 1];
      if e.Get? {
        RootedGetIsGood(c, maxEntries, e, origin, since, ttl);
      }
      StepKeepsRooted(c, maxEntries, e, origin, since, ttl);
      RootedRunsAreGood(Step(c, maxEntries, e), maxEntries, events[1..], origin, e.at, ttl);
    }
  }

  // An origin that fails the condition is served stale by two gets: a revalidation
  // at `t`, and a hit at `now`.
  lemma StaleRun(
      origin: (real, string) -> Representation, maxEntries: nat, ttl: real, s: real, t: real, now: real, u: string)
      returns (c: Cache, events: seq<Event>)
    requires ttl > 0.0 && maxEntries > 1 && s + ttl <= t <= now < t + ttl && SameTag(origin, s, t, u)
    requires !WasCurrent(origin, u, origin(s, u).body, ttl, now)
    ensures Faithful(c, origin, s) && LegalRun(c, maxEntries, events, origin, s) && GetsUse(events, ttl)
    ensures !AllOutcomesGood(c, maxEntries, events, origin)
  {
    c := Cache(map[u := CachedBody(origin(s, u).body, origin(s, u).etag, s)], s);
    var revalidation, hit := Get(u, false, ttl, t, NotModified, {}), Get(u, false, ttl, now, Failed, {});
    events := [revalidation, hit];
    assert events[1..] == [hit] && [hit][1..] == [];
    var c' := Step(c, maxEntries, revalidation);
    assert c'.entries == map[u := CachedBody(origin(s, u).body, origin(s, u).etag, t)];
    assert |c.entries| == 1 && |c'.entries| == 1;
    assert Legal(c, maxEntries, revalidation, origin, s) && Legal(c', maxEntries, hit, origin, t);
    assert LegalRun(c', maxEntries, [hit], origin, t);
    assert Fetch(c', maxEntries, u, false, ttl, now, Failed, {}).1 == Body(origin(s, u).body, false);
    assert !GoodOutcome(c', maxEntries, hit, origin);
  }

  // For which origins the 304 rule is sound, strong validators or not: no run of
  // gets with this TTL, however interleaved with prunes, evictions and removals,
  // hands out a body older than the TTL, if and only if a tag that comes back
  // after a full TTL does so only with a body that stays current for another.
  lemma RevalidationIsSoundIff(origin: (real, string) -> Representation, maxEntries: nat, ttl: real)
    requires ttl > 0.0 && maxEntries > 1
    ensures AllRunsGood(origin, maxEntries, ttl) <==> RevalidatesThroughout(origin, ttl)
  {
    if RevalidatesThroughout(origin, ttl) {
      forall c, events, since |
        Faithful(c, origin, since) && LegalRun(c, maxEntries, events, origin, since) && GetsUse(events, ttl)
        ensures AllOutcomesGood(c, maxEntries, events, origin)
      {
        FaithfulIsRooted(c, origin, ttl, since);
        RootedRunsAreGood(c, maxEntries, events, origin, since, ttl);
      }
    } else {
      var s, t, now, u :| s + ttl <= t <= now < t + ttl && SameTag(origin, s, t, u)
                          && !WasCurrent(origin, u, origin(s, u).body, ttl, now);
      var c, events := StaleRun(origin, maxEntries, ttl, s, t, now, u);
    }
  }

  lemma FaithfulIsRooted(c: Cache, origin: (real, string) -> Representation, ttl: real, now: real)
    requires Faithful(c, origin, now)
    ensures Rooted(c, origin, ttl, now)
  {
    forall u | u in c.entries ensures exists s :: RootedAt(c.entries[u], u, origin, ttl, s) {
      assert RootedAt(c.entries[u], u, origin, ttl, c.entries[u].insertedAt);
    }
  }

  // One revalidation being sound is not enough: here each is, and the hit after it
  // hands out a body gone for more than the TTL.
  lemma SoundRevalidationStaleHit()
    ensures exists origin: (real, string) -> Representation ::
              RevalidatesCurrent(origin, 10.0) && !RevalidatesThroughout(origin, 10.0)
  {
    var origin := (t: real, u: string) =>
      Representation(if t < 15.0 then "old" else "new", Some(if t <= 20.0 then "W" else "X"));
    forall s, t, u | s + 10.0 <= t && SameTag(origin, s, t, u)
      ensures WasCurrent(origin, u, origin(s, u).body, 10.0, t)
    {
      if origin(s, u).body != origin(t, u).body {
        var seen := if t < 20.0 then t - 9.0 else 14.0;
        assert origin(seen, u).body == "old";
      }
    }
    assert SameTag(origin, 0.0, 20.0, "u");
    assert !WasCurrent(origin, "u", origin(0.0, "u").body, 10.0, 29.0);
    assert RevalidatesCurrent(origin, 10.0);
    assert !RevalidatesThroughout(origin, 10.0);
  }

  // --- what is fetched is kept ----------------------------------------------------------

  // The entry is there and younger than the TTL.
  predicate IsFresh(entries: Entries, url: string, ttl: real, now: real) {
    ttl > 0.0 && url in entries && now - entries[url].insertedAt < ttl
  }

  // The event leaves the entry of `url` alone: nothing drops it, and no answer
  // from upstream replaces it.
  predicate Spares(c: Cache, e: Event, url: string)
    requires url in c.entries
  {
    var age := e.at - c.entries[url].insertedAt;
    match e
    case Get(u, bypass, ttl, at, resp, evicted) =>
      && url !in evicted && 0.0 <= age < ttl
      && (u == url && bypass ==> !resp.NotModified?)
    case Prune(ttl, at) => ttl <= 0.0 || age < ttl
    case EvictIfIdle(idle, at) => idle == 0 || (at - c.lastAccess).Floor < idle
    case Remove(u, _) => u != url
    case Clear(_) => false
  }

  predicate SparedThroughout(c: Cache, maxEntries: nat, events: seq<Event>, url: string)
    decreases |events|
  {
    url in c.entries
    && (events == [] ||
        (Spares(c, events[0], url) && SparedThroughout(Step(c, maxEntries, events[0]), maxEntries, events[1..], url)))
  }

  lemma SparedStepKeeps(c: Cache, maxEntries: nat, e: Event, url: string)
    requires url in c.entries && Spares(c, e, url)
    ensures url in Step(c, maxEntries, e).entries && Step(c, maxEntries, e).entries[url] == c.entries[url]
  {
  }

  lemma {:induction false} SparedRunKeeps(c: Cache, maxEntries: nat, events: seq<Event>, url: string)
    requires SparedThroughout(c, maxEntries, events, url)
    ensures var end := Run(c, maxEntries, events); url in end.entries && end.entries[url] == c.entries[url]
    decreases |events|
  {
    if events == [] {
    } else {
      SparedStepKeeps(c, maxEntries, events[0], url);
      SparedRunKeeps(Step(c, maxEntries, events[0]), maxEntries, events[1..], url);
    }
  }

  // A body fetched outside the bypass is kept with its tag and its time, so that
  // for one TTL, while nothing drops it, a get is answered with it whatever the
  // origin would say; after that its tag goes upstream.
  lemma FetchedBodyIsKept(c: Cache, maxEntries: nat, e: Event, events: seq<Event>, ttl: real, now: real)
    requires e.Get? && !e.bypass && e.resp.Success? && e.ttl > 0.0 && maxEntries > 0
    requires FreshBody(c, e.url, e.ttl, e.at) == None
    requires SparedThroughout(Step(c, maxEntries, e), maxEntries, events, e.url)
    ensures var end := Run(Step(c, maxEntries, e), maxEntries, events);
            && e.url in end.entries && end.entries[e.url] == CachedBody(e.resp.body, e.resp.etag, e.at)
            && Validator(end, e.url, false) == e.resp.etag
            && (ttl > now - e.at >= 0.0 ==> IsFresh(end.entries, e.url, ttl, now))
            && (ttl > now - e.at >= 0.0 ==> forall resp, evicted ::
                  Fetch(end, maxEntries, e.url, false, ttl, now, resp, evicted)
                  == (end.(lastAccess := now), Body(e.resp.body, false)))
  {
    SparedRunKeeps(Step(c, maxEntries, e), maxEntries, events, e.url);
  }

  // --- the cache object -------------------------------------------------------------

  // `url` now has this entry. A cache that was not full keeps all its others; a
  // full one keeps those that have not expired and are not among its oldest
  // tenth plus one.
  ghost predicate Stores(
      before: Entries, after: Entries, maxEntries: nat, url: string, entry: CachedBody, ttl: real,
      evicted: set<string>) {
    && url in after && after[url] == entry
    && (forall u | u != url ::
          u in after <==>
          u in before
          && (|before| >= maxEntries ==> u !in evicted && entry.insertedAt - before[u].insertedAt < ttl))
    && (forall u | u in after && u != url :: after[u] == before[u])
    && (|before| >= maxEntries ==>
          && evicted <= before.Keys
          && |evicted| == (if maxEntries / 10 + 1 < |before| then maxEntries / 10 + 1 else |before|)
          && forall a, b | a in evicted && b in before.Keys - evicted :: before[a].insertedAt <= before[b].insertedAt)
  }

  class ApiCache {
    var entries: Entries
    var lastAccess: real
    const maxEntries: nat

    ghost function State(): Cache
      reads this
    {
      Cache(entries, lastAccess)
    }

    constructor (maxEntries: nat, now: real)
      ensures State() == Cache(map[], now) && this.maxEntries == maxEntries
    {
      entries, lastAccess := map[], now;
      this.maxEntries := maxEntries;
    }

    // api_cache_get
    method Lookup(url: string, ttl: real, now: real) returns (body: Option<string>)
      modifies this`lastAccess
      ensures body == FreshBody(old(State()), url, ttl, now)
      ensures body == if IsFresh(entries, url, ttl, now) then Some(entries[url].body) else None
      ensures lastAccess == if body.Some? then now else old(lastAccess)
    {
      if ttl <= 0.0 || url !in entries {
        return None;
      }
      if now - entries[url].insertedAt < ttl {
        lastAccess := now;
        return Some(entries[url].body);
      }
      return None;
    }

    // api_cache_put
    method Insert(url: string, body: string, etag: Option<string>, ttl: real, now: real)
        returns (ghost evicted: set<string>)
      modifies this
      ensures |old(entries)| >= maxEntries ==> OldestEntries(old(entries), maxEntries, evicted)
      ensures State() == Put(old(State()), maxEntries, url, body, etag, ttl, now, evicted)
      ensures ttl > 0.0 && maxEntries > 0 ==>
                && Stores(old(entries), entries, maxEntries, url, CachedBody(body, etag, now), ttl, evicted)
                && lastAccess == now
      ensures ttl <= 0.0 || maxEntries == 0 ==> State() == old(State())
    {
      ghost var full := |entries| >= maxEntries;
      if ttl <= 0.0 || maxEntries == 0 {
        evicted := AnyOldest(entries, maxEntries);
        return;
      }
      evicted := {};
      if |entries| >= maxEntries {
        entries, evicted := DropOldest(entries, InsertedAt, EvictCount(maxEntries, |entries|));
        entries := Unexpired(entries, ttl, now);
      }
      lastAccess := now;
      entries := entries[url := CachedBody(body, etag, now)];
    }

    method Prune(ttl: real, now: real) returns (before: nat, after: nat)
      modifies this
      ensures State() == Step(old(State()), maxEntries, Event.Prune(ttl, now))
      ensures forall u :: u in entries <==> u in old(entries) && (ttl > 0.0 ==> now - old(entries)[u].insertedAt < ttl)
      ensures (before, after) == if ttl > 0.0 then (|old(entries)|, |entries|) else (0, 0)
    {
      before, after := 0, 0;
      if ttl > 0.0 {
        before := |entries|;
        entries := Unexpired(entries, ttl, now);
        after := |entries|;
      }
    }

    // The counts are zero unless something was dropped.
    method EvictIfIdle(idleSecs: nat, now: real) returns (before: nat, after: nat)
      modifies this
      ensures State() == Step(old(State()), maxEntries, Event.EvictIfIdle(idleSecs, now))
      ensures State() ==
                if idleSecs > 0 && now - old(lastAccess) >= idleSecs as real && old(entries) != map[]
                then Cache(map[], now) else old(State())
      ensures before == |old(entries)| - |entries| && after == 0
    {
      before, after := 0, 0;
      if idleSecs == 0 || (now - lastAccess).Floor < idleSecs || |entries| == 0 {
        return;
      }
      before := |entries|;
      entries := map[];
      lastAccess := now;
    }

    // remove_api_cache_entry
    method Remove(url: string, ghost now: real)
      modifies this`entries
      ensures State() == Step(old(State()), maxEntries, Event.Remove(url, now))
      ensures url !in entries && forall u | u != url :: u in entries <==> u in old(entries)
    {
      entries := entries - {url};
    }

    // clear_api_cache
    method Clear(ghost now: real)
      modifies this`entries
      ensures State() == Step(old(State()), maxEntries, Event.Clear(now))
      ensures entries == map[]
    {
      entries := map[];
    }

    // fetch_authed_conditional. A cache hit asks nothing of the origin; otherwise
    // `sent` is the validator that goes upstream and `resp` what comes back.
    method FetchConditional(url: string, bypass: bool, ttl: real, now: real, resp: Response)
        returns (outcome: Outcome, asked: bool, sent: Option<string>, ghost evicted: set<string>)
      modifies this
      ensures |old(entries)| >= maxEntries ==> OldestEntries(old(entries), maxEntries, evicted)
      ensures (State(), outcome) == Fetch(old(State()), maxEntries, url, bypass, ttl, now, resp, evicted)
      ensures asked <==> bypass || !IsFresh(old(entries), url, ttl, now)
      ensures sent == if asked && !bypass && url in old(entries) then old(entries)[url].etag else None
      ensures !asked ==> outcome == Body(old(entries)[url].body, false) && State() == Cache(old(entries), now)
      ensures asked && (resp.Failed? || (resp.NotModified? && url !in old(entries))) ==>
                outcome == Error && State() == old(State())
      ensures asked && resp.NotModified? && url in old(entries) ==>
                && outcome == Body(old(entries)[url].body, true)
                && State() == Cache(old(entries)[url := old(entries)[url].(insertedAt := now)], now)
      ensures asked && resp.Success? ==> outcome == Body(resp.body, false)
      ensures asked && resp.Success? && !bypass && ttl > 0.0 && maxEntries > 0 ==>
                && Stores(old(entries), entries, maxEntries, url, CachedBody(resp.body, resp.etag, now), ttl, evicted)
                && lastAccess == now
      ensures asked && resp.Success? && (bypass || ttl <= 0.0 || maxEntries == 0) ==> State() == old(State())
    {
      evicted := AnyOldest(entries, maxEntries);
      asked, sent := true, None;
      if !bypass {
        var hit := Lookup(url, ttl, now);
        if hit.Some? {
          return Body(hit.value, false), false, None, evicted;
        }
        sent := if url in entries then entries[url].etag else None;
      }
      match resp
      case NotModified =>
        if url in entries {
          outcome := Body(entries[url].body, true);
          entries := entries[url := entries[url].(insertedAt := now)];
          lastAccess := now;
        } else {
          outcome := Error;
        }
      case Failed =>
        outcome := Error;
      case Success(body, etag) =>
        outcome := Body(body, false);
        if !bypass {
          evicted := Insert(url, body, etag, ttl, now);
        }
    }
  }

  // Some legal eviction choice always exists.
  ghost function AnyOldest(entries: Entries, maxEntries: nat): (evicted: set<string>)
    ensures OldestEntries(entries, maxEntries, evicted)
  {
    ChoiceExists(entries, InsertedAt, EvictCount(maxEntries, |entries|));
    var evicted :| IsOldestChoice(entries, InsertedAt, EvictCount(maxEntries, |entries|), evicted);
    evicted
  }
}
