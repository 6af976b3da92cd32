// The in-memory token-bucket limiter (parser-api/src/ratelimit.rs), with time in
// real seconds and tokens as exact reals.
module RateLimit {
  import opened Sorting
  import opened Eviction

  datatype Bucket = Bucket(tokens: real, lastRefill: real, burst: real)

  const GC_INTERVAL: real := 300.0
  const GC_IDLE_THRESHOLD: real := 900.0
  const MAX_BUCKETS: nat := 50000

  type Table = map<string, Bucket>

  function Min(a: real, b: real): real { if a < b then a else b }

  // A bucket holds at least one token.
  function Capacity(burst: nat): real {
    if burst < 1 then 1.0 else burst as real
  }

  // Tokens that `dt` seconds add at `perMin` a minute. Summing one token a minute
  // `perMin` times keeps the whole-run proofs linear; RefillIsRateTimesElapsed
  // is the product the limiter computes.
  function Refill(dt: real, perMin: nat): real {
    if perMin == 0 then 0.0 else Refill(dt, perMin - 1) + dt / 60.0
  }

  lemma {:induction false} RefillIsRateTimesElapsed(dt: real, perMin: nat)
    ensures Refill(dt, perMin) == dt * (perMin as real / 60.0)
  {
    if perMin == 0 {
    } else {
      RefillIsRateTimesElapsed(dt, perMin - 1);
      assert perMin as real / 60.0 == (perMin - 1) as real / 60.0 + 1.0 / 60.0;
    }
  }

  lemma {:induction false} RefillAdds(a: real, b: real, c: real, perMin: nat)
    ensures Refill(c - a, perMin) == Refill(c - b, perMin) + Refill(b - a, perMin)
    ensures a <= b ==> Refill(b - a, perMin) >= 0.0
    ensures Refill(a - a, perMin) == 0.0
  {
    if perMin == 0 {
    } else {
      RefillAdds(a, b, c, perMin - 1);
    }
  }

  // Tokens a check at `now` finds in the key's bucket, before it takes one.
  function Available(table: Table, key: string, perMin: nat, burst: nat, now: real): real {
    if key in table
    then Min(table[key].tokens + Refill(now - table[key].lastRefill, perMin), Capacity(burst))
    else Capacity(burst)
  }

  function Grants(table: Table, key: string, perMin: nat, burst: nat, now: real): bool {
    Available(table, key, perMin, burst, now) >= 1.0
  }

  function Taken(table: Table, key: string, perMin: nat, burst: nat, now: real): Table {
    var available := Available(table, key, perMin, burst, now);
    table[key := Bucket(if available >= 1.0 then available - 1.0 else available, now, Capacity(burst))]
  }

  // The age-based sweep: drop buckets that are both full and idle.
  function RetainActive(table: Table, now: real): Table {
    map k |
      k in table && !(table[k].tokens >= table[k].burst && now - table[k].lastRefill > GC_IDLE_THRESHOLD) ::
      table[k]
  }

  // A legal choice for the oversized sweep: half the keys, none refilled later
  // than a key that stays (ties are broken by the hash map's iteration order).
  ghost predicate OldestHalf(table: Table, evicted: set<string>) {
    IsOldestChoice(table, LastRefill, |table| / 2, evicted)
  }

  function LastRefill(b: Bucket): real {
    b.lastRefill
  }

  function Swept(table: Table, now: real, evicted: set<string>): Table {
    if |table| > MAX_BUCKETS then table - evicted else RetainActive(table, now)
  }

  // --- reachable tables --------------------------------------------------------

  // Every bucket sits in [0, burst), and was last refilled in the past.
  ghost predicate Reachable(table: Table, now: real) {
    forall k | k in table :: 0.0 <= table[k].tokens < table[k].burst && table[k].lastRefill <= now
  }

  lemma AvailableIsWithinBurst(table: Table, key: string, perMin: nat, burst: nat, now: real)
    requires Reachable(table, now)
    ensures 0.0 <= Available(table, key, perMin, burst, now) <= Capacity(burst)
  {
    if key in table {
      RefillAdds(table[key].lastRefill, now, now, perMin);
    }
  }

  lemma TakingStaysBelowBurst(table: Table, key: string, perMin: nat, burst: nat, now: real)
    requires Reachable(table, now)
    ensures Reachable(Taken(table, key, perMin, burst, now), now)
  {
    AvailableIsWithinBurst(table, key, perMin, burst, now);
  }

  // No reachable bucket is ever full, so the age-based sweep is the identity:
  // it reclaims nothing and no later verdict can tell whether it ran.
  lemma AgeSweepIsInvisible(table: Table, now: real)
    requires Reachable(table, now)
    ensures RetainActive(table, now) == table
  {
  }

  // --- whole runs --------------------------------------------------------------

  datatype Event =
    | Check(key: string, perMin: nat, burst: nat, at: real, gcDue: bool, evicted: set<string>)
    | Prune(at: real, evicted: set<string>)

  // After a check the sweep runs when its timer is due or the table is too big.
  function Step(table: Table, e: Event): Table {
    match e
    case Check(key, perMin, burst, at, gcDue, evicted) =>
      var t := Taken(table, key, perMin, burst, at);
      if gcDue || |t| > MAX_BUCKETS then Swept(t, at, evicted) else t
    case Prune(at, evicted) => Swept(table, at, evicted)
  }

  // The table an oversized sweep would choose from, if this event runs one.
  ghost predicate LegalChoice(table: Table, e: Event) {
    var t := if e.Check? then Taken(table, e.key, e.perMin, e.burst, e.at) else table;
    |t| > MAX_BUCKETS ==> OldestHalf(t, e.evicted)
  }

  ghost predicate OversizeEvicts(table: Table, e: Event, key: string) {
    var t := if e.Check? then Taken(table, e.key, e.perMin, e.burst, e.at) else table;
    |t| > MAX_BUCKETS && key in e.evicted
  }

  ghost function Run(table: Table, events: seq<Event>): Table
    decreases |events|
  {
    if events == [] then table else Run(Step(table, events[0]), events[1..])
  }

  // A run from time `since`: clocks never go back, the sweeps choose legally,
  // `key` is always checked with the same limits, and no oversized sweep of the
  // window drops `key`.
  ghost predicate Window(table: Table, events: seq<Event>, since: real, key: string, perMin: nat, burst: nat)
    decreases |events|
  {
    events == [] ||
    (var e := events[0];
     && since <= e.at
     && LegalChoice(table, e)
     && !OversizeEvicts(table, e, key)
     && (e.Check? && e.key == key ==> e.perMin == perMin && e.burst == burst)
     && Window(Step(table, e), events[1..], e.at, key, perMin, burst))
  }

  ghost function GrantedTo(table: Table, events: seq<Event>, key: string): nat
    decreases |events|
  {
    if events == [] then 0
    else
      var e := events[0];
      (if GrantsKey(table, e, key) then 1 else 0)
      + GrantedTo(Step(table, e), events[1..], key)
  }

  ghost function End(events: seq<Event>, since: real): real {
    if events == [] then since else events[|events| - 1].at
  }

  lemma StepKeepsReachable(table: Table, e: Event, since: real)
    requires Reachable(table, since) && since <= e.at
    ensures Reachable(Step(table, e), e.at)
  {
    assert Reachable(table, e.at);
    if e.Check? {
      TakingStaysBelowBurst(table, e.key, e.perMin, e.burst, e.at);
    }
  }

  lemma RefillIsBounded(table: Table, key: string, perMin: nat, burst: nat, since: real, now: real)
    requires since <= now
    ensures Available(table, key, perMin, burst, now)
         <= Available(table, key, perMin, burst, since) + Refill(now - since, perMin)
  {
    RefillAdds(since, now, now, perMin);
    if key in table {
      RefillAdds(table[key].lastRefill, since, now, perMin);
    }
  }

  // The key's bucket after a step is the one the check left, sweep or no sweep.
  lemma SweepSparesKey(table: Table, e: Event, key: string)
    requires Reachable(table, e.at) && LegalChoice(table, e) && !OversizeEvicts(table, e, key)
    ensures var t := if e.Check? then Taken(table, e.key, e.perMin, e.burst, e.at) else table;
            && (key in Step(table, e) <==> key in t)
            && (key in t ==> Step(table, e)[key] == t[key])
  {
    var t := if e.Check? then Taken(table, e.key, e.perMin, e.burst, e.at) else table;
    if e.Check? {
      TakingStaysBelowBurst(table, e.key, e.perMin, e.burst, e.at);
    }
    AgeSweepIsInvisible(t, e.at);
  }

  // Whether the event grants the key a token.
  ghost predicate GrantsKey(table: Table, e: Event, key: string) {
    e.Check? && e.key == key && Grants(table, key, e.perMin, e.burst, e.at)
  }

  // What a step does to the key's spendable tokens: a grant costs one, and
  // nothing else changes what a later check would find.
  lemma StepSpends(table: Table, e: Event, key: string, perMin: nat, burst: nat)
    requires Reachable(table, e.at)
    requires LegalChoice(table, e) && !OversizeEvicts(table, e, key)
    requires e.Check? && e.key == key ==> e.perMin == perMin && e.burst == burst
    ensures Available(Step(table, e), key, perMin, burst, e.at) + (if GrantsKey(table, e, key) then 1.0 else 0.0)
            == Available(table, key, perMin, burst, e.at)
  {
    SweepSparesKey(table, e, key);
    AvailableIsWithinBurst(table, key, perMin, burst, e.at);
    RefillAdds(e.at, e.at, e.at, perMin);
  }

  lemma StepWithinRefill(table: Table, e: Event, since: real, key: string, perMin: nat, burst: nat)
    requires Reachable(table, since) && since <= e.at
    requires LegalChoice(table, e) && !OversizeEvicts(table, e, key)
    requires e.Check? && e.key == key ==> e.perMin == perMin && e.burst == burst
    ensures Available(Step(table, e), key, perMin, burst, e.at) + (if GrantsKey(table, e, key) then 1.0 else 0.0)
            <= Available(table, key, perMin, burst, since) + Refill(e.at - since, perMin)
  {
    assert Reachable(table, e.at);
    StepSpends(table, e, key, perMin, burst);
    RefillIsBounded(table, key, perMin, burst, since, e.at);
  }

  // Tokens a later check finds: the refill on top, up to the burst.
  lemma AvailableLater(table: Table, key: string, perMin: nat, burst: nat, since: real, now: real)
    requires since <= now
    ensures Available(table, key, perMin, burst, now)
         == Min(Available(table, key, perMin, burst, since) + Refill(now - since, perMin), Capacity(burst))
  {
    RefillAdds(since, now, now, perMin);
    if key in table {
      RefillAdds(table[key].lastRefill, since, now, perMin);
    }
  }

  // Granted tokens, and what is left at `now`, come from what was there and the refill.
  ghost predicate Covered(
      table: Table, events: seq<Event>, since: real, key: string, perMin: nat, burst: nat, now: real) {
    GrantedTo(table, events, key) as real + Available(Run(table, events), key, perMin, burst, now)
    <= Available(table, key, perMin, burst, since) + Refill(now - since, perMin)
  }

  // From `since` to just after an event at `at`: the tokens found there are those of
  // `since` and the refill, up to the burst, and a grant costs one.
  ghost predicate Leads(
      table: Table, next: Table, granted: bool, since: real, at: real, key: string, perMin: nat, burst: nat) {
    var found := Available(table, key, perMin, burst, at);
    var filled := Available(table, key, perMin, burst, since) + Refill(at - since, perMin);
    && Available(next, key, perMin, burst, at) == found - (if granted then 1.0 else 0.0)
    && found <= filled && (found == Capacity(burst) || found == filled)
  }

  lemma StepLeads(table: Table, e: Event, since: real, key: string, perMin: nat, burst: nat)
    requires Reachable(table, since) && since <= e.at
    requires LegalChoice(table, e) && !OversizeEvicts(table, e, key)
    requires e.Check? && e.key == key ==> e.perMin == perMin && e.burst == burst
    ensures Leads(table, Step(table, e), GrantsKey(table, e, key), since, e.at, key, perMin, burst)
  {
    assert Reachable(table, e.at);
    StepSpends(table, e, key, perMin, burst);
    AvailableLater(table, key, perMin, burst, since, e.at);
  }

  lemma CoveredWithFirst(
      table: Table, events: seq<Event>, since: real, key: string, perMin: nat, burst: nat, now: real)
    requires events != []
    requires var e := events[0];
             && Leads(table, Step(table, e), GrantsKey(table, e, key), since, e.at, key, perMin, burst)
             && Covered(Step(table, e), events[1..], e.at, key, perMin, burst, now)
    ensures Covered(table, events, since, key, perMin, burst, now)
  {
    var e := events[0];
    RefillAdds(since, e.at, now, perMin);
    FirstEvent(table, events, key);
    SpentTogether(if GrantsKey(table, e, key) then 1 else 0, GrantedTo(Step(table, e), events[1..], key),
                  Available(Run(table, events), key, perMin, burst, now),
                  Available(Step(table, e), key, perMin, burst, e.at), Available(table, key, perMin, burst, since),
                  Refill(e.at - since, perMin), Refill(now - e.at, perMin));
  }

  lemma SpentTogether(grant: nat, later: nat, left: real, mid: real, start: real, first: real, second: real)
    requires mid + grant as real <= start + first && later as real + left <= mid + second
    ensures (grant + later) as real + left <= start + (first + second)
  {
  }

  // The first event, and the rest of the run.
  lemma FirstEvent(table: Table, events: seq<Event>, key: string)
    requires events != []
    ensures Run(table, events) == Run(Step(table, events[0]), events[1..])
    ensures GrantedTo(table, events, key) ==
            (if GrantsKey(table, events[0], key) then 1 else 0) + GrantedTo(Step(table, events[0]), events[1..], key)
  {
  }

  lemma {:induction false} SpendingBound(
      table: Table, events: seq<Event>, since: real, key: string, perMin: nat, burst: nat, now: real)
    requires Reachable(table, since) && Window(table, events, since, key, perMin, burst) && End(events, since) <= now
    ensures since <= End(events, since) && Reachable(Run(table, events), End(events, since))
    ensures Covered(table, events, since, key, perMin, burst, now)
    decreases |events|
  {
    if events == [] {
      RefillIsBounded(table, key, perMin, burst, since, now);
    } else {
      var e, rest := events[0], events[1..];
      assert End(events, since) == End(rest, e.at);
      StepKeepsReachable(table, e, since);
      SpendingBound(Step(table, e), rest, e.at, key, perMin, burst, now);
      StepLeads(table, e, since, key, perMin, burst);
      CoveredWithFirst(table, events, since, key, perMin, burst, now);
    }
  }

  // `granted` is covered by what was available plus the refill of the stretch.
  ghost predicate Spent(granted: nat, available: real, since: real, end: real, perMin: nat) {
    since <= end && granted as real <= available + Refill(end - since, perMin)
  }

  // What `perMin` a minute comes to in `time` seconds.
  function Earned(time: real, perMin: nat): real {
    perMin as real * time / 60.0
  }

  lemma RefillAtRate(dt: real, perMin: nat)
    ensures Refill(dt, perMin) == Earned(dt, perMin)
  {
    RefillIsRateTimesElapsed(dt, perMin);
    PerMinute(perMin as real, dt);
  }

  lemma PerMinute(p: real, t: real)
    ensures t * (p / 60.0) == p * t / 60.0
  {
  }

  // The window bound: over any stretch of any run, a key is granted at most its
  // burst plus what its rate refills in that time.
  lemma GrantsInAnyWindow(table: Table, events: seq<Event>, since: real, key: string, perMin: nat, burst: nat)
    requires Reachable(table, since) && Window(table, events, since, key, perMin, burst)
    ensures GrantedTo(table, events, key) as real
            <= (if burst < 1 then 1 else burst) as real + Earned(End(events, since) - since, perMin)
  {
    SpendingBound(table, events, since, key, perMin, burst, End(events, since));
    AvailableIsWithinBurst(table, key, perMin, burst, since);
    AvailableIsWithinBurst(Run(table, events), key, perMin, burst, End(events, since));
    RefillAtRate(End(events, since) - since, perMin);
  }

  lemma SpentAtRate(granted: nat, available: real, since: real, end: real, perMin: nat)
    requires Spent(granted, available, since, end, perMin)
    ensures granted as real <= available + Earned(end - since, perMin)
  {
    RefillAtRate(end - since, perMin);
  }

  // --- refusals ---------------------------------------------------------------------

  // The run is cut at `k`, at the moment `s`.
  ghost predicate CutAt(events: seq<Event>, k: nat, s: real) {
    && k <= |events|
    && (forall i | 0 <= i < k :: events[i].at <= s)
    && (forall i | k <= i < |events| :: s <= events[i].at)
  }

  // What the key was granted from the `k`-th event on.
  ghost function GrantedFrom(table: Table, events: seq<Event>, key: string, k: nat): nat
    requires k <= |events|
  {
    GrantedTo(Run(table, events[..k]), events[k..], key)
  }

  lemma CutRest(events: seq<Event>, k: nat, s: real)
    requires k > 0 && CutAt(events, k, s)
    ensures events[0].at <= s && CutAt(events[1..], k - 1, s)
    ensures events[..k] != [] && events[..k][0] == events[0]
    ensures events[..k][1..] == events[1..][..k - 1] && events[k..] == events[1..][k - 1..]
  {
    assert forall i | 0 < i < |events| :: events[i] == events[1..][i - 1];
  }

  lemma {:induction false} WindowAfter(
      table: Table, events: seq<Event>, since: real, key: string, perMin: nat, burst: nat, k: nat, s: real)
    requires Reachable(table, since) && Window(table, events, since, key, perMin, burst)
    requires CutAt(events, k, s) && since <= s
    ensures var cut := Run(table, events[..k]);
            && Reachable(cut, s)
            && Window(cut, events[k..], s, key, perMin, burst)
            && Run(cut, events[k..]) == Run(table, events)
    decreases k
  {
    if k == 0 {
      assert events[0..] == events && events[..0] == [];
      assert events != [] ==> s <= events[0].at;
    } else {
      var e, rest := events[0], events[1..];
      StepKeepsReachable(table, e, since);
      CutRest(events, k, s);
      assert Run(table, events[..k]) == Run(Step(table, e), rest[..k - 1]);
      WindowAfter(Step(table, e), rest, e.at, key, perMin, burst, k - 1, s);
    }
  }

  // What a check at `now` finds is the `level` of the moment `s`, with the refill
  // since and less the grants since.
  ghost predicate CountedFrom(
      table: Table, events: seq<Event>, key: string, perMin: nat, burst: nat, now: real, k: nat, s: real,
      level: real) {
    && CutAt(events, k, s) && s <= now
    && Available(Run(table, events), key, perMin, burst, now)
       == level + Refill(now - s, perMin) - GrantedFrom(table, events, key, k) as real
  }

  // Counted from a moment the bucket was full, or from the start of the run.
  ghost predicate Counted(
      table: Table, events: seq<Event>, since: real, key: string, perMin: nat, burst: nat, now: real,
      k: nat, s: real, level: real) {
    && CountedFrom(table, events, key, perMin, burst, now, k, s, level) && since <= s
    && (level == Capacity(burst) || (k == 0 && s == since && level == Available(table, key, perMin, burst, since)))
  }

  lemma {:induction false} LastFullMoment(
      table: Table, events: seq<Event>, since: real, key: string, perMin: nat, burst: nat, now: real)
      returns (k: nat, s: real, level: real)
    requires Reachable(table, since) && Window(table, events, since, key, perMin, burst) && End(events, since) <= now
    ensures Counted(table, events, since, key, perMin, burst, now, k, s, level)
    decreases |events|
  {
    if events == [] {
      k, s, level := FullMomentOfNone(table, since, key, perMin, burst, now);
    } else {
      var e, rest := events[0], events[1..];
      StepKeepsReachable(table, e, since);
      assert End(events, since) == End(rest, e.at);
      k, s, level := LastFullMoment(Step(table, e), rest, e.at, key, perMin, burst, now);
      StepLeads(table, e, since, key, perMin, burst);
      if level == Capacity(burst) {
        LaterCut(table, events, since, key, perMin, burst, now, k, s, level);
        k := k + 1;
      } else {
        s, level := EarlierLevel(table, events, since, key, perMin, burst, now);
      }
    }
  }

  lemma FullMomentOfNone(table: Table, since: real, key: string, perMin: nat, burst: nat, now: real)
      returns (k: nat, s: real, level: real)
    requires since <= now
    ensures Counted(table, [], since, key, perMin, burst, now, k, s, level)
  {
    AvailableLater(table, key, perMin, burst, since, now);
    RefillAdds(now, now, now, perMin);
    k, s, level := 0, since, Available(table, key, perMin, burst, since);
    if Available(table, key, perMin, burst, now) == Capacity(burst) {
      s, level := now, Capacity(burst);
    }
  }

  lemma LaterCut(
      table: Table, events: seq<Event>, since: real, key: string, perMin: nat, burst: nat, now: real, k: nat, s: real,
      level: real)
    requires events != [] && since <= events[0].at && level == Capacity(burst)
    requires Counted(Step(table, events[0]), events[1..], events[0].at, key, perMin, burst, now, k, s, level)
    ensures Counted(table, events, since, key, perMin, burst, now, k + 1, s, level)
  {
    var rest := events[1..];
    assert events[..k + 1][1..] == rest[..k] && events[k + 1..] == rest[k..];
    assert forall i | 0 <= i < |rest| :: rest[i] == events[i + 1];
    assert forall i | 0 < i < |events| :: events[i] == rest[i - 1];
  }

  // One event further back: the level before it is full, or that of `since`.
  lemma EarlierLevel(
      table: Table, events: seq<Event>, since: real, key: string, perMin: nat, burst: nat, now: real)
      returns (s: real, level: real)
    requires events != [] && since <= events[0].at
    requires var e := events[0];
             && Leads(table, Step(table, e), GrantsKey(table, e, key), since, e.at, key, perMin, burst)
             && CountedFrom(Step(table, e), events[1..], key, perMin, burst, now, 0, e.at,
                            Available(Step(table, e), key, perMin, burst, e.at))
    ensures Counted(table, events, since, key, perMin, burst, now, 0, s, level)
  {
    var e := events[0];
    GrantedFromStart(table, events, key);
    GrantedFromStart(Step(table, e), events[1..], key);
    FirstEvent(table, events, key);
    RefillAdds(since, e.at, now, perMin);
    if Available(table, key, perMin, burst, e.at) == Capacity(burst) {
      s, level := e.at, Capacity(burst);
    } else {
      s, level := since, Available(table, key, perMin, burst, since);
    }
    CutBeforeFirst(events, s);
  }

  lemma GrantedFromStart(table: Table, events: seq<Event>, key: string)
    ensures GrantedFrom(table, events, key, 0) == GrantedTo(table, events, key)
  {
    assert events[..0] == [] && events[0..] == events;
  }

  lemma CutBeforeFirst(events: seq<Event>, s: real)
    requires events != [] && s <= events[0].at && CutAt(events[1..], 0, events[0].at)
    ensures CutAt(events, 0, s)
  {
    assert forall i | 0 < i < |events| :: events[i] == events[1..][i - 1];
  }

  // Since `s` the key has been granted more than its burst and the refill of that
  // time leave room for.
  ghost predicate Overdrawn(
      table: Table, events: seq<Event>, since: real, key: string, perMin: nat, burst: nat, now: real, k: nat, s: real) {
    && CutAt(events, k, s) && since <= s <= now
    && GrantedFrom(table, events, key, k) as real
       > (if burst < 1 then 1 else burst) as real + Earned(now - s, perMin) - 1.0
  }

  // The same with the refill added up token by token.
  ghost predicate Exhausts(
      table: Table, events: seq<Event>, since: real, key: string, perMin: nat, burst: nat, now: real, k: nat, s: real) {
    && CutAt(events, k, s) && since <= s <= now
    && GrantedFrom(table, events, key, k) as real > Capacity(burst) + Refill(now - s, perMin) - 1.0
  }

  lemma OverdrawnIsExhausted(
      table: Table, events: seq<Event>, since: real, key: string, perMin: nat, burst: nat, now: real, k: nat, s: real)
    ensures Overdrawn(table, events, since, key, perMin, burst, now, k, s)
       <==> Exhausts(table, events, since, key, perMin, burst, now, k, s)
  {
    RefillAtRate(now - s, perMin);
  }

  // A check is refused if and only if the key, new at the start of the run, has in
  // some stretch up to now been granted all its burst and the refill of that
  // stretch allow: the limiter neither lets more through nor holds anything back.
  lemma RefusedIffOverdrawn(
      table: Table, events: seq<Event>, since: real, key: string, perMin: nat, burst: nat, now: real)
    requires Reachable(table, since) && key !in table
    requires Window(table, events, since, key, perMin, burst) && End(events, since) <= now
    ensures !Grants(Run(table, events), key, perMin, burst, now) <==>
            exists k, s :: Overdrawn(table, events, since, key, perMin, burst, now, k, s)
  {
    if !Grants(Run(table, events), key, perMin, burst, now) {
      var k, s := RefusedIsExhausted(table, events, since, key, perMin, burst, now);
      OverdrawnIsExhausted(table, events, since, key, perMin, burst, now, k, s);
    }
    forall k, s | Overdrawn(table, events, since, key, perMin, burst, now, k, s)
      ensures !Grants(Run(table, events), key, perMin, burst, now)
    {
      OverdrawnIsExhausted(table, events, since, key, perMin, burst, now, k, s);
      ExhaustedIsRefused(table, events, since, key, perMin, burst, now, k, s);
    }
  }

  lemma RefusedIsExhausted(
      table: Table, events: seq<Event>, since: real, key: string, perMin: nat, burst: nat, now: real)
      returns (k: nat, s: real)
    requires Reachable(table, since) && key !in table
    requires Window(table, events, since, key, perMin, burst) && End(events, since) <= now
    requires !Grants(Run(table, events), key, perMin, burst, now)
    ensures Exhausts(table, events, since, key, perMin, burst, now, k, s)
  {
    var level;
    k, s, level := LastFullMoment(table, events, since, key, perMin, burst, now);
    assert level == Capacity(burst);
  }

  lemma ExhaustedIsRefused(
      table: Table, events: seq<Event>, since: real, key: string, perMin: nat, burst: nat, now: real, k: nat, s: real)
    requires Reachable(table, since) && Window(table, events, since, key, perMin, burst) && End(events, since) <= now
    requires Exhausts(table, events, since, key, perMin, burst, now, k, s)
    ensures !Grants(Run(table, events), key, perMin, burst, now)
  {
    var cut := Run(table, events[..k]);
    WindowAfter(table, events, since, key, perMin, burst, k, s);
    EndAfter(events, since, k, s, now);
    SpendingBound(cut, events[k..], s, key, perMin, burst, now);
    AvailableIsWithinBurst(cut, key, perMin, burst, s);
  }

  lemma EndAfter(events: seq<Event>, since: real, k: nat, s: real, now: real)
    requires CutAt(events, k, s) && s <= now && End(events, since) <= now
    ensures End(events[k..], s) <= now
  {
  }

  // The run without the checks of the key that it refuses.
  ghost function WithoutRefused(table: Table, events: seq<Event>, key: string): seq<Event>
    decreases |events|
  {
    if events == [] then []
    else
      var e, rest := events[0], WithoutRefused(Step(table, events[0]), events[1..], key);
      if e.Check? && e.key == key && !GrantsKey(table, e, key) then rest else [e] + rest
  }

  // The verdicts without the key's refusals.
  ghost function ButRefused(verdicts: seq<(string, bool)>, key: string): seq<(string, bool)> {
    if verdicts == [] then []
    else (if verdicts[0] == (key, false) then [] else [verdicts[0]]) + ButRefused(verdicts[1..], key)
  }

  // Two tables no check of the run tells apart: alike for every other key, and
  // with as many tokens to spend for this one.
  ghost predicate Alike(a: Table, b: Table, key: string, perMin: nat, burst: nat, now: real) {
    && a.Keys == b.Keys && Reachable(a, now) && Reachable(b, now)
    && (forall k | k in a && k != key :: a[k] == b[k])
    && Available(a, key, perMin, burst, now) == Available(b, key, perMin, burst, now)
  }

  lemma AlikeLater(a: Table, b: Table, key: string, perMin: nat, burst: nat, since: real, now: real)
    requires Alike(a, b, key, perMin, burst, since) && since <= now
    ensures Alike(a, b, key, perMin, burst, now)
  {
    AvailableLater(a, key, perMin, burst, since, now);
    AvailableLater(b, key, perMin, burst, since, now);
  }

  // A refused check changes nothing anyone can see.
  lemma RefusalStaysAlike(a: Table, b: Table, e: Event, key: string, perMin: nat, burst: nat)
    requires Alike(a, b, key, perMin, burst, e.at) && |a| <= MAX_BUCKETS
    requires e.Check? && e.key == key && e.perMin == perMin && e.burst == burst && !GrantsKey(a, e, key)
    ensures Alike(Step(a, e), b, key, perMin, burst, e.at)
  {
    var t := Taken(a, key, perMin, burst, e.at);
    assert key in a;
    assert t.Keys == a.Keys && |t| == |a|;
    TakingStaysBelowBurst(a, key, perMin, burst, e.at);
    AgeSweepIsInvisible(t, e.at);
    RefillAdds(e.at, e.at, e.at, perMin);
    AvailableIsWithinBurst(a, key, perMin, burst, e.at);
  }

  lemma SweepStaysAlike(a: Table, b: Table, key: string, perMin: nat, burst: nat, at: real, evicted: set<string>)
    requires Alike(a, b, key, perMin, burst, at)
    ensures Alike(Swept(a, at, evicted), Swept(b, at, evicted), key, perMin, burst, at)
  {
    assert |a| == |a.Keys| == |b.Keys| == |b|;
    AgeSweepIsInvisible(a, at);
    AgeSweepIsInvisible(b, at);
    assert (a - evicted).Keys == a.Keys - evicted && (b - evicted).Keys == b.Keys - evicted;
    if key !in evicted {
      assert key in a ==> (a - evicted)[key] == a[key] && (b - evicted)[key] == b[key];
    }
  }

  lemma TakenStaysAlike(
      a: Table, b: Table, k: string, pm: nat, bu: nat, at: real, key: string, perMin: nat, burst: nat)
    requires Alike(a, b, key, perMin, burst, at)
    requires k == key ==> pm == perMin && bu == burst
    ensures Grants(a, k, pm, bu, at) <==> Grants(b, k, pm, bu, at)
    ensures Alike(Taken(a, k, pm, bu, at), Taken(b, k, pm, bu, at), key, perMin, burst, at)
  {
    TakingStaysBelowBurst(a, k, pm, bu, at);
    TakingStaysBelowBurst(b, k, pm, bu, at);
  }

  lemma OtherStepStaysAlike(a: Table, b: Table, e: Event, key: string, perMin: nat, burst: nat)
    requires Alike(a, b, key, perMin, burst, e.at)
    requires e.Check? && e.key == key ==> e.perMin == perMin && e.burst == burst && GrantsKey(a, e, key)
    ensures Alike(Step(a, e), Step(b, e), key, perMin, burst, e.at)
    ensures e.Check? ==> (Grants(a, e.key, e.perMin, e.burst, e.at) <==> Grants(b, e.key, e.perMin, e.burst, e.at))
  {
    match e
    case Prune(at, evicted) => SweepStaysAlike(a, b, key, perMin, burst, at, evicted);
    case Check(k, pm, bu, at, due, evicted) =>
      var ta, tb := Taken(a, k, pm, bu, at), Taken(b, k, pm, bu, at);
      TakenStaysAlike(a, b, k, pm, bu, at, key, perMin, burst);
      assert |ta| == |ta.Keys| == |tb.Keys| == |tb|;
      SweepStaysAlike(ta, tb, key, perMin, burst, at, evicted);
  }

  lemma {:induction false} RefusalsCostNothingAlike(
      a: Table, b: Table, events: seq<Event>, since: real, key: string, perMin: nat, burst: nat)
    requires Alike(a, b, key, perMin, burst, since) && |a| <= MAX_BUCKETS
    requires FixedLimits(a, events, since, key, perMin, burst)
    ensures Verdicts(b, WithoutRefused(a, events, key)) == ButRefused(Verdicts(a, events), key)
    decreases |events|
  {
    if events == [] {
    } else {
      var e, rest := events[0], events[1..];
      AlikeLater(a, b, key, perMin, burst, since, e.at);
      TableStaysBounded(a, e);
      var kept := WithoutRefused(Step(a, e), rest, key);
      var first := if e.Check? then [(e.key, Grants(a, e.key, e.perMin, e.burst, e.at))] else [];
      assert Verdicts(a, events) == first + Verdicts(Step(a, e), rest);
      if e.Check? && e.key == key && !GrantsKey(a, e, key) {
        RefusalStaysAlike(a, b, e, key, perMin, burst);
        RefusalsCostNothingAlike(Step(a, e), b, rest, e.at, key, perMin, burst);
      } else {
        OtherStepStaysAlike(a, b, e, key, perMin, burst);
        RefusalsCostNothingAlike(Step(a, e), Step(b, e), rest, e.at, key, perMin, burst);
        assert WithoutRefused(a, events, key) == [e] + kept && ([e] + kept)[1..] == kept;
        assert Verdicts(b, [e] + kept) == first + Verdicts(Step(b, e), kept);
      }
      ButRefusedSplits(first, Verdicts(Step(a, e), rest), key);
    }
  }

  lemma ButRefusedSplits(first: seq<(string, bool)>, rest: seq<(string, bool)>, key: string)
    requires |first| <= 1
    ensures ButRefused(first + rest, key) ==
            (if first == [(key, false)] then [] else first) + ButRefused(rest, key)
  {
    if first == [] {
      assert first + rest == rest;
    } else {
      assert (first + rest)[1..] == rest && first == [first[0]];
    }
  }

  // A refused check costs nothing: without the checks of a key that are refused,
  // every other verdict of the run, for this and all other keys, is the same.
  lemma RefusalsCostNothing(
      table: Table, events: seq<Event>, since: real, key: string, perMin: nat, burst: nat)
    requires Reachable(table, since) && |table| <= 50_000
    requires FixedLimits(table, events, since, key, perMin, burst)
    ensures Verdicts(table, WithoutRefused(table, events, key)) == ButRefused(Verdicts(table, events), key)
  {
    RefusalsCostNothingAlike(table, table, events, since, key, perMin, burst);
  }

  // --- with evictions of the key itself --------------------------------------------------

  // A run in which `key` is always checked with the same limits, evicted or not.
  ghost predicate FixedLimits(
      table: Table, events: seq<Event>, since: real, key: string, perMin: nat, burst: nat)
    decreases |events|
  {
    events == [] ||
    (var e := events[0];
     && since <= e.at
     && LegalChoice(table, e)
     && (e.Check? && e.key == key ==> e.perMin == perMin && e.burst == burst)
     && FixedLimits(Step(table, e), events[1..], e.at, key, perMin, burst))
  }

  // How often an oversized sweep dropped the key.
  ghost function Evictions(table: Table, events: seq<Event>, key: string): nat
    decreases |events|
  {
    if events == [] then 0
    else
      (if OversizeEvicts(table, events[0], key) then 1 else 0) + Evictions(Step(table, events[0]), events[1..], key)
  }

  // `n` bursts.
  function Bursts(n: nat, burst: nat): (b: real)
    ensures b >= 0.0
  {
    if n == 0 then 0.0 else Bursts(n - 1, burst) + Capacity(burst)
  }

  lemma {:induction false} BurstsIsProduct(n: nat, burst: nat)
    ensures Bursts(n, burst) == n as real * Capacity(burst)
  {
    if n == 0 {
    } else {
      BurstsIsProduct(n - 1, burst);
      assert n as real == (n - 1) as real + 1.0;
    }
  }

  lemma {:induction false} BurstsAdd(a: nat, b: nat, burst: nat)
    ensures Bursts(a + b, burst) == Bursts(a, burst) + Bursts(b, burst)
  {
    if a == 0 {
    } else {
      BurstsAdd(a - 1, b, burst);
    }
  }

  // What one event leaves the key, at its moment, and whether it granted it a token
  // or dropped it.
  datatype Entry = Entry(at: real, left: real, granted: nat, dropped: nat)

  ghost function EntryOf(table: Table, e: Event, key: string, perMin: nat, burst: nat): Entry {
    Entry(e.at, Available(Step(table, e), key, perMin, burst, e.at),
          if GrantsKey(table, e, key) then 1 else 0, if OversizeEvicts(table, e, key) then 1 else 0)
  }

  // The key's side of a run.
  ghost function Trace(table: Table, events: seq<Event>, key: string, perMin: nat, burst: nat): seq<Entry>
    decreases |events|
  {
    if events == [] then []
    else
      [EntryOf(table, events[0], key, perMin, burst)] + Trace(Step(table, events[0]), events[1..], key, perMin, burst)
  }

  // What the key has afterwards, and was granted, comes from what it had, the
  // refill, and a full burst if it was dropped.
  ghost predicate Follows(t: Entry, left: real, since: real, perMin: nat, burst: nat) {
    && since <= t.at && t.left >= 0.0
    && t.left + t.granted as real <= left + Refill(t.at - since, perMin) + Bursts(t.dropped, burst)
  }

  ghost predicate Linked(trace: seq<Entry>, left: real, since: real, perMin: nat, burst: nat)
    decreases |trace|
  {
    trace == [] ||
    (Follows(trace[0], left, since, perMin, burst) && Linked(trace[1..], trace[0].left, trace[0].at, perMin, burst))
  }

  // An evicted key starts over with a full burst.
  lemma EvictionRefills(table: Table, e: Event, since: real, key: string, perMin: nat, burst: nat)
    requires Reachable(table, since) && since <= e.at && LegalChoice(table, e) && OversizeEvicts(table, e, key)
    requires e.Check? && e.key == key ==> e.perMin == perMin && e.burst == burst
    ensures Available(Step(table, e), key, perMin, burst, e.at) + (if GrantsKey(table, e, key) then 1.0 else 0.0)
            <= Available(table, key, perMin, burst, since) + Refill(e.at - since, perMin) + Capacity(burst)
  {
    assert Reachable(table, e.at);
    AvailableIsWithinBurst(table, key, perMin, burst, e.at);
    RefillIsBounded(table, key, perMin, burst, since, e.at);
    assert key !in Step(table, e);
  }

  lemma FollowsFrom(t: Entry, grants: bool, drops: bool, left: real, since: real, perMin: nat, burst: nat)
    requires t.granted == (if grants then 1 else 0) && t.dropped == (if drops then 1 else 0)
    requires since <= t.at && t.left >= 0.0
    requires t.left + (if grants then 1.0 else 0.0)
             <= left + Refill(t.at - since, perMin) + if drops then Capacity(burst) else 0.0
    ensures Follows(t, left, since, perMin, burst)
  {
    assert Bursts(1, burst) == Bursts(0, burst) + Capacity(burst);
  }

  lemma EventFollows(table: Table, e: Event, since: real, key: string, perMin: nat, burst: nat)
    requires Reachable(table, since) && since <= e.at && LegalChoice(table, e)
    requires e.Check? && e.key == key ==> e.perMin == perMin && e.burst == burst
    ensures Follows(EntryOf(table, e, key, perMin, burst), Available(table, key, perMin, burst, since),
                    since, perMin, burst)
  {
    StepKeepsReachable(table, e, since);
    AvailableIsWithinBurst(Step(table, e), key, perMin, burst, e.at);
    var drops, grants := OversizeEvicts(table, e, key), GrantsKey(table, e, key);
    if drops {
      EvictionRefills(table, e, since, key, perMin, burst);
    } else {
      StepWithinRefill(table, e, since, key, perMin, burst);
    }
    FollowsFrom(EntryOf(table, e, key, perMin, burst), grants, drops,
                Available(table, key, perMin, burst, since), since, perMin, burst);
  }

  lemma {:induction false} TraceIsLinked(
      table: Table, events: seq<Event>, since: real, key: string, perMin: nat, burst: nat)
    requires Reachable(table, since) && FixedLimits(table, events, since, key, perMin, burst)
    ensures Linked(Trace(table, events, key, perMin, burst), Available(table, key, perMin, burst, since),
                   since, perMin, burst)
    decreases |events|
  {
    if events == [] {
    } else {
      var e, rest := events[0], events[1..];
      StepKeepsReachable(table, e, since);
      EventFollows(table, e, since, key, perMin, burst);
      TraceIsLinked(Step(table, e), rest, e.at, key, perMin, burst);
      TraceUnfolds(table, events, key, perMin, burst);
    }
  }

  lemma TraceUnfolds(table: Table, events: seq<Event>, key: string, perMin: nat, burst: nat)
    requires events != []
    ensures var trace := Trace(table, events, key, perMin, burst);
            && trace != [] && trace[0] == EntryOf(table, events[0], key, perMin, burst)
            && trace[1..] == Trace(Step(table, events[0]), events[1..], key, perMin, burst)
  {
  }

  ghost function TotalGranted(trace: seq<Entry>): nat {
    if trace == [] then 0 else trace[0].granted + TotalGranted(trace[1..])
  }

  ghost function TotalDropped(trace: seq<Entry>): nat {
    if trace == [] then 0 else trace[0].dropped + TotalDropped(trace[1..])
  }

  ghost function LastAt(trace: seq<Entry>, since: real): real {
    if trace == [] then since else LastAt(trace[1..], trace[0].at)
  }

  lemma {:induction false} LinkedIsCovered(trace: seq<Entry>, left: real, since: real, perMin: nat, burst: nat)
    requires left >= 0.0 && Linked(trace, left, since, perMin, burst)
    ensures Spent(TotalGranted(trace), left + Bursts(TotalDropped(trace), burst), since, LastAt(trace, since), perMin)
    decreases |trace|
  {
    if trace == [] {
      RefillAdds(since, since, since, perMin);
    } else {
      var t, rest := trace[0], trace[1..];
      LinkedIsCovered(rest, t.left, t.at, perMin, burst);
      BurstsAdd(t.dropped, TotalDropped(rest), burst);
      RefillAdds(since, t.at, LastAt(rest, t.at), perMin);
    }
  }

  lemma {:induction false} TraceTotals(
      table: Table, events: seq<Event>, since: real, key: string, perMin: nat, burst: nat)
    ensures var trace := Trace(table, events, key, perMin, burst);
            && TotalGranted(trace) == GrantedTo(table, events, key)
            && TotalDropped(trace) == Evictions(table, events, key)
            && LastAt(trace, since) == End(events, since)
    decreases |events|
  {
    if events == [] {
    } else {
      TraceUnfolds(table, events, key, perMin, burst);
      TraceTotals(Step(table, events[0]), events[1..], events[0].at, key, perMin, burst);
    }
  }

  // One burst, one more for each eviction, and what the rate refills.
  function GrantLimit(evictions: nat, burst: nat, time: real, perMin: nat): real {
    (evictions + 1) as real * (if burst < 1 then 1 else burst) as real + Earned(time, perMin)
  }

  lemma TraceBound(trace: seq<Entry>, left: real, since: real, perMin: nat, burst: nat)
    requires 0.0 <= left <= Capacity(burst) && Linked(trace, left, since, perMin, burst)
    ensures TotalGranted(trace) as real <= GrantLimit(TotalDropped(trace), burst, LastAt(trace, since) - since, perMin)
  {
    LinkedIsCovered(trace, left, since, perMin, burst);
    SpentBursts(TotalGranted(trace), left, TotalDropped(trace), burst, since, LastAt(trace, since), perMin);
  }

  lemma SpentBursts(granted: nat, available: real, n: nat, burst: nat, since: real, end: real, perMin: nat)
    requires Spent(granted, available + Bursts(n, burst), since, end, perMin) && available <= Capacity(burst)
    ensures granted as real <= GrantLimit(n, burst, end - since, perMin)
  {
    BurstsIsProduct(n + 1, burst);
    SpentAtRate(granted, available + Bursts(n, burst), since, end, perMin);
  }

  // Over any stretch of any run a key is granted at most one burst, one more for
  // each time an oversized sweep dropped it, and what its rate refills.
  lemma GrantsWithEvictions(
      table: Table, events: seq<Event>, since: real, key: string, perMin: nat, burst: nat)
    requires Reachable(table, since) && FixedLimits(table, events, since, key, perMin, burst)
    ensures GrantedTo(table, events, key) as real
            <= GrantLimit(Evictions(table, events, key), burst, End(events, since) - since, perMin)
  {
    AvailableIsWithinBurst(table, key, perMin, burst, since);
    TraceIsLinked(table, events, since, key, perMin, burst);
    TraceBound(Trace(table, events, key, perMin, burst), Available(table, key, perMin, burst, since),
               since, perMin, burst);
    TraceTotals(table, events, since, key, perMin, burst);
  }

  ghost predicate Ordered(table: Table, events: seq<Event>, since: real)
    decreases |events|
  {
    events == [] ||
    (since <= events[0].at && LegalChoice(table, events[0])
     && Ordered(Step(table, events[0]), events[1..], events[0].at))
  }

  // From an empty table every run stays reachable and never ends a step above
  // the table's limit.
  lemma {:induction false} EveryRunIsReachable(table: Table, events: seq<Event>, since: real)
    requires Reachable(table, since) && |table| <= MAX_BUCKETS && Ordered(table, events, since)
    ensures Reachable(Run(table, events), End(events, since))
    ensures |Run(table, events)| <= 50_000
    decreases |events|
  {
    if events == [] {
    } else {
      var e := events[0];
      StepKeepsReachable(table, e, since);
      TableStaysBounded(table, e);
      EveryRunIsReachable(Step(table, e), events[1..], e.at);
      assert End(events, since) == End(events[1..], e.at);
    }
  }

  // The same run with the age-based timer never firing and no age-based prunes.
  ghost function WithoutAgeGc(table: Table, events: seq<Event>): seq<Event>
    decreases |events|
  {
    if events == [] then []
    else
      var e := events[0];
      var rest := WithoutAgeGc(Step(table, e), events[1..]);
      if e.Check? then [e.(gcDue := false)] + rest
      else if |table| <= MAX_BUCKETS then rest
      else [e] + rest
  }

  // Age-based collection never changes the table, hence no later verdict.
  lemma {:induction false} AgeGcNeverMatters(table: Table, events: seq<Event>, since: real)
    requires Reachable(table, since) && Ordered(table, events, since)
    ensures Run(table, WithoutAgeGc(table, events)) == Run(table, events)
    decreases |events|
  {
    if events == [] {
    } else {
      var e := events[0];
      StepKeepsReachable(table, e, since);
      AgeGcNeverMatters(Step(table, e), events[1..], e.at);
      QuietStepIsTheSame(table, e, since);
      var quieter := WithoutAgeGc(Step(table, e), events[1..]);
      if e.Check? {
        assert ([e.(gcDue := false)] + quieter)[1..] == quieter;
      } else if |table| > MAX_BUCKETS {
        assert ([e] + quieter)[1..] == quieter;
      }
    }
  }

  // Who was granted and who refused, in order.
  ghost function Verdicts(table: Table, events: seq<Event>): seq<(string, bool)>
    decreases |events|
  {
    if events == [] then []
    else
      var e := events[0];
      (if e.Check? then [(e.key, Grants(table, e.key, e.perMin, e.burst, e.at))] else [])
      + Verdicts(Step(table, e), events[1..])
  }

  // Nor does any check of the run come out differently, for any key.
  lemma {:induction false} AgeGcChangesNoVerdict(table: Table, events: seq<Event>, since: real, key: string)
    requires Reachable(table, since) && Ordered(table, events, since)
    ensures Verdicts(table, WithoutAgeGc(table, events)) == Verdicts(table, events)
    ensures GrantedTo(table, WithoutAgeGc(table, events), key) == GrantedTo(table, events, key)
    decreases |events|
  {
    if events == [] {
    } else {
      var e := events[0];
      var quieter := WithoutAgeGc(Step(table, e), events[1..]);
      StepKeepsReachable(table, e, since);
      AgeGcChangesNoVerdict(Step(table, e), events[1..], e.at, key);
      QuietStepIsTheSame(table, e, since);
      if e.Check? {
        assert ([e.(gcDue := false)] + quieter)[1..] == quieter;
      } else if |table| > MAX_BUCKETS {
        assert ([e] + quieter)[1..] == quieter;
      }
    }
  }

  // Without its age-based sweep an event leaves the same table.
  lemma QuietStepIsTheSame(table: Table, e: Event, since: real)
    requires Reachable(table, since) && since <= e.at
    ensures e.Check? ==> Step(table, e.(gcDue := false)) == Step(table, e)
    ensures e.Prune? && |table| <= MAX_BUCKETS ==> Step(table, e) == table
  {
    assert Reachable(table, e.at);
    if e.Check? {
      TakingStaysBelowBurst(table, e.key, e.perMin, e.burst, e.at);
      AgeSweepIsInvisible(Taken(table, e.key, e.perMin, e.burst, e.at), e.at);
    } else {
      AgeSweepIsInvisible(table, e.at);
    }
  }

  lemma TableStaysBounded(table: Table, e: Event)
    requires |table| <= MAX_BUCKETS && LegalChoice(table, e)
    ensures |Step(table, e)| <= MAX_BUCKETS
  {
    var t := if e.Check? then Taken(table, e.key, e.perMin, e.burst, e.at) else table;
    assert |t| <= |table| + 1 by {
      if e.Check? {
        assert t.Keys == table.Keys + {e.key};
      }
    }
    if |t| > MAX_BUCKETS {
      HalfIsGone(t, e.evicted);
    } else {
      assert RetainActive(t, e.at).Keys <= t.Keys;
      SubsetSize(RetainActive(t, e.at).Keys, t.Keys);
    }
  }

  lemma HalfIsGone(t: Table, evicted: set<string>)
    requires OldestHalf(t, evicted)
    ensures |t - evicted| == |t| - |t| / 2
  {
    assert (t - evicted).Keys == t.Keys - evicted;
    assert |t.Keys - evicted| == |t.Keys| - |evicted|;
  }

  // What the limiter computes from the key's bucket, or from a full new one.
  lemma AvailableIsClamped(
      table: Table, key: string, perMin: nat, burst: nat, now: real, bucket: Bucket, dt: real, rate: real)
    requires bucket == if key in table then table[key] else Bucket(Capacity(burst), now, Capacity(burst))
    requires dt == now - bucket.lastRefill && rate == perMin as real / 60.0
    ensures Min(bucket.tokens + dt * rate, Capacity(burst)) == Available(table, key, perMin, burst, now)
  {
    RefillIsRateTimesElapsed(dt, perMin);
    RefillAdds(now, now, now, perMin);
  }

  // A table of more than 50,000 buckets loses half of them, none refilled later than
  // one that stays; any other loses what is full and idle for over 15 minutes.
  ghost predicate SweepLeaves(before: Table, after: Table, now: real, evicted: set<string>) {
    && (forall k | k in after :: k in before && after[k] == before[k])
    && (|before| > 50_000 ==>
          && evicted <= before.Keys && |evicted| == |before| / 2 && after.Keys == before.Keys - evicted
          && forall a, b | a in evicted && b in after :: before[a].lastRefill <= before[b].lastRefill)
    && (|before| <= 50_000 ==>
          forall k | k in before ::
            k in after <==> before[k].tokens < before[k].burst || now - before[k].lastRefill <= 15.0 * 60.0)
  }

  // --- the limiter object ------------------------------------------------------

  class RateLimiter {
    var buckets: Table
    var lastGc: real

    constructor (now: real)
      ensures buckets == map[] && lastGc == now
    {
      buckets := map[];
      lastGc := now;
    }

    method Sweep(now: real) returns (ghost evicted: set<string>)
      modifies this
      ensures SweepLeaves(old(buckets), buckets, now, evicted)
      ensures buckets == Swept(old(buckets), now, evicted) && lastGc == now
    {
      evicted := {};
      if |buckets| > MAX_BUCKETS {
        buckets, evicted := DropOldest(buckets, LastRefill, |buckets| / 2);
      } else {
        buckets := RetainActive(buckets, now);
      }
      lastGc := now;
    }

    method Check(key: string, perMin: nat, burst: nat, now: real) returns (allowed: bool, ghost step: Event)
      modifies this
      ensures step.Check? && step.key == key && step.perMin == perMin && step.burst == burst && step.at == now
      ensures step.gcDue == (now - old(lastGc) >= 300.0)
      ensures LegalChoice(old(buckets), step) && buckets == Step(old(buckets), step)
      ensures allowed == Grants(old(buckets), key, perMin, burst, now)
      ensures lastGc ==
                if step.gcDue || |Taken(old(buckets), key, perMin, burst, now)| > MAX_BUCKETS then now else old(lastGc)
    {
      var rate := perMin as real / 60.0;
      var burstF := Capacity(burst);
      var bucket := if key in buckets then buckets[key] else Bucket(burstF, now, burstF);
      var dt := now - bucket.lastRefill;
      AvailableIsClamped(buckets, key, perMin, burst, now, bucket, dt, rate);
      var tokens := Min(bucket.tokens + dt * rate, burstF);
      allowed := tokens >= 1.0;
      if allowed {
        tokens := tokens - 1.0;
      }
      buckets := buckets[key := Bucket(tokens, now, burstF)];
      ghost var taken := buckets;
      assert taken == Taken(old(buckets), key, perMin, burst, now);
      var due := now - lastGc >= GC_INTERVAL;
      ghost var evicted := {};
      if due || |buckets| > MAX_BUCKETS {
        evicted := Sweep(now);
      }
      step := Event.Check(key, perMin, burst, now, due, evicted);
    }

    method PruneBuckets(now: real) returns (before: nat, after: nat, ghost step: Event)
      modifies this
      ensures step.Prune? && step.at == now
      ensures LegalChoice(old(buckets), step) && buckets == Step(old(buckets), step)
      ensures SweepLeaves(old(buckets), buckets, now, step.evicted)
      ensures before == |old(buckets)| && after == |buckets| && lastGc == now
    {
      before := |buckets|;
      ghost var evicted := Sweep(now);
      after := |buckets|;
      step := Event.Prune(now, evicted);
    }
  }
}
