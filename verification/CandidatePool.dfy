// The round-robin drain that turns several capped id streams into one local
// candidate pool (parser-api/src/db/feed.rs, collect_candidate_ids).
module CandidatePool {

  datatype Stream = Stream(cap: nat, ids: seq<int>)

  // How many pool slots were charged to stream `i`; `charged[j]` is the stream
  // that contributed the pool's j-th id.
  ghost function Taken(charged: seq<nat>, i: nat): nat {
    multiset(charged)[i]
  }

  ghost predicate HasIdOutside(ids: seq<int>, pool: seq<int>) {
    exists x :: x in ids && x !in pool
  }

  ghost predicate NoRepeats(pool: seq<int>) {
    forall j, k | 0 <= j < k < |pool| :: pool[j] != pool[k]
  }

  // Slot j holds the first id of `ids` that the slots before it did not hold.
  ghost predicate DrawnInOrder(ids: seq<int>, pool: seq<int>, j: nat)
    requires j < |pool|
  {
    exists k :: 0 <= k < |ids| && ids[k] == pool[j] && forall m | 0 <= m < k :: ids[m] in pool[..j]
  }

  // Every slot holds the best remaining id of the stream it is charged to, and
  // no stream is charged beyond its own cap.
  ghost predicate ChargedFairly(streams: seq<Stream>, pool: seq<int>, charged: seq<nat>) {
    && |charged| == |pool|
    && (forall j | 0 <= j < |pool| :: charged[j] < |streams| && DrawnInOrder(streams[charged[j]].ids, pool, j))
    && (forall i | 0 <= i < |streams| :: Taken(charged, i) <= streams[i].cap)
  }

  // A stream that could still give something has taken at least as much as any
  // other stream, less one.
  ghost predicate MaxMinFair(streams: seq<Stream>, pool: seq<int>, charged: seq<nat>) {
    forall i, k | 0 <= i < |streams| && 0 <= k < |streams| ::
      Taken(charged, i) < streams[i].cap && HasIdOutside(streams[i].ids, pool) ==>
        Taken(charged, k) <= Taken(charged, i) + 1
  }

  // A pool short of the limit has nothing left to draw.
  ghost predicate Exhausted(streams: seq<Stream>, pool: seq<int>, charged: seq<nat>) {
    forall i | 0 <= i < |streams| ::
      Taken(charged, i) == streams[i].cap || !HasIdOutside(streams[i].ids, pool)
  }

  // --- the drain's loop invariant -------------------------------------------------

  ghost predicate Covered(ids: seq<int>, lo: nat, hi: nat, pool: seq<int>) {
    lo <= hi <= |ids| && forall j | lo <= j < hi :: ids[j] in pool
  }

  lemma CoverJoins(ids: seq<int>, pos: nat, next: nat, pool: seq<int>)
    requires Covered(ids, 0, pos, pool) && Covered(ids, pos, next, pool)
    ensures Covered(ids, 0, next, pool)
  {
  }

  lemma CoverGrows(ids: seq<int>, lo: nat, hi: nat, pool: seq<int>, id: int)
    requires Covered(ids, lo, hi, pool)
    ensures Covered(ids, lo, hi, pool + [id])
    ensures hi < |ids| && ids[hi] == id ==> Covered(ids, lo, hi + 1, pool + [id])
  {
  }

  // `pos[i]` ids of stream i have been consumed, all of them now in the pool.
  ghost predicate Consumed(streams: seq<Stream>, pos: seq<nat>, pool: seq<int>) {
    && |pos| == |streams|
    && forall i | 0 <= i < |streams| :: Covered(streams[i].ids, 0, pos[i], pool)
  }

  ghost predicate Live(s: Stream, pos: nat, taken: nat) {
    taken < s.cap && pos < |s.ids|
  }

  // Mid-round: streams before `at` have had their turn in round `round`, the
  // others have not.
  ghost predicate InRound(streams: seq<Stream>, pos: seq<nat>, charged: seq<nat>, round: nat, at: nat) {
    && |pos| == |streams|
    && forall i | 0 <= i < |streams| ::
         var turn := if i < at then round + 1 else round;
         && Taken(charged, i) <= turn
         && (Live(streams[i], pos[i], Taken(charged, i)) ==> Taken(charged, i) == turn)
  }

  lemma RoundIsFair(streams: seq<Stream>, pos: seq<nat>, pool: seq<int>, charged: seq<nat>, round: nat, at: nat)
    requires Consumed(streams, pos, pool) && InRound(streams, pos, charged, round, at)
    ensures MaxMinFair(streams, pool, charged)
  {
    forall i, k | 0 <= i < |streams| && 0 <= k < |streams| &&
                  Taken(charged, i) < streams[i].cap && HasIdOutside(streams[i].ids, pool)
      ensures Taken(charged, k) <= Taken(charged, i) + 1
    {
      OutsideMeansLive(streams[i].ids, pos[i], pool);
    }
  }

  lemma OutsideMeansLive(ids: seq<int>, pos: nat, pool: seq<int>)
    requires Covered(ids, 0, pos, pool)
    requires HasIdOutside(ids, pool)
    ensures pos < |ids|
  {
    var x :| x in ids && x !in pool;
    var k :| 0 <= k < |ids| && ids[k] == x;
  }

  lemma ChargeAppend(charged: seq<nat>, s: nat)
    ensures forall i: nat :: Taken(charged + [s], i) == Taken(charged, i) + if i == s then 1 else 0
  {
  }

  // Draw the next id of stream `i` the pool does not hold yet, skipping ids
  // another stream already contributed without charging for them.
  method DrawFresh(ids: seq<int>, start: nat, seen: set<int>, ghost pool: seq<int>) returns (next: nat, found: bool)
    requires start <= |ids| && forall x :: x in seen <==> x in pool
    ensures start <= next <= |ids|
    ensures found ==> start < next && ids[next - 1] !in pool
    ensures !found ==> next == |ids|
    ensures Covered(ids, start, if found then next - 1 else next, pool)
  {
    next := start;
    found := false;
    while next < |ids|
      invariant start <= next <= |ids|
      invariant Covered(ids, start, next, pool)
    {
      var id := ids[next];
      next := next + 1;
      if id !in seen {
        found := true;
        return;
      }
    }
  }

  // The drain's state between two turns, `at` streams into round `round`.
  ghost predicate Draining(
      streams: seq<Stream>, limit: nat, pool: seq<int>, charged: seq<nat>,
      pos: seq<nat>, round: nat, at: nat) {
    && NoRepeats(pool) && |pool| <= limit
    && ChargedFairly(streams, pool, charged)
    && Consumed(streams, pos, pool)
    && InRound(streams, pos, charged, round, at)
  }

  // A capped or drained stream's turn passes without a charge.
  lemma TurnPasses(
      streams: seq<Stream>, limit: nat, pool: seq<int>, charged: seq<nat>, pos: seq<nat>, round: nat, i: nat, next: nat)
    requires i < |streams| && Draining(streams, limit, pool, charged, pos, round, i)
    requires (next == pos[i] && Taken(charged, i) >= streams[i].cap)
             || (next == |streams[i].ids| && Covered(streams[i].ids, pos[i], next, pool))
    ensures Draining(streams, limit, pool, charged, pos[i := next], round, i + 1)
    ensures !Live(streams[i], next, Taken(charged, i))
  {
    if next == |streams[i].ids| && Covered(streams[i].ids, pos[i], next, pool) {
      CoverJoins(streams[i].ids, pos[i], next, pool);
    }
  }

  lemma TurnCharges(
      streams: seq<Stream>, pool: seq<int>, charged: seq<nat>, pos: seq<nat>, round: nat, i: nat, next: nat)
    requires i < |streams| && ChargedFairly(streams, pool, charged) && InRound(streams, pos, charged, round, i)
    requires Taken(charged, i) < streams[i].cap && pos[i] < next <= |streams[i].ids|
    requires Covered(streams[i].ids, 0, next - 1, pool)
    ensures ChargedFairly(streams, pool + [streams[i].ids[next - 1]], charged + [i])
    ensures InRound(streams, pos[i := next], charged + [i], round, i + 1)
  {
    ChargeAppend(charged, i);
    assert Live(streams[i], pos[i], Taken(charged, i));
    var pool' := pool + [streams[i].ids[next - 1]];
    forall j | 0 <= j < |pool'|
      ensures (charged + [i])[j] < |streams| && DrawnInOrder(streams[(charged + [i])[j]].ids, pool', j)
    {
      if j < |pool| {
        assert pool'[j] == pool[j] && (charged + [i])[j] == charged[j] && pool'[..j] == pool[..j];
        assert DrawnInOrder(streams[charged[j]].ids, pool, j);
      } else {
        assert pool'[..j] == pool;
        assert streams[i].ids[next - 1] == pool'[j];
      }
    }
  }

  // A turn that draws a fresh id charges exactly this stream.
  lemma TurnDraws(
      streams: seq<Stream>, limit: nat, pool: seq<int>, charged: seq<nat>, pos: seq<nat>, round: nat, i: nat, next: nat)
    requires i < |streams| && Draining(streams, limit, pool, charged, pos, round, i)
    requires Taken(charged, i) < streams[i].cap && |pool| < limit
    requires pos[i] < next <= |streams[i].ids| && streams[i].ids[next - 1] !in pool
    requires Covered(streams[i].ids, pos[i], next - 1, pool)
    ensures Draining(streams, limit, pool + [streams[i].ids[next - 1]], charged + [i], pos[i := next], round, i + 1)
  {
    var id := streams[i].ids[next - 1];
    forall k | 0 <= k < |streams| ensures Covered(streams[k].ids, 0, pos[i := next][k], pool + [id]) {
      if k == i {
        CoverJoins(streams[i].ids, pos[i], next - 1, pool);
        CoverGrows(streams[i].ids, 0, next - 1, pool, id);
      } else {
        CoverGrows(streams[k].ids, 0, pos[k], pool, id);
      }
    }
    CoverJoins(streams[i].ids, pos[i], next - 1, pool);
    TurnCharges(streams, pool, charged, pos, round, i, next);
  }

  lemma NextRound(streams: seq<Stream>, limit: nat, pool: seq<int>, charged: seq<nat>, pos: seq<nat>, round: nat)
    requires Draining(streams, limit, pool, charged, pos, round, |streams|)
    ensures Draining(streams, limit, pool, charged, pos, round + 1, 0)
  {
  }

  // A full round without progress leaves nothing to draw.
  lemma StalledMeansExhausted(
      streams: seq<Stream>, limit: nat, pool: seq<int>, charged: seq<nat>, pos: seq<nat>, round: nat)
    requires Draining(streams, limit, pool, charged, pos, round, |streams|)
    requires forall k | 0 <= k < |streams| :: !Live(streams[k], pos[k], Taken(charged, k))
    ensures Exhausted(streams, pool, charged)
  {
    forall i | 0 <= i < |streams|
      ensures Taken(charged, i) == streams[i].cap || !HasIdOutside(streams[i].ids, pool)
    {
      if HasIdOutside(streams[i].ids, pool) {
        OutsideMeansLive(streams[i].ids, pos[i], pool);
      }
    }
  }

  lemma EmptyPool(streams: seq<Stream>, limit: nat)
    ensures Draining(streams, limit, [], [], seq(|streams|, _ => 0), 0, 0)
  {
  }

  // The executable bookkeeping agrees with the pool.
  ghost predicate Books(streams: seq<Stream>, out: seq<int>, charged: seq<nat>, seen: set<int>, taken: seq<nat>) {
    && (forall x :: x in seen <==> x in out)
    && |taken| == |streams|
    && forall i | 0 <= i < |streams| :: taken[i] == Taken(charged, i)
  }

  ghost predicate NoneLiveBefore(streams: seq<Stream>, pos: seq<nat>, charged: seq<nat>, at: nat)
    requires at <= |streams| == |pos|
  {
    forall k | 0 <= k < at :: !Live(streams[k], pos[k], Taken(charged, k))
  }

  // One stream's turn: nothing if it is capped, else its next fresh id.
  method TakeTurn(
      streams: seq<Stream>, limit: nat, i: nat, out: seq<int>, ghost charged: seq<nat>,
      seen: set<int>, taken: seq<nat>, pos: seq<nat>, ghost round: nat)
      returns (out': seq<int>, ghost charged': seq<nat>, seen': set<int>, taken': seq<nat>, pos': seq<nat>)
    requires i < |streams| && |out| < limit
    requires Draining(streams, limit, out, charged, pos, round, i) && Books(streams, out, charged, seen, taken)
    ensures Draining(streams, limit, out', charged', pos', round, i + 1)
           && Books(streams, out', charged', seen', taken')
    ensures |out'| == |out| || |out'| == |out| + 1
    ensures |out'| == |out| ==>
              charged' == charged && pos' == pos[i := pos'[i]] && !Live(streams[i], pos'[i], Taken(charged', i))
  {
    out', charged', seen', taken', pos' := out, charged, seen, taken, pos;
    if taken[i] >= streams[i].cap {
      TurnPasses(streams, limit, out, charged, pos, round, i, pos[i]);
      assert pos[i := pos[i]] == pos;
      return;
    }
    var next, found := DrawFresh(streams[i].ids, pos[i], seen, out);
    if found {
      var id := streams[i].ids[next - 1];
      TurnDraws(streams, limit, out, charged, pos, round, i, next);
      ChargeAppend(charged, i);
      seen' := seen + {id};
      out' := out + [id];
      charged' := charged + [i];
      taken' := taken[i := taken[i] + 1];
    } else {
      TurnPasses(streams, limit, out, charged, pos, round, i, next);
    }
    pos' := pos[i := next];
  }

  method CollectCandidateIds(streams: seq<Stream>, limit: int)
      returns (out: seq<int>, ghost charged: seq<nat>)
    ensures limit <= 0 ==> out == []
    ensures NoRepeats(out) && (limit > 0 ==> |out| <= limit)
    ensures ChargedFairly(streams, out, charged)
    ensures limit > 0 ==> MaxMinFair(streams, out, charged)
    ensures |out| < limit ==> Exhausted(streams, out, charged)
  {
    out := [];
    charged := [];
    if limit <= 0 {
      return;
    }
    var seen: set<int> := {};
    var taken: seq<nat> := seq(|streams|, _ => 0);
    var pos: seq<nat> := seq(|streams|, _ => 0);
    ghost var round: nat := 0;
    EmptyPool(streams, limit);
    while true
      invariant Draining(streams, limit, out, charged, pos, round, 0) && Books(streams, out, charged, seen, taken)
      decreases limit - |out|
    {
      var progressed := false;
      ghost var before := |out|;
      for i := 0 to |streams|
        invariant Draining(streams, limit, out, charged, pos, round, i) && Books(streams, out, charged, seen, taken)
        invariant before <= |out| && (progressed <==> before < |out|)
        invariant !progressed ==> NoneLiveBefore(streams, pos, charged, i)
      {
        if |out| >= limit {
          RoundIsFair(streams, pos, out, charged, round, i);
          return;
        }
        var size := |out|;
        out, charged, seen, taken, pos := TakeTurn(streams, limit, i, out, charged, seen, taken, pos, round);
        progressed := progressed || |out| > size;
      }
      if !progressed {
        StalledMeansExhausted(streams, limit, out, charged, pos, round);
        RoundIsFair(streams, pos, out, charged, round, |streams|);
        return;
      }
      NextRound(streams, limit, out, charged, pos, round);
      round := round + 1;
    }
  }
}
