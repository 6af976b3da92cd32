// The e621 load monitor and the adaptive gate that spaces outbound requests
// (parser-api/src/load_monitor.rs). Times are real milliseconds.
module LoadMonitor {
  import opened Sorting

  datatype Priority = Live | Prefetch | Backfill

  datatype Runtime = Runtime(liveDelay: nat, prefetchDelay: nat, backfillDelay: nat, liveWindow: nat) {
    function BaseDelay(p: Priority): nat {
      match p
      case Live => liveDelay
      case Prefetch => prefetchDelay
      case Backfill => backfillDelay
    }
  }

  const U32: nat := 0x1_0000_0000
  const UNKNOWN_REMAINING: nat := U32 - 1

  // The monitor's atomics; both counters are 32-bit.
  datatype Monitor = Monitor(lastRemaining: nat, sent: nat, lastLive: real) {
    predicate Valid() {
      lastRemaining < U32 && sent < U32
    }

    function EstimatedRemaining(): nat {
      if lastRemaining == UNKNOWN_REMAINING then UNKNOWN_REMAINING else Saturating(lastRemaining, sent)
    }

    function Observe(remaining: nat): Monitor {
      this.(lastRemaining := remaining, sent := 0)
    }

    function RecordPass(p: Priority, now: real): Monitor {
      this.(lastLive := if p == Live then now else lastLive, sent := (sent + 1) % U32)
    }

    function MsSinceLastLive(now: real): nat {
      if now < lastLive then 0 else (now - lastLive).Floor
    }
  }

  function Saturating(a: nat, b: nat): nat { if b <= a then a - b else 0 }

  function Clamp(x: nat, lo: nat, hi: nat): nat
    requires lo <= hi
  {
    if x < lo then lo else if hi < x then hi else x
  }

  function BudgetMultiplier(remaining: nat): nat {
    if remaining == UNKNOWN_REMAINING then 2
    else if remaining > 200 then 1
    else if remaining > 100 then 2
    else if remaining > 50 then 3
    else 5
  }

  // Everything but live traffic keeps clear of a live request that just passed.
  function LiveWindowExtra(rt: Runtime, m: Monitor, p: Priority, now: real): nat {
    if p != Live && m.MsSinceLastLive(now) < rt.liveWindow
    then Clamp(rt.liveWindow - m.MsSinceLastLive(now), 50, 2000)
    else 0
  }

  function EffectiveDelay(rt: Runtime, m: Monitor, p: Priority, now: real): nat {
    rt.BaseDelay(p) * BudgetMultiplier(m.EstimatedRemaining()) + LiveWindowExtra(rt, m, p, now)
  }

  // What a delay is made of: the base, one to five times by what is left of the
  // budget and twice while that is unknown, and for background traffic what is
  // left of the live window, between 50 and 2000 milliseconds.
  lemma DelayIsMadeOf(rt: Runtime, m: Monitor, p: Priority, now: real)
    ensures var left := m.EstimatedRemaining();
            var times := if left == 0xFFFF_FFFF then 2 else if left <= 50 then 5 else if left <= 100 then 3
                         else if left <= 200 then 2 else 1;
            var base := if p == Live then rt.liveDelay
                        else if p == Prefetch then rt.prefetchDelay else rt.backfillDelay;
            var extra := EffectiveDelay(rt, m, p, now) - base * times;
            var rest := rt.liveWindow - if now < m.lastLive then 0 else (now - m.lastLive).Floor;
            && (extra == 0 <==> p == Live || rest <= 0)
            && (extra != 0 ==>
                  && 50 <= extra <= 2000
                  && (extra < rest ==> extra == 2000)
                  && (extra > rest ==> extra == 50))
  {
  }

  // --- the gate as a state machine over interleaved waiters -----------------------

  datatype Waiter = Waiter(priority: Priority, delay: nat)
  datatype Pass = Pass(at: real, delay: nat)

  // A caller reads the monitor and fixes its delay on arrival, outside the lock;
  // the lock then serves waiters one at a time, in any order.
  datatype Gate = Gate(monitor: Monitor, nextAvailable: real, waiting: seq<Waiter>, passes: seq<Pass>)

  datatype Step =
    | Observed(remaining: nat)
    | Arrive(priority: Priority, now: real)
    | Serve(i: nat, at: real)

  // The lock holder sleeps until the gate opens, so it passes no earlier.
  ghost predicate Enabled(g: Gate, s: Step) {
    match s
    case Observed(remaining) => remaining < U32
    case Arrive(_, _) => true
    case Serve(i, at) => i < |g.waiting| && at >= g.nextAvailable
  }

  ghost function Next(rt: Runtime, g: Gate, s: Step): Gate
    requires Enabled(g, s)
  {
    match s
    case Observed(remaining) => g.(monitor := g.monitor.Observe(remaining))
    case Arrive(p, now) => g.(waiting := g.waiting + [Waiter(p, EffectiveDelay(rt, g.monitor, p, now))])
    case Serve(i, at) =>
      var w := g.waiting[i];
      Gate(g.monitor.RecordPass(w.priority, at), at + w.delay as real,
           g.waiting[..i] + g.waiting[i + 1..], g.passes + [Pass(at, w.delay)])
  }

  ghost predicate Runs(rt: Runtime, g: Gate, steps: seq<Step>)
    decreases |steps|
  {
    steps == [] || (Enabled(g, steps[0]) && Runs(rt, Next(rt, g, steps[0]), steps[1..]))
  }

  ghost function Run(rt: Runtime, g: Gate, steps: seq<Step>): Gate
    requires Runs(rt, g, steps)
    decreases |steps|
  {
    if steps == [] then g else Run(rt, Next(rt, g, steps[0]), steps[1..])
  }

  ghost predicate SpacedAt(passes: seq<Pass>, i: nat)
    requires i + 1 < |passes|
  {
    passes[i + 1].at >= passes[i].at + passes[i].delay as real
  }

  ghost predicate SpacedPasses(g: Gate) {
    && (forall i | 0 <= i < |g.passes| - 1 :: SpacedAt(g.passes, i))
    && (g.passes != [] ==> g.nextAvailable == g.passes[|g.passes| - 1].at + g.passes[|g.passes| - 1].delay as real)
  }

  // Every delay in the system is at least the smallest base delay.
  ghost predicate DelaysAtLeast(g: Gate, dMin: nat) {
    && (forall w | w in g.waiting :: w.delay >= dMin)
    && (forall p | p in g.passes :: p.delay >= dMin)
  }

  lemma StepKeepsSpacing(rt: Runtime, g: Gate, s: Step, dMin: nat)
    requires Enabled(g, s) && SpacedPasses(g) && DelaysAtLeast(g, dMin)
    requires forall p :: rt.BaseDelay(p) >= dMin
    ensures SpacedPasses(Next(rt, g, s)) && DelaysAtLeast(Next(rt, g, s), dMin)
  {
    if s.Arrive? {
      var base, m := rt.BaseDelay(s.priority), BudgetMultiplier(g.monitor.EstimatedRemaining());
      assert base * (m - 1) >= 0;
      assert base * m == base * (m - 1) + base;
    }
    forall i | 0 <= i < |Next(rt, g, s).passes| - 1 ensures SpacedAt(Next(rt, g, s).passes, i) {
      if i < |g.passes| - 1 {
        assert SpacedAt(g.passes, i);
      }
    }
  }

  // Over every interleaving, consecutive passes are at least the earlier one's
  // effective delay apart.
  lemma {:induction false} PassesStaySpaced(rt: Runtime, g: Gate, steps: seq<Step>, dMin: nat)
    requires Runs(rt, g, steps) && SpacedPasses(g) && DelaysAtLeast(g, dMin)
    requires forall p :: rt.BaseDelay(p) >= dMin
    ensures SpacedPasses(Run(rt, g, steps)) && DelaysAtLeast(Run(rt, g, steps), dMin)
    decreases |steps|
  {
    if steps == [] {
    } else {
      StepKeepsSpacing(rt, g, steps[0], dMin);
      PassesStaySpaced(rt, Next(rt, g, steps[0]), steps[1..], dMin);
    }
  }

  function Delays(waiters: seq<Waiter>): seq<nat> {
    seq(|waiters|, i requires 0 <= i < |waiters| => waiters[i].delay)
  }

  function PassDelays(passes: seq<Pass>): seq<nat> {
    seq(|passes|, i requires 0 <= i < |passes| => passes[i].delay)
  }

  // The delays callers fix when they arrive.
  ghost function Arrivals(rt: Runtime, g: Gate, steps: seq<Step>): seq<nat>
    requires Runs(rt, g, steps)
    decreases |steps|
  {
    if steps == [] then []
    else
      (if steps[0].Arrive? then [EffectiveDelay(rt, g.monitor, steps[0].priority, steps[0].now)] else [])
      + Arrivals(rt, Next(rt, g, steps[0]), steps[1..])
  }

  // Delays fixed and not yet imposed, and delays imposed.
  ghost function AllDelays(g: Gate): multiset<nat> {
    multiset(Delays(g.waiting)) + multiset(PassDelays(g.passes))
  }

  lemma ServedDelayLeaves(waiting: seq<Waiter>, i: nat)
    requires i < |waiting|
    ensures multiset(Delays(waiting)) == multiset(Delays(waiting[..i] + waiting[i + 1..])) + multiset{waiting[i].delay}
  {
    var before, after := Delays(waiting[..i]), Delays(waiting[i + 1..]);
    assert Delays(waiting) == before + [waiting[i].delay] + after;
    assert Delays(waiting[..i] + waiting[i + 1..]) == before + after;
  }

  lemma StepMovesDelays(rt: Runtime, g: Gate, s: Step)
    requires Enabled(g, s)
    ensures AllDelays(Next(rt, g, s)) ==
            AllDelays(g) + if s.Arrive? then multiset{EffectiveDelay(rt, g.monitor, s.priority, s.now)} else multiset{}
  {
    var g' := Next(rt, g, s);
    match s
    case Observed(_) =>
    case Arrive(p, now) =>
      assert Delays(g'.waiting) == Delays(g.waiting) + [EffectiveDelay(rt, g.monitor, p, now)];
    case Serve(i, at) =>
      ServedDelayLeaves(g.waiting, i);
      assert PassDelays(g'.passes) == PassDelays(g.passes) + [g.waiting[i].delay];
  }

  // Nobody is kept waiting longer than was fixed: whatever the order of service, the
  // delays imposed and those still due are those fixed on arrival, each once.
  lemma {:induction false} DelaysAreConserved(rt: Runtime, g: Gate, steps: seq<Step>)
    requires Runs(rt, g, steps)
    ensures AllDelays(Run(rt, g, steps)) == AllDelays(g) + multiset(Arrivals(rt, g, steps))
    decreases |steps|
  {
    if steps == [] {
    } else {
      StepMovesDelays(rt, g, steps[0]);
      DelaysAreConserved(rt, Next(rt, g, steps[0]), steps[1..]);
    }
  }

  ghost predicate Apart(a: real, b: real, ms: int) {
    b - a >= ms as real
  }

  lemma ProductStep(k: nat, d: nat)
    requires k > 0
    ensures k * d == (k - 1) * d + d
  {
  }

  lemma {:induction false} PassesDriftApart(g: Gate, dMin: nat, i: nat, j: nat)
    requires SpacedPasses(g) && DelaysAtLeast(g, dMin) && i <= j < |g.passes|
    ensures Apart(g.passes[i].at, g.passes[j].at, (j - i) * dMin)
  {
    if i == j {
    } else {
      PassesDriftApart(g, dMin, i, j - 1);
      assert g.passes[j - 1] in g.passes;
      assert SpacedAt(g.passes, j - 1);
      ProductStep(j - i, dMin);
      ApartStep(g.passes[i].at, g.passes[j - 1].at, g.passes[j].at, (j - i - 1) * dMin, dMin);
    }
  }

  lemma ApartStep(a: real, b: real, c: real, m: int, d: nat)
    requires Apart(a, b, m) && Apart(b, c, d)
    ensures Apart(a, c, m + d)
  {
  }

  ghost function PassesWithin(g: Gate, from: real, span: real): set<int> {
    set i | 0 <= i < |g.passes| && from <= g.passes[i].at <= from + span
  }

  // Any window of `span` milliseconds of any run admits at most 1 + span/dMin
  // passes.
  lemma WindowAdmits(rt: Runtime, g: Gate, steps: seq<Step>, dMin: nat, from: real, span: real)
    requires Runs(rt, g, steps) && g.passes == [] && g.waiting == []
    requires forall p :: rt.BaseDelay(p) >= dMin
    requires span >= 0.0
    ensures AtMostOnePlus(|PassesWithin(Run(rt, g, steps), from, span)|, span, dMin)
  {
    PassesStaySpaced(rt, g, steps, dMin);
    var end := Run(rt, g, steps);
    var inside := PassesWithin(end, from, span);
    if inside != {} {
      var lo, hi := Smallest(inside), Largest(inside);
      assert lo <= hi;
      PassesDriftApart(end, dMin, lo, hi);
      SpanSize(inside, lo, hi);
      FewerGaps(|inside| - 1, hi - lo, dMin);
    }
  }

  // count <= 1 + span/dMin, without the division.
  ghost predicate AtMostOnePlus(count: nat, span: real, dMin: nat) {
    count == 0 || Apart(0.0, span, (count - 1) * dMin)
  }

  lemma FewerGaps(few: nat, many: nat, d: nat)
    requires few <= many
    ensures few * d <= many * d
  {
    assert (many - few) * d >= 0;
    assert many * d == few * d + (many - few) * d;
  }

  // --- the budget estimate --------------------------------------------------------

  ghost function Served(steps: seq<Step>): nat {
    if steps == [] then 0 else (if steps[0].Serve? then 1 else 0) + Served(steps[1..])
  }

  ghost predicate NoObservation(steps: seq<Step>) {
    forall s | s in steps :: !s.Observed?
  }

  lemma {:induction false} PassesAreCounted(rt: Runtime, g: Gate, steps: seq<Step>)
    requires Runs(rt, g, steps) && NoObservation(steps) && g.monitor.Valid()
    ensures var end := Run(rt, g, steps);
            && end.monitor.lastRemaining == g.monitor.lastRemaining
            && end.monitor.sent == (g.monitor.sent + Served(steps)) % U32
    decreases |steps|
  {
    if steps == [] {
    } else {
      assert forall s | s in steps[1..] :: s in steps;
      assert steps[0] in steps;
      var g' := Next(rt, g, steps[0]);
      OneStepCounts(rt, g, steps[0]);
      PassesAreCounted(rt, g', steps[1..]);
      WrapsOnce(g.monitor.sent, if steps[0].Serve? then 1 else 0, Served(steps[1..]));
    }
  }

  lemma OneStepCounts(rt: Runtime, g: Gate, s: Step)
    requires Enabled(g, s) && !s.Observed? && g.monitor.Valid()
    ensures var next := Next(rt, g, s).monitor;
            && next.Valid() && next.lastRemaining == g.monitor.lastRemaining
            && next.sent == (g.monitor.sent + if s.Serve? then 1 else 0) % U32
  {
  }

  lemma WrapsOnce(a: nat, b: nat, c: nat)
    ensures ((a + b) % U32 + c) % U32 == (a + (b + c)) % U32
  {
  }

  // After the last observation of `remaining`, the estimate is that value minus
  // the passes since, floored at zero, exactly as long as the 32-bit pass
  // counter has not wrapped to a value that still leaves budget.
  lemma EstimateIsObservedMinusPasses(rt: Runtime, g: Gate, remaining: nat, steps: seq<Step>)
    requires remaining < UNKNOWN_REMAINING && NoObservation(steps)
    requires Runs(rt, g, [Observed(remaining)] + steps)
    ensures var estimate := Run(rt, g, [Observed(remaining)] + steps).monitor.EstimatedRemaining();
            && estimate == Saturating(remaining, Served(steps) % U32)
            && (estimate == Saturating(remaining, Served(steps)) <==>
                Served(steps) < U32 || Served(steps) % U32 >= remaining)
  {
    var after := Next(rt, g, Observed(remaining));
    assert ([Observed(remaining)] + steps)[1..] == steps;
    PassesAreCounted(rt, after, steps);
    if Served(steps) >= U32 {
      assert Served(steps) > remaining;
    }
  }

  // --- the shared objects ---------------------------------------------------------

  class E621LoadMonitor {
    var lastRemaining: nat
    var sentSinceUpdate: nat
    var lastLivePass: real

    ghost function State(): Monitor
      reads this
    {
      Monitor(lastRemaining, sentSinceUpdate, lastLivePass)
    }

    constructor (now: real)
      ensures State() == Monitor(UNKNOWN_REMAINING, 0, now)
    {
      lastRemaining, sentSinceUpdate, lastLivePass := UNKNOWN_REMAINING, 0, now;
    }

    method ObserveRemaining(remaining: nat)
      modifies this
      ensures State() == old(State()).Observe(remaining)
      ensures lastRemaining == remaining && sentSinceUpdate == 0 && lastLivePass == old(lastLivePass)
    {
      lastRemaining := remaining;
      sentSinceUpdate := 0;
    }

    method RecordPass(p: Priority, now: real)
      modifies this
      ensures State() == old(State()).RecordPass(p, now)
      ensures sentSinceUpdate == (old(sentSinceUpdate) + 1) % 0x1_0000_0000 && lastRemaining == old(lastRemaining)
      ensures lastLivePass == if p == Live then now else old(lastLivePass)
    {
      if p == Live {
        lastLivePass := now;
      }
      sentSinceUpdate := (sentSinceUpdate + 1) % U32;
    }

    method EstimatedRemaining() returns (remaining: nat)
      ensures remaining == State().EstimatedRemaining()
      ensures lastRemaining == 0xFFFF_FFFF ==> remaining == 0xFFFF_FFFF
      ensures lastRemaining != 0xFFFF_FFFF ==>
                remaining + sentSinceUpdate == lastRemaining || (remaining == 0 && lastRemaining < sentSinceUpdate)
    {
      if lastRemaining == UNKNOWN_REMAINING {
        return UNKNOWN_REMAINING;
      }
      remaining := Saturating(lastRemaining, sentSinceUpdate);
    }
  }

  class AdaptiveGate {
    const monitor: E621LoadMonitor
    var nextAvailable: real
    ghost var waiting: seq<Waiter>   // callers between arriving and holding the lock
    ghost var passes: seq<Pass>

    ghost function State(): Gate
      reads this, monitor
    {
      Gate(monitor.State(), nextAvailable, waiting, passes)
    }

    constructor (monitor: E621LoadMonitor, now: real)
      ensures this.monitor == monitor && State() == Gate(monitor.State(), now, [], [])
    {
      this.monitor := monitor;
      nextAvailable, waiting, passes := now, [], [];
    }

    // The part of `wait` before the lock: fix this caller's delay.
    method Arrive(rt: Runtime, p: Priority, now: real) returns (delay: nat)
      modifies this`waiting
      ensures delay == EffectiveDelay(rt, monitor.State(), p, now)
      ensures State() == Next(rt, old(State()), Step.Arrive(p, now))
    {
      var remaining := monitor.EstimatedRemaining();
      var extra := 0;
      if p != Live {
        var sinceLive := if now < monitor.lastLivePass then 0 else (now - monitor.lastLivePass).Floor;
        if sinceLive < rt.liveWindow {
          extra := Clamp(rt.liveWindow - sinceLive, 50, 2000);
        }
      }
      delay := rt.BaseDelay(p) * BudgetMultiplier(remaining) + extra;
      waiting := waiting + [Waiter(p, delay)];
    }

    // The part under the lock, for waiter `i`: sleep until the gate opens, pass,
    // and close it for `delay`. `woke` is the clock after the sleep, if one was
    // needed.
    method Serve(ghost rt: Runtime, ghost i: nat, p: Priority, delay: nat, now: real, woke: real) returns (at: real)
      requires i < |waiting| && waiting[i] == Waiter(p, delay)
      requires woke >= nextAvailable
      modifies this, monitor
      ensures at == if old(nextAvailable) > now then woke else now
      ensures Enabled(old(State()), Step.Serve(i, at))
      ensures State() == Next(rt, old(State()), Step.Serve(i, at))
    {
      at := now;
      if nextAvailable > now {
        at := woke;
      }
      nextAvailable := at + delay as real;
      waiting := waiting[..i] + waiting[i + 1..];
      passes := passes + [Pass(at, delay)];
      monitor.RecordPass(p, at);
    }
  }
}
