// The browser's batching queue for feed interactions
// (parser-web/src/interaction_queue.rs). What the browser does with timers, and
// whether the request of a batch gets through, are inputs of each step.
module InteractionQueue {
  import opened Wrappers

  const FLUSH_AT: nat := 60

  datatype Kind = QualifiedImpression | Open

  datatype Interaction = Interaction(kind: Kind, post: int)

  datatype Pending = Pending(url: string, interactions: seq<Interaction>)

  // A batch that left the buffer for good: delivered, or dropped because it could
  // not be encoded, its request not be issued, or its sending failed.
  datatype Handoff = Handoff(url: string, batch: seq<Interaction>, delivered: bool)

  // `timer` is the handle of the scheduled debounce timer, 0 for none.
  datatype Queue = Queue(task: Option<Pending>, timer: int, handoffs: seq<Handoff>)

  // What setTimeout answers: a non-zero handle, an error, or no window at all.
  datatype Timeout = Scheduled(id: int) | Refused | NoWindow

  datatype Step =
    | Push(url: string, req: Interaction, timeout: Timeout, delivered: bool)
    | TimerFires(delivered: bool)
    | Unload(delivered: bool)

  function Buffer(q: Queue): seq<Interaction> {
    if q.task.Some? then q.task.value.interactions else []
  }

  function Drained(q: Queue, delivered: bool): Queue {
    Queue(None, 0,
          if Buffer(q) == [] then q.handoffs
          else q.handoffs + [Handoff(q.task.value.url, q.task.value.interactions, delivered)])
  }

  function Appended(task: Option<Pending>, url: string, req: Interaction): Pending {
    match task
    case Some(p) => p.(interactions := p.interactions + [req])
    case None => Pending(url, [req])
  }

  function Next(q: Queue, s: Step): Queue {
    match s
    case TimerFires(delivered) => Drained(q, delivered)
    case Unload(delivered) => Drained(q, delivered)
    case Push(url, req, timeout, delivered) =>
      var task := Appended(q.task, url, req);
      var q' := q.(task := Some(task));
      if req.kind != QualifiedImpression || |task.interactions| >= FLUSH_AT then Drained(q', delivered)
      else if q.timer != 0 then q'
      else if timeout.Scheduled? then q'.(timer := timeout.id)
      else Drained(q', delivered)
  }

  ghost predicate LegalStep(s: Step) {
    s.Push? && s.timeout.Scheduled? ==> s.timeout.id != 0
  }

  ghost function Run(q: Queue, steps: seq<Step>): Queue {
    if steps == [] then q else Next(Run(q, steps[..|steps| - 1]), steps[|steps| - 1])
  }

  ghost function Pushed(steps: seq<Step>): seq<Interaction> {
    if steps == [] then []
    else
      var last := steps[|steps| - 1];
      Pushed(steps[..|steps| - 1]) + if last.Push? then [last.req] else []
  }

  ghost function HandedOver(handoffs: seq<Handoff>): seq<Interaction> {
    if handoffs == [] then [] else HandedOver(handoffs[..|handoffs| - 1]) + handoffs[|handoffs| - 1].batch
  }

  // validate_batch_interaction's size check (parser-api/src/validation.rs).
  predicate ServerAcceptsSize(batch: seq<Interaction>) {
    1 <= |batch| <= 100
  }

  // Between calls the buffer is short and, unless it is empty, a timer will come
  // for it; nothing explicit waits in it; every batch fits the server's limit.
  ghost predicate Settled(q: Queue) {
    && |Buffer(q)| < 60
    && (Buffer(q) != [] ==> q.timer != 0)
    && (q.task.Some? ==> Buffer(q) != [])
    && (forall r | r in Buffer(q) :: r.kind == QualifiedImpression)
    && (forall h | h in q.handoffs :: 1 <= |h.batch| <= 60 && ServerAcceptsSize(h.batch))
  }

  lemma DrainHandsOverTheBuffer(q: Queue, delivered: bool)
    ensures HandedOver(Drained(q, delivered).handoffs) == HandedOver(q.handoffs) + Buffer(q)
    ensures Buffer(Drained(q, delivered)) == []
  {
    if Buffer(q) == [] {
      assert HandedOver(q.handoffs) + [] == HandedOver(q.handoffs);
    } else {
      var h := Handoff(q.task.value.url, q.task.value.interactions, delivered);
      assert (q.handoffs + [h])[..|q.handoffs|] == q.handoffs;
    }
  }

  lemma DrainSettles(q: Queue, delivered: bool)
    requires |Buffer(q)| <= 60
    requires forall h | h in q.handoffs :: 1 <= |h.batch| <= 60 && ServerAcceptsSize(h.batch)
    ensures Settled(Drained(q, delivered))
  {
  }

  lemma StepConserves(q: Queue, s: Step)
    requires Settled(q) && LegalStep(s)
    ensures Settled(Next(q, s))
    ensures HandedOver(Next(q, s).handoffs) + Buffer(Next(q, s))
         == HandedOver(q.handoffs) + Buffer(q) + if s.Push? then [s.req] else []
  {
    match s
    case TimerFires(delivered) =>
      DrainHandsOverTheBuffer(q, delivered);
      DrainSettles(q, delivered);
    case Unload(delivered) =>
      DrainHandsOverTheBuffer(q, delivered);
      DrainSettles(q, delivered);
    case Push(url, req, timeout, delivered) =>
      var q' := q.(task := Some(Appended(q.task, url, req)));
      assert Buffer(q') == Buffer(q) + [req];
      DrainHandsOverTheBuffer(q', delivered);
      DrainSettles(q', delivered);
      assert HandedOver(q.handoffs) + (Buffer(q) + [req]) == HandedOver(q.handoffs) + Buffer(q) + [req];
  }

  const EMPTY: Queue := Queue(None, 0, [])

  // Over every run from an empty queue, the batches handed over followed by the
  // buffer are exactly what was pushed, in order.
  lemma {:induction false} NothingIsLostOrReordered(steps: seq<Step>)
    requires forall s | s in steps :: LegalStep(s)
    ensures var q := Run(EMPTY, steps);
            Settled(q) && HandedOver(q.handoffs) + Buffer(q) == Pushed(steps)
  {
    if steps == [] {
    } else {
      var init, last := steps[..|steps| - 1], steps[|steps| - 1];
      assert last in steps;
      assert forall s | s in init :: s in steps;
      NothingIsLostOrReordered(init);
      StepConserves(Run(EMPTY, init), last);
    }
  }

  // --- which batches leave, where to, and which of them are lost --------------------------

  // The pushes since the last flush, the last step included, read off the steps.
  ghost function Since(steps: seq<Step>): seq<Step>
    decreases |steps|, 0
  {
    if steps == [] then []
    else
      var init, last := steps[..|steps| - 1], steps[|steps| - 1];
      (if Flushes(init) then [] else Since(init)) + if last.Push? then [last] else []
  }

  // Whether the run ends with a flush: a timer, an unload, an explicit event, the
  // sixtieth event, or an event that opens the buffer and gets no timer.
  ghost predicate Flushes(steps: seq<Step>)
    decreases |steps|, 1
  {
    steps != [] &&
    var last := steps[|steps| - 1];
    (last.Push? ==>
       || last.req.kind != QualifiedImpression
       || |Since(steps)| >= 60
       || (|Since(steps)| == 1 && !last.timeout.Scheduled?))
  }

  ghost function Events(pushes: seq<Step>): seq<Interaction>
    requires forall s | s in pushes :: s.Push?
  {
    seq(|pushes|, i requires 0 <= i < |pushes| => pushes[i].req)
  }

  lemma {:induction false} SinceArePushes(steps: seq<Step>)
    ensures forall s | s in Since(steps) :: s.Push?
    decreases |steps|
  {
    if steps == [] {
    } else {
      SinceArePushes(steps[..|steps| - 1]);
    }
  }

  // The batches of a run, from its steps alone: each flush sends what was pushed
  // since the one before, to the URL of the first of those pushes, with the
  // outcome the flushing step met.
  ghost function Batches(steps: seq<Step>): seq<Handoff>
    decreases |steps|
  {
    if steps == [] then []
    else Batches(steps[..|steps| - 1]) + LastBatch(steps)
  }

  ghost function LastBatch(steps: seq<Step>): seq<Handoff>
    requires steps != []
  {
    SinceArePushes(steps);
    if Flushes(steps) && Since(steps) != []
    then [Handoff(Since(steps)[0].url, Events(Since(steps)), steps[|steps| - 1].delivered)]
    else []
  }

  // What the buffer holds after the run.
  ghost function Waiting(steps: seq<Step>): Option<Pending> {
    SinceArePushes(steps);
    if Flushes(steps) || Since(steps) == [] then None
    else Some(Pending(Since(steps)[0].url, Events(Since(steps))))
  }

  // Every hand-off of every run is the batch its steps call for: its events, its
  // URL and its fate.
  lemma {:induction false} HandoffsAreBatches(steps: seq<Step>)
    requires forall s | s in steps :: LegalStep(s)
    ensures Run(EMPTY, steps).handoffs == Batches(steps) && Run(EMPTY, steps).task == Waiting(steps)
    ensures Run(EMPTY, steps).timer != 0 <==> Waiting(steps).Some?
    decreases |steps|
  {
    if steps == [] {
    } else {
      var init, last := steps[..|steps| - 1], steps[|steps| - 1];
      assert last in steps;
      assert forall s | s in init :: s in steps;
      HandoffsAreBatches(init);
      SinceArePushes(init);
      SinceArePushes(steps);
      OneStepHandsOver(steps);
    }
  }

  lemma EventsAppend(pushes: seq<Step>, last: Step)
    requires last.Push? && forall s | s in pushes :: s.Push?
    ensures Events(pushes + [last]) == Events(pushes) + [last.req]
  {
  }

  lemma OneStepHandsOver(steps: seq<Step>)
    requires steps != [] && LegalStep(steps[|steps| - 1])
    requires var init := steps[..|steps| - 1];
             && Run(EMPTY, init).handoffs == Batches(init) && Run(EMPTY, init).task == Waiting(init)
             && (Run(EMPTY, init).timer != 0 <==> Waiting(init).Some?)
    ensures Run(EMPTY, steps).handoffs == Batches(steps) && Run(EMPTY, steps).task == Waiting(steps)
    ensures Run(EMPTY, steps).timer != 0 <==> Waiting(steps).Some?
  {
    var init, last := steps[..|steps| - 1], steps[|steps| - 1];
    SinceArePushes(init);
    SinceArePushes(steps);
    var before := if Flushes(init) then [] else Since(init);
    if last.Push? {
      assert Since(steps) == before + [last];
      EventsAppend(before, last);
      assert Appended(Run(EMPTY, init).task, last.url, last.req) == Pending(Since(steps)[0].url, Events(Since(steps)));
    } else {
      assert Since(steps) == before;
      assert Flushes(steps);
    }
  }

  // Events of dropped batches.
  ghost function Dropped(handoffs: seq<Handoff>): seq<Interaction> {
    if handoffs == [] then []
    else
      var last := handoffs[|handoffs| - 1];
      Dropped(handoffs[..|handoffs| - 1]) + if last.delivered then [] else last.batch
  }

  // A step of the run that flushed something and whose request failed.
  ghost predicate FailsToDeliver(steps: seq<Step>, i: nat)
    requires i < |steps|
  {
    Flushes(steps[..i + 1]) && Since(steps[..i + 1]) != [] && !steps[i].delivered
  }

  // The events pushed since the flush before each failed one.
  ghost function LostEvents(steps: seq<Step>, n: nat): seq<Interaction>
    requires n <= |steps|
  {
    if n == 0 then []
    else
      SinceArePushes(steps[..n]);
      LostEvents(steps, n - 1) + if FailsToDeliver(steps, n - 1) then Events(Since(steps[..n])) else []
  }

  // Exactly the events pushed since the flush before a failed one are lost, over
  // every run; so nothing is lost if and only if every flush gets through.
  lemma LossesAreFailedFlushes(steps: seq<Step>)
    requires forall s | s in steps :: LegalStep(s)
    ensures Dropped(Run(EMPTY, steps).handoffs) == LostEvents(steps, |steps|)
    ensures Dropped(Run(EMPTY, steps).handoffs) == [] <==> forall i | 0 <= i < |steps| :: !FailsToDeliver(steps, i)
  {
    HandoffsAreBatches(steps);
    DroppedBatches(steps, |steps|);
    assert steps[..|steps|] == steps;
    NothingLostIff(steps, |steps|);
  }

  lemma {:induction false} DroppedBatches(steps: seq<Step>, n: nat)
    requires n <= |steps|
    ensures Dropped(Batches(steps[..n])) == LostEvents(steps, n)
  {
    if n == 0 {
    } else {
      var run := steps[..n];
      assert run[..n - 1] == steps[..n - 1];
      DroppedBatches(steps, n - 1);
      SinceArePushes(run);
      var earlier := Batches(steps[..n - 1]);
      assert LastBatch(run) != [] ==> (earlier + LastBatch(run))[..|earlier|] == earlier;
      assert earlier + [] == earlier;
    }
  }

  lemma {:induction false} NothingLostIff(steps: seq<Step>, n: nat)
    requires n <= |steps|
    ensures LostEvents(steps, n) == [] <==> forall i | 0 <= i < n :: !FailsToDeliver(steps, i)
  {
    if n == 0 {
    } else {
      NothingLostIff(steps, n - 1);
      SinceArePushes(steps[..n]);
    }
  }

  class InteractionBuffer {
    var task: Option<Pending>
    var timerId: int
    var handoffs: seq<Handoff>

    ghost function State(): Queue
      reads this
    {
      Queue(task, timerId, handoffs)
    }

    constructor ()
      ensures State() == Queue(None, 0, [])
    {
      task, timerId, handoffs := None, 0, [];
    }

    method ClearTimer()
      modifies this`timerId
      ensures timerId == 0
    {
      timerId := 0;
    }

    method Take(delivered: bool)
      modifies this
      ensures State() == Drained(old(State()), delivered)
    {
      ClearTimer();
      var pending := task;
      task := None;
      if pending.Some? && pending.value.interactions != [] {
        handoffs := handoffs + [Handoff(pending.value.url, pending.value.interactions, delivered)];
      }
    }

    method Flush(delivered: bool)
      modifies this
      ensures State() == Drained(old(State()), delivered)
    {
      Take(delivered);
    }

    method FlushKeepalive(delivered: bool)
      modifies this
      ensures State() == Next(old(State()), Unload(delivered))
    {
      Take(delivered);
    }

    method OnTimer(delivered: bool)
      modifies this
      ensures State() == Next(old(State()), TimerFires(delivered))
    {
      timerId := 0;
      Flush(delivered);
    }

    method ScheduleDebounce(timeout: Timeout, delivered: bool)
      modifies this
      ensures State() == if old(timerId) != 0 then old(State())
                         else if timeout.Scheduled? then old(State()).(timer := timeout.id)
                         else Drained(old(State()), delivered)
    {
      if timerId != 0 {
        return;
      }
      match timeout
      case NoWindow => Flush(delivered);
      case Refused => Flush(delivered);
      case Scheduled(id) => timerId := id;
    }

    method Enqueue(url: string, req: Interaction, timeout: Timeout, delivered: bool)
      modifies this
      ensures State() == Next(old(State()), Push(url, req, timeout, delivered))
    {
      var isExplicit := req.kind != QualifiedImpression;
      var pending := match task case Some(p) => p case None => Pending(url, []);
      pending := pending.(interactions := pending.interactions + [req]);
      assert pending == Appended(task, url, req);
      task := Some(pending);
      if isExplicit || |pending.interactions| >= FLUSH_AT {
        Flush(delivered);
      } else {
        ScheduleDebounce(timeout, delivered);
      }
    }
  }
}
