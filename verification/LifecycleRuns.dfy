/** What holds over whole runs of the life cycle: which wake-ups are lost, which interviews start
    early or never, and what announcements and goodbyes do and undo. */
module LifecycleRuns {
  import opened Wrappers
  import opened Text
  import opened Identity
  import opened FailingNode
  import opened InterviewQueue
  import opened Lifecycle

  /** After a record the queue is unchanged, longer by the new node, or without node `n`, and only
      the new node was added to the registry. */
  lemma AnnounceQueue(s: State, id: Id, goodbye: bool) returns (n: nat)
    ensures var r := Announce(s, id, goodbye);
      && r.now == s.now && r.started == s.started
      && (r.queue == s.queue
          || (r.queue == Enqueue(s.queue, s.now, s.next)
              && r.queuedAt == s.queuedAt[s.next := s.now] && s.next < r.next)
          || (r.queue == Remove(s.queue, s.now, n) && goodbye))
      && (r.queuedAt == s.queuedAt || r.queuedAt == s.queuedAt[s.next := s.now])
      && s.next <= r.next
      && r.devices.Keys <= s.devices.Keys + {s.next}
  {
    match Find(Lists(s), Entry(id)) {
      case Found(i) =>
        n := s.order[i];
        if n in s.devices {
          RemoveNodeCases(s, n);
        }
      case _ => n := 0;
    }
  }

  // ---------- wake-ups ----------

  lemma StepKeepsAwake(s: State, step: Step)
    requires Awake(s.queue)
    ensures Awake(Next(s, step).queue)
  {
    if step.Announced? {
      var n := AnnounceQueue(s, step.id, step.goodbye);
    }
  }

  /** No wake-up is ever lost, however announcements, goodbyes, timer and events interleave. */
  lemma {:induction false} NoLostWakeUp(s: State, steps: seq<Step>)
    requires Awake(s.queue)
    ensures Awake(Exec(s, steps).queue)
  {
    if steps != [] {
      NoLostWakeUp(s, steps[..|steps| - 1]);
      StepKeepsAwake(Exec(s, steps[..|steps| - 1]), steps[|steps| - 1]);
    }
  }

  /** Every interview so far began at least the delay after its node was queued. */
  ghost predicate NoneEarly(s: State) {
    forall i :: 0 <= i < |s.started| ==>
      s.started[i].node in s.queuedAt && s.queuedAt[s.started[i].node] + INTERVIEW_DELAY <= s.started[i].at
  }

  /** A record that queues a new device. */
  predicate Joins(s: State, id: Id, goodbye: bool) {
    !goodbye && NewDevice(s, id) && s.fabrics[id.fabric] != id.node
  }

  /** The node that a goodbye takes off the queue, if it waits there. */
  function Leaver(s: State, id: Id, goodbye: bool): Option<nat> {
    if !goodbye || id.fabric !in s.fabrics || !Find(Lists(s), Entry(id)).Found? then None
    else
      var n := s.order[Find(Lists(s), Entry(id)).index];
      if n !in s.devices || s.devices[n].status in {None, Some(Offline)} then None else Some(n)
  }

  lemma AnnounceQueueIs(s: State, id: Id, goodbye: bool)
    requires RegistryOk(s)
    ensures var r := Announce(s, id, goodbye); var leaver := Leaver(s, id, goodbye);
      && r.now == s.now && r.started == s.started
      && r.queue == if Joins(s, id, goodbye) then Enqueue(s.queue, s.now, s.next)
                    else if leaver.Some? then Remove(s.queue, s.now, leaver.value)
                    else s.queue
  {
    match Find(Lists(s), Entry(id)) {
      case Found(i) =>
        assert s.order[i] in s.devices;
        RemoveNodeCases(s, s.order[i]);
      case _ =>
    }
  }

  /** A step that makes a waiting expiry, or the one that the timer posts, find an entry not yet due:
      a new device when every older entry is already taken by an expiry, a goodbye or a firing timer
      that brings such an entry forward. */
  ghost predicate Disturbs(s: State, step: Step) {
    var q, k := s.queue, Expiries(s.queue);
    match step
    case Announced(id, goodbye) =>
      var leaver := Leaver(s, id, goodbye);
      || (Joins(s, id, goodbye) && |q.pending| < k)
      || (leaver.Some? && Position(Nodes(q.pending), leaver.value) < k < |q.pending| && s.now < q.pending[k].due)
    case TimerFires =>
      q.timer.Some? && q.timer.value <= s.now && k < |q.pending| && s.now < q.pending[k].due
    case _ => false
  }

  lemma AnnounceOnTimeIff(s: State, id: Id, goodbye: bool)
    requires RegistryOk(s) && QueueOk(s) && OnTime(s.queue, s.now)
    ensures Announce(s, id, goodbye).now == s.now
    ensures OnTime(Announce(s, id, goodbye).queue, s.now) <==> !Disturbs(s, Announced(id, goodbye))
  {
    AnnounceQueueIs(s, id, goodbye);
    var leaver := Leaver(s, id, goodbye);
    if Joins(s, id, goodbye) {
      EnqueueOnTime(s.queue, s.now, s.next);
    } else if leaver.Some? {
      RemoveOnTime(s.queue, s.now, leaver.value);
    }
  }

  lemma FiresOnTimeIff(s: State)
    requires OnTime(s.queue, s.now)
    ensures OnTime(Expire(s.queue, s.now), s.now) <==> !Disturbs(s, TimerFires)
  {
    ExpireOnTime(s.queue, s.now);
  }

  lemma LaterIsOnTime(q: Queue, now: nat, ms: nat)
    requires OnTime(q, now)
    ensures OnTime(q, now + ms)
  {}

  lemma HandledOnTime(s: State)
    requires QueueOk(s) && OnTime(s.queue, s.now)
    ensures OnTime(HandleOne(s).queue, HandleOne(s).now)
  {
    HandleOnTime(s.queue, s.now);
  }

  lemma QueueUntouched(s: State, step: Step)
    requires step.MarkedFailing? || step.Recovered? || step.Completed? || step.RowExpired?
    ensures Next(s, step).queue == s.queue && Next(s, step).now == s.now
  {}

  /** Those are exactly the steps after which a wake-up may come too early. */
  lemma StepOnTimeIff(s: State, step: Step)
    requires RegistryOk(s) && QueueOk(s) && OnTime(s.queue, s.now)
    ensures OnTime(Next(s, step).queue, Next(s, step).now) <==> !Disturbs(s, step)
  {
    match step {
      case Announced(id, goodbye) => AnnounceOnTimeIff(s, id, goodbye);
      case TimerFires => FiresOnTimeIff(s);
      case EventHandled => HandledOnTime(s);
      case Tick(ms) => LaterIsOnTime(s.queue, s.now, ms);
      case _ => QueueUntouched(s, step);
    }
  }

  ghost predicate UndisturbedRun(s: State, steps: seq<Step>) {
    steps == [] ||
    (UndisturbedRun(s, steps[..|steps| - 1]) && !Disturbs(Exec(s, steps[..|steps| - 1]), steps[|steps| - 1]))
  }

  lemma StepNoneEarly(s: State, step: Step)
    requires QueuedOk(s) && OnTime(s.queue, s.now) && NoneEarly(s)
    ensures NoneEarly(Next(s, step))
  {
    match step {
      case Announced(id, goodbye) =>
        var n := AnnounceQueue(s, id, goodbye);
      case EventHandled =>
        if Starts(s) {
          assert s.queue.events[0] in s.queue.events && Expiries(s.queue) > 0;
          StartIsEarlyIff(s);
        }
      case _ =>
    }
  }

  /** On every run without such a step no interview starts before its delay is over: the wrapped
      difference of the interview code only ever delays. */
  lemma {:induction false} NoEarlyStart(s: State, steps: seq<Step>)
    requires Inv(s) && OnTime(s.queue, s.now) && NoneEarly(s) && UndisturbedRun(s, steps)
    ensures NoneEarly(Exec(s, steps)) && OnTime(Exec(s, steps).queue, Exec(s, steps).now)
  {
    if steps != [] {
      var front, last := steps[..|steps| - 1], steps[|steps| - 1];
      NoEarlyStart(s, front);
      RunKeepsInvariant(s, front);
      StepOnTimeIff(Exec(s, front), last);
      StepNoneEarly(Exec(s, front), last);
    }
  }

  /** The schedule of a main loop that drains its events: the timer fires only onto an empty event
      queue, and its event is handled before the next mDNS record. */
  ghost predicate Drained(s: State, step: Step) {
    match step
    case TimerFires => s.queue.events == []
    case Announced(_, _) => TimerExpired !in s.queue.events
    case _ => true
  }

  ghost predicate DrainedRun(s: State, steps: seq<Step>) {
    steps == [] ||
    (DrainedRun(s, steps[..|steps| - 1]) && Drained(Exec(s, steps[..|steps| - 1]), steps[|steps| - 1]))
  }

  lemma DrainedDoesNotDisturb(s: State, step: Step)
    requires OnTime(s.queue, s.now) && Drained(s, step)
    ensures !Disturbs(s, step)
  {}

  /** Such a loop takes none of those steps, so under it no interview is early. */
  lemma {:induction false} NoEarlyStartWhenDrained(s: State, steps: seq<Step>)
    requires Inv(s) && OnTime(s.queue, s.now) && NoneEarly(s) && DrainedRun(s, steps)
    ensures UndisturbedRun(s, steps)
    ensures NoneEarly(Exec(s, steps)) && OnTime(Exec(s, steps).queue, Exec(s, steps).now)
  {
    if steps != [] {
      var front, last := steps[..|steps| - 1], steps[|steps| - 1];
      NoEarlyStartWhenDrained(s, front);
      DrainedDoesNotDisturb(Exec(s, front), last);
    }
    NoEarlyStart(s, steps);
  }

  /** Each interview that a run starts is of an entry that is due. */
  ghost predicate StartsOnlyDue(s: State, steps: seq<Step>) {
    steps == [] ||
    (var front, last := steps[..|steps| - 1], steps[|steps| - 1];
     var t := Exec(s, front);
     StartsOnlyDue(s, front) && (last.EventHandled? && Starts(t) ==> t.queue.pending[0].due <= t.now))
  }

  /** And on any run at all no interview is early exactly when each handled expiry finds a due entry. */
  lemma {:induction false} NoneEarlyIff(s: State, steps: seq<Step>)
    requires Inv(s) && NoneEarly(s)
    ensures NoneEarly(Exec(s, steps)) <==> StartsOnlyDue(s, steps)
  {
    if steps != [] {
      var front, last := steps[..|steps| - 1], steps[|steps| - 1];
      NoneEarlyIff(s, front);
      RunKeepsInvariant(s, front);
      StepEarlyIff(Exec(s, front), last);
    }
  }

  lemma StepEarlyIff(s: State, step: Step)
    requires QueuedOk(s) && StartedOk(s)
    ensures NoneEarly(Next(s, step))
      <==> NoneEarly(s) && (step.EventHandled? && Starts(s) ==> s.queue.pending[0].due <= s.now)
  {
    match step {
      case Announced(id, goodbye) => AnnounceEarlyIff(s, id, goodbye);
      case EventHandled =>
        if Starts(s) {
          StartIsEarlyIff(s);
        }
      case _ =>
    }
  }

  lemma AnnounceEarlyIff(s: State, id: Id, goodbye: bool)
    requires QueuedOk(s) && StartedOk(s)
    ensures NoneEarly(Announce(s, id, goodbye)) <==> NoneEarly(s)
  {
    var n := AnnounceQueue(s, id, goodbye);
    var r := Announce(s, id, goodbye);
    assert forall i :: 0 <= i < |s.started| ==> s.started[i].node < s.next;
    assert forall m :: m in s.queuedAt ==> m in r.queuedAt && r.queuedAt[m] == s.queuedAt[m];
  }

  /** What the timer handler does not test: the interview it starts is early exactly when the first
      entry is not due yet. */
  lemma StartIsEarlyIff(s: State)
    requires Starts(s) && QueuedOk(s)
    ensures NoneEarly(HandleOne(s)) <==> NoneEarly(s) && s.queue.pending[0].due <= s.now
  {
    var first := s.queue.pending[0];
    var t := HandleOne(s);
    assert first in s.queue.pending;
    assert t.started == s.started + [Started(first.node, s.now)] && t.queuedAt == s.queuedAt;
    assert t.started[|s.started|] == Started(first.node, s.now);
    assert forall i :: 0 <= i < |s.started| ==> t.started[i] == s.started[i];
  }

  /** The next `n` events are handled, with nothing in between. */
  function HandleMany(s: State, n: nat): State
    decreases n
  {
    if n == 0 then s else HandleMany(HandleOne(s), n - 1)
  }

  lemma FirstDueSplits(pending: seq<Pending>, k: nat, now: nat)
    requires pending != [] && k > 0
    ensures FirstDue(pending, k, now) <==> pending[0].due <= now && FirstDue(pending[1..], k - 1, now)
  {
    if pending[0].due <= now && FirstDue(pending[1..], k - 1, now) {
      assert forall i :: 1 <= i < |pending| ==> pending[i] == pending[1..][i - 1];
    }
  }

  /** The expiries among the first `n` events. */
  function ExpiriesIn(events: seq<Event>, n: nat): nat
    requires n <= |events|
  {
    multiset(events[..n])[TimerExpired]
  }

  lemma HandledEvents(q: Queue, now: nat)
    requires q.events != []
    ensures q.events[1..] <= HandleEvent(q, now).events
  {}

  lemma ExpiriesSplit(events: seq<Event>, rest: seq<Event>, n: nat)
    requires 0 < n <= |events| && events[1..] <= rest
    ensures ExpiriesIn(events, n) == ExpiriesIn(rest, n - 1) + (if events[0].TimerExpired? then 1 else 0)
  {
    assert events[1..n] == events[1..][..n - 1] == rest[..n - 1];
    assert events[..n] == [events[0]] + events[1..n];
  }

  lemma HandledQueue(s: State, n: nat)
    requires 0 < n <= |s.queue.events|
    ensures var q, r := s.queue, HandleOne(s).queue;
      && HandleOne(s).now == s.now && n - 1 <= |r.events|
      && ExpiriesIn(q.events, n) == ExpiriesIn(r.events, n - 1) + (if q.events[0].TimerExpired? then 1 else 0)
      && r.pending == if Starts(s) then q.pending[1..] else q.pending
  {
    HandledEvents(s.queue, s.now);
    ExpiriesSplit(s.queue.events, HandleOne(s).queue.events, n);
  }

  lemma HandledDue(s: State, n: nat)
    requires 0 < n <= |s.queue.events|
    ensures n - 1 <= |HandleOne(s).queue.events|
    ensures var q, r := s.queue, HandleOne(s).queue;
      FirstDue(q.pending, ExpiriesIn(q.events, n), s.now)
      <==> (Starts(s) ==> q.pending[0].due <= s.now) && FirstDue(r.pending, ExpiriesIn(r.events, n - 1), s.now)
  {
    HandledQueue(s, n);
    if Starts(s) {
      FirstDueSplits(s.queue.pending, ExpiriesIn(s.queue.events, n), s.now);
    }
  }

  lemma HandledOneEarlyIff(s: State)
    requires QueueOk(s) && HistoryOk(s)
    ensures QueueOk(HandleOne(s)) && HistoryOk(HandleOne(s)) && HandleOne(s).now == s.now
    ensures NoneEarly(HandleOne(s)) <==> NoneEarly(s) && (Starts(s) ==> s.queue.pending[0].due <= s.now)
  {
    if Starts(s) {
      StartKeepsQueue(s);
      StartKeepsQueued(s);
      StartKeepsStarted(s);
      StartIsEarlyIff(s);
    }
  }

  lemma {:induction false} HandledEarlyIff(s: State, n: nat)
    requires QueueOk(s) && HistoryOk(s) && n <= |s.queue.events|
    ensures NoneEarly(HandleMany(s, n))
      <==> NoneEarly(s) && FirstDue(s.queue.pending, ExpiriesIn(s.queue.events, n), s.now)
    decreases n
  {
    if n > 0 {
      HandledDue(s, n);
      HandledOneEarlyIff(s);
      HandledEarlyIff(HandleOne(s), n - 1);
    }
  }

  /** With an expiry waiting, the queue is on time exactly when handling what is queued, with nothing in
      between, starts no interview early. */
  lemma OnTimeMeans(s: State)
    requires QueueOk(s) && HistoryOk(s) && NoneEarly(s) && TimerExpired in s.queue.events
    ensures OnTime(s.queue, s.now) <==> NoneEarly(HandleMany(s, |s.queue.events|))
  {
    HandledEarlyIff(s, |s.queue.events|);
    assert s.queue.events[..|s.queue.events|] == s.queue.events;
  }

  /** Without the first half of the schedule it fails: a device announced while an old timer is due
      is interviewed at once when the expiry is queued behind the new timer setting. */
  lemma EarlyWhenFiredOntoEvents(s: State, id: Id)
    requires s.queue.pending == [] && s.queue.events == []
    requires s.queue.timer.Some? && s.queue.timer.value <= s.now
    requires id.fabric in s.fabrics && s.fabrics[id.fabric] != id.node && Find(Lists(s), Entry(id)).NotFound?
    ensures !NoneEarly(HandleOne(HandleOne(Next(Announce(s, id, false), TimerFires))))
  {
    AnnouncedAdds(s, id);
    StartsAtOnce(Next(Announce(s, id, false), TimerFires), s.next);
  }

  /** The handler restarts the timer for the only waiting node, and interviews it with the next event. */
  lemma StartsAtOnce(t: State, n: nat)
    requires t.queue == Queue([Pending(n, t.now + INTERVIEW_DELAY)], None, [SetTimer(INTERVIEW_DELAY), TimerExpired])
    requires n in t.queuedAt && t.queuedAt[n] == t.now
    ensures !NoneEarly(HandleOne(HandleOne(t)))
  {
    var t1 := HandleOne(t);
    assert t1.queue.events == [TimerExpired] && t1.queue.pending == t.queue.pending;
    assert HandleOne(t1).started[|t.started|] == Started(n, t.now);
  }

  lemma HeadRemoved(s: State, n: nat)
    requires RegistryOk(s) && QueueOk(s) && |s.queue.pending| > 1
    requires n == s.queue.pending[0].node && s.devices[n].status == Some(Interviewing)
    ensures var r := RemoveNode(s, n);
      && r.queue == Queue(s.queue.pending[1..], s.queue.timer,
                          s.queue.events + [SetTimer(Remaining(s.now, s.queue.pending[1].due))])
      && r.now == s.now && r.queuedAt == s.queuedAt && r.started == s.started && r.next == s.next
  {
    var text := s.devices[n].list.text;
    assert n == Nodes(s.queue.pending)[0] && Waiting(s.devices[n]);
    RemovedDevice(s, n, text, NodeIdOf(text).value);
    RemoveHead(s.queue, s.now);
  }

  lemma StartsNext(s: State, r: State)
    requires QueuedOk(s) && |s.queue.pending| > 1 && Starts(r) && r.queue.pending == s.queue.pending[1..]
    requires r.now == s.now && r.queuedAt == s.queuedAt && r.started == s.started && r.next == s.next
    ensures NoneEarly(HandleOne(r)) <==> NoneEarly(s) && s.queue.pending[1].due <= s.now
  {
    StartIsEarlyIff(r);
  }

  /** Without the second half too: when the first waiting node `n` is removed between the expiry and
      its handling, the handler starts the next interview, due or not. */
  lemma EarlyAfterGoodbye(s: State, n: nat)
    requires RegistryOk(s) && QueueOk(s) && QueuedOk(s)
    requires s.queue.events == [TimerExpired] && |s.queue.pending| > 1
    requires n == s.queue.pending[0].node && s.devices[n].status == Some(Interviewing)
    ensures Starts(RemoveNode(s, n)) && RemoveNode(s, n).queue.pending == s.queue.pending[1..]
    ensures NoneEarly(HandleOne(RemoveNode(s, n))) <==> NoneEarly(s) && s.queue.pending[1].due <= s.now
  {
    HeadRemoved(s, n);
    StartsNext(s, RemoveNode(s, n));
  }

  // ---------- interviews that never start ----------

  /** An announcement queues only the node it creates: `needs_update` never asks for a second
      interview, so a node that is not waiting never waits again. */
  lemma AnnounceNeverRequeues(s: State, id: Id, goodbye: bool, n: nat)
    requires RegistryOk(s) && QueueOk(s) && n < s.next && n !in Nodes(s.queue.pending)
    ensures n !in Nodes(Announce(s, id, goodbye).queue.pending)
  {
    var m := AnnounceQueue(s, id, goodbye);
    var q := Announce(s, id, goodbye).queue;
    if q == Enqueue(s.queue, s.now, s.next) {
      EnqueueOrdered(s.queue, s.now, s.next);
    } else if q == Remove(s.queue, s.now, m) {
      RemoveOrdered(s.queue, s.now, m);
    }
  }

  lemma StepNeverRequeues(s: State, step: Step, n: nat)
    requires RegistryOk(s) && QueueOk(s) && n < s.next && n !in Nodes(s.queue.pending)
    ensures n < Next(s, step).next && n !in Nodes(Next(s, step).queue.pending)
  {
    StepGrows(s, step, n);
    if step.Announced? {
      AnnounceNeverRequeues(s, step.id, step.goodbye, n);
    } else if step.EventHandled? && Starts(s) {
      TakeFirstOrdered(s.queue.(events := s.queue.events[1..]), s.now);
      assert HandleOne(s).queue == TakeFirst(s.queue.(events := s.queue.events[1..]), s.now);
    } else {
      assert Next(s, step).queue.pending == s.queue.pending;
    }
  }

  /** So whatever its status, a node out of the queue stays out on every run: one whose interview
      was lost to a failure or a restart is never interviewed again. */
  lemma {:induction false} NeverRequeued(s: State, steps: seq<Step>, n: nat)
    requires Inv(s) && n < s.next && n !in Nodes(s.queue.pending)
    ensures n < Exec(s, steps).next && n !in Nodes(Exec(s, steps).queue.pending)
  {
    if steps != [] {
      var front := steps[..|steps| - 1];
      NeverRequeued(s, front, n);
      RunKeepsInvariant(s, front);
      StepNeverRequeues(Exec(s, front), steps[|steps| - 1], n);
    }
  }

  // ---------- looking devices up ----------

  /** At any moment of any run that starts with readable lists, an entry is found at the node that
      carries it, and nowhere else. */
  lemma {:induction false} LookupOnEveryRun(s: State, steps: seq<Step>, id: Id, i: nat)
    requires Inv(s) && Readable(s) && i < |Exec(s, steps).order|
    ensures var t := Exec(s, steps);
      Find(Lists(t), Entry(id)) == Found(i) <==> HasEntry(ListOf(t, t.order[i]), Entry(id))
  {
    RunKeepsInvariant(s, steps);
    RunReadable(s, steps);
    FoundWhereCarried(Exec(s, steps), id, i);
  }

  lemma FoundWhereCarried(t: State, id: Id, i: nat)
    requires RegistryOk(t) && EntriesUnique(t) && Readable(t) && i < |t.order|
    ensures Find(Lists(t), Entry(id)) == Found(i) <==> HasEntry(ListOf(t, t.order[i]), Entry(id))
  {
    var r := Find(Lists(t), Entry(id));
    assert Lists(t)[i] == ListOf(t, t.order[i]);
    if r.Found? && HasEntry(ListOf(t, t.order[i]), Entry(id)) {
      assert HasEntry(ListOf(t, t.order[r.index]), Entry(id));
    }
  }

  // ---------- devices that never come back ----------

  lemma AnnounceKeepsStranded(s: State, id: Id, goodbye: bool, n: nat)
    requires RegistryOk(s) && n in s.devices && Stranded(s.devices[n])
    ensures n in Announce(s, id, goodbye).devices && Stranded(Announce(s, id, goodbye).devices[n])
  {
    match Find(Lists(s), Entry(id)) {
      case Found(i) =>
        assert s.order[i] in s.devices;
        if s.order[i] != n {
          RemovalOnlyStrips(s, s.order[i]);
        }
      case _ =>
    }
  }

  lemma StepKeepsStranded(s: State, step: Step, n: nat)
    requires RegistryOk(s) && n in s.devices && Stranded(s.devices[n])
    ensures n in Next(s, step).devices && Stranded(Next(s, step).devices[n])
  {
    if step.Announced? {
      AnnounceKeepsStranded(s, step.id, step.goodbye, n);
    }
  }

  /** A device whose online status is lost stays in the registry and OFFLINE on every run: recoveries,
      completed interviews, announcements and even goodbyes leave it there. */
  lemma {:induction false} StrandedOnEveryRun(s: State, steps: seq<Step>, n: nat)
    requires Inv(s) && n in s.devices && Stranded(s.devices[n])
    ensures n in Exec(s, steps).devices && Stranded(Exec(s, steps).devices[n])
  {
    if steps != [] {
      var front := steps[..|steps| - 1];
      StrandedOnEveryRun(s, front, n);
      RunKeepsInvariant(s, front);
      StepKeepsStranded(Exec(s, front), steps[|steps| - 1], n);
    }
  }

  // ---------- starvation ----------

  /** Nothing is queued and the timer is armed for a deadline, while a node waits. */
  ghost predicate Stalled(s: State, node: nat, deadline: nat) {
    && s.queue.pending != [] && s.queue.pending[0].node == node
    && s.queue.events == [] && s.queue.timer == Some(deadline)
  }

  /** A goodbye deletes a waiting node that is INTERVIEWING. */
  lemma GoodbyeOfWaiting(s: State, n: nat)
    requires QueueOk(s) && n in Nodes(s.queue.pending) && s.devices[n].status != Some(Offline)
    ensures n !in RemoveNode(s, n).devices
  {}

  lemma StepGrows(s: State, step: Step, n: nat)
    ensures s.next <= Next(s, step).next && s.now <= Next(s, step).now
    ensures n < s.next && n in Next(s, step).devices ==> n in s.devices
  {
    if step.Announced? {
      var m := AnnounceQueue(s, step.id, step.goodbye);
    }
  }

  /** Removing another node leaves the first one waiting and posts nothing. */
  lemma RemoveOther(q: Queue, now: nat, n: nat)
    requires q.pending != [] && n != q.pending[0].node
    ensures var r := Remove(q, now, n);
      r.pending != [] && r.pending[0] == q.pending[0] && r.events == q.events && r.timer == q.timer
  {
    assert Nodes(q.pending)[0] == q.pending[0].node;
  }

  lemma RemovalKeepsStall(s: State, n: nat, node: nat, deadline: nat)
    requires QueueOk(s) && Stalled(s, node, deadline) && n in s.devices
    requires s.devices[n].status != Some(Offline) && node in RemoveNode(s, n).devices
    ensures Stalled(RemoveNode(s, n), node, deadline)
  {
    assert Nodes(s.queue.pending)[0] in Nodes(s.queue.pending);
    if n == node {
      GoodbyeOfWaiting(s, n);
    }
    RemoveNodeCases(s, n);
    RemoveOther(s.queue, s.now, n);
  }

  lemma AnnounceKeepsStall(s: State, id: Id, goodbye: bool, node: nat, deadline: nat)
    requires RegistryOk(s) && QueueOk(s) && Stalled(s, node, deadline) && node in Announce(s, id, goodbye).devices
    ensures Stalled(Announce(s, id, goodbye), node, deadline)
  {
    match Find(Lists(s), Entry(id)) {
      case Found(i) =>
        if goodbye && id.fabric in s.fabrics {
          GoodbyeOfFound(s, id, i);
          if s.devices[s.order[i]].status != Some(Offline) {
            RemovalKeepsStall(s, s.order[i], node, deadline);
          }
        }
      case _ =>
    }
  }

  lemma StepKeepsStall(s: State, step: Step, node: nat, deadline: nat)
    requires RegistryOk(s) && QueueOk(s) && Stalled(s, node, deadline)
    requires Next(s, step).now < deadline && node in Next(s, step).devices
    ensures Stalled(Next(s, step), node, deadline) && Next(s, step).started == s.started
  {
    if step.Announced? {
      var m := AnnounceQueue(s, step.id, step.goodbye);
      AnnounceKeepsStall(s, step.id, step.goodbye, node, deadline);
    }
  }

  /** While the first waiting node stays registered and the deadline has not come, no run starts
      any interview, however many devices are announced. */
  lemma {:induction false} StallLasts(s: State, steps: seq<Step>, node: nat, deadline: nat)
    requires Inv(s) && Stalled(s, node, deadline) && node < s.next
    requires Exec(s, steps).now < deadline && node in Exec(s, steps).devices
    ensures Stalled(Exec(s, steps), node, deadline) && Exec(s, steps).started == s.started
    ensures node < Exec(s, steps).next
  {
    if steps != [] {
      var front, last := steps[..|steps| - 1], steps[|steps| - 1];
      RunGrows(s, front);
      StepGrows(Exec(s, front), last, node);
      StallLasts(s, front, node, deadline);
      RunKeepsInvariant(s, front);
      StepKeepsStall(Exec(s, front), last, node, deadline);
    }
  }

  lemma {:induction false} RunGrows(s: State, steps: seq<Step>)
    ensures s.next <= Exec(s, steps).next
  {
    if steps != [] {
      RunGrows(s, steps[..|steps| - 1]);
      StepGrows(Exec(s, steps[..|steps| - 1]), steps[|steps| - 1], 0);
    }
  }

  /** Starting an interview while the next node is not due arms the timer with the wrapped delay. */
  lemma WrapStalls(s: State)
    requires s.queue.events == [TimerExpired] && |s.queue.pending| > 1 && Ordered(s.queue, s.now)
    requires s.now < s.queue.pending[1].due
    ensures var next := s.queue.pending[1];
      Stalled(HandleOne(HandleOne(s)), next.node, s.now + (UINT64 - (next.due - s.now)))
    ensures HandleOne(HandleOne(s)).started == s.started + [Started(s.queue.pending[0].node, s.now)]
    ensures HandleOne(HandleOne(s)).next == s.next
  {
    var s1, due := HandleOne(s), s.queue.pending[1].due;
    WrappedOnlyDelays(s.now, due);
    assert s1.queue == Queue(s.queue.pending[1..], s.queue.timer, [SetTimer(UINT64 - (due - s.now))]);
    assert s1.now == s.now;
  }

  /** The wrapped difference starves the queue: when an interview starts and the next node is not
      due, that node and all behind it wait 2^64 ms less the delay, or until it says goodbye. */
  lemma {:induction false} WrappedDelayStarves(s: State, t: State, steps: seq<Step>)
    requires Inv(s) && s.queue.events == [TimerExpired] && |s.queue.pending| > 1
    requires s.now < s.queue.pending[1].due
    requires t == HandleOne(HandleOne(s))
    requires Exec(t, steps).now < s.now + UINT64 - INTERVIEW_DELAY
    requires s.queue.pending[1].node in Exec(t, steps).devices
    ensures Exec(t, steps).started == s.started + [Started(s.queue.pending[0].node, s.now)]
  {
    var node, deadline := StallBegins(s, t);
    TwoHandled(s);
    StallLasts(t, steps, node, deadline);
  }

  lemma StallBegins(s: State, t: State) returns (node: nat, deadline: nat)
    requires RegistryOk(s) && QueueOk(s) && s.queue.events == [TimerExpired] && |s.queue.pending| > 1
    requires s.now < s.queue.pending[1].due
    requires t == HandleOne(HandleOne(s))
    ensures Stalled(t, node, deadline) && node < t.next
    ensures node == s.queue.pending[1].node && s.now + UINT64 - INTERVIEW_DELAY <= deadline
    ensures t.started == s.started + [Started(s.queue.pending[0].node, s.now)]
  {
    node, deadline := s.queue.pending[1].node, s.now + (UINT64 - (s.queue.pending[1].due - s.now));
    NextNodeIsOld(s);
    WrapStalls(s);
  }

  lemma NextNodeIsOld(s: State)
    requires RegistryOk(s) && QueueOk(s) && |s.queue.pending| > 1
    ensures s.queue.pending[1].node < s.next && s.queue.pending[1].due <= s.now + INTERVIEW_DELAY
  {
    assert Nodes(s.queue.pending)[1] in Nodes(s.queue.pending);
  }

  lemma TwoHandled(s: State)
    requires Inv(s)
    ensures Inv(HandleOne(HandleOne(s)))
  {
    HandleKeeps(s);
    HandleKeeps(HandleOne(s));
  }

  // ---------- what announcements and goodbyes do and undo ----------

  lemma {:induction false} FindAppended(lists: seq<NetworkList>, last: NetworkList, entry: string, i: nat := 0)
    requires i <= |lists| && Find(lists, entry, i).NotFound? && !last.Unreported?
    ensures Find(lists + [last], entry, i) == if HasEntry(last, entry) then Found(|lists|) else NotFound
    decreases |lists| - i
  {
    if i < |lists| {
      FindAppended(lists, last, entry, i + 1);
    }
  }

  predicate NewDevice(s: State, id: Id) {
    id.fabric in s.fabrics && Find(Lists(s), Entry(id)).NotFound?
  }

  lemma AnnouncedAdds(s: State, id: Id)
    requires NewDevice(s, id)
    ensures Announce(s, id, false) == AddDevice(s, Entry(id), s.fabrics[id.fabric] == id.node)
  {}

  lemma AddedLists(s: State, entry: string, own: bool)
    requires RegistryOk(s)
    ensures Lists(AddDevice(s, entry, own)) == Lists(s) + [Reported(entry)]
  {}

  /** A new device becomes the last node of the registry and can be found there. */
  lemma AnnouncedIsFound(s: State, id: Id, other: Id)
    requires RegistryOk(s) && NewDevice(s, id) && Find(Lists(s), Entry(other)).NotFound?
    ensures var s' := Announce(s, id, false);
      Find(Lists(s'), Entry(other)) == if other == id then Found(|s.order|) else NotFound
  {
    AnnouncedAdds(s, id);
    AddedLists(s, Entry(id), s.fabrics[id.fabric] == id.node);
    NewEntry(id);
    FindAppended(Lists(s), Reported(Entry(id)), Entry(other));
    if Entry(other) == Entry(id) {
      EntryInjective(other, id);
    }
  }

  lemma AnnouncedTwice(s: State, id: Id)
    requires RegistryOk(s) && Readable(s)
    ensures Announce(Announce(s, id, false), id, false) == Announce(s, id, false)
  {
    assert !Find(Lists(s), Entry(id)).Failed?;
    if NewDevice(s, id) {
      AnnouncedIsFound(s, id, id);
    }
  }

  /** At any moment of any run repeating an announcement changes nothing. */
  lemma {:induction false} RepeatedAnnouncement(s: State, steps: seq<Step>, id: Id)
    requires Inv(s) && Readable(s)
    ensures var t := Exec(s, steps + [Announced(id, false)]); Next(t, Announced(id, false)) == t
  {
    var all := steps + [Announced(id, false)];
    assert all[..|steps|] == steps;
    RunKeepsInvariant(s, steps);
    RunReadable(s, steps);
    AnnouncedTwice(Exec(s, steps), id);
  }

  /** The removal of a node that can be named and is not waiting in another state. */
  lemma RemovedDevice(s: State, n: nat, text: string, node: nat)
    requires n in s.devices && s.devices[n].status.Some?
    requires n in Nodes(s.queue.pending) ==> s.devices[n].status == Some(Interviewing)
    requires s.devices[n].list == Reported(text) && ':' in text && NodeIdOf(text) == Some(node)
    ensures RemoveNode(s, n) == DeleteDevice(s.(queue := Remove(s.queue, s.now, n)), n).(
      shutdowns := if s.devices[n].status == Some(Interviewing) then s.shutdowns else s.shutdowns + [node])
  {}

  lemma {:induction false} LastPosition(xs: seq<nat>, x: nat)
    requires x !in xs
    ensures Position(xs + [x], x) == |xs| && Erase(xs + [x], |xs|) == xs
  {
    var i := Position(xs + [x], x);
    assert (xs + [x])[|xs|] == x;
  }

  lemma EnqueueThenRemove(q: Queue, now: nat, node: nat)
    requires node !in Nodes(q.pending)
    ensures Remove(Enqueue(q, now, node), now, node).pending == q.pending
  {
    AppendedNodes(q.pending, Pending(node, now + INTERVIEW_DELAY));
    LastPosition(Nodes(q.pending), node);
  }

  lemma AddThenRemove(s: State, id: Id)
    requires RegistryOk(s) && QueueOk(s)
    ensures var r := RemoveNode(AddDevice(s, Entry(id), false), s.next);
      r.order == s.order && r.devices == s.devices && r.queue.pending == s.queue.pending
      && r.shutdowns == s.shutdowns && r.started == s.started
  {
    var s1, n := AddDevice(s, Entry(id), false), s.next;
    NewEntry(id);
    EnqueueThenRemove(s.queue, s.now, n);
    RemovedDevice(s1, n, Entry(id), id.node);
    AddThenDelete(s, Entry(id));
  }

  lemma AddThenDelete(s: State, entry: string)
    requires RegistryOk(s)
    ensures var r := DeleteDevice(AddDevice(s, entry, false), s.next);
      r.order == s.order && r.devices == s.devices
  {
    LastPosition(s.order, s.next);
    assert AddDevice(s, entry, false).devices - {s.next} == s.devices;
  }

  /** A goodbye right after the announcement takes it back: registry, queue and shutdowns are as before. */
  lemma GoodbyeUndoesAnnouncement(s: State, id: Id)
    requires RegistryOk(s) && QueueOk(s) && NewDevice(s, id) && s.fabrics[id.fabric] != id.node
    ensures var r := Announce(Announce(s, id, false), id, true);
      r.order == s.order && r.devices == s.devices && r.queue.pending == s.queue.pending
      && r.shutdowns == s.shutdowns && r.started == s.started
  {
    AnnouncedIsFound(s, id, id);
    AddThenRemove(s, id);
  }

  lemma GoodbyeOfFound(s: State, id: Id, i: nat)
    requires RegistryOk(s) && id.fabric in s.fabrics && Find(Lists(s), Entry(id)) == Found(i)
    ensures s.order[i] in s.devices
    ensures Announce(s, id, true)
      == if s.devices[s.order[i]].status == Some(Offline) then s else RemoveNode(s, s.order[i])
  {}

  /** What the removal of a node that is not OFFLINE leaves. */
  ghost predicate Deleted(s: State, n: nat, name: nat, r: State)
    requires n in s.devices
  {
    && r.devices == s.devices - {n} && n !in r.order && r.order == Erase(s.order, Position(s.order, n))
    && r.queue.pending == Erase(s.queue.pending, Position(Nodes(s.queue.pending), n))
    && r.failing == s.failing && (FailingOk(s) ==> n !in r.failing)
    && r.shutdowns == s.shutdowns + if s.devices[n].status == Some(Interviewing) then [] else [name]
  }

  lemma RemovalDeletes(s: State, n: nat, ids: seq<Id>)
    requires RegistryOk(s) && QueueOk(s) && n in s.devices
    requires s.devices[n].status.Some? && s.devices[n].status != Some(Offline)
    requires ids != [] && s.devices[n].list == Reported(ListText(ids))
    ensures Deleted(s, n, ids[0].node, RemoveNode(s, n))
  {
    ListTextHolds(ids, ids[0]);
    ColonInList(ids);
    assert n in Nodes(s.queue.pending) ==> Waiting(s.devices[n]);
    RemovedDevice(s, n, ListText(ids), ids[0].node);
    DeletionLeaves(s, n, ids[0].node, RemoveNode(s, n).shutdowns);
  }

  lemma DeletionLeaves(s: State, n: nat, name: nat, shutdowns: seq<nat>)
    requires RegistryOk(s) && n in s.devices && s.devices[n].status != Some(Offline)
    requires shutdowns == if s.devices[n].status == Some(Interviewing) then s.shutdowns else s.shutdowns + [name]
    ensures Deleted(s, n, name, DeleteDevice(s.(queue := Remove(s.queue, s.now, n)), n).(shutdowns := shutdowns))
  {
    EraseDistinct(s.order, n);
  }

  /** What a goodbye does to the device it names. */
  ghost predicate GoodbyeOutcome(s: State, n: nat, name: nat, r: State)
    requires n in s.devices
  {
    match s.devices[n].status
    case None => r == s.(devices := s.devices[n := s.devices[n].(list := Missing)])
    case Some(Offline) => r == s
    case _ => Deleted(s, n, name, r)
  }

  lemma UnreadableIsStripped(s: State, n: nat)
    requires n in s.devices && s.devices[n].status.None?
    ensures RemoveNode(s, n) == s.(devices := s.devices[n := s.devices[n].(list := Missing)])
  {}

  lemma DeletedIsOutcome(s: State, n: nat, name: nat, r: State)
    requires n in s.devices && s.devices[n].status.Some? && s.devices[n].status != Some(Offline)
    requires Deleted(s, n, name, r)
    ensures GoodbyeOutcome(s, n, name, r)
  {}

  lemma RemovalOutcome(s: State, n: nat, ids: seq<Id>)
    requires RegistryOk(s) && QueueOk(s) && n in s.devices && s.devices[n].status != Some(Offline)
    requires ids != [] && s.devices[n].list == Reported(ListText(ids))
    ensures GoodbyeOutcome(s, n, ids[0].node, RemoveNode(s, n))
  {
    if s.devices[n].status.None? {
      UnreadableIsStripped(s, n);
    } else {
      RemovalDeletes(s, n, ids);
      DeletedIsOutcome(s, n, ids[0].node, RemoveNode(s, n));
    }
  }

  /** A goodbye does nothing to an OFFLINE device, deletes any other whose status can be read, and
      shuts its subscriptions down if its interview is over. If the status cannot be read, only the
      network-list attribute goes: the device stays, unnamed. */
  lemma GoodbyeDeletesUnlessOffline(s: State, ids: seq<Id>, id: Id, i: nat)
    requires RegistryOk(s) && QueueOk(s)
    requires id.fabric in s.fabrics && Find(Lists(s), Entry(id)) == Found(i)
    requires ids != [] && ListOf(s, s.order[i]) == Reported(ListText(ids))
    ensures s.order[i] in s.devices
    ensures GoodbyeOutcome(s, s.order[i], ids[0].node, Announce(s, id, true))
  {
    GoodbyeOfFound(s, id, i);
    if s.devices[s.order[i]].status != Some(Offline) {
      RemovalOutcome(s, s.order[i], ids);
    }
  }

  lemma OutcomeDeletesIff(s: State, n: nat, name: nat, r: State)
    requires n in s.devices && GoodbyeOutcome(s, n, name, r)
    ensures n !in r.devices <==> s.devices[n].status.Some? && s.devices[n].status != Some(Offline)
  {}

  /** So a goodbye deletes its device exactly when the status can be read and is not OFFLINE. */
  lemma GoodbyeDeletesIff(s: State, ids: seq<Id>, id: Id, i: nat)
    requires RegistryOk(s) && QueueOk(s)
    requires id.fabric in s.fabrics && Find(Lists(s), Entry(id)) == Found(i)
    requires ids != [] && ListOf(s, s.order[i]) == Reported(ListText(ids))
    ensures s.order[i] in s.devices
    ensures s.order[i] !in Announce(s, id, true).devices
      <==> s.devices[s.order[i]].status.Some? && s.devices[s.order[i]].status != Some(Offline)
  {
    GoodbyeDeletesUnlessOffline(s, ids, id, i);
    OutcomeDeletesIff(s, s.order[i], ids[0].node, Announce(s, id, true));
  }

  lemma ColonInList(ids: seq<Id>)
    requires ids != []
    ensures ':' in ListText(ids)
  {
    var rest := JoinedStarts(Entries(ids));
    assert ':' in Entry(ids[0]);
  }

  /** An idle controller arms the timer for the first device that is announced. */
  lemma FirstDeviceWaits(s: State, id: Id)
    requires s.queue.pending == [] && s.queue.events == []
    requires NewDevice(s, id) && s.fabrics[id.fabric] != id.node
    ensures var s' := HandleOne(Announce(s, id, false)); var due := s.now + INTERVIEW_DELAY;
      && s'.queue == Queue([Pending(s.next, due)], Some(due), [])
      && s' == AddDevice(s, Entry(id), false).(queue := s'.queue)
  {}

  /** Two devices announced to an idle controller, the second `gap` ms after the first: when the
      timer fires the second interview is about to be starved, exactly when the gap is not 0. */
  lemma SecondDeviceStarves(s: State, a: Id, b: Id, gap: nat, s1: State)
    requires RegistryOk(s) && s.queue.pending == [] && s.queue.events == []
    requires NewDevice(s, a) && NewDevice(s, b) && a != b && gap < INTERVIEW_DELAY
    requires s.fabrics[a.fabric] != a.node && s.fabrics[b.fabric] != b.node
    requires s1 == Next(HandleOne(Announce(s, a, false)), Tick(gap))
    ensures var fired := Next(Next(Announce(s1, b, false), Tick(INTERVIEW_DELAY - gap)), TimerFires);
      && fired.queue.events == [TimerExpired] && |fired.queue.pending| == 2
      && fired.queue.pending[0].node == s.next && fired.queue.pending[1].node == s.next + 1
      && fired.now == s.now + INTERVIEW_DELAY && fired.started == s.started
      && (fired.now < fired.queue.pending[1].due <==> gap > 0)
  {
    FirstDeviceWaits(s, a);
    AnnouncedIsFound(s, a, b);
    SameLists(Announce(s, a, false), s1);
    var s2 := Announce(s1, b, false);
    assert s2.queue.pending[1].due == s.now + gap + INTERVIEW_DELAY;
  }

  lemma FiredKeeps(s: State, a: Id, b: Id, gap: nat, s1: State, fired: State)
    requires Inv(s) && gap < INTERVIEW_DELAY
    requires s1 == Next(HandleOne(Announce(s, a, false)), Tick(gap))
    requires fired == Next(Next(Announce(s1, b, false), Tick(INTERVIEW_DELAY - gap)), TimerFires)
    ensures Inv(fired)
  {
    AnnounceKeeps(s, a, false);
    HandleKeeps(Announce(s, a, false));
    StepKeeps(HandleOne(Announce(s, a, false)), Tick(gap));
    AnnounceKeeps(s1, b, false);
    StepKeeps(Announce(s1, b, false), Tick(INTERVIEW_DELAY - gap));
    StepKeeps(Next(Announce(s1, b, false), Tick(INTERVIEW_DELAY - gap)), TimerFires);
  }

  /** So after the first interview, on no run shorter than the wrapped delay in which the second device
      stays registered does another interview start, whatever devices are announced. */
  lemma {:induction false} SecondDeviceWaitsForEver(s: State, a: Id, b: Id, gap: nat, s1: State, fired: State,
                                                    steps: seq<Step>)
    requires Inv(s) && s.queue.pending == [] && s.queue.events == []
    requires NewDevice(s, a) && NewDevice(s, b) && a != b && 0 < gap < INTERVIEW_DELAY
    requires s.fabrics[a.fabric] != a.node && s.fabrics[b.fabric] != b.node
    requires s1 == Next(HandleOne(Announce(s, a, false)), Tick(gap))
    requires fired == Next(Next(Announce(s1, b, false), Tick(INTERVIEW_DELAY - gap)), TimerFires)
    ensures var t := Exec(HandleOne(HandleOne(fired)), steps);
      t.now < s.now + UINT64 && s.next + 1 in t.devices ==>
        t.started == s.started + [Started(s.next, s.now + INTERVIEW_DELAY)]
  {
    SecondDeviceStarves(s, a, b, gap, s1);
    FiredKeeps(s, a, b, gap, s1, fired);
    var t := HandleOne(HandleOne(fired));
    if Exec(t, steps).now < s.now + UINT64 && s.next + 1 in Exec(t, steps).devices {
      WrappedDelayStarves(fired, t, steps);
    }
  }

  lemma OnlyWaitingRemoved(s: State, id: Id, t: State)
    requires RegistryOk(s) && t == AddDevice(s, Entry(id), false).(queue := t.queue)
    requires t.queue == Queue([Pending(s.next, s.now + INTERVIEW_DELAY)], t.queue.timer, [])
    ensures var r := RemoveNode(t, s.next);
      r.order == s.order && r.devices == s.devices && r.queue == Queue([], t.queue.timer, [])
      && r.now == s.now && r.fabrics == s.fabrics
  {
    NewEntry(id);
    assert Nodes(t.queue.pending) == [s.next];
    RemovedDevice(t, s.next, Entry(id), id.node);
    AddThenDelete(s, Entry(id));
  }

  /** The only waiting node says goodbye: it is gone and the timer stays armed. */
  lemma WaitingLeaves(s: State, id: Id, t: State)
    requires RegistryOk(s) && NewDevice(s, id)
    requires t == AddDevice(s, Entry(id), false).(queue := t.queue)
    requires t.queue == Queue([Pending(s.next, s.now + INTERVIEW_DELAY)], t.queue.timer, [])
    requires Find(Lists(t), Entry(id)) == Found(|s.order|)
    ensures var r := Announce(t, id, true);
      r.order == s.order && r.devices == s.devices && r.queue == Queue([], t.queue.timer, [])
      && r.now == s.now && r.fabrics == s.fabrics
  {
    AddKeepsRegistry(s, id, false);
    GoodbyeOfFound(t, id, |s.order|);
    OnlyWaitingRemoved(s, id, t);
  }

  lemma FirstDeviceIsFound(s: State, id: Id)
    requires RegistryOk(s) && s.queue.pending == [] && s.queue.events == []
    requires NewDevice(s, id) && s.fabrics[id.fabric] != id.node
    ensures Find(Lists(HandleOne(Announce(s, id, false))), Entry(id)) == Found(|s.order|)
  {
    FirstDeviceWaits(s, id);
    AnnouncedIsFound(s, id, id);
    SameLists(Announce(s, id, false), HandleOne(Announce(s, id, false)));
  }

  /** An idle controller hears a device, handles the timer setting and hears its goodbye: the timer
      stays armed for nobody. */
  lemma TimerOutlivesDevice(s: State, id: Id)
    requires RegistryOk(s) && s.queue.pending == [] && s.queue.events == []
    requires NewDevice(s, id) && s.fabrics[id.fabric] != id.node
    ensures var r := Announce(HandleOne(Announce(s, id, false)), id, true);
      r.queue == Queue([], Some(s.now + INTERVIEW_DELAY), []) && r.now == s.now && r.fabrics == s.fabrics
      && r.order == s.order && r.devices == s.devices
  {
    FirstDeviceWaits(s, id);
    FirstDeviceIsFound(s, id);
    WaitingLeaves(s, id, HandleOne(Announce(s, id, false)));
  }

  /** So if the device comes back when that timer is due, and the timer fires before the posted
      setting is handled, the returned device is interviewed at once. */
  lemma EarlyOnARun(s: State, id: Id, r: State)
    requires RegistryOk(s) && s.queue.pending == [] && s.queue.events == []
    requires NewDevice(s, id) && s.fabrics[id.fabric] != id.node
    requires r == Announce(HandleOne(Announce(s, id, false)), id, true)
    ensures var t := Next(r, Tick(INTERVIEW_DELAY));
      !NoneEarly(HandleOne(HandleOne(Next(Announce(t, id, false), TimerFires))))
  {
    TimerOutlivesDevice(s, id);
    ReturnsLate(s, id, r);
    EarlyWhenFiredOntoEvents(Next(r, Tick(INTERVIEW_DELAY)), id);
  }

  lemma ReturnsLate(s: State, id: Id, r: State)
    requires NewDevice(s, id) && r.order == s.order && r.devices == s.devices && r.fabrics == s.fabrics
    ensures NewDevice(Next(r, Tick(INTERVIEW_DELAY)), id)
  {
    SameLists(s, Next(r, Tick(INTERVIEW_DELAY)));
  }

  lemma SameLists(s: State, t: State)
    requires s.order == t.order && s.devices == t.devices
    ensures Lists(s) == Lists(t)
  {}
}
