/** The life of the devices of one fabric as a state machine: mDNS announcements and goodbyes, the
    interview queue, failures and recoveries all write the same registry. Every callback and every
    event handler is one step, and the steps may come in any order. */
module Lifecycle {
  import opened Wrappers
  import opened Text
  import opened Identity
  import opened FailingNode
  import opened InterviewQueue

  datatype Started = Started(node: nat, at: nat)

  /** `fabrics` maps a compressed fabric id to the controller's own node id there. `order` lists the
      registry nodes in creation order and `next` is a handle not used yet. `shutdowns` are the
      subscription shutdowns asked for; `started` and `queuedAt` record the interviews. */
  datatype State = State(
    now: nat,
    fabrics: map<nat, nat>,
    order: seq<nat>,
    devices: map<nat, Device>,
    next: nat,
    queue: Queue,
    failing: map<nat, nat>,
    shutdowns: seq<nat>,
    started: seq<Started>,
    queuedAt: map<nat, nat>)

  function ListOf(s: State, n: nat): NetworkList {
    if n in s.devices then s.devices[n].list else Missing
  }

  function Lists(s: State): (lists: seq<NetworkList>)
    ensures |lists| == |s.order|
    ensures forall i :: 0 <= i < |lists| ==> lists[i] == ListOf(s, s.order[i])
  {
    seq(|s.order|, i requires 0 <= i < |s.order| => ListOf(s, s.order[i]))
  }

  // ---------- the callbacks ----------

  /** What the `catch` of `OnNodeDiscovered` leaves: the network-list attribute is deleted. */
  function StripList(s: State, n: nat): State {
    if n in s.devices then s.(devices := s.devices[n := s.devices[n].(list := Missing)]) else s
  }

  function AddDevice(s: State, entry: string, own: bool): State {
    var n := s.next;
    var device := Device(Reported(entry), Some(if own then Functional else Interviewing), None, false);
    var s' := s.(order := s.order + [n], devices := s.devices[n := device], next := n + 1);
    if own then s'
    else s'.(queue := Enqueue(s.queue, s.now, n), queuedAt := s.queuedAt[n := s.now])
  }

  function DeleteDevice(s: State, n: nat): State {
    s.(order := Erase(s.order, Position(s.order, n)), devices := s.devices - {n})
  }

  /** `mpc_node_removal_handle`. */
  function RemoveNode(s: State, n: nat): State {
    if n !in s.devices || s.devices[n].status.None? then StripList(s, n)
    else
      var waiting := Position(Nodes(s.queue.pending), n) < |s.queue.pending|;
      var interviewing := s.devices[n].status == Some(Interviewing);
      var s' := s.(queue := Remove(s.queue, s.now, n));
      if waiting && !interviewing then s'
      else match s.devices[n].list
        case Reported(text) =>
          if ':' !in text then s'
          else if NodeIdOf(text).None? then StripList(s', n)
          else
            var s'' := DeleteDevice(s', n);
            if interviewing then s'' else s''.(shutdowns := s.shutdowns + [NodeIdOf(text).value])
        case _ => StripList(s', n)
  }

  /** `OnNodeDiscovered` for an operational record; a goodbye is a record with zero TTL. */
  function Announce(s: State, id: Id, goodbye: bool): State {
    if id.fabric !in s.fabrics then s
    else match Find(Lists(s), Entry(id))
      case Failed(i) => StripList(s, s.order[i])
      case Found(i) =>
        var n := s.order[i];
        if goodbye then
          if n in s.devices && s.devices[n].status == Some(Offline) then s else RemoveNode(s, n)
        else s  // `needs_update` is asked about the list attribute and never finds a status
      case NotFound =>
        if goodbye then s else AddDevice(s, Entry(id), s.fabrics[id.fabric] == id.node)
  }

  function TrackedAt(s: State, n: nat): Tracked
    requires n in s.devices
  {
    Tracked(s.devices[n], if n in s.failing then Some(s.failing[n]) else None)
  }

  function PutTracked(s: State, n: nat, x: Tracked): State {
    s.(devices := s.devices[n := x.device],
       failing := if x.row.Some? then s.failing[n := x.row.value] else s.failing - {n})
  }

  /** `mpc_mark_device_as_failing`; the table keeps seconds. */
  function MarkNode(s: State, n: nat): State {
    if n in s.devices then PutTracked(s, n, Mark(TrackedAt(s, n), s.now / 1000)) else s
  }

  /** `mpc_failing_node_recovery`. */
  function RecoverNode(s: State, n: nat): State {
    if n in s.devices then PutTracked(s, n, Recover(TrackedAt(s, n))) else s
  }

  /** `mpc_attribute_resolver_resolution_completion`, called once the listener is registered. */
  function CompleteNode(s: State, n: nat, functional: bool): State {
    if n !in s.devices || !s.devices[n].listening || s.devices[n].status == Some(Offline) then s
    else s.(devices := s.devices[n := s.devices[n].(status := Some(if functional then Functional else NonFunctional))])
  }

  /** The oldest event is an expired timer and a node is waiting. */
  predicate Starts(s: State) {
    s.queue.events != [] && s.queue.events[0].TimerExpired? && s.queue.pending != []
  }

  /** The process thread handles its oldest event; an expired timer starts the first interview. */
  function HandleOne(s: State): State {
    var s' := s.(queue := HandleEvent(s.queue, s.now));
    if !Starts(s) then s'
    else
      var n := s.queue.pending[0].node;
      var s'' := s'.(started := s.started + [Started(n, s.now)]);
      if n in s.devices then s''.(devices := s.devices[n := s.devices[n].(listening := true)]) else s''
  }

  // ---------- runs ----------

  datatype Step =
    | Announced(id: Id, goodbye: bool)
    | MarkedFailing(node: nat)
    | Recovered(node: nat)
    | Completed(node: nat, functional: bool)
    | RowExpired(node: nat)
    | Tick(ms: nat)
    | TimerFires
    | EventHandled

  function Next(s: State, step: Step): State {
    match step
    case Announced(id, goodbye) => Announce(s, id, goodbye)
    case MarkedFailing(n) => MarkNode(s, n)
    case Recovered(n) => RecoverNode(s, n)
    case Completed(n, functional) => CompleteNode(s, n, functional)
    case RowExpired(n) => s.(failing := s.failing - {n})
    case Tick(ms) => s.(now := s.now + ms)
    case TimerFires => s.(queue := Expire(s.queue, s.now))
    case EventHandled => HandleOne(s)
  }

  function Exec(s: State, steps: seq<Step>): State {
    if steps == [] then s else Next(Exec(s, steps[..|steps| - 1]), steps[|steps| - 1])
  }

  // ---------- what every step keeps ----------

  ghost predicate RegistryOk(s: State) {
    && Distinct(s.order)
    && (forall n :: n in s.order <==> n in s.devices)
    && (forall n :: n in s.devices ==> n < s.next)
  }

  /** Every status can be read. */
  ghost predicate Statused(s: State) {
    forall n :: n in s.devices ==> s.devices[n].status.Some?
  }

  /** Every network list can be read. */
  ghost predicate Readable(s: State) {
    forall n :: n in s.devices ==> !s.devices[n].list.Unreported?
  }

  /** A device that waits for its interview: it is named by a readable network list and its status
      is INTERVIEWING, or OFFLINE after a failure. */
  predicate Waiting(d: Device) {
    && !d.listening
    && d.status in {Some(Interviewing), Some(Offline)}
    && d.saved in {None, Some(Interviewing), Some(Offline)}
    && d.list.Reported? && ':' in d.list.text && NodeIdOf(d.list.text).Some?
  }

  ghost predicate QueueOk(s: State) {
    && Ordered(s.queue, s.now)
    && Distinct(Nodes(s.queue.pending))
    && (forall n :: n in Nodes(s.queue.pending) ==> n in s.devices && Waiting(s.devices[n]))
  }

  /** Every row of the failing-node table names a live device that is OFFLINE. */
  ghost predicate FailingOk(s: State) {
    forall n :: n in s.failing ==> n in s.devices && s.devices[n].status == Some(Offline)
  }

  /** No two registry nodes carry the same network-list entry. */
  ghost predicate EntriesUnique(s: State) {
    forall n, m, entry :: HasEntry(ListOf(s, n), entry) && HasEntry(ListOf(s, m), entry) ==> n == m
  }

  /** An entry is due one delay after its node was queued. */
  ghost predicate QueuedOk(s: State) {
    && (forall p :: p in s.queue.pending ==> p.node in s.queuedAt && p.due == s.queuedAt[p.node] + INTERVIEW_DELAY)
    && (forall n :: n in s.queuedAt ==> n < s.next)
  }

  /** Each interview was queued for and took its node off the queue, and no node has two. */
  ghost predicate StartedOk(s: State) {
    && (forall i :: 0 <= i < |s.started| ==>
          s.started[i].node in s.queuedAt && s.started[i].node !in Nodes(s.queue.pending))
    && (forall i, j :: 0 <= i < j < |s.started| ==> s.started[i].node != s.started[j].node)
  }

  ghost predicate HistoryOk(s: State) {
    QueuedOk(s) && StartedOk(s)
  }

  ghost predicate Inv(s: State) {
    RegistryOk(s) && QueueOk(s) && FailingOk(s) && EntriesUnique(s) && HistoryOk(s)
  }

  lemma NewEntry(id: Id)
    ensures Split(Entry(id), {','}) == [Entry(id)]
    ensures NodeIdOf(Entry(id)) == Some(id.node)
  {
    SplitFree(Entry(id), {','});
    NodeIdOfFirst(id, []);
    assert Entry(id) + [] == Entry(id);
  }

  lemma AddKeepsRegistry(s: State, id: Id, own: bool)
    requires RegistryOk(s)
    ensures RegistryOk(AddDevice(s, Entry(id), own))
  {
    AppendDistinct(s.order, s.next);
  }

  lemma AddKeepsQueue(s: State, id: Id, own: bool)
    requires RegistryOk(s) && QueueOk(s)
    ensures QueueOk(AddDevice(s, Entry(id), own))
  {
    NewEntry(id);
    EnqueueOrdered(s.queue, s.now, s.next);
  }

  lemma AddKeepsEntries(s: State, id: Id, own: bool)
    requires EntriesUnique(s)
    requires forall n :: !HasEntry(ListOf(s, n), Entry(id))
    ensures EntriesUnique(AddDevice(s, Entry(id), own))
  {
    var s' := AddDevice(s, Entry(id), own);
    NewEntry(id);
    assert forall n :: n != s.next ==> ListOf(s', n) == ListOf(s, n);
    assert forall entry :: HasEntry(ListOf(s', s.next), entry) ==> entry == Entry(id);
  }

  lemma AddKeepsHistory(s: State, id: Id, own: bool)
    requires RegistryOk(s) && QueueOk(s) && HistoryOk(s)
    ensures HistoryOk(AddDevice(s, Entry(id), own))
  {
    EnqueueOrdered(s.queue, s.now, s.next);
  }

  lemma AddDeviceKeeps(s: State, id: Id, own: bool)
    requires Inv(s)
    requires forall n :: !HasEntry(ListOf(s, n), Entry(id))
    ensures Inv(AddDevice(s, Entry(id), own))
  {
    AddKeepsRegistry(s, id, own);
    AddKeepsQueue(s, id, own);
    AddKeepsEntries(s, id, own);
    AddKeepsHistory(s, id, own);
  }

  lemma StripListKeeps(s: State, n: nat)
    requires Inv(s) && n !in Nodes(s.queue.pending)
    ensures Inv(StripList(s, n))
  {
    var s' := StripList(s, n);
    assert forall m, entry :: HasEntry(ListOf(s', m), entry) ==> HasEntry(ListOf(s, m), entry);
  }

  lemma RemovedFromQueue(s: State, n: nat)
    requires Inv(s)
    ensures Inv(s.(queue := Remove(s.queue, s.now, n)))
    ensures n !in Nodes(Remove(s.queue, s.now, n).pending)
  {
    RemoveOrdered(s.queue, s.now, n);
    var s' := s.(queue := Remove(s.queue, s.now, n));
    assert forall m :: ListOf(s', m) == ListOf(s, m);
  }

  lemma DeletedFromRegistry(s: State, n: nat)
    requires Inv(s) && n !in Nodes(s.queue.pending) && n !in s.failing
    ensures Inv(DeleteDevice(s, n))
  {
    EraseDistinct(s.order, n);
    var s' := DeleteDevice(s, n);
    assert forall m, entry :: HasEntry(ListOf(s', m), entry) ==> HasEntry(ListOf(s, m), entry);
  }

  lemma ShutdownsDoNotMatter(s: State, shutdowns: seq<nat>)
    requires Inv(s)
    ensures Inv(s.(shutdowns := shutdowns))
  {
    assert forall m :: ListOf(s.(shutdowns := shutdowns), m) == ListOf(s, m);
  }

  /** The ways the removal of a live node ends: without a status the handler throws at once. */
  lemma RemoveNodeCases(s: State, n: nat)
    requires n in s.devices
    ensures var s1 := s.(queue := Remove(s.queue, s.now, n)); var r := RemoveNode(s, n);
      if s.devices[n].status.None? then r == StripList(s, n)
      else r == s1 || r == StripList(s1, n) || r == DeleteDevice(s1, n).(shutdowns := r.shutdowns)
  {}

  /** A goodbye for a node that is not OFFLINE, its status readable or not. */
  lemma RemoveNodeKeeps(s: State, n: nat)
    requires Inv(s) && n in s.devices && s.devices[n].status != Some(Offline)
    ensures Inv(RemoveNode(s, n))
  {
    RemoveNodeCases(s, n);
    if s.devices[n].status.None? {
      StripListKeeps(s, n);
    } else {
      RemoveStatusedKeeps(s, n);
    }
  }

  lemma RemoveStatusedKeeps(s: State, n: nat)
    requires Inv(s) && n in s.devices && s.devices[n].status.Some? && s.devices[n].status != Some(Offline)
    ensures Inv(RemoveNode(s, n))
  {
    var s1 := s.(queue := Remove(s.queue, s.now, n));
    RemovedFromQueue(s, n);
    DeletedFromRegistry(s1, n);
    StripListKeeps(s1, n);
    ShutdownsDoNotMatter(DeleteDevice(s1, n), RemoveNode(s, n).shutdowns);
    RemoveNodeCases(s, n);
  }

  lemma AnnounceKeeps(s: State, id: Id, goodbye: bool)
    requires Inv(s)
    ensures Inv(Announce(s, id, goodbye))
  {
    var lists := Lists(s);
    match Find(lists, Entry(id)) {
      case NotFound =>
        forall n
          ensures !HasEntry(ListOf(s, n), Entry(id))
        {
          if n in s.order {
            var i :| 0 <= i < |s.order| && s.order[i] == n;
            assert lists[i] == ListOf(s, n);
          }
        }
        if id.fabric in s.fabrics && !goodbye {
          AddDeviceKeeps(s, id, s.fabrics[id.fabric] == id.node);
        }
      case Failed(i) =>
        StripListKeeps(s, s.order[i]);
      case Found(i) =>
        var n := s.order[i];
        if s.devices[n].status != Some(Offline) {
          RemoveNodeKeeps(s, n);
        }
    }
  }

  lemma PutTrackedKeeps(s: State, n: nat, x: Tracked)
    requires Inv(s) && n in s.devices
    requires x.device.list == s.devices[n].list
    requires x.row.Some? ==> x.device.status == Some(Offline)
    requires Waiting(s.devices[n]) ==> Waiting(x.device)
    ensures Inv(PutTracked(s, n, x))
  {
    var s' := PutTracked(s, n, x);
    assert forall m :: ListOf(s', m) == ListOf(s, m);
  }

  lemma CompleteKeeps(s: State, n: nat, functional: bool)
    requires Inv(s)
    ensures Inv(CompleteNode(s, n, functional))
  {
    var s' := CompleteNode(s, n, functional);
    assert forall m :: ListOf(s', m) == ListOf(s, m);
  }

  lemma TimersDoNotMatter(s: State, queue: Queue)
    requires Inv(s) && queue.pending == s.queue.pending
    ensures Inv(s.(queue := queue))
  {
    assert forall m :: ListOf(s.(queue := queue), m) == ListOf(s, m);
  }

  lemma StartKeepsQueued(s: State)
    requires QueueOk(s) && QueuedOk(s) && Starts(s)
    ensures QueuedOk(HandleOne(s))
  {
    TakeFirstOrdered(s.queue.(events := s.queue.events[1..]), s.now);
  }

  lemma OneMoreStarted(s: State, t: State, n: nat)
    requires StartedOk(s) && n in s.queuedAt && n in Nodes(s.queue.pending)
    requires t.started == s.started + [Started(n, s.now)] && t.queuedAt == s.queuedAt
    requires forall m :: m in Nodes(t.queue.pending) ==> m in Nodes(s.queue.pending) && m != n
    ensures StartedOk(t)
  {
    var last := |s.started|;
    assert t.started[last].node == n;
    assert forall i :: 0 <= i < last ==> t.started[i] == s.started[i] && s.started[i].node != n;
  }

  lemma StartKeepsStarted(s: State)
    requires QueueOk(s) && HistoryOk(s) && Starts(s)
    ensures StartedOk(HandleOne(s))
  {
    TakeFirstOrdered(s.queue.(events := s.queue.events[1..]), s.now);
    var first := s.queue.pending[0];
    assert first in s.queue.pending && first.node == Nodes(s.queue.pending)[0];
    OneMoreStarted(s, HandleOne(s), first.node);
  }

  lemma StartKeepsQueue(s: State)
    requires QueueOk(s) && Starts(s)
    ensures QueueOk(HandleOne(s))
  {
    var q := s.queue.(events := s.queue.events[1..]);
    TakeFirstOrdered(q, s.now);
    assert HandleOne(s).queue == TakeFirst(q, s.now);
  }

  lemma StartKeepsRegistry(s: State)
    requires RegistryOk(s) && FailingOk(s) && EntriesUnique(s) && Starts(s)
    ensures RegistryOk(HandleOne(s)) && FailingOk(HandleOne(s)) && EntriesUnique(HandleOne(s))
  {
    var s' := HandleOne(s);
    assert forall m :: ListOf(s', m) == ListOf(s, m);
  }

  lemma StartKeeps(s: State)
    requires Inv(s) && Starts(s)
    ensures Inv(HandleOne(s))
  {
    StartKeepsRegistry(s);
    StartKeepsQueue(s);
    StartKeepsQueued(s);
    StartKeepsStarted(s);
  }

  lemma HandleKeeps(s: State)
    requires Inv(s)
    ensures Inv(HandleOne(s))
  {
    if Starts(s) {
      StartKeeps(s);
    } else {
      TimersDoNotMatter(s, HandleEvent(s.queue, s.now));
    }
  }

  lemma ClockKeeps(s: State, ms: nat)
    requires Inv(s)
    ensures Inv(s.(now := s.now + ms))
  {
    var s' := s.(now := s.now + ms);
    assert forall m :: ListOf(s', m) == ListOf(s, m);
  }

  lemma DropRowKeeps(s: State, n: nat)
    requires Inv(s)
    ensures Inv(s.(failing := s.failing - {n}))
  {
    var s' := s.(failing := s.failing - {n});
    assert forall m :: ListOf(s', m) == ListOf(s, m);
  }

  lemma MarkKeeps(s: State, n: nat)
    requires Inv(s)
    ensures Inv(MarkNode(s, n))
  {
    if n in s.devices {
      PutTrackedKeeps(s, n, Mark(TrackedAt(s, n), s.now / 1000));
    }
  }

  lemma RecoverKeeps(s: State, n: nat)
    requires Inv(s)
    ensures Inv(RecoverNode(s, n))
  {
    if n in s.devices {
      PutTrackedKeeps(s, n, Recover(TrackedAt(s, n)));
    }
  }

  /** Every step keeps the invariant, in whatever state and order it comes. */
  lemma StepKeeps(s: State, step: Step)
    requires Inv(s)
    ensures Inv(Next(s, step))
  {
    match step {
      case Announced(id, goodbye) => AnnounceKeeps(s, id, goodbye);
      case MarkedFailing(n) => MarkKeeps(s, n);
      case Recovered(n) => RecoverKeeps(s, n);
      case Completed(n, functional) => CompleteKeeps(s, n, functional);
      case RowExpired(n) => DropRowKeeps(s, n);
      case Tick(ms) => ClockKeeps(s, ms);
      case TimerFires => TimersDoNotMatter(s, Expire(s.queue, s.now));
      case EventHandled => HandleKeeps(s);
    }
  }

  /** On every run the registry stays free of repeated entries, the queue stays ordered and made of
      live waiting nodes, and the failing-node table names only live OFFLINE devices. */
  lemma {:induction false} RunKeepsInvariant(s: State, steps: seq<Step>)
    requires Inv(s)
    ensures Inv(Exec(s, steps))
  {
    if steps != [] {
      RunKeepsInvariant(s, steps[..|steps| - 1]);
      StepKeeps(Exec(s, steps[..|steps| - 1]), steps[|steps| - 1]);
    }
  }

  /** Every device of `t` is one of `s` as it was, or without its network list. */
  ghost predicate OnlyStrips(s: State, t: State) {
    forall n :: n in t.devices ==> n in s.devices && t.devices[n] in {s.devices[n], s.devices[n].(list := Missing)}
  }

  lemma RemovalOnlyStrips(s: State, n: nat)
    requires n in s.devices
    ensures OnlyStrips(s, RemoveNode(s, n))
    ensures forall m :: m in s.devices && m != n ==> m in RemoveNode(s, n).devices
  {
    RemoveNodeCases(s, n);
  }

  lemma AnnounceReadable(s: State, id: Id, goodbye: bool)
    requires RegistryOk(s)
    ensures Statused(s) ==> Statused(Announce(s, id, goodbye))
    ensures Readable(s) ==> Readable(Announce(s, id, goodbye))
  {
    match Find(Lists(s), Entry(id)) {
      case Found(i) =>
        assert s.order[i] in s.devices;
        RemovalOnlyStrips(s, s.order[i]);
      case _ =>
    }
  }

  lemma StepReadable(s: State, step: Step)
    requires RegistryOk(s)
    ensures Statused(s) ==> Statused(Next(s, step))
    ensures Readable(s) ==> Readable(Next(s, step))
  {
    if step.Announced? {
      AnnounceReadable(s, step.id, step.goodbye);
    }
  }

  /** If every status can be read it stays so on every run, and so it is with the network lists. */
  lemma {:induction false} RunReadable(s: State, steps: seq<Step>)
    requires Inv(s)
    ensures Statused(s) ==> Statused(Exec(s, steps))
    ensures Readable(s) ==> Readable(Exec(s, steps))
  {
    if steps != [] {
      var front := steps[..|steps| - 1];
      RunReadable(s, front);
      RunKeepsInvariant(s, front);
      StepReadable(Exec(s, front), steps[|steps| - 1]);
    }
  }
}
