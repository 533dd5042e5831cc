/** The network status of one device on the runs of the life cycle: from its announcement and its
    interview through its failures and recoveries. */
module DeviceHealth {
  import opened Wrappers
  import opened Text
  import opened Identity
  import opened FailingNode
  import opened InterviewQueue
  import opened Lifecycle
  import opened LifecycleRuns
  import ClusterLists

  // ---------- announcement and interview ----------

  /** A new device is registered under its entry, INTERVIEWING, and waits for its interview, due in
      10 000 ms; the timer is set for it if nobody else waits or the timer is not armed. */
  lemma NewDeviceWaits(s: State, id: Id)
    requires NewDevice(s, id) && s.fabrics[id.fabric] != id.node
    ensures var r := Announce(s, id, false);
      var wakes := s.queue.pending == [] || s.queue.timer.None?;
      && r.order == s.order + [s.next] && r.next == s.next + 1
      && r.devices == s.devices[s.next := Device(Reported(Entry(id)), Some(Interviewing), None, false)]
      && r.queue.pending == s.queue.pending + [Pending(s.next, s.now + 10000)] && r.queue.timer == s.queue.timer
      && r.queue.events == s.queue.events + if wakes then [SetTimer(10000)] else []
  {
    AnnouncedAdds(s, id);
  }

  /** The controller's own record makes a FUNCTIONAL node that is never interviewed. */
  lemma OwnNodeIsFunctional(s: State, id: Id)
    requires NewDevice(s, id) && s.fabrics[id.fabric] == id.node
    ensures Announce(s, id, false) == s.(
      order := s.order + [s.next], next := s.next + 1,
      devices := s.devices[s.next := Device(Reported(Entry(id)), Some(Functional), None, false)])
  {
    AnnouncedAdds(s, id);
  }

  /** A record of another fabric, a goodbye of an unknown device and an announcement of a known one
      change nothing. */
  lemma OtherRecordsChangeNothing(s: State, id: Id, goodbye: bool)
    requires id.fabric !in s.fabrics || (if goodbye then Find(Lists(s), Entry(id)).NotFound?
                                         else Find(Lists(s), Entry(id)).Found?)
    ensures Announce(s, id, goodbye) == s
  {}

  /** An unreadable list on the way costs its node that list, whatever the record was. */
  lemma UnreadableListIsDropped(s: State, id: Id, goodbye: bool, i: nat)
    requires RegistryOk(s) && id.fabric in s.fabrics && Find(Lists(s), Entry(id)) == Failed(i)
    ensures s.order[i] in s.devices
    ensures var n := s.order[i];
      Announce(s, id, goodbye) == s.(devices := s.devices[n := s.devices[n].(list := Missing)])
  {}

  /** A goodbye that finds its entry in a list whose first node id cannot be read throws, which costs the
      node that list, unless the device is OFFLINE. */
  lemma UnreadableIdIsStripped(s: State, id: Id, i: nat, text: string)
    requires RegistryOk(s) && QueueOk(s) && id.fabric in s.fabrics && Find(Lists(s), Entry(id)) == Found(i)
    requires ListOf(s, s.order[i]) == Reported(text) && ':' in text && NodeIdOf(text).None?
    ensures s.order[i] in s.devices
    ensures var n := s.order[i];
      Announce(s, id, true) == if s.devices[n].status == Some(Offline) then s
                               else s.(devices := s.devices[n := s.devices[n].(list := Missing)])
  {
    var n := s.order[i];
    GoodbyeOfFound(s, id, i);
    assert n !in Nodes(s.queue.pending);
    assert Remove(s.queue, s.now, n) == s.queue;
  }

  /** Handling an expiry interviews the first waiting node: it leaves the queue, its listener and
      endpoint exist, and nothing else happens to any device. */
  lemma InterviewBegins(s: State)
    requires Starts(s) && QueueOk(s)
    ensures var n, r := s.queue.pending[0].node, HandleOne(s);
      && n in s.devices && r.devices == s.devices[n := s.devices[n].(listening := true)]
      && r.queue.pending == s.queue.pending[1..] && r.started == s.started + [Started(n, s.now)]
      && r.queue.timer == s.queue.timer && (|s.queue.pending| == 1 ==> r.queue.events == s.queue.events[1..])
  {
    assert Nodes(s.queue.pending)[0] in Nodes(s.queue.pending);
  }

  /** An expiry that finds nobody waiting is dropped. */
  lemma ExpiryForNobody(s: State)
    requires s.queue.events != [] && s.queue.events[0].TimerExpired? && s.queue.pending == []
    ensures HandleOne(s) == s.(queue := Queue([], s.queue.timer, s.queue.events[1..]))
  {}

  /** The end of an interview of a device that is not OFFLINE leaves it FUNCTIONAL exactly when one of
      its endpoints is complete, and NON_FUNCTIONAL otherwise. */
  lemma {:induction false} InterviewEnds(s: State, n: nat, endpoints: seq<ClusterLists.Children>,
                                         interviews: seq<Option<ClusterLists.Interview>>)
    requires n in s.devices && s.devices[n].listening && s.devices[n].status != Some(Offline)
    requires ClusterLists.Decisive(endpoints, interviews)
    ensures var status :=
        if exists k :: 0 <= k < |interviews| && ClusterLists.Complete(endpoints[k], interviews[k])
        then Functional else NonFunctional;
      Next(s, Completed(n, ClusterLists.Functional(endpoints)))
      == s.(devices := s.devices[n := s.devices[n].(status := Some(status))])
  {
    ClusterLists.VerdictIff(endpoints, interviews);
  }

  /** An OFFLINE device, or one whose interview has not begun, keeps its status. */
  lemma NoInterviewEnds(s: State, n: nat, functional: bool)
    requires n in s.devices ==> !s.devices[n].listening || s.devices[n].status == Some(Offline)
    ensures Next(s, Completed(n, functional)) == s
  {}

  // ---------- failure and recovery ----------

  /** A failing device goes OFFLINE; its row, which only a functional one gets, has the second. */
  lemma FailureSetsOffline(s: State, n: nat)
    requires n in s.devices && Online(TrackedAt(s, n))
    ensures var d := s.devices[n];
      Next(s, MarkedFailing(n)) == s.(
        devices := s.devices[n := d.(status := Some(Offline), saved := d.status)],
        failing := if d.status == Some(Functional) then s.failing[n := s.now / 1000] else s.failing)
  {
    MarkStores(TrackedAt(s, n), s.now / 1000);
  }

  /** A recovery right after it takes everything back. */
  lemma RecoveryUndoesFailure(s: State, n: nat)
    requires n in s.devices && Online(TrackedAt(s, n))
    ensures Next(Next(s, MarkedFailing(n)), Recovered(n)) == s
  {
    FailureSetsOffline(s, n);
    var t := Next(Next(s, MarkedFailing(n)), Recovered(n));
    assert t.devices == s.devices && t.failing == s.failing;
  }

  /** The failures and recoveries of device `n` on a run. */
  function OpsOf(s: State, steps: seq<Step>, n: nat): seq<Op> {
    if steps == [] then []
    else
      var front := steps[..|steps| - 1];
      OpsOf(s, front, n) + OpOf(Exec(s, front), steps[|steps| - 1], n)
  }

  function OpOf(s: State, step: Step, n: nat): seq<Op> {
    match step
    case MarkedFailing(m) => if m == n then [Failure(s.now / 1000)] else []
    case Recovered(m) => if m == n then [Recovery] else []
    case _ => []
  }

  /** No interview of the device ends and its row does not expire. */
  predicate Undecided(steps: seq<Step>, n: nat) {
    forall i :: 0 <= i < |steps| ==> !(steps[i].Completed? && steps[i].node == n)
                                     && !(steps[i].RowExpired? && steps[i].node == n)
  }

  predicate SameHealth(x: Tracked, y: Tracked) {
    x.device.status == y.device.status && x.device.saved == y.device.saved && x.row == y.row
  }

  lemma AnnounceKeepsHealth(s: State, id: Id, goodbye: bool, n: nat)
    requires RegistryOk(s) && n in s.devices && n in Announce(s, id, goodbye).devices
    ensures SameHealth(TrackedAt(Announce(s, id, goodbye), n), TrackedAt(s, n))
  {
    match Find(Lists(s), Entry(id)) {
      case Found(i) =>
        assert s.order[i] in s.devices;
        RemovalOnlyStrips(s, s.order[i]);
        RemovalKeepsRows(s, s.order[i]);
      case _ =>
    }
  }

  lemma RemovalKeepsRows(s: State, m: nat)
    requires m in s.devices
    ensures RemoveNode(s, m).failing == s.failing
  {
    RemoveNodeCases(s, m);
  }

  lemma MarkedHealth(s: State, m: nat, n: nat, x: Tracked)
    requires n in s.devices && SameHealth(TrackedAt(s, n), x)
    ensures n in MarkNode(s, m).devices
    ensures SameHealth(TrackedAt(MarkNode(s, m), n), if m == n then Mark(x, s.now / 1000) else x)
  {}

  lemma RecoveredHealth(s: State, m: nat, n: nat, x: Tracked)
    requires n in s.devices && SameHealth(TrackedAt(s, n), x)
    ensures n in RecoverNode(s, m).devices
    ensures SameHealth(TrackedAt(RecoverNode(s, m), n), if m == n then Recover(x) else x)
  {}

  lemma OtherStepHealth(s: State, step: Step, n: nat)
    requires n in s.devices && n in Next(s, step).devices
    requires !step.Announced? && !step.MarkedFailing? && !step.Recovered?
    requires !(step.Completed? && step.node == n) && !(step.RowExpired? && step.node == n)
    ensures SameHealth(TrackedAt(Next(s, step), n), TrackedAt(s, n))
  {}

  lemma StepHealth(s: State, step: Step, n: nat, x: Tracked)
    requires RegistryOk(s) && n in s.devices && n in Next(s, step).devices
    requires Undecided([step], n) && SameHealth(TrackedAt(s, n), x)
    ensures var ops := OpOf(s, step, n);
      SameHealth(TrackedAt(Next(s, step), n), if ops == [] then x else Apply(x, ops[0]))
  {
    assert !([step][0].Completed? && [step][0].node == n) && !([step][0].RowExpired? && [step][0].node == n);
    match step {
      case Announced(id, goodbye) => AnnounceKeepsHealth(s, id, goodbye, n);
      case MarkedFailing(m) => MarkedHealth(s, m, n, x);
      case Recovered(m) => RecoveredHealth(s, m, n, x);
      case _ => OtherStepHealth(s, step, n);
    }
  }

  lemma RunOneMore(x: Tracked, ops: seq<Op>, more: seq<Op>)
    requires |more| <= 1
    ensures Run(x, ops + more) == if more == [] then Run(x, ops) else Apply(Run(x, ops), more[0])
  {
    assert more == [] ==> ops + more == ops;
    assert more != [] ==> (ops + more)[..|ops|] == ops;
  }

  lemma StillThere(s: State, front: seq<Step>, last: Step, n: nat)
    requires Inv(s) && n in s.devices && n in Next(Exec(s, front), last).devices
    ensures n in Exec(s, front).devices && RegistryOk(Exec(s, front))
  {
    RunKeepsInvariant(s, front);
    RunGrows(s, front);
    StepGrows(Exec(s, front), last, n);
  }

  lemma UndecidedParts(steps: seq<Step>, n: nat)
    requires steps != [] && Undecided(steps, n)
    ensures Undecided(steps[..|steps| - 1], n) && Undecided([steps[|steps| - 1]], n)
  {}

  /** On every run the status, the saved status and the table row of a device that stays registered are
      those of its own failures and recoveries, whatever happens to all the others and to time. */
  lemma {:induction false} HealthOnRun(s: State, steps: seq<Step>, n: nat)
    requires Inv(s) && n in s.devices && n in Exec(s, steps).devices && Undecided(steps, n)
    ensures SameHealth(TrackedAt(Exec(s, steps), n), Run(TrackedAt(s, n), OpsOf(s, steps, n)))
  {
    if steps != [] {
      var front, last := steps[..|steps| - 1], steps[|steps| - 1];
      var t := Exec(s, front);
      StillThere(s, front, last, n);
      UndecidedParts(steps, n);
      HealthOnRun(s, front, n);
      StepHealth(t, last, n, Run(TrackedAt(s, n), OpsOf(s, front, n)));
      RunOneMore(TrackedAt(s, n), OpsOf(s, front, n), OpOf(t, last, n));
    }
  }

  /** So a recovery at the end of any such run brings an online device back to its status, without a
      row, exactly when no two failures of that device came in a row. */
  lemma {:induction false} OnlineAgainIff(s: State, steps: seq<Step>, n: nat)
    requires Inv(s) && n in s.devices && Online(TrackedAt(s, n))
    requires n in Exec(s, steps).devices && Undecided(steps, n)
    ensures var r := Next(Exec(s, steps), Recovered(n));
      && n in r.devices
      && (r.devices[n].status == s.devices[n].status <==> !TwoFailuresInARow(OpsOf(s, steps, n)))
      && (r.devices[n].status == s.devices[n].status ==> n !in r.failing)
  {
    var x, ops := TrackedAt(s, n), OpsOf(s, steps, n);
    HealthOnRun(s, steps, n);
    RestoresIffNoDoubleFailure(x, ops);
  }

  /** And meanwhile it has a row exactly if its last event was a failure and it was functional, or had
      failed twice in a row. */
  lemma {:induction false} RowOnRunIff(s: State, steps: seq<Step>, n: nat)
    requires Inv(s) && n in s.devices && Online(TrackedAt(s, n))
    requires n in Exec(s, steps).devices && Undecided(steps, n)
    ensures var ops := OpsOf(s, steps, n);
      n in Exec(s, steps).failing
      <==> EndsInFailure(ops) && (s.devices[n].status == Some(Functional) || TwoFailuresInARow(ops))
  {
    HealthOnRun(s, steps, n);
    RowIff(TrackedAt(s, n), OpsOf(s, steps, n));
  }
}
