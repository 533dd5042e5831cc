/** The network monitor and the failing-node code as they run: one object whose callbacks update the
    registry, the interview queue and the failing-node table in place. Each callback does exactly
    one step of the life cycle. */
module Controller {
  import opened Wrappers
  import opened Text
  import opened Identity
  import opened FailingNode
  import opened FailingNodeDatastore
  import opened InterviewQueue
  import opened Lifecycle
  import opened FabricList

  /** The status child of a network-list attribute, which has no children. */
  const STATUS_OF_LIST_ATTRIBUTE: Option<Status> := None

  lemma {:induction false} PositionIs(xs: seq<nat>, x: nat, i: nat)
    requires i <= |xs| && x !in xs[..i] && (i < |xs| ==> xs[i] == x)
    ensures Position(xs, x) == i
  {
    if xs != [] && xs[0] != x {
      assert xs[1..][..i - 1] == xs[..i][1..];
      PositionIs(xs[1..], x, i - 1);
    }
  }

  lemma {:induction false} MatchStaysThrown(s: State, item: string, m: nat)
    requires m <= |s.order| && LastMatch(s, item, m).Threw?
    ensures LastMatch(s, item, |s.order|).Threw?
    decreases |s.order| - m
  {
    if m < |s.order| {
      MatchStaysThrown(s, item, m + 1);
    }
  }

  lemma {:induction false} FindControllerStep(s: State, table: seq<Fabric>, k: nat)
    requires k < |table| && FindController(s, table, k).Ended?
    ensures FindController(s, table, k + 1)
      == if FindController(s, table, k).found.Some? then FindController(s, table, k)
         else LastMatch(s, Entry(table[k].id), |s.order|)
  {}

  lemma {:induction false} BuiltTextStep(table: seq<Fabric>, i: nat, removed: nat, limit: nat)
    requires i < |table|
    ensures BuiltText(table[..i + 1], removed, limit)
      == AppendedText(BuiltText(table[..i], removed, limit), table[i], removed, limit)
  {
    var more := table[..i + 1];
    assert more[..|more| - 1] == table[..i] && more[|more| - 1] == table[i];
  }

  lemma {:induction false} ControllerStaysThrown(s: State, table: seq<Fabric>, k: nat)
    requires k <= |table| && FindController(s, table, k).Threw?
    ensures FindController(s, table, |table|).Threw?
    decreases |table| - k
  {
    if k < |table| {
      ControllerStaysThrown(s, table, k + 1);
    }
  }

  lemma {:induction false} WipeStaysThrown(s: State, nodes: seq<nat>, k: nat)
    requires k <= |nodes| && Wipe(s, nodes, k).None?
    ensures Wipe(s, nodes, |nodes|).None?
    decreases |nodes| - k
  {
    if k < |nodes| {
      WipeStaysThrown(s, nodes, k + 1);
    }
  }

  lemma {:induction false} WipeStopsHere(s: State, nodes: seq<nat>, k: nat, t: State)
    requires k < |nodes| && Wipe(s, nodes, k) == Some(t) && WipeNode(t, nodes[k]).None?
    ensures Wipe(s, nodes, |nodes|).None? && WipeStopped(s, nodes, t)
  {
    WipeStaysThrown(s, nodes, k + 1);
  }

  lemma {:induction false} WipeGoesOn(s: State, nodes: seq<nat>, k: nat, t: State)
    requires k < |nodes| && Wipe(s, nodes, k) == Some(t)
    ensures Wipe(s, nodes, k + 1) == WipeNode(t, nodes[k])
  {}

  class Controller {
    const failingNodes: Datastore
    var now: nat
    var fabrics: map<nat, nat>
    var order: seq<nat>
    var devices: map<nat, Device>
    var next: nat
    var pendingInterviews: seq<Pending>
    var timer: Option<nat>
    var events: seq<Event>
    var shutdowns: seq<nat>
    ghost var started: seq<Started>
    ghost var queuedAt: map<nat, nat>

    ghost function Snapshot(): State
      reads this, failingNodes
    {
      State(now, fabrics, order, devices, next, Queue(pendingInterviews, timer, events), failingNodes.rows,
            shutdowns, started, queuedAt)
    }

    ghost predicate Valid()
      reads this, failingNodes
    {
      Inv(Snapshot())
    }

    /** A controller that has been commissioned: its own node is the only one in the registry. */
    constructor (clock: nat, fabric: U64, node: U64)
      ensures Valid() && Awake(Snapshot().queue) && OnTime(Snapshot().queue, clock)
      ensures Statused(Snapshot()) && Readable(Snapshot())
      ensures fabrics == map[fabric := node] && order == [0] && pendingInterviews == [] && failingNodes.rows == map[]
      ensures devices[0] == Device(Reported(Entry(Id(fabric, node))), Some(Functional), None, false)
      ensures fresh(failingNodes)
    {
      failingNodes := new Datastore();
      now, fabrics := clock, map[fabric := node];
      order, next := [0], 1;
      devices := map[0 := Device(Reported(Entry(Id(fabric, node))), Some(Functional), None, false)];
      pendingInterviews, timer, events := [], None, [];
      shutdowns, started, queuedAt := [], [], map[];
    }

    /** Reads the status child of the attribute it is given; a failed read means no update. */
    method NeedsUpdate(status: Option<Status>) returns (update: bool)
      ensures update <==> status in {Some(Interviewing), Some(Offline)}
    {
      match status {
        case None => update := false;
        case Some(state) => update := state != Functional && state != NonFunctional;
      }
    }

    method QueueNodeForInterview(node: nat)
      modifies this
      ensures Snapshot() == old(Snapshot()).(queue := Enqueue(old(Snapshot()).queue, now, node),
                                             queuedAt := old(queuedAt)[node := now])
    {
      var interviewAfter := now + INTERVIEW_DELAY;
      pendingInterviews := pendingInterviews + [Pending(node, interviewAfter)];
      queuedAt := queuedAt[node := now];
      if |pendingInterviews| == 1 || timer.None? {
        events := events + [SetTimer(INTERVIEW_DELAY)];
      }
    }

    method DeleteNode(n: nat)
      modifies this
      ensures Snapshot() == DeleteDevice(old(Snapshot()), n)
    {
      var i := 0;
      while i < |order| && order[i] != n
        invariant i <= |order| && n !in order[..i]
      {
        i := i + 1;
      }
      PositionIs(order, n, i);
      if i < |order| {
        order := order[..i] + order[i + 1..];
      }
      devices := devices - {n};
    }

    /** `std::find_if` over the queue. */
    method FindPending(unid: nat) returns (i: nat)
      ensures i == Position(Nodes(pendingInterviews), unid)
    {
      i := 0;
      while i < |pendingInterviews| && pendingInterviews[i].node != unid
        invariant i <= |pendingInterviews| && unid !in Nodes(pendingInterviews)[..i]
      {
        i := i + 1;
      }
      PositionIs(Nodes(pendingInterviews), unid, i);
    }

    /** Erases the node's entry from the queue; the new first entry gets a wake-up of its own. */
    method EraseFromQueue(unid: nat) returns (found: bool)
      modifies this
      ensures Snapshot() == old(Snapshot()).(queue := Remove(old(Snapshot()).queue, now, unid))
      ensures found <==> Position(Nodes(old(pendingInterviews)), unid) < |old(pendingInterviews)|
    {
      var i := FindPending(unid);
      found := i < |pendingInterviews|;
      if found {
        if i == 0 && |pendingInterviews| > 1 {
          var nextTrigger := 0;
          if now < pendingInterviews[1].due {
            nextTrigger := pendingInterviews[1].due - now;
          }
          events := events + [SetTimer(nextTrigger)];
        }
        pendingInterviews := pendingInterviews[..i] + pendingInterviews[i + 1..];
      }
    }

    /** Removes a node; `thrown` tells that an exception leaves it, which the caller catches by
        deleting the node's network-list attribute. */
    method NodeRemovalHandle(unid: nat) returns (thrown: bool)
      requires unid in devices
      modifies this
      ensures (if thrown then StripList(Snapshot(), unid) else Snapshot()) == RemoveNode(old(Snapshot()), unid)
    {
      if devices[unid].status.None? {
        return true;
      }
      var state := devices[unid].status.value;
      var found := EraseFromQueue(unid);
      if found && state != Interviewing {
        return false;
      }
      if !devices[unid].list.Reported? {
        return true;
      }
      var list := devices[unid].list.text;
      if ':' in list {
        var nodeId := NodeIdOf(list);
        if nodeId.None? {
          return true;
        }
        if state != Interviewing {
          shutdowns := shutdowns + [nodeId.value];
        }
        DeleteNode(unid);
      }
      return false;
    }

    method DeleteListAttribute(n: nat)
      modifies this
      ensures Snapshot() == StripList(old(Snapshot()), n)
    {
      if n in devices {
        devices := devices[n := devices[n].(list := Missing)];
      }
    }

    /** The node whose list holds the entry, or the failure of reading a list on the way. */
    method FindNode(networkListEntry: string) returns (r: Lookup)
      requires RegistryOk(Snapshot())
      ensures r == Find(Lists(Snapshot()), networkListEntry)
    {
      ghost var lists := Lists(Snapshot());
      var i := 0;
      while i < |order|
        invariant i <= |order|
        invariant Find(lists, networkListEntry) == Find(lists, networkListEntry, i)
      {
        assert order[i] in devices;
        var list := devices[order[i]].list;
        if list.Unreported? {
          return Failed(i);
        }
        if list.Reported? {
          var items := Split(list.text, {','});
          var findIndex := 0;
          while findIndex < |items| && items[findIndex] != networkListEntry
            invariant findIndex <= |items| && networkListEntry !in items[..findIndex]
          {
            findIndex := findIndex + 1;
          }
          if findIndex != |items| {
            return Found(i);
          }
        }
        i := i + 1;
      }
      return NotFound;
    }

    /** `OnNodeDiscovered`. */
    method OnNodeDiscovered(operational: bool, id: Id, hasZeroTTL: bool)
      requires RegistryOk(Snapshot())
      modifies this
      ensures Snapshot() == if operational then Announce(old(Snapshot()), id, hasZeroTTL) else old(Snapshot())
    {
      if !operational || id.fabric !in fabrics {
        return;
      }
      var networkListEntry := Decimal(id.fabric) + [':'] + Decimal(id.node);
      var found := FindNode(networkListEntry);
      match found {
        case Failed(i) =>
          DeleteListAttribute(order[i]);
        case Found(i) =>
          var unid := order[i];
          assert unid in devices;
          if hasZeroTTL {
            if devices[unid].status == Some(Offline) {
              return;
            }
            var thrown := NodeRemovalHandle(unid);
            if thrown {
              DeleteListAttribute(unid);
            }
          } else {
            var update := NeedsUpdate(STATUS_OF_LIST_ATTRIBUTE);
            if update {
              assert false;
            }
          }
        case NotFound =>
          if hasZeroTTL {
            return;
          }
          var node := next;
          order, next := order + [node], next + 1;
          var state := Interviewing;
          if fabrics[id.fabric] == id.node {
            state := Functional;
          } else {
            QueueNodeForInterview(node);
          }
          devices := devices[node := Device(Reported(networkListEntry), Some(state), None, false)];
      }
    }

    method StartNextPendingInterview()
      modifies this
      ensures var s, t := old(Snapshot()), Snapshot();
        if s.queue.pending == [] then t == s
        else var n := s.queue.pending[0].node;
          t == s.(queue := TakeFirst(s.queue, s.now), started := s.started + [Started(n, s.now)],
                  devices := if n in s.devices then s.devices[n := s.devices[n].(listening := true)] else s.devices)
    {
      if pendingInterviews == [] {
        return;
      }
      var node := pendingInterviews[0].node;
      started := started + [Started(node, now)];
      if node in devices {
        devices := devices[node := devices[node].(listening := true)];
      }
      pendingInterviews := pendingInterviews[1..];
      if pendingInterviews != [] {
        var nextTrigger := 0;
        if now < pendingInterviews[0].due {
          nextTrigger := (now - pendingInterviews[0].due) % UINT64;
        }
        events := events + [SetTimer(nextTrigger)];
      }
    }

    /** One turn of the process thread. */
    method ProcessThread()
      requires events != []
      modifies this
      ensures Snapshot() == HandleOne(old(Snapshot()))
    {
      var ev := events[0];
      events := events[1..];
      match ev {
        case TimerExpired =>
          StartNextPendingInterview();
        case SetTimer(delay) =>
          timer := Some(now + delay);
      }
    }

    method MarkDeviceAsFailing(node: nat) returns (ok: bool)
      modifies this, failingNodes
      ensures ok <==> node in old(devices) && old(devices)[node].status.Some?
      ensures Snapshot() == MarkNode(old(Snapshot()), node)
      ensures ok ==> node in devices && devices[node].status == Some(Offline)
                     && devices[node].saved == old(devices)[node].status
      ensures ok ==>
        (node in failingNodes.rows
         <==> node in old(failingNodes.rows) || old(devices)[node].status in {Some(Functional), Some(Offline)})
      ensures node in failingNodes.rows && node !in old(failingNodes.rows) ==> failingNodes.rows[node] == now / 1000
    {
      if node !in devices || devices[node].status.None? {
        return false;
      }
      var state := devices[node].status.value;
      devices := devices[node := devices[node].(saved := Some(state))];
      if state != Interviewing && state != NonFunctional {
        failingNodes.InsertFailingNode(Row(node, now / 1000));
      }
      devices := devices[node := devices[node].(status := Some(Offline))];
      return true;
    }

    method FailingNodeRecovery(node: nat) returns (ok: bool)
      modifies this, failingNodes
      ensures ok <==> (node in old(devices) && old(devices)[node].status.Some?
                       && (old(devices)[node].status == Some(Offline) ==> old(devices)[node].saved.Some?))
      ensures Snapshot() == RecoverNode(old(Snapshot()), node)
      ensures ok && old(devices)[node].status == Some(Offline) ==>
        node in devices && devices[node].status == old(devices)[node].saved && devices[node].saved.None?
        && failingNodes.rows == old(failingNodes.rows) - {node}
    {
      if node !in devices || devices[node].status.None? {
        return false;
      }
      if devices[node].status == Some(Offline) {
        var previous := devices[node].saved;
        if previous.None? {
          return false;
        }
        devices := devices[node := devices[node].(saved := None)];
        devices := devices[node := devices[node].(status := previous)];
        failingNodes.DeleteData(node);
      }
      return true;
    }

    method CheckAndMarkFailingNode(node: nat, error: ChipError) returns (ok: bool)
      modifies this, failingNodes
      ensures ok <==> (IsConnectionError(error) ==> node in old(devices) && old(devices)[node].status.Some?)
      ensures Snapshot() == if IsConnectionError(error) then MarkNode(old(Snapshot()), node) else old(Snapshot())
      ensures error == OtherError ==> Snapshot() == old(Snapshot())
      ensures error != OtherError && ok ==> devices[node].status == Some(Offline)
    {
      ok := true;
      if error == Timeout || error == ConnectionClosedUnexpectedly || error == MissingSecureSession
         || error == ConnectionAborted {
        ok := MarkDeviceAsFailing(node);
      }
    }

    /** The end of an interview; `functional` is the verdict of the completion check, and the result tells
        whether the node is then passed to monitoring. */
    method ResolutionCompletion(node: nat, functional: bool) returns (monitors: bool)
      requires node in devices && devices[node].listening
      modifies this
      ensures Snapshot() == CompleteNode(old(Snapshot()), node, functional)
      ensures monitors <==> old(devices)[node].status != Some(Offline)
      ensures monitors ==> devices[node].status == Some(if functional then Functional else NonFunctional)
    {
      if devices[node].status == Some(Offline) {
        return false;
      }
      devices := devices[node := devices[node].(status := Some(if functional then Functional else NonFunctional))];
      return true;
    }

    /** The node whose list contains the text, the last one if there are several. */
    method SearchNodes(networkListItem: string) returns (r: Search)
      requires RegistryOk(Snapshot())
      ensures r == LastMatch(Snapshot(), networkListItem, |order|)
    {
      ghost var s := Snapshot();
      var mpcNode := None;
      var j := 0;
      while j < |order|
        invariant j <= |order|
        invariant LastMatch(s, networkListItem, j) == Ended(mpcNode)
      {
        assert order[j] in devices;
        var list := devices[order[j]].list;
        if list.Unreported? {
          MatchStaysThrown(s, networkListItem, j + 1);
          return Threw;
        }
        if list.Reported? && Contains(list.text, networkListItem) {
          mpcNode := Some(order[j]);
        }
        j := j + 1;
      }
      return Ended(mpcNode);
    }

    /** Appends the entry of a fabric that stays, if it fits. */
    static method AppendItem(networkList: string, networkListItem: string, fabric: Fabric, removeIndex: nat, limit: nat)
      returns (longer: string)
      requires networkListItem == Entry(fabric.id)
      ensures longer == AppendedText(networkList, fabric, removeIndex, limit)
    {
      longer := networkList;
      if fabric.index != removeIndex && |networkList| + |networkListItem| + 1 < limit {
        longer := networkList + networkListItem + [','];
      }
    }

    /** The loop over the fabric table: it builds the network list and finds the controller's node. */
    method BuildNetworkList(table: seq<Fabric>, removeIndex: nat, limit: nat)
      returns (mpcNode: Search, networkList: string)
      requires RegistryOk(Snapshot())
      ensures mpcNode == FindController(Snapshot(), table, |table|)
      ensures mpcNode.Ended? ==> networkList == BuiltText(table, removeIndex, limit)
    {
      ghost var s := Snapshot();
      networkList := [];
      mpcNode := Ended(if |order| == 1 then Some(order[0]) else None);
      var i := 0;
      while i < |table|
        invariant i <= |table|
        invariant networkList == BuiltText(table[..i], removeIndex, limit)
        invariant mpcNode.Ended? && mpcNode == FindController(s, table, i)
      {
        var fabric := table[i];
        var networkListItem := Entry(fabric.id);
        FindControllerStep(s, table, i);
        BuiltTextStep(table, i, removeIndex, limit);
        networkList := AppendItem(networkList, networkListItem, fabric, removeIndex, limit);
        if mpcNode.found.None? {
          mpcNode := SearchNodes(networkListItem);
          if mpcNode.Threw? {
            ControllerStaysThrown(s, table, i + 1);
            return;
          }
        }
        i := i + 1;
      }
      assert table[..i] == table;
    }

    /** `find_mpc_and_update_networklist`; `thrown` tells that an exception escapes. */
    method FindMpcAndUpdateNetworkList(table: seq<Fabric>, removeIndex: nat, limit: nat) returns (thrown: bool)
      requires RegistryOk(Snapshot())
      modifies this
      ensures match UpdateNetworkList(old(Snapshot()), table, removeIndex, limit)
              case None => thrown && Snapshot() == old(Snapshot())
              case Some(t) => !thrown && Snapshot() == t
    {
      if order == [] {
        return false;
      }
      var mpcNode, networkList := BuildNetworkList(table, removeIndex, limit);
      if mpcNode.Threw? {
        return true;
      }
      BuiltTextIs(table, removeIndex, limit);
      if mpcNode.found.Some? {
        StoreNetworkList(mpcNode.found.value, networkList, Kept(table, removeIndex, limit));
      }
      return false;
    }

    method StoreNetworkList(n: nat, networkList: string, ghost kept: seq<Id>)
      requires networkList == Terminated(Entries(kept))
      modifies this
      ensures Snapshot() == SetController(old(Snapshot()), n, kept)
    {
      if kept != [] {
        PopBackOfTerminated(Entries(kept));
      }
      if n !in devices {
        return;
      }
      if networkList != [] {
        var list := networkList[..|networkList| - 1];
        devices := devices[n := devices[n].(list := Reported(list), status := Some(Functional))];
      } else if !devices[n].list.Missing? {
        devices := devices[n := devices[n].(list := Unreported, status := Some(NonFunctional))];
      }
    }

    /** One turn of the loop that deletes the devices of a removed fabric. */
    method WipeDevice(n: nat) returns (thrown: bool)
      modifies this
      ensures match WipeNode(old(Snapshot()), n)
              case None => thrown && Snapshot() == old(Snapshot())
              case Some(t) => !thrown && Snapshot() == t
    {
      var list := if n in devices then devices[n].list else Missing;
      if list.Reported? && ':' in list.text {
        var nodeId := NodeIdOf(list.text);
        if nodeId.None? {
          return true;
        }
        shutdowns := shutdowns + [nodeId.value];
        DeleteNode(n);
      }
      return false;
    }

    method WipeDevices(nodes: seq<nat>) returns (thrown: bool)
      modifies this
      ensures match Wipe(old(Snapshot()), nodes, |nodes|)
              case None => thrown && WipeStopped(old(Snapshot()), nodes, Snapshot())
              case Some(t) => !thrown && Snapshot() == t
    {
      ghost var s := Snapshot();
      thrown := false;
      var k := 0;
      while k < |nodes|
        invariant k <= |nodes|
        invariant !thrown && Wipe(s, nodes, k) == Some(Snapshot())
      {
        ghost var before := Snapshot();
        thrown := WipeDevice(nodes[k]);
        if thrown {
          WipeStopsHere(s, nodes, k, before);
          return;
        }
        WipeGoesOn(s, nodes, k, before);
        k := k + 1;
      }
    }

    /** `FabricWillBeRemoved`. */
    method FabricWillBeRemoved(table: seq<Fabric>, fabricIndex: nat, limit: nat) returns (thrown: bool)
      requires RegistryOk(Snapshot())
      modifies this
      ensures match RemoveFabric(old(Snapshot()), table, fabricIndex, limit)
              case None => thrown && RemovalStopped(old(Snapshot()), table, fabricIndex, limit, Snapshot())
              case Some(t) => !thrown && Snapshot() == t
    {
      thrown := FindMpcAndUpdateNetworkList(table, fabricIndex, limit);
      if thrown {
        return;
      }
      thrown := WipeDevices(order);
    }

    /** One step of the main loop. The object refines the state machine: whatever happens next, it
        does that step, and the invariant of the life cycle holds again. */
    method Perform(step: Step)
      requires Valid()
      modifies this, failingNodes
      ensures Snapshot() == Next(old(Snapshot()), step) && Valid()
    {
      StepKeeps(Snapshot(), step);
      match step {
        case Announced(id, goodbye) =>
          OnNodeDiscovered(true, id, goodbye);
        case MarkedFailing(node) =>
          var ok := MarkDeviceAsFailing(node);
        case Recovered(node) =>
          var ok := FailingNodeRecovery(node);
        case Completed(node, functional) =>
          if node in devices && devices[node].listening {
            var monitors := ResolutionCompletion(node, functional);
          }
        case RowExpired(node) =>
          failingNodes.DeleteData(node);
        case Tick(ms) =>
          now := now + ms;
        case TimerFires =>
          if timer.Some? && timer.value <= now {
            timer := None;
            events := events + [TimerExpired];
          }
        case EventHandled =>
          if events != [] {
            ProcessThread();
          }
      }
    }
  }
}
