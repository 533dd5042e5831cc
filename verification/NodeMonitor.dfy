/** Subscriptions to the volatile attributes of the devices: which are set up, which are tracked, and
    what their errors do. A first timeout is answered by one new subscription. */
module NodeMonitor {
  import opened Wrappers
  import opened Identity
  import opened FailingNode
  import opened AttributePaths

  datatype Subscription = Subscription(node: nat, destination: nat, paths: seq<Path>, resubscribe: bool)

  /** A volatile attribute's place in the store. */
  datatype Place = Place(endpoint: nat, typ: nat)

  /** `setup` and `ongoing` are the two static maps, `places` the store, `nodes` each device with its
      failing-table row. History: `origins` gives for each subscription the one that an outside call
      made at the start of its chain, `errors` which subscription was told of which error. */
  datatype Monitor = Monitor(
    setup: map<nat, seq<nat>>,
    ongoing: map<nat, nat>,
    subscriptions: seq<Subscription>,
    places: map<nat, Place>,
    nodes: map<nat, Tracked>,
    origins: seq<nat>,
    errors: seq<(nat, ChipError)>)

  function Paths(places: map<nat, Place>, attributes: seq<nat>): (paths: seq<Path>)
    requires forall a :: a in attributes ==> a in places
  {
    if attributes == [] then []
    else
      var a := attributes[|attributes| - 1];
      Paths(places, attributes[..|attributes| - 1]) + [PathOf(places[a].endpoint, places[a].typ)]
  }

  /** Every path of a subscription goes to its attribute's endpoint and packs back to its type. */
  lemma {:induction false} PathsPackBack(places: map<nat, Place>, attributes: seq<nat>, i: nat)
    requires (forall a :: a in attributes ==> a in places) && i < |attributes|
    requires places[attributes[i]].typ < WORD * WORD
    ensures var paths, place := Paths(places, attributes), places[attributes[i]];
      && |paths| == |attributes| && paths[i].endpoint == place.endpoint
      && Pack(paths[i].cluster, paths[i].attribute) == place.typ
  {
    var front := attributes[..|attributes| - 1];
    if i < |front| {
      PathsPackBack(places, front, i);
    } else {
      PathCount(places, front);
      PackUnpack(0, 0, places[attributes[i]].typ);
    }
  }

  lemma {:induction false} PathCount(places: map<nat, Place>, attributes: seq<nat>)
    requires forall a :: a in attributes ==> a in places
    ensures |Paths(places, attributes)| == |attributes|
  {
    if attributes != [] {
      PathCount(places, attributes[..|attributes| - 1]);
    }
  }

  /** Whether a subscription to the node can be built: its list names a Matter node and its volatile
      attributes are still in the store. */
  predicate Subscribable(m: Monitor, node: nat) {
    && node in m.setup && node in m.nodes
    && m.nodes[node].device.list.Reported? && NodeIdOf(m.nodes[node].device.list.text).Some?
    && (forall a :: a in m.setup[node] ==> a in m.places)
  }

  /** `mpc_node_monitor_initiate_monitoring`; `insert` keeps an entry that is there. */
  function Initiate(m: Monitor, node: nat, resubscribe: bool, origin: nat): Monitor {
    if !Subscribable(m, node) then m
    else
      var index := |m.subscriptions|;
      var destination := NodeIdOf(m.nodes[node].device.list.text).value;
      var paths := Paths(m.places, m.setup[node]);
      m.(subscriptions := m.subscriptions + [Subscription(node, destination, paths, resubscribe)],
         ongoing := if node in m.ongoing then m.ongoing else m.ongoing[node := index],
         origins := m.origins + [origin])
  }

  /** The outside call. */
  function Start(m: Monitor, node: nat): Monitor {
    Initiate(m, node, false, |m.subscriptions|)
  }

  function Cancel(m: Monitor, node: nat): Monitor {
    m.(ongoing := m.ongoing - {node})
  }

  function MarkIn(m: Monitor, node: nat, seconds: nat): Monitor {
    if node in m.nodes then m.(nodes := m.nodes[node := Mark(m.nodes[node], seconds)]) else m
  }

  function RecoverIn(m: Monitor, node: nat): Monitor {
    if node in m.nodes then m.(nodes := m.nodes[node := Recover(m.nodes[node])]) else m
  }

  /** `OnError` of subscription `i`. */
  function Fail(m: Monitor, i: nat, error: ChipError, seconds: nat): Monitor {
    if i >= |m.subscriptions| || i >= |m.origins| then m
    else
      var s := m.subscriptions[i];
      var m' := m.(errors := m.errors + [(i, error)]);
      if s.resubscribe then (if IsConnectionError(error) then MarkIn(m', s.node, seconds) else m')
      else if error == Timeout then Initiate(Cancel(m', s.node), s.node, true, m.origins[i])
      else Cancel(MarkIn(m', s.node, seconds), s.node)
  }

  class NodeMonitor {
    var setupList: map<nat, seq<nat>>
    var ongoingReportables: map<nat, nat>
    var subscriptions: seq<Subscription>
    var places: map<nat, Place>
    var nodes: map<nat, Tracked>
    ghost var origins: seq<nat>
    ghost var errors: seq<(nat, ChipError)>

    ghost function State(): Monitor
      reads this
    {
      Monitor(setupList, ongoingReportables, subscriptions, places, nodes, origins, errors)
    }

    /** Both maps start empty. */
    constructor (places: map<nat, Place>, nodes: map<nat, Tracked>)
      ensures State() == Monitor(map[], map[], [], places, nodes, [], []) && Inv(State())
    {
      setupList, ongoingReportables, subscriptions := map[], map[], [];
      this.places, this.nodes := places, nodes;
      origins, errors := [], [];
    }

    /** A volatile attribute appears in the store, below an endpoint of `node`. */
    method OnVolatileAttributeDiscovery(node: nat, attribute: nat, created: bool)
      modifies this`setupList
      ensures var before := if node in old(setupList) then old(setupList)[node] else [];
        setupList == if created then old(setupList)[node := before + [attribute]] else old(setupList)
    {
      if !created {
        return;
      }
      if node in setupList {
        setupList := setupList[node := setupList[node] + [attribute]];
      } else {
        setupList := setupList[node := [attribute]];
        assert [] + [attribute] == [attribute];
      }
    }

    method InitiateMonitoring(node: nat, reSubscribe: bool, ghost origin: nat) returns (ok: bool)
      modifies this
      ensures ok <==> (node in old(setupList) ==> Subscribable(old(State()), node))
      ensures State() == Initiate(old(State()), node, reSubscribe, origin)
    {
      if node !in setupList {
        return true;
      }
      if node !in nodes || !nodes[node].device.list.Reported? {
        return false;
      }
      var attributes := setupList[node];
      var pathList: seq<Path> := [];
      var i := 0;
      while i < |attributes|
        invariant i <= |attributes|
        invariant forall a :: a in attributes[..i] ==> a in places
        invariant pathList == Paths(places, attributes[..i])
      {
        if attributes[i] !in places {
          return false;
        }
        var place := places[attributes[i]];
        pathList := pathList + [Path(place.endpoint, place.typ / WORD % WORD, place.typ % WORD)];
        assert attributes[..i + 1][..i] == attributes[..i];
        i := i + 1;
      }
      assert attributes[..i] == attributes;
      var destID := NodeIdOf(nodes[node].device.list.text);
      if destID.None? {
        return false;
      }
      if node !in ongoingReportables {
        ongoingReportables := ongoingReportables[node := |subscriptions|];
      }
      subscriptions := subscriptions + [Subscription(node, destID.value, pathList, reSubscribe)];
      origins := origins + [origin];
      return true;
    }

    method CancelMonitoring(node: nat)
      modifies this`ongoingReportables
      ensures State() == Cancel(old(State()), node)
    {
      if node in ongoingReportables {
        ongoingReportables := ongoingReportables - {node};
      }
      assert ongoingReportables == old(ongoingReportables) - {node};
    }

    method MarkDeviceAsFailing(node: nat, seconds: nat)
      modifies this`nodes
      ensures State() == MarkIn(old(State()), node, seconds)
    {
      if node in nodes {
        nodes := nodes[node := Mark(nodes[node], seconds)];
      }
    }

    method OnError(i: nat, aError: ChipError, seconds: nat)
      requires i < |subscriptions| == |origins|
      modifies this
      ensures State() == Fail(old(State()), i, aError, seconds)
    {
      var s := subscriptions[i];
      errors := errors + [(i, aError)];
      if s.resubscribe {
        if IsConnectionError(aError) {
          MarkDeviceAsFailing(s.node, seconds);
        }
        return;
      }
      if aError == Timeout {
        CancelMonitoring(s.node);
        var ok := InitiateMonitoring(s.node, true, origins[i]);
        return;
      }
      MarkDeviceAsFailing(s.node, seconds);
      CancelMonitoring(s.node);
    }

    /** A report or an established subscription shows that the node is reachable. */
    method OnAlive(i: nat)
      requires i < |subscriptions|
      modifies this`nodes
      ensures State() == RecoverIn(old(State()), old(subscriptions)[i].node)
    {
      var node := subscriptions[i].node;
      if node in nodes {
        nodes := nodes[node := Recover(nodes[node])];
      }
    }
  }

  // ---------- every run ----------

  /** The outside calls and callbacks. `StoreChanged` stands for everything else in the controller:
      attributes discovered, devices added, deleted, failing or recovered, lists rewritten. */
  datatype Step =
    | StartCalled(node: nat)
    | ErrorAt(i: nat, error: ChipError, seconds: nat)
    | AliveAt(i: nat)
    | StoreChanged(setup: map<nat, seq<nat>>, places: map<nat, Place>, nodes: map<nat, Tracked>)

  function Next(m: Monitor, step: Step): Monitor {
    match step
    case StartCalled(node) => Start(m, node)
    case ErrorAt(i, error, seconds) => Fail(m, i, error, seconds)
    case AliveAt(i) => if i < |m.subscriptions| then RecoverIn(m, m.subscriptions[i].node) else m
    case StoreChanged(setup, places, nodes) => m.(setup := setup, places := places, nodes := nodes)
  }

  function Exec(m: Monitor, steps: seq<Step>): Monitor {
    if steps == [] then m else Next(Exec(m, steps[..|steps| - 1]), steps[|steps| - 1])
  }

  /** How many subscriptions stem from the outside call that made subscription `o`. */
  function ChainLength(origins: seq<nat>, o: nat): nat {
    if origins == [] then 0
    else ChainLength(origins[..|origins| - 1], o) + if origins[|origins| - 1] == o then 1 else 0
  }

  /** How many timeouts subscription `o` was told of. */
  function Timeouts(errors: seq<(nat, ChipError)>, o: nat): nat {
    if errors == [] then 0
    else Timeouts(errors[..|errors| - 1], o) + if errors[|errors| - 1] == (o, Timeout) then 1 else 0
  }

  predicate IsFirst(m: Monitor, o: nat) {
    o < |m.subscriptions| && !m.subscriptions[o].resubscribe
  }

  /** A first subscription is its own origin and a resubscription has an earlier one; each chain has
      one subscription and at most one more for each timeout its first one was told of. */
  ghost predicate Inv(m: Monitor) {
    && |m.origins| == |m.subscriptions|
    && (forall i :: 0 <= i < |m.origins| ==>
          if m.subscriptions[i].resubscribe then m.origins[i] < i else m.origins[i] == i)
    && (forall o :: ChainOk(m, o))
  }

  ghost predicate ChainOk(m: Monitor, o: nat) {
    if IsFirst(m, o) then 1 <= ChainLength(m.origins, o) <= 1 + Timeouts(m.errors, o)
    else ChainLength(m.origins, o) == 0
  }

  lemma StartKeeps(m: Monitor, node: nat)
    requires Inv(m)
    ensures Inv(Start(m, node))
  {
    var m' := Start(m, node);
    if m' != m {
      assert m'.origins[..|m.origins|] == m.origins;
      forall o
        ensures ChainOk(m', o)
      {
        assert ChainOk(m, o);
      }
    }
  }

  lemma SameSubscriptions(m: Monitor, m': Monitor)
    requires Inv(m)
    requires m'.subscriptions == m.subscriptions && m'.origins == m.origins && m'.errors == m.errors
    ensures Inv(m')
  {
    forall o
      ensures ChainOk(m', o)
    {
      assert ChainOk(m, o);
    }
  }

  /** An error that starts no subscription. */
  lemma ErrorLoggedKeeps(m: Monitor, i: nat, error: ChipError)
    requires Inv(m)
    ensures Inv(m.(errors := m.errors + [(i, error)]))
  {
    var m' := m.(errors := m.errors + [(i, error)]);
    assert m'.errors[..|m.errors|] == m.errors;
    forall o
      ensures ChainOk(m', o)
    {
      assert ChainOk(m, o);
    }
  }

  /** A first timeout makes one more subscription of the same call if the device can still be
      subscribed to, and none otherwise. */
  lemma TimeoutKeeps(m: Monitor, i: nat, seconds: nat)
    requires Inv(m) && IsFirst(m, i)
    ensures var m' := Fail(m, i, Timeout, seconds);
      var more := if Subscribable(m, m.subscriptions[i].node) then 1 else 0;
      && Inv(m') && IsFirst(m', i)
      && |m'.subscriptions| == |m.subscriptions| + more
      && ChainLength(m'.origins, i) == ChainLength(m.origins, i) + more
  {
    var m', n := Fail(m, i, Timeout, seconds), m.subscriptions[i].node;
    var logged := m.(errors := m.errors + [(i, Timeout)]);
    assert Subscribable(Cancel(logged, n), n) <==> Subscribable(m, n);
    assert logged.errors[..|m.errors|] == m.errors;
    if Subscribable(m, n) {
      assert m'.origins[..|m.origins|] == m.origins;
    }
    forall o
      ensures ChainOk(m', o)
    {
      assert ChainOk(m, o);
    }
  }

  lemma StepKeeps(m: Monitor, step: Step)
    requires Inv(m)
    ensures Inv(Next(m, step))
  {
    match step {
      case StartCalled(node) => StartKeeps(m, node);
      case ErrorAt(i, error, seconds) =>
        if i < |m.subscriptions| {
          if error == Timeout && !m.subscriptions[i].resubscribe {
            TimeoutKeeps(m, i, seconds);
          } else {
            ErrorLoggedKeeps(m, i, error);
            SameSubscriptions(m.(errors := m.errors + [(i, error)]), Fail(m, i, error, seconds));
          }
        }
      case _ => SameSubscriptions(m, Next(m, step));
    }
  }

  lemma {:induction false} RunKeeps(m: Monitor, steps: seq<Step>)
    requires Inv(m)
    ensures Inv(Exec(m, steps))
  {
    if steps != [] {
      RunKeeps(m, steps[..|steps| - 1]);
      StepKeeps(Exec(m, steps[..|steps| - 1]), steps[|steps| - 1]);
    }
  }

  /** On every run each outside call leads to one subscription and at most one more for each timeout
      its first subscription is told of, whatever else happens to the device meanwhile. */
  lemma {:induction false} SubscriptionsPerCall(m: Monitor, steps: seq<Step>, o: nat)
    requires Inv(m) && IsFirst(Exec(m, steps), o)
    ensures 1 <= ChainLength(Exec(m, steps).origins, o) <= 1 + Timeouts(Exec(m, steps).errors, o)
  {
    RunKeeps(m, steps);
    assert ChainOk(Exec(m, steps), o);
  }

  /** How many timeouts subscription `o` is told of while its device can still be subscribed to. */
  function Renewals(m: Monitor, steps: seq<Step>, o: nat): nat {
    if steps == [] then 0
    else
      var front, last := steps[..|steps| - 1], steps[|steps| - 1];
      var before := Exec(m, front);
      Renewals(m, front, o) + if last.ErrorAt? && last.i == o && Renewed(before, o, last.error) then 1 else 0
  }

  predicate Renewed(m: Monitor, o: nat, error: ChipError) {
    error == Timeout && IsFirst(m, o) && Subscribable(m, m.subscriptions[o].node)
  }

  lemma StartRenewsNone(m: Monitor, node: nat, o: nat)
    requires Inv(m) && IsFirst(m, o)
    ensures IsFirst(Start(m, node), o) && ChainLength(Start(m, node).origins, o) == ChainLength(m.origins, o)
  {
    var m' := Start(m, node);
    assert m' != m ==> m'.origins[..|m.origins|] == m.origins;
  }

  /** An error adds nothing, or a resubscription of the same chain after a first timeout. */
  lemma ErrorExtends(m: Monitor, i: nat, error: ChipError, seconds: nat)
    requires Inv(m)
    ensures var m' := Fail(m, i, error, seconds);
      || (m'.subscriptions == m.subscriptions && m'.origins == m.origins)
      || (IsFirst(m, i) && error == Timeout && m.subscriptions < m'.subscriptions && m'.origins == m.origins + [i])
  {}

  lemma OtherErrorRenewsNone(m: Monitor, i: nat, error: ChipError, seconds: nat, o: nat)
    requires Inv(m) && IsFirst(m, o) && (i != o || error != Timeout)
    ensures var m' := Fail(m, i, error, seconds);
      IsFirst(m', o) && ChainLength(m'.origins, o) == ChainLength(m.origins, o)
  {
    ErrorExtends(m, i, error, seconds);
    if m.subscriptions != Fail(m, i, error, seconds).subscriptions {
      assert (m.origins + [i])[..|m.origins|] == m.origins;
    }
  }

  lemma StepRenews(m: Monitor, step: Step, o: nat)
    requires Inv(m) && IsFirst(m, o)
    ensures var more := if step.ErrorAt? && step.i == o && Renewed(m, o, step.error) then 1 else 0;
      IsFirst(Next(m, step), o) && ChainLength(Next(m, step).origins, o) == ChainLength(m.origins, o) + more
  {
    match step {
      case StartCalled(node) => StartRenewsNone(m, node, o);
      case ErrorAt(i, error, seconds) =>
        if i == o && error == Timeout {
          TimeoutKeeps(m, i, seconds);
        } else {
          OtherErrorRenewsNone(m, i, error, seconds, o);
        }
      case _ =>
    }
  }

  /** On every run the subscriptions of a call grow by exactly those timeouts, whatever other errors,
      calls and changes of the store happen. */
  lemma {:induction false} RenewedExactly(m: Monitor, steps: seq<Step>, o: nat)
    requires Inv(m) && IsFirst(m, o)
    ensures IsFirst(Exec(m, steps), o)
    ensures ChainLength(Exec(m, steps).origins, o) == ChainLength(m.origins, o) + Renewals(m, steps, o)
  {
    if steps != [] {
      var front := steps[..|steps| - 1];
      RenewedExactly(m, front, o);
      RunKeeps(m, front);
      StepRenews(Exec(m, front), steps[|steps| - 1], o);
    }
  }

  lemma StartBegins(m: Monitor, node: nat)
    requires Inv(m) && Subscribable(m, node)
    ensures var m', o := Start(m, node), |m.subscriptions|;
      Inv(m') && IsFirst(m', o) && ChainLength(m'.origins, o) == 1
  {
    var m', o := Start(m, node), |m.subscriptions|;
    StartKeeps(m, node);
    assert ChainOk(m, o);
    assert m'.origins[..|m.origins|] == m.origins;
  }

  /** An outside call that subscribes leads to at most two subscriptions exactly when its first one is
      told of at most one timeout while the device can still be subscribed to. */
  lemma {:induction false} AtMostTwoSubscriptions(m: Monitor, node: nat, steps: seq<Step>)
    requires Inv(m) && Subscribable(m, node)
    ensures var m', o := Start(m, node), |m.subscriptions|;
      && ChainLength(Exec(m', steps).origins, o) == 1 + Renewals(m', steps, o)
      && (ChainLength(Exec(m', steps).origins, o) <= 2 <==> Renewals(m', steps, o) <= 1)
  {
    StartBegins(m, node);
    RenewedExactly(Start(m, node), steps, |m.subscriptions|);
  }

  /** Subscription `o` is told of no two errors, whatever the others are told of. */
  ghost predicate ToldAtMostOnce(steps: seq<Step>, o: nat) {
    forall i, j :: 0 <= i < j < |steps| && steps[i].ErrorAt? && steps[j].ErrorAt? && steps[i].i == o ==> steps[j].i != o
  }

  lemma {:induction false} ToldOnceRenewsOnce(m: Monitor, steps: seq<Step>, o: nat)
    requires ToldAtMostOnce(steps, o)
    ensures Renewals(m, steps, o) <= 1
    ensures (forall i :: 0 <= i < |steps| && steps[i].ErrorAt? ==> steps[i].i != o) ==> Renewals(m, steps, o) == 0
  {
    if steps != [] {
      var front := steps[..|steps| - 1];
      assert forall i :: 0 <= i < |front| ==> front[i] == steps[i];
      ToldOnceRenewsOnce(m, front, o);
    }
  }

  /** So a call whose first subscription is told of one error at most leads to two at most. */
  lemma {:induction false} ToldOnceIsEnough(m: Monitor, node: nat, steps: seq<Step>)
    requires Inv(m) && Subscribable(m, node) && ToldAtMostOnce(steps, |m.subscriptions|)
    ensures ChainLength(Exec(Start(m, node), steps).origins, |m.subscriptions|) <= 2
  {
    AtMostTwoSubscriptions(m, node, steps);
    ToldOnceRenewsOnce(Start(m, node), steps, |m.subscriptions|);
  }

  // ---------- what a call and a sign of life do ----------

  /** An outside call subscribes exactly when the device has volatile attributes, all still in the store,
      and a list that names it: to its first Matter node id, with a path for each attribute, and it
      leaves a subscription that is tracked already in place. */
  lemma StartSubscribesIff(m: Monitor, node: nat, ids: seq<Id>)
    requires node in m.nodes && ids != [] && m.nodes[node].device.list == Reported(ListText(ids))
    ensures var subscribes := node in m.setup && forall a :: a in m.setup[node] ==> a in m.places;
      var r, index := Start(m, node), |m.subscriptions|;
      if !subscribes then r == m
      else
        && |r.subscriptions| == index + 1 && r.subscriptions[..index] == m.subscriptions
        && r.subscriptions[index].node == node && r.subscriptions[index].destination == ids[0].node
        && !r.subscriptions[index].resubscribe && |r.subscriptions[index].paths| == |m.setup[node]|
        && r.ongoing == (if node in m.ongoing then m.ongoing else m.ongoing[node := index])
        && r.nodes == m.nodes && r.setup == m.setup
  {
    ListTextHolds(ids, ids[0]);
    if node in m.setup && forall a :: a in m.setup[node] ==> a in m.places {
      PathCount(m.places, m.setup[node]);
    }
  }

  /** Without a list that names the device nothing is subscribed to. */
  lemma UnnamedIsNotSubscribed(m: Monitor, node: nat)
    requires node in m.nodes ==> !m.nodes[node].device.list.Reported?
    ensures Start(m, node) == m
  {}

  /** A sign of life after one failure brings the device back as it was. */
  lemma AliveRecovers(m: Monitor, i: nat, seconds: nat)
    requires i < |m.subscriptions| && m.subscriptions[i].node in m.nodes
    requires Online(m.nodes[m.subscriptions[i].node])
    ensures Next(MarkIn(m, m.subscriptions[i].node, seconds), AliveAt(i)) == m
  {
    var node := m.subscriptions[i].node;
    var failed := MarkIn(m, node, seconds);
    assert failed.nodes[node] == Mark(m.nodes[node], seconds);
    assert Recover(failed.nodes[node]) == m.nodes[node];
    assert m.nodes[node := m.nodes[node]] == m.nodes;
  }

  // ---------- what one error does to the device ----------

  /** The second subscription, to wherever the device's list now says. */
  function Resubscription(m: Monitor, node: nat): Subscription
    requires Subscribable(m, node)
  {
    Subscription(node, NodeIdOf(m.nodes[node].device.list.text).value, Paths(m.places, m.setup[node]), true)
  }

  /** A first error that is not a timeout leaves the device OFFLINE and untracked; a timeout replaces
      the subscription, if the device can still be subscribed to, and leaves its status alone; an
      error on a resubscription starts no other, and leaves the device OFFLINE exactly if it is a
      connection error or the device was OFFLINE. */
  lemma ErrorOutcome(m: Monitor, i: nat, error: ChipError, seconds: nat)
    requires Inv(m) && i < |m.subscriptions| && m.subscriptions[i].node in m.nodes
    requires m.nodes[m.subscriptions[i].node].device.status.Some?
    ensures var s := m.subscriptions[i]; var m' := Fail(m, i, error, seconds);
      && (!s.resubscribe && error != Timeout ==>
            m'.nodes[s.node].device.status == Some(Offline) && m'.ongoing == m.ongoing - {s.node}
            && m'.subscriptions == m.subscriptions)
      && (!s.resubscribe && error == Timeout ==>
            m'.nodes == m.nodes
            && if Subscribable(m, s.node) then
                 m'.subscriptions == m.subscriptions + [Resubscription(m, s.node)]
                 && m'.ongoing == m.ongoing[s.node := |m.subscriptions|]
               else m'.subscriptions == m.subscriptions && m'.ongoing == m.ongoing - {s.node})
      && (s.resubscribe ==> m'.subscriptions == m.subscriptions && m'.ongoing == m.ongoing)
      && (s.resubscribe ==> (m'.nodes[s.node].device.status == Some(Offline)
                             <==> IsConnectionError(error) || m.nodes[s.node].device.status == Some(Offline)))
  {
    var s := m.subscriptions[i];
    var cancelled := Cancel(m.(errors := m.errors + [(i, error)]), s.node);
    assert Subscribable(cancelled, s.node) <==> Subscribable(m, s.node);
    assert (m.ongoing - {s.node})[s.node := |m.subscriptions|] == m.ongoing[s.node := |m.subscriptions|];
  }

  /** A subscribe request whose synchronous send fails reports the same error twice, from
      `SubscribeRequest::Send` and from its caller. */
  function SendFails(m: Monitor, i: nat, error: ChipError, seconds: nat): Monitor {
    Fail(Fail(m, i, error, seconds), i, error, seconds)
  }

  /** That breaks both bounds. For a first subscription a timeout makes two more subscriptions of its
      call if any, and any other error marks the device twice. For a resubscription the device is
      marked twice exactly on a connection error. A device marked twice is not brought back by any
      failures and recoveries, where one mark would have been undone by one recovery. */
  lemma {:induction false} SendFailureStrands(m: Monitor, i: nat, error: ChipError, seconds: nat, ops: seq<Op>)
    requires Inv(m) && i < |m.subscriptions|
    requires m.subscriptions[i].node in m.nodes && Online(m.nodes[m.subscriptions[i].node])
    ensures var s := m.subscriptions[i]; var m1, m2 := Fail(m, i, error, seconds), SendFails(m, i, error, seconds);
      var twice := if s.resubscribe then IsConnectionError(error) else error != Timeout;
      var more := if Subscribable(m, s.node) then 2 else 0;
      && (!s.resubscribe && error == Timeout ==> ChainLength(m2.origins, i) == ChainLength(m.origins, i) + more)
      && (Stranded(m2.nodes[s.node].device) <==> twice)
      && (twice ==> Stranded(Run(m2.nodes[s.node], ops).device) && Recover(m1.nodes[s.node]) == m.nodes[s.node])
  {
    var node := m.subscriptions[i].node;
    var m1, m2 := Fail(m, i, error, seconds), SendFails(m, i, error, seconds);
    if IsFirst(m, i) && error == Timeout {
      TimeoutKeeps(m, i, seconds);
      assert Subscribable(m1, node) <==> Subscribable(m, node);
      TimeoutKeeps(m1, i, seconds);
    }
    if Stranded(m2.nodes[node].device) {
      StrandedForever(m2.nodes[node], ops);
    }
  }
}
