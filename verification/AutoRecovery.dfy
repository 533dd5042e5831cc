/** Recovery at boot: the rows of the failing-node table are drained two at a time, each tick of a
    throttling timer, and each device is subscribed to again or given up. */
module AutoRecovery {
  import opened FailingNodeDatastore

  const MAX_NODES_RECOVERABLE_WITHOUT_DELAY := 2

  /** `left` is still to be handled, `monitored` are the nodes passed to monitoring, `armed` the
      throttling timer and `exits` the number of exit events posted to the recovery process. */
  datatype Recovery = Recovery(left: seq<Row>, rows: map<nat, nat>, monitored: seq<nat>, armed: bool, exits: nat)

  predicate InWindow(row: Row, seconds: nat, window: nat) {
    seconds < row.failed + window
  }

  function Handle(r: Recovery, seconds: nat, window: nat): Recovery
    requires r.left != []
  {
    var row, rest := r.left[0], r.left[1..];
    if InWindow(row, seconds, window) then r.(left := rest, monitored := r.monitored + [row.node])
    else r.(left := rest, rows := r.rows - {row.node})
  }

  /** `recover_next_failing_node` when the throttling timer has fired. */
  function Tick(r: Recovery, seconds: nat, window: nat): Recovery {
    var r0 := r.(armed := false);
    if |r.left| == 0 then r0.(exits := r.exits + 1)
    else
      var r1 := Handle(r0, seconds, window);
      if |r.left| == 1 then r1.(exits := r.exits + 1)
      else
        var r2 := Handle(r1, seconds, window);
        r2.(armed := r2.left != [])
  }

  class RecoveryProcess {
    const store: Datastore
    var allFailingNodes: seq<Row>
    var armed: bool
    var exits: nat
    var monitored: seq<nat>

    ghost function State(): Recovery
      reads this, store
    {
      Recovery(allFailingNodes, store.rows, monitored, armed, exits)
    }

    constructor (store: Datastore)
      ensures this.store == store && State() == Recovery([], store.rows, [], false, 0)
    {
      this.store := store;
      allFailingNodes, armed, exits, monitored := [], false, 0, [];
    }

    /** `mpc_failing_node_auto_recovery` at boot: the list enumerates the table and the process's
        first event arms the timer. */
    method Start()
      requires allFailingNodes == [] && !armed
      modifies this
      ensures Enumerates(allFailingNodes, store.rows)
      ensures State() == Recovery(allFailingNodes, store.rows, old(monitored), true, old(exits))
    {
      allFailingNodes := store.ReadFailingNodes(allFailingNodes);
      armed := true;
    }

    method RecoverNextFailingNode(seconds: nat, autoRecoveryTime: nat)
      requires armed
      modifies this, store
      ensures State() == Tick(old(State()), seconds, autoRecoveryTime)
    {
      armed := false;
      var recoveredNodeCount := 0;
      ghost var r := State();
      while recoveredNodeCount < MAX_NODES_RECOVERABLE_WITHOUT_DELAY
        invariant recoveredNodeCount <= 2
        invariant recoveredNodeCount <= |r.left|
        invariant State() ==
          if recoveredNodeCount == 0 then r
          else if recoveredNodeCount == 1 then Handle(r, seconds, autoRecoveryTime)
          else Handle(Handle(r, seconds, autoRecoveryTime), seconds, autoRecoveryTime)
      {
        if allFailingNodes == [] {
          exits := exits + 1;
          return;
        }
        var node := allFailingNodes[0];
        if seconds < node.failed + autoRecoveryTime {
          monitored := monitored + [node.node];
        } else {
          store.DeleteData(node.node);
        }
        allFailingNodes := allFailingNodes[1..];
        recoveredNodeCount := recoveredNodeCount + 1;
      }
      if allFailingNodes != [] {
        armed := true;
      }
    }
  }

  // ---------- draining a whole list ----------

  /** The state after `ticks` timer events, the one numbered `k` at time `clock(k)`. */
  function Drain(r: Recovery, ticks: nat, clock: nat -> nat, window: nat): Recovery {
    if ticks == 0 then r
    else
      var r' := Drain(r, ticks - 1, clock, window);
      if r'.armed then Tick(r', clock(ticks - 1), window) else r'
  }

  /** The nodes of the first `m` rows that are in their window when their tick comes, in order. */
  function StillInWindow(rows: seq<Row>, m: nat, clock: nat -> nat, window: nat): seq<nat>
    requires m <= |rows|
  {
    if m == 0 then []
    else
      var row := rows[m - 1];
      StillInWindow(rows, m - 1, clock, window) + if InWindow(row, clock((m - 1) / 2), window) then [row.node] else []
  }

  /** The nodes of the first `m` rows whose window is over by then. */
  function Expired(rows: seq<Row>, m: nat, clock: nat -> nat, window: nat): set<nat>
    requires m <= |rows|
  {
    if m == 0 then {}
    else
      var row := rows[m - 1];
      Expired(rows, m - 1, clock, window) + if InWindow(row, clock((m - 1) / 2), window) then {} else {row.node}
  }

  /** `d` is `r` with its first `m` entries handled, entry `i` at tick `i / 2`. */
  ghost predicate Progress(r: Recovery, d: Recovery, m: nat, clock: nat -> nat, window: nat)
    requires m <= |r.left|
  {
    && d.left == r.left[m..]
    && d.monitored == r.monitored + StillInWindow(r.left, m, clock, window)
    && d.rows == r.rows - Expired(r.left, m, clock, window)
  }

  lemma {:induction false} HandleProgress(r: Recovery, d: Recovery, m: nat, clock: nat -> nat, window: nat)
    requires m < |r.left| && Progress(r, d, m, clock, window)
    ensures Progress(r, Handle(d, clock(m / 2), window), m + 1, clock, window)
  {}

  /** How many entries `ticks` ticks handle. */
  function Handled(n: nat, ticks: nat): nat {
    if 2 * ticks <= n then 2 * ticks else n
  }

  lemma {:induction false} Halves(k: nat)
    ensures 2 * k / 2 == k && (2 * k + 1) / 2 == k
  {}

  lemma {:induction false} TickProgress(r: Recovery, d: Recovery, k: nat, clock: nat -> nat, window: nat)
    requires 2 * k <= |r.left| && Progress(r, d, 2 * k, clock, window)
    ensures Progress(r, Tick(d, clock(k), window), Handled(|r.left|, k + 1), clock, window)
  {
    var d0 := d.(armed := false);
    Halves(k);
    if 2 * k < |r.left| {
      HandleProgress(r, d0, 2 * k, clock, window);
      if 2 * k + 1 < |r.left| {
        HandleProgress(r, Handle(d0, clock(k), window), 2 * k + 1, clock, window);
      }
    }
  }

  lemma {:induction false} TickCounts(d: Recovery, seconds: nat, window: nat)
    ensures Tick(d, seconds, window).armed <==> |d.left| > 2
    ensures Tick(d, seconds, window).exits == d.exits + if |d.left| < 2 then 1 else 0
  {}

  /** As long as entries remain, every tick has handled the next two, each once and in list order. */
  ghost predicate Drained(r: Recovery, d: Recovery, ticks: nat, clock: nat -> nat, window: nat) {
    && Progress(r, d, Handled(|r.left|, ticks), clock, window)
    && (d.armed <==> ticks == 0 || 2 * ticks < |r.left|)
    && d.exits == r.exits + if 2 * ticks <= |r.left| then 0 else 1
  }

  lemma {:induction false} NothingHandled(r: Recovery, clock: nat -> nat, window: nat)
    ensures Progress(r, r, 0, clock, window)
  {
    assert r.rows - {} == r.rows;
  }

  lemma {:induction false} NotStarted(r: Recovery, clock: nat -> nat, window: nat)
    requires r.armed
    ensures Drained(r, r, 0, clock, window)
  {
    NothingHandled(r, clock, window);
    assert Handled(|r.left|, 0) == 0;
  }

  lemma {:induction false} TickPrefix(r: Recovery, d: Recovery, k: nat, clock: nat -> nat, window: nat)
    requires 2 * k < |r.left| || k == 0
    requires Drained(r, d, k, clock, window)
    ensures Drained(r, Tick(d, clock(k), window), k + 1, clock, window)
  {
    assert Handled(|r.left|, k) == 2 * k;
    TickProgress(r, d, k, clock, window);
    TickCounts(d, clock(k), window);
    assert |d.left| == |r.left| - 2 * k;
  }

  lemma {:induction false} DrainStep(r: Recovery, d: Recovery, k: nat, clock: nat -> nat, window: nat)
    requires 2 * k < |r.left| || k == 0
    requires d == Drain(r, k, clock, window) && Drained(r, d, k, clock, window)
    ensures Drained(r, Drain(r, k + 1, clock, window), k + 1, clock, window)
  {
    TickPrefix(r, d, k, clock, window);
    assert d.armed;
    assert Drain(r, k + 1, clock, window) == Tick(d, clock(k), window);
  }

  lemma {:induction false} DrainPrefix(r: Recovery, ticks: nat, clock: nat -> nat, window: nat)
    requires r.armed && (ticks <= 1 || 2 * (ticks - 1) < |r.left|)
    ensures Drained(r, Drain(r, ticks, clock, window), ticks, clock, window)
  {
    if ticks == 0 {
      NotStarted(r, clock, window);
    } else {
      var k := ticks - 1;
      var d := Drain(r, k, clock, window);
      DrainPrefix(r, k, clock, window);
      DrainStep(r, d, k, clock, window);
      assert k + 1 == ticks;
    }
  }

  /** Half as many ticks as entries, rounded up; the empty list takes one. */
  function Ticks(n: nat): (k: nat)
    ensures k > 0 && n <= 2 * k && (n > 0 ==> 2 * k <= n + 1)
  {
    if n == 0 then 1 else (n + 1) / 2
  }

  /** The whole list is drained in that many ticks: each device is handled once, in order, at its
      own tick; those in their window are monitored and the others lose their row. The timer rests
      then, and the exit event is posted exactly when the list is empty or of odd length: after an
      even list the process is never told to end. */
  lemma {:induction false} DrainsExactly(r: Recovery, clock: nat -> nat, window: nat)
    requires r.armed
    ensures var d := Drain(r, Ticks(|r.left|), clock, window);
      && d.left == [] && !d.armed
      && d.monitored == r.monitored + StillInWindow(r.left, |r.left|, clock, window)
      && d.rows == r.rows - Expired(r.left, |r.left|, clock, window)
      && d.exits == r.exits + if |r.left| == 0 || |r.left| % 2 == 1 then 1 else 0
  {
    DrainPrefix(r, Ticks(|r.left|), clock, window);
  }

  /** And in no fewer: before the last tick the timer is armed again. */
  lemma {:induction false} ArmedUntilDrained(r: Recovery, clock: nat -> nat, window: nat, k: nat)
    requires r.armed && k < Ticks(|r.left|)
    ensures Drain(r, k, clock, window).armed
  {
    DrainPrefix(r, k, clock, window);
  }

  lemma {:induction false} Partition(rows: seq<Row>, m: nat, clock: nat -> nat, window: nat, n: nat)
    requires m <= |rows|
    requires forall i, j :: 0 <= i < j < |rows| ==> rows[i].node != rows[j].node
    ensures n in StillInWindow(rows, m, clock, window) || n in Expired(rows, m, clock, window)
      <==> exists i :: 0 <= i < m && rows[i].node == n
    ensures !(n in StillInWindow(rows, m, clock, window) && n in Expired(rows, m, clock, window))
  {
    if m > 0 {
      Partition(rows, m - 1, clock, window, n);
    }
  }

  /** Started from the table at boot, recovery leaves a row exactly to the devices it subscribed to. */
  lemma {:induction false} RowsLeftAreMonitored(r: Recovery, clock: nat -> nat, window: nat, n: nat)
    requires r.armed && r.monitored == [] && Enumerates(r.left, r.rows)
    ensures var d := Drain(r, Ticks(|r.left|), clock, window);
      n in d.rows <==> n in d.monitored
  {
    DrainsExactly(r, clock, window);
    Partition(r.left, |r.left|, clock, window, n);
  }

  // ---------- the order of recovery ----------

  predicate Watched(rows: seq<Row>, i: nat, clock: nat -> nat, window: nat)
    requires i < |rows|
  {
    InWindow(rows[i], clock(i / 2), window)
  }

  /** First fail, first recover. */
  ghost predicate InOrder(nodes: seq<nat>, times: map<nat, nat>) {
    && (forall n :: n in nodes ==> n in times)
    && (forall i, j :: 0 <= i < j < |nodes| ==> times[nodes[i]] <= times[nodes[j]])
  }

  /** The first `m` rows of the list that are still in their window come in order of failure. */
  ghost predicate ReadInOrder(rows: seq<Row>, m: nat, clock: nat -> nat, window: nat)
    requires m <= |rows|
  {
    forall i, j :: 0 <= i < j < m && Watched(rows, i, clock, window) && Watched(rows, j, clock, window)
      ==> rows[i].failed <= rows[j].failed
  }

  lemma {:induction false} StillWatched(rows: seq<Row>, m: nat, clock: nat -> nat, window: nat, n: nat)
    requires m <= |rows|
    ensures n in StillInWindow(rows, m, clock, window)
      <==> exists i :: 0 <= i < m && Watched(rows, i, clock, window) && rows[i].node == n
  {
    if m > 0 {
      StillWatched(rows, m - 1, clock, window, n);
      assert Watched(rows, m - 1, clock, window) <==> InWindow(rows[m - 1], clock((m - 1) / 2), window);
    }
  }

  lemma OneMoreInOrder(nodes: seq<nat>, n: nat, times: map<nat, nat>)
    requires n in times
    ensures InOrder(nodes + [n], times)
      <==> InOrder(nodes, times) && forall y :: y in nodes ==> y in times && times[y] <= times[n]
  {
    var more := nodes + [n];
    assert forall i :: 0 <= i < |nodes| ==> more[i] == nodes[i];
    assert more[|nodes|] == n;
    if InOrder(more, times) {
      assert forall y :: y in nodes ==> y in more;
    }
  }

  /** No watched row before row `k` failed later than it. */
  ghost predicate LatestOf(rows: seq<Row>, k: nat, clock: nat -> nat, window: nat)
    requires k < |rows|
  {
    forall i :: 0 <= i < k && Watched(rows, i, clock, window) ==> rows[i].failed <= rows[k].failed
  }

  lemma OneMoreRead(rows: seq<Row>, k: nat, clock: nat -> nat, window: nat)
    requires k < |rows|
    ensures ReadInOrder(rows, k + 1, clock, window)
      <==> ReadInOrder(rows, k, clock, window) && (Watched(rows, k, clock, window) ==> LatestOf(rows, k, clock, window))
  {}

  ghost predicate Timed(rows: seq<Row>, times: map<nat, nat>) {
    forall i :: 0 <= i < |rows| ==> rows[i].node in times && times[rows[i].node] == rows[i].failed
  }

  lemma {:induction false} LatestOfNodes(rows: seq<Row>, k: nat, clock: nat -> nat, window: nat, times: map<nat, nat>)
    requires k < |rows| && Timed(rows, times)
    ensures LatestOf(rows, k, clock, window) <==>
      forall n :: n in StillInWindow(rows, k, clock, window) ==> n in times && times[n] <= rows[k].failed
  {
    var nodes := StillInWindow(rows, k, clock, window);
    forall n
      ensures n in nodes <==> exists i :: 0 <= i < k && Watched(rows, i, clock, window) && rows[i].node == n
    {
      StillWatched(rows, k, clock, window, n);
    }
    assert forall i :: 0 <= i < k && Watched(rows, i, clock, window) ==> rows[i].node in nodes;
  }

  lemma {:induction false} OrderAsRead(rows: seq<Row>, m: nat, clock: nat -> nat, window: nat, times: map<nat, nat>)
    requires m <= |rows| && Timed(rows, times)
    ensures InOrder(StillInWindow(rows, m, clock, window), times) <==> ReadInOrder(rows, m, clock, window)
  {
    if m > 0 {
      var k := m - 1;
      var front := StillInWindow(rows, k, clock, window);
      OrderAsRead(rows, k, clock, window, times);
      OneMoreRead(rows, k, clock, window);
      if Watched(rows, k, clock, window) {
        OneMoreInOrder(front, rows[k].node, times);
        LatestOfNodes(rows, k, clock, window, times);
        assert StillInWindow(rows, m, clock, window) == front + [rows[k].node];
      } else {
        assert StillInWindow(rows, m, clock, window) == front;
      }
    }
  }

  /** Devices are recovered in order of their failure exactly when the rows in their window were read
      from the table in that order, which nothing asks of the database. */
  lemma {:induction false} RecoveredInOrderIff(r: Recovery, clock: nat -> nat, window: nat)
    requires r.armed && r.monitored == [] && Enumerates(r.left, r.rows)
    ensures InOrder(Drain(r, Ticks(|r.left|), clock, window).monitored, r.rows)
      <==> ReadInOrder(r.left, |r.left|, clock, window)
  {
    DrainsExactly(r, clock, window);
    OrderAsRead(r.left, |r.left|, clock, window, r.rows);
    var nodes := StillInWindow(r.left, |r.left|, clock, window);
    assert [] + nodes == nodes;
  }

  /** A table that may be read either way; in one of them the later failure is recovered first. */
  lemma {:induction false} LaterFailureFirst(first: Row, second: Row, rows: map<nat, nat>)
    requires first == Row(1, 10) && second == Row(2, 5) && rows == map[1 := 10, 2 := 5]
    ensures Enumerates([first, second], rows) && Enumerates([second, first], rows)
    ensures !InOrder(Drain(Recovery([first, second], rows, [], true, 0), 1, _ => 0, 100).monitored, rows)
  {
    var list := [first, second];
    assert list[0] == Row(1, rows[1]) && list[1] == Row(2, rows[2]);
    assert [second, first][0] == Row(2, rows[2]) && [second, first][1] == Row(1, rows[1]);
    var clock := _ => 0;
    assert Watched(list, 0, clock, 100) && Watched(list, 1, clock, 100);
    RecoveredInOrderIff(Recovery(list, rows, [], true, 0), clock, 100);
  }

  // ---------- amid other changes of the table ----------

  /** The drain when the rest of the controller changes the table before each tick, as `others` says. */
  function DrainAmid(r: Recovery, ticks: nat, clock: nat -> nat, window: nat,
                     others: (nat, map<nat, nat>) -> map<nat, nat>): Recovery
  {
    if ticks == 0 then r
    else
      var d := DrainAmid(r, ticks - 1, clock, window, others);
      var found := d.(rows := others(ticks - 1, d.rows));
      if d.armed then Tick(found, clock(ticks - 1), window) else found
  }

  /** The nodes among the two of tick `k` whose window is over. */
  function ExpiredAt(rows: seq<Row>, k: nat, clock: nat -> nat, window: nat): set<nat> {
    set i | 2 * k <= i < 2 * k + 2 && i < |rows| && !InWindow(rows[i], clock(k), window) :: rows[i].node
  }

  /** Alike but for the table. */
  predicate AlikeButRows(d: Recovery, d': Recovery) {
    d'.left == d.left && d'.monitored == d.monitored && d'.armed == d.armed && d'.exits == d.exits
  }

  lemma HandleIgnoresRows(d: Recovery, d': Recovery, seconds: nat, window: nat)
    requires AlikeButRows(d, d') && d.left != []
    ensures AlikeButRows(Handle(d, seconds, window), Handle(d', seconds, window))
  {}

  lemma TickIgnoresRows(d: Recovery, rows: map<nat, nat>, seconds: nat, window: nat)
    ensures AlikeButRows(Tick(d, seconds, window), Tick(d.(rows := rows), seconds, window))
  {
    var r, r' := d.(armed := false), d.(armed := false, rows := rows);
    if d.left != [] {
      HandleIgnoresRows(r, r', seconds, window);
      if |d.left| > 1 {
        HandleIgnoresRows(Handle(r, seconds, window), Handle(r', seconds, window), seconds, window);
      }
    }
  }

  /** Whatever else happens to the table, the list is drained in the same way. */
  lemma {:induction false} DrainedAmidChanges(r: Recovery, ticks: nat, clock: nat -> nat, window: nat,
                                              others: (nat, map<nat, nat>) -> map<nat, nat>)
    ensures var d := DrainAmid(r, ticks, clock, window, others);
      d == Drain(r, ticks, clock, window).(rows := d.rows)
  {
    if ticks > 0 {
      DrainedAmidChanges(r, ticks - 1, clock, window, others);
      var d := DrainAmid(r, ticks - 1, clock, window, others);
      TickIgnoresRows(Drain(r, ticks - 1, clock, window), others(ticks - 1, d.rows), clock(ticks - 1), window);
    }
  }

  lemma TickDeletes(d: Recovery, rows: seq<Row>, k: nat, clock: nat -> nat, window: nat)
    requires 2 * k <= |rows| && d.left == rows[2 * k..]
    ensures Tick(d, clock(k), window).rows == d.rows - ExpiredAt(rows, k, clock, window)
  {
    var expired := ExpiredAt(rows, k, clock, window);
    if 2 * k < |rows| {
      assert d.left[0] == rows[2 * k];
      assert rows[2 * k].node in expired <== !InWindow(rows[2 * k], clock(k), window);
    }
    if 2 * k + 1 < |rows| {
      assert d.left[1] == rows[2 * k + 1] == d.left[1..][0];
      assert rows[2 * k + 1].node in expired <== !InWindow(rows[2 * k + 1], clock(k), window);
    }
  }

  /** And each tick deletes exactly the rows of those of its two devices whose window is over. */
  lemma {:induction false} TickDeletesExpired(r: Recovery, k: nat, clock: nat -> nat, window: nat,
                                              others: (nat, map<nat, nat>) -> map<nat, nat>)
    requires r.armed && k < Ticks(|r.left|)
    ensures DrainAmid(r, k + 1, clock, window, others).rows
      == others(k, DrainAmid(r, k, clock, window, others).rows) - ExpiredAt(r.left, k, clock, window)
  {
    var d := DrainAmid(r, k, clock, window, others);
    DrainedAmidChanges(r, k, clock, window, others);
    DrainPrefix(r, k, clock, window);
    TickDeletes(d.(rows := others(k, d.rows)), r.left, k, clock, window);
  }

  lemma {:induction false} AtOwnTick(i: nat)
    ensures 2 * (i / 2) <= i < 2 * (i / 2) + 2
  {}

  /** So at a device's own tick its row, if it is still there, stays exactly if the device is monitored. */
  lemma {:induction false} KeptIffMonitored(r: Recovery, i: nat, k: nat, clock: nat -> nat, window: nat,
                                            others: (nat, map<nat, nat>) -> map<nat, nat>)
    requires r.armed && r.monitored == [] && NodesDistinct(r.left) && i < |r.left| && k == i / 2
    ensures var d, n := DrainAmid(r, k + 1, clock, window, others), r.left[i].node;
      n in d.rows <==> n in others(k, DrainAmid(r, k, clock, window, others).rows) && n in d.monitored
  {
    AtOwnTick(i);
    var found := others(k, DrainAmid(r, k, clock, window, others).rows);
    var after := DrainAmid(r, k + 1, clock, window, others);
    assert after.rows == found - ExpiredAt(r.left, k, clock, window) by {
      TickDeletesExpired(r, k, clock, window, others);
    }
    assert after.monitored == StillInWindow(r.left, Handled(|r.left|, k + 1), clock, window) by {
      MonitoredAmid(r, k + 1, clock, window, others);
    }
    KeptAtOwnTick(r.left, i, clock, window, found, after.rows, after.monitored);
  }

  lemma {:induction false} KeptAtOwnTick(rows: seq<Row>, i: nat, clock: nat -> nat, window: nat,
                                         found: map<nat, nat>, after: map<nat, nat>, monitored: seq<nat>)
    requires NodesDistinct(rows) && i < |rows|
    requires after == found - ExpiredAt(rows, i / 2, clock, window)
    requires monitored == StillInWindow(rows, Handled(|rows|, i / 2 + 1), clock, window)
    ensures rows[i].node in after <==> rows[i].node in found && rows[i].node in monitored
  {
    AtOwnTick(i);
    MonitoredIff(rows, i, Handled(|rows|, i / 2 + 1), clock, window);
    OwnRowOnly(rows, i, clock, window);
  }

  lemma {:induction false} MonitoredAmid(r: Recovery, ticks: nat, clock: nat -> nat, window: nat,
                                         others: (nat, map<nat, nat>) -> map<nat, nat>)
    requires r.armed && r.monitored == [] && (ticks <= 1 || 2 * (ticks - 1) < |r.left|)
    ensures DrainAmid(r, ticks, clock, window, others).monitored
      == StillInWindow(r.left, Handled(|r.left|, ticks), clock, window)
  {
    DrainedAmidChanges(r, ticks, clock, window, others);
    DrainPrefix(r, ticks, clock, window);
    var still := StillInWindow(r.left, Handled(|r.left|, ticks), clock, window);
    assert [] + still == still;
  }

  ghost predicate NodesDistinct(rows: seq<Row>) {
    forall i, j :: 0 <= i < j < |rows| ==> rows[i].node != rows[j].node
  }

  lemma {:induction false} MonitoredIff(rows: seq<Row>, i: nat, m: nat, clock: nat -> nat, window: nat)
    requires NodesDistinct(rows) && i < m <= |rows|
    ensures rows[i].node in StillInWindow(rows, m, clock, window) <==> InWindow(rows[i], clock(i / 2), window)
  {
    StillWatched(rows, m, clock, window, rows[i].node);
    assert Watched(rows, i, clock, window) <==> InWindow(rows[i], clock(i / 2), window);
  }

  lemma OwnRowOnly(rows: seq<Row>, i: nat, clock: nat -> nat, window: nat)
    requires i < |rows| && NodesDistinct(rows)
    ensures rows[i].node in ExpiredAt(rows, i / 2, clock, window) <==> !InWindow(rows[i], clock(i / 2), window)
  {
    AtOwnTick(i);
  }

  // ---------- which devices are recovered ----------

  /** Of the failing devices exactly those are subscribed to again whose time of failure lies less than
      the window before their own tick, the `i / 2`-th for the `i`-th row. */
  lemma {:induction false} RecoveredIff(r: Recovery, i: nat, clock: nat -> nat, window: nat)
    requires r.armed && r.monitored == [] && NodesDistinct(r.left) && i < |r.left|
    ensures r.left[i].node in Drain(r, Ticks(|r.left|), clock, window).monitored
      <==> clock(i / 2) < r.left[i].failed + window
  {
    var still := StillInWindow(r.left, |r.left|, clock, window);
    DrainsExactly(r, clock, window);
    assert [] + still == still;
    MonitoredIff(r.left, i, |r.left|, clock, window);
  }

  /** And exactly the others lose their row; rows that are not on the list stay. */
  lemma {:induction false} RowDeletedIff(r: Recovery, clock: nat -> nat, window: nat, n: nat)
    requires r.armed && NodesDistinct(r.left) && n in r.rows
    ensures n !in Drain(r, Ticks(|r.left|), clock, window).rows
      <==> exists i :: 0 <= i < |r.left| && r.left[i].node == n && r.left[i].failed + window <= clock(i / 2)
  {
    DrainsExactly(r, clock, window);
    ExpiredMeans(r.left, |r.left|, clock, window, n);
  }

  lemma {:induction false} ExpiredMeans(rows: seq<Row>, m: nat, clock: nat -> nat, window: nat, n: nat)
    requires m <= |rows|
    ensures n in Expired(rows, m, clock, window)
      <==> exists i :: 0 <= i < m && rows[i].node == n && rows[i].failed + window <= clock(i / 2)
  {
    if m > 0 {
      ExpiredMeans(rows, m - 1, clock, window, n);
    }
  }
}
