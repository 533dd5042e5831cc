/** The controller's own network list, built from its fabric table, and what removing a fabric does
    to the registry. */
module FabricList {
  import opened Wrappers
  import opened Text
  import opened Identity
  import opened FailingNode
  import opened InterviewQueue
  import opened Lifecycle

  datatype Fabric = Fabric(index: nat, id: Id)

  // ---------- building the list ----------

  /** The entries appended for a fabric table: all but those of the removed fabric and those that
      would not fit the attribute storage, whose size is `limit`. */
  function Kept(table: seq<Fabric>, removed: nat, limit: nat): seq<Id> {
    if table == [] then [] else Keep(Kept(table[..|table| - 1], removed, limit), table[|table| - 1], removed, limit)
  }

  function Keep(kept: seq<Id>, fabric: Fabric, removed: nat, limit: nat): seq<Id> {
    if fabric.index != removed && Size(kept) + |Entry(fabric.id)| + 1 < limit then kept + [fabric.id] else kept
  }

  /** The size of the text while it is built, every entry ended by a comma. */
  function Size(ids: seq<Id>): nat {
    |Terminated(Entries(ids))|
  }

  function Others(table: seq<Fabric>, removed: nat): seq<Id> {
    if table == [] then []
    else
      var others, fabric := Others(table[..|table| - 1], removed), table[|table| - 1];
      if fabric.index != removed then others + [fabric.id] else others
  }

  lemma TerminatedOneMore(ids: seq<Id>, id: Id)
    ensures Terminated(Entries(ids + [id])) == Terminated(Entries(ids)) + Entry(id) + [',']
    ensures Size(ids + [id]) == Size(ids) + |Entry(id)| + 1
  {
    assert (ids + [id])[..|ids|] == ids;
    assert Entries(ids + [id]) == Entries(ids) + [Entry(id)];
    assert (Entries(ids) + [Entry(id)])[..|ids|] == Entries(ids);
  }

  /** One turn of the building loop. */
  function AppendedText(text: string, fabric: Fabric, removed: nat, limit: nat): string {
    if fabric.index != removed && |text| + |Entry(fabric.id)| + 1 < limit then text + Entry(fabric.id) + [','] else text
  }

  /** The text after a whole table. */
  function BuiltText(table: seq<Fabric>, removed: nat, limit: nat): string {
    if table == [] then []
    else AppendedText(BuiltText(table[..|table| - 1], removed, limit), table[|table| - 1], removed, limit)
  }

  lemma {:induction false} KeepText(kept: seq<Id>, fabric: Fabric, removed: nat, limit: nat)
    ensures Terminated(Entries(Keep(kept, fabric, removed, limit)))
      == AppendedText(Terminated(Entries(kept)), fabric, removed, limit)
  {
    TerminatedOneMore(kept, fabric.id);
  }

  lemma {:induction false} BuiltTextIs(table: seq<Fabric>, removed: nat, limit: nat)
    ensures BuiltText(table, removed, limit) == Terminated(Entries(Kept(table, removed, limit)))
  {
    if table != [] {
      var front, fabric := table[..|table| - 1], table[|table| - 1];
      BuiltTextIs(front, removed, limit);
      KeepText(Kept(front, removed, limit), fabric, removed, limit);
    }
  }

  /** The built text stays below the limit and splits back into exactly the entries appended. */
  lemma {:induction false} ListFits(table: seq<Fabric>, removed: nat, limit: nat)
    ensures Kept(table, removed, limit) != [] ==> Size(Kept(table, removed, limit)) < limit
    ensures Kept(table, removed, limit) != [] ==> |ListText(Kept(table, removed, limit))| + 1 < limit
    ensures Kept(table, removed, limit) != [] ==>
      Split(ListText(Kept(table, removed, limit)), {','}) == Entries(Kept(table, removed, limit))
  {
    if table != [] {
      ListFits(table[..|table| - 1], removed, limit);
      TerminatedOneMore(Kept(table[..|table| - 1], removed, limit), table[|table| - 1].id);
    }
    var kept := Kept(table, removed, limit);
    if kept != [] {
      PopBackOfTerminated(Entries(kept));
      ListTextHolds(kept, kept[0]);
    }
  }

  lemma {:induction false} KeptGrows(table: seq<Fabric>, removed: nat, limit: nat)
    ensures |Kept(table, removed, limit)| <= |Others(table, removed)|
    ensures |Kept(table, removed, limit)| == |Others(table, removed)|
      ==> Kept(table, removed, limit) == Others(table, removed)
    ensures forall id :: id in Kept(table, removed, limit) ==> id in Others(table, removed)
  {
    if table != [] {
      KeptGrows(table[..|table| - 1], removed, limit);
    }
  }

  /** Nothing of the removed fabric is listed, and all the others are, in table order, exactly when
      they fit together. */
  lemma {:induction false} AllKeptIffTheyFit(table: seq<Fabric>, removed: nat, limit: nat)
    requires limit > 0
    ensures Kept(table, removed, limit) == Others(table, removed)
      <==> Size(Others(table, removed)) < limit
  {
    if table == [] {
      assert Entries(Others(table, removed)) == [];
    } else {
      var front, fabric := table[..|table| - 1], table[|table| - 1];
      AllKeptIffTheyFit(front, removed, limit);
      KeptGrows(front, removed, limit);
      KeepLast(Kept(front, removed, limit), Others(front, removed), fabric, removed, limit);
    }
  }

  lemma {:induction false} KeepLast(kept: seq<Id>, others: seq<Id>, fabric: Fabric, removed: nat, limit: nat)
    requires |kept| <= |others| && (kept == others <==> Size(others) < limit) && (|kept| == |others| ==> kept == others)
    ensures fabric.index != removed ==>
      (Keep(kept, fabric, removed, limit) == others + [fabric.id] <==> Size(others + [fabric.id]) < limit)
  {
    TerminatedOneMore(others, fabric.id);
    if Keep(kept, fabric, removed, limit) == others + [fabric.id] {
      assert |kept| == |others|;
    }
  }

  lemma {:induction false} OthersAreOthers(table: seq<Fabric>, removed: nat, id: Id)
    ensures id in Others(table, removed) <==> exists f :: f in table && f.index != removed && f.id == id
  {
    if table != [] {
      OthersAreOthers(table[..|table| - 1], removed, id);
      assert table == table[..|table| - 1] + [table[|table| - 1]];
    }
  }

  // ---------- reading it ----------

  /** The `uint8_t` index of the reading loop, which starts at 1 and steps by two. */
  function LoopIndex(k: nat): nat {
    (1 + 2 * k) % 256
  }

  /** The reading loop ends: its index runs out of the tokens or meets the node id. */
  ghost predicate ReaderEnds(tokens: seq<string>, node: nat) {
    exists k: nat :: LoopIndex(k) >= |tokens| || tokens[LoopIndex(k)] == Decimal(node)
  }

  /** One of the first 128 odd tokens, those an 8-bit index reaches, is this node id. */
  ghost predicate EarlyMatch(tokens: seq<string>, node: nat) {
    exists k: nat :: k < 128 && 2 * k + 1 < |tokens| && tokens[2 * k + 1] == Decimal(node)
  }

  /** The loop ends exactly when the list has at most 255 tokens or an early match; otherwise the
      index wraps for ever. */
  lemma ReaderEndsIff(tokens: seq<string>, node: nat)
    ensures ReaderEnds(tokens, node) <==> |tokens| <= 255 || EarlyMatch(tokens, node)
  {
    if |tokens| <= 255 {
      assert LoopIndex(127) == 255;
    } else if ReaderEnds(tokens, node) {
      var k: nat :| LoopIndex(k) >= |tokens| || tokens[LoopIndex(k)] == Decimal(node);
      LoopIndexIsOdd(k);
      assert 2 * (k % 128) + 1 == LoopIndex(k);
    }
    if EarlyMatch(tokens, node) {
      var k: nat :| k < 128 && 2 * k + 1 < |tokens| && tokens[2 * k + 1] == Decimal(node);
      LoopIndexIsOdd(k);
      assert LoopIndex(k) == 2 * k + 1;
    }
  }

  lemma LoopIndexIsOdd(k: nat)
    ensures LoopIndex(k) == 2 * (k % 128) + 1
  {
    assert k == 128 * (k / 128) + k % 128;
    assert 1 + 2 * k == 256 * (k / 128) + (2 * (k % 128) + 1);
  }

  lemma TokensOneMore(ids: seq<Id>, id: Id)
    requires ids != []
    ensures Split(ListText(ids + [id]), {':', ','})
      == Split(ListText(ids), {':', ','}) + [Decimal(id.fabric), Decimal(id.node)]
  {
    var more := ids + [id];
    assert more[..|ids|] == ids;
    assert Entries(more)[..|ids|] == Entries(ids);
    assert ListText(more) == ListText(ids) + [','] + Entry(id);
    EntrySplits(id);
    SplitAt(ListText(ids), ',', Entry(id), {':', ','});
  }

  function Flat(ids: seq<Id>): (tokens: seq<string>)
    ensures |tokens| == 2 * |ids|
    ensures forall k :: 0 <= k < |ids| ==> tokens[2 * k + 1] == Decimal(ids[k].node)
  {
    if ids == [] then []
    else
      var id := ids[|ids| - 1];
      Flat(ids[..|ids| - 1]) + [Decimal(id.fabric), Decimal(id.node)]
  }

  /** Split at both separators, a list gives its fabric and node ids in turn. */
  lemma {:induction false} TokensOfList(ids: seq<Id>)
    requires ids != []
    ensures Split(ListText(ids), {':', ','}) == Flat(ids)
  {
    var front, last := ids[..|ids| - 1], ids[|ids| - 1];
    if |ids| == 1 {
      EntrySplits(last);
      assert ListText(ids) == Entry(last);
    } else {
      TokensOfList(front);
      TokensOneMore(front, last);
      assert front + [last] == ids;
    }
  }

  /** Some node id among the tokens, which are at the odd positions, is this one. */
  ghost predicate HasNodeId(tokens: seq<string>, node: nat) {
    exists k: nat :: 2 * k + 1 < |tokens| && tokens[2 * k + 1] == Decimal(node)
  }

  lemma FlatHasNodeId(ids: seq<Id>, node: U64)
    ensures HasNodeId(Flat(ids), node) <==> exists i :: 0 <= i < |ids| && ids[i].node == node
  {
    var tokens := Flat(ids);
    forall k | 0 <= k < |ids|
      ensures tokens[2 * k + 1] == Decimal(node) <==> ids[k].node == node
    {
      NumberOfDecimal(ids[k].node);
      NumberOfDecimal(node);
    }
    if k: nat :| 2 * k + 1 < |tokens| && tokens[2 * k + 1] == Decimal(node) {
      assert ids[k].node == node;
    }
    if i :| 0 <= i < |ids| && ids[i].node == node {
      assert tokens[2 * i + 1] == Decimal(node);
    }
  }

  predicate NoneBefore(tokens: seq<string>, node: nat, n: nat) {
    forall k: nat :: k < n && 2 * k + 1 < |tokens| ==> tokens[2 * k + 1] != Decimal(node)
  }

  lemma NoWrapYet(tokens: seq<string>, node: nat, n: nat)
    requires ReaderEnds(tokens, node) && NoneBefore(tokens, node, n + 1) && 2 * n + 1 < |tokens|
    ensures n < 127 && (2 * n + 1 + 2) % 256 == 2 * (n + 1) + 1
  {
    ReaderEndsIff(tokens, node);
  }

  lemma NoneAtAll(tokens: seq<string>, node: nat, n: nat)
    requires NoneBefore(tokens, node, n) && 2 * n + 1 >= |tokens|
    ensures !HasNodeId(tokens, node)
  {}

  /** The test of `mpc_on_ep_change_cb` whether a network list is the controller's own. */
  method IsOwnList(networkList: string, mpcNodeId: U64) returns (own: bool)
    requires ReaderEnds(Split(networkList, {':', ','}), mpcNodeId)
    ensures own <==> HasNodeId(Split(networkList, {':', ','}), mpcNodeId)
  {
    var parsed := Split(networkList, {':', ','});
    var i := 1;
    ghost var n := 0;
    while i < |parsed|
      invariant i == 2 * n + 1 && n <= 127
      invariant NoneBefore(parsed, mpcNodeId, n)
      decreases 127 - n
    {
      assert parsed[2 * n + 1] == parsed[i];
      if parsed[i] == Decimal(mpcNodeId) {
        return true;
      }
      NoWrapYet(parsed, mpcNodeId, n);
      i := (i + 2) % 256;
      n := n + 1;
    }
    NoneAtAll(parsed, mpcNodeId, n);
    return false;
  }

  /** With a storage limit of at most 256 every list the builder makes can be read, and is taken for
      the controller's own exactly when some entry has its node id. */
  lemma {:induction false} BuiltListIsReadable(table: seq<Fabric>, removed: nat, limit: nat, mpcNodeId: U64)
    requires limit <= 256 && Kept(table, removed, limit) != []
    ensures var kept := Kept(table, removed, limit); var tokens := Split(ListText(kept), {':', ','});
      |tokens| <= 255 && (HasNodeId(tokens, mpcNodeId) <==> exists i :: 0 <= i < |kept| && kept[i].node == mpcNodeId)
  {
    var kept := Kept(table, removed, limit);
    ListFits(table, removed, limit);
    TokensOfList(kept);
    FlatHasNodeId(kept, mpcNodeId);
  }

  // ---------- updating the controller's node ----------

  datatype Search = Threw | Ended(found: Option<nat>)

  predicate Matches(list: NetworkList, item: string) {
    list.Reported? && Contains(list.text, item)
  }

  /** The last of the first `m` nodes whose list contains the text; reading an unreported list throws. */
  function LastMatch(s: State, item: string, m: nat): Search
    requires m <= |s.order|
  {
    if m == 0 then Ended(None)
    else
      var before, n := LastMatch(s, item, m - 1), s.order[m - 1];
      if before.Threw? then Threw
      else match ListOf(s, n)
        case Unreported => Threw
        case _ => if Matches(ListOf(s, n), item) then Ended(Some(n)) else before
  }

  /** The controller's node after the first `k` fabrics: the only node there is, or else the last
      match for the first fabric that has one. */
  function FindController(s: State, table: seq<Fabric>, k: nat): Search
    requires k <= |table|
  {
    if k == 0 then Ended(if |s.order| == 1 then Some(s.order[0]) else None)
    else
      var before := FindController(s, table, k - 1);
      if before.Threw? || before.found.Some? then before
      else LastMatch(s, Entry(table[k - 1].id), |s.order|)
  }

  function SetController(s: State, n: nat, kept: seq<Id>): State {
    if n !in s.devices || (kept == [] && s.devices[n].list.Missing?) then s
    else
      var d := if kept != [] then s.devices[n].(list := Reported(ListText(kept)), status := Some(Functional))
               else s.devices[n].(list := Unreported, status := Some(NonFunctional));
      s.(devices := s.devices[n := d])
  }

  /** `find_mpc_and_update_networklist`; `None` is an escaping exception. */
  function UpdateNetworkList(s: State, table: seq<Fabric>, removed: nat, limit: nat): Option<State> {
    if s.order == [] then Some(s)
    else match FindController(s, table, |table|)
      case Threw => None
      case Ended(None) => Some(s)
      case Ended(Some(n)) => Some(SetController(s, n, Kept(table, removed, limit)))
  }

  // ---------- removing a fabric ----------

  /** What the wiping loop makes of a network list: `Some(None)` passes the node over, `None` is an
      exception, and anything else is the node id whose subscriptions are shut down. */
  function NodeToWipe(list: NetworkList): Option<Option<nat>> {
    if !list.Reported? || ':' !in list.text then Some(None)
    else match NodeIdOf(list.text)
      case None => None
      case Some(node) => Some(Some(node))
  }

  /** One turn of that loop. */
  function WipeNode(s: State, n: nat): Option<State> {
    match NodeToWipe(ListOf(s, n))
    case None => None
    case Some(None) => Some(s)
    case Some(Some(node)) => Some(DeleteDevice(s, n).(shutdowns := s.shutdowns + [node]))
  }

  function Wipe(s: State, nodes: seq<nat>, k: nat): Option<State>
    requires k <= |nodes|
  {
    if k == 0 then Some(s)
    else match Wipe(s, nodes, k - 1)
      case None => None
      case Some(t) => WipeNode(t, nodes[k - 1])
  }

  /** An exception stops the wipe at the first node whose list cannot be used; the nodes before it are
      deleted, and nothing after it. */
  ghost predicate WipeStopped(s: State, nodes: seq<nat>, t: State) {
    exists k :: 0 <= k < |nodes| && Wipe(s, nodes, k) == Some(t) && WipeNode(t, nodes[k]).None?
  }

  /** `FabricWillBeRemoved`. */
  function RemoveFabric(s: State, table: seq<Fabric>, removed: nat, limit: nat): Option<State> {
    match UpdateNetworkList(s, table, removed, limit)
    case None => None
    case Some(t) => Wipe(t, t.order, |t.order|)
  }

  /** What an exception that escapes it leaves: nothing is changed by a search that fails. */
  ghost predicate RemovalStopped(s: State, table: seq<Fabric>, removed: nat, limit: nat, t: State) {
    match UpdateNetworkList(s, table, removed, limit)
    case None => t == s
    case Some(u) => WipeStopped(u, u.order, t)
  }

  /** Node `w` is the last one whose list contains the text, and every list can be read. */
  ghost predicate LastHolder(s: State, item: string, w: nat) {
    && w < |s.order| && Matches(ListOf(s, s.order[w]), item)
    && (forall i :: 0 <= i < |s.order| ==> !ListOf(s, s.order[i]).Unreported?)
    && (forall i :: w < i < |s.order| ==> !Matches(ListOf(s, s.order[i]), item))
  }

  lemma {:induction false} LastMatchIs(s: State, item: string, w: nat, m: nat)
    requires LastHolder(s, item, w) && m <= |s.order|
    ensures LastMatch(s, item, m).Ended?
    ensures w < m ==> LastMatch(s, item, m) == Ended(Some(s.order[w]))
  {
    if m > 0 {
      LastMatchIs(s, item, w, m - 1);
    }
  }

  /** With one fabric the search ends at the last holder of the controller's entry. */
  lemma ControllerFound(s: State, fabric: Fabric, w: nat)
    requires LastHolder(s, Entry(fabric.id), w)
    ensures FindController(s, [fabric], 1) == Ended(Some(s.order[w]))
  {
    LastMatchIs(s, Entry(fabric.id), w, |s.order|);
    assert FindController(s, [fabric], 0) == Ended(if |s.order| == 1 then Some(s.order[0]) else None);
  }

  /** The search for the controller's node throws exactly when some list was not reported. */
  lemma {:induction false} MatchThrowsIff(s: State, item: string, m: nat)
    requires m <= |s.order|
    ensures LastMatch(s, item, m).Threw? <==> exists i :: 0 <= i < m && ListOf(s, s.order[i]).Unreported?
    ensures LastMatch(s, item, m) == Ended(None) ==> forall i :: 0 <= i < m ==> !Matches(ListOf(s, s.order[i]), item)
  {
    if m > 0 {
      MatchThrowsIff(s, item, m - 1);
    }
  }

  /** A node that is alone is taken for the controller's, whatever the fabrics and its list are. */
  lemma {:induction false} OnlyNodeIsController(s: State, table: seq<Fabric>, k: nat)
    requires |s.order| == 1 && k <= |table|
    ensures FindController(s, table, k) == Ended(Some(s.order[0]))
  {
    if k > 0 {
      OnlyNodeIsController(s, table, k - 1);
    }
  }

  /** Every list can be read and none contains the text. */
  ghost predicate NobodyHolds(s: State, item: string) {
    forall i :: 0 <= i < |s.order| ==>
      !ListOf(s, s.order[i]).Unreported? && !Matches(ListOf(s, s.order[i]), item)
  }

  lemma {:induction false} NoMatch(s: State, item: string, m: nat)
    requires m <= |s.order| && NobodyHolds(s, item)
    ensures LastMatch(s, item, m) == Ended(None)
  {
    if m > 0 {
      NoMatch(s, item, m - 1);
    }
  }

  lemma {:induction false} NoMatchBefore(s: State, table: seq<Fabric>, k: nat)
    requires |s.order| != 1 && k <= |table|
    requires forall f :: 0 <= f < k ==> NobodyHolds(s, Entry(table[f].id))
    ensures FindController(s, table, k) == Ended(None)
  {
    if k > 0 {
      NoMatchBefore(s, table, k - 1);
      NoMatch(s, Entry(table[k - 1].id), |s.order|);
    }
  }

  lemma {:induction false} FoundStays(s: State, table: seq<Fabric>, j: nat, k: nat)
    requires j <= k <= |table| && FindController(s, table, j).Ended? && FindController(s, table, j).found.Some?
    ensures FindController(s, table, k) == FindController(s, table, j)
  {
    if j < k {
      FoundStays(s, table, j, k - 1);
    }
  }

  /** Among several nodes it is the last one whose list contains the entry of fabric `j`, if no list
      contains that of an earlier fabric. */
  lemma {:induction false} FirstMatchingFabric(s: State, table: seq<Fabric>, j: nat, w: nat)
    requires |s.order| != 1 && j < |table| && LastHolder(s, Entry(table[j].id), w)
    requires forall f :: 0 <= f < j ==> NobodyHolds(s, Entry(table[f].id))
    ensures FindController(s, table, |table|) == Ended(Some(s.order[w]))
  {
    NoMatchBefore(s, table, j);
    LastMatchIs(s, Entry(table[j].id), w, |s.order|);
    FoundStays(s, table, j + 1, |table|);
  }

  /** If no list contains the entry of any fabric, or there is no node, nothing is updated. */
  lemma NoControllerNoUpdate(s: State, table: seq<Fabric>, removed: nat, limit: nat)
    requires |s.order| != 1 && forall f :: 0 <= f < |table| ==> NobodyHolds(s, Entry(table[f].id))
    ensures UpdateNetworkList(s, table, removed, limit) == Some(s)
  {
    NoMatchBefore(s, table, |table|);
  }

  /** With several nodes and one fabric an unreported list makes the update throw. */
  lemma UnreadableListThrows(s: State, fabric: Fabric, removed: nat, limit: nat, i: nat)
    requires |s.order| > 1 && i < |s.order| && ListOf(s, s.order[i]).Unreported?
    ensures UpdateNetworkList(s, [fabric], removed, limit).None?
  {
    MatchThrowsIff(s, Entry(fabric.id), |s.order|);
    assert FindController(s, [fabric], 0) == Ended(None);
  }

  /** The update writes the built list, and FUNCTIONAL, to the node found, and touches nothing else; a
      list that ends up empty is unset, with NON_FUNCTIONAL, unless there is none. */
  lemma UpdateWrites(s: State, table: seq<Fabric>, removed: nat, limit: nat, n: nat)
    requires RegistryOk(s) && s.order != [] && n in s.devices
    requires FindController(s, table, |table|) == Ended(Some(n))
    ensures var kept, d := Kept(table, removed, limit), s.devices[n];
      UpdateNetworkList(s, table, removed, limit) == Some(
        if kept != [] then
          s.(devices := s.devices[n := d.(list := Reported(ListText(kept)), status := Some(Functional))])
        else if d.list.Missing? then s
        else s.(devices := s.devices[n := d.(list := Unreported, status := Some(NonFunctional))]))
  {
    var d := s.devices[n];
    assert d.list.Missing? && Kept(table, removed, limit) == [] ==> s.devices[n := d] == s.devices;
  }

  /** At first boot the controller's node, which has no list yet, gets the entries of the fabrics. */
  lemma FirstBoot(s: State, fabric: Fabric, removed: nat, limit: nat)
    requires RegistryOk(s) && |s.order| == 1 && ListOf(s, s.order[0]).Missing?
    requires fabric.index != removed && |Entry(fabric.id)| + 1 < limit
    ensures var n := s.order[0];
      && n in s.devices
      && UpdateNetworkList(s, [fabric], removed, limit) == Some(s.(devices := s.devices[n :=
           s.devices[n].(list := Reported(Entry(fabric.id)), status := Some(Functional))]))
  {
    var n := s.order[0];
    assert n in s.devices;
    OnlyNodeIsController(s, [fabric], 1);
    UpdateWrites(s, [fabric], removed, limit, n);
    assert [fabric][..0] == [];
    assert Kept([fabric], removed, limit) == [fabric.id];
    assert Entries([fabric.id]) == [Entry(fabric.id)];
  }

  // ---------- what the wipe leaves ----------

  predicate Names(list: NetworkList, node: nat) {
    NodeToWipe(list) == Some(Some(node))
  }

  /** Every node but `w` has a list that names a Matter node, and `w` has none. */
  ghost predicate AllButOneNamed(s: State, names: seq<nat>, w: nat) {
    && Distinct(s.order) && w < |names| == |s.order|
    && (forall i {:trigger names[i]} :: 0 <= i < |names| && i != w ==> Names(ListOf(s, s.order[i]), names[i]))
    && ListOf(s, s.order[w]) == Unreported
  }

  /** The nodes among the first `k` that are deleted: all but node `w`. */
  function Removed(order: seq<nat>, w: nat, k: nat): set<nat>
    requires k <= |order|
  {
    if k == 0 then {} else Removed(order, w, k - 1) + if k - 1 == w then {} else {order[k - 1]}
  }

  /** The sequence without its element `w`. */
  function Without(xs: seq<nat>, w: nat, k: nat): seq<nat>
    requires k <= |xs|
  {
    if k == 0 then [] else Without(xs, w, k - 1) + if k - 1 == w then [] else [xs[k - 1]]
  }

  function Left(order: seq<nat>, w: nat, k: nat): seq<nat>
    requires w < |order| && k <= |order|
  {
    (if w < k then [order[w]] else []) + order[k..]
  }

  function Wiped(s: State, names: seq<nat>, w: nat, k: nat): State
    requires w < |names| == |s.order| && k <= |names|
  {
    s.(order := Left(s.order, w, k), devices := s.devices - Removed(s.order, w, k),
       shutdowns := s.shutdowns + Without(names, w, k))
  }

  lemma EraseAt(front: seq<nat>, n: nat, rest: seq<nat>)
    requires n !in front
    ensures Position(front + [n] + rest, n) == |front|
    ensures Erase(front + [n] + rest, |front|) == front + rest
  {
    var xs := front + [n] + rest;
    var p := Position(xs, n);
    assert xs[|front|] == n;
    assert forall i :: 0 <= i < |front| ==> xs[i] == front[i];
  }

  lemma {:induction false} RemovedMeans(order: seq<nat>, w: nat, k: nat, n: nat)
    requires k <= |order|
    ensures n in Removed(order, w, k) <==> exists i :: 0 <= i < k && i != w && order[i] == n
  {
    if k > 0 {
      RemovedMeans(order, w, k - 1, n);
    }
  }

  lemma {:induction false} LeftOneLess(order: seq<nat>, w: nat, k: nat)
    requires Distinct(order) && w < |order| && k < |order|
    ensures if k == w then Left(order, w, k) == Left(order, w, k + 1)
            else Erase(Left(order, w, k), Position(Left(order, w, k), order[k])) == Left(order, w, k + 1)
  {
    var front := if w < k then [order[w]] else [];
    assert Left(order, w, k) == front + [order[k]] + order[k + 1..];
    if k != w {
      EraseAt(front, order[k], order[k + 1..]);
    }
  }

  lemma WipedAtStart(s: State, names: seq<nat>, w: nat)
    requires w < |names| == |s.order|
    ensures Wiped(s, names, w, 0) == s
  {
    assert s.devices - {} == s.devices;
    assert [] + s.order[0..] == s.order;
  }

  lemma {:induction false} WipePasses(s: State, names: seq<nat>, w: nat)
    requires w < |names| == |s.order|
    ensures Wiped(s, names, w, w) == Wiped(s, names, w, w + 1)
  {
    assert Removed(s.order, w, w + 1) == Removed(s.order, w, w);
    assert Left(s.order, w, w) == Left(s.order, w, w + 1);
  }

  lemma {:induction false} DevicesOneLess(devices: map<nat, Device>, order: seq<nat>, w: nat, k: nat)
    requires k < |order| && k != w
    ensures devices - Removed(order, w, k) - {order[k]} == devices - Removed(order, w, k + 1)
  {}

  lemma {:induction false} ShutdownsOneMore(before: seq<nat>, names: seq<nat>, w: nat, k: nat)
    requires k < |names| && k != w
    ensures before + Without(names, w, k) + [names[k]] == before + Without(names, w, k + 1)
  {}

  lemma {:induction false} WipeDeletes(s: State, names: seq<nat>, w: nat, k: nat)
    requires Distinct(s.order) && w < |names| == |s.order| && k < |names| && k != w
    ensures var t := Wiped(s, names, w, k);
      DeleteDevice(t, s.order[k]).(shutdowns := t.shutdowns + [names[k]]) == Wiped(s, names, w, k + 1)
  {
    LeftOneLess(s.order, w, k);
    DevicesOneLess(s.devices, s.order, w, k);
    ShutdownsOneMore(s.shutdowns, names, w, k);
  }

  lemma {:induction false} StillListed(s: State, names: seq<nat>, w: nat, k: nat)
    requires Distinct(s.order) && w < |names| == |s.order| && k < |names|
    ensures ListOf(Wiped(s, names, w, k), s.order[k]) == ListOf(s, s.order[k])
  {
    RemovedMeans(s.order, w, k, s.order[k]);
  }

  lemma {:induction false} WipeOne(s: State, names: seq<nat>, w: nat, k: nat)
    requires Distinct(s.order) && w < |names| == |s.order| && k < |names|
    requires if k == w then ListOf(s, s.order[k]) == Unreported else Names(ListOf(s, s.order[k]), names[k])
    ensures WipeNode(Wiped(s, names, w, k), s.order[k]) == Some(Wiped(s, names, w, k + 1))
  {
    StillListed(s, names, w, k);
    if k == w {
      WipePasses(s, names, w);
    } else {
      WipeDeletes(s, names, w, k);
    }
  }

  lemma WipeLast(s: State, nodes: seq<nat>, k: nat, t: State, t': State)
    requires k < |nodes| && Wipe(s, nodes, k) == Some(t) && WipeNode(t, nodes[k]) == Some(t')
    ensures Wipe(s, nodes, k + 1) == Some(t')
  {}

  lemma {:induction false} NamedAt(s: State, names: seq<nat>, w: nat, k: nat)
    requires AllButOneNamed(s, names, w) && k < |names|
    ensures if k == w then ListOf(s, s.order[k]) == Unreported else Names(ListOf(s, s.order[k]), names[k])
  {
    assert names[k] == names[k];
  }

  lemma {:induction false} WipeStep(s: State, names: seq<nat>, w: nat, k: nat, t: State)
    requires AllButOneNamed(s, names, w) && k < |names|
    requires t == Wiped(s, names, w, k) && Wipe(s, s.order, k) == Some(t)
    ensures Wipe(s, s.order, k + 1) == Some(Wiped(s, names, w, k + 1))
  {
    NamedAt(s, names, w, k);
    WipeOne(s, names, w, k);
    WipeLast(s, s.order, k, t, Wiped(s, names, w, k + 1));
  }

  lemma {:induction false} WipeAll(s: State, names: seq<nat>, w: nat, k: nat)
    requires AllButOneNamed(s, names, w) && k <= |names|
    ensures Wipe(s, s.order, k) == Some(Wiped(s, names, w, k))
  {
    if k == 0 {
      WipedAtStart(s, names, w);
    } else {
      var j := k - 1;
      WipeAll(s, names, w, j);
      WipeStep(s, names, w, j, Wiped(s, names, w, j));
      assert j + 1 == k;
    }
  }

  /** The registry after the whole wipe: node `w` alone, without a network list. */
  function OnlyNode(s: State, n: nat): State
    requires n in s.devices
  {
    s.(order := [n], devices := map[n := s.devices[n].(list := Unreported, status := Some(NonFunctional))])
  }

  lemma {:induction false} WipedCompletely(s: State, names: seq<nat>, w: nat)
    requires RegistryOk(s) && w < |names| == |s.order|
    ensures var t := SetController(s, s.order[w], []); var n := s.order[w];
      s.devices[n].list.Reported? ==>
        Wiped(t, names, w, |names|) == OnlyNode(s, n).(shutdowns := s.shutdowns + Without(names, w, |names|))
  {
    var n := s.order[w];
    var t := SetController(s, n, []);
    assert n in s.devices;
    forall m | m in s.devices
      ensures m in Removed(s.order, w, |names|) <==> m != n
    {
      RemovedMeans(s.order, w, |names|, m);
      var i :| 0 <= i < |s.order| && s.order[i] == m;
    }
    assert s.order[|names|..] == [];
    assert s.devices[n].list.Reported? ==> t.devices - Removed(s.order, w, |names|) == OnlyNode(s, n).devices;
  }

  /** Removing the only fabric leaves the last node whose list contains the controller's entry, set
      NON_FUNCTIONAL and without a network list, deletes every other node, and shuts down one
      subscription for each of them, in order. The queue and the failing-node table stay. */
  lemma {:induction false} DecommissionWipe(s: State, fabric: Fabric, limit: nat, names: seq<nat>, w: nat)
    requires RegistryOk(s) && |names| == |s.order| && LastHolder(s, Entry(fabric.id), w)
    requires forall i {:trigger names[i]} :: 0 <= i < |names| ==> Names(ListOf(s, s.order[i]), names[i])
    ensures RemoveFabric(s, [fabric], fabric.index, limit)
      == Some(OnlyNode(s, s.order[w]).(shutdowns := s.shutdowns + Without(names, w, |names|)))
  {
    ControllerFound(s, fabric, w);
    assert Kept([fabric], fabric.index, limit) == [];
    var n := s.order[w];
    var t := SetController(s, n, []);
    assert UpdateNetworkList(s, [fabric], fabric.index, limit) == Some(t);
    forall i | 0 <= i < |names| && i != w
      ensures Names(ListOf(t, t.order[i]), names[i])
    {
      assert Names(ListOf(s, s.order[i]), names[i]);
      assert ListOf(t, t.order[i]) == ListOf(s, s.order[i]);
    }
    WipeAll(t, names, w, |names|);
    WipedCompletely(s, names, w);
  }

  lemma {:induction false} SomeLastHolder(s: State, item: string, c: nat, m: nat) returns (w: nat)
    requires c < m <= |s.order| && Matches(ListOf(s, s.order[c]), item)
    ensures c <= w < m && Matches(ListOf(s, s.order[w]), item)
    ensures forall i :: w < i < m ==> !Matches(ListOf(s, s.order[i]), item)
  {
    if Matches(ListOf(s, s.order[m - 1]), item) {
      w := m - 1;
    } else {
      w := SomeLastHolder(s, item, c, m - 1);
    }
  }

  /** The node that is left is the controller's own, which holds its entry, exactly when no later
      node's list contains that entry as a substring. */
  lemma {:induction false} KeepsControllerIff(s: State, fabric: Fabric, limit: nat, names: seq<nat>, c: nat)
    requires RegistryOk(s) && |names| == |s.order| && c < |s.order|
    requires forall i {:trigger names[i]} :: 0 <= i < |names| ==> Names(ListOf(s, s.order[i]), names[i])
    requires forall i :: 0 <= i < |s.order| ==> ListOf(s, s.order[i]).Reported?
    requires Matches(ListOf(s, s.order[c]), Entry(fabric.id))
    ensures RemoveFabric(s, [fabric], fabric.index, limit).Some?
    ensures RemoveFabric(s, [fabric], fabric.index, limit).value.order == [s.order[c]]
      <==> forall i :: c < i < |s.order| ==> !Matches(ListOf(s, s.order[i]), Entry(fabric.id))
  {
    var w := SomeLastHolder(s, Entry(fabric.id), c, |s.order|);
    DecommissionWipe(s, fabric, limit, names, w);
    assert w != c ==> s.order[w] != s.order[c];
  }

  /** Within a fabric a device is taken for the controller exactly when its node id starts with the
      digits of the controller's: 12 or 100 for controller 1. */
  lemma TakenForControllerIff(fabric: U64, controller: U64, device: U64)
    ensures Matches(Reported(Entry(Id(fabric, device))), Entry(Id(fabric, controller)))
      <==> Decimal(controller) <= Decimal(device)
  {
    EntryOccursIn(Id(fabric, controller), Id(fabric, device));
  }

  /** For controller 1 the digits of device 12 are enough. */
  lemma TwelveIsTakenForOne(fabric: U64)
    ensures Matches(Reported(Entry(Id(fabric, 12))), Entry(Id(fabric, 1)))
  {
    TakenForControllerIff(fabric, 1, 12);
    assert Decimal(12 / 10) == Decimal(1) && Decimal(12) == Decimal(12 / 10) + ['2'];
  }

  // ---------- the same for lists of identities ----------

  /** What the wipe does to one node: a list of identities gets it deleted, with a shutdown at the first
      node id; a node without a reported list, or with a text without a colon, is passed over; a text
      whose node id cannot be read throws. */
  lemma WipeNodeCases(s: State, n: nat, ids: seq<Id>)
    ensures ids != [] && ListOf(s, n) == Reported(ListText(ids)) ==>
      WipeNode(s, n) == Some(DeleteDevice(s, n).(shutdowns := s.shutdowns + [ids[0].node]))
    ensures !ListOf(s, n).Reported? || ':' !in ListOf(s, n).text ==> WipeNode(s, n) == Some(s)
    ensures ListOf(s, n).Reported? && ':' in ListOf(s, n).text && NodeIdOf(ListOf(s, n).text).None? ==>
      WipeNode(s, n).None?
  {
    if ids != [] {
      ListNames(ids);
    }
  }

  /** Every node carries a list of identities. */
  ghost predicate Carries(s: State, ids: seq<seq<Id>>) {
    |ids| == |s.order| && forall i {:trigger ids[i]} :: 0 <= i < |ids| ==>
      ids[i] != [] && ListOf(s, s.order[i]) == Reported(ListText(ids[i]))
  }

  function FirstNodes(ids: seq<seq<Id>>): (names: seq<nat>)
    requires forall i :: 0 <= i < |ids| ==> ids[i] != []
    ensures |names| == |ids|
    ensures forall i :: 0 <= i < |ids| ==> names[i] == ids[i][0].node
  {
    seq(|ids|, i requires 0 <= i < |ids| => ids[i][0].node)
  }

  /** `find` meets the entry of `part` in that of `whole`. */
  predicate Mistakable(part: Id, whole: Id) {
    IsSuffix(Decimal(part.fabric), Decimal(whole.fabric)) && Decimal(part.node) <= Decimal(whole.node)
  }

  ghost predicate SomeMistakable(ids: seq<Id>, part: Id) {
    exists k :: 0 <= k < |ids| && Mistakable(part, ids[k])
  }

  /** No node after the `c`-th carries an identity that can be taken for this one. */
  ghost predicate NoneMistakable(ids: seq<seq<Id>>, part: Id, c: nat) {
    forall i :: c < i < |ids| ==> !SomeMistakable(ids[i], part)
  }

  lemma ListMatches(ids: seq<Id>, part: Id)
    requires ids != []
    ensures Matches(Reported(ListText(ids)), Entry(part)) <==> SomeMistakable(ids, part)
  {
    ContainsInJoined(Entries(ids), Entry(part));
    forall k | 0 <= k < |ids|
      ensures Contains(Entries(ids)[k], Entry(part)) <==> Mistakable(part, ids[k])
    {
      EntryOccursIn(part, ids[k]);
    }
  }

  /** A list of entries names its first node. */
  lemma ListNames(ids: seq<Id>)
    requires ids != []
    ensures Names(Reported(ListText(ids)), ids[0].node)
  {
    ListTextHolds(ids, ids[0]);
    var rest := JoinedStarts(Entries(ids));
    assert ':' in Entry(ids[0]);
  }

  lemma CarriedNames(s: State, ids: seq<seq<Id>>, part: Id)
    requires Carries(s, ids)
    ensures forall i {:trigger FirstNodes(ids)[i]} :: 0 <= i < |ids| ==>
      Names(ListOf(s, s.order[i]), FirstNodes(ids)[i])
    ensures forall i :: 0 <= i < |ids| ==>
      ListOf(s, s.order[i]).Reported? && (Matches(ListOf(s, s.order[i]), Entry(part)) <==> SomeMistakable(ids[i], part))
  {
    forall i | 0 <= i < |ids|
      ensures Names(ListOf(s, s.order[i]), ids[i][0].node)
      ensures Matches(ListOf(s, s.order[i]), Entry(part)) <==> SomeMistakable(ids[i], part)
      ensures ListOf(s, s.order[i]).Reported?
    {
      ListNames(ids[i]);
      ListMatches(ids[i], part);
    }
  }

  /** The controller that is decommissioned keeps its node, and all other devices are deleted with one
      shutdown each at their first Matter node id, exactly when no later node carries an identity whose
      fabric id ends with the controller's and whose node id starts with the controller's. */
  lemma {:induction false} DecommissionIff(s: State, fabric: Fabric, limit: nat, ids: seq<seq<Id>>, c: nat)
    requires RegistryOk(s) && Carries(s, ids) && c < |ids| && fabric.id in ids[c]
    ensures RemoveFabric(s, [fabric], fabric.index, limit)
      == Some(OnlyNode(s, s.order[c]).(shutdowns := s.shutdowns + Without(FirstNodes(ids), c, |ids|)))
      <==> NoneMistakable(ids, fabric.id, c)
  {
    CarriedNames(s, ids, fabric.id);
    OwnEntryMatches(ids[c], fabric.id);
    KeepsControllerIff(s, fabric, limit, FirstNodes(ids), c);
    if NoneMistakable(ids, fabric.id, c) {
      DecommissionKeeps(s, fabric, limit, ids, c);
    }
  }

  lemma CarriedHolder(s: State, ids: seq<seq<Id>>, id: Id, c: nat)
    requires Carries(s, ids) && c < |ids| && id in ids[c] && NoneMistakable(ids, id, c)
    ensures LastHolder(s, Entry(id), c)
  {
    CarriedNames(s, ids, id);
    OwnEntryMatches(ids[c], id);
  }

  lemma CarriedAllNamed(s: State, ids: seq<seq<Id>>, names: seq<nat>)
    requires Carries(s, ids) && names == FirstNodes(ids)
    ensures forall i {:trigger names[i]} :: 0 <= i < |names| ==> Names(ListOf(s, s.order[i]), names[i])
  {
    forall i | 0 <= i < |names|
      ensures Names(ListOf(s, s.order[i]), names[i])
    {
      ListNames(ids[i]);
    }
  }

  lemma {:induction false} DecommissionKeeps(s: State, fabric: Fabric, limit: nat, ids: seq<seq<Id>>, c: nat)
    requires RegistryOk(s) && Carries(s, ids) && c < |ids| && fabric.id in ids[c] && NoneMistakable(ids, fabric.id, c)
    ensures RemoveFabric(s, [fabric], fabric.index, limit)
      == Some(OnlyNode(s, s.order[c]).(shutdowns := s.shutdowns + Without(FirstNodes(ids), c, |ids|)))
  {
    var names := FirstNodes(ids);
    CarriedHolder(s, ids, fabric.id, c);
    CarriedAllNamed(s, ids, names);
    DecommissionWipe(s, fabric, limit, names, c);
  }

  lemma OwnEntryMatches(ids: seq<Id>, id: Id)
    requires id in ids
    ensures SomeMistakable(ids, id)
  {
    var k :| 0 <= k < |ids| && ids[k] == id;
    assert Mistakable(id, ids[k]);
  }

  /** The wipe does not touch the interview queue or the failing-node table, so the life cycle's
      invariant survives it exactly when both are empty. */
  lemma {:induction false} WipeDanglesIff(s: State, fabric: Fabric, limit: nat, names: seq<nat>, w: nat)
    requires Inv(s) && |names| == |s.order| && LastHolder(s, Entry(fabric.id), w)
    requires forall i {:trigger names[i]} :: 0 <= i < |names| ==> Names(ListOf(s, s.order[i]), names[i])
    ensures var r := RemoveFabric(s, [fabric], fabric.index, limit);
      r.Some? && (QueueOk(r.value) <==> s.queue.pending == []) && (FailingOk(r.value) <==> s.failing == map[])
  {
    DecommissionWipe(s, fabric, limit, names, w);
    OnlyNodeDangles(s, s.order[w], s.shutdowns + Without(names, w, |names|));
  }

  lemma OnlyNodeDangles(s: State, n: nat, shutdowns: seq<nat>)
    requires Inv(s) && n in s.devices
    ensures var r := OnlyNode(s, n).(shutdowns := shutdowns);
      (QueueOk(r) <==> s.queue.pending == []) && (FailingOk(r) <==> s.failing == map[])
  {
    if s.queue.pending != [] {
      assert Nodes(s.queue.pending)[0] in Nodes(s.queue.pending);
    }
  }
}
