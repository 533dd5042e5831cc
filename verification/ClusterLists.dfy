/** Reading a device's cluster and attribute lists, storing them as text, and deciding from that text
    whether its interview is complete. */
module ClusterLists {
  import opened Wrappers
  import opened Text
  import opened AttributePaths

  const ON_OFF: U32 := 6
  const GENERATED_COMMAND_LIST := 0xFFF8
  const ACCEPTED_COMMAND_LIST := 0xFFF9
  const ATTRIBUTE_LIST := 0xFFFB
  const FEATURE_MAP := 0xFFFC
  const CLUSTER_REVISION := 0xFFFD
  const SERVER_LIST_TYPE := 0x001D_0001

  const SUPPORTED_CLUSTERS: seq<U32> := [ON_OFF]

  predicate IsClusterSupported(cluster: nat) {
    cluster in SUPPORTED_CLUSTERS
  }

  /** The children of an endpoint by type, each with its reported value as text, if it has one. */
  type Children = map<nat, Option<string>>

  predicate IsReported(children: Children, typ: nat) {
    typ in children && children[typ].Some?
  }

  /** `emplace_node` for each type: a child that is there stays as it is. */
  function WithTypes(children: Children, types: set<nat>): Children {
    children + map t | t in types - children.Keys :: None
  }

  /** What is there keeps its value, what is new has none. */
  lemma WithTypesKeeps(children: Children, types: set<nat>)
    ensures WithTypes(children, types).Keys == children.Keys + types
    ensures forall t :: t in children ==> WithTypes(children, types)[t] == children[t]
    ensures forall t :: t in types && t !in children ==> WithTypes(children, types)[t] == None
  {}

  lemma WithTypesTwice(children: Children, a: set<nat>, b: set<nat>)
    ensures WithTypes(WithTypes(children, a), b) == WithTypes(children, a + b)
  {}

  // ---------- parsing a list ----------

  datatype ListKind = PlainList | ServerList | AttributeList

  /** The children that one list entry asks for, in the cluster of the list's own type. */
  function Asked(kind: ListKind, typ: nat, v: U32): set<nat> {
    match kind
    case PlainList => {}
    case AttributeList => {Pack(ClusterOf(typ), v)}
    case ServerList =>
      if !IsClusterSupported(v) then {}
      else {Pack(v, ATTRIBUTE_LIST), Pack(v, FEATURE_MAP), Pack(v, CLUSTER_REVISION),
            Pack(v, GENERATED_COMMAND_LIST), Pack(v, ACCEPTED_COMMAND_LIST)}
  }

  function AllAsked(kind: ListKind, typ: nat, values: seq<U32>): set<nat> {
    if values == [] then {}
    else AllAsked(kind, typ, values[..|values| - 1]) + Asked(kind, typ, values[|values| - 1])
  }

  function Items(values: seq<U32>): (items: seq<string>)
    ensures |items| == |values|
    ensures forall i :: 0 <= i < |items| ==> items[i] == SignedDecimal(values[i]) && Free(items[i], {','})
  {
    if values == [] then [] else Items(values[..|values| - 1]) + [SignedDecimal(values[|values| - 1])]
  }

  function IdListText(values: seq<U32>): string
    requires values != []
  {
    Joined(Items(values))
  }

  lemma {:induction false} OneMoreValue(kind: ListKind, typ: nat, values: seq<U32>, i: nat)
    requires i < |values|
    ensures Terminated(Items(values[..i + 1])) == Terminated(Items(values[..i])) + SignedDecimal(values[i]) + [',']
    ensures AllAsked(kind, typ, values[..i + 1]) == AllAsked(kind, typ, values[..i]) + Asked(kind, typ, values[i])
  {
    var more := values[..i + 1];
    assert more[..i] == values[..i];
    assert Items(more)[..i] == Items(values[..i]);
  }

  /** A server list asks for the five global attributes of the supported cluster, if it lists it, and
      for nothing else. */
  lemma {:induction false} ServerListAsks(typ: nat, values: seq<U32>)
    ensures AllAsked(ServerList, typ, values)
      == if ON_OFF in values then Asked(ServerList, typ, ON_OFF) else {}
  {
    if values != [] {
      ServerListAsks(typ, values[..|values| - 1]);
      assert values == values[..|values| - 1] + [values[|values| - 1]];
    }
  }

  /** In numbers: AttributeList, FeatureMap, ClusterRevision, GeneratedCommandList and
      AcceptedCommandList of cluster 6. */
  lemma {:induction false} ServerListAsksFor(typ: nat, values: seq<U32>)
    ensures AllAsked(ServerList, typ, values)
      == if 6 in values then {0x0006_FFFB, 0x0006_FFFC, 0x0006_FFFD, 0x0006_FFF8, 0x0006_FFF9} else {}
  {
    ServerListAsks(typ, values);
  }

  /** An attribute list asks for the listed ids, 16 bits of each, in its own cluster. */
  lemma {:induction false} AttributeListAsksFor(cluster: nat, values: seq<U32>, t: nat)
    requires cluster < 0x1_0000
    ensures t in AllAsked(AttributeList, cluster * 0x1_0000 + 0xFFFB, values)
      <==> exists i :: 0 <= i < |values| && t == cluster * 0x1_0000 + values[i] % 0x1_0000
  {
    var typ := cluster * 0x1_0000 + 0xFFFB;
    PackUnpack(cluster, 0xFFFB, 0);
    assert ClusterOf(typ) == cluster;
    AskedByList(typ, values, t);
    assert forall i :: 0 <= i < |values| ==> Pack(cluster, values[i]) == cluster * 0x1_0000 + values[i] % 0x1_0000;
  }

  lemma {:induction false} ListParsed(before: Children, kind: ListKind, typ: nat, values: seq<U32>)
    requires values != []
    ensures var after := WithTypes(before, AllAsked(kind, typ, values))[typ := Some(IdListText(values))];
      && (forall t :: t in before && t != typ ==> t in after && after[t] == before[t])
      && (kind == ServerList && 6 in values ==> 0x0006_FFFB in after)
  {
    WithTypesKeeps(before, AllAsked(kind, typ, values));
    if kind == ServerList {
      ServerListAsksFor(typ, values);
    }
  }

  class EndpointNode {
    var children: Children

    constructor (children: Children)
      ensures this.children == children
    {
      this.children := children;
    }

    method EmplaceNode(typ: nat)
      modifies this
      ensures children == WithTypes(old(children), {typ})
    {
      if typ !in children {
        children := children[typ := None];
      }
      assert children == WithTypes(old(children), {typ});
    }

    method EmplaceGlobals(value: U32)
      requires IsClusterSupported(value)
      modifies this
      ensures children == WithTypes(old(children), Asked(ServerList, SERVER_LIST_TYPE, value))
    {
      ghost var before := children;
      var t0, t1, t2 := Pack(value, ATTRIBUTE_LIST), Pack(value, FEATURE_MAP), Pack(value, CLUSTER_REVISION);
      var t3, t4 := Pack(value, GENERATED_COMMAND_LIST), Pack(value, ACCEPTED_COMMAND_LIST);
      EmplaceNode(t0);
      EmplaceNode(t1);
      WithTypesTwice(before, {t0}, {t1});
      EmplaceNode(t2);
      WithTypesTwice(before, {t0} + {t1}, {t2});
      EmplaceNode(t3);
      WithTypesTwice(before, {t0} + {t1} + {t2}, {t3});
      EmplaceNode(t4);
      WithTypesTwice(before, {t0} + {t1} + {t2} + {t3}, {t4});
      assert {t0} + {t1} + {t2} + {t3} + {t4} == {t0, t1, t2, t3, t4};
    }

    method ServerListProcess(value: U32) returns (ok: bool)
      modifies this
      ensures ok <==> value == 6
      ensures ok ==> {0x0006_FFFB, 0x0006_FFFC, 0x0006_FFFD, 0x0006_FFF8, 0x0006_FFF9} <= children.Keys
      ensures children == WithTypes(old(children), Asked(ServerList, SERVER_LIST_TYPE, value))
    {
      if !IsClusterSupported(value) {
        return false;
      }
      EmplaceGlobals(value);
      return true;
    }

    method AttributeListProcess(typ: nat, value: U32)
      modifies this
      ensures children == WithTypes(old(children), Asked(AttributeList, typ, value))
    {
      var typeID := typ / WORD % WORD * WORD + value % WORD;
      EmplaceNode(typeID);
    }

    /** The callback that goes with the kind of list. */
    method Callback(kind: ListKind, typ: nat, value: U32)
      modifies this
      ensures children == WithTypes(old(children), Asked(kind, typ, value))
    {
      match kind {
        case PlainList => assert children == WithTypes(children, {});
        case ServerList => var ok := ServerListProcess(value);
        case AttributeList => AttributeListProcess(typ, value);
      }
    }

    /** `mpc_parse_decodablelist_attributes`, which must not be given an empty list. */
    method ParseList(kind: ListKind, typ: nat, values: seq<U32>)
      requires values != []
      modifies this
      ensures children == WithTypes(old(children), AllAsked(kind, typ, values))[typ := Some(IdListText(values))]
      ensures forall t :: t in old(children) && t != typ ==> t in children && children[t] == old(children)[t]
      ensures kind == ServerList && 6 in values ==> 0x0006_FFFB in children
    {
      var attrList := [];
      var i := 0;
      while i < |values|
        invariant i <= |values|
        invariant attrList == Terminated(Items(values[..i]))
        invariant children == WithTypes(old(children), AllAsked(kind, typ, values[..i]))
      {
        var value := values[i];
        OneMoreValue(kind, typ, values, i);
        Callback(kind, typ, value);
        WithTypesTwice(old(children), AllAsked(kind, typ, values[..i]), Asked(kind, typ, value));
        attrList := attrList + SignedDecimal(value) + [','];
        i := i + 1;
      }
      assert values[..i] == values;
      PopBackOfTerminated(Items(values));
      attrList := attrList[..|attrList| - 1];
      children := children[typ := Some(attrList)];
      ListParsed(old(children), kind, typ, values);
    }
  }

  // ---------- the completion check ----------

  /** The ids in a split list; `None` is an exception of `stoul`. */
  function ReadIds(tokens: seq<string>): seq<Option<nat>> {
    seq(|tokens|, i requires 0 <= i < |tokens| => Stoul(tokens[i]))
  }

  /** Whether every listed attribute from `j` on is reported; `None` is an unreadable id. */
  function AllReported(children: Children, cluster: nat, ids: seq<Option<nat>>, j: nat := 0): Option<bool>
    requires j <= |ids|
    decreases |ids| - j
  {
    if j == |ids| then Some(true)
    else if ids[j].None? then None
    else if IsReported(children, Pack(cluster, ids[j].value)) then AllReported(children, cluster, ids, j + 1)
    else Some(false)
  }

  /** The verdict on one server: `None` is an exception. A cluster id is 32 bits wide, so the 64-bit
      id that was read is truncated for the support test. */
  function ServerResolved(children: Children, id: Option<nat>): Option<bool> {
    if id.None? then None
    else if !IsClusterSupported(id.value % UINT32) then Some(false)
    else
      var listType := Pack(id.value, ATTRIBUTE_LIST);
      if !IsReported(children, listType) then None
      else AllReported(children, id.value, ReadIds(Split(children[listType].value, {','})))
  }

  /** A search that skips negative outcomes: the first other one decides, and `None`, an exception,
      ends it without a result. */
  function Decision(outcomes: seq<Option<bool>>, i: nat := 0): Option<bool>
    requires i <= |outcomes|
    decreases |outcomes| - i
  {
    if i == |outcomes| then Some(false)
    else if outcomes[i] == Some(false) then Decision(outcomes, i + 1)
    else outcomes[i]
  }

  function ServerOutcomes(children: Children, servers: seq<Option<nat>>): seq<Option<bool>> {
    seq(|servers|, i requires 0 <= i < |servers| => ServerResolved(children, servers[i]))
  }

  /** `mpc_attribute_resolver_check_app_cluster_resolution` of one endpoint. */
  function Resolved(children: Children): Option<bool> {
    if SERVER_LIST_TYPE !in children then Some(true)
    else match children[SERVER_LIST_TYPE]
      case None => None
      case Some(text) => Decision(ServerOutcomes(children, ReadIds(Split(text, {','}))))
  }

  /** The inner loop: whether every attribute on the list is reported. */
  method CheckAttributes(children: Children, cluster: nat, attrList: seq<string>) returns (r: Option<bool>)
    ensures r == AllReported(children, cluster, ReadIds(attrList))
  {
    ghost var ids := ReadIds(attrList);
    var j := 0;
    while j < |attrList|
      invariant j <= |attrList|
      invariant AllReported(children, cluster, ids) == AllReported(children, cluster, ids, j)
    {
      var attribute := Stoul(attrList[j]);
      if attribute.None? {
        return None;
      }
      if !IsReported(children, Pack(cluster, attribute.value)) {
        break;
      }
      j := j + 1;
    }
    return Some(j == |attrList|);
  }

  method CheckAppClusterResolution(children: Children) returns (r: Option<bool>)
    ensures r == Resolved(children)
  {
    if SERVER_LIST_TYPE !in children {
      return Some(true);
    }
    if children[SERVER_LIST_TYPE].None? {
      return None;
    }
    var serverList := Split(children[SERVER_LIST_TYPE].value, {','});
    ghost var outcomes := ServerOutcomes(children, ReadIds(serverList));
    var i := 0;
    while i < |serverList|
      invariant i <= |serverList|
      invariant Decision(outcomes) == Decision(outcomes, i)
    {
      var cluster := Stoul(serverList[i]);
      if cluster.None? {
        return None;
      }
      if IsClusterSupported(cluster.value % UINT32) {
        var clusterAttrListId := Pack(cluster.value, ATTRIBUTE_LIST);
        if !IsReported(children, clusterAttrListId) {
          return None;
        }
        var resolved := CheckAttributes(children, cluster.value, Split(children[clusterAttrListId].value, {','}));
        if resolved != Some(false) {
          return resolved;
        }
      }
      i := i + 1;
    }
    return Some(false);
  }

  function Outcomes(endpoints: seq<Children>): seq<Option<bool>> {
    seq(|endpoints|, i requires 0 <= i < |endpoints| => Resolved(endpoints[i]))
  }

  /** The verdict over all endpoints; an exception leaves NON_FUNCTIONAL. */
  predicate Functional(endpoints: seq<Children>) {
    Decision(Outcomes(endpoints)) == Some(true)
  }

  /** The loop of `mpc_attribute_resolver_resolution_completion`. */
  method CompletionVerdict(endpoints: seq<Children>) returns (functional: bool)
    ensures functional == Functional(endpoints)
  {
    functional := false;
    var i := 0;
    while i < |endpoints|
      invariant i <= |endpoints| && !functional
      invariant Decision(Outcomes(endpoints)) == Decision(Outcomes(endpoints), i)
    {
      var r := CheckAppClusterResolution(endpoints[i]);
      if r.None? {
        break;
      }
      if r.value {
        functional := true;
        break;
      }
      i := i + 1;
    }
  }

  // ---------- what the texts mean ----------

  /** A 32-bit id as the 64-bit value that its printed `int` is read back as. */
  function SignExtended(v: U32): (x: nat)
    ensures x % UINT32 == v && (x == v <==> v < INT32_LIMIT)
    ensures forall c :: Pack(c, x) == Pack(c, v) && Pack(x, c) == Pack(v, c)
  {
    SignExtension(v);
    AsInt(v) % UINT64
  }

  function Read(values: seq<U32>): (ids: seq<Option<nat>>)
  {
    seq(|values|, i requires 0 <= i < |values| => Some(SignExtended(values[i])))
  }

  /** A stored list reads back as the sign-extended values, in order. */
  lemma ReadBack(values: seq<U32>)
    requires values != []
    ensures ReadIds(Split(IdListText(values), {','})) == Read(values)
  {
    SplitOfJoined(Items(values));
    forall i | 0 <= i < |values|
      ensures Stoul(Items(values)[i]) == Some(SignExtended(values[i]))
    {
      StoulOfSignedDecimal(values[i]);
    }
  }

  /** The types that the completion check demands for a stored attribute list. */
  function Demanded(cluster: nat, ids: seq<Option<nat>>): set<nat> {
    set id <- ids | id.Some? :: Pack(cluster, id.value)
  }

  lemma {:induction false} AskedByList(typ: nat, values: seq<U32>, t: nat)
    ensures t in AllAsked(AttributeList, typ, values)
      <==> exists i :: 0 <= i < |values| && t == Pack(ClusterOf(typ), values[i])
  {
    if values != [] {
      AskedByList(typ, values[..|values| - 1], t);
    }
  }

  lemma {:induction false} DemandedByList(cluster: nat, values: seq<U32>, t: nat)
    ensures t in Demanded(cluster, Read(values)) <==> exists i :: 0 <= i < |values| && t == Pack(cluster, values[i])
  {
    var ids := Read(values);
    if i :| 0 <= i < |values| && t == Pack(cluster, values[i]) {
      assert ids[i] in ids && ids[i].Some?;
      assert Pack(cluster, ids[i].value) == t;
    }
    if t in Demanded(cluster, ids) {
      var id :| id in ids && id.Some? && t == Pack(cluster, id.value);
      var i :| 0 <= i < |ids| && ids[i] == id;
      assert Pack(cluster, SignExtended(values[i])) == Pack(cluster, values[i]);
    }
  }

  /** What is created is what is demanded: the attribute types that parsing creates are exactly those
      that the completion check reads back from the text, signs and 64-bit sign extension included. */
  lemma {:induction false} CreatedIsDemanded(cluster: nat, values: seq<U32>)
    requires values != []
    ensures AllAsked(AttributeList, Pack(cluster, ATTRIBUTE_LIST), values)
      == Demanded(cluster, ReadIds(Split(IdListText(values), {','})))
  {
    PackUnpack(cluster, ATTRIBUTE_LIST, 0);
    assert forall v :: Pack(cluster % WORD, v) == Pack(cluster, v);
    ReadBack(values);
    var listType := Pack(cluster, ATTRIBUTE_LIST);
    forall t
      ensures t in AllAsked(AttributeList, listType, values) <==> t in Demanded(cluster, Read(values))
    {
      AskedByList(listType, values, t);
      DemandedByList(cluster, values, t);
    }
  }

  predicate ReportedFrom(children: Children, cluster: nat, values: seq<U32>, j: nat)
    requires j <= |values|
    decreases |values| - j
  {
    j == |values| || (IsReported(children, Pack(cluster, values[j])) && ReportedFrom(children, cluster, values, j + 1))
  }

  lemma {:induction false} ReportedFromMeans(children: Children, cluster: nat, values: seq<U32>, j: nat)
    requires j <= |values|
    ensures ReportedFrom(children, cluster, values, j)
      <==> forall k :: j <= k < |values| ==> IsReported(children, Pack(cluster, values[k]))
    decreases |values| - j
  {
    if j < |values| {
      ReportedFromMeans(children, cluster, values, j + 1);
    }
  }

  lemma {:induction false} AllReportedMeans(children: Children, cluster: nat, values: seq<U32>, j: nat)
    requires j <= |values|
    ensures AllReported(children, cluster, Read(values), j) == Some(ReportedFrom(children, cluster, values, j))
    decreases |values| - j
  {
    if j < |values| {
      AllReportedMeans(children, cluster, values, j + 1);
    }
  }

  /** The lists that an interview reads are stored: the server list and, if the supported cluster is
      on it, that cluster's attribute list. */
  ghost predicate Stored(children: Children, servers: seq<U32>, attributes: seq<U32>) {
    && servers != [] && SERVER_LIST_TYPE in children && children[SERVER_LIST_TYPE] == Some(IdListText(servers))
    && (ON_OFF in servers ==> attributes != [] && Pack(ON_OFF, ATTRIBUTE_LIST) in children
                              && children[Pack(ON_OFF, ATTRIBUTE_LIST)] == Some(IdListText(attributes)))
  }

  ghost predicate AttributesReported(children: Children, attributes: seq<U32>) {
    forall k :: 0 <= k < |attributes| ==> IsReported(children, Pack(ON_OFF, attributes[k]))
  }

  lemma ServerMeans(children: Children, servers: seq<U32>, attributes: seq<U32>, i: nat)
    requires Stored(children, servers, attributes) && i < |servers|
    ensures ServerResolved(children, Read(servers)[i])
      == Some(servers[i] == ON_OFF && AttributesReported(children, attributes))
  {
    if servers[i] == ON_OFF {
      ReadBack(attributes);
      AllReportedMeans(children, ON_OFF, attributes, 0);
      ReportedFromMeans(children, ON_OFF, attributes, 0);
    }
  }

  lemma {:induction false} DecisionMeans(outcomes: seq<Option<bool>>, verdicts: seq<bool>, i: nat)
    requires i <= |verdicts| <= |outcomes|
    requires |verdicts| == |outcomes| || (i < |verdicts| && verdicts[|verdicts| - 1])
    requires forall k :: 0 <= k < |verdicts| ==> outcomes[k] == Some(verdicts[k])
    ensures Decision(outcomes, i).Some?
    ensures Decision(outcomes, i).value <==> exists k :: i <= k < |verdicts| && verdicts[k]
    decreases |outcomes| - i
  {
    if i < |verdicts| {
      assert outcomes[i] == Some(verdicts[i]);
      if !verdicts[i] {
        DecisionMeans(outcomes, verdicts, i + 1);
      }
    }
  }

  lemma ServersMean(children: Children, servers: seq<U32>, attributes: seq<U32>)
    requires Stored(children, servers, attributes)
    ensures Decision(ServerOutcomes(children, Read(servers)))
      == Some(ON_OFF in servers && AttributesReported(children, attributes))
  {
    var all := AttributesReported(children, attributes);
    var verdicts := seq(|servers|, k requires 0 <= k < |servers| => servers[k] == ON_OFF && all);
    forall k | 0 <= k < |servers|
      ensures ServerOutcomes(children, Read(servers))[k] == Some(verdicts[k])
    {
      ServerMeans(children, servers, attributes, k);
    }
    DecisionMeans(ServerOutcomes(children, Read(servers)), verdicts, 0);
    if ON_OFF in servers && all {
      var k :| 0 <= k < |servers| && servers[k] == ON_OFF;
      assert verdicts[k];
    }
  }

  /** One endpoint is resolved exactly when it lists the supported cluster and everything that
      parsing its attribute list created has been reported since. */
  lemma {:induction false} ResolvedIff(children: Children, servers: seq<U32>, attributes: seq<U32>)
    requires Stored(children, servers, attributes)
    ensures Resolved(children) == Some(ON_OFF in servers &&
      forall t :: t in AllAsked(AttributeList, Pack(ON_OFF, ATTRIBUTE_LIST), attributes) ==> IsReported(children, t))
  {
    ReadBack(servers);
    ServersMean(children, servers, attributes);
    PackUnpack(ON_OFF, ATTRIBUTE_LIST, 0);
    forall t
      ensures t in AllAsked(AttributeList, Pack(ON_OFF, ATTRIBUTE_LIST), attributes)
        <==> exists k :: 0 <= k < |attributes| && t == Pack(ON_OFF, attributes[k])
    {
      AskedByList(Pack(ON_OFF, ATTRIBUTE_LIST), attributes, t);
    }
  }

  /** The lists an endpoint was interviewed for; `None` for one without a server list. */
  datatype Interview = Interview(servers: seq<U32>, attributes: seq<U32>)

  ghost predicate Interviewed(children: Children, interview: Option<Interview>) {
    match interview
    case None => SERVER_LIST_TYPE !in children
    case Some(lists) => Stored(children, lists.servers, lists.attributes)
  }

  ghost predicate Complete(children: Children, interview: Option<Interview>) {
    interview.Some? ==> ON_OFF in interview.value.servers && AttributesReported(children, interview.value.attributes)
  }

  lemma {:induction false} EndpointVerdict(children: Children, interview: Option<Interview>)
    requires Interviewed(children, interview)
    ensures Resolved(children) == Some(Complete(children, interview))
  {
    if interview.Some? {
      var lists := interview.value;
      ReadBack(lists.servers);
      ServersMean(children, lists.servers, lists.attributes);
    }
  }

  /** The interviews of the endpoints that the verdict reads: of all, or of all up to a complete one. */
  ghost predicate Decisive(endpoints: seq<Children>, interviews: seq<Option<Interview>>) {
    && |interviews| <= |endpoints|
    && (forall k :: 0 <= k < |interviews| ==> Interviewed(endpoints[k], interviews[k]))
    && (|interviews| == |endpoints|
        || (interviews != [] && Complete(endpoints[|interviews| - 1], interviews[|interviews| - 1])))
  }

  /** Which of those endpoints are complete. */
  ghost function Verdicts(endpoints: seq<Children>, interviews: seq<Option<Interview>>): (verdicts: seq<bool>)
    requires |interviews| <= |endpoints|
    ensures |verdicts| == |interviews|
    ensures forall k :: 0 <= k < |interviews| ==> verdicts[k] == Complete(endpoints[k], interviews[k])
  {
    seq(|interviews|, k requires 0 <= k < |interviews| => Complete(endpoints[k], interviews[k]))
  }

  lemma {:induction false} OutcomeMeans(endpoints: seq<Children>, interviews: seq<Option<Interview>>, k: nat)
    requires Decisive(endpoints, interviews) && k < |interviews|
    ensures Outcomes(endpoints)[k] == Some(Complete(endpoints[k], interviews[k]))
  {
    EndpointVerdict(endpoints[k], interviews[k]);
  }

  /** The outcomes begin with these verdicts, and the search does not go beyond them. */
  ghost predicate Agree(outcomes: seq<Option<bool>>, verdicts: seq<bool>) {
    && |verdicts| <= |outcomes|
    && (forall k :: 0 <= k < |verdicts| ==> outcomes[k] == Some(verdicts[k]))
    && (|verdicts| == |outcomes| || (verdicts != [] && verdicts[|verdicts| - 1]))
  }

  lemma {:induction false} OutcomesAgree(endpoints: seq<Children>, interviews: seq<Option<Interview>>)
    requires Decisive(endpoints, interviews)
    ensures Agree(Outcomes(endpoints), Verdicts(endpoints, interviews))
  {
    var outcomes, verdicts := Outcomes(endpoints), Verdicts(endpoints, interviews);
    forall k | 0 <= k < |verdicts|
      ensures outcomes[k] == Some(verdicts[k])
    {
      OutcomeMeans(endpoints, interviews, k);
    }
  }

  lemma {:induction false} AgreedDecision(outcomes: seq<Option<bool>>, verdicts: seq<bool>)
    requires Agree(outcomes, verdicts)
    ensures Decision(outcomes) == Some(true) <==> true in verdicts
  {
    DecisionMeans(outcomes, verdicts, 0);
  }

  /** The verdict: FUNCTIONAL exactly when some endpoint that is read has no server list, or lists the
      supported cluster with every attribute on its list reported. */
  lemma {:induction false} VerdictIff(endpoints: seq<Children>, interviews: seq<Option<Interview>>)
    requires Decisive(endpoints, interviews)
    ensures Functional(endpoints) <==> exists k :: 0 <= k < |interviews| && Complete(endpoints[k], interviews[k])
  {
    var verdicts := Verdicts(endpoints, interviews);
    OutcomesAgree(endpoints, interviews);
    AgreedDecision(Outcomes(endpoints), verdicts);
    if k :| 0 <= k < |interviews| && Complete(endpoints[k], interviews[k]) {
      assert verdicts[k];
    }
  }

  // ---------- from the lists to the check ----------

  /** After parsing a server list with the supported cluster, and until the device reports its attribute
      list, the completion check of the endpoint ends in an exception. */
  lemma {:induction false} UnreadListThrows(children: Children, servers: seq<U32>)
    requires servers != [] && 6 in servers
    requires 0x001D_0001 in children && children[0x001D_0001] == Some(IdListText(servers))
    requires !IsReported(children, 0x0006_FFFB)
    ensures Resolved(children).None?
  {
    ReadBack(servers);
    var outcomes := ServerOutcomes(children, Read(servers));
    forall k | 0 <= k < |servers|
      ensures outcomes[k] == if servers[k] == 6 then None else Some(false)
    {
      var id := SignExtended(servers[k]);
      assert id % UINT32 == servers[k];
    }
    var k :| 0 <= k < |servers| && servers[k] == 6;
    DecisionThrows(outcomes, 0, k);
  }

  /** So does an endpoint whose server list was not reported. */
  lemma UnreadServersThrow(children: Children)
    requires 0x001D_0001 in children && children[0x001D_0001].None?
    ensures Resolved(children).None?
  {}

  lemma {:induction false} DecisionThrows(outcomes: seq<Option<bool>>, i: nat, k: nat)
    requires i <= k < |outcomes| && outcomes[k].None?
    requires forall j :: i <= j < k ==> outcomes[j] in {None, Some(false)}
    ensures Decision(outcomes, i).None?
    decreases k - i
  {
    if outcomes[i] == Some(false) {
      DecisionThrows(outcomes, i + 1, k);
    }
  }

  /** An exception at an endpoint behind incomplete ones makes the device NON_FUNCTIONAL, even if a
      later endpoint is complete. */
  lemma {:induction false} ThrowingEndpointDecides(endpoints: seq<Children>, interviews: seq<Option<Interview>>)
    requires |interviews| < |endpoints| && Resolved(endpoints[|interviews|]).None?
    requires forall k :: 0 <= k < |interviews| ==>
      Interviewed(endpoints[k], interviews[k]) && !Complete(endpoints[k], interviews[k])
    ensures !Functional(endpoints)
  {
    var outcomes := Outcomes(endpoints);
    forall k | 0 <= k < |interviews|
      ensures outcomes[k] == Some(false)
    {
      EndpointVerdict(endpoints[k], interviews[k]);
    }
    DecisionThrows(outcomes, 0, |interviews|);
  }
}
