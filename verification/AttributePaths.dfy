/** Attribute types pack a 16-bit cluster id over a 16-bit attribute id. Reads and subscriptions
    unpack a type into a path; reports pack the path again and look the attribute up. */
module AttributePaths {
  import opened Wrappers
  import opened Identity

  const WORD := 0x1_0000

  /** `((cluster & 0xFFFF) << 16) | (attribute & 0xFFFF)`. */
  function Pack(cluster: nat, attribute: nat): (t: nat)
    ensures t < WORD * WORD
  {
    cluster % WORD * WORD + attribute % WORD
  }

  function ClusterOf(t: nat): nat {
    t / WORD % WORD
  }

  function AttributeOf(t: nat): nat {
    t % WORD
  }

  /** Packing keeps the low 16 bits of both ids, and unpacking a 32-bit type loses nothing. */
  lemma PackUnpack(cluster: nat, attribute: nat, t: nat)
    ensures ClusterOf(Pack(cluster, attribute)) == cluster % WORD
    ensures AttributeOf(Pack(cluster, attribute)) == attribute % WORD
    ensures t < WORD * WORD ==> Pack(ClusterOf(t), AttributeOf(t)) == t
  {}

  datatype Attribute = Attribute(handle: nat, typ: nat)
  datatype Endpoint = Endpoint(id: nat, attributes: seq<Attribute>)
  datatype Path = Path(endpoint: nat, cluster: nat, attribute: nat)

  function PathOf(endpoint: nat, typ: nat): Path {
    Path(endpoint, ClusterOf(typ), AttributeOf(typ))
  }

  /** The frame of a read request, filled field by field. */
  datatype Frame = Frame(attributeId: nat, clusterId: nat, endpoint: nat, nodeId: nat)

  /** `mpc_resolver_get_rule`: the frame packs back to the attribute's type and goes to the first
      identity of its node; it fails when the network list cannot be read. */
  method GetRule(endpoint: nat, typ: nat, list: NetworkList) returns (frame: Option<Frame>)
    requires typ < WORD * WORD
    ensures frame.Some? <==> list.Reported? && NodeIdOf(list.text).Some?
    ensures frame.Some? ==> Pack(frame.value.clusterId, frame.value.attributeId) == typ
    ensures frame.Some? ==> frame.value.endpoint == endpoint && NodeIdOf(list.text) == Some(frame.value.nodeId)
  {
    var f := Frame(0, 0, 0, 0);
    f := f.(attributeId := typ % WORD);
    f := f.(clusterId := typ / WORD);
    f := f.(endpoint := endpoint);
    if !list.Reported? {
      return None;
    }
    var nodeId := NodeIdOf(list.text);
    if nodeId.None? {
      return None;
    }
    return Some(f.(nodeId := nodeId.value));
  }

  /** `mpc_parts_list_process`, once per listed part: an endpoint is added, never looked up first. */
  function AddParts(tree: seq<Endpoint>, parts: seq<nat>): seq<Endpoint> {
    if parts == [] then tree
    else AddParts(tree, parts[..|parts| - 1]) + [Endpoint(parts[|parts| - 1] % WORD, [])]
  }

  function Ids(tree: seq<Endpoint>): seq<nat> {
    seq(|tree|, i requires 0 <= i < |tree| => tree[i].id)
  }

  function Types(attributes: seq<Attribute>): seq<nat> {
    seq(|attributes|, j requires 0 <= j < |attributes| => attributes[j].typ)
  }

  /** Where `OnAttributeData` puts a report: the first endpoint with the id, then its first child of
      the packed type. */
  function Locate(tree: seq<Endpoint>, path: Path): Option<nat> {
    var i := Position(Ids(tree), path.endpoint);
    if i == |tree| then None
    else
      var j := Position(Types(tree[i].attributes), Pack(path.cluster, path.attribute));
      if j == |tree[i].attributes| then None else Some(tree[i].attributes[j].handle)
  }

  ghost predicate HandlesDistinct(tree: seq<Endpoint>) {
    forall i, j, k, l ::
      0 <= i < |tree| && 0 <= j < |tree[i].attributes| && 0 <= k < |tree| && 0 <= l < |tree[k].attributes|
      ==> tree[i].attributes[j].handle == tree[k].attributes[l].handle ==> i == k && j == l
  }

  ghost predicate FirstOfItsKind(tree: seq<Endpoint>, i: nat, j: nat)
    requires i < |tree| && j < |tree[i].attributes|
  {
    tree[i].id !in Ids(tree)[..i] && tree[i].attributes[j].typ !in Types(tree[i].attributes)[..j]
  }

  lemma PositionIsFirst(xs: seq<nat>, i: nat)
    requires i < |xs|
    ensures Position(xs, xs[i]) == i <==> xs[i] !in xs[..i]
    ensures Position(xs, xs[i]) <= i
  {
    var p := Position(xs, xs[i]);
    assert forall k :: 0 <= k < p ==> xs[..p][k] == xs[k];
    assert p < i ==> xs[..i][p] == xs[i];
  }

  /** A report for the path built from an attribute comes home to that very attribute exactly when
      no earlier endpoint has the same id and no earlier attribute of the endpoint the same type. */
  lemma ReportsComeHome(tree: seq<Endpoint>, i: nat, j: nat)
    requires HandlesDistinct(tree) && i < |tree| && j < |tree[i].attributes|
    requires tree[i].attributes[j].typ < WORD * WORD
    ensures Locate(tree, PathOf(tree[i].id, tree[i].attributes[j].typ)) == Some(tree[i].attributes[j].handle)
      <==> FirstOfItsKind(tree, i, j)
  {
    var t := tree[i].attributes[j].typ;
    PackUnpack(0, 0, t);
    var ids, types := Ids(tree), Types(tree[i].attributes);
    assert ids[i] == tree[i].id && types[j] == t;
    PositionIsFirst(ids, i);
    PositionIsFirst(types, j);
  }

  lemma {:induction false} AddedIds(tree: seq<Endpoint>, parts: seq<nat>)
    ensures |AddParts(tree, parts)| == |tree| + |parts|
    ensures AddParts(tree, parts)[..|tree|] == tree
    ensures forall k :: 0 <= k < |parts| ==> AddParts(tree, parts)[|tree| + k].id == parts[k] % WORD
  {
    if parts != [] {
      AddedIds(tree, parts[..|parts| - 1]);
    }
  }

  ghost predicate IdsDistinct(tree: seq<Endpoint>) {
    forall i, k :: 0 <= i < k < |tree| ==> tree[i].id != tree[k].id
  }

  ghost predicate NewParts(tree: seq<Endpoint>, parts: seq<nat>) {
    && (forall i, k :: 0 <= i < k < |parts| ==> parts[i] % WORD != parts[k] % WORD)
    && (forall i, k :: 0 <= i < |tree| && 0 <= k < |parts| ==> tree[i].id != parts[k] % WORD)
  }

  /** The endpoint ids stay distinct exactly when the parts list names new 16-bit ids, each once: a
      parts list that is read twice adds every endpoint twice, and the second ones get no reports. */
  lemma PartsStayDistinct(tree: seq<Endpoint>, parts: seq<nat>)
    requires IdsDistinct(tree)
    ensures IdsDistinct(AddParts(tree, parts)) <==> NewParts(tree, parts)
  {
    AddedIds(tree, parts);
    var all := AddParts(tree, parts);
    assert forall i :: 0 <= i < |tree| ==> all[i] == tree[i];
    assert forall k :: |tree| <= k < |all| ==> all[k].id == parts[k - |tree|] % WORD;
    assert forall k :: 0 <= k < |parts| ==> parts[k] % WORD == all[|tree| + k].id;
  }
}
