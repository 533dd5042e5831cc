/** Matter identities as the attribute store keeps them: a network list is the text
    `fabric:node[,fabric:node...]`. Several functions write it and several others read it back. */
module Identity {
  import opened Wrappers
  import opened Text

  datatype Id = Id(fabric: U64, node: U64)

  /** A network-list entry: compressed fabric id, colon, node id. */
  function Entry(id: Id): (s: string)
    ensures Free(s, {','}) && ':' in s
  {
    Decimal(id.fabric) + [':'] + Decimal(id.node)
  }

  function Entries(ids: seq<Id>): (items: seq<string>)
    ensures |items| == |ids|
    ensures forall i :: 0 <= i < |ids| ==> items[i] == Entry(ids[i])
  {
    if ids == [] then [] else Entries(ids[..|ids| - 1]) + [Entry(ids[|ids| - 1])]
  }

  /** `text.erase(0, text.find(":") + 1)`; without a colon `npos + 1` is 0 and nothing is erased. */
  function AfterColon(text: string): string {
    if ':' !in text then text
    else if text[0] == ':' then text[1..] else AfterColon(text[1..])
  }

  /** The Matter node id that every reader extracts from a network list. */
  function NodeIdOf(text: string): Option<nat> {
    Stoul(AfterColon(text))
  }

  /** A text without a colon is read from its start. */
  lemma ColonlessIsRead(text: string)
    requires ':' !in text
    ensures NodeIdOf(text) == Stoul(text)
  {}

  lemma {:induction false} AfterColonSkips(a: string, rest: string)
    requires Free(a, {':'})
    ensures AfterColon(a + [':'] + rest) == rest
  {
    var text := a + [':'] + rest;
    assert text[|a|] == ':';
    if a == [] {
      assert text[1..] == rest;
    } else {
      assert text[0] == a[0] != ':';
      assert text[1..] == a[1..] + [':'] + rest;
      AfterColonSkips(a[1..], rest);
    }
  }

  /** Whatever other entries follow, the extracted node id is that of the first entry. */
  lemma NodeIdOfFirst(id: Id, rest: string)
    requires rest != [] ==> rest[0] == ','
    ensures NodeIdOf(Entry(id) + rest) == Some(id.node)
  {
    assert Entry(id) + rest == Decimal(id.fabric) + [':'] + (Decimal(id.node) + rest);
    AfterColonSkips(Decimal(id.fabric), Decimal(id.node) + rest);
    StoulOfDecimal(id.node, rest);
  }

  lemma EntrySplits(id: Id)
    ensures Split(Entry(id), {':', ','}) == [Decimal(id.fabric), Decimal(id.node)]
  {
    SplitAt(Decimal(id.fabric), ':', Decimal(id.node), {':', ','});
    SplitFree(Decimal(id.fabric), {':', ','});
    SplitFree(Decimal(id.node), {':', ','});
  }

  lemma EntryInjective(a: Id, b: Id)
    requires Entry(a) == Entry(b)
    ensures a == b
  {
    EntrySplits(a);
    EntrySplits(b);
    assert Split(Entry(a), {':', ','})[0] == Split(Entry(b), {':', ','})[0];
    assert Split(Entry(a), {':', ','})[1] == Split(Entry(b), {':', ','})[1];
    NumberOfDecimal(a.fabric);
    NumberOfDecimal(b.fabric);
    NumberOfDecimal(a.node);
    NumberOfDecimal(b.node);
  }

  // ---------- network lists of several entries ----------

  function ListText(ids: seq<Id>): string
    requires ids != []
  {
    Joined(Entries(ids))
  }

  /** A list text holds exactly the entries it was built from, and yields the first one's node id. */
  lemma {:induction false} ListTextHolds(ids: seq<Id>, id: Id)
    requires ids != []
    ensures Split(ListText(ids), {','}) == Entries(ids)
    ensures Entry(id) in Split(ListText(ids), {','}) <==> id in ids
    ensures NodeIdOf(ListText(ids)) == Some(ids[0].node)
  {
    SplitOfJoined(Entries(ids));
    forall k | 0 <= k < |ids| && Entries(ids)[k] == Entry(id)
      ensures ids[k] == id
    {
      EntryInjective(ids[k], id);
    }
    if id in ids {
      var k :| 0 <= k < |ids| && ids[k] == id;
      assert Entries(ids)[k] == Entry(id);
    }
    var rest := JoinedStarts(Entries(ids));
    NodeIdOfFirst(ids[0], rest);
  }

  // ---------- searching the registry for an entry ----------

  /** The network-list child of a registry node: absent, present without a value, or a text. */
  datatype NetworkList = Missing | Unreported | Reported(text: string)

  predicate HasEntry(list: NetworkList, entry: string) {
    list.Reported? && entry in Split(list.text, {','})
  }

  /** `Failed` stands for the exception that reading an unreported list throws. */
  datatype Lookup = NotFound | Found(index: nat) | Failed(index: nat)

  /** The first list from `i` on that holds the entry or cannot be read. */
  function Find(lists: seq<NetworkList>, entry: string, i: nat := 0): (r: Lookup)
    requires i <= |lists|
    ensures r.Found? ==> i <= r.index < |lists| && HasEntry(lists[r.index], entry)
    ensures r.Failed? ==> i <= r.index < |lists| && lists[r.index].Unreported?
    ensures forall j :: i <= j < (if r.NotFound? then |lists| else r.index) ==>
      !HasEntry(lists[j], entry) && !lists[j].Unreported?
    decreases |lists| - i
  {
    if i == |lists| then NotFound
    else if lists[i].Unreported? then Failed(i)
    else if HasEntry(lists[i], entry) then Found(i)
    else Find(lists, entry, i + 1)
  }

  /** The registry node of a Matter peer, or `None` on failure. `fabrics` is the fabric table, index to
      compressed fabric id; the code follows the entry it finds there without a test. */
  method UnidFromPeer(lists: seq<NetworkList>, fabrics: map<nat, U64>, index: nat, node: U64)
    returns (unid: Option<nat>)
    requires index in fabrics
    ensures unid == match Find(lists, Entry(Id(fabrics[index], node))) case Found(i) => Some(i) case _ => None
  {
    var networkItem := Decimal(fabrics[index]) + [':'] + Decimal(node);
    var i := 0;
    while i < |lists|
      invariant i <= |lists|
      invariant Find(lists, networkItem) == Find(lists, networkItem, i)
    {
      match lists[i] {
        case Missing =>
        case Unreported =>
          return None;
        case Reported(text) =>
          var networkItems := Split(text, {','});
          var found := false;
          var j := 0;
          while j < |networkItems|
            invariant j <= |networkItems|
            invariant !found && networkItem !in networkItems[..j]
          {
            if networkItems[j] == networkItem {
              found := true;
              break;
            }
            j := j + 1;
          }
          if found {
            return Some(i);
          }
      }
      i := i + 1;
    }
    return None;
  }

  /** The registry in which node `i` carries the identities `ids[i]`. */
  ghost predicate Registers(lists: seq<NetworkList>, ids: seq<seq<Id>>) {
    && |lists| == |ids|
    && (forall i :: 0 <= i < |ids| ==> lists[i] == if ids[i] == [] then Missing else Reported(ListText(ids[i])))
  }

  ghost predicate NoSharedIdentity(ids: seq<seq<Id>>) {
    forall i, j, id :: 0 <= i < |ids| && 0 <= j < |ids| && id in ids[i] && id in ids[j] ==> i == j
  }

  lemma {:induction false} HoldsIffRegistered(lists: seq<NetworkList>, ids: seq<seq<Id>>, peer: Id, j: nat)
    requires Registers(lists, ids) && j < |ids|
    ensures HasEntry(lists[j], Entry(peer)) <==> peer in ids[j]
    ensures !lists[j].Unreported?
  {
    if ids[j] != [] {
      ListTextHolds(ids[j], peer);
    }
  }

  /** Peer lookup finds exactly the node that carries the identity. */
  lemma {:induction false} LookupFindsOwner(lists: seq<NetworkList>, ids: seq<seq<Id>>, peer: Id, i: nat)
    requires Registers(lists, ids) && NoSharedIdentity(ids) && i < |ids|
    ensures Find(lists, Entry(peer)) == Found(i) <==> peer in ids[i]
  {
    HoldsIffRegistered(lists, ids, peer, i);
    var r := Find(lists, Entry(peer));
    if !r.NotFound? {
      HoldsIffRegistered(lists, ids, peer, r.index);
    }
  }

  /** Looking up a peer's node and extracting that node's Matter id undo each other exactly when
      the peer is the node's first identity (or shares its node id): always, when every node
      carries one entry. */
  lemma {:induction false} LookupExtractInverse(lists: seq<NetworkList>, ids: seq<seq<Id>>, peer: Id, i: nat)
    requires Registers(lists, ids) && NoSharedIdentity(ids) && i < |ids| && peer in ids[i]
    ensures Find(lists, Entry(peer)) == Found(i)
    ensures NodeIdOf(lists[i].text) == Some(peer.node) <==> ids[i][0].node == peer.node
    ensures |ids[i]| == 1 ==> NodeIdOf(lists[i].text) == Some(peer.node)
  {
    LookupFindsOwner(lists, ids, peer, i);
    assert lists[i] == Reported(ListText(ids[i]));
    ListTextHolds(ids[i], peer);
  }

  // ---------- the substring match of the fabric-removal search ----------

  predicate IsSuffix(a: string, b: string) {
    |a| <= |b| && b[|b| - |a|..] == a
  }

  lemma OccurrenceAligns(pf: string, pn: string, wf: string, wn: string, i: nat)
    requires Free(pf, {':'}) && Free(wf, {':'}) && Free(wn, {':'})
    requires OccursAt(wf + [':'] + wn, pf + [':'] + pn, i)
    ensures IsSuffix(pf, wf) && pn <= wn
  {
    var text, part := wf + [':'] + wn, pf + [':'] + pn;
    var cut := text[i..i + |part|];
    assert cut[|pf|] == text[i + |pf|];
    assert i + |pf| == |wf|;
    assert wf[i..] == cut[..|pf|];
    assert wn[..|pn|] == cut[|pf| + 1..];
  }

  lemma AlignedOccurs(pf: string, pn: string, wf: string, wn: string)
    requires IsSuffix(pf, wf) && pn <= wn
    ensures Contains(wf + [':'] + wn, pf + [':'] + pn)
  {
    var text, part, i := wf + [':'] + wn, pf + [':'] + pn, |wf| - |pf|;
    assert text[i..i + |part|] == wf[i..] + [':'] + wn[..|pn|];
    assert OccursAt(text, part, i);
  }

  /** `find` takes one entry for another exactly when the fabric ids agree at the end and the node
      ids at the start: node 1 is found in the entry of node 12 of the same fabric. */
  lemma EntryOccursIn(part: Id, whole: Id)
    ensures Contains(Entry(whole), Entry(part))
      <==> IsSuffix(Decimal(part.fabric), Decimal(whole.fabric)) && Decimal(part.node) <= Decimal(whole.node)
  {
    var pf, pn, wf, wn := Decimal(part.fabric), Decimal(part.node), Decimal(whole.fabric), Decimal(whole.node);
    if i: nat :| OccursAt(Entry(whole), Entry(part), i) {
      OccurrenceAligns(pf, pn, wf, wn, i);
    }
    if IsSuffix(pf, wf) && pn <= wn {
      AlignedOccurs(pf, pn, wf, wn);
    }
  }
}
