/** Whether a device supports a command or a cluster, tested on the stored list texts. */
module CommandSupport {
  import opened Wrappers
  import opened Text
  import opened AttributePaths
  import opened ClusterLists

  datatype SlStatus = Ok | Fail

  /** The stored accepted-command list of a cluster: absent, unreported, or a text. */
  function AcceptedList(children: Children, cluster: nat): Option<Option<string>> {
    var list := Pack(cluster, ACCEPTED_COMMAND_LIST);
    if list in children then Some(children[list]) else None
  }

  /** The command's decimal digits occur in the printed form of some listed id. */
  ghost predicate DigitsIn(ids: seq<U32>, command: U32) {
    exists k :: 0 <= k < |ids| && Contains(SignedDecimal(ids[k]), Decimal(command))
  }

  predicate OnOffOnly(ids: seq<U32>) {
    forall k :: 0 <= k < |ids| ==> ids[k] in ON_OFF_COMMANDS
  }

  /** `check_cluster_support_for_node` at an endpoint; `None` is the exception of an unreported list.
      On a stored list of ids a command is accepted exactly when its digits occur in a listed id, which
      for the OnOff commands is membership. */
  method CheckClusterSupport(children: Children, cluster: nat, command: U32) returns (r: Option<SlStatus>)
    ensures r.None? <==> AcceptedList(children, cluster).Some? && AcceptedList(children, cluster).value.None?
    ensures AcceptedList(children, cluster).None? ==> r == Some(Fail)
    ensures forall text :: AcceptedList(children, cluster) == Some(Some(text)) ==>
      (r == Some(Ok) <==> Contains(text, Decimal(command)))
    ensures forall ids :: ids != [] && AcceptedList(children, cluster) == Some(Some(IdListText(ids))) ==>
      && (r == Some(Ok) <==> DigitsIn(ids, command))
      && (OnOffOnly(ids) && command in ON_OFF_COMMANDS ==> (r == Some(Ok) <==> command in ids))
  {
    SubstringTests(command);
    var typ := cluster % WORD * WORD + ACCEPTED_COMMAND_LIST;
    if typ !in children {
      return Some(Fail);
    }
    if children[typ].None? {
      return None;
    }
    if Contains(children[typ].value, Decimal(command)) {
      return Some(Ok);
    }
    return Some(Fail);
  }

  /** On a stored list the substring test accepts a command exactly when its decimal digits occur in
      the printed form of some listed id. */
  lemma {:induction false} SubstringTest(ids: seq<U32>, command: U32)
    requires ids != []
    ensures Contains(IdListText(ids), Decimal(command)) <==> DigitsIn(ids, command)
  {
    ContainsInJoined(Items(ids), Decimal(command));
    assert forall k :: 0 <= k < |ids| ==> Items(ids)[k] == SignedDecimal(ids[k]);
  }

  lemma ShortParts(text: string, part: string)
    requires part != []
    ensures |part| > |text| ==> !Contains(text, part)
    ensures |part| == |text| ==> (Contains(text, part) <==> text == part)
    ensures |part| == 1 ==> (Contains(text, part) <==> part[0] in text)
  {
    if |part| == |text| {
      assert OccursAt(text, text, 0);
    }
    if |part| == 1 && part[0] in text {
      var i :| 0 <= i < |text| && text[i] == part[0];
      assert OccursAt(text, part, i);
    }
    if |part| == 1 && Contains(text, part) {
      var i :| 0 <= i <= |text| && OccursAt(text, part, i);
      assert text[i] == text[i..i + 1][0];
    }
  }

  lemma {:induction false} LongerIfLarger(a: nat, b: nat)
    requires a <= b
    ensures |Decimal(a)| <= |Decimal(b)|
  {
    if a >= 10 {
      LongerIfLarger(a / 10, b / 10);
    }
  }

  /** The digits of a larger number do not occur in those of a smaller one. */
  lemma LargerDoesNotOccur(small: nat, large: nat)
    requires small < large
    ensures !Contains(Decimal(small), Decimal(large))
  {
    LongerIfLarger(small, large);
    ShortParts(Decimal(small), Decimal(large));
    NumberOfDecimal(small);
    NumberOfDecimal(large);
  }

  lemma SignDoesNotMatter(n: nat, part: string)
    requires part != [] && '-' !in part
    ensures Contains(['-'] + Decimal(n), part) <==> Contains(Decimal(n), part)
  {
    ContainsAt([], '-', Decimal(n), part);
    assert [] + ['-'] + Decimal(n) == ['-'] + Decimal(n);
    ShortParts([], part);
  }

  /** No listed id, printed as an `int`, shows a number above 2^31. */
  lemma NothingAboveSign(id: U32, command: U32)
    requires command > INT32_LIMIT
    ensures !Contains(SignedDecimal(id), Decimal(command))
  {
    if AsInt(id) < 0 {
      SignDoesNotMatter(-AsInt(id), Decimal(command));
      LargerDoesNotOccur(-AsInt(id), command);
    } else {
      LargerDoesNotOccur(AsInt(id), command);
    }
  }

  lemma OccursInItself(command: U32)
    requires command <= INT32_LIMIT
    ensures Contains(SignedDecimal(command), Decimal(command))
  {
    assert OccursAt(Decimal(command), Decimal(command), 0);
    if command == INT32_LIMIT {
      SignDoesNotMatter(command, Decimal(command));
    }
  }

  /** So a listed command is accepted exactly up to 2^31: a larger one was printed with a sign, as a
      smaller number. */
  lemma {:induction false} ListedIsAccepted(ids: seq<U32>, command: U32)
    requires command in ids
    ensures Contains(IdListText(ids), Decimal(command)) <==> command <= INT32_LIMIT
  {
    SubstringTest(ids, command);
    if command <= INT32_LIMIT {
      var k :| 0 <= k < |ids| && ids[k] == command;
      OccursInItself(command);
      assert Contains(SignedDecimal(ids[k]), Decimal(command));
    } else {
      forall k | 0 <= k < |ids|
        ensures !Contains(SignedDecimal(ids[k]), Decimal(command))
      {
        NothingAboveSign(ids[k], command);
      }
    }
  }

  /** The commands of the OnOff cluster. */
  const ON_OFF_COMMANDS: seq<U32> := [0, 1, 2, 64, 65, 66]

  lemma OnOffTexts(id: U32)
    requires id in ON_OFF_COMMANDS
    ensures SignedDecimal(id) == Decimal(id)
    ensures id < 10 ==> Decimal(id) == ['0' + id as char]
    ensures id >= 10 ==> Decimal(id) == ['6', '0' + (id - 60) as char]
  {
    if id >= 10 {
      assert id / 10 == 6 && id % 10 == id - 60;
      assert Decimal(6) == ['6'];
    }
  }

  lemma OnOffPair(id: U32, command: U32)
    requires id in ON_OFF_COMMANDS && command in ON_OFF_COMMANDS
    ensures Contains(SignedDecimal(id), Decimal(command)) <==> id == command
  {
    OnOffTexts(id);
    OnOffTexts(command);
    ShortParts(Decimal(id), Decimal(command));
    if id >= 10 && command >= 10 {
      assert Decimal(id) == Decimal(command) <==> Decimal(id)[1] == Decimal(command)[1];
    }
  }

  /** For lists over the OnOff commands the substring test is exact membership, whatever the length
      and order of the list. */
  lemma {:induction false} OnOffTestIsExact(ids: seq<U32>, command: U32)
    requires ids != [] && command in ON_OFF_COMMANDS && OnOffOnly(ids)
    ensures Contains(IdListText(ids), Decimal(command)) <==> command in ids
  {
    SubstringTest(ids, command);
    forall k | 0 <= k < |ids|
      ensures Contains(SignedDecimal(ids[k]), Decimal(command)) <==> ids[k] == command
    {
      OnOffPair(ids[k], command);
    }
  }

  lemma SubstringTests(command: U32)
    ensures forall ids :: ids != [] ==> (Contains(IdListText(ids), Decimal(command)) <==> DigitsIn(ids, command))
    ensures forall ids :: ids != [] && OnOffOnly(ids) && command in ON_OFF_COMMANDS ==>
      (Contains(IdListText(ids), Decimal(command)) <==> command in ids)
  {
    forall ids: seq<U32> | ids != []
      ensures Contains(IdListText(ids), Decimal(command)) <==> DigitsIn(ids, command)
      ensures OnOffOnly(ids) && command in ON_OFF_COMMANDS ==>
        (Contains(IdListText(ids), Decimal(command)) <==> command in ids)
    {
      SubstringTest(ids, command);
      if OnOffOnly(ids) && command in ON_OFF_COMMANDS {
        OnOffTestIsExact(ids, command);
      }
    }
  }

  /** Beyond them it is not: a list of command 64 alone accepts command 6. */
  lemma AcceptsUnlisted()
    ensures Contains(IdListText([64]), Decimal(6))
  {
    OnOffTexts(64);
    assert Items([64]) == [SignedDecimal(64)];
    assert IdListText([64])[0..1] == Decimal(6);
    assert OccursAt(IdListText([64]), Decimal(6), 0);
  }

  // ---------- cluster support ----------

  /** The outcome for one listed server: `stoul` against the 32-bit cluster id, untruncated. */
  function ServerMatches(id: Option<nat>, cluster: U32): Option<bool> {
    if id.None? then None else Some(id.value == cluster)
  }

  function MatchOutcomes(ids: seq<Option<nat>>, cluster: U32): seq<Option<bool>> {
    seq(|ids|, i requires 0 <= i < |ids| => ServerMatches(ids[i], cluster))
  }

  /** `check_endpoint_support_for_node`; `None` is an exception. */
  function EndpointSupport(children: Children, cluster: U32): Option<bool> {
    if SERVER_LIST_TYPE !in children then Some(true)
    else match children[SERVER_LIST_TYPE]
      case None => None
      case Some(text) => Decision(MatchOutcomes(ReadIds(Split(text, {','})), cluster))
  }

  method CheckEndpointSupport(children: Children, cluster: U32) returns (r: Option<bool>)
    ensures r == EndpointSupport(children, cluster)
  {
    if SERVER_LIST_TYPE !in children {
      return Some(true);
    }
    if children[SERVER_LIST_TYPE].None? {
      return None;
    }
    var serverList := Split(children[SERVER_LIST_TYPE].value, {','});
    ghost var outcomes := MatchOutcomes(ReadIds(serverList), cluster);
    var i := 0;
    while i < |serverList|
      invariant i <= |serverList|
      invariant Decision(outcomes) == Decision(outcomes, i)
    {
      var id := Stoul(serverList[i]);
      if id.None? {
        return None;
      }
      if id.value == cluster {
        return Some(true);
      }
      i := i + 1;
    }
    return Some(false);
  }

  lemma MatchesBelowSign(v: U32, cluster: U32)
    ensures SignExtended(v) == cluster <==> v == cluster && cluster < INT32_LIMIT
  {
    assert SignExtended(v) % UINT32 == v;
  }

  /** A stored server list supports exactly the listed clusters below 2^31: a listed id from there on
      was printed with a sign, reads back as a 64-bit value and never compares equal. */
  lemma {:induction false} EndpointSupportIff(children: Children, servers: seq<U32>, cluster: U32)
    requires servers != [] && SERVER_LIST_TYPE in children && children[SERVER_LIST_TYPE] == Some(IdListText(servers))
    ensures EndpointSupport(children, cluster) == Some(cluster in servers && cluster < INT32_LIMIT)
  {
    ReadBack(servers);
    var ids := Read(servers);
    var verdicts := seq(|servers|, k requires 0 <= k < |servers| => SignExtended(servers[k]) == cluster);
    forall k | 0 <= k < |servers|
      ensures MatchOutcomes(ids, cluster)[k] == Some(verdicts[k])
      ensures verdicts[k] <==> servers[k] == cluster && cluster < INT32_LIMIT
    {
      MatchesBelowSign(servers[k], cluster);
    }
    DecisionMeans(MatchOutcomes(ids, cluster), verdicts, 0);
    assert cluster in servers && cluster < INT32_LIMIT ==> exists k :: 0 <= k < |verdicts| && verdicts[k];
  }

  /** In numbers: the list of cluster 6 that a command of it is looked up in, and the list that an
      endpoint's clusters are. */
  lemma ListTypes(children: Children)
    ensures AcceptedList(children, 6)
      == if 0x0006_FFF9 in children then Some(children[0x0006_FFF9]) else None
    ensures EndpointSupport(children - {0x001D_0001}, 6) == Some(true)
    ensures EndpointSupport(children[0x001D_0001 := None], 6) == None
  {}
}
