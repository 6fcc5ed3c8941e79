/**
  When a switch may answer RESOURCE_EXHAUSTED (p4_fuzzer/switch_state.cc): the checks as
  decisions on the state before the update, and their meaning on the state after it.
 */
module ResourcePrediction {
  import opened ByteStrings
  import opened Common
  import opened P4Entries
  import opened StateModel
  import opened StateComparison
  import opened Statistics

  /** What a profile counts: members under SumOfMembers, weights otherwise. */
  function Demand(profile: ActionProfile, entry: TableEntry): int
  {
    if profile.sumOfMembers.Some? then EntryMembers(entry) else EntryWeight(entry)
  }

  ghost function Usage(profile: ActionProfile, table: Table): int
  {
    if profile.sumOfMembers.Some? then SumOver(table, EntryMembers) else SumOver(table, EntryWeight)
  }

  predicate MemberPasses(profile: ActionProfile, weight: int)
  {
    weight > 0 && (profile.MaxMemberWeight() == 0 || weight <= profile.MaxMemberWeight())
  }

  /** The checks that concern one group alone; failing them is an invalid argument, never exhaustion. */
  predicate GroupPasses(profile: ActionProfile, entry: TableEntry)
  {
    (forall m :: m in GroupOf(entry) ==> MemberPasses(profile, m.weight))
    && (profile.maxGroupSize == 0 || Demand(profile, entry) <= profile.maxGroupSize)
  }

  /** Ok: the profile has room. ResourceExhausted: it has not. InvalidArgument: some other reason. */
  ghost function ProfileVerdict(profile: ActionProfile, table: Table, entry: TableEntry, kind: UpdateType): StatusCode
  {
    if kind.Delete? then Ok
    else if kind.Modify? && KeyOf(entry) !in table then InvalidArgument
    else if !GroupPasses(profile, entry) then InvalidArgument
    else
      var removed := if kind.Modify? then Demand(profile, table[KeyOf(entry)]) else 0;
      if Usage(profile, table) + Demand(profile, entry) - removed <= profile.size then Ok else ResourceExhausted
  }

  ghost function TableVerdict(info: P4Info, s: State, entry: TableEntry, kind: UpdateType): StatusCode
  {
    var t := entry.tableId;
    if t !in info.tables || t !in s.tables then NotFound
    else if kind.Insert? && |s.tables[t]| + 1 > info.tables[t].size then Ok
    else if info.tables[t].actionProfileId == None then FailedPrecondition
    else if info.tables[t].actionProfileId.value !in info.actionProfiles then NotFound
    else
      match ProfileVerdict(info.actionProfiles[info.tables[t].actionProfileId.value], s.tables[t], entry, kind)
      case Ok => FailedPrecondition
      case ResourceExhausted => Ok
      case other => other
  }

  ghost function MulticastVerdict(info: P4Info, s: State, group: MulticastGroup, kind: UpdateType): StatusCode
  {
    if kind.Modify? && group.id !in s.groups then InvalidArgument
    else
      var removedReplicas := if kind.Modify? then |s.groups[group.id].replicas| else 0;
      var removedEntries := if kind.Modify? then 1 else 0;
      if Of(s, Replicas) + |group.replicas| - removedReplicas > info.multicastTotalReplicas then Ok
      else if Of(s, MulticastEntries) + 1 - removedEntries > info.multicastTableSize then Ok
      else if |group.replicas| > info.multicastMaxReplicasPerEntry then Ok
      else InvalidArgument
  }

  /** Ok exactly when RESOURCE_EXHAUSTED is an acceptable answer to the update. */
  ghost function ExhaustionVerdict(info: P4Info, s: State, u: Update): StatusCode
  {
    if u.kind.Delete? then FailedPrecondition
    else
      match u.entity
      case TableEntity(entry) => TableVerdict(info, s, entry, u.kind)
      case MulticastEntity(group) => MulticastVerdict(info, s, group, u.kind)
  }

  // ----- prediction agrees with execution -----

  function ProfileOf(info: P4Info, t: int): Option<ActionProfile>
  {
    if t in info.tables && info.tables[t].actionProfileId.Some?
       && info.tables[t].actionProfileId.value in info.actionProfiles
    then Some(info.actionProfiles[info.tables[t].actionProfileId.value])
    else None
  }

  /** The guaranteed resources are exceeded in the state reached by executing the update. */
  ghost predicate Overflows(info: P4Info, after: State, u: Update)
  {
    match u.entity
    case TableEntity(e) =>
      (u.kind.Insert? && e.tableId in info.tables && |TableOf(after, e.tableId)| > info.tables[e.tableId].size)
      || (ProfileOf(info, e.tableId).Some?
          && var profile := ProfileOf(info, e.tableId).value;
             GroupPasses(profile, e) && Usage(profile, TableOf(after, e.tableId)) > profile.size)
    case MulticastEntity(g) =>
      Of(after, Replicas) > info.multicastTotalReplicas
      || Of(after, MulticastEntries) > info.multicastTableSize
      || |g.replicas| > info.multicastMaxReplicasPerEntry
  }

  /** The stored entry that a MODIFY replaces is looked up by the key as given. */
  predicate FoundAsGiven(s: State, u: Update)
  {
    u.kind.Modify? && u.entity.TableEntity? ==> KeyOf(u.entity.entry) in TableOf(s, u.entity.entry.tableId)
  }

  /**
    For an INSERT or MODIFY that applies, exhaustion is allowed exactly when the update, executed,
    takes its table past a guaranteed limit, unless a MODIFY names its key in another than the
    canonical form: then exhaustion is never allowed.
   */
  lemma PredictionAgreesWithExecution(info: P4Info, s: State, u: Update)
    requires WellFormed(info, s) && (u.kind.Insert? || u.kind.Modify?)
    requires Apply(info, s, u).Some?
    ensures ExhaustionVerdict(info, s, u) == Ok <==> Overflows(info, Apply(info, s, u).value, u) && FoundAsGiven(s, u)
    ensures Canonical(info, u.entity) ==> FoundAsGiven(s, u)
  {
    match u.entity
    case TableEntity(e) =>
      var c := Subject(info, u).value.entry;
      UsageAfter(info, s, u, c);
      CanonicalDemand(info, e);
      if FoundAsGiven(s, u) {
        if u.kind.Modify? {
          RawKeyIsCanonical(info, s, e);
          CanonicalKeyCommutes(info, e, false);
        }
        TablePrediction(info, s, u.kind, e, TableOf(Apply(info, s, u).value, e.tableId));
      }
    case MulticastEntity(g) =>
      MulticastUsageAfter(s, g, u.kind);
      assert Apply(info, s, u).value == Put(s, u.entity);
  }

  /** A MODIFY that takes the table past its limit is not excused when its key has a leading zero. */
  lemma PaddedModifyNotExcused(info: P4Info, s: State, e: TableEntry, f: int)
    requires WellFormed(info, s) && Canonical(info, TableEntity(e)) && f in e.matches
    requires Apply(info, s, Update(Modify, TableEntity(e))).Some?
    requires ExhaustionVerdict(info, s, Update(Modify, TableEntity(e))) == Ok
    ensures var u := Update(Modify, TableEntity(Padded(e, f)));
            Apply(info, s, u) == Apply(info, s, Update(Modify, TableEntity(e)))
            && Overflows(info, Apply(info, s, u).value, u) && ExhaustionVerdict(info, s, u) != Ok
  {
    var given, u := Update(Modify, TableEntity(e)), Update(Modify, TableEntity(Padded(e, f)));
    PaddedForm(info, e, f);
    PredictionAgreesWithExecution(info, s, given);
    PredictionAgreesWithExecution(info, s, u);
    assert GroupOf(Padded(e, f)) == GroupOf(e);
    CanonicalKeyCommutes(info, Padded(e, f), false);
    if FoundAsGiven(s, u) {
      RawKeyIsCanonical(info, s, Padded(e, f));
    }
  }

  /** An entry of table 1 whose group has one member of the given weight. */
  function SampleEntry(weight: int): TableEntry
  {
    TableEntry(1, 0, map[1 := [1]], ActionSet([GroupMember(Action(1, map[]), weight, [])]), [])
  }

  /** Table 1 may hold groups of weight 1 in all. */
  function SampleInfo(): P4Info
  {
    P4Info(map[1 := TableDefinition(1, true, Some(1), false, map[1 := 8], {}, map[1 := map[]])],
           map[1 := ActionProfile(1, 0, None)], 0, 0, 0)
  }

  function SampleState(): State
  {
    State(map[1 := map[KeyOf(SampleEntry(1)) := SampleEntry(1)]], map[])
  }

  lemma SampleCanonical(weight: int)
    requires weight >= 1
    ensures Canonical(SampleInfo(), TableEntity(SampleEntry(weight)))
    ensures EntryWeight(SampleEntry(weight)) == weight
  {
    var e, def := SampleEntry(weight), SampleInfo().tables[1];
    var members := e.action.members;
    BigEndianOfOne();
    assert StripValues(members[0].action.params) == members[0].action.params;
    assert StripMembers(members) == members;
    assert StripValues(e.matches) == e.matches;
    assert MemberTranslates(def, members[0]);
    assert TableActionTranslates(def, e.action);
    assert KeyTranslates(SampleInfo(), KeyOf(e));
    assert members[..0] == [];
    assert WeightOf(members[..0]) == 0;
  }

  lemma BigEndianOfOne()
    ensures FitsWidth([1], 8)
  {
    Pow2Byte();
    assert BigEndian([1]) == 1;
  }

  /** Such a MODIFY exists: it doubles the only group of a full table. */
  lemma UnexcusedModify()
    ensures WellFormed(SampleInfo(), SampleState())
    ensures var u := Update(Modify, TableEntity(Padded(SampleEntry(2), 1)));
            Apply(SampleInfo(), SampleState(), u).Some?
            && Overflows(SampleInfo(), Apply(SampleInfo(), SampleState(), u).value, u)
            && ExhaustionVerdict(SampleInfo(), SampleState(), u) != Ok
  {
    var info, s, e := SampleInfo(), SampleState(), SampleEntry(2);
    SampleCanonical(1);
    SampleCanonical(2);
    var table := s.tables[1];
    SumRemove(table, EntryWeight, KeyOf(e));
    assert table - {KeyOf(e)} == map[];
    assert ExhaustionVerdict(info, s, Update(Modify, TableEntity(e))) == Ok;
    PaddedModifyNotExcused(info, s, e, 1);
  }

  /** The canonical form of an entry demands the same resources. */
  lemma CanonicalDemand(info: P4Info, e: TableEntry)
    requires CanonicalizeTableEntry(info, e, false).Some?
    ensures var c := CanonicalizeTableEntry(info, e, false).value;
            c.tableId == e.tableId && EntryMembers(c) == EntryMembers(e) && EntryWeight(c) == EntryWeight(e)
  {
    StrippedWeight(GroupOf(e));
  }

  lemma TablePrediction(info: P4Info, s: State, kind: UpdateType, e: TableEntry, after: Table)
    requires kind.Insert? || kind.Modify?
    requires e.tableId in s.tables && e.tableId in info.tables
    requires kind.Modify? ==> KeyOf(e) in s.tables[e.tableId]
    requires var before := s.tables[e.tableId];
             |after| == |before| + (if kind.Insert? then 1 else 0)
             && forall profile ::
                  Usage(profile, after) == Usage(profile, before) + Demand(profile, e)
                                           - (if kind.Modify? then Demand(profile, before[KeyOf(e)]) else 0)
    ensures TableVerdict(info, s, e, kind) == Ok
       <==> (kind.Insert? && |after| > info.tables[e.tableId].size)
            || (ProfileOf(info, e.tableId).Some?
                && var profile := ProfileOf(info, e.tableId).value;
                   GroupPasses(profile, e) && Usage(profile, after) > profile.size)
  {
  }

  lemma MulticastUsageAfter(s: State, g: MulticastGroup, kind: UpdateType)
    requires kind.Modify? <==> g.id in s.groups
    ensures var s' := Put(s, MulticastEntity(g));
            Of(s', Replicas) == Of(s, Replicas) + |g.replicas|
                                - (if kind.Modify? then |s.groups[g.id].replicas| else 0)
            && Of(s', MulticastEntries) == Of(s, MulticastEntries) + (if kind.Modify? then 0 else 1)
  {
    if kind.Modify? {
      MulticastRemove(s.groups, g.id);
    } else {
      RemoveAbsent(s.groups, g.id);
    }
    MulticastPut(s.groups, g);
  }

  lemma UsageAfter(info: P4Info, s: State, u: Update, e: TableEntry)
    requires WellFormed(info, s) && Subject(info, u) == Some(TableEntity(e))
    requires u.kind.Insert? || u.kind.Modify?
    requires Apply(info, s, u).Some?
    ensures e.tableId in s.tables && (u.kind.Modify? <==> KeyOf(e) in s.tables[e.tableId])
    ensures var before, after := s.tables[e.tableId], TableOf(Apply(info, s, u).value, e.tableId);
            |after| == |before| + (if u.kind.Insert? then 1 else 0)
            && forall profile ::
                 Usage(profile, after) == Usage(profile, before) + Demand(profile, e)
                                          - (if u.kind.Modify? then Demand(profile, before[KeyOf(e)]) else 0)
  {
    ApplyToTable(info, s, u, e);
    var table, k := s.tables[e.tableId], KeyOf(e);
    if u.kind.Modify? {
      TableReplaced(table, e, table[k]);
    } else {
      RemoveAbsent(table, k);
      TablePut(table, e);
    }
    UsageMoves(table, TableOf(Apply(info, s, u).value, e.tableId), EntryMembers(e), EntryWeight(e),
               if u.kind.Modify? then EntryMembers(table[k]) else 0,
               if u.kind.Modify? then EntryWeight(table[k]) else 0);
  }

  lemma UsageMoves(before: Table, after: Table, members: int, weight: int, goneMembers: int, goneWeight: int)
    requires SumOver(after, EntryMembers) == SumOver(before, EntryMembers) + members - goneMembers
    requires SumOver(after, EntryWeight) == SumOver(before, EntryWeight) + weight - goneWeight
    ensures forall profile: ActionProfile ::
              Usage(profile, after) == Usage(profile, before)
                                       + (if profile.sumOfMembers.Some? then members - goneMembers
                                          else weight - goneWeight)
  {
  }

  lemma TableReplaced(table: Table, e: TableEntry, replaced: TableEntry)
    requires KeyOf(e) in table && table[KeyOf(e)] == replaced
    ensures var after := table[KeyOf(e) := e];
            |after| == |table|
            && SumOver(after, EntryWeight) == SumOver(table, EntryWeight) + EntryWeight(e) - EntryWeight(replaced)
            && SumOver(after, EntryMembers) == SumOver(table, EntryMembers) + EntryMembers(e) - EntryMembers(replaced)
  {
    TablePut(table, e);
    TableWithout(table, KeyOf(e));
  }

  lemma TableWithout(table: Table, k: TableEntryKey)
    requires k in table
    ensures |table - {k}| == |table| - 1
    ensures SumOver(table - {k}, EntryWeight) == SumOver(table, EntryWeight) - EntryWeight(table[k])
    ensures SumOver(table - {k}, EntryMembers) == SumOver(table, EntryMembers) - EntryMembers(table[k])
  {
    SizeRemove(table, k);
    SumRemove(table, EntryWeight, k);
    SumRemove(table, EntryMembers, k);
  }

  /** A DELETE may never be answered with exhaustion. */
  lemma DeleteNeverExhausts(info: P4Info, s: State, u: Update)
    requires u.kind.Delete?
    ensures ExhaustionVerdict(info, s, u) != Ok
    ensures Apply(info, s, u).Some? && WellFormed(info, s) ==>
              forall m :: Of(Apply(info, s, u).value, m) <= Of(s, m)
  {
    if Apply(info, s, u).Some? && WellFormed(info, s) {
      forall m: Measure ensures Of(Apply(info, s, u).value, m) <= Of(s, m) {
        RemoveLowersMeasures(info, s, UpdateKey(info, u), m);
      }
    }
  }

  // ----- the executable checks -----

  /** Members and weight of the group in one entry. */
  method GroupResources(entry: TableEntry) returns (actions: int, totalWeight: int)
    ensures actions == EntryMembers(entry) && totalWeight == EntryWeight(entry)
  {
    actions, totalWeight := 0, 0;
    var members := GroupOf(entry);
    for i := 0 to |members|
      invariant actions == i && totalWeight == WeightOf(members[..i])
    {
      assert members[..i + 1][..i] == members[..i];
      actions := actions + 1;
      totalWeight := totalWeight + members[i].weight;
    }
    assert members[..|members|] == members;
  }

  /** Members and weight of all groups in a table. */
  method TableResources(table: Table) returns (actions: int, totalWeight: int)
    ensures actions == SumOver(table, EntryMembers) && totalWeight == SumOver(table, EntryWeight)
  {
    actions, totalWeight := 0, 0;
    var rest := table;
    while rest.Keys != {}
      invariant actions + SumOver(rest, EntryMembers) == SumOver(table, EntryMembers)
      invariant totalWeight + SumOver(rest, EntryWeight) == SumOver(table, EntryWeight)
      decreases |rest|
    {
      var k := PickElement(rest.Keys);
      var members, weight := GroupResources(rest[k]);
      SumRemove(rest, EntryMembers, k);
      SumRemove(rest, EntryWeight, k);
      SizeRemove(rest, k);
      actions, totalWeight := actions + members, totalWeight + weight;
      rest := rest - {k};
    }
    assert rest == map[];
  }

  method ReasonActionProfileCanAccommodateTableEntry(
    profile: ActionProfile, table: Table, entry: TableEntry, kind: UpdateType) returns (code: StatusCode)
    ensures code == ProfileVerdict(profile, table, entry, kind)
  {
    if kind.Delete? {
      return Ok;
    }
    var currentActions, currentWeight := TableResources(table);
    var neededActions, neededWeight := GroupResources(entry);
    var removedActions, removedWeight := 0, 0;
    if kind.Modify? {
      if KeyOf(entry) !in table {
        return InvalidArgument;
      }
      removedActions, removedWeight := GroupResources(table[KeyOf(entry)]);
    }
    var members := GroupOf(entry);
    for i := 0 to |members|
      invariant forall j :: 0 <= j < i ==> MemberPasses(profile, members[j].weight)
    {
      if members[i].weight <= 0 {
        assert members[i] in members;
        return InvalidArgument;
      } else if profile.MaxMemberWeight() != 0 && members[i].weight > profile.MaxMemberWeight() {
        assert members[i] in members;
        return InvalidArgument;
      }
    }
    if profile.sumOfMembers.Some? {
      if neededActions > profile.maxGroupSize && profile.maxGroupSize != 0 {
        return InvalidArgument;
      }
      code := if currentActions + neededActions - removedActions <= profile.size then Ok else ResourceExhausted;
    } else {
      if neededWeight > profile.maxGroupSize && profile.maxGroupSize != 0 {
        return InvalidArgument;
      }
      code := if currentWeight + neededWeight - removedWeight <= profile.size then Ok else ResourceExhausted;
    }
  }
}
