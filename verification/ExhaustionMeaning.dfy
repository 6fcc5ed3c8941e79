/**
  The verdict on an answer of RESOURCE_EXHAUSTED (p4_fuzzer/switch_state.cc) in terms of what is stored:
  entries, members of groups, units of weight, replicas.
 */
module ExhaustionMeaning {
  import opened Common
  import opened P4Entries
  import opened StateModel
  import opened Statistics
  import opened StoredTotals
  import opened ResourcePrediction

  /** A group that no server may refuse for itself: positive weights, within the limits for members and groups. */
  predicate GroupAllowed(p: ActionProfile, members: seq<GroupMember>)
  {
    && (forall m :: m in members ==> m.weight >= 1)
    && (match p.sumOfMembers
        case None => p.maxGroupSize != 0 ==> |Units(members)| <= p.maxGroupSize
        case Some(limits) =>
          && (limits.maxMemberWeight != 0 ==> forall m :: m in members ==> m.weight <= limits.maxMemberWeight)
          && (p.maxGroupSize != 0 ==> |members| <= p.maxGroupSize))
  }

  /** What the profile counts in a table once the group has joined it, or has replaced the one stored under the key. */
  function Needed(p: ActionProfile, table: Table, e: TableEntry, kind: UpdateType): int
    requires kind.Modify? ==> KeyOf(e) in table
  {
    var gone := if kind.Modify? then MembersOf(table[KeyOf(e)]) else [];
    if p.sumOfMembers.Some? then |StoredMembers(table)| + |MembersOf(e)| - |gone|
    else |StoredUnits(table)| + |Units(MembersOf(e))| - |Units(gone)|
  }

  lemma GroupAllowedIff(p: ActionProfile, e: TableEntry)
    ensures GroupPasses(p, e) <==> GroupAllowed(p, MembersOf(e))
  {
    if forall m :: m in MembersOf(e) ==> m.weight >= 1 {
      WeightIsUnits(MembersOf(e));
    }
  }

  lemma NeededIs(info: P4Info, s: State, p: ActionProfile, e: TableEntry, kind: UpdateType)
    requires WellFormed(info, s) && e.tableId in s.tables && GroupPasses(p, e)
    requires kind.Modify? ==> KeyOf(e) in s.tables[e.tableId]
    ensures var table := s.tables[e.tableId];
            Needed(p, table, e, kind)
            == Usage(p, table) + Demand(p, e) - (if kind.Modify? then Demand(p, table[KeyOf(e)]) else 0)
  {
    var table := s.tables[e.tableId];
    GroupAllowedIff(p, e);
    StoredPositive(info, s, e.tableId);
    TableMeasures(s, e.tableId);
    WeightIsUnits(MembersOf(e));
    if kind.Modify? {
      WeightIsUnits(MembersOf(table[KeyOf(e)]));
    }
  }

  /** The verdict for an INSERT or MODIFY of a table entry, with its status code, from what is stored. */
  lemma TableVerdictMeans(info: P4Info, s: State, e: TableEntry, kind: UpdateType)
    requires WellFormed(info, s) && (kind.Insert? || kind.Modify?)
    ensures ExhaustionVerdict(info, s, Update(kind, TableEntity(e)))
            == if e.tableId !in info.tables then NotFound
               else
                 var table, def := s.tables[e.tableId], info.tables[e.tableId];
                 if kind.Insert? && |table| >= def.size then Ok
                 else if def.actionProfileId == None then FailedPrecondition
                 else if def.actionProfileId.value !in info.actionProfiles then NotFound
                 else if kind.Modify? && KeyOf(e) !in table then InvalidArgument
                 else
                   var p := info.actionProfiles[def.actionProfileId.value];
                   if !GroupAllowed(p, MembersOf(e)) then InvalidArgument
                   else if Needed(p, table, e, kind) > p.size then Ok
                   else FailedPrecondition
  {
    if e.tableId in info.tables && info.tables[e.tableId].actionProfileId.Some?
       && info.tables[e.tableId].actionProfileId.value in info.actionProfiles {
      var p := info.actionProfiles[info.tables[e.tableId].actionProfileId.value];
      GroupAllowedIff(p, e);
      if GroupPasses(p, e) && (kind.Modify? ==> KeyOf(e) in s.tables[e.tableId]) {
        NeededIs(info, s, p, e, kind);
      }
    }
  }

  /** The same for multicast groups. */
  lemma MulticastVerdictMeans(info: P4Info, s: State, g: MulticastGroup, kind: UpdateType)
    requires kind.Insert? || kind.Modify?
    ensures ExhaustionVerdict(info, s, Update(kind, MulticastEntity(g)))
            == if kind.Modify? && g.id !in s.groups then InvalidArgument
               else
                 var replicas, groups := if kind.Modify? then |s.groups[g.id].replicas| else 0,
                                         if kind.Modify? then 1 else 0;
                 if |StoredReplicas(s.groups)| + |g.replicas| - replicas > info.multicastTotalReplicas
                    || |s.groups| + 1 - groups > info.multicastTableSize
                    || |g.replicas| > info.multicastMaxReplicasPerEntry then Ok
                 else InvalidArgument
  {
    MulticastMeasures(s);
  }
}
