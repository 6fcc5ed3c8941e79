/**
  SwitchState (p4_fuzzer/switch_state.cc): every table twice, incremental resource statistics
  and high-water marks. Two invariants: Synced, which every method keeps even when it reports an
  error, and Valid, which adds that statistics and peaks are exact and is kept by every method
  that returns Ok.
 */
module SwitchStates {
  import opened Common
  import opened P4Entries
  import opened StateModel
  import opened Statistics
  import opened ResourcePrediction
  import opened StateComparison

  class SwitchState {
    const info: P4Info

    var orderedTables: map<int, Table>
    var unorderedTables: map<int, Table>
    var orderedGroups: map<int, MulticastGroup>
    var unorderedGroups: map<int, MulticastGroup>

    var currentStats: map<int, ResourceStatistics>
    var peakStats: map<int, PeakResourceStatistics>
    var currentEntries: int
    var peakEntriesSeen: int
    var multicastStats: ResourceStatistics
    var multicastPeaks: PeakResourceStatistics

    // Every state since construction, the current one last.
    ghost var history: seq<State>

    /** The abstract value: what the lookup copies of the tables hold. */
    function Contents(): State
      reads this
    {
      State(unorderedTables, unorderedGroups)
    }

    function Ledger(): Books
      reads this
    {
      Books(currentStats, peakStats, currentEntries, peakEntriesSeen, multicastStats, multicastPeaks)
    }

    ghost predicate Synced()
      reads this
    {
      && orderedTables == unorderedTables && orderedGroups == unorderedGroups
      && WellFormed(info, Contents())
      && Ledger().ForTables(info)
    }

    ghost predicate Valid()
      reads this
    {
      Synced() && BooksExact(info, Ledger(), Contents(), history)
    }

    constructor (info: P4Info)
      ensures this.info == info && Valid()
      ensures Contents() == EmptyState(info) && history == [EmptyState(info)]
    {
      this.info := info;
      // The loop over the tables of the program, as one map per field.
      orderedTables := map t | t in info.tables :: map[];
      unorderedTables := map t | t in info.tables :: map[];
      currentStats := map t | t in info.tables :: NO_RESOURCES;
      peakStats := map t | t in info.tables :: NO_PEAKS;
      orderedGroups, unorderedGroups := map[], map[];
      currentEntries, peakEntriesSeen := 0, 0;
      multicastStats, multicastPeaks := NO_RESOURCES, NO_PEAKS;
      history := [EmptyState(info)];
      new;
      EmptyMeasures(info);
    }

    /** The copy a by-value parameter or assignment makes. */
    constructor Copy(other: SwitchState)
      ensures info == other.info && Contents() == other.Contents() && history == other.history
      ensures other.Synced() ==> Synced()
      ensures other.Valid() ==> Valid()
    {
      info := other.info;
      orderedTables, unorderedTables := other.orderedTables, other.unorderedTables;
      orderedGroups, unorderedGroups := other.orderedGroups, other.unorderedGroups;
      currentStats, peakStats := other.currentStats, other.peakStats;
      currentEntries, peakEntriesSeen := other.currentEntries, other.peakEntriesSeen;
      multicastStats, multicastPeaks := other.multicastStats, other.multicastPeaks;
      history := other.history;
    }

    /** Empties every table; current statistics restart at zero and peaks stay. */
    method ClearTableEntries()
      requires Synced()
      modifies this
      ensures Synced() && Contents() == EmptyState(info)
      ensures Ledger() == ClearedBooks(info, old(Ledger()))
      ensures old(Valid()) ==> Valid() && history == old(history) + [Contents()]
    {
      ResetTables();
      orderedGroups, unorderedGroups := map[], map[];
      currentEntries := 0;
      multicastStats := NO_RESOURCES;
      EmptyIsWellFormed(info);
      assert Ledger() == ClearedBooks(info, old(Ledger()));
      history := history + [EmptyState(info)];
      if old(Valid()) {
        ClearedBooksExact(info, old(Ledger()), old(Contents()), old(history));
      }
    }

    /** The loop over the tables of the program. */
    method ResetTables()
      requires orderedTables == unorderedTables && orderedTables.Keys == currentStats.Keys == info.tables.Keys
      modifies this`orderedTables, this`unorderedTables, this`currentStats
      ensures orderedTables == unorderedTables == EmptyState(info).tables
      ensures currentStats == ZeroStats(info)
    {
      ghost var cleared, zero := EmptyState(info).tables, ZeroStats(info);
      var ids, tables, stats := info.tables.Keys, unorderedTables, currentStats;
      while ids != {}
        invariant ids <= info.tables.Keys
        invariant tables.Keys == stats.Keys == cleared.Keys == zero.Keys == info.tables.Keys
        invariant forall t :: t in cleared && t !in ids ==> tables[t] == cleared[t]
        invariant forall t :: t in zero && t !in ids ==> stats[t] == zero[t]
        decreases ids
      {
        var t := PickElement(ids);
        tables := tables[t := map[]];
        stats := stats[t := NO_RESOURCES];
        ids := ids - {t};
      }
      forall t | t in info.tables ensures tables[t] == cleared[t] && stats[t] == zero[t] {
        assert t !in ids;
      }
      assert tables == cleared && stats == zero;
      orderedTables, unorderedTables, currentStats := tables, tables, stats;
    }

    // ----- queries -----

    function GetNumTableEntries(t: int): int
      requires t in currentStats
      reads this
    {
      currentStats[t].entries
    }

    function CanAccommodateInserts(t: int, n: int): bool
      requires t in currentStats && t in info.tables
      reads this
    {
      info.tables[t].size - GetNumTableEntries(t) >= n
    }

    function IsTableFull(t: int): bool
      requires t in currentStats && t in info.tables
      reads this
    {
      !CanAccommodateInserts(t, 1)
    }

    /** First the key as given, then the canonical key; both answer the canonical lookup. */
    function GetTableEntry(entry: TableEntry): (r: Option<TableEntry>)
      requires entry.tableId in unorderedTables
      reads this
      ensures Synced() ==> r == FindEntry(info, Contents(), entry)
    {
      var table := unorderedTables[entry.tableId];
      if KeyOf(entry) in table then
        assert Synced() ==> Some(table[KeyOf(entry)]) == FindEntry(info, Contents(), entry) by {
          if Synced() { RawKeyIsCanonical(info, Contents(), entry); }
        }
        Some(table[KeyOf(entry)])
      else
        var canonical := CanonicalizeTableEntry(info, entry, true);
        if canonical == None then None
        else if KeyOf(canonical.value) in table then Some(table[KeyOf(canonical.value)])
        else None
    }

    function GetMulticastGroupEntry(group: MulticastGroup): Option<MulticastGroup>
      reads this
    {
      if group.id in unorderedGroups then Some(unorderedGroups[group.id]) else None
    }

    /** Ok when answering the update with RESOURCE_EXHAUSTED would be acceptable. */
    method ResourceExhaustedIsAllowed(u: Update) returns (code: StatusCode)
      requires Valid()
      ensures code == ExhaustionVerdict(info, Contents(), u)
    {
      if u.kind.Delete? {
        return FailedPrecondition;
      }
      CurrentTotals(info, Ledger(), Contents(), history);
      match u.entity {
        case TableEntity(entry) =>
          var t := entry.tableId;
          if t !in info.tables || t !in unorderedTables {
            return NotFound;
          }
          var def := info.tables[t];
          if u.kind.Insert? && |unorderedTables[t]| + 1 > def.size {
            return Ok;
          }
          if def.actionProfileId.Some? {
            if def.actionProfileId.value !in info.actionProfiles {
              return NotFound;
            }
            var hasSpace := ReasonActionProfileCanAccommodateTableEntry(
              info.actionProfiles[def.actionProfileId.value], unorderedTables[t], entry, u.kind);
            if hasSpace != Ok {
              return if hasSpace == ResourceExhausted then Ok else hasSpace;
            }
          }
          code := FailedPrecondition;
        case MulticastEntity(group) =>
          var removedReplicas, removedEntries := 0, 0;
          if u.kind.Modify? {
            var existing := GetMulticastGroupEntry(group);
            if existing == None {
              return InvalidArgument;
            }
            removedReplicas, removedEntries := |existing.value.replicas|, 1;
          }
          if multicastStats.totalMembers + |group.replicas| - removedReplicas > info.multicastTotalReplicas {
            return Ok;
          }
          if multicastStats.entries + 1 - removedEntries > info.multicastTableSize {
            return Ok;
          }
          code := if |group.replicas| > info.multicastMaxReplicasPerEntry then Ok else InvalidArgument;
      }
    }

    // ----- statistics -----

    /** Runs before the tables change; a MODIFY is counted as a DELETE and then an INSERT. */
    method UpdateResourceStatistics(entry: TableEntry, kind: UpdateType) returns (code: StatusCode)
      requires Ledger().ForTables(info) && entry.tableId in info.tables && entry.tableId in unorderedTables
      requires var table := unorderedTables[entry.tableId];
               KeyOf(entry) in table ==> KeyOf(table[KeyOf(entry)]) == KeyOf(entry)
      modifies this`currentEntries, this`currentStats, this`peakEntriesSeen, this`peakStats
      ensures Ledger().ForTables(info)
      ensures code == Internal <==> kind.Unspecified?
      ensures code == InvalidArgument <==>
                KeyOf(entry) !in unorderedTables[entry.tableId]
                && (kind.Modify? || (kind.Delete? && info.tables[entry.tableId].usesOneshot))
      ensures code in {Ok, Internal, InvalidArgument}
      ensures code == Ok ==>
                Ledger() == BookTable(info, old(Ledger()), unorderedTables[entry.tableId], entry, kind)
      decreases if kind.Modify? then 1 else 0
    {
      var t := entry.tableId;
      var oneshot := info.tables[t].usesOneshot;
      var actions, totalWeight := 0, 0;
      if oneshot {
        actions, totalWeight := GroupResources(entry);
      }
      match kind {
        case Insert =>
          CountEntry(t, true, oneshot, totalWeight, actions);
        case Delete =>
          // The group that leaves is the stored one, whatever the update carries.
          if oneshot {
            if KeyOf(entry) !in unorderedTables[t] {
              return InvalidArgument;
            }
            actions, totalWeight := GroupResources(unorderedTables[t][KeyOf(entry)]);
          }
          CountEntry(t, false, oneshot, totalWeight, actions);
        case Modify =>
          if KeyOf(entry) !in unorderedTables[t] {
            return InvalidArgument;
          }
          BookModify(info, Ledger(), unorderedTables[t], entry);
          code := UpdateResourceStatistics(unorderedTables[t][KeyOf(entry)], Delete);
          if code != Ok {
            return;
          }
          code := UpdateResourceStatistics(entry, Insert);
          return;
        case Unspecified =>
          return Internal;
      }
      code := Ok;
    }

    /** Counts one entry in or out, then raises the peaks. */
    method CountEntry(t: int, inserted: bool, oneshot: bool, weight: int, members: int)
      requires Ledger().ForTables(info) && t in info.tables
      modifies this`currentEntries, this`currentStats, this`peakEntriesSeen, this`peakStats
      ensures Ledger().ForTables(info)
      ensures Ledger() == WithAccounts(old(Ledger()), t,
                                       if inserted
                                       then CountInsert(AccountsOf(old(Ledger()), t), oneshot, weight, members)
                                       else CountDelete(AccountsOf(old(Ledger()), t), oneshot, weight, members))
    {
      var sign := if inserted then 1 else -1;
      var stats, peaks := currentStats[t], peakStats[t];
      currentEntries := currentEntries + sign;
      stats := stats.(entries := stats.entries + sign);
      if oneshot {
        stats := stats.(totalWeight := stats.totalWeight + sign * weight,
                        totalMembers := stats.totalMembers + sign * members);
      }
      currentStats := currentStats[t := stats];
      peakEntriesSeen := Max(peakEntriesSeen, currentEntries);
      peaks := peaks.(entries := Max(peaks.entries, stats.entries));
      if oneshot {
        peaks := peaks.(totalWeight := Max(peaks.totalWeight, stats.totalWeight),
                        maxGroupWeight := Max(peaks.maxGroupWeight, weight));
        peaks := peaks.(totalMembers := Max(peaks.totalMembers, stats.totalMembers),
                        maxMembersPerGroup := Max(peaks.maxMembersPerGroup, members));
      }
      peakStats := peakStats[t := peaks];
    }

    method UpdateMulticastResourceStatistics(group: MulticastGroup, kind: UpdateType) returns (code: StatusCode)
      requires group.id in unorderedGroups ==> unorderedGroups[group.id].id == group.id
      modifies this`currentEntries, this`multicastStats, this`peakEntriesSeen, this`multicastPeaks
      ensures code == Internal <==> kind.Unspecified?
      ensures code == InvalidArgument <==> group.id !in unorderedGroups && (kind.Modify? || kind.Delete?)
      ensures code in {Ok, Internal, InvalidArgument}
      ensures code == Ok ==> Ledger() == BookMulticast(old(Ledger()), unorderedGroups, group, kind)
      decreases if kind.Modify? then 1 else 0
    {
      match kind {
        case Insert =>
          currentEntries := currentEntries + 1;
          multicastStats := multicastStats.(entries := multicastStats.entries + 1,
                                            totalMembers := multicastStats.totalMembers + |group.replicas|);
        case Delete =>
          if group.id !in unorderedGroups {
            return InvalidArgument;
          }
          currentEntries := currentEntries - 1;
          multicastStats := multicastStats.(
            entries := multicastStats.entries - 1,
            totalMembers := multicastStats.totalMembers - |unorderedGroups[group.id].replicas|);
        case Modify =>
          if group.id !in unorderedGroups {
            return InvalidArgument;
          }
          code := UpdateMulticastResourceStatistics(unorderedGroups[group.id], Delete);
          if code != Ok {
            return;
          }
          code := UpdateMulticastResourceStatistics(group, Insert);
          return;
        case Unspecified =>
          return Internal;
      }
      peakEntriesSeen := Max(peakEntriesSeen, currentEntries);
      multicastPeaks := multicastPeaks.(entries := Max(multicastPeaks.entries, multicastStats.entries));
      multicastPeaks := multicastPeaks.(
        totalMembers := Max(multicastPeaks.totalMembers, multicastStats.totalMembers),
        maxMembersPerGroup := Max(multicastPeaks.maxMembersPerGroup, |group.replicas|));
      code := Ok;
    }

    // ----- updates -----

    method ApplyMulticastUpdate(u: Update) returns (code: StatusCode)
      requires Synced() && u.entity.MulticastEntity?
      modifies this`orderedGroups, this`unorderedGroups
      modifies this`currentEntries, this`multicastStats, this`peakEntriesSeen, this`multicastPeaks
      ensures Synced()
      ensures var next := Apply(info, old(Contents()), u);
              (code == Ok <==> next.Some?) && Contents() == (if next.Some? then next.value else old(Contents()))
      ensures code == Ok ==>
                Ledger() == BookMulticast(old(Ledger()), old(unorderedGroups), Subject(info, u).value.group, u.kind)
    {
      var canonical := CanonicalizeEntity(info, u.entity, u.kind.Delete?);
      if canonical == None {
        return InvalidArgument;
      }
      var group := canonical.value.group;
      assert GroupStored(Contents(), group.id) ==> GroupInPlace(info, group.id, unorderedGroups[group.id]);
      code := UpdateMulticastResourceStatistics(group, u.kind);
      if code != Ok {
        return;
      }
      match u.kind {
        case Insert =>
          var orderedNotPresent := group.id !in orderedGroups;
          if orderedNotPresent { orderedGroups := orderedGroups[group.id := group]; }
          var unorderedNotPresent := group.id !in unorderedGroups;
          if unorderedNotPresent { unorderedGroups := unorderedGroups[group.id := group]; }
          if orderedNotPresent != unorderedNotPresent { return Internal; }
          if !orderedNotPresent { return InvalidArgument; }
        case Delete =>
          var orderedErased := group.id in orderedGroups;
          orderedGroups := orderedGroups - {group.id};
          var unorderedErased := group.id in unorderedGroups;
          unorderedGroups := unorderedGroups - {group.id};
          if orderedErased != unorderedErased { return Internal; }
          if !orderedErased { return InvalidArgument; }
        case Modify =>
          var orderedNotPresent := group.id !in orderedGroups;
          orderedGroups := orderedGroups[group.id := group];
          var unorderedNotPresent := group.id !in unorderedGroups;
          unorderedGroups := unorderedGroups[group.id := group];
          if orderedNotPresent != unorderedNotPresent { return Internal; }
          if orderedNotPresent { return InvalidArgument; }
        case Unspecified =>
          assert false;
      }
      ApplyKeepsWellFormed(info, old(Contents()), u);
    }

    /** Both copies of a table, inserted into only when the key is absent. */
    method InsertEntry(t: int, key: TableEntryKey, entry: TableEntry) returns (code: StatusCode)
      requires orderedTables == unorderedTables && t in unorderedTables
      modifies this`orderedTables, this`unorderedTables
      ensures orderedTables == unorderedTables
      ensures code == if key in old(unorderedTables)[t] then InvalidArgument else Ok
      ensures unorderedTables == if code == Ok then old(unorderedTables)[t := old(unorderedTables)[t][key := entry]]
                                 else old(unorderedTables)
    {
      var orderedNotPresent := key !in orderedTables[t];
      if orderedNotPresent { orderedTables := orderedTables[t := orderedTables[t][key := entry]]; }
      var unorderedNotPresent := key !in unorderedTables[t];
      if unorderedNotPresent { unorderedTables := unorderedTables[t := unorderedTables[t][key := entry]]; }
      if orderedNotPresent != unorderedNotPresent { return Internal; }
      code := if !orderedNotPresent then InvalidArgument else Ok;
    }

    method EraseEntry(t: int, key: TableEntryKey) returns (code: StatusCode)
      requires orderedTables == unorderedTables && t in unorderedTables
      modifies this`orderedTables, this`unorderedTables
      ensures orderedTables == unorderedTables
      ensures code == if key in old(unorderedTables)[t] then Ok else InvalidArgument
      ensures unorderedTables == if code == Ok then old(unorderedTables)[t := old(unorderedTables)[t] - {key}]
                                 else old(unorderedTables)
    {
      var orderedErased := key in orderedTables[t];
      if key !in unorderedTables[t] {
        RemoveAbsent(unorderedTables[t], key);
        assert unorderedTables[t := unorderedTables[t]] == unorderedTables;
      }
      orderedTables := orderedTables[t := orderedTables[t] - {key}];
      var unorderedErased := key in unorderedTables[t];
      unorderedTables := unorderedTables[t := unorderedTables[t] - {key}];
      if orderedErased != unorderedErased { return Internal; }
      code := if orderedErased then Ok else InvalidArgument;
    }

    method AssignEntry(t: int, key: TableEntryKey, entry: TableEntry) returns (code: StatusCode)
      requires orderedTables == unorderedTables && t in unorderedTables
      modifies this`orderedTables, this`unorderedTables
      ensures orderedTables == unorderedTables
      ensures code == if key in old(unorderedTables)[t] then Ok else InvalidArgument
      ensures unorderedTables == old(unorderedTables)[t := old(unorderedTables)[t][key := entry]]
    {
      var orderedNotPresent := key !in orderedTables[t];
      orderedTables := orderedTables[t := orderedTables[t][key := entry]];
      var unorderedNotPresent := key !in unorderedTables[t];
      unorderedTables := unorderedTables[t := unorderedTables[t][key := entry]];
      if orderedNotPresent != unorderedNotPresent { return Internal; }
      code := if orderedNotPresent then InvalidArgument else Ok;
    }

    /** Both copies of a table after an update whose statistics have been counted. */
    method StoreEntry(e: TableEntry, kind: UpdateType) returns (code: StatusCode)
      requires orderedTables == unorderedTables && e.tableId in unorderedTables && !kind.Unspecified?
      requires kind.Modify? ==> KeyOf(e) in unorderedTables[e.tableId]
      modifies this`orderedTables, this`unorderedTables
      ensures orderedTables == unorderedTables
      ensures var after := TableAfter(old(unorderedTables)[e.tableId], e, kind);
              code == (if after.Some? then Ok else InvalidArgument)
              && unorderedTables == if after.Some? then old(unorderedTables)[e.tableId := after.value]
                                    else old(unorderedTables)
    {
      match kind {
        case Insert => code := InsertEntry(e.tableId, KeyOf(e), e);
        case Delete => code := EraseEntry(e.tableId, KeyOf(e));
        case Modify => code := AssignEntry(e.tableId, KeyOf(e), e);
        case Unspecified => assert false;
      }
    }

    /** The statistics first, then both copies of the table. */
    method CountAndStore(e: TableEntry, kind: UpdateType) returns (code: StatusCode)
      requires orderedTables == unorderedTables && Ledger().ForTables(info)
      requires e.tableId in info.tables && e.tableId in unorderedTables
      requires var table := unorderedTables[e.tableId]; KeyOf(e) in table ==> KeyOf(table[KeyOf(e)]) == KeyOf(e)
      modifies this`orderedTables, this`unorderedTables
      modifies this`currentEntries, this`currentStats, this`peakEntriesSeen, this`peakStats
      ensures orderedTables == unorderedTables && Ledger().ForTables(info)
      ensures var after := TableAfter(old(unorderedTables)[e.tableId], e, kind);
              (code == Ok <==> after.Some?)
              && unorderedTables == if after.Some? then old(unorderedTables)[e.tableId := after.value]
                                    else old(unorderedTables)
      ensures code == Ok ==> Ledger() == BookTable(info, old(Ledger()), old(unorderedTables)[e.tableId], e, kind)
    {
      code := UpdateResourceStatistics(e, kind);
      if code != Ok {
        return;
      }
      code := StoreEntry(e, kind);
    }

    method ApplyTableUpdate(u: Update) returns (code: StatusCode)
      requires Synced() && u.entity.TableEntity? && u.entity.entry.tableId in info.tables
      modifies this`orderedTables, this`unorderedTables
      modifies this`currentEntries, this`currentStats, this`peakEntriesSeen, this`peakStats
      ensures Synced()
      ensures var next := Apply(info, old(Contents()), u);
              (code == Ok <==> next.Some?) && Contents() == (if next.Some? then next.value else old(Contents()))
      ensures code == Ok ==>
                var e := Subject(info, u).value.entry;
                e.tableId in info.tables
                && Ledger() == BookTable(info, old(Ledger()), TableOf(old(Contents()), e.tableId), e, u.kind)
    {
      var entry := u.entity.entry;
      var t := entry.tableId;
      var canonical := CanonicalizeTableEntry(info, entry, u.kind.Delete?);
      if canonical == None {
        return InvalidArgument;
      }
      var canonicalEntry := canonical.value;
      ApplyToTable(info, Contents(), u, canonicalEntry);
      if Apply(info, Contents(), u).Some? {
        ApplyKeepsWellFormed(info, Contents(), u);
      }
      code := CountAndStore(canonicalEntry, u.kind);
    }

    method ApplyUpdate(u: Update) returns (code: StatusCode)
      requires Synced() && (u.entity.TableEntity? ==> u.entity.entry.tableId in info.tables)
      modifies this
      ensures Synced()
      ensures var next := Apply(info, old(Contents()), u);
              (code == Ok <==> next.Some?) && Contents() == (if next.Some? then next.value else old(Contents()))
      ensures code == Ok ==> Ledger() == BookUpdate(info, old(Ledger()), old(Contents()), u)
      ensures code == Ok && u.entity.TableEntity? ==>
                FiguresMoved(info, old(Ledger()), Ledger(), old(Contents()), u.entity.entry, u.kind)
      ensures old(Valid()) && code == Ok ==> Valid() && history == old(history) + [Contents()]
    {
      if u.entity.MulticastEntity? {
        code := ApplyMulticastUpdate(u);
      } else {
        code := ApplyTableUpdate(u);
      }
      if code == Ok {
        if u.entity.TableEntity? {
          BookedFigures(info, old(Ledger()), old(Contents()), u);
        }
        history := history + [Contents()];
        if old(Valid()) {
          BookExact(info, old(Ledger()), old(Contents()), old(history), u);
        }
      }
    }

    /** Replaces the whole content: cleared, then every entity inserted in the given order. */
    method SetEntities(entities: seq<Entity>) returns (code: StatusCode)
      requires Synced()
      requires forall e :: e in entities && e.TableEntity? ==> e.entry.tableId in info.tables
      modifies this
      ensures Synced()
      ensures var next := ApplyAll(info, EmptyState(info), Inserts(entities));
              (code == Ok <==> next.Some?) && (next.Some? ==> Contents() == next.value)
      ensures old(Valid()) && code == Ok ==> Valid()
    {
      ClearTableEntries();
      for i := 0 to |entities|
        invariant Synced()
        invariant old(Valid()) ==> Valid()
        invariant ApplyAll(info, Contents(), Inserts(entities[i..]))
                  == ApplyAll(info, EmptyState(info), Inserts(entities))
      {
        InsertsStep(entities, i);
        code := ApplyUpdate(Update(Insert, entities[i]));
        if code != Ok {
          return;
        }
      }
      code := Ok;
    }

    // ----- consistency -----

    /**
      Ok exactly when the two copies agree: by counting, because each stored entry is looked up in one
      direction only.
     */
    method CheckConsistency() returns (code: StatusCode)
      requires InShape(info, State(orderedTables, orderedGroups)) && InShape(info, Contents())
      ensures code == Ok <==> orderedTables == unorderedTables && orderedGroups == unorderedGroups
      ensures code in {Ok, Internal}
    {
      var same := TablesAreConsistent();
      if same {
        same := GroupsAreConsistent();
      }
      code := if same then Ok else Internal;
    }

    method TablesAreConsistent() returns (same: bool)
      requires InShape(info, State(orderedTables, orderedGroups)) && InShape(info, Contents())
      ensures same <==> orderedTables == unorderedTables
    {
      if |orderedTables| != |unorderedTables| {
        return false;
      }
      var ids := orderedTables.Keys;
      while ids != {}
        invariant ids <= orderedTables.Keys
        invariant ContainedExcept(orderedTables, unorderedTables, ids)
        decreases |ids|
      {
        var t := PickElement(ids);
        if t !in unorderedTables {
          return false;
        }
        same := TableIsConsistent(t);
        if !same {
          return;
        }
        ContainedFurther(orderedTables, unorderedTables, ids, t);
        ids := ids - {t};
      }
      SameSizeSubmap(orderedTables, unorderedTables);
      same := true;
    }

    method GroupsAreConsistent() returns (same: bool)
      requires InShape(info, State(orderedTables, orderedGroups))
      ensures same <==> orderedGroups == unorderedGroups
    {
      if |unorderedGroups| != |orderedGroups| {
        return false;
      }
      var ids := orderedGroups.Keys;
      while ids != {}
        invariant ids <= orderedGroups.Keys
        invariant ContainedExcept(orderedGroups, unorderedGroups, ids)
        decreases |ids|
      {
        var id := PickElement(ids);
        assert GroupStored(State(orderedTables, orderedGroups), id);
        var unordered := GetMulticastGroupEntry(orderedGroups[id]);
        if unordered == None || orderedGroups[id] != unordered.value {
          return false;
        }
        ContainedFurther(orderedGroups, unorderedGroups, ids, id);
        ids := ids - {id};
      }
      SameSizeSubmap(orderedGroups, unorderedGroups);
      same := true;
    }

    method TableIsConsistent(t: int) returns (same: bool)
      requires InShape(info, State(orderedTables, orderedGroups)) && InShape(info, Contents())
      requires t in orderedTables && t in unorderedTables
      ensures same <==> orderedTables[t] == unorderedTables[t]
    {
      if |unorderedTables[t]| != |orderedTables[t]| {
        return false;
      }
      var keys := orderedTables[t].Keys;
      while keys != {}
        invariant keys <= orderedTables[t].Keys
        invariant ContainedExcept(orderedTables[t], unorderedTables[t], keys)
        decreases |keys|
      {
        var k := PickElement(keys);
        var entry := orderedTables[t][k];
        assert Stored(State(orderedTables, orderedGroups), t, k);
        CanonicalKeyCommutes(info, entry, false);
        var unordered := GetTableEntry(entry);
        if unordered == None || entry != unordered.value {
          return false;
        }
        ContainedFurther(orderedTables[t], unorderedTables[t], keys, k);
        keys := keys - {k};
      }
      SameSizeSubmap(orderedTables[t], unorderedTables[t]);
      same := true;
    }

    // ----- comparison -----

    /**
      Ok when the entries read from the switch are the stored ones; `mask` may excuse differences
      between entries of equal key.
     */
    method AssertEntriesAreEqualToState(switchEntries: seq<TableEntry>, mask: Mask) returns (code: StatusCode)
      requires Valid()
      ensures code == InvalidArgument <==> !AllCanonicalize(info, switchEntries)
      ensures code == Ok <==> ComparisonSucceeds(info, Contents(), mask, switchEntries)
      ensures Presentable(info, switchEntries) ==>
                (code == Ok <==> SameAsStored(Contents(), mask, switchEntries))
      ensures Presentable(info, switchEntries) && mask == None
              && (forall e :: e in switchEntries ==> !e.action.ActionSet?) ==>
                (code == Ok <==> (set e | e in switchEntries) == StoredSet(Contents().tables))
      ensures code in {Ok, InvalidArgument, FailedPrecondition}
    {
      CurrentTotals(info, Ledger(), Contents(), history);
      if Presentable(info, switchEntries) {
        ComparisonMeans(info, Contents(), mask, switchEntries);
        if mask == None && forall e :: e in switchEntries ==> !e.action.ActionSet? {
          ComparisonMeansEquality(info, Contents(), switchEntries);
        }
      }
      var sizeDiffers := |switchEntries| != currentEntries - multicastStats.entries;
      var scan := |switchEntries| != currentEntries;
      var invalid, mismatch, entryUniqueToSwitch := CompareEntries(switchEntries, mask);
      if invalid {
        return InvalidArgument;
      }
      if scan || entryUniqueToSwitch {
        var leftovers := FuzzerHasMore(switchEntries);
        mismatch := mismatch || leftovers;
      }
      code := if sizeDiffers || mismatch then FailedPrecondition else Ok;
    }

    /** Looks every entry up; stops at the first that cannot be canonicalized. */
    method CompareEntries(switchEntries: seq<TableEntry>, mask: Mask)
      returns (invalid: bool, mismatch: bool, entryUniqueToSwitch: bool)
      requires Synced()
      ensures invalid <==> !AllCanonicalize(info, switchEntries)
      ensures !invalid ==> (mismatch <==> !AllAgree(info, Contents(), mask, switchEntries))
      ensures entryUniqueToSwitch ==> mismatch
    {
      ghost var s := Contents();
      invalid, mismatch, entryUniqueToSwitch := false, false, false;
      for i := 0 to |switchEntries|
        invariant AllCanonicalize(info, switchEntries[..i])
        invariant mismatch <==> !AllAgree(info, s, mask, switchEntries[..i])
        invariant entryUniqueToSwitch ==> mismatch
        invariant !invalid
      {
        assert switchEntries[..i + 1] == switchEntries[..i] + [switchEntries[i]];
        var canonical := CanonicalizeTableEntry(info, switchEntries[i], false);
        if canonical == None {
          assert switchEntries[i] in switchEntries;
          invalid := true;
          return;
        }
        var fuzzerEntry := GetTableEntry(canonical.value);
        assert fuzzerEntry == FindEntry(info, s, canonical.value);
        assert switchEntries[i] in switchEntries[..i + 1];
        if fuzzerEntry == None {
          entryUniqueToSwitch, mismatch := true, true;
        } else if !SameEntry(fuzzerEntry.value, canonical.value) {
          if mask == None || !mask.value(fuzzerEntry.value, canonical.value) {
            mismatch := true;
          }
        }
      }
      assert switchEntries[..|switchEntries|] == switchEntries;
    }

    /** Erases every entry found on the switch from a copy of the tables and looks for what remains. */
    method FuzzerHasMore(switchEntries: seq<TableEntry>) returns (some: bool)
      requires Synced() && AllCanonicalize(info, switchEntries)
      ensures some <==> Leftover(info, Contents(), switchEntries) != {}
    {
      var copy := unorderedTables;
      for i := 0 to |switchEntries|
        invariant copy == Remaining(info, Contents(), switchEntries[..i])
        invariant copy.Keys == info.tables.Keys
      {
        assert switchEntries[..i + 1][..i] == switchEntries[..i];
        var e := switchEntries[i];
        assert e in switchEntries && EntryTranslates(info, e, false);
        if GetTableEntry(e).Some? {
          copy := copy[e.tableId := copy[e.tableId] - {KeyOf(e)}];
        }
      }
      assert switchEntries[..|switchEntries|] == switchEntries;
      RemainingIsLeftover(info, Contents(), switchEntries);
      some := exists t :: t in copy && copy[t] != map[];
    }
  }

  /** Every entity is canonical and sits under its own key, in its own table; tables may be missing. */
  ghost predicate InShape(info: P4Info, s: State)
  {
    (forall t, k {:trigger Stored(s, t, k)} :: Stored(s, t, k) ==> InPlace(info, t, k, s.tables[t][k]))
    && (forall id {:trigger GroupStored(s, id)} :: GroupStored(s, id) ==> GroupInPlace(info, id, s.groups[id]))
  }

  predicate ContainedExcept<K, V(==)>(a: map<K, V>, b: map<K, V>, rest: set<K>)
  {
    forall k :: k in a && k !in rest ==> k in b && a[k] == b[k]
  }

  lemma ContainedFurther<K, V>(a: map<K, V>, b: map<K, V>, rest: set<K>, k: K)
    requires ContainedExcept(a, b, rest) && k in a && k in b && a[k] == b[k]
    ensures ContainedExcept(a, b, rest - {k})
  {
  }

  /** Maps of equal size, one contained in the other, are equal. */
  lemma SameSizeSubmap<K, V>(a: map<K, V>, b: map<K, V>)
    requires |a| == |b| && ContainedExcept(a, b, {})
    ensures a == b
  {
    SubsetSizes(a.Keys, b.Keys);
    assert |a.Keys| == |a| && |b.Keys| == |b|;
    assert a.Keys == b.Keys;
    assert forall k :: k in b ==> k in a.Keys;
  }
}
