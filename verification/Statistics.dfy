/**
  The resource statistics of a switch state and their high-water marks. A measure is computed
  from a whole state; the accounts of SwitchState are incremental, and the lemmas say that the
  increments keep them equal to the measures and to the maxima over every state so far.
 */
module Statistics {
  import opened Common
  import opened P4Entries
  import opened StateModel

  // ----- groups -----

  function GroupOf(entry: TableEntry): seq<GroupMember>
  {
    if entry.action.ActionSet? then entry.action.members else []
  }

  function WeightOf(members: seq<GroupMember>): int
  {
    if members == [] then 0 else WeightOf(members[..|members| - 1]) + members[|members| - 1].weight
  }

  function EntryWeight(entry: TableEntry): int
  {
    WeightOf(GroupOf(entry))
  }

  function EntryMembers(entry: TableEntry): int
  {
    |GroupOf(entry)|
  }

  function ReplicaCount(group: MulticastGroup): int
  {
    |group.replicas|
  }

  function TableSize(table: Table): int
  {
    |table|
  }

  // ----- measures -----

  datatype Measure =
    | AllEntries
    | TableEntries(t: int)
    | TableWeight(t: int)
    | TableMembers(t: int)
    | LargestGroupWeight(t: int)
    | LargestGroupMembers(t: int)
    | MulticastEntries
    | Replicas
    | LargestReplicaCount

  /** A statistic of one state. */
  ghost function Of(s: State, m: Measure): int
  {
    match m
    case AllEntries => SumOver(s.tables, TableSize) + |s.groups|
    case TableEntries(t) => |TableOf(s, t)|
    case TableWeight(t) => SumOver(TableOf(s, t), EntryWeight)
    case TableMembers(t) => SumOver(TableOf(s, t), EntryMembers)
    case LargestGroupWeight(t) => MaxOver(TableOf(s, t), EntryWeight)
    case LargestGroupMembers(t) => MaxOver(TableOf(s, t), EntryMembers)
    case MulticastEntries => |s.groups|
    case Replicas => SumOver(s.groups, ReplicaCount)
    case LargestReplicaCount => MaxOver(s.groups, ReplicaCount)
  }

  /** The largest value a statistic has had over a history, and at least 0. */
  ghost function Peak(history: seq<State>, m: Measure): int
  {
    if history == [] then 0
    else Max(Peak(history[..|history| - 1], m), Of(history[|history| - 1], m))
  }

  lemma {:induction false} PeakBounds(history: seq<State>, m: Measure, i: nat)
    requires i < |history|
    ensures Of(history[i], m) <= Peak(history, m)
  {
    var earlier := history[..|history| - 1];
    if i < |earlier| {
      assert history[i] == earlier[i];
      PeakBounds(earlier, m, i);
    }
  }

  lemma {:induction false} PeakReached(history: seq<State>, m: Measure) returns (i: nat)
    ensures Peak(history, m) == 0 || (i < |history| && Of(history[i], m) == Peak(history, m))
  {
    i := 0;
    if history != [] {
      var n := |history| - 1;
      var earlier := history[..n];
      if Peak(history, m) == Of(history[n], m) {
        i := n;
      } else {
        i := PeakReached(earlier, m);
        assert i < n ==> history[i] == earlier[i];
      }
    }
  }

  /** Peak is an upper bound that is reached (or 0). */
  lemma PeakIsMaximum(history: seq<State>, m: Measure)
    ensures forall i :: 0 <= i < |history| ==> Of(history[i], m) <= Peak(history, m)
    ensures Peak(history, m) == 0 || exists i :: 0 <= i < |history| && Of(history[i], m) == Peak(history, m)
  {
    forall i | 0 <= i < |history| ensures Of(history[i], m) <= Peak(history, m) {
      PeakBounds(history, m, i);
    }
    var i := PeakReached(history, m);
  }

  lemma PeakExtend(history: seq<State>, s: State, m: Measure)
    ensures Peak(history + [s], m) == Max(Peak(history, m), Of(s, m))
  {
    assert (history + [s])[..|history|] == history;
  }

  // ----- how a single update moves the measures -----

  lemma {:induction false} WeightNonNegative(def: TableDefinition, members: seq<GroupMember>)
    requires forall m :: m in members ==> MemberTranslates(def, m)
    ensures WeightOf(members) >= |members|
  {
    if members != [] {
      var init := members[..|members| - 1];
      forall m | m in init ensures MemberTranslates(def, m) {
        assert m in members;
      }
      WeightNonNegative(def, init);
      assert members[|members| - 1] in members;
    }
  }

  /** Canonical groups have positive weights, and only one-shot tables hold groups. */
  lemma CanonicalGroup(info: P4Info, e: TableEntry)
    requires Canonical(info, TableEntity(e))
    ensures e.tableId in info.tables
    ensures EntryWeight(e) >= EntryMembers(e) >= 0
    ensures !info.tables[e.tableId].usesOneshot ==> EntryWeight(e) == EntryMembers(e) == 0
  {
    if e.action.ActionSet? {
      WeightNonNegative(info.tables[e.tableId], e.action.members);
    }
  }

  /** Measures of one table when an entry is put into it, by the entry it replaces (if any). */
  lemma TablePut(table: Table, e: TableEntry)
    ensures var k, rest := KeyOf(e), table - {KeyOf(e)};
            |table[k := e]| == |rest| + 1
            && SumOver(table[k := e], EntryWeight) == SumOver(rest, EntryWeight) + EntryWeight(e)
            && SumOver(table[k := e], EntryMembers) == SumOver(rest, EntryMembers) + EntryMembers(e)
            && MaxOver(table[k := e], EntryWeight) == Max(EntryWeight(e), MaxOver(rest, EntryWeight))
            && MaxOver(table[k := e], EntryMembers) == Max(EntryMembers(e), MaxOver(rest, EntryMembers))
  {
    SumUpdate(table, EntryWeight, KeyOf(e), e);
    SumUpdate(table, EntryMembers, KeyOf(e), e);
    MaxUpdate(table, EntryWeight, KeyOf(e), e);
    MaxUpdate(table, EntryMembers, KeyOf(e), e);
    assert table[KeyOf(e) := e] - {KeyOf(e)} == table - {KeyOf(e)};
    SizeRemove(table[KeyOf(e) := e], KeyOf(e));
  }

  lemma AllEntriesOfTable(s: State, t: int, table: Table)
    requires t in s.tables
    ensures Of(s.(tables := s.tables[t := table]), AllEntries) == Of(s, AllEntries) - |s.tables[t]| + |table|
  {
    SumUpdate(s.tables, TableSize, t, table);
    SumRemove(s.tables, TableSize, t);
  }

  lemma MulticastPut(groups: map<int, MulticastGroup>, g: MulticastGroup)
    ensures var rest := groups - {g.id};
            |groups[g.id := g]| == |rest| + 1
            && SumOver(groups[g.id := g], ReplicaCount) == SumOver(rest, ReplicaCount) + |g.replicas|
            && MaxOver(groups[g.id := g], ReplicaCount) == Max(|g.replicas|, MaxOver(rest, ReplicaCount))
  {
    SumUpdate(groups, ReplicaCount, g.id, g);
    MaxUpdate(groups, ReplicaCount, g.id, g);
    assert groups[g.id := g] - {g.id} == groups - {g.id};
    SizeRemove(groups[g.id := g], g.id);
  }

  lemma MulticastRemove(groups: map<int, MulticastGroup>, id: int)
    requires id in groups
    ensures |groups - {id}| == |groups| - 1
    ensures SumOver(groups - {id}, ReplicaCount) == SumOver(groups, ReplicaCount) - |groups[id].replicas|
    ensures MaxOver(groups, ReplicaCount) == Max(|groups[id].replicas|, MaxOver(groups - {id}, ReplicaCount))
  {
    SizeRemove(groups, id);
    SumRemove(groups, ReplicaCount, id);
    MaxRemove(groups, ReplicaCount, id);
  }

  // ----- the accounts of one table -----

  datatype ResourceStatistics = ResourceStatistics(entries: int, totalMembers: int, totalWeight: int)

  datatype PeakResourceStatistics = PeakResourceStatistics(
    entries: int, totalMembers: int, maxMembersPerGroup: int, totalWeight: int, maxGroupWeight: int)

  const NO_RESOURCES := ResourceStatistics(0, 0, 0)
  const NO_PEAKS := PeakResourceStatistics(0, 0, 0, 0, 0)

  /** The four numbers a statistics update touches: global and per-table, current and peak. */
  datatype Accounts = Accounts(entries: int, stats: ResourceStatistics, peakEntries: int, peaks: PeakResourceStatistics)

  ghost predicate StatsExact(stats: ResourceStatistics, s: State, t: int)
  {
    stats == ResourceStatistics(Of(s, TableEntries(t)), Of(s, TableMembers(t)), Of(s, TableWeight(t)))
  }

  ghost predicate PeaksExact(peaks: PeakResourceStatistics, history: seq<State>, t: int)
  {
    peaks == PeakResourceStatistics(
               Peak(history, TableEntries(t)), Peak(history, TableMembers(t)),
               Peak(history, LargestGroupMembers(t)), Peak(history, TableWeight(t)),
               Peak(history, LargestGroupWeight(t)))
  }

  ghost predicate MulticastStatsExact(stats: ResourceStatistics, s: State)
  {
    stats == ResourceStatistics(Of(s, MulticastEntries), Of(s, Replicas), 0)
  }

  ghost predicate MulticastPeaksExact(peaks: PeakResourceStatistics, history: seq<State>)
  {
    peaks == PeakResourceStatistics(
               Peak(history, MulticastEntries), Peak(history, Replicas), Peak(history, LargestReplicaCount), 0, 0)
  }

  /** Counting an inserted entry: every current figure grows, then every peak is raised. */
  function CountInsert(a: Accounts, oneshot: bool, weight: int, members: int): Accounts
  {
    var stats := ResourceStatistics(
                   a.stats.entries + 1,
                   if oneshot then a.stats.totalMembers + members else a.stats.totalMembers,
                   if oneshot then a.stats.totalWeight + weight else a.stats.totalWeight);
    Raise(Accounts(a.entries + 1, stats, a.peakEntries, a.peaks), oneshot, weight, members)
  }

  /** Counting a deleted entry, with the weight and members of the stored entry. */
  function CountDelete(a: Accounts, oneshot: bool, weight: int, members: int): Accounts
  {
    var stats := ResourceStatistics(
                   a.stats.entries - 1,
                   if oneshot then a.stats.totalMembers - members else a.stats.totalMembers,
                   if oneshot then a.stats.totalWeight - weight else a.stats.totalWeight);
    Raise(Accounts(a.entries - 1, stats, a.peakEntries, a.peaks), oneshot, weight, members)
  }

  function Raise(a: Accounts, oneshot: bool, weight: int, members: int): Accounts
  {
    var raised := a.peaks.(entries := Max(a.peaks.entries, a.stats.entries));
    Accounts(a.entries, a.stats, Max(a.peakEntries, a.entries),
             if oneshot then
               PeakResourceStatistics(
                 raised.entries,
                 Max(a.peaks.totalMembers, a.stats.totalMembers), Max(a.peaks.maxMembersPerGroup, members),
                 Max(a.peaks.totalWeight, a.stats.totalWeight), Max(a.peaks.maxGroupWeight, weight))
             else raised)
  }

  ghost predicate AccountsExact(a: Accounts, s: State, history: seq<State>, t: int)
  {
    a.entries == Of(s, AllEntries) && StatsExact(a.stats, s, t)
    && a.peakEntries == Peak(history, AllEntries) && PeaksExact(a.peaks, history, t)
  }

  ghost predicate EndsIn(history: seq<State>, s: State)
  {
    history != [] && history[|history| - 1] == s
  }

  lemma PeakAboveCurrent(history: seq<State>, s: State, m: Measure)
    requires EndsIn(history, s)
    ensures Of(s, m) <= Peak(history, m)
  {
  }

  lemma PeakNonNegative(history: seq<State>, m: Measure)
    ensures 0 <= Peak(history, m)
  {
  }

  lemma {:induction false} MaxNonNegative<K, V>(m: map<K, V>, f: V -> int)
    ensures MaxOver(m, f) >= 0
    decreases |m|
  {
    if m != map[] {
      var p := MaxPick(m, f);
      MaxNonNegative(m - {p}, f);
    }
  }

  /** s' has one entry more than s in table t, with the given group. */
  ghost predicate Inserted(s: State, s': State, t: int, weight: int, members: int)
  {
    Of(s', AllEntries) == Of(s, AllEntries) + 1
    && Of(s', TableEntries(t)) == Of(s, TableEntries(t)) + 1
    && Of(s', TableWeight(t)) == Of(s, TableWeight(t)) + weight
    && Of(s', TableMembers(t)) == Of(s, TableMembers(t)) + members
    && Of(s', LargestGroupWeight(t)) == Max(weight, Of(s, LargestGroupWeight(t)))
    && Of(s', LargestGroupMembers(t)) == Max(members, Of(s, LargestGroupMembers(t)))
  }

  /** How the measures of a state move when an absent canonical entry is put into its table. */
  lemma InsertMeasures(s: State, e: TableEntry)
    requires e.tableId in s.tables && KeyOf(e) !in s.tables[e.tableId]
    ensures Inserted(s, Put(s, TableEntity(e)), e.tableId, EntryWeight(e), EntryMembers(e))
  {
    var t, table := e.tableId, s.tables[e.tableId];
    TablePut(table, e);
    RemoveAbsent(table, KeyOf(e));
    AllEntriesOfTable(s, t, table[KeyOf(e) := e]);
  }

  /** How they move when a stored entry is removed: the largest group can only shrink. */
  lemma DeleteMeasures(s: State, k: TableEntryKey)
    requires Stored(s, k.tableId, k) && KeyOf(s.tables[k.tableId][k]) == k
    ensures var e := s.tables[k.tableId][k];
            Inserted(Remove(s, TableKey(k)), s, k.tableId, EntryWeight(e), EntryMembers(e))
  {
    var t, e, rest := k.tableId, s.tables[k.tableId][k], s.tables[k.tableId] - {k};
    var s' := Remove(s, TableKey(k));
    InsertMeasures(s', e);
    assert Put(s', TableEntity(e)) == s by {
      assert TableOf(s', t) == rest && rest[k := e] == s.tables[t];
      assert s'.tables[t := s.tables[t]] == s.tables;
    }
  }

  /** How the peak of one measure moves when a state is added to the history. */
  lemma PeakMoves(history: seq<State>, s: State, s': State, m: Measure)
    requires EndsIn(history, s)
    ensures Peak(history + [s'], m) == Max(Peak(history, m), Of(s', m))
    ensures Of(s, m) <= Peak(history, m) && 0 <= Peak(history, m)
  {
    PeakExtend(history, s', m);
    PeakNonNegative(history, m);
  }

  lemma TablePeaksMove(history: seq<State>, s: State, s': State, t: int)
    requires EndsIn(history, s)
    ensures forall m {:trigger OfTable(m, t)} :: OfTable(m, t) ==>
              Peak(history + [s'], m) == Max(Peak(history, m), Of(s', m))
              && Of(s, m) <= Peak(history, m) && 0 <= Peak(history, m)
  {
    forall m | OfTable(m, t)
      ensures Peak(history + [s'], m) == Max(Peak(history, m), Of(s', m))
      ensures Of(s, m) <= Peak(history, m) && 0 <= Peak(history, m)
    {
      PeakMoves(history, s, s', m);
    }
  }

  predicate OfTable(m: Measure, t: int)
  {
    m in {AllEntries, TableEntries(t), TableMembers(t), TableWeight(t), LargestGroupMembers(t), LargestGroupWeight(t)}
  }

  lemma AllOfTable(t: int)
    ensures OfTable(AllEntries, t) && OfTable(TableEntries(t), t) && OfTable(TableMembers(t), t)
    ensures OfTable(TableWeight(t), t) && OfTable(LargestGroupMembers(t), t) && OfTable(LargestGroupWeight(t), t)
  {
  }

  /** Inserting a canonical entry under an absent key keeps the accounts of its table exact. */
  lemma InsertKeepsExact(info: P4Info, a: Accounts, s: State, history: seq<State>, e: TableEntry)
    requires Canonical(info, TableEntity(e)) && EndsIn(history, s)
    requires AccountsExact(a, s, history, e.tableId)
    requires e.tableId in s.tables && KeyOf(e) !in s.tables[e.tableId]
    ensures e.tableId in info.tables
    ensures var s' := Put(s, TableEntity(e));
            AccountsExact(CountInsert(a, info.tables[e.tableId].usesOneshot, EntryWeight(e), EntryMembers(e)),
                          s', history + [s'], e.tableId)
  {
    var t, s' := e.tableId, Put(s, TableEntity(e));
    CanonicalGroup(info, e);
    InsertMeasures(s, e);
    TablePeaksMove(history, s, s', t);
    AllOfTable(t);
    CountExact(a, info.tables[t].usesOneshot, EntryWeight(e), EntryMembers(e), s, history, s', t);
  }

  /** The arithmetic of one count: what goes in or out moves the figures the way the measures move. */
  lemma CountExact(a: Accounts, oneshot: bool, weight: int, members: int,
                   s: State, history: seq<State>, s': State, t: int)
    requires AccountsExact(a, s, history, t) && weight >= 0 && members >= 0
    requires oneshot || weight == members == 0
    requires forall m {:trigger OfTable(m, t)} :: OfTable(m, t) ==>
               Peak(history + [s'], m) == Max(Peak(history, m), Of(s', m))
               && Of(s, m) <= Peak(history, m) && 0 <= Peak(history, m)
    ensures Inserted(s, s', t, weight, members) ==>
              AccountsExact(CountInsert(a, oneshot, weight, members), s', history + [s'], t)
    ensures Inserted(s', s, t, weight, members) ==>
              AccountsExact(CountDelete(a, oneshot, weight, members), s', history + [s'], t)
  {
    AllOfTable(t);
  }

  /** Deleting a stored entry keeps the accounts exact: no peak moves. */
  lemma DeleteKeepsExact(info: P4Info, a: Accounts, s: State, history: seq<State>, k: TableEntryKey)
    requires WellFormed(info, s) && EndsIn(history, s)
    requires AccountsExact(a, s, history, k.tableId) && Stored(s, k.tableId, k)
    ensures var s', e := Remove(s, TableKey(k)), s.tables[k.tableId][k];
            AccountsExact(CountDelete(a, info.tables[k.tableId].usesOneshot, EntryWeight(e), EntryMembers(e)),
                          s', history + [s'], k.tableId)
  {
    var t, s', e := k.tableId, Remove(s, TableKey(k)), s.tables[k.tableId][k];
    CanonicalGroup(info, e);
    DeleteMeasures(s, k);
    TablePeaksMove(history, s, s', t);
    CountExact(a, info.tables[t].usesOneshot, EntryWeight(e), EntryMembers(e), s, history, s', t);
  }

  /** Removing a stored entry raises no measure. */
  lemma RemoveLowersMeasures(info: P4Info, s: State, key: EntityKey, m: Measure)
    requires WellFormed(info, s) && Lookup(s, key).Some?
    ensures Of(Remove(s, key), m) <= Of(s, m)
  {
    match key
    case TableKey(k) => RemoveEntryLowers(info, s, k, m);
    case MulticastKey(id) => MulticastRemove(s.groups, id);
  }

  lemma RemoveEntryLowers(info: P4Info, s: State, k: TableEntryKey, m: Measure)
    requires WellFormed(info, s) && Stored(s, k.tableId, k)
    ensures Of(Remove(s, TableKey(k)), m) <= Of(s, m)
  {
    var t, e, after := k.tableId, s.tables[k.tableId][k], Remove(s, TableKey(k));
    CanonicalGroup(info, e);
    DeleteMeasures(s, k);
    if MeasureTable(m) == Some(t) {
      OwnTableLowers(after, s, t, EntryWeight(e), EntryMembers(e), m);
    } else {
      OtherTableSame(after, s, t, m);
    }
  }

  /** The table that a measure is about, if it is about one. */
  function MeasureTable(m: Measure): Option<int>
  {
    match m
    case TableEntries(t) => Some(t)
    case TableWeight(t) => Some(t)
    case TableMembers(t) => Some(t)
    case LargestGroupWeight(t) => Some(t)
    case LargestGroupMembers(t) => Some(t)
    case _ => None
  }

  lemma OwnTableLowers(s: State, s': State, t: int, weight: int, members: int, m: Measure)
    requires Inserted(s, s', t, weight, members) && weight >= 0 && members >= 0 && MeasureTable(m) == Some(t)
    ensures Of(s, m) <= Of(s', m)
  {
  }

  lemma OtherTableSame(s: State, s': State, t: int, m: Measure)
    requires MeasureTable(m) != Some(t) && s.groups == s'.groups
    requires Of(s, AllEntries) <= Of(s', AllEntries)
    requires forall u :: u != t ==> TableOf(s, u) == TableOf(s', u)
    ensures Of(s, m) <= Of(s', m)
  {
  }

  /** A removal in the middle of a history leaves no trace in any peak. */
  lemma PeakSkipsRemoval(info: P4Info, history: seq<State>, s: State, key: EntityKey, s': State, m: Measure)
    requires WellFormed(info, s) && EndsIn(history, s) && Lookup(s, key).Some?
    ensures Peak(history + [Remove(s, key)] + [s'], m) == Peak(history + [s'], m)
  {
    PeakExtend(history, Remove(s, key), m);
    PeakExtend(history + [Remove(s, key)], s', m);
    PeakExtend(history, s', m);
    RemoveLowersMeasures(info, s, key, m);
    PeakAboveCurrent(history, s, m);
  }

  /** MODIFY, counted as DELETE of the stored entry and INSERT of the new one, is exact too. */
  lemma ModifyKeepsExact(info: P4Info, a: Accounts, s: State, history: seq<State>, e: TableEntry)
    requires WellFormed(info, s) && Canonical(info, TableEntity(e)) && EndsIn(history, s)
    requires AccountsExact(a, s, history, e.tableId)
    requires e.tableId in s.tables && KeyOf(e) in s.tables[e.tableId]
    ensures var s', old', oneshot := Put(s, TableEntity(e)), s.tables[e.tableId][KeyOf(e)],
                                     info.tables[e.tableId].usesOneshot;
            AccountsExact(CountInsert(CountDelete(a, oneshot, EntryWeight(old'), EntryMembers(old')),
                                      oneshot, EntryWeight(e), EntryMembers(e)),
                          s', history + [s'], e.tableId)
  {
    var t, k := e.tableId, KeyOf(e);
    var old', oneshot := s.tables[t][k], info.tables[t].usesOneshot;
    var s', mid := Put(s, TableEntity(e)), Remove(s, TableKey(k));
    DeleteKeepsExact(info, a, s, history, k);
    var b := CountDelete(a, oneshot, EntryWeight(old'), EntryMembers(old'));
    assert WellFormed(info, mid) by { RemoveWellFormed(info, s, TableKey(k)); }
    InsertKeepsExact(info, b, mid, history + [mid], e);
    PutAfterRemove(s, e);
    SkipRemoval(info, CountInsert(b, oneshot, EntryWeight(e), EntryMembers(e)), s, history, TableKey(k), s', t);
  }

  lemma PutAfterRemove(s: State, e: TableEntry)
    requires e.tableId in s.tables
    ensures Put(Remove(s, TableKey(KeyOf(e))), TableEntity(e)) == Put(s, TableEntity(e))
  {
    var t, k := e.tableId, KeyOf(e);
    var mid := Remove(s, TableKey(k));
    assert mid.tables[t][k := e] == s.tables[t][k := e];
    assert mid.tables[t := mid.tables[t][k := e]] == s.tables[t := s.tables[t][k := e]];
  }

  lemma RemoveWellFormed(info: P4Info, s: State, key: EntityKey)
    requires WellFormed(info, s) && Lookup(s, key).Some?
    ensures WellFormed(info, Remove(s, key))
  {
    var s' := Remove(s, key);
    if key.TableKey? {
      assert key.key.tableId in s.tables;
    }
    forall t, k | Stored(s', t, k)
      ensures InPlace(info, t, k, s'.tables[t][k])
    {
      assert Stored(s, t, k);
    }
    forall id | GroupStored(s', id)
      ensures GroupInPlace(info, id, s'.groups[id])
    {
      assert GroupStored(s, id);
    }
  }

  lemma SkipRemoval(info: P4Info, a: Accounts, s: State, history: seq<State>, key: EntityKey, s': State, t: int)
    requires WellFormed(info, s) && EndsIn(history, s) && Lookup(s, key).Some?
    requires AccountsExact(a, s', history + [Remove(s, key)] + [s'], t)
    ensures AccountsExact(a, s', history + [s'], t)
  {
    PeakSkipsRemoval(info, history, s, key, s', AllEntries);
    PeakSkipsRemoval(info, history, s, key, s', TableEntries(t));
    PeakSkipsRemoval(info, history, s, key, s', TableMembers(t));
    PeakSkipsRemoval(info, history, s, key, s', LargestGroupMembers(t));
    PeakSkipsRemoval(info, history, s, key, s', TableWeight(t));
    PeakSkipsRemoval(info, history, s, key, s', LargestGroupWeight(t));
  }

  /** Changing one table leaves the statistics and peaks of every other table and of multicast alone. */
  lemma OtherTablesUntouched(history: seq<State>, s: State, s': State, t: int, u: int)
    requires EndsIn(history, s) && t != u
    requires s' == s.(tables := s.tables[t := TableOf(s', t)])
    ensures forall stats :: StatsExact(stats, s, u) ==> StatsExact(stats, s', u)
    ensures forall peaks :: PeaksExact(peaks, history, u) ==> PeaksExact(peaks, history + [s'], u)
  {
  }

  lemma MulticastPeaksMove(history: seq<State>, s: State, s': State)
    requires EndsIn(history, s)
    ensures forall m {:trigger OfMulticast(m)} :: OfMulticast(m) ==>
              Peak(history + [s'], m) == Max(Peak(history, m), Of(s', m))
              && Of(s, m) <= Peak(history, m) && 0 <= Peak(history, m)
    ensures OfMulticast(AllEntries) && OfMulticast(MulticastEntries) && OfMulticast(Replicas)
    ensures OfMulticast(LargestReplicaCount)
  {
    forall m | OfMulticast(m)
      ensures Peak(history + [s'], m) == Max(Peak(history, m), Of(s', m))
      ensures Of(s, m) <= Peak(history, m) && 0 <= Peak(history, m)
    {
      PeakMoves(history, s, s', m);
    }
  }

  predicate OfMulticast(m: Measure)
  {
    m in {AllEntries, MulticastEntries, Replicas, LargestReplicaCount}
  }

  lemma MulticastUntouched(history: seq<State>, s: State, s': State)
    requires EndsIn(history, s) && s'.groups == s.groups
    ensures forall stats :: MulticastStatsExact(stats, s) ==> MulticastStatsExact(stats, s')
    ensures forall peaks :: MulticastPeaksExact(peaks, history) ==> MulticastPeaksExact(peaks, history + [s'])
  {
  }

  lemma TablesUntouched(history: seq<State>, s: State, s': State, t: int)
    requires EndsIn(history, s) && s'.tables == s.tables
    ensures forall stats :: StatsExact(stats, s, t) ==> StatsExact(stats, s', t)
    ensures forall peaks :: PeaksExact(peaks, history, t) ==> PeaksExact(peaks, history + [s'], t)
  {
  }

  // ----- the multicast accounts -----

  /** Counting an inserted group of the given number of replicas. */
  function CountMulticastInsert(a: Accounts, replicas: int): Accounts
  {
    RaiseMulticast(Accounts(a.entries + 1,
                            ResourceStatistics(a.stats.entries + 1, a.stats.totalMembers + replicas,
                                               a.stats.totalWeight),
                            a.peakEntries, a.peaks),
                   replicas)
  }

  /** Counting a deleted group: `stored` replicas go, and the peak per group sees `named` replicas. */
  function CountMulticastDelete(a: Accounts, stored: int, named: int): Accounts
  {
    RaiseMulticast(Accounts(a.entries - 1,
                            ResourceStatistics(a.stats.entries - 1, a.stats.totalMembers - stored, a.stats.totalWeight),
                            a.peakEntries, a.peaks),
                   named)
  }

  function RaiseMulticast(a: Accounts, named: int): Accounts
  {
    Accounts(a.entries, a.stats, Max(a.peakEntries, a.entries),
             a.peaks.(entries := Max(a.peaks.entries, a.stats.entries),
                      totalMembers := Max(a.peaks.totalMembers, a.stats.totalMembers),
                      maxMembersPerGroup := Max(a.peaks.maxMembersPerGroup, named)))
  }

  ghost predicate MulticastAccountsExact(a: Accounts, s: State, history: seq<State>)
  {
    a.entries == Of(s, AllEntries) && MulticastStatsExact(a.stats, s)
    && a.peakEntries == Peak(history, AllEntries) && MulticastPeaksExact(a.peaks, history)
  }

  lemma MulticastInsertKeepsExact(a: Accounts, s: State, history: seq<State>, g: MulticastGroup)
    requires EndsIn(history, s) && MulticastAccountsExact(a, s, history) && g.id !in s.groups
    ensures var s' := Put(s, MulticastEntity(g));
            MulticastAccountsExact(CountMulticastInsert(a, |g.replicas|), s', history + [s'])
  {
    var s' := Put(s, MulticastEntity(g));
    MulticastPut(s.groups, g);
    RemoveAbsent(s.groups, g.id);
    MulticastPeaksMove(history, s, s');
    MaxNonNegative(s.groups, ReplicaCount);
  }

  /** `named` is what the deleting update carries: nothing after key-only canonicalization, or the stored group. */
  lemma MulticastDeleteKeepsExact(a: Accounts, s: State, history: seq<State>, id: int, named: int)
    requires EndsIn(history, s) && MulticastAccountsExact(a, s, history) && id in s.groups
    requires named == 0 || named == |s.groups[id].replicas|
    ensures var s' := Remove(s, MulticastKey(id));
            MulticastAccountsExact(CountMulticastDelete(a, |s.groups[id].replicas|, named), s', history + [s'])
  {
    var s' := Remove(s, MulticastKey(id));
    MulticastRemove(s.groups, id);
    MulticastPeaksMove(history, s, s');
  }

  lemma MulticastModifyKeepsExact(info: P4Info, a: Accounts, s: State, history: seq<State>, g: MulticastGroup)
    requires WellFormed(info, s) && EndsIn(history, s) && MulticastAccountsExact(a, s, history) && g.id in s.groups
    ensures var s', stored := Put(s, MulticastEntity(g)), |s.groups[g.id].replicas|;
            MulticastAccountsExact(CountMulticastInsert(CountMulticastDelete(a, stored, stored), |g.replicas|),
                                   s', history + [s'])
  {
    var s', mid := Put(s, MulticastEntity(g)), Remove(s, MulticastKey(g.id));
    var stored := |s.groups[g.id].replicas|;
    MulticastDeleteKeepsExact(a, s, history, g.id, stored);
    MulticastInsertKeepsExact(CountMulticastDelete(a, stored, stored), mid, history + [mid], g);
    assert mid.groups[g.id := g] == s.groups[g.id := g];
    assert Put(mid, MulticastEntity(g)) == s';
    forall m: Measure ensures Peak(history + [mid] + [s'], m) == Peak(history + [s'], m) {
      PeakSkipsRemoval(info, history, s, MulticastKey(g.id), s', m);
    }
  }

  // ----- the books of the whole state -----

  /** All statistics fields of SwitchState together. */
  datatype Books = Books(
    currentStats: map<int, ResourceStatistics>,
    peakStats: map<int, PeakResourceStatistics>,
    currentEntries: int,
    peakEntriesSeen: int,
    multicastStats: ResourceStatistics,
    multicastPeaks: PeakResourceStatistics)
  {
    predicate ForTables(info: P4Info)
    {
      currentStats.Keys == info.tables.Keys && peakStats.Keys == info.tables.Keys
    }
  }

  ghost predicate TableBooked(b: Books, s: State, history: seq<State>, t: int)
  {
    t in b.currentStats && StatsExact(b.currentStats[t], s, t)
    && t in b.peakStats && PeaksExact(b.peakStats[t], history, t)
  }

  /** The figures that are kept: global ones, those of one table, those of multicast. */
  datatype Figure = Totals | PerTable(t: int) | PerMulticast

  ghost predicate Booked(info: P4Info, b: Books, s: State, history: seq<State>, f: Figure)
  {
    match f
    case Totals => b.currentEntries == Of(s, AllEntries) && b.peakEntriesSeen == Peak(history, AllEntries)
    case PerTable(t) => t in info.tables ==> TableBooked(b, s, history, t)
    case PerMulticast =>
      MulticastStatsExact(b.multicastStats, s) && MulticastPeaksExact(b.multicastPeaks, history)
  }

  /** Every statistic is the measure of the current state, every peak the maximum over the history. */
  ghost predicate BooksExact(info: P4Info, b: Books, s: State, history: seq<State>)
  {
    b.ForTables(info) && EndsIn(history, s)
    && forall f {:trigger Booked(info, b, s, history, f)} :: Booked(info, b, s, history, f)
  }

  /** What exact books say, spelled out. */
  lemma Unbook(info: P4Info, b: Books, s: State, history: seq<State>)
    requires BooksExact(info, b, s, history)
    ensures b.currentEntries == Of(s, AllEntries) && b.peakEntriesSeen == Peak(history, AllEntries)
    ensures forall t {:trigger TableBooked(b, s, history, t)} :: t in info.tables ==> TableBooked(b, s, history, t)
    ensures MulticastStatsExact(b.multicastStats, s) && MulticastPeaksExact(b.multicastPeaks, history)
  {
    assert Booked(info, b, s, history, Totals) && Booked(info, b, s, history, PerMulticast);
    forall t | t in info.tables ensures TableBooked(b, s, history, t) {
      assert Booked(info, b, s, history, PerTable(t));
    }
  }

  /** The current figures of every table, of multicast and of the whole state, from what is stored. */
  lemma CurrentTotals(info: P4Info, b: Books, s: State, history: seq<State>)
    requires BooksExact(info, b, s, history)
    ensures b.currentEntries == Of(s, AllEntries)
    ensures b.multicastStats.entries == |s.groups| && b.multicastStats.totalMembers == Of(s, Replicas)
    ensures b.currentStats.Keys == info.tables.Keys
    ensures forall t :: t in info.tables ==>
              b.currentStats[t] == ResourceStatistics(|TableOf(s, t)|, SumOver(TableOf(s, t), EntryMembers),
                                                      SumOver(TableOf(s, t), EntryWeight))
  {
    Unbook(info, b, s, history);
    forall t | t in info.tables
      ensures b.currentStats[t] == ResourceStatistics(|TableOf(s, t)|, SumOver(TableOf(s, t), EntryMembers),
                                                      SumOver(TableOf(s, t), EntryWeight))
    {
      assert TableBooked(b, s, history, t);
    }
  }

  function AccountsOf(b: Books, t: int): Accounts
    requires t in b.currentStats && t in b.peakStats
  {
    Accounts(b.currentEntries, b.currentStats[t], b.peakEntriesSeen, b.peakStats[t])
  }

  function WithAccounts(b: Books, t: int, a: Accounts): Books
  {
    b.(currentEntries := a.entries, currentStats := b.currentStats[t := a.stats],
       peakEntriesSeen := a.peakEntries, peakStats := b.peakStats[t := a.peaks])
  }

  /** Booking an update of one table; a MODIFY books a DELETE of what is stored and then an INSERT. */
  function BookTable(info: P4Info, b: Books, table: Table, e: TableEntry, kind: UpdateType): Books
    requires b.ForTables(info) && e.tableId in info.tables
  {
    var t := e.tableId;
    var oneshot := info.tables[t].usesOneshot;
    var stored := if KeyOf(e) in table then table[KeyOf(e)] else e;
    var a := AccountsOf(b, t);
    match kind
    case Insert => WithAccounts(b, t, CountInsert(a, oneshot, EntryWeight(e), EntryMembers(e)))
    case Delete => WithAccounts(b, t, CountDelete(a, oneshot, EntryWeight(stored), EntryMembers(stored)))
    case Modify =>
      var d := CountDelete(a, oneshot, EntryWeight(stored), EntryMembers(stored));
      WithAccounts(b, t, CountInsert(d, oneshot, EntryWeight(e), EntryMembers(e)))
    case Unspecified => b
  }

  /** A MODIFY books what a DELETE of the stored entry followed by an INSERT books. */
  lemma BookModify(info: P4Info, b: Books, table: Table, e: TableEntry)
    requires b.ForTables(info) && e.tableId in info.tables
    requires KeyOf(e) in table && KeyOf(table[KeyOf(e)]) == KeyOf(e)
    ensures var d := BookTable(info, b, table, table[KeyOf(e)], Delete);
            d.ForTables(info) && BookTable(info, d, table, e, Insert) == BookTable(info, b, table, e, Modify)
  {
  }

  function MulticastAccounts(b: Books): Accounts
  {
    Accounts(b.currentEntries, b.multicastStats, b.peakEntriesSeen, b.multicastPeaks)
  }

  function WithMulticastAccounts(b: Books, a: Accounts): Books
  {
    b.(currentEntries := a.entries, multicastStats := a.stats, peakEntriesSeen := a.peakEntries,
       multicastPeaks := a.peaks)
  }

  function BookMulticast(b: Books, groups: map<int, MulticastGroup>, g: MulticastGroup, kind: UpdateType): Books
  {
    var stored := if g.id in groups then |groups[g.id].replicas| else 0;
    var a := MulticastAccounts(b);
    match kind
    case Insert => WithMulticastAccounts(b, CountMulticastInsert(a, |g.replicas|))
    case Delete => WithMulticastAccounts(b, CountMulticastDelete(a, stored, |g.replicas|))
    case Modify =>
      WithMulticastAccounts(b, CountMulticastInsert(CountMulticastDelete(a, stored, stored), |g.replicas|))
    case Unspecified => b
  }

  /** Exact accounts for the updated table, with everything else untouched, make exact books. */
  lemma TableBooksExact(info: P4Info, b: Books, s: State, history: seq<State>, s': State, t: int, a: Accounts)
    requires BooksExact(info, b, s, history) && t in info.tables
    requires s' == s.(tables := s.tables[t := TableOf(s', t)])
    requires AccountsExact(a, s', history + [s'], t)
    ensures BooksExact(info, WithAccounts(b, t, a), s', history + [s'])
  {
    Unbook(info, b, s, history);
    var b' := WithAccounts(b, t, a);
    forall u | u in info.tables
      ensures TableBooked(b', s', history + [s'], u)
    {
      assert TableBooked(b, s, history, u);
      if u != t {
        OtherTablesUntouched(history, s, s', t, u);
      }
    }
    MulticastUntouched(history, s, s');
  }

  /** Booking any table update that applies keeps the books exact. */
  lemma BookTableExact(info: P4Info, b: Books, s: State, history: seq<State>, u: Update)
    requires WellFormed(info, s) && BooksExact(info, b, s, history)
    requires u.entity.TableEntity? && Apply(info, s, u).Some?
    ensures var e, s' := Subject(info, u).value.entry, Apply(info, s, u).value;
            e.tableId in info.tables
            && BooksExact(info, BookTable(info, b, TableOf(s, e.tableId), e, u.kind), s', history + [s'])
  {
    Unbook(info, b, s, history);
    var e, s' := Subject(info, u).value.entry, Apply(info, s, u).value;
    var t := e.tableId;
    assert TableBooked(b, s, history, t);
    if u.kind.Delete? {
      DeleteKeepsExact(info, AccountsOf(b, t), s, history, KeyOf(e));
      var old' := s.tables[t][KeyOf(e)];
      TableBooksExact(info, b, s, history, s', t,
                      CountDelete(AccountsOf(b, t), info.tables[t].usesOneshot, EntryWeight(old'), EntryMembers(old')));
    } else {
      SubjectCanonical(info, u);
      PutBooksExact(info, b, s, history, e, u.kind);
    }
  }

  lemma PutBooksExact(info: P4Info, b: Books, s: State, history: seq<State>, e: TableEntry, kind: UpdateType)
    requires WellFormed(info, s) && BooksExact(info, b, s, history) && Canonical(info, TableEntity(e))
    requires e.tableId in info.tables
    requires kind == if KeyOf(e) in s.tables[e.tableId] then Modify else Insert
    ensures var s' := Put(s, TableEntity(e));
            BooksExact(info, BookTable(info, b, s.tables[e.tableId], e, kind), s', history + [s'])
  {
    Unbook(info, b, s, history);
    var t, s', a := e.tableId, Put(s, TableEntity(e)), AccountsOf(b, e.tableId);
    var oneshot := info.tables[t].usesOneshot;
    assert TableBooked(b, s, history, t);
    if kind.Insert? {
      InsertKeepsExact(info, a, s, history, e);
      TableBooksExact(info, b, s, history, s', t, CountInsert(a, oneshot, EntryWeight(e), EntryMembers(e)));
    } else {
      var stored := s.tables[t][KeyOf(e)];
      ModifyKeepsExact(info, a, s, history, e);
      var d := CountDelete(a, oneshot, EntryWeight(stored), EntryMembers(stored));
      TableBooksExact(info, b, s, history, s', t, CountInsert(d, oneshot, EntryWeight(e), EntryMembers(e)));
    }
  }

  lemma MulticastBooksExact(info: P4Info, b: Books, s: State, history: seq<State>, s': State, a: Accounts)
    requires BooksExact(info, b, s, history) && s'.tables == s.tables
    requires MulticastAccountsExact(a, s', history + [s'])
    ensures BooksExact(info, WithMulticastAccounts(b, a), s', history + [s'])
  {
    Unbook(info, b, s, history);
    forall u | u in info.tables
      ensures TableBooked(WithMulticastAccounts(b, a), s', history + [s'], u)
    {
      assert TableBooked(b, s, history, u);
      TablesUntouched(history, s, s', u);
    }
  }

  lemma BookMulticastExact(info: P4Info, b: Books, s: State, history: seq<State>, u: Update)
    requires WellFormed(info, s) && BooksExact(info, b, s, history)
    requires u.entity.MulticastEntity? && Apply(info, s, u).Some?
    ensures var s' := Apply(info, s, u).value;
            BooksExact(info, BookMulticast(b, s.groups, Subject(info, u).value.group, u.kind), s', history + [s'])
  {
    Unbook(info, b, s, history);
    var g, s', a := Subject(info, u).value.group, Apply(info, s, u).value, MulticastAccounts(b);
    assert MulticastAccountsExact(a, s, history);
    match u.kind
    case Insert =>
      MulticastInsertKeepsExact(a, s, history, g);
      MulticastBooksExact(info, b, s, history, s', CountMulticastInsert(a, |g.replicas|));
    case Delete =>
      MulticastDeleteKeepsExact(a, s, history, g.id, |g.replicas|);
      MulticastBooksExact(info, b, s, history, s', CountMulticastDelete(a, |s.groups[g.id].replicas|, |g.replicas|));
    case Modify =>
      MulticastModifyKeepsExact(info, a, s, history, g);
      var stored := |s.groups[g.id].replicas|;
      MulticastBooksExact(info, b, s, history, s',
                          CountMulticastInsert(CountMulticastDelete(a, stored, stored), |g.replicas|));
  }

  function BookUpdate(info: P4Info, b: Books, s: State, u: Update): Books
    requires b.ForTables(info) && Subject(info, u).Some?
    requires Subject(info, u).value.TableEntity? ==> Subject(info, u).value.entry.tableId in info.tables
  {
    match Subject(info, u).value
    case TableEntity(e) => BookTable(info, b, TableOf(s, e.tableId), e, u.kind)
    case MulticastEntity(g) => BookMulticast(b, s.groups, g, u.kind)
  }

  /** Booking any update that applies keeps the books exact. */
  lemma BookExact(info: P4Info, b: Books, s: State, history: seq<State>, u: Update)
    requires WellFormed(info, s) && BooksExact(info, b, s, history) && Apply(info, s, u).Some?
    ensures var s' := Apply(info, s, u).value;
            (u.entity.TableEntity? ==> u.entity.entry.tableId in info.tables)
            && BooksExact(info, BookUpdate(info, b, s, u), s', history + [s'])
  {
    if u.entity.TableEntity? {
      BookTableExact(info, b, s, history, u);
    } else {
      BookMulticastExact(info, b, s, history, u);
    }
  }

  // ----- what one update of a table does to the figures -----

  function MembersIn(action: TableAction): int
  {
    if action.ActionSet? then |action.members| else 0
  }

  function WeightIn(action: TableAction): int
  {
    if action.ActionSet? then WeightOf(action.members) else 0
  }

  /**
    From the figures before to those after an update of table t: what comes and what goes is counted in
    entries, and on one-shot tables in members and weight; the peaks have seen what came.
   */
  predicate Moved(before: Books, after: Books, tables: set<int>, t: int, oneshot: bool, kind: UpdateType,
                  come: TableAction, go: TableAction)
    requires tables == before.currentStats.Keys == before.peakStats.Keys
    requires tables == after.currentStats.Keys == after.peakStats.Keys && t in tables
  {
    var entries := if kind.Insert? then 1 else if kind.Delete? then -1 else 0;
    var was, now, peaks := before.currentStats[t], after.currentStats[t], after.peakStats[t];
    && after.currentEntries == before.currentEntries + entries && after.peakEntriesSeen >= after.currentEntries
    && now.entries == was.entries + entries && peaks.entries >= now.entries
    && (oneshot ==>
          && now.totalMembers == was.totalMembers + MembersIn(come) - MembersIn(go)
          && now.totalWeight == was.totalWeight + WeightIn(come) - WeightIn(go)
          && peaks.totalMembers >= now.totalMembers && peaks.totalWeight >= now.totalWeight
          && (!kind.Delete? ==>
                peaks.maxMembersPerGroup >= MembersIn(come) && peaks.maxGroupWeight >= WeightIn(come)))
    && (forall u :: u in tables && u != t ==>
          after.currentStats[u] == before.currentStats[u] && after.peakStats[u] == before.peakStats[u])
  }

  /** The group that comes is that of the update as it was given, the one that goes is the stored one. */
  predicate FiguresMoved(info: P4Info, before: Books, after: Books, s: State, e: TableEntry, kind: UpdateType)
  {
    && before.ForTables(info) && after.ForTables(info) && e.tableId in info.tables && e.tableId in s.tables
    && (!kind.Insert? ==> StripKey(KeyOf(e)) in s.tables[e.tableId])
    && Moved(before, after, info.tables.Keys, e.tableId, info.tables[e.tableId].usesOneshot, kind,
             if kind.Delete? then NoAction else e.action,
             if kind.Insert? then NoAction else s.tables[e.tableId][StripKey(KeyOf(e))].action)
  }

  lemma BookTableMoves(info: P4Info, b: Books, table: Table, e: TableEntry, kind: UpdateType)
    requires b.ForTables(info) && e.tableId in info.tables && !kind.Unspecified?
    requires !kind.Insert? ==> KeyOf(e) in table
    ensures var after := BookTable(info, b, table, e, kind);
            after.ForTables(info)
            && Moved(b, after, info.tables.Keys, e.tableId, info.tables[e.tableId].usesOneshot, kind,
                     if kind.Delete? then NoAction else e.action,
                     if kind.Insert? then NoAction else table[KeyOf(e)].action)
  {
  }

  lemma SameGroupMoves(before: Books, after: Books, tables: set<int>, t: int, oneshot: bool, kind: UpdateType,
                       come: TableAction, given: TableAction, go: TableAction)
    requires tables == before.currentStats.Keys == before.peakStats.Keys
    requires tables == after.currentStats.Keys == after.peakStats.Keys && t in tables
    requires Moved(before, after, tables, t, oneshot, kind, come, go)
    requires MembersIn(come) == MembersIn(given) && WeightIn(come) == WeightIn(given)
    ensures Moved(before, after, tables, t, oneshot, kind, given, go)
  {
  }

  lemma {:induction false} StrippedWeight(members: seq<GroupMember>)
    ensures |StripMembers(members)| == |members| && WeightOf(StripMembers(members)) == WeightOf(members)
  {
    if members != [] {
      var init := members[..|members| - 1];
      StrippedWeight(init);
      assert StripMembers(members)[..|members| - 1] == StripMembers(init);
    }
  }

  lemma BookedFigures(info: P4Info, b: Books, s: State, u: Update)
    requires WellFormed(info, s) && b.ForTables(info) && u.entity.TableEntity? && Apply(info, s, u).Some?
    ensures Subject(info, u).Some? && Subject(info, u).value.TableEntity?
            && Subject(info, u).value.entry.tableId in info.tables
    ensures FiguresMoved(info, b, BookUpdate(info, b, s, u), s, u.entity.entry, u.kind)
  {
    var e, c := u.entity.entry, Subject(info, u).value.entry;
    CanonicalKeyCommutes(info, e, u.kind.Delete?);
    ApplyToTable(info, s, u, c);
    var table, after := s.tables[e.tableId], BookUpdate(info, b, s, u);
    BookTableMoves(info, b, table, c, u.kind);
    if e.action.ActionSet? {
      StrippedWeight(e.action.members);
    }
    SameGroupMoves(b, after, info.tables.Keys, e.tableId, info.tables[e.tableId].usesOneshot, u.kind,
                   if u.kind.Delete? then NoAction else c.action, if u.kind.Delete? then NoAction else e.action,
                   if u.kind.Insert? then NoAction else table[KeyOf(c)].action);
  }

  // ----- clearing -----

  lemma EmptyMeasures(info: P4Info)
    ensures WellFormed(info, EmptyState(info))
    ensures forall m :: Of(EmptyState(info), m) == 0 && Peak([EmptyState(info)], m) == 0
  {
    var s := EmptyState(info);
    SumOfZeros(s.tables, TableSize);
    forall m: Measure ensures Of(s, m) == 0 && Peak([s], m) == 0 {
      assert Of(s, m) == 0;
      assert [s][..0] == [];
    }
  }

  /** Current figures restart at zero, peaks stay. */
  function ClearedBooks(info: P4Info, b: Books): Books
  {
    b.(currentStats := ZeroStats(info), currentEntries := 0, multicastStats := NO_RESOURCES)
  }

  function ZeroStats(info: P4Info): map<int, ResourceStatistics>
  {
    map t | t in info.tables :: NO_RESOURCES
  }

  /** Clearing keeps the books exact: an empty state raises no peak. */
  lemma ClearedBooksExact(info: P4Info, b: Books, s: State, history: seq<State>)
    requires BooksExact(info, b, s, history)
    ensures BooksExact(info, ClearedBooks(info, b), EmptyState(info), history + [EmptyState(info)])
  {
    var b' := ClearedBooks(info, b);
    Unbook(info, b, s, history);
    EmptyMeasures(info);
    forall m: Measure ensures Peak(history + [EmptyState(info)], m) == Peak(history, m) {
      PeakExtend(history, EmptyState(info), m);
      PeakNonNegative(history, m);
    }
    forall t | t in info.tables
      ensures TableBooked(b', EmptyState(info), history + [EmptyState(info)], t)
    {
      assert TableBooked(b, s, history, t);
    }
  }
}
