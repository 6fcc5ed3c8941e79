/**
  What the statistics of a switch state count, in terms of what is stored: entries, members of groups,
  units of their weights, and replicas.
 */
module StoredTotals {
  import opened Common
  import opened P4Entries
  import opened StateModel
  import opened Statistics
  import opened Runs

  // ----- sums as sizes of sets -----

  /** Each key of a map with each part of its value. */
  function Pairs<K, V, X>(m: map<K, V>, parts: V -> set<X>): set<(K, X)>
  {
    set k, x | k in m && x in parts(m[k]) :: (k, x)
  }

  /** A sum over a map is the number of pairs of a key and a part of its value. */
  lemma {:induction false} SumIsPairs<K, V, X>(m: map<K, V>, f: V -> int, parts: V -> set<X>)
    requires forall k :: k in m ==> f(m[k]) == |parts(m[k])|
    ensures SumOver(m, f) == |Pairs(m, parts)|
    decreases |m|
  {
    if m == map[] {
      assert Pairs(m, parts) == {};
    } else {
      var k := PickKey(m);
      SizeRemove(m, k);
      SumRemove(m, f, k);
      SumIsPairs(m - {k}, f, parts);
      PairsOfKey(m, parts, k);
    }
  }

  lemma PairsOfKey<K, V, X>(m: map<K, V>, parts: V -> set<X>, k: K)
    requires k in m
    ensures |Pairs(m, parts)| == |Pairs(m - {k}, parts)| + |parts(m[k])|
  {
    var own := set x | x in parts(m[k]) :: (k, x);
    SameSize(own, k, parts(m[k]));
    assert Pairs(m, parts) == Pairs(m - {k}, parts) + own;
  }

  lemma {:induction false} SameSize<K, X>(pairs: set<(K, X)>, k: K, xs: set<X>)
    requires forall p :: p in pairs <==> p.0 == k && p.1 in xs
    ensures |pairs| == |xs|
    decreases xs
  {
    if xs == {} {
      assert pairs == {};
    } else {
      var x :| x in xs;
      SameSize(pairs - {(k, x)}, k, xs - {x});
    }
  }

  function UpTo(n: nat): (r: set<int>)
    ensures |r| == n && forall j :: j in r <==> 0 <= j < n
  {
    if n == 0 then {} else UpTo(n - 1) + {n - 1}
  }

  // ----- weights -----

  /** The units of weight of a group: as many for each member as it weighs. */
  function Units(members: seq<GroupMember>): set<(int, int)>
  {
    set i, j | 0 <= i < |members| && 0 <= j < members[i].weight :: (i, j)
  }

  function UnitsAt(n: int, weight: nat): (units: set<(int, int)>)
    ensures forall p :: p in units <==> p.0 == n && 0 <= p.1 < weight
    ensures |units| == weight
  {
    var units := set j | j in UpTo(weight) :: (n, j);
    SameSize(units, n, UpTo(weight));
    units
  }

  lemma UnitsExtend(init: seq<GroupMember>, last: GroupMember)
    requires last.weight >= 0
    ensures |Units(init + [last])| == |Units(init)| + last.weight
  {
    var members, own := init + [last], UnitsAt(|init|, last.weight);
    forall p ensures p in Units(members) <==> p in Units(init) || p in own {
      assert p == (p.0, p.1);
      assert 0 <= p.0 < |init| ==> members[p.0] == init[p.0];
    }
    assert Units(members) == Units(init) + own;
  }

  lemma {:induction false} WeightIsUnits(members: seq<GroupMember>)
    requires forall m :: m in members ==> m.weight >= 0
    ensures WeightOf(members) == |Units(members)|
  {
    if members == [] {
      assert Units(members) == {};
    } else {
      var n := |members| - 1;
      var init := members[..n];
      assert forall m :: m in init ==> m in members;
      assert members[n] in members;
      assert members == init + [members[n]];
      WeightIsUnits(init);
      UnitsExtend(init, members[n]);
    }
  }

  // ----- what is stored -----

  function MembersOf(e: TableEntry): seq<GroupMember>
  {
    if e.action.ActionSet? then e.action.members else []
  }

  /** The members of all groups of a table, by the key of the entry and the position in its group. */
  function StoredMembers(table: Table): set<(TableEntryKey, int)>
  {
    Pairs(table, (e: TableEntry) => UpTo(|MembersOf(e)|))
  }

  /** The units of weight of all groups of a table. */
  function StoredUnits(table: Table): set<(TableEntryKey, (int, int))>
  {
    Pairs(table, (e: TableEntry) => Units(MembersOf(e)))
  }

  function StoredReplicas(groups: map<int, MulticastGroup>): set<(int, int)>
  {
    Pairs(groups, (g: MulticastGroup) => UpTo(|g.replicas|))
  }

  function StoredEntries(tables: map<int, Table>): set<(int, TableEntryKey)>
  {
    Pairs(tables, (table: Table) => table.Keys)
  }

  predicate Positive(table: Table)
  {
    forall k :: k in table ==> forall m :: m in MembersOf(table[k]) ==> m.weight >= 1
  }

  lemma StoredPositive(info: P4Info, s: State, t: int)
    requires WellFormed(info, s) && t in s.tables
    ensures Positive(s.tables[t])
  {
    forall k | k in s.tables[t] ensures forall m :: m in MembersOf(s.tables[t][k]) ==> m.weight >= 1 {
      assert Stored(s, t, k);
      assert Canonical(info, TableEntity(s.tables[t][k]));
    }
  }

  lemma TableMeasures(s: State, t: int)
    requires t in s.tables && Positive(s.tables[t])
    ensures Of(s, TableEntries(t)) == |s.tables[t]|
    ensures Of(s, TableMembers(t)) == |StoredMembers(s.tables[t])|
    ensures Of(s, TableWeight(t)) == |StoredUnits(s.tables[t])|
  {
    var table := s.tables[t];
    forall k | k in table
      ensures EntryMembers(table[k]) == |UpTo(|MembersOf(table[k])|)|
      ensures EntryWeight(table[k]) == |Units(MembersOf(table[k]))|
    {
      WeightIsUnits(MembersOf(table[k]));
    }
    SumIsPairs(table, EntryMembers, (e: TableEntry) => UpTo(|MembersOf(e)|));
    SumIsPairs(table, EntryWeight, (e: TableEntry) => Units(MembersOf(e)));
  }

  lemma EntryMeasures(s: State)
    ensures Of(s, AllEntries) == |StoredEntries(s.tables)| + |s.groups|
  {
    SumIsPairs(s.tables, TableSize, (table: Table) => table.Keys);
  }

  lemma MulticastMeasures(s: State)
    ensures Of(s, MulticastEntries) == |s.groups|
    ensures Of(s, Replicas) == |StoredReplicas(s.groups)|
  {
    SumIsPairs(s.groups, ReplicaCount, (g: MulticastGroup) => UpTo(|g.replicas|));
  }

  // ----- the current figures -----

  /** Every current figure is the number of things stored. */
  lemma FiguresCountStored(info: P4Info, b: Books, s: State, history: seq<State>, t: int)
    requires WellFormed(info, s) && BooksExact(info, b, s, history) && t in info.tables
    ensures b.currentEntries == |StoredEntries(s.tables)| + |s.groups|
    ensures b.multicastStats == ResourceStatistics(|s.groups|, |StoredReplicas(s.groups)|, 0)
    ensures t in s.tables && t in b.currentStats
    ensures b.currentStats[t].entries == |s.tables[t]|
    ensures b.currentStats[t].totalMembers == |StoredMembers(s.tables[t])|
    ensures b.currentStats[t].totalWeight == |StoredUnits(s.tables[t])|
  {
    CurrentTotals(info, b, s, history);
    Unbook(info, b, s, history);
    StoredPositive(info, s, t);
    TableMeasures(s, t);
    EntryMeasures(s);
    MulticastMeasures(s);
  }

  // ----- the peaks -----

  lemma {:induction false} HistoryWellFormed(info: P4Info, c: Configuration, ops: seq<Operation>)
    requires Exact(info, c) && Run(info, c, ops).Some?
    requires forall h :: h in c.history ==> WellFormed(info, h)
    ensures forall h :: h in Run(info, c, ops).value.history ==> WellFormed(info, h)
    decreases |ops|
  {
    if ops != [] {
      StepExact(info, c, ops[0]);
      HistoryWellFormed(info, Step(info, c, ops[0]).value, ops[1..]);
    }
  }

  /** A bound of a figure of one table over a history that is reached, unless it is 0. */
  ghost predicate PeakOf(p: int, history: seq<State>, t: int, figure: Table -> int)
  {
    && (forall h :: h in history ==> t in h.tables && figure(h.tables[t]) <= p)
    && (p == 0 || exists h :: h in history && t in h.tables && figure(h.tables[t]) == p)
  }

  lemma PeakInData(p: int, history: seq<State>, t: int, m: Measure, figure: Table -> int)
    requires IsHighWaterMark(p, history, m)
    requires forall h :: h in history ==> t in h.tables && figure(h.tables[t]) == Of(h, m)
    ensures PeakOf(p, history, t, figure)
  {
    forall h | h in history ensures figure(h.tables[t]) <= p {
      var i :| 0 <= i < |history| && history[i] == h;
    }
    if p != 0 {
      var i :| 0 <= i < |history| && Of(history[i], m) == p;
      assert history[i] in history;
    }
  }

  /** The table peaks after any run, over what was stored in its states. */
  lemma TablePeaksCountStored(info: P4Info, ops: seq<Operation>, t: int)
    requires Run(info, Start(info), ops).Some? && t in info.tables
    ensures var c := Run(info, Start(info), ops).value;
            t in c.books.peakStats
            && var p := c.books.peakStats[t];
               PeakOf(p.entries, c.history, t, (table: Table) => |table|)
               && PeakOf(p.totalMembers, c.history, t, (table: Table) => |StoredMembers(table)|)
               && PeakOf(p.totalWeight, c.history, t, (table: Table) => |StoredUnits(table)|)
  {
    var c := Run(info, Start(info), ops).value;
    HighWaterMarks(info, ops, t);
    StartExact(info);
    HistoryWellFormed(info, Start(info), ops);
    forall h | h in c.history
      ensures t in h.tables && |h.tables[t]| == Of(h, TableEntries(t))
      ensures |StoredMembers(h.tables[t])| == Of(h, TableMembers(t))
      ensures |StoredUnits(h.tables[t])| == Of(h, TableWeight(t))
    {
      StoredPositive(info, h, t);
      TableMeasures(h, t);
    }
    var p := c.books.peakStats[t];
    PeakInData(p.entries, c.history, t, TableEntries(t), (table: Table) => |table|);
    PeakInData(p.totalMembers, c.history, t, TableMembers(t), (table: Table) => |StoredMembers(table)|);
    PeakInData(p.totalWeight, c.history, t, TableWeight(t), (table: Table) => |StoredUnits(table)|);
  }

  /** The multicast peaks after any run. */
  lemma MulticastPeaksCountStored(info: P4Info, ops: seq<Operation>)
    requires Run(info, Start(info), ops).Some?
    ensures var c := Run(info, Start(info), ops).value;
            var p := c.books.multicastPeaks;
            && (forall h :: h in c.history ==> |h.groups| <= p.entries && |StoredReplicas(h.groups)| <= p.totalMembers)
            && (p.entries == 0 || exists h :: h in c.history && |h.groups| == p.entries)
            && (p.totalMembers == 0 || exists h :: h in c.history && |StoredReplicas(h.groups)| == p.totalMembers)
            && (forall h, id :: h in c.history && GroupStored(h, id) ==>
                  |h.groups[id].replicas| <= p.maxMembersPerGroup)
            && (p.maxMembersPerGroup == 0
                || exists h, id :: h in c.history && GroupStored(h, id)
                                   && |h.groups[id].replicas| == p.maxMembersPerGroup)
  {
    var c := Run(info, Start(info), ops).value;
    var p := c.books.multicastPeaks;
    MulticastHighWaterMarks(info, ops);
    forall h | h in c.history ensures |h.groups| <= p.entries && |StoredReplicas(h.groups)| <= p.totalMembers {
      var i :| 0 <= i < |c.history| && c.history[i] == h;
      MulticastMeasures(h);
    }
    if p.entries != 0 {
      var i :| 0 <= i < |c.history| && Of(c.history[i], MulticastEntries) == p.entries;
      assert c.history[i] in c.history;
    }
    if p.totalMembers != 0 {
      var i :| 0 <= i < |c.history| && Of(c.history[i], Replicas) == p.totalMembers;
      MulticastMeasures(c.history[i]);
      assert c.history[i] in c.history;
    }
    LargestReplicaCounts(c.history, p.maxMembersPerGroup);
  }

  lemma LargestKey<K, V>(m: map<K, V>, f: V -> int) returns (k: K)
    requires MaxOver(m, f) != 0
    ensures k in m && f(m[k]) == MaxOver(m, f)
  {
    MaxIsLargest(m, f);
    k :| k in m && f(m[k]) == MaxOver(m, f);
  }

  lemma LargestReplicaCounts(history: seq<State>, p: int)
    requires IsHighWaterMark(p, history, LargestReplicaCount)
    ensures forall h, id :: h in history && GroupStored(h, id) ==> |h.groups[id].replicas| <= p
    ensures p == 0 || exists h, id :: h in history && GroupStored(h, id) && |h.groups[id].replicas| == p
  {
    forall h, id | h in history && GroupStored(h, id) ensures |h.groups[id].replicas| <= p {
      var i :| 0 <= i < |history| && history[i] == h;
      MaxIsLargest(h.groups, ReplicaCount);
    }
    if p != 0 {
      var i :| 0 <= i < |history| && Of(history[i], LargestReplicaCount) == p;
      var h := history[i];
      var id := LargestKey(h.groups, ReplicaCount);
      assert h in history && GroupStored(h, id);
    }
  }

  /** The global peak after any run. */
  lemma GlobalPeakCountsStored(info: P4Info, ops: seq<Operation>, t: int)
    requires Run(info, Start(info), ops).Some? && t in info.tables
    ensures var c := Run(info, Start(info), ops).value;
            (forall h :: h in c.history ==> |StoredEntries(h.tables)| + |h.groups| <= c.books.peakEntriesSeen)
            && (c.books.peakEntriesSeen == 0
                || exists h :: h in c.history && |StoredEntries(h.tables)| + |h.groups| == c.books.peakEntriesSeen)
  {
    var c := Run(info, Start(info), ops).value;
    HighWaterMarks(info, ops, t);
    forall h | h in c.history ensures |StoredEntries(h.tables)| + |h.groups| <= c.books.peakEntriesSeen {
      var i :| 0 <= i < |c.history| && c.history[i] == h;
      EntryMeasures(h);
    }
    if c.books.peakEntriesSeen != 0 {
      var i :| 0 <= i < |c.history| && Of(c.history[i], AllEntries) == c.books.peakEntriesSeen;
      EntryMeasures(c.history[i]);
      assert c.history[i] in c.history;
    }
  }

  /** A bound of the sizes of all groups over a history that is reached, unless it is 0. */
  ghost predicate LargestGroup(p: int, history: seq<State>, t: int, size: seq<GroupMember> -> int)
  {
    (forall h, k :: h in history && Stored(h, t, k) ==> size(MembersOf(h.tables[t][k])) <= p)
    && (p == 0 || exists h, k :: h in history && Stored(h, t, k) && size(MembersOf(h.tables[t][k])) == p)
  }

  lemma LargestInData(p: int, history: seq<State>, t: int, m: Measure, f: TableEntry -> int,
                      size: seq<GroupMember> -> int)
    requires IsHighWaterMark(p, history, m)
    requires forall h :: h in history ==> t in h.tables && Of(h, m) == MaxOver(h.tables[t], f)
    requires forall h, k :: h in history && Stored(h, t, k) ==> f(h.tables[t][k]) == size(MembersOf(h.tables[t][k]))
    ensures LargestGroup(p, history, t, size)
  {
    forall h, k | h in history && Stored(h, t, k) ensures size(MembersOf(h.tables[t][k])) <= p {
      var i :| 0 <= i < |history| && history[i] == h;
      MaxIsLargest(h.tables[t], f);
    }
    if p != 0 {
      var i :| 0 <= i < |history| && Of(history[i], m) == p;
      var h := history[i];
      assert h in history;
      var k := LargestKey(h.tables[t], f);
      assert Stored(h, t, k);
    }
  }

  /** The largest groups after any run, by members and by weight. */
  lemma GroupPeaksCountStored(info: P4Info, ops: seq<Operation>, t: int)
    requires Run(info, Start(info), ops).Some? && t in info.tables
    ensures var c := Run(info, Start(info), ops).value;
            t in c.books.peakStats
            && LargestGroup(c.books.peakStats[t].maxMembersPerGroup, c.history, t,
                            (members: seq<GroupMember>) => |members|)
            && LargestGroup(c.books.peakStats[t].maxGroupWeight, c.history, t,
                            (members: seq<GroupMember>) => |Units(members)|)
  {
    var c := Run(info, Start(info), ops).value;
    HighWaterMarks(info, ops, t);
    StartExact(info);
    HistoryWellFormed(info, Start(info), ops);
    forall h | h in c.history ensures t in h.tables && Positive(h.tables[t]) {
      StoredPositive(info, h, t);
    }
    forall h, k | h in c.history && Stored(h, t, k)
      ensures EntryMembers(h.tables[t][k]) == |MembersOf(h.tables[t][k])|
      ensures EntryWeight(h.tables[t][k]) == |Units(MembersOf(h.tables[t][k]))|
    {
      WeightIsUnits(MembersOf(h.tables[t][k]));
    }
    var p := c.books.peakStats[t];
    LargestInData(p.maxMembersPerGroup, c.history, t, LargestGroupMembers(t), EntryMembers,
                  (members: seq<GroupMember>) => |members|);
    LargestInData(p.maxGroupWeight, c.history, t, LargestGroupWeight(t), EntryWeight,
                  (members: seq<GroupMember>) => |Units(members)|);
  }
}
