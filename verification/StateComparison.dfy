/**
  Comparing the entries read from a switch with a SwitchState (p4_fuzzer/switch_state.cc), and
  setting a state to a given list of entities. Both rest on the same counting argument: distinct
  keys, all of them stored, as many as are stored, are all the stored keys.
 */
module StateComparison {
  import opened Common
  import opened P4Entries
  import opened StateModel
  import opened Statistics

  /** Equality of entries up to the order of group members (match fields and parameters are maps). */
  predicate SameEntry(a: TableEntry, b: TableEntry)
  {
    KeyOf(a) == KeyOf(b) && a.metadata == b.metadata
    && (a.action == b.action
        || (a.action.ActionSet? && b.action.ActionSet?
            && Permutation(a.action.members, b.action.members)))
  }

  /** The canonical lookup: what is stored under the canonical key of an entry. */
  function FindEntry(info: P4Info, s: State, entry: TableEntry): Option<TableEntry>
  {
    if !EntryTranslates(info, entry, true) then None
    else
      var k := StripKey(KeyOf(entry));
      if k in TableOf(s, k.tableId) then Some(TableOf(s, k.tableId)[k]) else None
  }

  /** A raw key that is stored is canonical, so the shortcut lookup and the canonical one agree. */
  lemma RawKeyIsCanonical(info: P4Info, s: State, entry: TableEntry)
    requires WellFormed(info, s) && KeyOf(entry) in TableOf(s, entry.tableId)
    ensures EntryTranslates(info, entry, true) && StripKey(KeyOf(entry)) == KeyOf(entry)
    ensures FindEntry(info, s, entry) == Some(TableOf(s, entry.tableId)[KeyOf(entry)])
  {
    var stored := s.tables[entry.tableId][KeyOf(entry)];
    assert Stored(s, entry.tableId, KeyOf(entry));
    assert Canonical(info, TableEntity(stored));
    CanonicalKeyCommutes(info, stored, false);
  }

  /** For a canonical entry the lookup is by its own key. */
  lemma FindCanonical(info: P4Info, s: State, e: TableEntry)
    requires Canonical(info, TableEntity(e))
    ensures FindEntry(info, s, e)
            == if KeyOf(e) in TableOf(s, e.tableId) then Some(TableOf(s, e.tableId)[KeyOf(e)]) else None
  {
  }

  type Mask = Option<(TableEntry, TableEntry) -> bool>

  /** An entry read from the switch agrees with what is stored under its key, or is masked. */
  predicate Agrees(info: P4Info, s: State, mask: Mask, entry: TableEntry)
  {
    var canonical := CanonicalizeTableEntry(info, entry, false);
    canonical.Some?
    && var stored := FindEntry(info, s, canonical.value);
       stored.Some?
       && (SameEntry(stored.value, canonical.value) || (mask.Some? && mask.value(stored.value, canonical.value)))
  }

  predicate AllCanonicalize(info: P4Info, entries: seq<TableEntry>)
  {
    forall e :: e in entries ==> CanonicalizeTableEntry(info, e, false).Some?
  }

  predicate AllAgree(info: P4Info, s: State, mask: Mask, entries: seq<TableEntry>)
  {
    forall e :: e in entries ==> Agrees(info, s, mask, e)
  }

  /** The stored table entries are the given entries: same keys, and the same entry under each. */
  ghost predicate EntriesEqualState(s: State, entries: seq<TableEntry>)
  {
    (forall e :: e in entries ==> Stored(s, e.tableId, KeyOf(e)) && SameEntry(s.tables[e.tableId][KeyOf(e)], e))
    && (forall t, k :: Stored(s, t, k) ==> exists i :: 0 <= i < |entries| && KeyOf(entries[i]) == k)
  }

  predicate DistinctEntryKeys(entries: seq<TableEntry>)
  {
    forall i, j :: 0 <= i < j < |entries| ==> KeyOf(entries[i]) != KeyOf(entries[j])
  }

  /** What the comparison loops of AssertEntriesAreEqualToState establish before they disagree. */
  ghost predicate ComparisonSucceeds(info: P4Info, s: State, mask: Mask, entries: seq<TableEntry>)
  {
    |entries| == Of(s, AllEntries) - |s.groups|
    && AllAgree(info, s, mask, entries)
    && (|entries| != Of(s, AllEntries) ==> Leftover(info, s, entries) == {})
  }

  /** Stored keys that remain after erasing the raw key of every entry that is found. */
  ghost function Leftover(info: P4Info, s: State, entries: seq<TableEntry>): set<TableEntryKey>
  {
    set k | k in StoredKeys(s.tables)
            && forall e :: e in entries && FindEntry(info, s, e).Some? ==> KeyOf(e) != k
  }

  /** The tables after erasing the raw key of every entry that is found in the state. */
  ghost function Remaining(info: P4Info, s: State, entries: seq<TableEntry>): map<int, Table>
  {
    if entries == [] then s.tables
    else
      var n := |entries| - 1;
      var e, before := entries[n], Remaining(info, s, entries[..n]);
      if FindEntry(info, s, e).Some? && e.tableId in before
      then before[e.tableId := before[e.tableId] - {KeyOf(e)}] else before
  }

  lemma {:induction false} RemainingKeys(info: P4Info, s: State, entries: seq<TableEntry>, t: int, k: TableEntryKey)
    requires WellFormed(info, s) && t in s.tables
    ensures Remaining(info, s, entries).Keys == s.tables.Keys
    ensures k in Remaining(info, s, entries)[t]
       <==> k in s.tables[t] && forall e :: e in entries && FindEntry(info, s, e).Some? ==> KeyOf(e) != k
  {
    if entries != [] {
      var n := |entries| - 1;
      RemainingKeys(info, s, entries[..n], t, k);
      assert entries == entries[..n] + [entries[n]];
      assert Stored(s, t, k) ==> k.tableId == t;
    }
  }

  /** Something remains exactly when some stored key is not among the entries found. */
  lemma RemainingIsLeftover(info: P4Info, s: State, entries: seq<TableEntry>)
    requires WellFormed(info, s)
    ensures Remaining(info, s, entries).Keys == s.tables.Keys
    ensures (exists t :: t in Remaining(info, s, entries) && Remaining(info, s, entries)[t] != map[])
       <==> Leftover(info, s, entries) != {}
  {
    var r := Remaining(info, s, entries);
    RemainingDomain(info, s, entries);
    if t :| t in r && r[t] != map[] {
      var k := PickKey(r[t]);
      RemainingKeys(info, s, entries, t, k);
      assert k in StoredKeys(s.tables);
      assert k in Leftover(info, s, entries);
    }
    if k :| k in Leftover(info, s, entries) {
      var t :| t in s.tables && k in s.tables[t];
      RemainingKeys(info, s, entries, t, k);
      assert k in r[t];
    }
  }

  lemma {:induction false} RemainingDomain(info: P4Info, s: State, entries: seq<TableEntry>)
    ensures Remaining(info, s, entries).Keys == s.tables.Keys
  {
    if entries != [] {
      RemainingDomain(info, s, entries[..|entries| - 1]);
    }
  }

  // ----- counting stored keys -----

  ghost function StoredKeys(tables: map<int, Table>): set<TableEntryKey>
  {
    set t, k | t in tables && k in tables[t] :: k
  }

  lemma {:induction false} StoredKeysCount(tables: map<int, Table>)
    requires forall t, k :: t in tables && k in tables[t] ==> k.tableId == t
    ensures |StoredKeys(tables)| == SumOver(tables, TableSize)
    decreases |tables|
  {
    if tables == map[] {
      assert StoredKeys(tables) == {};
    } else {
      var t := PickKey(tables);
      SizeRemove(tables, t);
      StoredKeysCount(tables - {t});
      SumRemove(tables, TableSize, t);
      StoredKeysSplit(tables, t);
    }
  }

  lemma StoredKeysSplit(tables: map<int, Table>, t: int)
    requires t in tables
    requires forall t, k :: t in tables && k in tables[t] ==> k.tableId == t
    ensures |StoredKeys(tables)| == |StoredKeys(tables - {t})| + |tables[t]|
  {
    var rest, own := StoredKeys(tables - {t}), tables[t].Keys;
    forall k ensures k in StoredKeys(tables) <==> k in rest || k in own {
      if k in StoredKeys(tables) {
        assert k in tables[k.tableId];
        if k.tableId != t { assert k.tableId in tables - {t}; }
      }
    }
    assert StoredKeys(tables) == rest + own;
    forall k | k in rest ensures k.tableId != t {
      var u :| u in tables - {t} && k in (tables - {t})[u];
      assert u in tables && k in tables[u];
    }
    assert forall k :: k in own ==> k.tableId == t;
  }

  function EntryKeys(entries: seq<TableEntry>): set<TableEntryKey>
  {
    set i | 0 <= i < |entries| :: KeyOf(entries[i])
  }

  lemma {:induction false} KeysCount(entries: seq<TableEntry>)
    ensures |EntryKeys(entries)| <= |entries|
    ensures |EntryKeys(entries)| == |entries| <==> DistinctEntryKeys(entries)
  {
    if entries != [] {
      var n := |entries| - 1;
      var init, last := entries[..n], KeyOf(entries[n]);
      KeysCount(init);
      assert EntryKeys(entries) == EntryKeys(init) + {last};
      DistinctInit(entries);
      if last in EntryKeys(init) {
        assert EntryKeys(entries) == EntryKeys(init);
      }
    }
  }

  lemma DistinctInit(entries: seq<TableEntry>)
    requires entries != []
    ensures var n := |entries| - 1;
            DistinctEntryKeys(entries)
            <==> DistinctEntryKeys(entries[..n]) && KeyOf(entries[n]) !in EntryKeys(entries[..n])
  {
    var n := |entries| - 1;
    var init := entries[..n];
    assert forall i :: 0 <= i < n ==> init[i] == entries[i];
    if KeyOf(entries[n]) in EntryKeys(init) {
      var i :| 0 <= i < n && KeyOf(init[i]) == KeyOf(entries[n]);
    } else {
      assert forall i :: 0 <= i < n ==> KeyOf(init[i]) in EntryKeys(init);
    }
  }

  lemma SubsetSizes<T>(a: set<T>, b: set<T>)
    requires a <= b
    ensures |a| <= |b| && (|a| == |b| <==> a == b)
  {
    assert b == a + (b - a);
    assert |b| == |a| + |b - a|;
  }

  lemma StoredCount(info: P4Info, s: State)
    requires WellFormed(info, s)
    ensures |StoredKeys(s.tables)| == Of(s, AllEntries) - |s.groups|
  {
    forall t, k | t in s.tables && k in s.tables[t] ensures k.tableId == t {
      assert Stored(s, t, k);
    }
    StoredKeysCount(s.tables);
  }

  /** As many distinct stored keys as there are stored entries are all of them. */
  lemma AllStoredKeys(info: P4Info, s: State, entries: seq<TableEntry>)
    requires WellFormed(info, s) && DistinctEntryKeys(entries)
    requires forall e :: e in entries ==> Stored(s, e.tableId, KeyOf(e))
    ensures |entries| <= Of(s, AllEntries) - |s.groups|
    ensures |entries| == Of(s, AllEntries) - |s.groups| <==> EntryKeys(entries) == StoredKeys(s.tables)
  {
    StoredCount(info, s);
    KeysCount(entries);
    forall k | k in EntryKeys(entries) ensures k in StoredKeys(s.tables) {
      var i :| 0 <= i < |entries| && KeyOf(entries[i]) == k;
      assert entries[i] in entries;
    }
    SubsetSizes(EntryKeys(entries), StoredKeys(s.tables));
  }

  lemma Covered(s: State, entries: seq<TableEntry>)
    requires forall e :: e in entries ==> Stored(s, e.tableId, KeyOf(e))
    ensures EntryKeys(entries) == StoredKeys(s.tables)
       <==> forall t, k :: Stored(s, t, k) ==> exists i :: 0 <= i < |entries| && KeyOf(entries[i]) == k
  {
    if EntryKeys(entries) == StoredKeys(s.tables) {
      forall t, k | Stored(s, t, k) ensures exists i :: 0 <= i < |entries| && KeyOf(entries[i]) == k {
        assert k in StoredKeys(s.tables);
        assert k in EntryKeys(entries);
      }
    }
    if forall t, k :: Stored(s, t, k) ==> exists i :: 0 <= i < |entries| && KeyOf(entries[i]) == k {
      forall k ensures k in EntryKeys(entries) <==> k in StoredKeys(s.tables) {
        if k in StoredKeys(s.tables) {
          var t :| t in s.tables && k in s.tables[t];
          assert Stored(s, t, k);
        }
        if k in EntryKeys(entries) {
          var i :| 0 <= i < |entries| && KeyOf(entries[i]) == k;
          assert entries[i] in entries;
        }
      }
    }
  }

  // ----- exactly when the comparison is right -----

  function CanonicalForms(info: P4Info, entries: seq<TableEntry>): (forms: seq<TableEntry>)
    requires AllCanonicalize(info, entries)
    ensures |forms| == |entries|
  {
    seq(|entries|, i requires 0 <= i < |entries| =>
      assert entries[i] in entries; CanonicalizeTableEntry(info, entries[i], false).value)
  }

  /** The keys are canonical as the switch reports them. */
  predicate RawKeysCanonical(entries: seq<TableEntry>)
  {
    forall e :: e in entries ==> StripKey(KeyOf(e)) == KeyOf(e)
  }

  ghost predicate AllStored(s: State, entries: seq<TableEntry>)
  {
    forall e :: e in entries ==> Stored(s, e.tableId, KeyOf(e)) && SameEntry(s.tables[e.tableId][KeyOf(e)], e)
  }

  lemma FormKey(info: P4Info, s: State, entries: seq<TableEntry>, i: nat)
    requires AllCanonicalize(info, entries) && i < |entries|
    ensures KeyOf(CanonicalForms(info, entries)[i]) == StripKey(KeyOf(entries[i]))
    ensures Canonical(info, TableEntity(CanonicalForms(info, entries)[i]))
    ensures FindEntry(info, s, CanonicalForms(info, entries)[i]) == FindEntry(info, s, entries[i])
  {
    assert entries[i] in entries;
    CanonicalKeyCommutes(info, entries[i], false);
    CanonicalIdempotent(info, TableEntity(entries[i]), false);
    CanonicalKeyCommutes(info, CanonicalForms(info, entries)[i], false);
  }

  /** Without a mask, entries agree exactly when their canonical forms are stored. */
  lemma AgreeIffStored(info: P4Info, s: State, entries: seq<TableEntry>)
    requires WellFormed(info, s) && AllCanonicalize(info, entries)
    ensures AllAgree(info, s, None, entries) <==> AllStored(s, CanonicalForms(info, entries))
  {
    var forms := CanonicalForms(info, entries);
    forall i | 0 <= i < |entries|
      ensures Agrees(info, s, None, entries[i])
         <==> Stored(s, forms[i].tableId, KeyOf(forms[i]))
                && SameEntry(s.tables[forms[i].tableId][KeyOf(forms[i])], forms[i])
    {
      FormKey(info, s, entries, i);
      FindCanonical(info, s, forms[i]);
    }
  }

  /** Entries that are the stored ones are as many as those exactly when no key is repeated. */
  lemma EqualSizes(info: P4Info, s: State, entries: seq<TableEntry>)
    requires WellFormed(info, s) && EntriesEqualState(s, entries)
    ensures |entries| == Of(s, AllEntries) - |s.groups| <==> DistinctEntryKeys(entries)
  {
    Covered(s, entries);
    StoredCount(info, s);
    KeysCount(entries);
  }

  /** Nothing is left over exactly when every stored key was reported as it is. */
  lemma LeftoverIffReported(info: P4Info, s: State, entries: seq<TableEntry>)
    requires WellFormed(info, s) && AllAgree(info, s, None, entries)
    ensures Leftover(info, s, entries) == {} <==> StoredKeys(s.tables) <= EntryKeys(entries)
  {
    forall e | e in entries ensures AllCanonicalize(info, entries) && FindEntry(info, s, e).Some? {
      assert Agrees(info, s, None, e);
      var i :| 0 <= i < |entries| && entries[i] == e;
      assert AllCanonicalize(info, entries) by {
        assert forall f :: f in entries ==> Agrees(info, s, None, f);
      }
      FormKey(info, s, entries, i);
    }
    forall k ensures k in Leftover(info, s, entries) <==> k in StoredKeys(s.tables) && k !in EntryKeys(entries) {
      if k in EntryKeys(entries) {
        var i :| 0 <= i < |entries| && KeyOf(entries[i]) == k;
        assert entries[i] in entries;
      }
      if k in StoredKeys(s.tables) && k !in EntryKeys(entries) {
        forall e | e in entries ensures KeyOf(e) != k {
          var i :| 0 <= i < |entries| && entries[i] == e;
        }
      }
    }
  }

  /** If the stored keys are all reported as they are, the canonical forms cover the state. */
  lemma ReportedCovers(info: P4Info, s: State, entries: seq<TableEntry>)
    requires WellFormed(info, s) && AllCanonicalize(info, entries)
    requires AllStored(s, CanonicalForms(info, entries)) && StoredKeys(s.tables) <= EntryKeys(entries)
    ensures EntriesEqualState(s, CanonicalForms(info, entries))
  {
    var forms := CanonicalForms(info, entries);
    forall t, k | Stored(s, t, k) ensures exists i :: 0 <= i < |forms| && KeyOf(forms[i]) == k {
      assert k in StoredKeys(s.tables);
      var i :| 0 <= i < |entries| && KeyOf(entries[i]) == k;
      assert k.tableId == t;
      RawKeyIsCanonical(info, s, entries[i]);
      FormKey(info, s, entries, i);
      assert KeyOf(forms[i]) == k;
    }
  }

  /**
    Entries that are the stored ones, once each, are all reported as they are exactly when their
    keys are canonical.
   */
  lemma ReportedIffCanonical(info: P4Info, s: State, entries: seq<TableEntry>)
    requires WellFormed(info, s) && AllCanonicalize(info, entries)
    requires EntriesEqualState(s, CanonicalForms(info, entries)) && DistinctEntryKeys(CanonicalForms(info, entries))
    ensures StoredKeys(s.tables) <= EntryKeys(entries) <==> RawKeysCanonical(entries)
  {
    var forms := CanonicalForms(info, entries);
    Covered(s, forms);
    KeysCount(forms);
    KeysCount(entries);
    forall i | 0 <= i < |entries| ensures KeyOf(forms[i]) == StripKey(KeyOf(entries[i])) {
      FormKey(info, s, entries, i);
    }
    if RawKeysCanonical(entries) {
      forall k | k in EntryKeys(forms) ensures k in EntryKeys(entries) {
        var i :| 0 <= i < |forms| && KeyOf(forms[i]) == k;
        assert entries[i] in entries;
      }
    }
    if StoredKeys(s.tables) <= EntryKeys(entries) {
      SubsetSizes(StoredKeys(s.tables), EntryKeys(entries));
      forall e | e in entries ensures StripKey(KeyOf(e)) == KeyOf(e) {
        var i :| 0 <= i < |entries| && entries[i] == e;
        assert KeyOf(e) in StoredKeys(s.tables);
        StoredRawKey(info, s, e);
      }
    }
  }

  lemma StoredRawKey(info: P4Info, s: State, e: TableEntry)
    requires WellFormed(info, s) && KeyOf(e) in StoredKeys(s.tables)
    ensures StripKey(KeyOf(e)) == KeyOf(e)
  {
    var t :| t in s.tables && KeyOf(e) in s.tables[t];
    assert Stored(s, t, KeyOf(e));
    RawKeyIsCanonical(info, s, e);
  }

  /** As many stored entries as there are, without repetition, are the stored ones. */
  lemma CountedEntriesEqual(info: P4Info, s: State, entries: seq<TableEntry>)
    requires WellFormed(info, s) && AllStored(s, entries) && DistinctEntryKeys(entries)
    requires |entries| == Of(s, AllEntries) - |s.groups|
    ensures EntriesEqualState(s, entries)
  {
    AllStoredKeys(info, s, entries);
    Covered(s, entries);
  }

  /**
    The comparison accepts entries that are not the stored ones in exactly one way: no multicast
    group is stored, the number is right, every entry agrees, and some key is repeated.
   */
  lemma WronglyAccepted(info: P4Info, s: State, entries: seq<TableEntry>)
    requires WellFormed(info, s) && AllCanonicalize(info, entries)
    ensures ComparisonSucceeds(info, s, None, entries) && !EntriesEqualState(s, CanonicalForms(info, entries))
       <==> s.groups == map[] && |entries| == Of(s, AllEntries)
            && AllAgree(info, s, None, entries) && !DistinctEntryKeys(CanonicalForms(info, entries))
  {
    var forms := CanonicalForms(info, entries);
    AgreeIffStored(info, s, entries);
    if AllAgree(info, s, None, entries) {
      LeftoverIffReported(info, s, entries);
      if StoredKeys(s.tables) <= EntryKeys(entries) {
        ReportedCovers(info, s, entries);
      }
      if DistinctEntryKeys(forms) && |entries| == Of(s, AllEntries) - |s.groups| {
        CountedEntriesEqual(info, s, forms);
      }
    }
    if EntriesEqualState(s, forms) {
      EqualSizes(info, s, forms);
    }
  }

  /**
    It rejects entries that are the stored ones in exactly two ways: a key is repeated, or a
    multicast group is stored and the switch reports a key that is not canonical.
   */
  lemma WronglyRejected(info: P4Info, s: State, entries: seq<TableEntry>)
    requires WellFormed(info, s) && AllCanonicalize(info, entries)
    requires EntriesEqualState(s, CanonicalForms(info, entries))
    ensures !ComparisonSucceeds(info, s, None, entries)
       <==> !DistinctEntryKeys(CanonicalForms(info, entries)) || (s.groups != map[] && !RawKeysCanonical(entries))
  {
    var forms := CanonicalForms(info, entries);
    AgreeIffStored(info, s, entries);
    LeftoverIffReported(info, s, entries);
    EqualSizes(info, s, forms);
    if DistinctEntryKeys(forms) {
      ReportedIffCanonical(info, s, entries);
    }
  }

  /** For distinct canonical keys, success means equality, up to keys that are not canonical beside multicast groups. */
  lemma ComparisonOfRawEntries(info: P4Info, s: State, entries: seq<TableEntry>)
    requires WellFormed(info, s) && AllCanonicalize(info, entries)
    requires DistinctEntryKeys(CanonicalForms(info, entries))
    ensures ComparisonSucceeds(info, s, None, entries)
       <==> EntriesEqualState(s, CanonicalForms(info, entries)) && (s.groups == map[] || RawKeysCanonical(entries))
  {
    WronglyAccepted(info, s, entries);
    if EntriesEqualState(s, CanonicalForms(info, entries)) {
      WronglyRejected(info, s, entries);
    }
  }

  /** Canonical entries with distinct keys are compared exactly, with or without multicast groups in the state. */
  lemma ComparisonDecidesEquality(info: P4Info, s: State, entries: seq<TableEntry>)
    requires WellFormed(info, s) && DistinctEntryKeys(entries)
    requires forall e :: e in entries ==> Canonical(info, TableEntity(e))
    ensures ComparisonSucceeds(info, s, None, entries) <==> EntriesEqualState(s, entries)
  {
    forall i | 0 <= i < |entries| ensures CanonicalForms(info, entries)[i] == entries[i] {
      assert entries[i] in entries;
    }
    assert CanonicalForms(info, entries) == entries;
    forall e | e in entries ensures StripKey(KeyOf(e)) == KeyOf(e) {
      CanonicalKeyCommutes(info, e, false);
    }
    ComparisonOfRawEntries(info, s, entries);
  }

  /** Entries that the switch reports in canonical form, each key once. */
  predicate Presentable(info: P4Info, entries: seq<TableEntry>)
  {
    && (forall e :: e in entries ==> CanonicalizeTableEntry(info, e, false) == Some(e))
    && (forall i, j :: 0 <= i < j < |entries| ==> KeyOf(entries[i]) != KeyOf(entries[j]))
  }

  /**
    Every entry is stored under its key with equal metadata and an equal action, the members of a group
    in any order, or is masked; and every stored key is among those of the entries.
   */
  ghost predicate SameAsStored(s: State, mask: Mask, entries: seq<TableEntry>)
  {
    && (forall e :: e in entries ==>
          && e.tableId in s.tables && KeyOf(e) in s.tables[e.tableId]
          && var stored := s.tables[e.tableId][KeyOf(e)];
             || (stored.metadata == e.metadata && stored.action == e.action)
             || (stored.metadata == e.metadata && stored.action.ActionSet? && e.action.ActionSet?
                 && multiset(stored.action.members) == multiset(e.action.members))
             || (mask.Some? && mask.value(stored, e)))
    && (forall t, k :: t in s.tables && k in s.tables[t] ==> exists e :: e in entries && KeyOf(e) == k)
  }

  lemma PresentableAgrees(info: P4Info, s: State, mask: Mask, entries: seq<TableEntry>)
    requires WellFormed(info, s) && Presentable(info, entries)
    ensures AllAgree(info, s, mask, entries)
       <==> forall e :: e in entries ==>
              && e.tableId in s.tables && KeyOf(e) in s.tables[e.tableId]
              && var stored := s.tables[e.tableId][KeyOf(e)];
                 || (stored.metadata == e.metadata && stored.action == e.action)
                 || (stored.metadata == e.metadata && stored.action.ActionSet? && e.action.ActionSet?
                     && multiset(stored.action.members) == multiset(e.action.members))
                 || (mask.Some? && mask.value(stored, e))
  {
    forall e | e in entries
      ensures FindEntry(info, s, e)
              == if Stored(s, e.tableId, KeyOf(e)) then Some(s.tables[e.tableId][KeyOf(e)]) else None
      ensures Stored(s, e.tableId, KeyOf(e)) ==> KeyOf(s.tables[e.tableId][KeyOf(e)]) == KeyOf(e)
    {
      FindCanonical(info, s, e);
    }
  }

  lemma PresentableLeftover(info: P4Info, s: State, mask: Mask, entries: seq<TableEntry>)
    requires WellFormed(info, s) && Presentable(info, entries) && AllAgree(info, s, mask, entries)
    ensures Leftover(info, s, entries) == {} <==> StoredKeys(s.tables) <= EntryKeys(entries)
    ensures forall e :: e in entries ==> Stored(s, e.tableId, KeyOf(e))
  {
    forall e | e in entries ensures Stored(s, e.tableId, KeyOf(e)) && FindEntry(info, s, e).Some? {
      assert Agrees(info, s, mask, e);
      FindCanonical(info, s, e);
    }
    forall k ensures k in Leftover(info, s, entries) <==> k in StoredKeys(s.tables) && k !in EntryKeys(entries) {
      if k in EntryKeys(entries) {
        var i :| 0 <= i < |entries| && KeyOf(entries[i]) == k;
        assert entries[i] in entries;
      }
      if k in StoredKeys(s.tables) && k !in EntryKeys(entries) {
        forall e | e in entries ensures KeyOf(e) != k {
          var i :| 0 <= i < |entries| && entries[i] == e;
        }
      }
    }
  }

  lemma KeysReported(s: State, entries: seq<TableEntry>)
    requires forall e :: e in entries ==> Stored(s, e.tableId, KeyOf(e))
    ensures EntryKeys(entries) == StoredKeys(s.tables)
       <==> forall t, k :: t in s.tables && k in s.tables[t] ==> exists e :: e in entries && KeyOf(e) == k
  {
    forall k ensures k in EntryKeys(entries) <==> exists e :: e in entries && KeyOf(e) == k {
      if e :| e in entries && KeyOf(e) == k {
        var i :| 0 <= i < |entries| && entries[i] == e;
      }
      if i :| 0 <= i < |entries| && KeyOf(entries[i]) == k {
        assert entries[i] in entries;
      }
    }
    forall k | k in EntryKeys(entries) ensures k in StoredKeys(s.tables) {
      var e :| e in entries && KeyOf(e) == k;
      assert Stored(s, e.tableId, k);
    }
    if EntryKeys(entries) == StoredKeys(s.tables) {
      forall t, k | t in s.tables && k in s.tables[t] ensures exists e :: e in entries && KeyOf(e) == k {
        assert k in StoredKeys(s.tables);
      }
    }
    if forall t, k :: t in s.tables && k in s.tables[t] ==> exists e :: e in entries && KeyOf(e) == k {
      forall k | k in StoredKeys(s.tables) ensures k in EntryKeys(entries) {
        var t :| t in s.tables && k in s.tables[t];
      }
    }
  }

  /** With any mask, the comparison of canonical entries with distinct keys says whether they are what is stored. */
  lemma ComparisonMeans(info: P4Info, s: State, mask: Mask, entries: seq<TableEntry>)
    requires WellFormed(info, s) && Presentable(info, entries)
    ensures ComparisonSucceeds(info, s, mask, entries) <==> SameAsStored(s, mask, entries)
  {
    PresentableAgrees(info, s, mask, entries);
    if AllAgree(info, s, mask, entries) {
      PresentableLeftover(info, s, mask, entries);
      AllStoredKeys(info, s, entries);
      KeysReported(s, entries);
    }
  }

  /** The stored table entries. */
  function StoredSet(tables: map<int, Table>): set<TableEntry>
  {
    set t, k | t in tables && k in tables[t] :: tables[t][k]
  }

  /** Without groups and without a mask that means equality of sets. */
  lemma ComparisonMeansEquality(info: P4Info, s: State, entries: seq<TableEntry>)
    requires WellFormed(info, s) && Presentable(info, entries)
    requires forall e :: e in entries ==> !e.action.ActionSet?
    ensures ComparisonSucceeds(info, s, None, entries) <==> (set e | e in entries) == StoredSet(s.tables)
  {
    ComparisonMeans(info, s, None, entries);
    forall t, k | t in s.tables && k in s.tables[t] ensures KeyOf(s.tables[t][k]) == k && k.tableId == t {
      assert Stored(s, t, k);
    }
    if SameAsStored(s, None, entries) {
      SameGivesSet(s, entries);
    }
    if (set e | e in entries) == StoredSet(s.tables) {
      SetGivesSame(s, entries);
    }
  }

  lemma SameGivesSet(s: State, entries: seq<TableEntry>)
    requires forall t, k :: t in s.tables && k in s.tables[t] ==> KeyOf(s.tables[t][k]) == k && k.tableId == t
    requires forall e :: e in entries ==> !e.action.ActionSet?
    requires SameAsStored(s, None, entries)
    ensures (set e | e in entries) == StoredSet(s.tables)
  {
    forall e | e in entries ensures e in StoredSet(s.tables) {
      assert s.tables[e.tableId][KeyOf(e)] == e;
    }
    forall f | f in StoredSet(s.tables) ensures f in entries {
      var t, k :| t in s.tables && k in s.tables[t] && s.tables[t][k] == f;
      var e :| e in entries && KeyOf(e) == k;
      assert s.tables[e.tableId][KeyOf(e)] == e;
    }
  }

  lemma SetGivesSame(s: State, entries: seq<TableEntry>)
    requires forall t, k :: t in s.tables && k in s.tables[t] ==> KeyOf(s.tables[t][k]) == k && k.tableId == t
    requires (set e | e in entries) == StoredSet(s.tables)
    ensures SameAsStored(s, None, entries)
  {
    var reported := set e | e in entries;
    forall e | e in entries
      ensures e.tableId in s.tables && KeyOf(e) in s.tables[e.tableId] && s.tables[e.tableId][KeyOf(e)] == e
    {
      assert e in reported;
      var t, k :| t in s.tables && k in s.tables[t] && s.tables[t][k] == e;
      assert KeyOf(s.tables[t][k]) == k && KeyOf(e).tableId == e.tableId;
    }
    forall t, k | t in s.tables && k in s.tables[t] ensures exists e :: e in entries && KeyOf(e) == k {
      assert s.tables[t][k] in StoredSet(s.tables);
      assert s.tables[t][k] in reported;
    }
  }

  /** One stored entry read as often as there are entries passes for all of them. */
  lemma RepeatedEntryPasses(info: P4Info, s: State, e: TableEntry, n: nat)
    requires WellFormed(info, s) && s.groups == map[]
    requires Stored(s, e.tableId, KeyOf(e)) && s.tables[e.tableId][KeyOf(e)] == e
    requires n == Of(s, AllEntries) && n >= 2
    ensures var entries := seq(n, i => e);
            AllCanonicalize(info, entries) && ComparisonSucceeds(info, s, None, entries)
            && !EntriesEqualState(s, CanonicalForms(info, entries))
  {
    var entries := seq(n, i => e);
    assert Canonical(info, TableEntity(e));
    assert forall f :: f in entries ==> f == e;
    var forms := CanonicalForms(info, entries);
    forall i | 0 <= i < n ensures forms[i] == e {
      assert entries[i] in entries;
    }
    AgreeIffStored(info, s, entries);
    assert KeyOf(forms[0]) == KeyOf(forms[1]);
    WronglyAccepted(info, s, entries);
  }

  /** The stored entries, one of them reported with a leading zero, are rejected beside a multicast group. */
  lemma PaddedKeyRejected(info: P4Info, s: State, entries: seq<TableEntry>, i: nat, f: int)
    requires WellFormed(info, s) && s.groups != map[]
    requires DistinctEntryKeys(entries) && EntriesEqualState(s, entries)
    requires forall e :: e in entries ==> Canonical(info, TableEntity(e))
    requires i < |entries| && f in entries[i].matches
    ensures var reported := entries[i := Padded(entries[i], f)];
            AllCanonicalize(info, reported) && CanonicalForms(info, reported) == entries
            && !ComparisonSucceeds(info, s, None, reported)
  {
    var reported := entries[i := Padded(entries[i], f)];
    assert entries[i] in entries;
    PaddedForm(info, entries[i], f);
    forall j | 0 <= j < |entries| ensures CanonicalizeTableEntry(info, reported[j], false) == Some(entries[j]) {
      assert entries[j] in entries;
    }
    assert AllCanonicalize(info, reported);
    forall j | 0 <= j < |entries| ensures CanonicalForms(info, reported)[j] == entries[j] {
      assert reported[j] in reported;
    }
    assert CanonicalForms(info, reported) == entries;
    CanonicalKeyCommutes(info, reported[i], false);
    assert reported[i] in reported;
    WronglyRejected(info, s, reported);
  }

  // ----- setting the state -----

  function Inserts(entities: seq<Entity>): (us: seq<Update>)
    ensures |us| == |entities|
    ensures forall i :: 0 <= i < |us| ==> us[i] == Update(Insert, entities[i])
  {
    MapSeq(e => Update(Insert, e), entities)
  }

  lemma InsertsStep(entities: seq<Entity>, i: nat)
    requires i < |entities|
    ensures Inserts(entities[i..])[1..] == Inserts(entities[i + 1..])
    ensures Inserts(entities[i..])[0] == Update(Insert, entities[i])
  {
  }

  /** Every entity canonicalizes, and no two canonical keys coincide. */
  ghost predicate Installable(info: P4Info, entities: seq<Entity>)
  {
    (forall i :: 0 <= i < |entities| ==> CanonicalizeEntity(info, entities[i], false).Some?)
    && forall i, j :: 0 <= i < j < |entities| ==>
         EntityKeyOf(CanonicalizeEntity(info, entities[i], false).value)
         != EntityKeyOf(CanonicalizeEntity(info, entities[j], false).value)
  }

  lemma InstallableIsDistinct(info: P4Info, entities: seq<Entity>)
    ensures Installable(info, entities) <==> DistinctKeys(info, Inserts(entities))
  {
  }

  /** A run of INSERTs to the end touches only absent keys, each of them once. */
  lemma {:induction false} InsertRunIsDistinct(info: P4Info, s: State, us: seq<Update>)
    requires forall i :: 0 <= i < |us| ==> us[i].kind.Insert?
    requires ApplyAll(info, s, us).Some?
    ensures DistinctKeys(info, us)
    ensures forall i :: 0 <= i < |us| ==> Lookup(s, UpdateKey(info, us[i])) == None
    decreases |us|
  {
    if us != [] {
      var s', rest := Apply(info, s, us[0]).value, us[1..];
      InsertRunIsDistinct(info, s', rest);
      forall i | 0 <= i < |us|
        ensures Subject(info, us[i]).Some? && Lookup(s, UpdateKey(info, us[i])) == None
        ensures i > 0 ==> UpdateKey(info, us[i]) != UpdateKey(info, us[0])
      {
        if i > 0 {
          assert us[i] == rest[i - 1];
          LookupApply(info, s, us[0], UpdateKey(info, us[i]));
        }
      }
      forall i, j | 0 <= i < j < |us| ensures UpdateKey(info, us[i]) != UpdateKey(info, us[j]) {
        if i > 0 { assert us[i] == rest[i - 1] && us[j] == rest[j - 1]; }
      }
    }
  }

  /** SetEntities succeeds exactly on entities that canonicalize to pairwise distinct keys. */
  lemma SetSucceedsIffInstallable(info: P4Info, entities: seq<Entity>)
    ensures ApplyAll(info, EmptyState(info), Inserts(entities)).Some? <==> Installable(info, entities)
  {
    var us := Inserts(entities);
    InstallableIsDistinct(info, entities);
    if Installable(info, entities) {
      DistinctKeysApply(info, EmptyState(info), us);
      forall i | 0 <= i < |us| ensures Apply(info, EmptyState(info), us[i]).Some? {
        assert Lookup(EmptyState(info), UpdateKey(info, us[i])) == None;
      }
    }
    if ApplyAll(info, EmptyState(info), us).Some? {
      InsertRunIsDistinct(info, EmptyState(info), us);
    }
  }

  /** The state set, and whether setting succeeds, do not depend on the order of the entities. */
  lemma SetIsOrderIndependent(info: P4Info, es: seq<Entity>, fs: seq<Entity>)
    requires Permutation(es, fs)
    ensures ApplyAll(info, EmptyState(info), Inserts(es)) == ApplyAll(info, EmptyState(info), Inserts(fs))
  {
    MapPermutes(e => Update(Insert, e), es, fs);
    InstallableIsDistinct(info, es);
    InstallableIsDistinct(info, fs);
    EmptyIsWellFormed(info);
    if Installable(info, es) {
      OrderIndependence(info, EmptyState(info), Inserts(es), Inserts(fs));
    } else if Installable(info, fs) {
      OrderIndependence(info, EmptyState(info), Inserts(fs), Inserts(es));
    } else {
      SetSucceedsIffInstallable(info, es);
      SetSucceedsIffInstallable(info, fs);
    }
  }
}
