/**
  The entities a P4Runtime switch stores, their keys, and their canonical form
  (p4_fuzzer/switch_state.cc, p4_infra/p4_pdpi/entity_keys.cc, p4_infra/p4_pdpi/ir.cc).
  Match fields and action parameters are maps from their ids to byte strings; the key of a
  table entry sorts its match fields by id, which is what the map forgets about their order.
 */
module P4Entries {
  import opened ByteStrings
  import opened Common

  // ----- the P4 program -----

  /** Match fields, actions and parameters are given with their bit widths. */
  datatype TableDefinition = TableDefinition(
    size: nat,
    usesOneshot: bool,
    actionProfileId: Option<int>,
    requiresPriority: bool,
    matchWidths: map<int, nat>,
    mandatoryMatches: set<int>,
    actionWidths: map<int, map<int, nat>>)

  type Int32 = x: int | -0x8000_0000 <= x < 0x8000_0000
  type Int64 = x: int | -0x8000_0000_0000_0000 <= x < 0x8000_0000_0000_0000

  /** Absent sumOfMembers selects SumOfWeights semantics. */
  datatype ActionProfile = ActionProfile(size: Int64, maxGroupSize: Int32, sumOfMembers: Option<SumOfMembers>)
  {
    function MaxMemberWeight(): int
    {
      if sumOfMembers.Some? then sumOfMembers.value.maxMemberWeight else 0
    }
  }

  datatype SumOfMembers = SumOfMembers(maxMemberWeight: Int32)

  datatype P4Info = P4Info(
    tables: map<int, TableDefinition>,
    actionProfiles: map<int, ActionProfile>,
    multicastTableSize: int,
    multicastTotalReplicas: int,
    multicastMaxReplicasPerEntry: int)

  // ----- entities -----

  datatype Action = Action(id: int, params: map<int, Bytes>)

  datatype GroupMember = GroupMember(action: Action, weight: int, watchPort: Bytes)

  datatype TableAction = NoAction | Single(action: Action) | ActionSet(members: seq<GroupMember>)

  datatype TableEntry = TableEntry(
    tableId: int, priority: int, matches: map<int, Bytes>, action: TableAction, metadata: Bytes)

  datatype TableEntryKey = TableEntryKey(tableId: int, priority: int, matches: map<int, Bytes>)

  datatype Replica = Replica(port: Bytes, instance: nat)

  datatype MulticastGroup = MulticastGroup(id: int, replicas: seq<Replica>, metadata: Bytes)

  datatype Entity = TableEntity(entry: TableEntry) | MulticastEntity(group: MulticastGroup)

  datatype EntityKey = TableKey(key: TableEntryKey) | MulticastKey(id: int)

  datatype UpdateType = Unspecified | Insert | Modify | Delete

  datatype Update = Update(kind: UpdateType, entity: Entity)

  function KeyOf(entry: TableEntry): TableEntryKey
  {
    TableEntryKey(entry.tableId, entry.priority, entry.matches)
  }

  function EntityKeyOf(entity: Entity): EntityKey
  {
    match entity
    case TableEntity(entry) => TableKey(KeyOf(entry))
    case MulticastEntity(group) => MulticastKey(group.id)
  }

  // ----- canonical form -----

  predicate ValuesFit(widths: map<int, nat>, values: map<int, Bytes>)
  {
    forall f :: f in values ==> f in widths && FitsWidth(values[f], widths[f])
  }

  function StripValues(values: map<int, Bytes>): map<int, Bytes>
  {
    map f | f in values :: StripLeadingZeros(values[f])
  }

  predicate ActionTranslates(def: TableDefinition, action: Action)
  {
    action.id in def.actionWidths
    && action.params.Keys == def.actionWidths[action.id].Keys
    && ValuesFit(def.actionWidths[action.id], action.params)
  }

  function StripAction(action: Action): Action
  {
    action.(params := StripValues(action.params))
  }

  /** A group member needs a valid action and a weight of at least one. */
  predicate MemberTranslates(def: TableDefinition, member: GroupMember)
  {
    ActionTranslates(def, member.action) && member.weight >= 1
  }

  function StripMembers(members: seq<GroupMember>): seq<GroupMember>
  {
    seq(|members|, i requires 0 <= i < |members| => members[i].(action := StripAction(members[i].action)))
  }

  predicate TableActionTranslates(def: TableDefinition, action: TableAction)
  {
    if def.actionWidths == map[] then action.NoAction?
    else
      match action
      case NoAction => false
      case Single(a) => !def.usesOneshot && ActionTranslates(def, a)
      case ActionSet(members) => def.usesOneshot && forall m :: m in members ==> MemberTranslates(def, m)
  }

  function StripTableAction(action: TableAction): TableAction
  {
    match action
    case NoAction => NoAction
    case Single(a) => Single(StripAction(a))
    case ActionSet(members) => ActionSet(StripMembers(members))
  }

  predicate KeyTranslates(info: P4Info, key: TableEntryKey)
  {
    key.tableId in info.tables
    && var def := info.tables[key.tableId];
       ValuesFit(def.matchWidths, key.matches)
       && def.mandatoryMatches <= key.matches.Keys
       && (if def.requiresPriority then key.priority > 0 else key.priority == 0)
  }

  function StripKey(key: TableEntryKey): TableEntryKey
  {
    key.(matches := StripValues(key.matches))
  }

  predicate EntryTranslates(info: P4Info, entry: TableEntry, keyOnly: bool)
  {
    KeyTranslates(info, KeyOf(entry))
    && (keyOnly || TableActionTranslates(info.tables[entry.tableId], entry.action))
  }

  /** The canonical form of an entry; with keyOnly, everything but the key is dropped. */
  function CanonicalizeTableEntry(info: P4Info, entry: TableEntry, keyOnly: bool): (r: Option<TableEntry>)
  {
    if !EntryTranslates(info, entry, keyOnly) then None
    else
      var matches := StripValues(entry.matches);
      if keyOnly then Some(TableEntry(entry.tableId, entry.priority, matches, NoAction, []))
      else Some(TableEntry(entry.tableId, entry.priority, matches, StripTableAction(entry.action), entry.metadata))
  }

  /** Replicas must be pairwise distinct in port and instance. */
  function CanonicalizeMulticastGroup(group: MulticastGroup, keyOnly: bool): Option<MulticastGroup>
  {
    if keyOnly then Some(MulticastGroup(group.id, [], []))
    else if forall i, j :: 0 <= i < j < |group.replicas| ==> group.replicas[i] != group.replicas[j] then Some(group)
    else None
  }

  function CanonicalizeEntity(info: P4Info, entity: Entity, keyOnly: bool): Option<Entity>
  {
    match entity
    case TableEntity(entry) =>
      var c := CanonicalizeTableEntry(info, entry, keyOnly);
      if c.Some? then Some(TableEntity(c.value)) else None
    case MulticastEntity(group) =>
      var c := CanonicalizeMulticastGroup(group, keyOnly);
      if c.Some? then Some(MulticastEntity(c.value)) else None
  }

  predicate Canonical(info: P4Info, entity: Entity)
  {
    CanonicalizeEntity(info, entity, false) == Some(entity)
  }

  // ----- canonicalization is idempotent and commutes with taking the key -----

  lemma StripValuesCanonical(widths: map<int, nat>, values: map<int, Bytes>)
    requires ValuesFit(widths, values)
    ensures ValuesFit(widths, StripValues(values))
    ensures StripValues(StripValues(values)) == StripValues(values)
  {
    forall f | f in values
      ensures FitsWidth(StripLeadingZeros(values[f]), widths[f])
      ensures StripValues(StripValues(values))[f] == StripValues(values)[f]
    {
      StripKeepsValue(values[f]);
    }
  }

  lemma StripActionCanonical(def: TableDefinition, action: Action)
    requires ActionTranslates(def, action)
    ensures ActionTranslates(def, StripAction(action))
    ensures StripAction(StripAction(action)) == StripAction(action)
  {
    StripValuesCanonical(def.actionWidths[action.id], action.params);
  }

  lemma StripTableActionCanonical(def: TableDefinition, action: TableAction)
    requires TableActionTranslates(def, action)
    ensures TableActionTranslates(def, StripTableAction(action))
    ensures StripTableAction(StripTableAction(action)) == StripTableAction(action)
  {
    match action
    case NoAction =>
    case Single(a) => StripActionCanonical(def, a);
    case ActionSet(members) =>
      var once := StripMembers(members);
      forall i | 0 <= i < |members|
        ensures MemberTranslates(def, once[i]) && StripMembers(once)[i] == once[i]
      {
        assert MemberTranslates(def, members[i]);
        StripActionCanonical(def, members[i].action);
      }
      assert StripMembers(once) == once;
  }

  lemma StripKeyCanonical(info: P4Info, key: TableEntryKey)
    requires KeyTranslates(info, key)
    ensures KeyTranslates(info, StripKey(key)) && StripKey(StripKey(key)) == StripKey(key)
  {
    StripValuesCanonical(info.tables[key.tableId].matchWidths, key.matches);
  }

  /** A canonical entry is its own canonical form, so stored entries are fixed points. */
  lemma CanonicalIdempotent(info: P4Info, entity: Entity, keyOnly: bool)
    requires CanonicalizeEntity(info, entity, keyOnly).Some?
    ensures var c := CanonicalizeEntity(info, entity, keyOnly).value;
            CanonicalizeEntity(info, c, keyOnly) == Some(c)
            && CanonicalizeEntity(info, c, true).Some?
            && EntityKeyOf(CanonicalizeEntity(info, c, true).value) == EntityKeyOf(c)
  {
    match entity
    case TableEntity(entry) =>
      StripKeyCanonical(info, KeyOf(entry));
      if !keyOnly {
        StripTableActionCanonical(info.tables[entry.tableId], entry.action);
      }
    case MulticastEntity(group) =>
  }

  /** The canonical key: the key of the canonical form, whether or not it is key-only. */
  lemma CanonicalKeyCommutes(info: P4Info, entry: TableEntry, keyOnly: bool)
    requires CanonicalizeTableEntry(info, entry, keyOnly).Some?
    ensures KeyOf(CanonicalizeTableEntry(info, entry, keyOnly).value) == StripKey(KeyOf(entry))
    ensures KeyTranslates(info, KeyOf(entry)) && StripKey(StripKey(KeyOf(entry))) == StripKey(KeyOf(entry))
  {
    StripKeyCanonical(info, KeyOf(entry));
  }

  /** The same entry with a leading zero in one of its match fields. */
  function Padded(entry: TableEntry, f: int): TableEntry
    requires f in entry.matches
  {
    entry.(matches := entry.matches[f := [0] + entry.matches[f]])
  }

  lemma PaddedForm(info: P4Info, entry: TableEntry, f: int)
    requires Canonical(info, TableEntity(entry)) && f in entry.matches
    ensures CanonicalizeTableEntry(info, Padded(entry, f), false) == Some(entry)
    ensures KeyOf(Padded(entry, f)) != KeyOf(entry)
  {
    var value, widths := entry.matches[f], info.tables[entry.tableId].matchWidths;
    PaddedValue(value);
    assert FitsWidth(value, widths[f]);
    var padded := Padded(entry, f);
    assert padded.matches.Keys == entry.matches.Keys;
    assert ValuesFit(widths, padded.matches);
    assert StripValues(padded.matches) == StripValues(entry.matches);
    assert padded.matches[f] != entry.matches[f];
  }

  lemma PaddedValue(value: Bytes)
    requires value != []
    ensures StripLeadingZeros([0] + value) == StripLeadingZeros(value)
    ensures BigEndian([0] + value) == BigEndian(value)
  {
    assert ([0] + value)[1..] == value;
    StripKeepsValue([0] + value);
    StripKeepsValue(value);
  }
}
