/**
  Generation of write requests (p4_fuzzer/fuzz_util.cc). Randomness is an arbitrary choice: every
  draw is a parameter. Mutated updates are arbitrary; what is proved is about the unmutated ones,
  which the switch must be able to accept in any order.
 */
module BatchGenerator {
  import opened Common
  import opened P4Entries
  import opened StateModel
  import opened Statistics
  import opened StateComparison
  import opened SwitchStates

  /** An update in canonical form if it translates, and whether a mutation was applied to it. */
  datatype AnnotatedUpdate = AnnotatedUpdate(pi: Update, translated: bool, mutated: bool)

  function GetAnnotatedUpdate(info: P4Info, u: Update, mutated: bool): AnnotatedUpdate
  {
    var canonical := CanonicalizeEntity(info, u.entity, false);
    if canonical.Some? then AnnotatedUpdate(u.(entity := canonical.value), true, mutated)
    else AnnotatedUpdate(u, false, mutated)
  }

  /** What the non-key fields of an entity become. */
  datatype NonKeyChoice = NonKeyChoice(
    keep: bool, newAction: Option<TableAction>, clearMetadata: bool, replicas: seq<Replica>)

  /** The random decisions behind one update: an arbitrary mutated one, or an unmutated one. */
  datatype Choice =
    | Mutated(update: Update)
    | InsertTable(entry: TableEntry)
    | InsertMulticast(groupId: int, replicas: seq<Replica>)
    | ChangeStored(kind: UpdateType, stored: Entity, fields: NonKeyChoice)

  /** Generated entries and actions translate; modified and deleted entities are picked from the state. */
  predicate ValidChoice(info: P4Info, s: State, c: Choice)
  {
    match c
    case Mutated(_) => true
    case InsertTable(entry) => CanonicalizeTableEntry(info, entry, false).Some?
    case InsertMulticast(_, _) => true
    case ChangeStored(kind, stored, fields) =>
      (kind.Modify? || kind.Delete?)
      && Lookup(s, EntityKeyOf(stored)) == Some(stored)
      && (stored.TableEntity? && fields.newAction.Some? ==>
            stored.entry.tableId in info.tables
            && TableActionTranslates(info.tables[stored.entry.tableId], fields.newAction.value))
  }

  function FirstOccurrences(s: seq<Replica>): seq<Replica>
  {
    if s == [] then []
    else
      var n := |s| - 1;
      var before := FirstOccurrences(s[..n]);
      if s[n] in before then before else before + [s[n]]
  }

  /** Keeps the first of every replica drawn, so replicas in a group are unique. */
  method UniqueReplicas(candidates: seq<Replica>) returns (replicas: seq<Replica>)
    ensures replicas == FirstOccurrences(candidates)
    ensures forall i, j :: 0 <= i < j < |replicas| ==> replicas[i] != replicas[j]
    ensures forall r :: r in replicas <==> r in candidates
  {
    var seen: set<Replica> := {};
    replicas := [];
    for i := 0 to |candidates|
      invariant replicas == FirstOccurrences(candidates[..i])
      invariant forall r :: r in seen <==> r in replicas
      invariant forall r :: r in replicas <==> r in candidates[..i]
      invariant forall i, j :: 0 <= i < j < |replicas| ==> replicas[i] != replicas[j]
    {
      assert candidates[..i + 1][..i] == candidates[..i];
      if candidates[i] !in seen {
        seen := seen + {candidates[i]};
        replicas := replicas + [candidates[i]];
      }
      assert candidates[..i + 1] == candidates[..i] + [candidates[i]];
    }
    assert candidates[..|candidates|] == candidates;
  }

  /** The entity with new non-key fields. */
  function Changed(entity: Entity, fields: NonKeyChoice): Entity
  {
    match entity
    case TableEntity(entry) =>
      if fields.keep then entity
      else TableEntity(entry.(
        action := if fields.newAction.Some? then fields.newAction.value else entry.action,
        metadata := if fields.clearMetadata then [] else entry.metadata))
    case MulticastEntity(group) =>
      MulticastEntity(group.(replicas := FirstOccurrences(fields.replicas)))
  }

  /** Changes the fields of an entity that are not part of its key. */
  method FuzzNonKeyFields(entity: Entity, fields: NonKeyChoice) returns (r: Entity)
    ensures r == Changed(entity, fields)
    ensures EntityKeyOf(r) == EntityKeyOf(entity)
    ensures entity.TableEntity? && fields.keep ==> r == entity
    ensures entity.TableEntity? && !fields.keep ==>
              r.entry.action == (if fields.newAction == None then entity.entry.action else fields.newAction.value)
              && r.entry.metadata == (if fields.clearMetadata then [] else entity.entry.metadata)
    ensures entity.MulticastEntity? ==>
              r.group.metadata == entity.group.metadata && forall p :: p in fields.replicas <==> p in r.group.replicas
    ensures entity.TableEntity? ==>
              r.entry.action == entity.entry.action
              || (fields.newAction.Some? && r.entry.action == fields.newAction.value)
    ensures entity.MulticastEntity? ==> CanonicalizeMulticastGroup(r.group, false) == Some(r.group)
  {
    match entity {
      case TableEntity(entry) =>
        r := entity;
        if !fields.keep {
          if fields.newAction.Some? {
            r := TableEntity(r.entry.(action := fields.newAction.value));
          }
          if fields.clearMetadata {
            r := TableEntity(r.entry.(metadata := []));
          }
        }
      case MulticastEntity(group) =>
        var replicas := UniqueReplicas(fields.replicas);
        r := MulticastEntity(group.(replicas := replicas));
    }
  }

  /** An unmutated update is canonical; a MODIFY or DELETE is about a stored key. */
  predicate WellAimed(info: P4Info, s: State, u: AnnotatedUpdate)
  {
    !u.mutated ==>
      u.translated && Canonical(info, u.pi.entity) && !u.pi.kind.Unspecified?
      && (!u.pi.kind.Insert? ==> Lookup(s, EntityKeyOf(u.pi.entity)).Some?)
  }

  /** The update that the choices make. */
  function UpdateFor(info: P4Info, c: Choice): AnnotatedUpdate
  {
    match c
    case Mutated(update) => GetAnnotatedUpdate(info, update, true)
    case InsertTable(entry) => GetAnnotatedUpdate(info, Update(Insert, TableEntity(entry)), false)
    case InsertMulticast(id, candidates) =>
      GetAnnotatedUpdate(info, Update(Insert, MulticastEntity(MulticastGroup(id, FirstOccurrences(candidates), []))),
                         false)
    case ChangeStored(kind, stored, fields) => GetAnnotatedUpdate(info, Update(kind, Changed(stored, fields)), false)
  }

  method FuzzUpdate(state: SwitchState, c: Choice) returns (u: AnnotatedUpdate)
    requires state.Valid() && ValidChoice(state.info, state.Contents(), c)
    ensures u == UpdateFor(state.info, c)
    ensures WellAimed(state.info, state.Contents(), u)
    ensures u.mutated <==> c.Mutated?
    ensures u.pi.kind == match c
                         case Mutated(update) => update.kind
                         case ChangeStored(kind, _, _) => kind
                         case _ => Insert
    ensures c.ChangeStored? ==> EntityKeyOf(u.pi.entity) == EntityKeyOf(c.stored)
    ensures c.ChangeStored? && c.stored.TableEntity? && c.fields.keep ==> u.pi.entity == c.stored
    ensures c.InsertTable? ==>
              Some(u.pi.entity) == CanonicalizeEntity(state.info, TableEntity(c.entry), false)
    ensures c.InsertMulticast? ==>
              u.pi.entity.MulticastEntity? && u.pi.entity.group.id == c.groupId
              && forall p :: p in u.pi.entity.group.replicas <==> p in c.replicas
  {
    var info := state.info;
    match c {
      case Mutated(update) =>
        u := GetAnnotatedUpdate(info, update, true);
      case InsertTable(entry) =>
        u := GetAnnotatedUpdate(info, Update(Insert, TableEntity(entry)), false);
        CanonicalIdempotent(info, TableEntity(entry), false);
      case InsertMulticast(id, candidates) =>
        var replicas := UniqueReplicas(candidates);
        u := GetAnnotatedUpdate(info, Update(Insert, MulticastEntity(MulticastGroup(id, replicas, []))), false);
      case ChangeStored(kind, stored, fields) =>
        var changed := FuzzNonKeyFields(stored, fields);
        u := GetAnnotatedUpdate(info, Update(kind, changed), false);
        StoredStaysOnTarget(info, state.Contents(), stored, changed);
        StoredIsCanonical(info, state.Contents(), stored);
    }
  }

  lemma StoredIsCanonical(info: P4Info, s: State, stored: Entity)
    requires WellFormed(info, s) && Lookup(s, EntityKeyOf(stored)) == Some(stored)
    ensures Canonical(info, stored)
  {
    match stored
    case TableEntity(e) => assert Stored(s, e.tableId, KeyOf(e));
    case MulticastEntity(g) => assert GroupStored(s, g.id);
  }

  /** Replacing non-key fields of a stored entity by translatable ones leaves its canonical key alone. */
  lemma StoredStaysOnTarget(info: P4Info, s: State, stored: Entity, changed: Entity)
    requires WellFormed(info, s) && Lookup(s, EntityKeyOf(stored)) == Some(stored)
    requires EntityKeyOf(changed) == EntityKeyOf(stored)
    requires stored.TableEntity? ==>
               changed.entry.action == stored.entry.action
               || (stored.entry.tableId in info.tables
                   && TableActionTranslates(info.tables[stored.entry.tableId], changed.entry.action))
    requires stored.MulticastEntity? ==> CanonicalizeMulticastGroup(changed.group, false) == Some(changed.group)
    ensures var c := CanonicalizeEntity(info, changed, false);
            c.Some? && EntityKeyOf(c.value) == EntityKeyOf(stored) && Canonical(info, c.value)
  {
    match stored
    case TableEntity(e) =>
      assert Stored(s, e.tableId, KeyOf(e));
      CanonicalKeyCommutes(info, e, false);
      CanonicalKeyCommutes(info, changed.entry, false);
      CanonicalIdempotent(info, changed, false);
    case MulticastEntity(_) =>
  }

  /** Tables whose guaranteed size must not be exceeded, and updates known to trigger switch bugs. */
  datatype Config = Config(guaranteedTables: set<int>, isBuggy: AnnotatedUpdate -> Option<bool>)

  predicate InsertsInto(u: Update, t: int)
  {
    u.kind.Insert? && u.entity.TableEntity? && u.entity.entry.tableId == t
  }

  /** INSERTs into a table among the updates of a request that translate. */
  function InsertCount(request: seq<AnnotatedUpdate>, t: int): nat
  {
    |Filter((u: AnnotatedUpdate) => u.translated && InsertsInto(u.pi, t), request)|
  }

  /** What an update must satisfy to join the request. */
  predicate Acceptable(info: P4Info, s: State, config: Config, request: seq<AnnotatedUpdate>,
                       keys: set<EntityKey>, u: AnnotatedUpdate)
  {
    u.mutated
    || (EntityKeyOf(u.pi.entity) !in keys
        && (u.pi.kind.Insert? ==> !AlreadyExists(info, s, u.pi.entity))
        && (u.translated && u.pi.kind.Insert? && u.pi.entity.TableEntity?
            && u.pi.entity.entry.tableId in config.guaranteedTables && u.pi.entity.entry.tableId in info.tables ==>
              var t := u.pi.entity.entry.tableId;
              info.tables[t].size - |TableOf(s, t)| >= InsertCount(request, t) + 1)
        && config.isBuggy(u) == Some(false))
  }

  /** The positions of INSERTs into a table among the updates of a request that translate. */
  function InsertedAt(request: seq<AnnotatedUpdate>, t: int): set<nat>
  {
    set i | 0 <= i < |request| && request[i].translated && request[i].pi.kind.Insert?
            && request[i].pi.entity.TableEntity? && request[i].pi.entity.entry.tableId == t
  }

  /**
    An update may join a request: anything mutated; otherwise a new key, not known to be buggy, and an
    INSERT only if nothing is stored under the key and a guaranteed table has room for one more.
   */
  predicate MayJoin(info: P4Info, s: State, config: Config, request: seq<AnnotatedUpdate>,
                    keys: set<EntityKey>, u: AnnotatedUpdate)
  {
    || u.mutated
    || (&& EntityKeyOf(u.pi.entity) !in keys
        && config.isBuggy(u) == Some(false)
        && (u.pi.kind.Insert? ==>
              match u.pi.entity
              case MulticastEntity(g) => g.id !in s.groups
              case TableEntity(e) =>
                && !(e.tableId in s.tables && KeyOf(e) in s.tables[e.tableId])
                && (e.tableId in config.guaranteedTables && e.tableId in info.tables && e.tableId in s.tables ==>
                      |s.tables[e.tableId]| + |InsertedAt(request, e.tableId)| + 1 <= info.tables[e.tableId].size)))
  }

  /** Exactly what may join is accepted. */
  lemma AcceptableIff(info: P4Info, s: State, config: Config, request: seq<AnnotatedUpdate>,
                      keys: set<EntityKey>, u: AnnotatedUpdate)
    requires WellFormed(info, s)
    requires !u.mutated ==> u.translated && CanonicalizeEntity(info, u.pi.entity, false) == Some(u.pi.entity)
    ensures Acceptable(info, s, config, request, keys, u) <==> MayJoin(info, s, config, request, keys, u)
  {
    if !u.mutated && u.pi.entity.TableEntity? {
      var e := u.pi.entity.entry;
      var inserts := (u: AnnotatedUpdate) => u.translated && InsertsInto(u.pi, e.tableId);
      FindCanonical(info, s, e);
      FilterCount(inserts, request);
      assert InsertedAt(request, e.tableId) == Positions(inserts, request);
    }
  }

  predicate AlreadyExists(info: P4Info, s: State, entity: Entity)
  {
    match entity
    case TableEntity(e) => FindEntry(info, s, e).Some?
    case MulticastEntity(g) => g.id in s.groups
  }

  method IsAccidentallyInvalidUpdate(config: Config, state: SwitchState, request: seq<AnnotatedUpdate>,
                                     keys: set<EntityKey>, u: AnnotatedUpdate) returns (invalid: bool)
    requires state.Valid()
    requires !u.mutated && u.pi.entity.TableEntity? ==> u.pi.entity.entry.tableId in state.info.tables
    ensures invalid <==> !Acceptable(state.info, state.Contents(), config, request, keys, u)
    ensures (!u.mutated ==> u.translated && CanonicalizeEntity(state.info, u.pi.entity, false) == Some(u.pi.entity)) ==>
              (invalid <==> !MayJoin(state.info, state.Contents(), config, request, keys, u))
  {
    if !u.mutated ==> u.translated && CanonicalizeEntity(state.info, u.pi.entity, false) == Some(u.pi.entity) {
      AcceptableIff(state.info, state.Contents(), config, request, keys, u);
    }
    if u.mutated {
      return false;
    }
    if EntityKeyOf(u.pi.entity) in keys {
      return true;
    }
    if u.pi.kind.Insert? {
      match u.pi.entity {
        case TableEntity(e) =>
          if state.GetTableEntry(e).Some? { return true; }
        case MulticastEntity(g) =>
          if state.GetMulticastGroupEntry(g).Some? { return true; }
      }
    }
    if u.translated && u.pi.kind.Insert? && u.pi.entity.TableEntity?
       && u.pi.entity.entry.tableId in config.guaranteedTables {
      var t := u.pi.entity.entry.tableId;
      var numInserts := CountInserts(request, t);
      assert Booked(state.info, state.Ledger(), state.Contents(), state.history, PerTable(t));
      if !state.CanAccommodateInserts(t, numInserts + 1) {
        return true;
      }
    }
    var buggy := config.isBuggy(u);
    return if buggy == None then true else buggy.value;
  }

  method CountInserts(request: seq<AnnotatedUpdate>, t: int) returns (n: nat)
    ensures n == InsertCount(request, t)
  {
    n := 0;
    for i := 0 to |request|
      invariant n == InsertCount(request[..i], t)
    {
      InsertCountSnoc(request[..i], request[i], t);
      assert request[..i + 1] == request[..i] + [request[i]];
      if request[i].translated && InsertsInto(request[i].pi, t) {
        n := n + 1;
      }
    }
    assert request[..|request|] == request;
  }

  lemma InsertCountSnoc(request: seq<AnnotatedUpdate>, u: AnnotatedUpdate, t: int)
    ensures InsertCount(request + [u], t)
            == InsertCount(request, t) + (if u.translated && InsertsInto(u.pi, t) then 1 else 0)
  {
    FilterConcat((u: AnnotatedUpdate) => u.translated && InsertsInto(u.pi, t), request, [u]);
  }

  // ----- what a request promises -----

  /** The updates of a request that were not mutated. */
  function Unmutated(request: seq<AnnotatedUpdate>): seq<Update>
  {
    MapSeq((u: AnnotatedUpdate) => u.pi, Filter((u: AnnotatedUpdate) => !u.mutated, request))
  }

  function Inserts(us: seq<Update>, t: int): nat
  {
    |Filter(u => InsertsInto(u, t), us)|
  }

  /** Distinct keys, each update applicable on its own, and guaranteed tables never overfilled. */
  ghost predicate GoodBatch(info: P4Info, s: State, config: Config, us: seq<Update>)
  {
    DistinctKeys(info, us)
    && (forall i :: 0 <= i < |us| ==> Apply(info, s, us[i]).Some?)
    && (forall t :: t in config.guaranteedTables && t in info.tables && Inserts(us, t) > 0 ==>
          |TableOf(s, t)| + Inserts(us, t) <= info.tables[t].size)
  }

  lemma UnmutatedSnoc(request: seq<AnnotatedUpdate>, u: AnnotatedUpdate)
    ensures Unmutated(request + [u]) == Unmutated(request) + (if u.mutated then [] else [u.pi])
  {
    FilterConcat((u: AnnotatedUpdate) => !u.mutated, request, [u]);
  }

  lemma InsertsSnoc(us: seq<Update>, u: Update, t: int)
    ensures Inserts(us + [u], t) == Inserts(us, t) + (if InsertsInto(u, t) then 1 else 0)
  {
    FilterConcat(u => InsertsInto(u, t), us, [u]);
  }

  /** What the generating loop keeps about the request so far and the keys it has seen. */
  ghost predicate RequestInvariant(info: P4Info, s: State, config: Config, request: seq<AnnotatedUpdate>,
                                   keys: set<EntityKey>)
  {
    GoodBatch(info, s, config, Unmutated(request))
    && (forall i :: 0 <= i < |Unmutated(request)| ==>
          EntityKeyOf(Unmutated(request)[i].entity) in keys && Canonical(info, Unmutated(request)[i].entity))
    && (forall t :: Inserts(Unmutated(request), t) <= InsertCount(request, t))
  }

  /** For a canonical update the canonical key is its own key. */
  lemma CanonicalUpdateKey(info: P4Info, u: Update)
    requires Canonical(info, u.entity)
    ensures Subject(info, u).Some? && UpdateKey(info, u) == EntityKeyOf(u.entity)
  {
  }

  lemma InsertsCounted(request: seq<AnnotatedUpdate>, u: AnnotatedUpdate, t: int)
    requires !u.mutated && u.translated && Inserts(Unmutated(request), t) <= InsertCount(request, t)
    ensures Inserts(Unmutated(request + [u]), t) <= InsertCount(request + [u], t)
  {
    UnmutatedSnoc(request, u);
    InsertsSnoc(Unmutated(request), u.pi, t);
    InsertCountSnoc(request, u, t);
  }

  lemma AddingKeepsInvariant(info: P4Info, s: State, config: Config, request: seq<AnnotatedUpdate>,
                             keys: set<EntityKey>, u: AnnotatedUpdate)
    requires WellFormed(info, s) && RequestInvariant(info, s, config, request, keys)
    requires WellAimed(info, s, u) && Acceptable(info, s, config, request, keys, u)
    ensures RequestInvariant(info, s, config, request + [u], keys + {EntityKeyOf(u.pi.entity)})
  {
    var us, us' := Unmutated(request), Unmutated(request + [u]);
    UnmutatedSnoc(request, u);
    forall t ensures InsertCount(request + [u], t) >= InsertCount(request, t) {
      InsertCountSnoc(request, u, t);
    }
    if !u.mutated {
      CanonicalUpdateKey(info, u.pi);
      forall i | 0 <= i < |us| ensures UpdateKey(info, us[i]) == EntityKeyOf(us[i].entity) {
        CanonicalUpdateKey(info, us[i]);
      }
      assert Apply(info, s, u.pi).Some? by {
        NewUpdateApplies(info, s, u.pi);
      }
      assert DistinctKeys(info, us');
      forall t ensures Inserts(us', t) <= InsertCount(request + [u], t) {
        InsertsCounted(request, u, t);
      }
      forall t | t in config.guaranteedTables && t in info.tables && Inserts(us', t) > 0
        ensures |TableOf(s, t)| + Inserts(us', t) <= info.tables[t].size
      {
        InsertsSnoc(us, u.pi, t);
      }
    } else {
      assert us' == us;
    }
  }

  lemma NewUpdateApplies(info: P4Info, s: State, u: Update)
    requires Canonical(info, u.entity) && !u.kind.Unspecified?
    requires u.kind.Insert? ==> !AlreadyExists(info, s, u.entity)
    requires !u.kind.Insert? ==> Lookup(s, EntityKeyOf(u.entity)).Some?
    ensures Apply(info, s, u).Some?
  {
  }

  /** The update offered to the request: the first acceptable one of ten thousand draws, or the last of them. */
  function Candidate(info: P4Info, s: State, config: Config, batch: Batch, draw: nat -> Choice, j: nat): AnnotatedUpdate
    requires j < 10000
    decreases 10000 - j
  {
    var u := UpdateFor(info, draw(j));
    if Acceptable(info, s, config, batch.updates, batch.keys, u) || j == 9999 then u
    else Candidate(info, s, config, batch, draw, j + 1)
  }

  /** A request under construction and the keys of its updates. */
  datatype Batch = Batch(updates: seq<AnnotatedUpdate>, keys: set<EntityKey>)

  predicate Full(maxBatchSize: Option<nat>, batch: Batch)
  {
    maxBatchSize.Some? && |batch.updates| >= maxBatchSize.value
  }

  /** The request after n iterations; `draw(i, j)` is the j-th draw of the i-th iteration. */
  function Requested(info: P4Info, s: State, config: Config, maxBatchSize: Option<nat>, draw: nat -> nat -> Choice,
                     n: nat): Batch
  {
    if n == 0 then Batch([], {})
    else Extended(info, s, config, maxBatchSize, draw(n - 1), Requested(info, s, config, maxBatchSize, draw, n - 1))
  }

  /** One iteration: the candidate joins if it is acceptable and there is room. */
  function Extended(info: P4Info, s: State, config: Config, maxBatchSize: Option<nat>, draw: nat -> Choice,
                    batch: Batch): Batch
  {
    if Full(maxBatchSize, batch) then batch
    else
      var u := Candidate(info, s, config, batch, draw, 0);
      if Acceptable(info, s, config, batch.updates, batch.keys, u)
      then Batch(batch.updates + [u], batch.keys + {EntityKeyOf(u.pi.entity)}) else batch
  }

  /** The first draw that may join does, if the request is not full and it is among the first ten thousand. */
  lemma {:induction false} FirstFitJoins(info: P4Info, s: State, config: Config, maxBatchSize: Option<nat>,
                                         draw: nat -> Choice, batch: Batch, j: nat)
    requires WellFormed(info, s) && forall i :: ValidChoice(info, s, draw(i))
    requires !(maxBatchSize.Some? && |batch.updates| >= maxBatchSize.value) && j < 10000
    requires forall i :: 0 <= i < j ==> !MayJoin(info, s, config, batch.updates, batch.keys, UpdateFor(info, draw(i)))
    requires MayJoin(info, s, config, batch.updates, batch.keys, UpdateFor(info, draw(j)))
    ensures Extended(info, s, config, maxBatchSize, draw, batch)
            == Batch(batch.updates + [UpdateFor(info, draw(j))],
                     batch.keys + {EntityKeyOf(UpdateFor(info, draw(j)).pi.entity)})
  {
    forall i ensures Acceptable(info, s, config, batch.updates, batch.keys, UpdateFor(info, draw(i)))
                <==> MayJoin(info, s, config, batch.updates, batch.keys, UpdateFor(info, draw(i)))
    {
      ChosenIsAimed(info, s, draw(i));
      AcceptableIff(info, s, config, batch.updates, batch.keys, UpdateFor(info, draw(i)));
    }
    CandidateIsFirstFit(info, s, config, batch, draw, 0, j);
  }

  lemma {:induction false} CandidateIsFirstFit(info: P4Info, s: State, config: Config, batch: Batch,
                                               draw: nat -> Choice, i: nat, j: nat)
    requires i <= j < 10000
    requires forall k :: i <= k < j ==>
               !Acceptable(info, s, config, batch.updates, batch.keys, UpdateFor(info, draw(k)))
    requires Acceptable(info, s, config, batch.updates, batch.keys, UpdateFor(info, draw(j)))
    ensures Candidate(info, s, config, batch, draw, i) == UpdateFor(info, draw(j))
    decreases j - i
  {
    if i < j {
      CandidateIsFirstFit(info, s, config, batch, draw, i + 1, j);
    }
  }

  /** If none of ten thousand draws may join, nothing does. */
  lemma NoFitChangesNothing(info: P4Info, s: State, config: Config, maxBatchSize: Option<nat>,
                            draw: nat -> Choice, batch: Batch)
    requires WellFormed(info, s) && forall i :: ValidChoice(info, s, draw(i))
    requires forall i :: 0 <= i < 10000 ==>
               !MayJoin(info, s, config, batch.updates, batch.keys, UpdateFor(info, draw(i)))
    ensures Extended(info, s, config, maxBatchSize, draw, batch) == batch
  {
    forall i | 0 <= i < 10000
      ensures !Acceptable(info, s, config, batch.updates, batch.keys, UpdateFor(info, draw(i)))
    {
      ChosenIsAimed(info, s, draw(i));
      AcceptableIff(info, s, config, batch.updates, batch.keys, UpdateFor(info, draw(i)));
    }
    CandidateIsDrawn(info, s, config, batch, draw, 0);
  }

  lemma {:induction false} CandidateIsDrawn(info: P4Info, s: State, config: Config, batch: Batch,
                                            draw: nat -> Choice, j: nat)
    requires j < 10000
    ensures exists i :: 0 <= i < 10000 && Candidate(info, s, config, batch, draw, j) == UpdateFor(info, draw(i))
    decreases 10000 - j
  {
    if Candidate(info, s, config, batch, draw, j) != UpdateFor(info, draw(j)) {
      CandidateIsDrawn(info, s, config, batch, draw, j + 1);
    }
  }

  lemma ChosenIsAimed(info: P4Info, s: State, c: Choice)
    requires WellFormed(info, s) && ValidChoice(info, s, c)
    ensures WellAimed(info, s, UpdateFor(info, c))
  {
    match c
    case Mutated(_) =>
    case InsertTable(entry) => CanonicalIdempotent(info, TableEntity(entry), false);
    case InsertMulticast(id, candidates) => OccurrencesDiffer(candidates);
    case ChangeStored(kind, stored, fields) =>
      if stored.MulticastEntity? {
        OccurrencesDiffer(fields.replicas);
      }
      StoredStaysOnTarget(info, s, stored, Changed(stored, fields));
  }

  lemma {:induction false} OccurrencesDiffer(s: seq<Replica>)
    ensures forall i, j :: 0 <= i < j < |FirstOccurrences(s)| ==> FirstOccurrences(s)[i] != FirstOccurrences(s)[j]
    ensures forall r :: r in FirstOccurrences(s) <==> r in s
  {
    if s != [] {
      OccurrencesDiffer(s[..|s| - 1]);
      assert s == s[..|s| - 1] + [s[|s| - 1]];
    }
  }

  lemma FullExtended(info: P4Info, s: State, config: Config, maxBatchSize: Option<nat>, draw: nat -> Choice,
                     batch: Batch)
    requires Full(maxBatchSize, batch)
    ensures Extended(info, s, config, maxBatchSize, draw, batch) == batch
  {
  }

  lemma {:induction false} FullStays(info: P4Info, s: State, config: Config, maxBatchSize: Option<nat>,
                                     draw: nat -> nat -> Choice, n: nat, m: nat)
    requires n <= m && Full(maxBatchSize, Requested(info, s, config, maxBatchSize, draw, n))
    ensures Requested(info, s, config, maxBatchSize, draw, m) == Requested(info, s, config, maxBatchSize, draw, n)
    decreases m - n
  {
    if n < m {
      FullStays(info, s, config, maxBatchSize, draw, n, m - 1);
      FullExtended(info, s, config, maxBatchSize, draw(m - 1), Requested(info, s, config, maxBatchSize, draw, m - 1));
    }
  }

  /** Draws until an update is acceptable, ten thousand times at most. */
  method FindCandidate(state: SwitchState, config: Config, batch: Batch, draw: nat -> Choice)
    returns (u: AnnotatedUpdate)
    requires state.Valid() && forall j :: ValidChoice(state.info, state.Contents(), draw(j))
    ensures u == Candidate(state.info, state.Contents(), config, batch, draw, 0)
    ensures WellAimed(state.info, state.Contents(), u)
  {
    ghost var info, s := state.info, state.Contents();
    u := FuzzUpdate(state, draw(0));
    var updateAttempts := 1;
    UnmutatedTableKnown(info, u);
    var invalid := IsAccidentallyInvalidUpdate(config, state, batch.updates, batch.keys, u);
    while invalid && updateAttempts < 10000
      invariant 1 <= updateAttempts <= 10000
      invariant WellAimed(info, s, u) && u == UpdateFor(info, draw(updateAttempts - 1))
      invariant invalid <==> !Acceptable(info, s, config, batch.updates, batch.keys, u)
      invariant Candidate(info, s, config, batch, draw, 0)
                == Candidate(info, s, config, batch, draw, updateAttempts - 1)
      decreases 10000 - updateAttempts
    {
      u := FuzzUpdate(state, draw(updateAttempts));
      updateAttempts := updateAttempts + 1;
      UnmutatedTableKnown(info, u);
      invalid := IsAccidentallyInvalidUpdate(config, state, batch.updates, batch.keys, u);
    }
  }

  /**
    Builds a request from an arbitrary finite number of iterations and arbitrary draws: exactly the
    acceptable candidates join, until the request has its largest size.
   */
  method FuzzWriteRequest(state: SwitchState, config: Config, maxBatchSize: Option<nat>,
                          iterations: nat, draw: nat -> nat -> Choice) returns (request: seq<AnnotatedUpdate>)
    requires state.Valid()
    requires forall i, j :: ValidChoice(state.info, state.Contents(), draw(i)(j))
    ensures request == Requested(state.info, state.Contents(), config, maxBatchSize, draw, iterations).updates
    ensures GoodBatch(state.info, state.Contents(), config, Unmutated(request))
    ensures maxBatchSize.Some? ==> |request| <= maxBatchSize.value
  {
    var batch := Batch([], {});
    ghost var info, s := state.info, state.Contents();
    for i := 0 to iterations
      invariant RequestInvariant(info, s, config, batch.updates, batch.keys)
      invariant batch == Requested(info, s, config, maxBatchSize, draw, i)
      invariant maxBatchSize.Some? ==> |batch.updates| <= maxBatchSize.value
    {
      if maxBatchSize.Some? && |batch.updates| >= maxBatchSize.value {
        FullStays(info, s, config, maxBatchSize, draw, i, iterations);
        return batch.updates;
      }
      var u := FindCandidate(state, config, batch, draw(i));
      UnmutatedTableKnown(info, u);
      var invalid := IsAccidentallyInvalidUpdate(config, state, batch.updates, batch.keys, u);
      if !invalid {
        AddingKeepsInvariant(info, s, config, batch.updates, batch.keys, u);
        batch := Batch(batch.updates + [u], batch.keys + {EntityKeyOf(u.pi.entity)});
      }
    }
    request := batch.updates;
  }

  lemma UnmutatedTableKnown(info: P4Info, u: AnnotatedUpdate)
    ensures !u.mutated && u.pi.entity.TableEntity? && Canonical(info, u.pi.entity) ==>
              u.pi.entity.entry.tableId in info.tables
  {
  }

  // ----- order independence of a request -----

  /**
    The unmutated updates of a request can be executed in any order: every permutation runs to
    the end, and all of them reach the same state, hence the same statistics.
   */
  lemma AnyOrderExecutes(info: P4Info, s: State, config: Config, us: seq<Update>, p: seq<Update>)
    requires WellFormed(info, s) && GoodBatch(info, s, config, us) && Permutation(us, p)
    ensures ApplyAll(info, s, p).Some? && ApplyAll(info, s, p) == ApplyAll(info, s, us)
    ensures forall m :: Of(ApplyAll(info, s, p).value, m) == Of(ApplyAll(info, s, us).value, m)
  {
    DistinctKeysApply(info, s, us);
    OrderIndependence(info, s, us, p);
  }

  /** At no point of any order does a guaranteed table that receives an INSERT exceed its size. */
  lemma NeverOverfull(info: P4Info, s: State, config: Config, us: seq<Update>, p: seq<Update>, n: nat, t: int)
    requires WellFormed(info, s) && GoodBatch(info, s, config, us) && Permutation(us, p) && n <= |p|
    requires t in config.guaranteedTables && t in info.tables && Inserts(us, t) > 0
    ensures ApplyAll(info, s, p[..n]).Some?
    ensures |TableOf(ApplyAll(info, s, p[..n]).value, t)| <= info.tables[t].size
  {
    AnyOrderExecutes(info, s, config, us, p);
    assert p == p[..n] + p[n..];
    PrefixRuns(info, s, p[..n], p[n..]);
    RunSize(info, s, p[..n], t);
    FilterConcat(u => InsertsInto(u, t), p[..n], p[n..]);
    FilterPermutes(u => InsertsInto(u, t), us, p);
    PermutationMembers(Filter(u => InsertsInto(u, t), us), Filter(u => InsertsInto(u, t), p));
  }

  lemma {:induction false} PrefixRuns(info: P4Info, s: State, a: seq<Update>, b: seq<Update>)
    requires ApplyAll(info, s, a + b).Some?
    ensures ApplyAll(info, s, a).Some?
    decreases |a|
  {
    if a != [] {
      assert (a + b)[1..] == a[1..] + b;
      PrefixRuns(info, Apply(info, s, a[0]).value, a[1..], b);
    }
  }

  /** Over any run a table grows by at most the number of INSERTs into it. */
  lemma {:induction false} RunSize(info: P4Info, s: State, us: seq<Update>, t: int)
    requires WellFormed(info, s) && ApplyAll(info, s, us).Some?
    ensures |TableOf(ApplyAll(info, s, us).value, t)| <= |TableOf(s, t)| + Inserts(us, t)
    decreases |us|
  {
    if us != [] {
      var s' := Apply(info, s, us[0]).value;
      ApplyKeepsWellFormed(info, s, us[0]);
      RunSize(info, s', us[1..], t);
      if us[0].entity.TableEntity? {
        ApplySize(info, s, us[0], t);
      }
    }
  }
}
