/**
  What a switch holds, as a value, and what an update does to it. SwitchState (the class) is
  proved to compute these functions; the lemmas here are about the functions.
 */
module StateModel {
  import opened Common
  import opened P4Entries

  type Table = map<TableEntryKey, TableEntry>

  datatype State = State(tables: map<int, Table>, groups: map<int, MulticastGroup>)

  function EmptyState(info: P4Info): State
  {
    State(map t | t in info.tables :: map[], map[])
  }

  function TableOf(s: State, t: int): Table
  {
    if t in s.tables then s.tables[t] else map[]
  }

  /** The entity stored under a canonical key. */
  function Lookup(s: State, key: EntityKey): Option<Entity>
  {
    match key
    case TableKey(k) =>
      var table := TableOf(s, k.tableId);
      if k in table then Some(TableEntity(table[k])) else None
    case MulticastKey(id) =>
      if id in s.groups then Some(MulticastEntity(s.groups[id])) else None
  }

  function Put(s: State, entity: Entity): State
  {
    match entity
    case TableEntity(e) =>
      s.(tables := s.tables[e.tableId := TableOf(s, e.tableId)[KeyOf(e) := e]])
    case MulticastEntity(g) =>
      s.(groups := s.groups[g.id := g])
  }

  function Remove(s: State, key: EntityKey): State
  {
    match key
    case TableKey(k) =>
      s.(tables := s.tables[k.tableId := TableOf(s, k.tableId) - {k}])
    case MulticastKey(id) =>
      s.(groups := s.groups - {id})
  }

  /** The canonical entity an update is about; a DELETE is canonicalized by key only. */
  function Subject(info: P4Info, u: Update): Option<Entity>
  {
    CanonicalizeEntity(info, u.entity, u.kind.Delete?)
  }

  /** The state after an update, or None when the update cannot be applied. */
  function Apply(info: P4Info, s: State, u: Update): Option<State>
  {
    var subject := Subject(info, u);
    if subject == None then None
    else
      var key := EntityKeyOf(subject.value);
      var present := Lookup(s, key).Some?;
      match u.kind
      case Unspecified => None
      case Insert => if present then None else Some(Put(s, subject.value))
      case Modify => if present then Some(Put(s, subject.value)) else None
      case Delete => if present then Some(Remove(s, key)) else None
  }

  /** The state after applying a whole sequence, or None when some update cannot be applied. */
  function ApplyAll(info: P4Info, s: State, us: seq<Update>): Option<State>
    decreases |us|
  {
    if us == [] then Some(s)
    else
      var s' := Apply(info, s, us[0]);
      if s' == None then None else ApplyAll(info, s'.value, us[1..])
  }

  predicate Stored(s: State, t: int, k: TableEntryKey)
  {
    t in s.tables && k in s.tables[t]
  }

  predicate InPlace(info: P4Info, t: int, k: TableEntryKey, e: TableEntry)
  {
    k.tableId == t && KeyOf(e) == k && Canonical(info, TableEntity(e))
  }

  predicate GroupStored(s: State, id: int)
  {
    id in s.groups
  }

  predicate GroupInPlace(info: P4Info, id: int, g: MulticastGroup)
  {
    g.id == id && Canonical(info, MulticastEntity(g))
  }

  /** Every stored entity is canonical and sits under its own key, in its own table. */
  ghost predicate WellFormed(info: P4Info, s: State)
  {
    s.tables.Keys == info.tables.Keys
    && (forall t, k {:trigger Stored(s, t, k)} :: Stored(s, t, k) ==> InPlace(info, t, k, s.tables[t][k]))
    && (forall id {:trigger GroupStored(s, id)} :: GroupStored(s, id) ==> GroupInPlace(info, id, s.groups[id]))
  }

  // ----- elementary facts -----

  lemma EmptyIsWellFormed(info: P4Info)
    ensures WellFormed(info, EmptyState(info))
  {
  }

  lemma SubjectCanonical(info: P4Info, u: Update)
    requires Subject(info, u).Some? && !u.kind.Delete?
    ensures Canonical(info, Subject(info, u).value)
  {
    CanonicalIdempotent(info, u.entity, false);
  }

  lemma ApplyKeepsWellFormed(info: P4Info, s: State, u: Update)
    requires WellFormed(info, s) && Apply(info, s, u).Some?
    ensures WellFormed(info, Apply(info, s, u).value)
  {
    var subject, s' := Subject(info, u).value, Apply(info, s, u).value;
    if !u.kind.Delete? {
      SubjectCanonical(info, u);
    }
    assert s'.tables.Keys == s.tables.Keys by {
      if subject.TableEntity? && !u.kind.Delete? {
        assert KeyTranslates(info, KeyOf(u.entity.entry));
      }
    }
    forall t, k | Stored(s', t, k)
      ensures InPlace(info, t, k, s'.tables[t][k])
    {
      assert Stored(s, t, k) || (subject.TableEntity? && s'.tables[t][k] == subject.entry);
    }
    forall id | GroupStored(s', id)
      ensures GroupInPlace(info, id, s'.groups[id])
    {
      assert GroupStored(s, id) || (subject.MulticastEntity? && s'.groups[id] == subject.group);
    }
  }

  /** One table after an update with canonical entry e, or None when it does not apply. */
  function TableAfter(table: Table, e: TableEntry, kind: UpdateType): Option<Table>
  {
    var present := KeyOf(e) in table;
    match kind
    case Unspecified => None
    case Insert => if present then None else Some(table[KeyOf(e) := e])
    case Modify => if present then Some(table[KeyOf(e) := e]) else None
    case Delete => if present then Some(table - {KeyOf(e)}) else None
  }

  /** Apply, written out for a table entry whose canonical form is e. */
  lemma ApplyToTable(info: P4Info, s: State, u: Update, e: TableEntry)
    requires WellFormed(info, s) && Subject(info, u) == Some(TableEntity(e))
    ensures e.tableId in s.tables
    ensures var after := TableAfter(s.tables[e.tableId], e, u.kind);
            Apply(info, s, u)
            == if after.Some? then Some(State(s.tables[e.tableId := after.value], s.groups)) else None
    ensures KeyOf(e) in s.tables[e.tableId] ==> KeyOf(s.tables[e.tableId][KeyOf(e)]) == KeyOf(e)
  {
    assert KeyTranslates(info, KeyOf(u.entity.entry));
    assert Stored(s, e.tableId, KeyOf(e)) ==> InPlace(info, e.tableId, KeyOf(e), s.tables[e.tableId][KeyOf(e)]);
  }

  /** An update of a table entry: on which keys it applies, and the tables it leaves. */
  lemma TableUpdateMeans(info: P4Info, s: State, kind: UpdateType, e: TableEntry)
    requires WellFormed(info, s)
    ensures Apply(info, s, Update(kind, TableEntity(e)))
            == match CanonicalizeTableEntry(info, e, kind.Delete?)
               case None => None
               case Some(c) =>
                 if e.tableId !in s.tables then None
                 else
                   var table, k := s.tables[e.tableId], TableEntryKey(c.tableId, c.priority, c.matches);
                   if kind.Insert? && k !in table then Some(s.(tables := s.tables[e.tableId := table[k := c]]))
                   else if kind.Modify? && k in table then Some(s.(tables := s.tables[e.tableId := table[k := c]]))
                   else if kind.Delete? && k in table then Some(s.(tables := s.tables[e.tableId := table - {k}]))
                   else None
  {
    var u := Update(kind, TableEntity(e));
    if Subject(info, u).Some? {
      ApplyToTable(info, s, u, Subject(info, u).value.entry);
    }
  }

  /** An update of a multicast group; one with a repeated replica does not apply, unless it is a DELETE. */
  lemma MulticastUpdateMeans(info: P4Info, s: State, kind: UpdateType, g: MulticastGroup)
    ensures Apply(info, s, Update(kind, MulticastEntity(g)))
            == var fit := forall i, j :: 0 <= i < j < |g.replicas| ==> g.replicas[i] != g.replicas[j];
               if kind.Insert? && fit && g.id !in s.groups then Some(s.(groups := s.groups[g.id := g]))
               else if kind.Modify? && fit && g.id in s.groups then Some(s.(groups := s.groups[g.id := g]))
               else if kind.Delete? && g.id in s.groups then Some(s.(groups := s.groups - {g.id}))
               else None
  {
  }

  /** How an update of a table entry changes the number of entries of a table. */
  lemma ApplySize(info: P4Info, s: State, u: Update, t: int)
    requires WellFormed(info, s) && u.entity.TableEntity? && Apply(info, s, u).Some?
    ensures |TableOf(Apply(info, s, u).value, t)|
            == |TableOf(s, t)| + (if u.entity.entry.tableId != t then 0
                                  else match u.kind { case Insert => 1 case Delete => -1 case _ => 0 })
  {
  }

  /** Two well-formed states that answer every lookup alike are the same state. */
  lemma StateExtensionality(info: P4Info, a: State, b: State)
    requires WellFormed(info, a) && WellFormed(info, b)
    requires forall key :: Lookup(a, key) == Lookup(b, key)
    ensures a == b
  {
    forall t | t in a.tables
      ensures a.tables[t] == b.tables[t]
    {
      forall k: TableEntryKey | k in a.tables[t] || k in b.tables[t]
        ensures k in a.tables[t] && k in b.tables[t] && a.tables[t][k] == b.tables[t][k]
      {
        assert Stored(a, t, k) || Stored(b, t, k);
        assert Lookup(a, TableKey(k)) == Lookup(b, TableKey(k));
      }
    }
    assert a.tables == b.tables;
    forall id | id in a.groups || id in b.groups
      ensures id in a.groups && id in b.groups && a.groups[id] == b.groups[id]
    {
      assert Lookup(a, MulticastKey(id)) == Lookup(b, MulticastKey(id));
    }
    assert a.groups == b.groups;
  }

  // ----- updates on different keys -----

  function UpdateKey(info: P4Info, u: Update): EntityKey
    requires Subject(info, u).Some?
  {
    EntityKeyOf(Subject(info, u).value)
  }

  /** What is stored under an update's key once the update has been applied. */
  function Effect(info: P4Info, u: Update): Option<Entity>
  {
    if u.kind.Delete? then None else Subject(info, u)
  }

  lemma LookupApply(info: P4Info, s: State, u: Update, key: EntityKey)
    requires Apply(info, s, u).Some?
    ensures Lookup(Apply(info, s, u).value, key)
            == if key == UpdateKey(info, u) then Effect(info, u) else Lookup(s, key)
  {
  }

  /** Whether an update applies depends on the state only through its own key. */
  lemma ApplicableLocally(info: P4Info, a: State, b: State, u: Update)
    requires Subject(info, u).Some?
    requires Lookup(a, UpdateKey(info, u)).Some? == Lookup(b, UpdateKey(info, u)).Some?
    ensures Apply(info, a, u).Some? == Apply(info, b, u).Some?
  {
  }

  /** All updates have a canonical subject, and no two share a key. */
  ghost predicate DistinctKeys(info: P4Info, us: seq<Update>)
  {
    (forall i :: 0 <= i < |us| ==> Subject(info, us[i]).Some?)
    && (forall i, j :: 0 <= i < j < |us| ==> UpdateKey(info, us[i]) != UpdateKey(info, us[j]))
  }

  /** A sequence on distinct keys runs to the end exactly when each update applies on its own. */
  lemma {:induction false} DistinctKeysApply(info: P4Info, s: State, us: seq<Update>)
    requires DistinctKeys(info, us)
    ensures ApplyAll(info, s, us).Some? <==> forall i :: 0 <= i < |us| ==> Apply(info, s, us[i]).Some?
    ensures ApplyAll(info, s, us).Some? && WellFormed(info, s) ==> WellFormed(info, ApplyAll(info, s, us).value)
    ensures ApplyAll(info, s, us).Some? ==>
              (forall i :: 0 <= i < |us| ==>
                 Lookup(ApplyAll(info, s, us).value, UpdateKey(info, us[i])) == Effect(info, us[i]))
              && (forall key :: (forall i :: 0 <= i < |us| ==> UpdateKey(info, us[i]) != key) ==>
                    Lookup(ApplyAll(info, s, us).value, key) == Lookup(s, key))
    decreases |us|
  {
    if us != [] && Apply(info, s, us[0]).Some? {
      var s' := Apply(info, s, us[0]).value;
      var rest := us[1..];
      DistinctKeysApply(info, s', rest);
      if WellFormed(info, s) {
        ApplyKeepsWellFormed(info, s, us[0]);
      }
      forall i | 0 <= i < |rest|
        ensures rest[i] == us[i + 1] && (Apply(info, s', rest[i]).Some? <==> Apply(info, s, us[i + 1]).Some?)
      {
        LookupApply(info, s, us[0], UpdateKey(info, rest[i]));
        ApplicableLocally(info, s, s', rest[i]);
      }
      assert (forall i :: 0 <= i < |rest| ==> Apply(info, s', rest[i]).Some?)
          <==> (forall i :: 0 <= i < |us| ==> Apply(info, s, us[i]).Some?) by {
        assert forall i :: 1 <= i < |us| ==> us[i] == rest[i - 1];
      }
      if ApplyAll(info, s, us).Some? {
        LookupAfterFirst(info, s, us);
      }
    }
  }

  lemma LookupAfterFirst(info: P4Info, s: State, us: seq<Update>)
    requires us != [] && DistinctKeys(info, us) && Apply(info, s, us[0]).Some?
    requires ApplyAll(info, s, us).Some?
    requires var s', rest, f := Apply(info, s, us[0]).value, us[1..], ApplyAll(info, s, us).value;
             (forall i :: 0 <= i < |rest| ==> Lookup(f, UpdateKey(info, rest[i])) == Effect(info, rest[i]))
             && (forall key :: (forall i :: 0 <= i < |rest| ==> UpdateKey(info, rest[i]) != key) ==>
                   Lookup(f, key) == Lookup(s', key))
    ensures var f := ApplyAll(info, s, us).value;
            (forall i :: 0 <= i < |us| ==> Lookup(f, UpdateKey(info, us[i])) == Effect(info, us[i]))
            && (forall key :: (forall i :: 0 <= i < |us| ==> UpdateKey(info, us[i]) != key) ==>
                  Lookup(f, key) == Lookup(s, key))
  {
    var s', rest, f := Apply(info, s, us[0]).value, us[1..], ApplyAll(info, s, us).value;
    forall i | 0 <= i < |us|
      ensures Lookup(f, UpdateKey(info, us[i])) == Effect(info, us[i])
    {
      if i == 0 {
        LookupApply(info, s, us[0], UpdateKey(info, us[0]));
        assert forall j :: 0 <= j < |rest| ==> rest[j] == us[j + 1];
      } else {
        assert us[i] == rest[i - 1];
      }
    }
    forall key | forall i :: 0 <= i < |us| ==> UpdateKey(info, us[i]) != key
      ensures Lookup(f, key) == Lookup(s, key)
    {
      LookupApply(info, s, us[0], key);
      assert forall j :: 0 <= j < |rest| ==> rest[j] == us[j + 1];
    }
  }

  /**
    Order independence: updates on distinct keys that can run in one order can run in every
    order, and every order ends in the same state.
   */
  lemma OrderIndependence(info: P4Info, s: State, us: seq<Update>, vs: seq<Update>)
    requires WellFormed(info, s) && DistinctKeys(info, us) && Permutation(us, vs)
    ensures DistinctKeys(info, vs)
    ensures ApplyAll(info, s, us) == ApplyAll(info, s, vs)
  {
    PermutationMembers(us, vs);
    DistinctAfterPermutation(info, us, vs);
    DistinctKeysApply(info, s, us);
    DistinctKeysApply(info, s, vs);
    assert (forall i :: 0 <= i < |us| ==> Apply(info, s, us[i]).Some?)
      <==> (forall i :: 0 <= i < |vs| ==> Apply(info, s, vs[i]).Some?) by {
      assert forall i :: 0 <= i < |us| ==> us[i] in vs;
      assert forall i :: 0 <= i < |vs| ==> vs[i] in us;
    }
    if ApplyAll(info, s, us).Some? {
      var a, b := ApplyAll(info, s, us).value, ApplyAll(info, s, vs).value;
      forall key ensures Lookup(a, key) == Lookup(b, key) {
        if i :| 0 <= i < |us| && UpdateKey(info, us[i]) == key {
          assert us[i] in vs;
          var j :| 0 <= j < |vs| && vs[j] == us[i];
        } else {
          forall j | 0 <= j < |vs| ensures UpdateKey(info, vs[j]) != key {
            assert vs[j] in us;
          }
        }
      }
      StateExtensionality(info, a, b);
    }
  }

  lemma DistinctAfterPermutation(info: P4Info, us: seq<Update>, vs: seq<Update>)
    requires DistinctKeys(info, us) && Permutation(us, vs)
    ensures DistinctKeys(info, vs)
  {
    PermutationMembers(us, vs);
    forall i | 0 <= i < |vs| ensures Subject(info, vs[i]).Some? {
      assert vs[i] in us;
    }
    forall i, j | 0 <= i < j < |vs|
      ensures UpdateKey(info, vs[i]) != UpdateKey(info, vs[j])
    {
      assert vs[i] in us && vs[j] in us;
      if UpdateKey(info, vs[i]) == UpdateKey(info, vs[j]) {
        var a :| 0 <= a < |us| && us[a] == vs[i];
        var b :| 0 <= b < |us| && us[b] == vs[j];
        assert a == b;
        OnceInMultiset(us, a);
        TwiceInMultiset(vs, i, j);
      }
    }
  }

}
