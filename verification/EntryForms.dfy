/**
  What it takes for a table entry to translate, and which entries have the same canonical form, in terms
  of the numbers their bytes denote (p4_fuzzer/switch_state.cc, p4_infra/p4_pdpi/ir.cc).
 */
module EntryForms {
  import opened ByteStrings
  import opened Common
  import opened P4Entries

  // ----- which entries translate -----

  /** A value needs a byte, a width, and a number below two to that width. */
  predicate Fits(value: Bytes, width: nat)
  {
    value != [] && width > 0 && BigEndian(value) < Pow2(width)
  }

  /** Exactly the parameters of the action, each of its width. */
  ghost predicate TakesAction(def: TableDefinition, action: Action)
  {
    && action.id in def.actionWidths
    && (forall p :: p in action.params <==> p in def.actionWidths[action.id])
    && (forall p :: p in action.params ==> Fits(action.params[p], def.actionWidths[action.id][p]))
  }

  /** The fields and the priority that the table asks for. */
  ghost predicate TakesKey(def: TableDefinition, e: TableEntry)
  {
    && (forall f :: f in e.matches ==> f in def.matchWidths && Fits(e.matches[f], def.matchWidths[f]))
    && def.mandatoryMatches <= e.matches.Keys
    && (e.priority > 0 || !def.requiresPriority) && (e.priority == 0 || def.requiresPriority)
  }

  /** An entry of a table of the program, with a key and an action that the table takes. */
  ghost predicate Takes(info: P4Info, e: TableEntry)
  {
    && e.tableId in info.tables
    && var def := info.tables[e.tableId];
       && TakesKey(def, e)
       && (match e.action
           case NoAction => def.actionWidths == map[]
           case Single(a) => !def.usesOneshot && TakesAction(def, a)
           case ActionSet(members) =>
             && def.usesOneshot && def.actionWidths != map[]
             && forall i :: 0 <= i < |members| ==> members[i].weight >= 1 && TakesAction(def, members[i].action))
  }

  lemma ActionTakenIff(def: TableDefinition, action: Action)
    ensures ActionTranslates(def, action) <==> TakesAction(def, action)
  {
    if action.id in def.actionWidths && (forall p :: p in action.params <==> p in def.actionWidths[action.id]) {
      assert action.params.Keys == def.actionWidths[action.id].Keys;
    }
    if ActionTranslates(def, action) {
      assert forall p :: p in action.params <==> p in action.params.Keys;
    }
  }

  /** Exactly those keys translate. */
  lemma KeyTranslatesIff(info: P4Info, e: TableEntry)
    ensures CanonicalizeTableEntry(info, e, true).Some?
       <==> e.tableId in info.tables && TakesKey(info.tables[e.tableId], e)
  {
    if e.tableId in info.tables {
      assert KeyTranslates(info, KeyOf(e)) <==> TakesKey(info.tables[e.tableId], e);
    }
  }

  /** Exactly those entries have a canonical form. */
  lemma TranslatesIff(info: P4Info, e: TableEntry)
    ensures CanonicalizeTableEntry(info, e, false).Some? <==> Takes(info, e)
  {
    KeyTranslatesIff(info, e);
    if e.tableId in info.tables {
      var def := info.tables[e.tableId];
      match e.action
      case NoAction =>
      case Single(a) => ActionTakenIff(def, a);
      case ActionSet(members) =>
        forall i | 0 <= i < |members|
          ensures MemberTranslates(def, members[i])
             <==> members[i].weight >= 1 && TakesAction(def, members[i].action)
        {
          ActionTakenIff(def, members[i].action);
        }
        assert (forall m :: m in members ==> MemberTranslates(def, m))
          <==> forall i :: 0 <= i < |members| ==> MemberTranslates(def, members[i]);
    }
  }

  // ----- which entries have the same canonical form -----

  predicate SameValues(a: map<int, Bytes>, b: map<int, Bytes>)
  {
    a.Keys == b.Keys && forall f :: f in a ==> BigEndian(a[f]) == BigEndian(b[f])
  }

  predicate SameAction(a: Action, b: Action)
  {
    a.id == b.id && SameValues(a.params, b.params)
  }

  /** Equal but for leading zeros of parameters. */
  predicate SameTableAction(a: TableAction, b: TableAction)
  {
    match (a, b)
    case (NoAction, NoAction) => true
    case (Single(x), Single(y)) => SameAction(x, y)
    case (ActionSet(x), ActionSet(y)) =>
      |x| == |y| && forall i :: 0 <= i < |x| ==>
        SameAction(x[i].action, y[i].action) && x[i].weight == y[i].weight && x[i].watchPort == y[i].watchPort
    case _ => false
  }

  lemma SameValuesIff(a: map<int, Bytes>, b: map<int, Bytes>)
    requires forall f :: f in a ==> a[f] != []
    requires forall f :: f in b ==> b[f] != []
    ensures StripValues(a) == StripValues(b) <==> SameValues(a, b)
  {
    assert StripValues(a).Keys == a.Keys && StripValues(b).Keys == b.Keys;
    forall f | f in a && f in b
      ensures StripValues(a)[f] == StripValues(b)[f] <==> BigEndian(a[f]) == BigEndian(b[f])
    {
      CanonicalIffSameValue(a[f], b[f]);
    }
    if SameValues(a, b) {
      forall f | f in a ensures StripValues(a)[f] == StripValues(b)[f] {
        assert f in b;
      }
    }
    if StripValues(a) == StripValues(b) {
      forall f | f in a ensures BigEndian(a[f]) == BigEndian(b[f]) {
        assert f in StripValues(a);
      }
    }
  }

  lemma SameActionIff(def: TableDefinition, a: Action, b: Action)
    requires ActionTranslates(def, a) && ActionTranslates(def, b)
    ensures StripAction(a) == StripAction(b) <==> SameAction(a, b)
  {
    SameValuesIff(a.params, b.params);
  }

  lemma SameTableActionIff(def: TableDefinition, a: TableAction, b: TableAction)
    requires TableActionTranslates(def, a) && TableActionTranslates(def, b)
    ensures StripTableAction(a) == StripTableAction(b) <==> SameTableAction(a, b)
  {
    match (a, b)
    case (Single(x), Single(y)) => SameActionIff(def, x, y);
    case (ActionSet(x), ActionSet(y)) => SameMembersIff(def, x, y);
    case _ =>
  }

  lemma SameMembersIff(def: TableDefinition, x: seq<GroupMember>, y: seq<GroupMember>)
    requires forall m :: m in x || m in y ==> MemberTranslates(def, m)
    ensures StripMembers(x) == StripMembers(y) <==> SameTableAction(ActionSet(x), ActionSet(y))
  {
    if |x| == |y| {
      forall i | 0 <= i < |x|
        ensures StripMembers(x)[i] == StripMembers(y)[i]
           <==> SameAction(x[i].action, y[i].action) && x[i].weight == y[i].weight && x[i].watchPort == y[i].watchPort
      {
        assert x[i] in x && y[i] in y;
        SameActionIff(def, x[i].action, y[i].action);
      }
    } else {
      assert |StripMembers(x)| == |x| && |StripMembers(y)| == |y|;
    }
  }

  /** Two entries have one canonical form exactly when they differ in leading zeros only. */
  lemma SameFormIff(info: P4Info, a: TableEntry, b: TableEntry)
    requires CanonicalizeTableEntry(info, a, false).Some? && CanonicalizeTableEntry(info, b, false).Some?
    ensures CanonicalizeTableEntry(info, a, false) == CanonicalizeTableEntry(info, b, false)
       <==> a.tableId == b.tableId && a.priority == b.priority && a.metadata == b.metadata
            && SameValues(a.matches, b.matches) && SameTableAction(a.action, b.action)
  {
    SameValuesIff(a.matches, b.matches);
    if a.tableId == b.tableId {
      SameTableActionIff(info.tables[a.tableId], a.action, b.action);
    }
  }

  /** The canonical form is one of those entries, so metadata, weights, ports and all numbers survive. */
  lemma FormIsSame(info: P4Info, e: TableEntry)
    requires CanonicalizeTableEntry(info, e, false).Some?
    ensures var c := CanonicalizeTableEntry(info, e, false).value;
            c.tableId == e.tableId && c.priority == e.priority && c.metadata == e.metadata
            && SameValues(c.matches, e.matches) && SameTableAction(c.action, e.action)
  {
    CanonicalIdempotent(info, TableEntity(e), false);
    SameFormIff(info, CanonicalizeTableEntry(info, e, false).value, e);
  }

  /** Nothing with a leading zero is stored. */
  lemma FormHasNoLeadingZeros(info: P4Info, e: TableEntry, keyOnly: bool)
    requires CanonicalizeTableEntry(info, e, keyOnly).Some?
    ensures var c := CanonicalizeTableEntry(info, e, keyOnly).value;
            forall f :: f in c.matches ==> c.matches[f] != [] && (|c.matches[f]| > 1 ==> c.matches[f][0] != 0)
  {
    forall f | f in e.matches ensures var v := StripLeadingZeros(e.matches[f]); v != [] && (|v| > 1 ==> v[0] != 0) {
      StrippedShape(e.matches[f]);
    }
  }

  /** The canonical key of a key-only form depends on the numbers in the key alone. */
  lemma SameKeyIff(info: P4Info, a: TableEntry, b: TableEntry)
    requires CanonicalizeTableEntry(info, a, true).Some? && CanonicalizeTableEntry(info, b, true).Some?
    ensures CanonicalizeTableEntry(info, a, true) == CanonicalizeTableEntry(info, b, true)
       <==> a.tableId == b.tableId && a.priority == b.priority && SameValues(a.matches, b.matches)
  {
    SameValuesIff(a.matches, b.matches);
  }

  /** Two entries have one key exactly when they are of one table and agree in priority and matches. */
  lemma KeysDiffer(a: TableEntry, b: TableEntry)
    ensures KeyOf(a) == KeyOf(b) <==> a.tableId == b.tableId && a.priority == b.priority && a.matches == b.matches
  {
  }
}
