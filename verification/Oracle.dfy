/**
  The response oracle as it runs (p4_fuzzer/oracle_util.cc): over a SwitchState object, with the
  loops, the state copies and the in-place permutation of each group.
 */
module Oracle {
  import opened Common
  import opened P4Entries
  import opened StateModel
  import opened Statistics
  import opened StateComparison
  import opened SwitchStates
  import opened OracleModel
  import opened OracleCounting
  import opened PermutationSearch
  import opened ExhaustionCheck
  import opened AnswerCounts

  /** The answer is a correct way to respond to the update when the switch is in the given state. */
  predicate UpdateOracle(x: Answered, state: SwitchState)
    requires Supported(state.info, x)
    requires state.unorderedTables.Keys == state.currentStats.Keys == state.info.tables.Keys
    reads state
    ensures state.Valid() ==> (UpdateOracle(x, state) <==> Accepts(state.info, state.Contents(), x))
  {
    if !IsWellformed(state.info, x) then x.status == InvalidArgument
    else
      var exists' := state.GetTableEntry(x.entry).Some?;
      match x.kind
      case Delete => x.status == if exists' then Ok else NotFound
      case Insert =>
        if exists' then x.status == AlreadyExists
        else if x.status == ResourceExhausted then
          assert state.Valid() ==>
              Booked(state.info, state.Ledger(), state.Contents(), state.history, PerTable(x.entry.tableId));
          state.IsTableFull(x.entry.tableId)
        else x.status == Ok
  }

  /** Judges one answer and carries out the update if it was answered Ok. */
  method JudgeAndApply(x: Answered, state: SwitchState) returns (correct: bool)
    requires state.Synced() && Supported(state.info, x)
    requires x.status == Ok ==> x.entry.tableId in state.info.tables
    modifies state
    ensures state.Synced()
    ensures old(state.Valid()) ==> (correct <==> Accepts(state.info, old(state.Contents()), x))
    ensures old(state.Valid()) && correct ==>
              state.Valid() && state.Contents() == After(state.info, old(state.Contents()), x)
  {
    correct := UpdateOracle(x, state);
    if x.status == Ok {
      if old(state.Valid()) && correct {
        AcceptedOkApplies(state.info, state.Contents(), x);
      }
      var code := state.ApplyUpdate(x.ToUpdate());
      if code != Ok {
        correct := false;
      }
    }
  }

  predicate Applicable(info: P4Info, xs: seq<Answered>)
  {
    forall x :: x in xs ==> Supported(info, x) && (x.status == Ok ==> x.entry.tableId in info.tables)
  }

  /** Judges a sequence on a copy of the state; after a wrong answer the copy may be meaningless. */
  method SequenceOfUpdatesOracle(updates: seq<Answered>, initial: SwitchState) returns (legal: bool)
    requires initial.Valid() && Applicable(initial.info, updates)
    ensures legal <==> LegalRun(initial.info, initial.Contents(), updates)
  {
    var state := new SwitchState.Copy(initial);
    var info := initial.info;
    legal := true;
    for i := 0 to |updates|
      invariant fresh(state) && state.info == info && state.Synced()
      invariant legal ==> state.Valid()
      invariant legal ==> (LegalRun(info, initial.Contents(), updates)
                           <==> LegalRun(info, state.Contents(), updates[i..]))
      invariant !legal ==> !LegalRun(info, initial.Contents(), updates)
    {
      LegalStep(info, state.Contents(), updates, i);
      var correct := JudgeAndApply(updates[i], state);
      legal := legal && correct;
    }
  }

  lemma LegalStep(info: P4Info, s: State, updates: seq<Answered>, i: nat)
    requires i < |updates|
    ensures LegalRun(info, s, updates[i..])
       <==> Accepts(info, s, updates[i]) && LegalRun(info, After(info, s, updates[i]), updates[i + 1..])
  {
  }

  /** A single update is judged directly, without copying the state. */
  method JudgeOrdering(updates: seq<Answered>, state: SwitchState) returns (legal: bool)
    requires state.Valid() && updates != [] && Applicable(state.info, updates)
    ensures legal <==> LegalRun(state.info, state.Contents(), updates)
  {
    if |updates| == 1 {
      LegalStep(state.info, state.Contents(), updates, 0);
      assert updates[0..] == updates && updates[1..] == [];
      legal := UpdateOracle(updates[0], state);
    } else {
      legal := SequenceOfUpdatesOracle(updates, state);
    }
  }

  /** No ordering before the current one is legal. */
  ghost predicate RejectedBefore(info: P4Info, s: State, group: seq<Answered>, current: Ordering)
  {
    forall r :: Permutation(r, group) && !(r == current || Less(current, r)) ==> !LegalRun(info, s, r)
  }

  lemma NothingBeforeFirst(info: P4Info, s: State, group: seq<Answered>)
    requires Ascending(group)
    ensures RejectedBefore(info, s, group, group)
  {
    forall r: Ordering | Permutation(r, group) ensures r == group || Less(group, r) {
      AscendingIsFirst(group, r);
    }
  }

  lemma RejectAndAdvance(info: P4Info, s: State, group: seq<Answered>, current: Ordering, next: Ordering)
    requires RejectedBefore(info, s, group, current) && !LegalRun(info, s, current)
    requires Permutation(current, group) && Successor(current, next)
    ensures RejectedBefore(info, s, group, next)
  {
  }

  lemma NothingLeftToTry(info: P4Info, s: State, group: seq<Answered>, last: Ordering)
    requires RejectedBefore(info, s, group, last) && !LegalRun(info, s, last)
    requires Permutation(last, group) && forall r :: Permutation(r, last) ==> !Less(last, r)
    ensures !Explainable(info, s, group)
  {
  }

  /** Tries the orderings of a group from the first on, until one is legal or none is left. */
  method FindLegalPermutation(group: seq<Answered>, state: SwitchState) returns (found: bool)
    requires state.Valid() && group != [] && Ascending(group) && Applicable(state.info, group)
    ensures found <==> Explainable(state.info, state.Contents(), group)
  {
    var updates := group;
    ghost var base := group[|group| - 1].index + 1;
    ghost var s := state.Contents();
    RankBound(group, base);
    NothingBeforeFirst(state.info, s, group);
    while true
      invariant Permutation(updates, group) && DistinctIndices(updates) && |updates| == |group|
      invariant RejectedBefore(state.info, s, group, updates)
      invariant Rank(updates, base) < Pow(base, |group|)
      decreases Pow(base, |group|) - Rank(updates, base)
    {
      DistinctAfterPermuting(group, updates);
      var legal := JudgeOrdering(updates, state);
      if legal {
        return true;
      }
      var more, next := NextPermutation(updates);
      if !more {
        NothingLeftToTry(state.info, s, group, updates);
        return false;
      }
      DistinctAfterPermuting(group, next);
      LessRanks(updates, next, base);
      RankBound(next, base);
      RejectAndAdvance(state.info, s, group, updates, next);
      updates := next;
    }
  }

  datatype Problem = IllegalGroup(key: TableEntryKey) | SpuriousExhaustion(index: nat)

  /** A request the oracle handles: table entries only, one answer per update. */
  predicate Answerable(request: seq<Update>, statuses: seq<StatusCode>)
  {
    |request| == |statuses| && forall u :: u in request ==> u.entity.TableEntity?
  }

  /** The updates of a batch with their positions and answers. */
  function Matched(request: seq<Update>, statuses: seq<StatusCode>): (updates: seq<Answered>)
    requires Answerable(request, statuses)
    ensures |updates| == |request| && Ascending(updates)
  {
    seq(|request|, i requires 0 <= i < |request| =>
      assert request[i] in request; Answered(i, request[i].kind, request[i].entity.entry, statuses[i]))
  }

  /** Groups by flow key, leaving out answers of RESOURCE_EXHAUSTED. */
  method GroupByKey(updates: seq<Answered>) returns (groups: map<TableEntryKey, seq<Answered>>)
    ensures forall k :: k in groups <==> Group(NotExhausted(updates), k) != []
    ensures forall k :: k in groups ==> groups[k] == Group(NotExhausted(updates), k)
  {
    groups := map[];
    for i := 0 to |updates|
      invariant forall k :: k in groups <==> Group(NotExhausted(updates[..i]), k) != []
      invariant forall k :: k in groups ==> groups[k] == Group(NotExhausted(updates[..i]), k)
    {
      var x := updates[i];
      GroupSnoc(updates, i);
      if x.status != ResourceExhausted {
        var own := if KeyFor(x) in groups then groups[KeyFor(x)] else [];
        groups := groups[KeyFor(x) := own + [x]];
      }
    }
    assert updates[..|updates|] == updates;
  }

  lemma GroupSnoc(updates: seq<Answered>, i: nat)
    requires i < |updates|
    ensures forall k :: Group(NotExhausted(updates[..i + 1]), k)
                        == Group(NotExhausted(updates[..i]), k)
                           + (if updates[i].status != ResourceExhausted && KeyFor(updates[i]) == k
                              then [updates[i]] else [])
  {
    assert updates[..i + 1] == updates[..i] + [updates[i]];
    FilterConcat((x: Answered) => x.status != ResourceExhausted, updates[..i], [updates[i]]);
    var last := if updates[i].status != ResourceExhausted then [updates[i]] else [];
    assert NotExhausted(updates[..i + 1]) == NotExhausted(updates[..i]) + last;
    forall k
      ensures Group(NotExhausted(updates[..i + 1]), k)
              == Group(NotExhausted(updates[..i]), k)
                 + (if updates[i].status != ResourceExhausted && KeyFor(updates[i]) == k then [updates[i]] else [])
    {
      FilterConcat(x => KeyFor(x) == k, NotExhausted(updates[..i]), last);
    }
  }

  /** Filtering keeps ascending order, so every group starts at its first ordering. */
  lemma {:induction false} FilterAscends(f: Answered -> bool, xs: seq<Answered>)
    requires Ascending(xs)
    ensures Ascending(Filter(f, xs))
  {
    if xs != [] {
      var rest := Filter(f, xs[1..]);
      FilterAscends(f, xs[1..]);
      FilterMembers(f, xs[1..]);
      forall i | 0 <= i < |rest| ensures xs[0].index < rest[i].index {
        assert rest[i] in xs[1..];
      }
    }
  }

  /** Counts the successful INSERTs per table. */
  method CountInserts(updates: seq<Answered>) returns (counts: map<int, nat>)
    ensures forall t :: (if t in counts then counts[t] else 0) == SuccessfulInserts(updates, t)
  {
    counts := map[];
    for i := 0 to |updates|
      invariant forall t :: (if t in counts then counts[t] else 0) == SuccessfulInserts(updates[..i], t)
    {
      var x := updates[i];
      InsertsSnoc(updates, i);
      if x.status == Ok && x.kind.Insert? {
        var n := if x.entry.tableId in counts then counts[x.entry.tableId] else 0;
        counts := counts[x.entry.tableId := n + 1];
      }
    }
    assert updates[..|updates|] == updates;
  }

  lemma InsertsSnoc(updates: seq<Answered>, i: nat)
    requires i < |updates|
    ensures forall t :: SuccessfulInserts(updates[..i + 1], t)
                        == SuccessfulInserts(updates[..i], t)
                           + (if updates[i].status == Ok && updates[i].kind.Insert? && updates[i].entry.tableId == t
                              then 1 else 0)
  {
    assert updates[..i + 1] == updates[..i] + [updates[i]];
    forall t
      ensures SuccessfulInserts(updates[..i + 1], t)
              == SuccessfulInserts(updates[..i], t)
                 + (if updates[i].status == Ok && updates[i].kind.Insert? && updates[i].entry.tableId == t
                    then 1 else 0)
    {
      FilterConcat((x: Answered) => x.status == Ok && x.kind.Insert? && x.entry.tableId == t, updates[..i],
                   [updates[i]]);
    }
  }

  /**
    The problems found with the answers to a batch. The batch is accepted when there are none;
    each problem names a key whose answers no order explains, or a rejection that is not excused.
   */
  method WriteRequestOracle(request: seq<Update>, statuses: seq<StatusCode>, state: SwitchState)
    returns (problems: seq<Problem>)
    requires state.Valid() && Answerable(request, statuses)
    requires forall x :: x in Matched(request, statuses) ==> Supported(state.info, x)
    requires KnownTables(state.info, Matched(request, statuses))
    ensures problems == [] <==> BatchAccepted(state.info, state.Contents(), Matched(request, statuses))
    ensures forall k :: IllegalGroup(k) in problems
                   <==> !Explainable(state.info, state.Contents(), Group(NotExhausted(Matched(request, statuses)), k))
    ensures forall i :: SpuriousExhaustion(i) in problems
                   <==> exists x :: x in Matched(request, statuses) && x.index == i && x.status == ResourceExhausted
                                    && !Excused(state.info, state.Contents(), Matched(request, statuses), x)
    ensures KeysReported(request, statuses, state.info, state.Contents(), problems)
    ensures PositionsReported(request, statuses, state.info, state.Contents(), problems)
  {
    var updates: seq<Answered> := [];
    for i := 0 to |request|
      invariant |updates| == i
      invariant updates == Matched(request, statuses)[..i]
    {
      assert request[i] in request;
      updates := updates + [Answered(i, request[i].kind, request[i].entity.entry, statuses[i])];
    }
    assert updates == Matched(request, statuses);
    var groups := GroupByKey(updates);
    var illegal := CheckGroups(updates, groups, state);
    var spurious := CheckExhaustion(updates, state);
    problems := illegal + spurious;
    NoProblems(state.info, state.Contents(), updates, illegal, spurious);
    ReportedKeys(request, statuses, state.info, state.Contents(), problems);
    ReportedPositions(request, statuses, state.info, state.Contents(), problems);
  }

  /** The positions of the successful INSERTs into a table. */
  function InsertedInto(request: seq<Update>, statuses: seq<StatusCode>, t: int): set<nat>
    requires Answerable(request, statuses)
  {
    set j | 0 <= j < |request| && statuses[j] == Ok && request[j].kind.Insert? && request[j].entity.entry.tableId == t
  }

  /** The keys whose answers do not add up, among them every wrong or missing invalid argument. */
  ghost predicate KeysReported(request: seq<Update>, statuses: seq<StatusCode>, info: P4Info, s: State,
                               problems: seq<Problem>)
    requires Answerable(request, statuses)
  {
    && (Askable(info, Matched(request, statuses)) ==>
          forall k :: IllegalGroup(k) in problems <==> !AnswersAddUp(info, s, Matched(request, statuses), k))
    && (forall i :: 0 <= i < |request| && statuses[i] != ResourceExhausted
                    && (CanonicalizeTableEntry(info, request[i].entity.entry, false) == None)
                       != (statuses[i] == InvalidArgument)
                    ==> IllegalGroup(KeyOf(request[i].entity.entry)) in problems)
  }

  /** The rejections into tables that have room for all successful INSERTs and one more entry. */
  ghost predicate PositionsReported(request: seq<Update>, statuses: seq<StatusCode>, info: P4Info, s: State,
                                    problems: seq<Problem>)
    requires Answerable(request, statuses)
  {
    forall i :: 0 <= i < |request| ==>
      (SpuriousExhaustion(i) in problems
       <==> statuses[i] == ResourceExhausted
            && var t := request[i].entity.entry.tableId;
               t in info.tables && |TableOf(s, t)| + |InsertedInto(request, statuses, t)| < info.tables[t].size)
  }

  lemma ReportedKeys(request: seq<Update>, statuses: seq<StatusCode>, info: P4Info, s: State, problems: seq<Problem>)
    requires Answerable(request, statuses)
    requires forall k :: IllegalGroup(k) in problems
                    <==> !Explainable(info, s, Group(NotExhausted(Matched(request, statuses)), k))
    ensures KeysReported(request, statuses, info, s, problems)
  {
    var xs := Matched(request, statuses);
    if Askable(info, xs) {
      forall k ensures IllegalGroup(k) in problems <==> !AnswersAddUp(info, s, xs, k) {
        KeyExplainedIff(info, s, xs, k);
      }
    }
    forall i | 0 <= i < |request| && statuses[i] != ResourceExhausted
               && (CanonicalizeTableEntry(info, request[i].entity.entry, false) == None)
                  != (statuses[i] == InvalidArgument)
      ensures IllegalGroup(KeyOf(request[i].entity.entry)) in problems
    {
      assert xs[i] in xs;
      ValidityUnexplained(info, s, xs, xs[i]);
    }
  }

  lemma ReportedPositions(request: seq<Update>, statuses: seq<StatusCode>, info: P4Info, s: State,
                          problems: seq<Problem>)
    requires Answerable(request, statuses) && KnownTables(info, Matched(request, statuses)) && WellFormed(info, s)
    requires forall i :: SpuriousExhaustion(i) in problems
                    <==> exists x :: x in Matched(request, statuses) && x.index == i && x.status == ResourceExhausted
                                     && !Excused(info, s, Matched(request, statuses), x)
    ensures PositionsReported(request, statuses, info, s, problems)
  {
    var xs := Matched(request, statuses);
    forall i | 0 <= i < |request|
      ensures SpuriousExhaustion(i) in problems
         <==> statuses[i] == ResourceExhausted
              && var t := request[i].entity.entry.tableId;
                 t in info.tables && |TableOf(s, t)| + |InsertedInto(request, statuses, t)| < info.tables[t].size
    {
      assert xs[i] in xs;
      if statuses[i] == ResourceExhausted {
        UnexcusedIff(info, s, xs, i);
        var t := request[i].entity.entry.tableId;
        assert InsertedInto(request, statuses, t)
            == set j | 0 <= j < |xs| && xs[j].status == Ok && xs[j].kind.Insert? && xs[j].entry.tableId == t;
      }
      forall x | x in xs && x.index == i ensures x == xs[i] {
        var j :| 0 <= j < |xs| && xs[j] == x;
      }
    }
  }

  lemma NoProblems(info: P4Info, s: State, updates: seq<Answered>, illegal: seq<Problem>, spurious: seq<Problem>)
    requires KnownTables(info, updates)
    requires forall p :: p in illegal ==> p.IllegalGroup?
    requires forall p :: p in spurious ==> p.SpuriousExhaustion?
    requires forall k :: IllegalGroup(k) in illegal <==> !Explainable(info, s, Group(NotExhausted(updates), k))
    requires forall i :: SpuriousExhaustion(i) in spurious
                    <==> exists x :: x in updates && x.index == i && x.status == ResourceExhausted
                                     && !Excused(info, s, updates, x)
    ensures illegal + spurious == [] <==> BatchAccepted(info, s, updates)
  {
    if illegal != [] {
      assert illegal[0] in illegal && illegal[0] == IllegalGroup(illegal[0].key);
    }
    if spurious != [] {
      assert spurious[0] in spurious && spurious[0] == SpuriousExhaustion(spurious[0].index);
    }
    if illegal == spurious == [] {
      forall k ensures Explainable(info, s, Group(NotExhausted(updates), k)) {
        assert IllegalGroup(k) !in illegal;
      }
      forall x | x in updates && x.status == ResourceExhausted ensures Excused(info, s, updates, x) {
        assert SpuriousExhaustion(x.index) !in spurious;
      }
    }
  }

  method CheckGroups(updates: seq<Answered>, groups: map<TableEntryKey, seq<Answered>>, state: SwitchState)
    returns (problems: seq<Problem>)
    requires state.Valid() && Ascending(updates)
    requires forall x :: x in updates ==> Supported(state.info, x)
    requires KnownTables(state.info, updates)
    requires forall k :: k in groups <==> Group(NotExhausted(updates), k) != []
    requires forall k :: k in groups ==> groups[k] == Group(NotExhausted(updates), k)
    ensures forall p :: p in problems ==> p.IllegalGroup?
    ensures forall k :: IllegalGroup(k) in problems
                   <==> !Explainable(state.info, state.Contents(), Group(NotExhausted(updates), k))
  {
    problems := [];
    var keys := groups.Keys;
    ghost var s := state.Contents();
    while keys != {}
      invariant keys <= groups.Keys
      invariant forall p :: p in problems ==> p.IllegalGroup?
      invariant forall k :: IllegalGroup(k) in problems
                  <==> k in groups && k !in keys && !Explainable(state.info, s, groups[k])
      decreases keys
    {
      var k := PickElement(keys);
      GroupIsSearchable(updates, k);
      var legal := FindLegalPermutation(groups[k], state);
      if !legal {
        problems := problems + [IllegalGroup(k)];
      }
      keys := keys - {k};
    }
    forall k | Group(NotExhausted(updates), k) == []
      ensures Explainable(state.info, s, Group(NotExhausted(updates), k))
    {
      assert Permutation([], Group(NotExhausted(updates), k)) && LegalRun(state.info, s, []);
    }
  }

  lemma GroupIsSearchable(updates: seq<Answered>, k: TableEntryKey)
    requires Ascending(updates)
    ensures Ascending(Group(NotExhausted(updates), k))
    ensures forall x :: x in Group(NotExhausted(updates), k) ==> x in updates
  {
    FilterAscends((x: Answered) => x.status != ResourceExhausted, updates);
    FilterAscends(x => KeyFor(x) == k, NotExhausted(updates));
    FilterMembers((x: Answered) => x.status != ResourceExhausted, updates);
    FilterMembers(x => KeyFor(x) == k, NotExhausted(updates));
  }

  method CheckExhaustion(updates: seq<Answered>, state: SwitchState) returns (problems: seq<Problem>)
    requires state.Valid() && KnownTables(state.info, updates)
    ensures forall p :: p in problems ==> p.SpuriousExhaustion?
    ensures forall i :: SpuriousExhaustion(i) in problems
                   <==> exists x :: x in updates && x.index == i && x.status == ResourceExhausted
                                    && !Excused(state.info, state.Contents(), updates, x)
  {
    problems := [];
    ghost var s := state.Contents();
    var counts := CountInserts(updates);
    for n := 0 to |updates|
      invariant forall p :: p in problems ==> p.SpuriousExhaustion?
      invariant forall i :: SpuriousExhaustion(i) in problems
                       <==> exists x :: x in updates[..n] && x.index == i && x.status == ResourceExhausted
                                        && x.entry.tableId in state.info.tables
                                        && !Excused(state.info, s, updates, x)
    {
      var x := updates[n];
      assert updates[..n + 1] == updates[..n] + [x];
      assert x in updates && x in updates[..n + 1];
      if x.status == ResourceExhausted {
        var t := x.entry.tableId;
        var numInserts := if t in counts then counts[t] else 0;
        assert Booked(state.info, state.Ledger(), s, state.history, PerTable(t));
        if state.CanAccommodateInserts(t, numInserts + 1) {
          problems := problems + [SpuriousExhaustion(x.index)];
        }
      }
    }
    assert updates[..|updates|] == updates;
  }
}
