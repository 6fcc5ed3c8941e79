/**
  What the oracle's verdict says about a batch as the caller sees it: the entries, the kinds and the
  status codes at each position, and the keys that are stored.
 */
module AnswerCounts {
  import opened Common
  import opened P4Entries
  import opened StateModel
  import opened StateComparison
  import opened OracleModel
  import opened OracleCounting
  import opened ExhaustionCheck

  predicate Translates(info: P4Info, x: Answered)
  {
    CanonicalizeTableEntry(info, x.entry, false).Some?
  }

  /** What the oracle is asked about: INSERT and DELETE of entries whose keys are canonical, if they translate. */
  predicate Askable(info: P4Info, xs: seq<Answered>)
  {
    forall x :: x in xs && Translates(info, x) ==>
      (x.kind.Insert? || x.kind.Delete?)
      && KeyOf(CanonicalizeTableEntry(info, x.entry, false).value) == KeyOf(x.entry)
  }

  /** The positions of answers to updates of one key. */
  function At(xs: seq<Answered>, k: TableEntryKey, kind: UpdateType, status: StatusCode): set<nat>
  {
    set i | 0 <= i < |xs| && KeyOf(xs[i].entry) == k && xs[i].kind == kind && xs[i].status == status
  }

  /** An entry that does not translate, and only such an entry, is an invalid argument. */
  predicate Suits(info: P4Info, x: Answered)
  {
    if CanonicalizeTableEntry(info, x.entry, false) == None then x.status == InvalidArgument
    else if x.kind.Insert? then x.status == Ok || x.status == AlreadyExists
    else x.status == Ok || x.status == NotFound
  }

  /**
    The answers to the updates of one key add up: untranslatable entries, and only those, are invalid
    arguments; every other answer suits its kind; inserted and deleted alternate; and an answer that
    the key exists, or that it does not, has a moment at which it is right.
   */
  predicate AnswersAddUp(info: P4Info, s: State, xs: seq<Answered>, k: TableEntryKey)
  {
    var stored := if k.tableId in s.tables && k in s.tables[k.tableId] then 1 else 0;
    var inserts, deletes := |At(xs, k, Insert, Ok)|, |At(xs, k, Delete, Ok)|;
    && (forall x :: x in xs && KeyOf(x.entry) == k && x.status != ResourceExhausted ==> Suits(info, x))
    && 0 <= stored + inserts - deletes <= 1
    && (At(xs, k, Insert, AlreadyExists) != {} ==> stored + inserts > 0)
    && (At(xs, k, Delete, NotFound) != {} ==> stored == 0 || deletes > 0)
  }

  /** Exactly when the answers to one key's updates are explained by some order of execution. */
  lemma KeyExplainedIff(info: P4Info, s: State, xs: seq<Answered>, k: TableEntryKey)
    requires Askable(info, xs)
    ensures Explainable(info, s, Group(NotExhausted(xs), k)) <==> AnswersAddUp(info, s, xs, k)
  {
    var g := Group(NotExhausted(xs), k);
    ServedMembers(xs, k);
    forall x | x in g ensures Admissible(info, x) {
      if Translates(info, x) {
        CanonicalKeyCommutes(info, x.entry, false);
      }
    }
    CountingDecides(info, s, g, k);
    NoneImpossible(info, xs, k);
    if Count(info, Impossible, g) == 0 {
      TestAddsUp(info, s, xs, k);
    }
  }

  lemma TestAddsUp(info: P4Info, s: State, xs: seq<Answered>, k: TableEntryKey)
    requires Askable(info, xs) && Count(info, Impossible, Group(NotExhausted(xs), k)) == 0
    ensures CountTest(info, Present(s, k), Group(NotExhausted(xs), k)) <==> AnswersAddUp(info, s, xs, k)
  {
    NoneImpossible(info, xs, k);
    AnsweredAt(info, xs, k, Insert, Ok);
    AnsweredAt(info, xs, k, Delete, Ok);
    AnsweredAt(info, xs, k, Insert, AlreadyExists);
    AnsweredAt(info, xs, k, Delete, NotFound);
  }

  lemma ServedMembers(xs: seq<Answered>, k: TableEntryKey)
    ensures forall x :: x in Group(NotExhausted(xs), k)
                   <==> x in xs && KeyOf(x.entry) == k && x.status != ResourceExhausted
  {
    FilterMembers((x: Answered) => x.status != ResourceExhausted, xs);
    FilterMembers(x => KeyFor(x) == k, NotExhausted(xs));
  }

  lemma NoneImpossible(info: P4Info, xs: seq<Answered>, k: TableEntryKey)
    requires Askable(info, xs)
    ensures Count(info, Impossible, Group(NotExhausted(xs), k)) == 0
       <==> forall x :: x in xs && KeyOf(x.entry) == k && x.status != ResourceExhausted ==> Suits(info, x)
  {
    var g := Group(NotExhausted(xs), k);
    ServedMembers(xs, k);
    FilterMembers(x => AnswerOf(info, x) == Impossible, g);
    forall x | x in g ensures AnswerOf(info, x) == Impossible <==> !Suits(info, x) {
      assert Translates(info, x) ==> x.kind.Insert? || x.kind.Delete?;
    }
    if Count(info, Impossible, g) > 0 {
      assert Select(info, Impossible, g)[0] in Select(info, Impossible, g);
    }
  }

  /** The answer that a kind and a status stand for, unless it is impossible. */
  function AnswerFor(kind: UpdateType, status: StatusCode): Answer
  {
    match (kind, status)
    case (Insert, Ok) => Inserted
    case (Insert, AlreadyExists) => AlreadyThere
    case (Delete, Ok) => Deleted
    case (Delete, NotFound) => NotThere
    case _ => Impossible
  }

  lemma AnsweredAt(info: P4Info, xs: seq<Answered>, k: TableEntryKey, kind: UpdateType, status: StatusCode)
    requires Askable(info, xs) && Count(info, Impossible, Group(NotExhausted(xs), k)) == 0
    requires !AnswerFor(kind, status).Impossible?
    ensures Count(info, AnswerFor(kind, status), Group(NotExhausted(xs), k)) == |At(xs, k, kind, status)|
  {
    var a := AnswerFor(kind, status);
    var chosen := (x: Answered) => KeyOf(x.entry) == k && x.status != ResourceExhausted && AnswerOf(info, x) == a;
    FilterBoth(x => KeyFor(x) == k, (x: Answered) => x.status != ResourceExhausted,
               (x: Answered) => KeyOf(x.entry) == k && x.status != ResourceExhausted, xs);
    FilterBoth(x => AnswerOf(info, x) == a, (x: Answered) => KeyOf(x.entry) == k && x.status != ResourceExhausted,
               chosen, xs);
    FilterCount(chosen, xs);
    NoneImpossible(info, xs, k);
    forall i | 0 <= i < |xs|
      ensures chosen(xs[i]) <==> KeyOf(xs[i].entry) == k && xs[i].kind == kind && xs[i].status == status
    {
      assert xs[i] in xs;
    }
    assert At(xs, k, kind, status) == Positions(chosen, xs);
  }

  /** The answers that are right for a single update, and no others. */
  lemma SingleAnswer(info: P4Info, s: State, x: Answered)
    requires Askable(info, [x]) && x.status != ResourceExhausted
    ensures Explainable(info, s, [x])
       <==> var stored := x.entry.tableId in s.tables && KeyOf(x.entry) in s.tables[x.entry.tableId];
            if CanonicalizeTableEntry(info, x.entry, false) == None then x.status == InvalidArgument
            else if x.kind.Delete? then x.status == (if stored then Ok else NotFound)
            else x.status == (if stored then AlreadyExists else Ok)
  {
    assert x in [x];
    FilterAll((y: Answered) => y.status != ResourceExhausted, [x]);
    FilterAll(y => KeyFor(y) == KeyFor(x), [x]);
    KeyExplainedIff(info, s, [x], KeyFor(x));
    forall kind, status
      ensures At([x], KeyFor(x), kind, status) == if x.kind == kind && x.status == status then {0} else {}
    {
    }
  }

  /** No order explains an invalid argument for an entry that translates, or another answer for one that does not. */
  lemma ValidityUnexplained(info: P4Info, s: State, xs: seq<Answered>, x: Answered)
    requires x in xs && x.status != ResourceExhausted
    requires (CanonicalizeTableEntry(info, x.entry, false) == None) != (x.status == InvalidArgument)
    ensures !Explainable(info, s, Group(NotExhausted(xs), KeyOf(x.entry)))
  {
    var g := Group(NotExhausted(xs), KeyOf(x.entry));
    ServedMembers(xs, KeyOf(x.entry));
    if r :| Permutation(r, g) && LegalRun(info, s, r) {
      PermutationMembers(r, g);
      NeverRight(info, s, r, x);
    }
  }

  lemma {:induction false} NeverRight(info: P4Info, s: State, r: seq<Answered>, x: Answered)
    requires x in r && x.status != ResourceExhausted
    requires (CanonicalizeTableEntry(info, x.entry, false) == None) != (x.status == InvalidArgument)
    ensures !LegalRun(info, s, r)
    decreases |r|
  {
    if r[0] != x {
      NeverRight(info, After(info, s, r[0]), r[1..], x);
    }
  }

  /** RESOURCE_EXHAUSTED alone is right for an INSERT of an absent key into a full table, and for nothing else. */
  lemma SingleRejection(info: P4Info, s: State, x: Answered)
    requires Askable(info, [x]) && x.status == ResourceExhausted
    ensures Explainable(info, s, [x])
       <==> CanonicalizeTableEntry(info, x.entry, false).Some? && x.kind.Insert?
            && !(x.entry.tableId in s.tables && KeyOf(x.entry) in s.tables[x.entry.tableId])
            && |TableOf(s, x.entry.tableId)| >= info.tables[x.entry.tableId].size
  {
    assert x in [x] && [x][1..] == [];
    if Translates(info, x) {
      CanonicalKeyCommutes(info, x.entry, false);
    }
    if Accepts(info, s, x) {
      assert LegalRun(info, s, [x]) && Permutation([x], [x]);
    }
    if r :| Permutation(r, [x]) && LegalRun(info, s, r) {
      PermutationMembers(r, [x]);
      assert r[0] in r;
    }
  }

  /** The rejection at position i comes while there was room, whatever the order of the successful INSERTs. */
  lemma UnexcusedIff(info: P4Info, s: State, xs: seq<Answered>, i: nat)
    requires i < |xs| && xs[i].entry.tableId in info.tables && xs[i].entry.tableId in s.tables
    ensures !Excused(info, s, xs, xs[i])
       <==> |s.tables[xs[i].entry.tableId]|
            + |set j | 0 <= j < |xs| && xs[j].status == Ok && xs[j].kind.Insert?
                       && xs[j].entry.tableId == xs[i].entry.tableId|
            < info.tables[xs[i].entry.tableId].size
  {
    var inserted := (x: Answered) => x.status == Ok && x.kind.Insert? && x.entry.tableId == xs[i].entry.tableId;
    FilterCount(inserted, xs);
    assert Positions(inserted, xs)
        == set j | 0 <= j < |xs| && xs[j].status == Ok && xs[j].kind.Insert?
                   && xs[j].entry.tableId == xs[i].entry.tableId;
  }
}
