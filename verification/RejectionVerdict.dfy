/**
  What the response oracle's verdict on rejections is worth (p4_fuzzer/oracle_util.cc): exactly when
  an accepted batch with answers of RESOURCE_EXHAUSTED is explained by some order of execution.
 */
module RejectionVerdict {
  import opened Common
  import opened P4Entries
  import opened StateModel
  import opened StateComparison
  import opened OracleModel
  import opened OracleCounting
  import opened ExhaustionCheck
  import opened RejectionCounting
  import opened RejectionPlanning

  /**
    Exactly when an accepted batch has an explanation: counting again replaces the search, now for
    any number of rejections, and whatever else happens to their keys and tables.
   */
  lemma AcceptedBatchExplainedIffFits(info: P4Info, s: State, xs: seq<Answered>)
    requires WellFormed(info, s) && KnownTables(info, xs)
    requires forall x :: x in xs ==> Admissible(info, x)
    ensures Explainable(info, s, xs) <==> BatchAccepted(info, s, xs) && RejectionsFit(info, s, xs)
  {
    if Explainable(info, s, xs) {
      ExplainedBatchAccepted(info, s, xs);
      ExplainedBatchFits(info, s, xs);
    }
    if BatchAccepted(info, s, xs) && RejectionsFit(info, s, xs) {
      FittingBatchExplained(info, s, xs);
    }
  }

  // ----- a single rejection -----

  /** With one rejection: its key is away at some time while the other keys ever present fill the table. */
  lemma OneRejection(info: P4Info, s: State, xs: seq<Answered>, x: Answered)
    requires WellFormed(info, s) && KnownTables(info, xs) && BatchAccepted(info, s, xs)
    requires forall y :: y in xs ==> Admissible(info, y)
    requires x in xs && x.status == ResourceExhausted
    requires forall y :: y in xs && y.status == ResourceExhausted ==> y == x
    ensures Explainable(info, s, xs)
       <==> IsWellformed(info, x) && x.kind.Insert?
            && SometimesAbsent(s, xs, KeyFor(x))
            && |EverPresent(s, xs, x.entry.tableId) - {KeyFor(x)}| >= info.tables[x.entry.tableId].size
  {
    AcceptedBatchExplainedIffFits(info, s, xs);
    OneRejectedKey(info, s, xs, x);
  }

  lemma OneRejectedKey(info: P4Info, s: State, xs: seq<Answered>, x: Answered)
    requires WellFormed(info, s) && x in xs && x.status == ResourceExhausted && x.entry.tableId in info.tables
    requires forall y :: y in xs && y.status == ResourceExhausted ==> y == x
    ensures TableFits(info, s, xs, x.entry.tableId)
       <==> |EverPresent(s, xs, x.entry.tableId) - {KeyFor(x)}| >= info.tables[x.entry.tableId].size
  {
    var t, k := x.entry.tableId, KeyFor(x);
    var ever, single := EverPresent(s, xs, t), SingleEpisode(s, xs, t);
    KeysOfMember(xs, x);
    forall k' | k' in RejectedKeys(xs, t) ensures k' == k {
      var y := RejectionOf(xs, t, k');
    }
    assert RejectedKeys(xs, t) == {k};
    SingleEverPresent(info, s, xs, t, single);
    AtMostOne(ever, k, single);
    SubsetSizes(Arriving(s, xs, t), single);
    SubsetSizes(Leaving(s, xs, t), single);
  }

  lemma AtMostOne<T>(all: set<T>, x: T, part: set<T>)
    requires part <= {x} * all
    ensures |all - {x}| == |all| - (if x in all then 1 else 0)
    ensures |part| <= 1 && (x !in all ==> part == {})
    ensures {x} * all == if x in all then {x} else {}
  {
    SubsetSizes(part, {x});
    if x in all {
      assert all == (all - {x}) + {x};
    } else {
      assert all - {x} == all;
    }
  }

  // ----- tables that nothing leaves -----

  /** Nothing is successfully deleted from table t. */
  predicate OnlyGrows(xs: seq<Answered>, t: int)
  {
    forall y :: y in xs && y.status == Ok && y.entry.tableId == t ==> !y.kind.Delete?
  }

  /** Keys of table t that are both rejected and successfully inserted. */
  function RejectedAndInserted(xs: seq<Answered>, t: int): set<TableEntryKey>
  {
    set k | k in RejectedKeys(xs, t) && Starts(Group(xs, k)) > 0
  }

  lemma NoStops(xs: seq<Answered>, k: TableEntryKey)
    requires OnlyGrows(xs, k.tableId)
    ensures Stops(Group(xs, k)) == 0
  {
    GroupMembers(xs, k);
    FilterAll((x: Answered) => x.status == Ok && x.kind.Delete?, Group(xs, k));
  }

  /** In a legal order that nothing leaves, the final entries are the keys that are ever present. */
  lemma FinalKeys(info: P4Info, s: State, xs: seq<Answered>, r: seq<Answered>, t: int)
    requires WellFormed(info, s) && OnlyGrows(xs, t)
    requires forall y :: y in xs ==> Admissible(info, y)
    requires Permutation(r, NotExhausted(xs)) && LegalRun(info, s, r)
    ensures |EverPresent(s, xs, t)| == |TableOf(AfterAll(info, s, r), t)|
  {
    var end := AfterAll(info, s, r);
    PermutationMembers(r, NotExhausted(xs));
    FilterMembers((x: Answered) => x.status != ResourceExhausted, xs);
    LegalKinds(info, s, r);
    WellFormedAfter(info, s, r);
    var keys, ever := TableOf(end, t).Keys, EverPresent(s, xs, t);
    forall k: TableEntryKey | k.tableId == t ensures k in keys <==> k in ever {
      PresentAfterRun(info, s, r, k);
      NoStops(xs, k);
      ServedCounts(xs, k);
      GroupCounts(NotExhausted(xs), r, k);
      GroupKinds(r, k);
      PresenceNeeds(info, Present(s, k), Group(r, k));
      EverPresentMember(info, s, xs, t, k);
    }
    forall k | k in keys ensures k.tableId == t {
      assert Stored(end, t, k);
    }
    assert keys == ever;
    assert |keys| == |TableOf(end, t)|;
  }

  lemma EverPresentCount(info: P4Info, s: State, xs: seq<Answered>, t: int)
    requires WellFormed(info, s) && OnlyGrows(xs, t)
    requires forall y :: y in xs ==> Admissible(info, y)
    requires forall k :: Explainable(info, s, Group(NotExhausted(xs), k))
    ensures |EverPresent(s, xs, t)| == |TableOf(s, t)| + SuccessfulInserts(xs, t)
  {
    var served := NotExhausted(xs);
    FilterMembers((x: Answered) => x.status != ResourceExhausted, xs);
    Locality(info, s, served);
    var r :| Permutation(r, served) && LegalRun(info, s, r);
    PermutationMembers(r, served);
    FinalKeys(info, s, xs, r, t);
    OccupancyExact(info, s, r, t);
    InsertsPermute(r, served, t);
    InsertsServed(xs, t);
  }

  /** The keys whose rejection and insertion exclude each other must fit beside the full table. */
  predicate GrowingTableFits(info: P4Info, s: State, xs: seq<Answered>, t: int)
    requires t in info.tables
  {
    var both := RejectedAndInserted(xs, t);
    both == {} || |TableOf(s, t)| + SuccessfulInserts(xs, t) - |both| >= info.tables[t].size
  }

  lemma GrowingTable(info: P4Info, s: State, xs: seq<Answered>, x: Answered)
    requires WellFormed(info, s) && KnownTables(info, xs) && BatchAccepted(info, s, xs)
    requires forall y :: y in xs ==> Admissible(info, y)
    requires x in xs && x.status == ResourceExhausted && OnlyGrows(xs, x.entry.tableId)
    requires forall k :: k in RejectedKeys(xs, x.entry.tableId) ==> !Present(s, k)
    ensures TableFits(info, s, xs, x.entry.tableId) <==> GrowingTableFits(info, s, xs, x.entry.tableId)
  {
    var t := x.entry.tableId;
    var both, single := RejectedAndInserted(xs, t), SingleEpisode(s, xs, t);
    EverPresentCount(info, s, xs, t);
    assert Excused(info, s, xs, x);
    forall k | k in RejectedKeys(xs, t)
      ensures k.tableId == t && Stops(Group(xs, k)) == 0 && Starts(Group(xs, k)) <= 1
      ensures k in both <==> k in EverPresent(s, xs, t)
    {
      var y := RejectionOf(xs, t, k);
      NoStops(xs, k);
      BalanceOf(info, s, xs, k);
      EverPresentMember(info, s, xs, t, k);
    }
    assert single == both && Arriving(s, xs, t) == both && Leaving(s, xs, t) == {};
    assert RejectedKeys(xs, t) * EverPresent(s, xs, t) == both;
  }

  /**
    When nothing leaves the tables with rejections: every rejected key is absent, and the keys that
    are inserted after all leave enough others to fill the table.
   */
  lemma RejectionsIntoGrowingTables(info: P4Info, s: State, xs: seq<Answered>)
    requires WellFormed(info, s) && KnownTables(info, xs) && BatchAccepted(info, s, xs)
    requires forall y :: y in xs ==> Admissible(info, y)
    requires forall x :: x in xs && x.status == ResourceExhausted ==> OnlyGrows(xs, x.entry.tableId)
    ensures Explainable(info, s, xs)
       <==> forall x :: x in xs && x.status == ResourceExhausted ==>
              IsWellformed(info, x) && x.kind.Insert? && !Present(s, KeyFor(x))
              && GrowingTableFits(info, s, xs, x.entry.tableId)
  {
    AcceptedBatchExplainedIffFits(info, s, xs);
    forall x | x in xs && x.status == ResourceExhausted
      ensures SometimesAbsent(s, xs, KeyFor(x)) <==> !Present(s, KeyFor(x))
    {
      NoStops(xs, KeyFor(x));
    }
    if forall x :: x in xs && x.status == ResourceExhausted ==> !Present(s, KeyFor(x)) {
      forall x | x in xs && x.status == ResourceExhausted
        ensures TableFits(info, s, xs, x.entry.tableId) <==> GrowingTableFits(info, s, xs, x.entry.tableId)
      {
        RejectedAbsent(s, xs, x.entry.tableId);
        GrowingTable(info, s, xs, x);
      }
    }
  }

  lemma RejectedAbsent(s: State, xs: seq<Answered>, t: int)
    requires forall x :: x in xs && x.status == ResourceExhausted ==> !Present(s, KeyFor(x))
    ensures forall k :: k in RejectedKeys(xs, t) ==> !Present(s, k)
  {
    forall k | k in RejectedKeys(xs, t) ensures !Present(s, k) {
      var x := RejectionOf(xs, t, k);
    }
  }

  /** A rejection of an INSERT whose key nothing else in the batch changes, into a table nothing leaves. */
  predicate Isolated(info: P4Info, s: State, xs: seq<Answered>, x: Answered)
  {
    IsWellformed(info, x) && x.kind.Insert? && !Present(s, KeyFor(x))
    && forall y :: y in xs && y.status == Ok ==>
         KeyFor(y) != KeyFor(x) && !(y.kind.Delete? && y.entry.tableId == x.entry.tableId)
  }

  /** When every rejection is isolated, accepted batches are exactly the explained ones. */
  lemma VerdictExactWhenIsolated(info: P4Info, s: State, xs: seq<Answered>)
    requires WellFormed(info, s) && KnownTables(info, xs)
    requires forall x :: x in xs ==> Admissible(info, x)
    requires forall x :: x in xs && x.status == ResourceExhausted ==> Isolated(info, s, xs, x)
    ensures BatchAccepted(info, s, xs) <==> Explainable(info, s, xs)
  {
    if Explainable(info, s, xs) {
      ExplainedBatchAccepted(info, s, xs);
    }
    if BatchAccepted(info, s, xs) {
      forall x | x in xs && x.status == ResourceExhausted
        ensures RejectedAndInserted(xs, x.entry.tableId) == {}
      {
        IsolatedKeys(info, s, xs, x.entry.tableId);
      }
      RejectionsIntoGrowingTables(info, s, xs);
    }
  }

  lemma IsolatedKeys(info: P4Info, s: State, xs: seq<Answered>, t: int)
    requires forall x :: x in xs && x.status == ResourceExhausted ==> Isolated(info, s, xs, x)
    ensures RejectedAndInserted(xs, t) == {}
  {
    forall k | k in RejectedKeys(xs, t) ensures Starts(Group(xs, k)) == 0 {
      var x := RejectionOf(xs, t, k);
      GroupMembers(xs, k);
      FilterAll((y: Answered) => y.status == Ok && y.kind.Insert?, Group(xs, k));
    }
  }

  // ----- what passes without an explanation -----

  /** A single rejection on a full table is always accepted. */
  lemma LoneRejectionAccepted(info: P4Info, s: State, x: Answered)
    requires x.status == ResourceExhausted && x.entry.tableId in info.tables
    requires |TableOf(s, x.entry.tableId)| >= info.tables[x.entry.tableId].size
    ensures KnownTables(info, [x]) && BatchAccepted(info, s, [x])
  {
    FilterAll((y: Answered) => y.status != ResourceExhausted, [x]);
    assert NotExhausted([x]) == [];
    FilterAll((y: Answered) => y.status == Ok && y.kind.Insert? && y.entry.tableId == x.entry.tableId, [x]);
    assert SuccessfulInserts([x], x.entry.tableId) == 0;
    forall k ensures Explainable(info, s, Group([], k)) {
      NothingIsExplainable(info, s);
    }
  }

  /**
    RESOURCE_EXHAUSTED on a full table passes although no order explains it, for a malformed update,
    for a DELETE, and for an INSERT of a key that is present.
   */
  lemma MisplacedRejectionPasses(info: P4Info, s: State, x: Answered)
    requires WellFormed(info, s) && Admissible(info, x) && x.status == ResourceExhausted
               && x.entry.tableId in info.tables
    requires !(IsWellformed(info, x) && x.kind.Insert? && !Present(s, KeyFor(x)))
    requires |TableOf(s, x.entry.tableId)| >= info.tables[x.entry.tableId].size
    ensures KnownTables(info, [x])
    ensures BatchAccepted(info, s, [x]) && !Explainable(info, s, [x])
  {
    LoneRejectionAccepted(info, s, x);
    AcceptedBatchExplainedIffFits(info, s, [x]);
    assert x in [x];
    NoStops([x], KeyFor(x));
  }

  /** So does an INSERT of one absent key that is answered once Ok and once RESOURCE_EXHAUSTED, with one place left. */
  lemma InsertedAndRejectedPasses(info: P4Info, s: State, ok: Answered, rejected: Answered)
    requires WellFormed(info, s) && Admissible(info, ok) && Admissible(info, rejected)
    requires IsWellformed(info, ok) && IsWellformed(info, rejected) && ok.kind.Insert? && rejected.kind.Insert?
    requires ok.status == Ok && rejected.status == ResourceExhausted && KeyFor(ok) == KeyFor(rejected)
    requires !Present(s, KeyFor(ok))
    requires |TableOf(s, ok.entry.tableId)| + 1 == info.tables[ok.entry.tableId].size
    ensures KnownTables(info, [ok, rejected])
    ensures BatchAccepted(info, s, [ok, rejected]) && !Explainable(info, s, [ok, rejected])
  {
    var xs, t, k := [ok, rejected], ok.entry.tableId, KeyFor(ok);
    PairSelections(ok, rejected);
    OneInsertExplained(info, s, ok);
    Locality(info, s, [ok]);
    assert BatchAccepted(info, s, xs);
    RejectionsIntoGrowingTables(info, s, xs);
    SubsetSizes({k}, RejectedAndInserted(xs, t));
  }

  lemma OneInsertExplained(info: P4Info, s: State, x: Answered)
    requires Admissible(info, x) && IsWellformed(info, x) && x.kind.Insert? && x.status == Ok && !Present(s, KeyFor(x))
    ensures Explainable(info, s, [x])
  {
    assert [x][1..] == [];
    assert LegalRun(info, s, [x]);
  }

  /** What the selections of a batch make of an INSERT and a rejection of one key. */
  lemma PairSelections(ok: Answered, rejected: Answered)
    requires ok.kind.Insert? && ok.status == Ok && rejected.status == ResourceExhausted
               && KeyFor(ok) == KeyFor(rejected)
    ensures NotExhausted([ok, rejected]) == [ok]
    ensures SuccessfulInserts([ok, rejected], ok.entry.tableId) == 1
    ensures KeyFor(ok) in RejectedAndInserted([ok, rejected], ok.entry.tableId)
  {
    var xs, t, k := [ok, rejected], ok.entry.tableId, KeyFor(ok);
    FilterPair((y: Answered) => y.status != ResourceExhausted, ok, rejected);
    FilterPair((y: Answered) => y.status == Ok && y.kind.Insert? && y.entry.tableId == t, ok, rejected);
    FilterPair(y => KeyFor(y) == k, ok, rejected);
    FilterPair((y: Answered) => y.status == Ok && y.kind.Insert?, ok, rejected);
    assert Group(xs, k) == xs && Starts(xs) == 1;
    assert xs[1] == rejected;
    KeysOfMember(xs, rejected);
  }
}
