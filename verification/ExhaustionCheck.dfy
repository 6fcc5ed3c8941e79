/**
  The resource-exhaustion part of the response oracle: every rejected INSERT is judged as if all
  successful INSERTs of the batch had happened before it.
 */
module ExhaustionCheck {
  import opened Common
  import opened P4Entries
  import opened StateModel
  import opened Statistics
  import opened StateComparison
  import opened OracleModel

  /** Successful INSERTs into table t. */
  function SuccessfulInserts(xs: seq<Answered>, t: int): nat
  {
    |Filter((x: Answered) => x.status == Ok && x.kind.Insert? && x.entry.tableId == t, xs)|
  }

  predicate Accommodates(info: P4Info, s: State, t: int, n: int)
    requires t in info.tables
  {
    info.tables[t].size - |TableOf(s, t)| >= n
  }

  /** RESOURCE_EXHAUSTED is excused: the table was full, counting all successful INSERTs of the batch. */
  predicate Excused(info: P4Info, s: State, xs: seq<Answered>, x: Answered)
    requires x.entry.tableId in info.tables
  {
    !Accommodates(info, s, x.entry.tableId, SuccessfulInserts(xs, x.entry.tableId) + 1)
  }

  /** Table ids the oracle looks up exist. */
  predicate KnownTables(info: P4Info, xs: seq<Answered>)
  {
    forall x :: x in xs && x.status in {Ok, ResourceExhausted} ==> x.entry.tableId in info.tables
  }

  /** What WriteRequestOracle reports no problem about. */
  ghost predicate BatchAccepted(info: P4Info, s: State, xs: seq<Answered>)
    requires KnownTables(info, xs)
  {
    (forall k :: Explainable(info, s, Group(NotExhausted(xs), k)))
    && (forall x :: x in xs && x.status == ResourceExhausted ==> Excused(info, s, xs, x))
  }

  /** The state after any sequence of answered updates, in the given order. */
  function AfterAll(info: P4Info, s: State, xs: seq<Answered>): State
    decreases |xs|
  {
    if xs == [] then s else AfterAll(info, After(info, s, xs[0]), xs[1..])
  }

  lemma InsertsPermute(xs: seq<Answered>, ys: seq<Answered>, t: int)
    requires Permutation(xs, ys)
    ensures SuccessfulInserts(xs, t) == SuccessfulInserts(ys, t)
  {
    FilterPermutes((x: Answered) => x.status == Ok && x.kind.Insert? && x.entry.tableId == t, xs, ys);
    PermutationMembers(Filter((x: Answered) => x.status == Ok && x.kind.Insert? && x.entry.tableId == t, xs),
                       Filter((x: Answered) => x.status == Ok && x.kind.Insert? && x.entry.tableId == t, ys));
  }

  lemma InsertsPrefix(xs: seq<Answered>, i: nat, t: int)
    requires i <= |xs|
    ensures SuccessfulInserts(xs[..i], t) <= SuccessfulInserts(xs, t)
  {
    assert xs == xs[..i] + xs[i..];
    FilterConcat((x: Answered) => x.status == Ok && x.kind.Insert? && x.entry.tableId == t, xs[..i], xs[i..]);
  }

  /** One answered update grows a table by at most one entry, and only by a successful INSERT into it. */
  lemma OccupancyStep(info: P4Info, s: State, x: Answered, t: int)
    requires WellFormed(info, s)
    requires x.status == Ok ==> x.kind.Insert? || x.kind.Delete?
    ensures WellFormed(info, After(info, s, x))
    ensures |TableOf(After(info, s, x), t)|
            <= |TableOf(s, t)| + (if x.status == Ok && x.kind.Insert? && x.entry.tableId == t then 1 else 0)
  {
    if x.status == Ok && Apply(info, s, x.ToUpdate()).Some? {
      ApplyKeepsWellFormed(info, s, x.ToUpdate());
      ApplySize(info, s, x.ToUpdate(), t);
    }
  }

  /** In every order, a table never holds more than its initial entries plus the successful INSERTs so far. */
  lemma {:induction false} OccupancyBound(info: P4Info, s: State, xs: seq<Answered>, t: int)
    requires WellFormed(info, s)
    requires forall x :: x in xs && x.status == Ok ==> x.kind.Insert? || x.kind.Delete?
    ensures |TableOf(AfterAll(info, s, xs), t)| <= |TableOf(s, t)| + SuccessfulInserts(xs, t)
    decreases |xs|
  {
    if xs != [] {
      assert xs[0] in xs && forall x :: x in xs[1..] ==> x in xs;
      OccupancyStep(info, s, xs[0], t);
      OccupancyBound(info, After(info, s, xs[0]), xs[1..], t);
    }
  }

  /**
    The check is lenient in the right direction: if in some order of execution the table is full
    when the rejected INSERT is processed, the rejection is excused.
   */
  lemma ExcusedWhenFull(info: P4Info, s: State, xs: seq<Answered>, r: seq<Answered>, i: nat)
    requires WellFormed(info, s) && Permutation(r, xs) && i < |r|
    requires forall x :: x in xs && x.status == Ok ==> x.kind.Insert? || x.kind.Delete?
    requires r[i].entry.tableId in info.tables
    requires |TableOf(AfterAll(info, s, r[..i]), r[i].entry.tableId)| >= info.tables[r[i].entry.tableId].size
    ensures Excused(info, s, xs, r[i])
  {
    PermutationMembers(r, xs);
    var t := r[i].entry.tableId;
    assert forall x :: x in r[..i] ==> x in r;
    OccupancyBound(info, s, r[..i], t);
    InsertsPrefix(r, i, t);
    InsertsPermute(r, xs, t);
  }

  /** Dropping rejected INSERTs from a legal order leaves a legal order. */
  lemma {:induction false} DropExhausted(info: P4Info, s: State, r: seq<Answered>)
    requires LegalRun(info, s, r)
    ensures LegalRun(info, s, NotExhausted(r))
    decreases |r|
  {
    if r != [] {
      DropExhausted(info, After(info, s, r[0]), r[1..]);
      if r[0].status == ResourceExhausted {
        assert NotExhausted(r) == NotExhausted(r[1..]);
      } else {
        assert NotExhausted(r) == [r[0]] + NotExhausted(r[1..]);
      }
    }
  }

  /** Every rejected INSERT of a legal order is processed while its table is full. */
  lemma {:induction false} LegalRejectionsAreFull(info: P4Info, s: State, r: seq<Answered>, i: nat)
    requires LegalRun(info, s, r) && i < |r| && r[i].status == ResourceExhausted
    ensures r[i].entry.tableId in info.tables
    ensures |TableOf(AfterAll(info, s, r[..i]), r[i].entry.tableId)| >= info.tables[r[i].entry.tableId].size
    ensures forall x :: x in r && x.status == Ok ==> x.kind.Insert? || x.kind.Delete?
    decreases |r|
  {
    LegalKinds(info, s, r);
    if i == 0 {
      assert r[..0] == [];
    } else {
      LegalRejectionsAreFull(info, After(info, s, r[0]), r[1..], i - 1);
      assert r[..i][1..] == r[1..][..i - 1];
    }
  }

  lemma {:induction false} LegalKinds(info: P4Info, s: State, r: seq<Answered>)
    requires LegalRun(info, s, r)
    ensures forall x :: x in r && x.status == Ok ==> x.kind.Insert? || x.kind.Delete?
    decreases |r|
  {
    if r != [] {
      LegalKinds(info, After(info, s, r[0]), r[1..]);
    }
  }

  /**
    No false alarm: a batch whose answers, rejections included, are explained by any order of
    execution is accepted.
   */
  lemma ExplainedBatchAccepted(info: P4Info, s: State, xs: seq<Answered>)
    requires WellFormed(info, s) && KnownTables(info, xs)
    requires forall x :: x in xs ==> Admissible(info, x)
    requires Explainable(info, s, xs)
    ensures BatchAccepted(info, s, xs)
  {
    var r :| Permutation(r, xs) && LegalRun(info, s, r);
    PermutationMembers(r, xs);
    var served := NotExhausted(xs);
    FilterMembers((x: Answered) => x.status != ResourceExhausted, xs);
    FilterPermutes((x: Answered) => x.status != ResourceExhausted, r, xs);
    DropExhausted(info, s, r);
    assert Permutation(NotExhausted(r), served) && LegalRun(info, s, NotExhausted(r));
    Locality(info, s, served);
    forall x | x in xs && x.status == ResourceExhausted
      ensures Excused(info, s, xs, x)
    {
      assert x in r;
      var i :| 0 <= i < |r| && r[i] == x;
      LegalRejectionsAreFull(info, s, r, i);
      ExcusedWhenFull(info, s, xs, r, i);
    }
  }

  /** Without rejections the verdict is exact: accepted batches are the explained ones. */
  lemma AcceptedIffExplained(info: P4Info, s: State, xs: seq<Answered>)
    requires KnownTables(info, xs)
    requires forall x :: x in xs ==> Admissible(info, x) && x.status != ResourceExhausted
    ensures BatchAccepted(info, s, xs) <==> Explainable(info, s, xs)
  {
    FilterAll((x: Answered) => x.status != ResourceExhausted, xs);
    assert NotExhausted(xs) == xs;
    Locality(info, s, xs);
  }

  // ----- orders with and without rejections -----

  /** Along a legal order without rejections, a table nothing leaves grows by its successful INSERTs. */
  lemma {:induction false} OccupancyExact(info: P4Info, s: State, r: seq<Answered>, t: int)
    requires WellFormed(info, s) && LegalRun(info, s, r)
    requires forall y :: y in r && y.status == Ok ==> !(y.kind.Delete? && y.entry.tableId == t)
    ensures |TableOf(AfterAll(info, s, r), t)| == |TableOf(s, t)| + SuccessfulInserts(r, t)
    decreases |r|
  {
    if r != [] {
      var x, s' := r[0], After(info, s, r[0]);
      assert x in r && forall y :: y in r[1..] ==> y in r;
      LegalKinds(info, s, r);
      OccupancyStep(info, s, x, t);
      OccupancyExact(info, s', r[1..], t);
      if x.status == Ok {
        AcceptedOkApplies(info, s, x);
        ApplySize(info, s, x.ToUpdate(), t);
      }
    }
  }

  lemma {:induction false} LegalConcat(info: P4Info, s: State, a: seq<Answered>, b: seq<Answered>)
    ensures LegalRun(info, s, a + b) <==> LegalRun(info, s, a) && LegalRun(info, AfterAll(info, s, a), b)
    decreases |a|
  {
    if a == [] {
      assert a + b == b;
    } else {
      assert (a + b)[1..] == a[1..] + b;
      LegalConcat(info, After(info, s, a[0]), a[1..], b);
    }
  }

  lemma {:induction false} RejectionsLegal(info: P4Info, s: State, b: seq<Answered>)
    requires forall x :: x in b ==> x.status == ResourceExhausted && Accepts(info, s, x)
    ensures LegalRun(info, s, b)
    decreases |b|
  {
    if b != [] {
      assert b[0] in b && forall x :: x in b[1..] ==> x in b;
      RejectionsLegal(info, s, b[1..]);
    }
  }

  function Exhausted(xs: seq<Answered>): seq<Answered>
  {
    Filter((x: Answered) => x.status == ResourceExhausted, xs)
  }

  lemma ServedAndRejected(xs: seq<Answered>)
    ensures multiset(NotExhausted(xs)) + multiset(Exhausted(xs)) == multiset(xs)
  {
    forall x ensures multiset(NotExhausted(xs))[x] + multiset(Exhausted(xs))[x] == multiset(xs)[x] {
      FilterMultiset((x: Answered) => x.status != ResourceExhausted, xs, x);
      FilterMultiset((x: Answered) => x.status == ResourceExhausted, xs, x);
    }
  }

  lemma {:induction false} InsertsServed(xs: seq<Answered>, t: int)
    ensures SuccessfulInserts(NotExhausted(xs), t) == SuccessfulInserts(xs, t)
  {
    if xs != [] {
      InsertsServed(xs[1..], t);
      var head := if xs[0].status != ResourceExhausted then [xs[0]] else [];
      assert NotExhausted(xs) == head + NotExhausted(xs[1..]);
      FilterConcat((x: Answered) => x.status == Ok && x.kind.Insert? && x.entry.tableId == t,
                   head, NotExhausted(xs[1..]));
    }
  }
}
