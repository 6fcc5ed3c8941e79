/**
  Minimization of the entities behind a failure (dvaas/failure_post_processing.cc): delta debugging
  by recursive bisection over a callback that removes entities from a testbed, reruns the test and
  keeps them removed exactly when the failure persists.
 */
module FailureMinimizer {
  import opened Common

  /** An entity, by the cases that decide its table; `id` stands for the rest of its contents. */
  datatype IrEntity =
    | TableEntity(tableName: string, id: nat)
    | MulticastGroupEntity(id: nat)
    | CloneSessionEntity(id: nat)
    | ReplicationTypeNotSet(id: nat)
    | EntityNotSet(id: nat)

  datatype MinimizationAlgorithm = TableBasedBisectionAlgorithm | RemoveEntitiesOneByOneAlgorithm | UnknownAlgorithm

  function EntityToTableName(e: IrEntity): Option<string>
  {
    match e
    case TableEntity(name, _) => Some(name)
    case MulticastGroupEntity(_) => Some("builtin::multicast_group_table")
    case CloneSessionEntity(_) => Some("builtin::clone_session_table")
    case ReplicationTypeNotSet(_) => None
    case EntityNotSet(_) => None
  }

  /** The table name is assumed to be non-empty. */
  predicate NamedTable(e: IrEntity)
  {
    e.TableEntity? ==> e.tableName != ""
  }

  // ----- runs of the minimizer -----

  /** One call of the callback that answered: what was installed, what was tried, and the answer. */
  datatype Trial = Trial(installed: set<IrEntity>, entities: seq<IrEntity>, removed: bool)

  datatype Run = Run(trials: seq<Trial>, left: set<IrEntity>)

  function SetOf(s: seq<IrEntity>): set<IrEntity>
  {
    set e | e in s
  }

  function Try(fails: set<IrEntity> -> bool, installed: set<IrEntity>, entities: seq<IrEntity>): Run
  {
    var without := installed - SetOf(entities);
    Run([Trial(installed, entities, fails(without))], if fails(without) then without else installed)
  }

  function Then(a: Run, b: Run): Run
  {
    Run(a.trials + b.trials, b.left)
  }

  /** What one call of TryToDeleteAndBisect does: the group as a whole, then its second half, then its first. */
  function Bisect(fails: set<IrEntity> -> bool, installed: set<IrEntity>, entities: seq<IrEntity>): Run
    decreases |entities|
  {
    if entities == [] then Run([], installed)
    else
      var whole := Try(fails, installed, entities);
      if whole.trials[0].removed || |entities| == 1 then whole
      else
        var later := Bisect(fails, whole.left, entities[|entities| / 2..]);
        Then(whole, Then(later, Bisect(fails, later.left, entities[..|entities| / 2])))
  }

  function Halves(fails: set<IrEntity> -> bool, installed: set<IrEntity>, first: seq<IrEntity>,
                  second: seq<IrEntity>): Run
  {
    var later := Bisect(fails, installed, second);
    Then(later, Bisect(fails, later.left, first))
  }

  /** Bisection of every group, last group first. */
  function Sweep(fails: set<IrEntity> -> bool, installed: set<IrEntity>, groups: seq<seq<IrEntity>>): Run
    decreases |groups|
  {
    if groups == [] then Run([], installed)
    else
      var last := Bisect(fails, installed, groups[|groups| - 1]);
      Then(last, Sweep(fails, last.left, groups[..|groups| - 1]))
  }

  function OneByOne(fails: set<IrEntity> -> bool, installed: set<IrEntity>, entities: seq<IrEntity>): Run
  {
    if entities == [] then Run([], installed)
    else
      var last := Try(fails, installed, [entities[|entities| - 1]]);
      Then(last, OneByOne(fails, last.left, entities[..|entities| - 1]))
  }

  // ----- what a run achieves -----

  /** The entities in the order opposite to the one in which the trials settled them. */
  function Settled(trials: seq<Trial>): seq<IrEntity>
  {
    if trials == [] then []
    else Settled(trials[1..]) + (if trials[0].removed || |trials[0].entities| == 1 then trials[0].entities else [])
  }

  lemma {:induction false} SettledConcat(a: seq<Trial>, b: seq<Trial>)
    ensures Settled(a + b) == Settled(b) + Settled(a)
  {
    if a == [] {
      assert a + b == b;
    } else {
      assert (a + b)[1..] == a[1..] + b;
      SettledConcat(a[1..], b);
    }
  }

  /** Trial k rejected e on its own, with everything installed that is left at the end. */
  ghost predicate RejectedAlone(fails: set<IrEntity> -> bool, run: Run, e: IrEntity, k: int)
  {
    && 0 <= k < |run.trials|
    && run.trials[k].entities == [e]
    && !run.trials[k].removed
    && run.left <= run.trials[k].installed
    && !fails(run.trials[k].installed - {e})
  }

  /**
    The run started from `installed` and dealt with `candidates`: it removed candidates only; what is
    left still fails if anything was removed; every candidate that is left was rejected on its own;
    and every candidate was settled exactly once, dependants (later candidates) first.
   */
  ghost predicate Achieves(fails: set<IrEntity> -> bool, installed: set<IrEntity>, candidates: seq<IrEntity>, run: Run)
  {
    && run.left <= installed
    && (forall e :: e in installed && e !in run.left ==> e in candidates)
    && (run.left == installed || fails(run.left))
    && (forall e :: e in candidates && e in run.left ==> exists k :: RejectedAlone(fails, run, e, k))
    && Settled(run.trials) == candidates
  }

  lemma AchievesThen(fails: set<IrEntity> -> bool, installed: set<IrEntity>,
                     earlier: seq<IrEntity>, later: seq<IrEntity>, a: Run, b: Run)
    requires Achieves(fails, installed, later, a)
    requires Achieves(fails, a.left, earlier, b)
    ensures Achieves(fails, installed, earlier + later, Then(a, b))
  {
    var run := Then(a, b);
    forall e | e in earlier + later && e in run.left
      ensures exists k :: RejectedAlone(fails, run, e, k)
    {
      if e in earlier {
        var k :| RejectedAlone(fails, b, e, k);
        assert RejectedAlone(fails, run, e, |a.trials| + k);
      } else {
        var k :| RejectedAlone(fails, a, e, k);
        assert RejectedAlone(fails, run, e, k);
      }
    }
    SettledConcat(a.trials, b.trials);
  }

  /** A trial settles its group when it removes it or when the group is a single entity. */
  lemma TryAchieves(fails: set<IrEntity> -> bool, installed: set<IrEntity>, entities: seq<IrEntity>)
    ensures var run := Try(fails, installed, entities);
            Achieves(fails, installed, if run.trials[0].removed || |entities| == 1 then entities else [], run)
  {
    var run := Try(fails, installed, entities);
    assert Settled(run.trials[1..]) == [];
    if !run.trials[0].removed && |entities| == 1 {
      assert entities == [entities[0]];
      assert SetOf(entities) == {entities[0]};
      assert RejectedAlone(fails, run, entities[0], 0);
    }
  }

  lemma {:induction false} BisectAchieves(fails: set<IrEntity> -> bool, installed: set<IrEntity>,
                                          entities: seq<IrEntity>)
    ensures Achieves(fails, installed, entities, Bisect(fails, installed, entities))
    decreases |entities|
  {
    if entities != [] {
      TryAchieves(fails, installed, entities);
      var whole := Try(fails, installed, entities);
      if !whole.trials[0].removed && |entities| != 1 {
        var first, second := entities[..|entities| / 2], entities[|entities| / 2..];
        BisectAchieves(fails, whole.left, second);
        var later := Bisect(fails, whole.left, second);
        BisectAchieves(fails, later.left, first);
        AchievesThen(fails, whole.left, first, second, later, Bisect(fails, later.left, first));
        assert first + second == entities && entities + [] == entities;
        AchievesThen(fails, installed, entities, [], whole, Then(later, Bisect(fails, later.left, first)));
      }
    }
  }

  /** A group that cannot be removed is split in the middle, and its second half is tried next. */
  lemma SecondHalfNext(fails: set<IrEntity> -> bool, installed: set<IrEntity>, entities: seq<IrEntity>)
    requires |entities| > 1 && !fails(installed - SetOf(entities))
    ensures var trials := Bisect(fails, installed, entities).trials;
            |trials| > 1 && trials[0].entities == entities && trials[1].entities == entities[|entities| / 2..]
  {
    var later := Bisect(fails, installed, entities[|entities| / 2..]);
    assert later.trials[0].entities == entities[|entities| / 2..];
  }

  /** Every trial of a removal one by one is of one entity, the last one first. */
  lemma {:induction false} OneTrialEach(fails: set<IrEntity> -> bool, installed: set<IrEntity>, entities: seq<IrEntity>)
    ensures var trials := OneByOne(fails, installed, entities).trials;
            |trials| == |entities|
            && forall i :: 0 <= i < |trials| ==> trials[i].entities == [entities[|entities| - 1 - i]]
  {
    if entities != [] {
      var n := |entities| - 1;
      var last := Try(fails, installed, [entities[n]]);
      OneTrialEach(fails, last.left, entities[..n]);
    }
  }

  function Flatten(groups: seq<seq<IrEntity>>): seq<IrEntity>
  {
    if groups == [] then [] else Flatten(groups[..|groups| - 1]) + groups[|groups| - 1]
  }

  lemma {:induction false} SweepAchieves(fails: set<IrEntity> -> bool, installed: set<IrEntity>,
                                         groups: seq<seq<IrEntity>>)
    ensures Achieves(fails, installed, Flatten(groups), Sweep(fails, installed, groups))
    decreases |groups|
  {
    if groups != [] {
      var n := |groups| - 1;
      BisectAchieves(fails, installed, groups[n]);
      var last := Bisect(fails, installed, groups[n]);
      SweepAchieves(fails, last.left, groups[..n]);
      AchievesThen(fails, installed, Flatten(groups[..n]), groups[n], last, Sweep(fails, last.left, groups[..n]));
    }
  }

  lemma {:induction false} OneByOneAchieves(fails: set<IrEntity> -> bool, installed: set<IrEntity>,
                                            entities: seq<IrEntity>)
    ensures Achieves(fails, installed, entities, OneByOne(fails, installed, entities))
  {
    if entities != [] {
      var n := |entities| - 1;
      TryAchieves(fails, installed, [entities[n]]);
      var last := Try(fails, installed, [entities[n]]);
      OneByOneAchieves(fails, last.left, entities[..n]);
      AchievesThen(fails, installed, entities[..n], [entities[n]], last, OneByOne(fails, last.left, entities[..n]));
      assert entities[..n] + [entities[n]] == entities;
    }
  }

  // ----- minimality -----

  /** Installing more never makes the failure go away. */
  ghost predicate Monotone(fails: set<IrEntity> -> bool)
  {
    forall a, b {:trigger fails(a), fails(b)} :: a <= b && fails(a) ==> fails(b)
  }

  /** For a monotone failure the result is minimal: no non-empty set of remaining candidates can go. */
  lemma RemainderIsMinimal(fails: set<IrEntity> -> bool, installed: set<IrEntity>,
                           candidates: seq<IrEntity>, run: Run, extra: set<IrEntity>)
    requires Monotone(fails) && fails(installed)
    requires Achieves(fails, installed, candidates, run)
    requires extra != {} && extra <= run.left * SetOf(candidates)
    ensures fails(run.left)
    ensures !fails(run.left - extra)
  {
    var e :| e in extra;
    var k :| RejectedAlone(fails, run, e, k);
    assert run.left - extra <= run.trials[k].installed - {e};
  }

  // ----- exactly when rejected entities stay rejected -----

  /** No single remaining candidate can be removed. */
  ghost predicate OneMinimal(fails: set<IrEntity> -> bool, candidates: seq<IrEntity>, left: set<IrEntity>)
  {
    forall e :: e in candidates && e in left ==> !fails(left - {e})
  }

  /** If e cannot be removed from a failing set and `others` can, then e still cannot be removed without them. */
  ghost predicate StaysRejected(fails: set<IrEntity> -> bool, installed: set<IrEntity>, e: IrEntity,
                                others: set<IrEntity>)
  {
    fails(installed) && e in installed && e !in others && !fails(installed - {e}) && fails(installed - others)
    ==> !fails(installed - others - {e})
  }

  ghost predicate EntitiesStayRejected(fails: set<IrEntity> -> bool)
  {
    forall installed, e, f {:trigger StaysRejected(fails, installed, e, {f})} :: StaysRejected(fails, installed, e, {f})
  }

  ghost predicate GroupsStayRejected(fails: set<IrEntity> -> bool)
  {
    forall installed, e, others {:trigger StaysRejected(fails, installed, e, others)} ::
      StaysRejected(fails, installed, e, others)
  }

  lemma MonotoneStaysRejected(fails: set<IrEntity> -> bool)
    requires Monotone(fails)
    ensures GroupsStayRejected(fails)
  {
    forall installed, e, others ensures StaysRejected(fails, installed, e, others) {
      assert installed - others - {e} <= installed - {e};
    }
  }

  /** What a run removes is one set of others, so a rejected entity stays rejected in its result. */
  lemma RunKeeps(fails: set<IrEntity> -> bool, installed: set<IrEntity>, candidates: seq<IrEntity>, run: Run,
                 e: IrEntity)
    requires fails(installed) && Achieves(fails, installed, candidates, run)
    requires StaysRejected(fails, installed, e, installed - run.left)
    requires e in run.left && !fails(installed - {e})
    ensures !fails(run.left - {e})
  {
    assert installed - (installed - run.left) == run.left;
  }

  /**
    The same for e among candidates that cannot be removed all together: `rest` stands for those that
    are still there.
   */
  ghost predicate StaysRejectedAmong(fails: set<IrEntity> -> bool, installed: set<IrEntity>, e: IrEntity,
                                     others: set<IrEntity>, rest: set<IrEntity>)
  {
    !fails(installed - others - {e} - rest) ==> StaysRejected(fails, installed, e, others)
  }

  ghost predicate CandidatesStayRejected(fails: set<IrEntity> -> bool)
  {
    forall installed, e, others, rest {:trigger StaysRejectedAmong(fails, installed, e, others, rest)} ::
      StaysRejectedAmong(fails, installed, e, others, rest)
  }

  lemma GroupsOrCandidates(fails: set<IrEntity> -> bool)
    requires GroupsStayRejected(fails)
    ensures CandidatesStayRejected(fails)
  {
    forall installed, e, others, rest ensures StaysRejectedAmong(fails, installed, e, others, rest) {
      assert StaysRejected(fails, installed, e, others);
    }
  }

  /**
    Bisection splits a group only when the whole of it cannot be removed, so less is needed than for
    several groups.
   */
  lemma {:induction false} BisectOneMinimal(fails: set<IrEntity> -> bool, installed: set<IrEntity>,
                                            entities: seq<IrEntity>)
    requires CandidatesStayRejected(fails) && fails(installed)
    ensures OneMinimal(fails, entities, Bisect(fails, installed, entities).left)
    decreases |entities|
  {
    if |entities| == 1 {
      assert SetOf(entities) == {entities[0]};
    } else if entities != [] {
      var whole := Try(fails, installed, entities);
      if !whole.trials[0].removed {
        var first, second := entities[..|entities| / 2], entities[|entities| / 2..];
        var later := Bisect(fails, installed, second);
        var last := Bisect(fails, later.left, first);
        BisectAchieves(fails, installed, second);
        BisectAchieves(fails, later.left, first);
        BisectOneMinimal(fails, installed, second);
        BisectOneMinimal(fails, later.left, first);
        assert entities == first + second;
        forall e | e in second && e in last.left ensures !fails(last.left - {e}) {
          RemainderTogether(fails, installed, entities, later.left, last.left, e);
          RunKeeps(fails, later.left, first, last, e);
        }
      }
    }
  }

  lemma RemainderTogether(fails: set<IrEntity> -> bool, installed: set<IrEntity>, entities: seq<IrEntity>,
                          middle: set<IrEntity>, left: set<IrEntity>, e: IrEntity)
    requires CandidatesStayRejected(fails) && !fails(installed - SetOf(entities))
    requires left <= middle <= installed && e in entities
    requires forall o :: o in installed && o !in left ==> o in entities
    ensures StaysRejected(fails, middle, e, middle - left)
  {
    assert middle - (middle - left) - {e} - SetOf(entities) == installed - SetOf(entities);
    assert StaysRejectedAmong(fails, middle, e, middle - left, SetOf(entities));
  }

  lemma {:induction false} SweepOneMinimal(fails: set<IrEntity> -> bool, installed: set<IrEntity>,
                                           groups: seq<seq<IrEntity>>)
    requires GroupsStayRejected(fails) && fails(installed)
    ensures OneMinimal(fails, Flatten(groups), Sweep(fails, installed, groups).left)
    decreases |groups|
  {
    if groups != [] {
      var n := |groups| - 1;
      var last := Bisect(fails, installed, groups[n]);
      var rest := Sweep(fails, last.left, groups[..n]);
      BisectAchieves(fails, installed, groups[n]);
      GroupsOrCandidates(fails);
      BisectOneMinimal(fails, installed, groups[n]);
      SweepOneMinimal(fails, last.left, groups[..n]);
      SweepAchieves(fails, last.left, groups[..n]);
      forall e | e in groups[n] && e in rest.left ensures !fails(rest.left - {e}) {
        assert StaysRejected(fails, last.left, e, last.left - rest.left);
        RunKeeps(fails, last.left, Flatten(groups[..n]), rest, e);
      }
    }
  }

  lemma {:induction false} OneByOneKeeps(fails: set<IrEntity> -> bool, installed: set<IrEntity>,
                                         entities: seq<IrEntity>, e: IrEntity)
    requires EntitiesStayRejected(fails) && fails(installed)
    requires e in installed && !fails(installed - {e}) && e in OneByOne(fails, installed, entities).left
    ensures !fails(OneByOne(fails, installed, entities).left - {e})
    decreases |entities|
  {
    if entities != [] {
      var n := |entities| - 1;
      var last := Try(fails, installed, [entities[n]]);
      OneByOneAchieves(fails, last.left, entities[..n]);
      assert SetOf([entities[n]]) == {entities[n]};
      assert StaysRejected(fails, installed, e, {entities[n]});
      OneByOneKeeps(fails, last.left, entities[..n], e);
    }
  }

  lemma {:induction false} OneByOneIsOneMinimal(fails: set<IrEntity> -> bool, installed: set<IrEntity>,
                                                entities: seq<IrEntity>)
    requires EntitiesStayRejected(fails) && fails(installed)
    ensures OneMinimal(fails, entities, OneByOne(fails, installed, entities).left)
    decreases |entities|
  {
    if entities != [] {
      var n := |entities| - 1;
      var last := Try(fails, installed, [entities[n]]);
      var left := OneByOne(fails, last.left, entities[..n]).left;
      OneByOneIsOneMinimal(fails, last.left, entities[..n]);
      OneByOneAchieves(fails, last.left, entities[..n]);
      assert SetOf([entities[n]]) == {entities[n]};
      assert entities == entities[..n] + [entities[n]];
      if entities[n] in left {
        OneByOneKeeps(fails, last.left, entities[..n], entities[n]);
      }
    }
  }

  /** A rejected entity that becomes removable is left by the run over the two entities. */
  lemma PairLeavesRemovable(fails: set<IrEntity> -> bool, installed: set<IrEntity>, e: IrEntity, f: IrEntity)
    requires !StaysRejected(fails, installed, e, {f})
    ensures !OneMinimal(fails, [f, e], OneByOne(fails, installed, [f, e]).left)
  {
    var candidates := [f, e];
    assert candidates[..1] == [f] && [f][..0] == [];
    assert SetOf([e]) == {e} && SetOf([f]) == {f};
    assert OneByOne(fails, installed - {f}, []).left == installed - {f};
    assert OneByOne(fails, installed, [f]).left == installed - {f};
    assert OneByOne(fails, installed, candidates).left == installed - {f};
    assert e in candidates;
  }

  /** Removal one by one from a failing set always ends 1-minimal exactly when rejected entities stay rejected. */
  lemma OneByOneMinimalIff(fails: set<IrEntity> -> bool)
    ensures EntitiesStayRejected(fails)
       <==> forall installed, entities :: fails(installed) ==>
              OneMinimal(fails, entities, OneByOne(fails, installed, entities).left)
  {
    if EntitiesStayRejected(fails) {
      forall installed, entities | fails(installed)
        ensures OneMinimal(fails, entities, OneByOne(fails, installed, entities).left)
      {
        OneByOneIsOneMinimal(fails, installed, entities);
      }
    } else {
      var installed, e, f :| !StaysRejected(fails, installed, e, {f});
      PairLeavesRemovable(fails, installed, e, f);
    }
  }

  lemma {:induction false} SequenceOf(s: set<IrEntity>) returns (q: seq<IrEntity>)
    ensures SetOf(q) == s
  {
    if s == {} {
      q := [];
    } else {
      var e :| e in s;
      var rest := SequenceOf(s - {e});
      q := rest + [e];
      assert SetOf(q) == SetOf(rest) + {e};
    }
  }

  /** A rejected entity that becomes removable is left by the sweep over the others and it. */
  lemma SweepLeavesRemovable(fails: set<IrEntity> -> bool, installed: set<IrEntity>, e: IrEntity, others: seq<IrEntity>)
    requires !StaysRejected(fails, installed, e, SetOf(others))
    ensures !OneMinimal(fails, Flatten([others, [e]]), Sweep(fails, installed, [others, [e]]).left)
  {
    var groups := [others, [e]];
    assert groups[..1] == [others] && [others][..0] == [];
    assert SetOf([e]) == {e};
    assert others == [] ==> installed - SetOf(others) == installed;
    assert Bisect(fails, installed, [e]).left == installed;
    assert Bisect(fails, installed, others).left == installed - SetOf(others);
    assert Sweep(fails, installed, [others]).left == installed - SetOf(others);
    assert Flatten([others]) == [] + others;
    assert Flatten(groups) == Flatten([others]) + [e];
    assert e in Flatten(groups);
  }

  /**
    Bisection of arbitrary groups of a failing set always ends 1-minimal exactly when rejected entities
    stay rejected whatever else goes.
   */
  lemma SweepMinimalIff(fails: set<IrEntity> -> bool)
    ensures GroupsStayRejected(fails)
       <==> forall installed, groups :: fails(installed) ==>
              OneMinimal(fails, Flatten(groups), Sweep(fails, installed, groups).left)
  {
    if GroupsStayRejected(fails) {
      forall installed, groups | fails(installed)
        ensures OneMinimal(fails, Flatten(groups), Sweep(fails, installed, groups).left)
      {
        SweepOneMinimal(fails, installed, groups);
      }
    } else {
      var installed, e, others :| !StaysRejected(fails, installed, e, others);
      var q := SequenceOf(others);
      SweepLeavesRemovable(fails, installed, e, q);
    }
  }

  function FailsUnlessFirstAlone(installed: set<IrEntity>): bool
  {
    installed != {TableEntity("t", 0)}
  }

  /** A failure for which a rejected entity becomes removable, and stays. */
  lemma RejectedBecomesRemovable()
    ensures var candidates := [TableEntity("t", 0), TableEntity("t", 1)];
            var left := OneByOne(FailsUnlessFirstAlone, SetOf(candidates), candidates).left;
            !OneMinimal(FailsUnlessFirstAlone, candidates, left)
  {
    var a, b := TableEntity("t", 0), TableEntity("t", 1);
    assert SetOf([a, b]) == {a, b};
    assert {a, b} - {b} == {a} && {a, b} - {a} == {b};
    assert a !in {a, b} - {a} - {b};
    assert !StaysRejected(FailsUnlessFirstAlone, {a, b}, b, {a});
    PairLeavesRemovable(FailsUnlessFirstAlone, {a, b}, b, a);
  }

  /** For that failure every single bisection of a failing set leaves nothing removable all the same. */
  lemma BisectNeedsLess()
    ensures !EntitiesStayRejected(FailsUnlessFirstAlone) && !GroupsStayRejected(FailsUnlessFirstAlone)
    ensures CandidatesStayRejected(FailsUnlessFirstAlone)
  {
    var a, b := TableEntity("t", 0), TableEntity("t", 1);
    assert {a, b} - {b} == {a} && {a, b} - {a} == {b};
    assert b in {a, b} && a !in {a, b} - {a} - {b};
    assert !StaysRejected(FailsUnlessFirstAlone, {a, b}, b, {a});
    forall installed, e, others, rest ensures StaysRejectedAmong(FailsUnlessFirstAlone, installed, e, others, rest) {
      if installed - {e} == {a} && e in installed && e !in others {
        assert installed - others - {e} == {a} - others;
        assert {a} - others == if a in others then {} else {a};
      }
    }
  }

  // ----- a single bisection that leaves something removable -----

  function Copies(e: IrEntity, n: nat): seq<IrEntity>
  {
    seq(n, i => e)
  }

  lemma {:induction false} CopiesRejected(fails: set<IrEntity> -> bool, installed: set<IrEntity>, e: IrEntity, n: nat)
    requires e in installed && !fails(installed - {e})
    ensures Bisect(fails, installed, Copies(e, n)).left == installed
  {
    if n > 0 {
      assert Copies(e, n)[0] == e;
      assert SetOf(Copies(e, n)) == {e};
    }
    if n > 1 {
      assert Copies(e, n)[..n / 2] == Copies(e, n / 2) && Copies(e, n)[n / 2..] == Copies(e, n - n / 2);
      CopiesRejected(fails, installed, e, n / 2);
      CopiesRejected(fails, installed, e, n - n / 2);
    }
  }

  lemma SplitBisect(fails: set<IrEntity> -> bool, installed: set<IrEntity>, first: seq<IrEntity>, second: seq<IrEntity>)
    requires |first| == |second| > 0 && !fails(installed - SetOf(first + second))
    requires exists e :: e in installed && e in first + second
    ensures Bisect(fails, installed, first + second).left
            == Bisect(fails, Bisect(fails, installed, second).left, first).left
  {
    var all := first + second;
    assert all[..|all| / 2] == first && all[|all| / 2..] == second;
  }

  /**
    A rejected entity e that becomes removable stays, even in a single group, if some y cannot be
    removed after the others, with e or without.
   */
  lemma BisectLeavesRemovable(fails: set<IrEntity> -> bool, installed: set<IrEntity>, e: IrEntity,
                              others: seq<IrEntity>, y: IrEntity)
    requires !StaysRejected(fails, installed, e, SetOf(others))
    requires !fails(installed - SetOf(others) - {y}) && !fails(installed - SetOf(others) - {e} - {y})
    ensures var n := |others|;
            var entities := Copies(y, n) + others + Copies(e, 2 * n);
            !OneMinimal(fails, entities, Bisect(fails, installed, entities).left)
  {
    var n, left := |others|, installed - SetOf(others);
    NothingElse(fails, installed, e);
    assert SetOf([]) == {};
    assert others != [];
    var first, second := Copies(y, n) + others, Copies(e, 2 * n);
    CopiesSet(y, n);
    CopiesSet(e, 2 * n);
    SetOfConcat(Copies(y, n), others);
    SetOfConcat(first, second);
    assert installed - SetOf(first) == left - {y};
    assert installed - SetOf(first + second) == left - {e} - {y};
    assert y !in left ==> left - {y} == left;
    assert e in second && y in left;
    SplitBisect(fails, installed, first, second);
    CopiesRejected(fails, installed, e, 2 * n);
    assert y in first;
    SplitBisect(fails, installed, Copies(y, n), others);
    assert Bisect(fails, installed, others).left == left;
    CopiesRejected(fails, left, y, n);
    assert e in first + second;
  }

  lemma CopiesSet(e: IrEntity, n: nat)
    requires n > 0
    ensures SetOf(Copies(e, n)) == {e} && e in Copies(e, n)
  {
    assert Copies(e, n)[0] == e;
  }

  lemma SetOfConcat(a: seq<IrEntity>, b: seq<IrEntity>)
    ensures SetOf(a + b) == SetOf(a) + SetOf(b)
  {
  }

  lemma NothingElse(fails: set<IrEntity> -> bool, installed: set<IrEntity>, e: IrEntity)
    ensures StaysRejected(fails, installed, e, {})
  {
    assert installed - {} == installed;
  }

  // ----- cost -----

  lemma {:induction false} BisectCost(fails: set<IrEntity> -> bool, installed: set<IrEntity>, entities: seq<IrEntity>)
    ensures |Bisect(fails, installed, entities).trials| <= if entities == [] then 0 else 2 * |entities| - 1
    decreases |entities|
  {
    if |entities| > 1 {
      var whole := Try(fails, installed, entities);
      BisectCost(fails, whole.left, entities[|entities| / 2..]);
      var later := Bisect(fails, whole.left, entities[|entities| / 2..]);
      BisectCost(fails, later.left, entities[..|entities| / 2]);
    }
  }

  lemma {:induction false} SweepCost(fails: set<IrEntity> -> bool, installed: set<IrEntity>, groups: seq<seq<IrEntity>>)
    requires forall i :: 0 <= i < |groups| ==> groups[i] != []
    ensures |Sweep(fails, installed, groups).trials| <= 2 * |Flatten(groups)| - |groups|
    decreases |groups|
  {
    if groups != [] {
      var n := |groups| - 1;
      BisectCost(fails, installed, groups[n]);
      SweepCost(fails, Bisect(fails, installed, groups[n]).left, groups[..n]);
    }
  }

  function NeverFails(installed: set<IrEntity>): bool
  {
    false
  }

  /** The bound is met: when nothing can be removed, exactly 2n-1 trials are made. */
  lemma {:induction false} BisectCostIsTight(installed: set<IrEntity>, entities: seq<IrEntity>)
    requires entities != []
    ensures |Bisect(NeverFails, installed, entities).trials| == 2 * |entities| - 1
    ensures Bisect(NeverFails, installed, entities).left == installed
    decreases |entities|
  {
    if |entities| > 1 {
      BisectCostIsTight(installed, entities[|entities| / 2..]);
      BisectCostIsTight(installed, entities[..|entities| / 2]);
    }
  }

  lemma {:induction false} OneByOneCost(fails: set<IrEntity> -> bool, installed: set<IrEntity>, entities: seq<IrEntity>)
    ensures |OneByOne(fails, installed, entities).trials| == |entities|
  {
    if entities != [] {
      var n := |entities| - 1;
      OneByOneCost(fails, Try(fails, installed, [entities[n]]).left, entities[..n]);
    }
  }

  // ----- grouping by table -----

  predicate HasTable(e: IrEntity)
  {
    !e.EntityNotSet?
  }

  const MULTICAST_TABLE := "builtin::multicast_group_table"
  const CLONE_TABLE := "builtin::clone_session_table"

  /** Entities of different kinds have different tables, and table entries those of their names. */
  lemma SameTableIff(e: IrEntity, f: IrEntity)
    requires e.TableEntity? ==> e.tableName != MULTICAST_TABLE && e.tableName != CLONE_TABLE
    requires f.TableEntity? ==> f.tableName != MULTICAST_TABLE && f.tableName != CLONE_TABLE
    requires EntityToTableName(e).Some? && EntityToTableName(f).Some?
    ensures EntityToTableName(e) == EntityToTableName(f)
       <==> (e.TableEntity? && f.TableEntity? && e.tableName == f.tableName)
            || (e.MulticastGroupEntity? && f.MulticastGroupEntity?)
            || (e.CloneSessionEntity? && f.CloneSessionEntity?)
  {
    assert MULTICAST_TABLE[9] == 'm' && CLONE_TABLE[9] == 'c';
  }

  /** Entities bisected as one group are table entries of one name, or multicast groups, or clone sessions. */
  lemma GroupsAreUniform(s: seq<IrEntity>, group: seq<IrEntity>, e: IrEntity, f: IrEntity)
    requires Groupable(s) && group in ByTable(s) && e in group && f in group
    requires forall x :: x in s && x.TableEntity? ==> x.tableName != MULTICAST_TABLE && x.tableName != CLONE_TABLE
    ensures (e.TableEntity? && f.TableEntity? && e.tableName == f.tableName)
            || (e.MulticastGroupEntity? && f.MulticastGroupEntity?)
            || (e.CloneSessionEntity? && f.CloneSessionEntity?)
  {
    ByTablePartitions(s);
    var i :| 0 <= i < |ByTable(s)| && ByTable(s)[i] == group;
    FlattenHas(ByTable(s), i, e);
    FlattenHas(ByTable(s), i, f);
    var j, k :| 0 <= j < |s| && s[j] == e && 0 <= k < |s| && s[k] == f;
    SameTableIff(e, f);
  }

  /** The entities that take part are all but those without any content. */
  lemma RelevantMembers(entities: seq<IrEntity>)
    ensures forall e :: e in Relevant(entities) <==> e in entities && !e.EntityNotSet?
  {
    FilterMembers(HasTable, entities);
  }

  /** The entities that take part in the table-based algorithm. */
  function Relevant(entities: seq<IrEntity>): seq<IrEntity>
  {
    Filter(HasTable, entities)
  }

  /** Every entity has a table, and no table recurs after a different one. */
  ghost predicate Groupable(s: seq<IrEntity>)
  {
    && (forall i :: 0 <= i < |s| ==> EntityToTableName(s[i]).Some?)
    && (forall i, j, k :: 0 <= i < j < k < |s| && EntityToTableName(s[i]) == EntityToTableName(s[k])
                          ==> EntityToTableName(s[j]) == EntityToTableName(s[i]))
  }

  /** The maximal runs of entities of one table. */
  function ByTable(s: seq<IrEntity>): (groups: seq<seq<IrEntity>>)
    ensures s != [] ==> groups != []
  {
    if s == [] then []
    else
      var n := |s| - 1;
      var groups := ByTable(s[..n]);
      if n > 0 && EntityToTableName(s[n]) == EntityToTableName(s[n - 1])
      then groups[..|groups| - 1] + [groups[|groups| - 1] + [s[n]]]
      else groups + [[s[n]]]
  }

  predicate OneTable(group: seq<IrEntity>)
  {
    group != [] && forall e :: e in group ==> EntityToTableName(e) == EntityToTableName(group[0])
  }

  lemma {:induction false} ByTablePartitions(s: seq<IrEntity>)
    ensures Flatten(ByTable(s)) == s
    ensures forall g :: g in ByTable(s) ==> OneTable(g)
    ensures s != [] ==>
              var last := ByTable(s)[|ByTable(s)| - 1]; EntityToTableName(last[0]) == EntityToTableName(s[|s| - 1])
  {
    if s != [] {
      var n := |s| - 1;
      var groups := ByTable(s[..n]);
      ByTablePartitions(s[..n]);
      assert s == s[..n] + [s[n]];
      if n > 0 && EntityToTableName(s[n]) == EntityToTableName(s[n - 1]) {
        assert groups[|groups| - 1] in groups;
        GrowLastGroup(groups, s[n]);
      } else {
        AddGroup(groups, s[n]);
      }
    }
  }

  lemma GrowLastGroup(groups: seq<seq<IrEntity>>, e: IrEntity)
    requires groups != [] && OneTable(groups[|groups| - 1]) && forall g :: g in groups ==> OneTable(g)
    requires EntityToTableName(e) == EntityToTableName(groups[|groups| - 1][0])
    ensures var more := groups[..|groups| - 1] + [groups[|groups| - 1] + [e]];
            && Flatten(more) == Flatten(groups) + [e]
            && forall g :: g in more ==> OneTable(g)
  {
  }

  lemma AddGroup(groups: seq<seq<IrEntity>>, e: IrEntity)
    requires forall g :: g in groups ==> OneTable(g)
    ensures Flatten(groups + [[e]]) == Flatten(groups) + [e]
    ensures forall g :: g in groups + [[e]] ==> OneTable(g)
  {
  }

  /** The names of the tables, once each. */
  function TableNames(s: seq<IrEntity>): set<Option<string>>
  {
    set e | e in s :: EntityToTableName(e)
  }

  lemma TableNamesExtend(s: seq<IrEntity>, e: IrEntity)
    ensures TableNames(s + [e]) == TableNames(s) + {EntityToTableName(e)}
  {
  }

  lemma GroupableExtends(s: seq<IrEntity>, e: IrEntity)
    requires Groupable(s)
    ensures Groupable(s + [e]) <==>
              && EntityToTableName(e).Some?
              && (s == [] || EntityToTableName(e) == EntityToTableName(s[|s| - 1])
                  || EntityToTableName(e) !in TableNames(s))
  {
    var name := EntityToTableName(e);
    assert (s + [e])[|s|] == e;
    if s != [] && name in TableNames(s) && name != EntityToTableName(s[|s| - 1]) {
      NotGroupableWith(s, e);
    }
    if name.Some? && (s == [] || name == EntityToTableName(s[|s| - 1]) || name !in TableNames(s)) {
      GroupableWith(s, e);
    }
  }

  lemma TableMember(s: seq<IrEntity>, name: Option<string>) returns (i: nat)
    requires name in TableNames(s)
    ensures i < |s| && EntityToTableName(s[i]) == name
  {
    var x :| x in s && EntityToTableName(x) == name;
    i :| 0 <= i < |s| && s[i] == x;
  }

  lemma NotGroupableWith(s: seq<IrEntity>, e: IrEntity)
    requires s != [] && EntityToTableName(e) in TableNames(s) && EntityToTableName(e) != EntityToTableName(s[|s| - 1])
    ensures !Groupable(s + [e])
  {
    var t := s + [e];
    var i := TableMember(s, EntityToTableName(e));
    assert t[i] == s[i] && t[|s| - 1] == s[|s| - 1] && t[|s|] == e;
  }

  lemma GroupableWith(s: seq<IrEntity>, e: IrEntity)
    requires Groupable(s) && EntityToTableName(e).Some?
    requires s == [] || EntityToTableName(e) == EntityToTableName(s[|s| - 1]) || EntityToTableName(e) !in TableNames(s)
    ensures Groupable(s + [e])
  {
  }

  lemma GroupCountExtends(s: seq<IrEntity>, e: IrEntity)
    requires s == [] || EntityToTableName(e) == EntityToTableName(s[|s| - 1]) || EntityToTableName(e) !in TableNames(s)
    requires |ByTable(s)| == |TableNames(s)|
    ensures |ByTable(s + [e])| == |TableNames(s + [e])|
  {
    var names, name := TableNames(s), EntityToTableName(e);
    TableNamesExtend(s, e);
    ByTableExtends(s, e);
    if s == [] {
      assert names == {};
    } else if name == EntityToTableName(s[|s| - 1]) {
      LastTableNamed(s);
      assert names + {name} == names;
    }
  }

  lemma ByTableExtends(s: seq<IrEntity>, e: IrEntity)
    ensures |ByTable(s + [e])|
            == |ByTable(s)| + (if s != [] && EntityToTableName(e) == EntityToTableName(s[|s| - 1]) then 0 else 1)
  {
  }

  lemma LastTableNamed(s: seq<IrEntity>)
    requires s != []
    ensures EntityToTableName(s[|s| - 1]) in TableNames(s)
  {
  }

  lemma {:induction false} OneGroupPerTable(s: seq<IrEntity>)
    requires Groupable(s)
    ensures |ByTable(s)| == |TableNames(s)|
  {
    if s == [] {
      assert TableNames(s) == {};
    } else {
      var before, e := s[..|s| - 1], s[|s| - 1];
      assert s == before + [e];
      GroupablePrefix(before, [e]);
      OneGroupPerTable(before);
      GroupableExtends(before, e);
      GroupCountExtends(before, e);
    }
  }

  lemma GroupablePrefix(s: seq<IrEntity>, t: seq<IrEntity>)
    requires Groupable(s + t)
    ensures Groupable(s)
  {
    forall i | 0 <= i < |s|
      ensures (s + t)[i] == s[i]
    {
    }
  }

  /** The run of the table-based algorithm: what it achieves, and its cost in entities and tables. */
  lemma SweepByTable(fails: set<IrEntity> -> bool, installed: set<IrEntity>, s: seq<IrEntity>)
    requires Groupable(s)
    ensures Achieves(fails, installed, s, Sweep(fails, installed, ByTable(s)))
    ensures |Sweep(fails, installed, ByTable(s)).trials| <= 2 * |s| - |TableNames(s)|
  {
    var groups := ByTable(s);
    ByTablePartitions(s);
    SweepAchieves(fails, installed, groups);
    forall i | 0 <= i < |groups| ensures groups[i] != [] {
      assert groups[i] in groups;
    }
    SweepCost(fails, installed, groups);
    OneGroupPerTable(s);
  }

  // ----- exactly when the table-based algorithm leaves nothing removable -----

  ghost predicate NamedTables(s: seq<IrEntity>)
  {
    forall e :: e in s ==> EntityToTableName(e).Some? && NamedTable(e)
  }

  /** The others are all of one table, which is not that of e. */
  ghost predicate OfAnotherTable(e: IrEntity, others: set<IrEntity>)
  {
    && NamedTable(e) && EntityToTableName(e).Some?
    && (forall o :: o in others ==> NamedTable(o) && EntityToTableName(o).Some?)
    && (forall o :: o in others ==> EntityToTableName(o) != EntityToTableName(e))
    && (forall o, p :: o in others && p in others ==> EntityToTableName(o) == EntityToTableName(p))
  }

  /** A rejected entity stays rejected when entities of one other table are removed. */
  ghost predicate StaysRejectedAcrossTables(fails: set<IrEntity> -> bool)
  {
    forall installed, e, others {:trigger StaysRejected(fails, installed, e, others)} ::
      OfAnotherTable(e, others) ==> StaysRejected(fails, installed, e, others)
  }

  /** Bisection of the entities of any single table leaves nothing removable among them. */
  ghost predicate TablesOneMinimal(fails: set<IrEntity> -> bool)
  {
    forall installed, group {:trigger Bisect(fails, installed, group)} ::
      fails(installed) && OneTable(group) && NamedTables(group)
      ==> OneMinimal(fails, group, Bisect(fails, installed, group).left)
  }

  function TableOfGroup(group: seq<IrEntity>): Option<string>
  {
    if group == [] then None else EntityToTableName(group[0])
  }

  ghost predicate NamedGroups(groups: seq<seq<IrEntity>>)
  {
    forall i :: 0 <= i < |groups| ==> OneTable(groups[i]) && NamedTables(groups[i])
  }

  /** The groups are of different tables. */
  predicate TablesApart(groups: seq<seq<IrEntity>>)
  {
    forall i, j :: 0 <= i < j < |groups| ==> TableOfGroup(groups[i]) != TableOfGroup(groups[j])
  }

  lemma TableName(s: seq<IrEntity>, e: IrEntity)
    requires e in s
    ensures EntityToTableName(e) in TableNames(s)
  {
  }

  lemma {:induction false} FlattenHas(groups: seq<seq<IrEntity>>, i: nat, e: IrEntity)
    requires i < |groups| && e in groups[i]
    ensures e in Flatten(groups)
  {
    var n := |groups| - 1;
    if i < n {
      FlattenHas(groups[..n], i, e);
    }
  }

  lemma ByTableNamed(s: seq<IrEntity>)
    requires NamedTables(s)
    ensures NamedGroups(ByTable(s))
  {
    ByTablePartitions(s);
    var groups := ByTable(s);
    forall i | 0 <= i < |groups| ensures OneTable(groups[i]) && NamedTables(groups[i]) {
      assert groups[i] in groups;
      forall e | e in groups[i] ensures EntityToTableName(e).Some? && NamedTable(e) {
        FlattenHas(groups, i, e);
      }
    }
  }

  lemma GrowKeepsApart(groups: seq<seq<IrEntity>>, e: IrEntity)
    requires groups != [] && groups[|groups| - 1] != [] && TablesApart(groups)
    ensures TablesApart(groups[..|groups| - 1] + [groups[|groups| - 1] + [e]])
  {
    var n := |groups| - 1;
    var more := groups[..n] + [groups[n] + [e]];
    assert forall i :: 0 <= i < |more| ==> TableOfGroup(more[i]) == TableOfGroup(groups[i]);
  }

  lemma AddKeepsApart(groups: seq<seq<IrEntity>>, e: IrEntity)
    requires TablesApart(groups)
    requires forall i :: 0 <= i < |groups| ==> TableOfGroup(groups[i]) != EntityToTableName(e)
    ensures TablesApart(groups + [[e]])
  {
  }

  /** The tables of the groups are tables of the entities. */
  lemma GroupTableNamed(s: seq<IrEntity>, i: nat)
    requires i < |ByTable(s)|
    ensures TableOfGroup(ByTable(s)[i]) in TableNames(s)
  {
    ByTablePartitions(s);
    assert ByTable(s)[i] in ByTable(s);
    FlattenHas(ByTable(s), i, ByTable(s)[i][0]);
    TableName(s, ByTable(s)[i][0]);
  }

  lemma {:induction false} ByTableApart(s: seq<IrEntity>)
    requires Groupable(s)
    ensures TablesApart(ByTable(s))
  {
    if s != [] {
      var before, e := s[..|s| - 1], s[|s| - 1];
      assert s == before + [e];
      GroupablePrefix(before, [e]);
      GroupableExtends(before, e);
      ByTableApart(before);
      ByTableExtended(before, e, ByTable(before), ByTable(s));
    }
  }

  lemma ByTableStep(s: seq<IrEntity>, e: IrEntity, groups: seq<seq<IrEntity>>)
    requires groups == ByTable(s)
    ensures s != [] ==> groups != []
    ensures ByTable(s + [e])
            == if s != [] && EntityToTableName(e) == EntityToTableName(s[|s| - 1])
               then groups[..|groups| - 1] + [groups[|groups| - 1] + [e]]
               else groups + [[e]]
  {
    assert (s + [e])[..|s|] == s;
  }

  lemma ByTableExtended(s: seq<IrEntity>, e: IrEntity, groups: seq<seq<IrEntity>>, more: seq<seq<IrEntity>>)
    requires groups == ByTable(s) && more == ByTable(s + [e]) && TablesApart(groups)
    requires s == [] || EntityToTableName(e) == EntityToTableName(s[|s| - 1]) || EntityToTableName(e) !in TableNames(s)
    ensures TablesApart(more)
  {
    ByTableStep(s, e, groups);
    if s != [] && EntityToTableName(e) == EntityToTableName(s[|s| - 1]) {
      LastGroupNotEmpty(s);
      GrowKeepsApart(groups, e);
    } else {
      forall i | 0 <= i < |groups| ensures TableOfGroup(groups[i]) != EntityToTableName(e) {
        GroupTableNamed(s, i);
      }
      AddKeepsApart(groups, e);
    }
  }

  lemma LastGroupNotEmpty(s: seq<IrEntity>)
    requires s != []
    ensures ByTable(s)[|ByTable(s)| - 1] != []
  {
    ByTablePartitions(s);
    assert ByTable(s)[|ByTable(s)| - 1] in ByTable(s);
  }

  /** What other tables lose leaves a rejected entity of this table rejected. */
  lemma {:induction false} OtherTablesKeep(fails: set<IrEntity> -> bool, installed: set<IrEntity>,
                                           groups: seq<seq<IrEntity>>, e: IrEntity)
    requires StaysRejectedAcrossTables(fails) && fails(installed)
    requires NamedGroups(groups) && NamedTables([e])
    requires forall i :: 0 <= i < |groups| ==> TableOfGroup(groups[i]) != EntityToTableName(e)
    requires !fails(installed - {e}) && e in Sweep(fails, installed, groups).left
    ensures !fails(Sweep(fails, installed, groups).left - {e})
    decreases |groups|
  {
    if groups != [] {
      var n := |groups| - 1;
      var last := Bisect(fails, installed, groups[n]);
      BisectAchieves(fails, installed, groups[n]);
      SweepAchieves(fails, last.left, groups[..n]);
      assert e in [e];
      LossOfTable(installed, groups[n], last.left, e);
      assert StaysRejected(fails, installed, e, installed - last.left);
      RunKeeps(fails, installed, groups[n], last, e);
      OtherTablesKeep(fails, last.left, groups[..n], e);
    }
  }

  lemma LossOfTable(installed: set<IrEntity>, group: seq<IrEntity>, left: set<IrEntity>, e: IrEntity)
    requires OneTable(group) && NamedTables(group) && EntityToTableName(e).Some? && NamedTable(e)
    requires EntityToTableName(e) != TableOfGroup(group)
    requires forall o :: o in installed && o !in left ==> o in group
    ensures OfAnotherTable(e, installed - left)
  {
  }

  lemma {:induction false} SweepTablesMinimal(fails: set<IrEntity> -> bool, installed: set<IrEntity>,
                                              groups: seq<seq<IrEntity>>)
    requires StaysRejectedAcrossTables(fails) && TablesOneMinimal(fails) && fails(installed)
    requires NamedGroups(groups) && TablesApart(groups)
    ensures OneMinimal(fails, Flatten(groups), Sweep(fails, installed, groups).left)
    decreases |groups|
  {
    if groups != [] {
      var n := |groups| - 1;
      var last := Bisect(fails, installed, groups[n]);
      var left := Sweep(fails, last.left, groups[..n]).left;
      BisectAchieves(fails, installed, groups[n]);
      SweepAchieves(fails, last.left, groups[..n]);
      SweepTablesMinimal(fails, last.left, groups[..n]);
      forall e | e in groups[n] && e in left ensures !fails(left - {e}) {
        assert OneTable(groups[n]);
        OtherTablesKeep(fails, last.left, groups[..n], e);
      }
    }
  }

  /** The entities of one table form one group. */
  lemma {:induction false} OneGroup(group: seq<IrEntity>)
    requires OneTable(group)
    ensures ByTable(group) == [group]
  {
    var n := |group| - 1;
    if n > 0 {
      assert forall e :: e in group[..n] ==> e in group;
      OneGroup(group[..n]);
      assert group[n] in group && group[n - 1] in group;
      assert group == group[..n] + [group[n]];
    } else {
      assert group == [group[0]] && ByTable([]) == [];
    }
  }

  lemma OneTableGroupable(group: seq<IrEntity>)
    requires OneTable(group) && NamedTables(group)
    ensures Groupable(group)
  {
    forall i | 0 <= i < |group|
      ensures EntityToTableName(group[i]) == EntityToTableName(group[0]) && EntityToTableName(group[i]).Some?
    {
      assert group[i] in group;
    }
  }

  lemma GroupedAlone(fails: set<IrEntity> -> bool, installed: set<IrEntity>, group: seq<IrEntity>)
    requires OneTable(group) && NamedTables(group)
    ensures Groupable(group)
    ensures Sweep(fails, installed, ByTable(group)).left == Bisect(fails, installed, group).left
  {
    OneGroup(group);
    OneTableGroupable(group);
    var groups := [group];
    assert groups[..0] == [];
    assert Sweep(fails, Bisect(fails, installed, group).left, []).left == Bisect(fails, installed, group).left;
  }

  /** The others first and e last are a group each. */
  lemma GroupedWithOther(others: seq<IrEntity>, e: IrEntity)
    requires OneTable(others) && NamedTables(others) && NamedTables([e])
    requires EntityToTableName(e) != TableOfGroup(others)
    ensures Groupable(others + [e]) && ByTable(others + [e]) == [others, [e]]
  {
    OneGroup(others);
    OneTableGroupable(others);
    OneTableName(others);
    assert e in [e];
    GroupableExtends(others, e);
    assert (others + [e])[..|others|] == others;
    assert others[|others| - 1] in others;
  }

  lemma OneTableName(group: seq<IrEntity>)
    requires OneTable(group)
    ensures TableNames(group) == {TableOfGroup(group)}
  {
    TableName(group, group[0]);
  }

  /**
    The table-based algorithm, started on a failure, always leaves nothing removable exactly when each
    table on its own is bisected so, and rejected entities stay rejected when another table loses some.
   */
  lemma SweepByTableMinimalIff(fails: set<IrEntity> -> bool)
    ensures StaysRejectedAcrossTables(fails) && TablesOneMinimal(fails)
       <==> forall installed, s :: fails(installed) && Groupable(s) && NamedTables(s) ==>
              OneMinimal(fails, s, Sweep(fails, installed, ByTable(s)).left)
  {
    if StaysRejectedAcrossTables(fails) && TablesOneMinimal(fails) {
      forall installed, s | fails(installed) && Groupable(s) && NamedTables(s)
        ensures OneMinimal(fails, s, Sweep(fails, installed, ByTable(s)).left)
      {
        ByTableApart(s);
        ByTableNamed(s);
        ByTablePartitions(s);
        SweepTablesMinimal(fails, installed, ByTable(s));
      }
    } else if !TablesOneMinimal(fails) {
      var installed, group :| fails(installed) && OneTable(group) && NamedTables(group)
                              && !OneMinimal(fails, group, Bisect(fails, installed, group).left);
      GroupedAlone(fails, installed, group);
    } else {
      var installed, e, others :| OfAnotherTable(e, others) && !StaysRejected(fails, installed, e, others);
      OthersLeaveRemovable(fails, installed, e, others);
    }
  }

  lemma OthersLeaveRemovable(fails: set<IrEntity> -> bool, installed: set<IrEntity>, e: IrEntity, others: set<IrEntity>)
    requires OfAnotherTable(e, others) && !StaysRejected(fails, installed, e, others)
    ensures exists s ::
              Groupable(s) && NamedTables(s) && !OneMinimal(fails, s, Sweep(fails, installed, ByTable(s)).left)
  {
    NothingElse(fails, installed, e);
    var q := SequenceOfTable(e, others);
    GroupedWithOther(q, e);
    SweepLeavesRemovable(fails, installed, e, q);
    ByTablePartitions(q + [e]);
    assert NamedTables(q + [e]);
  }

  lemma SequenceOfTable(e: IrEntity, others: set<IrEntity>) returns (q: seq<IrEntity>)
    requires OfAnotherTable(e, others) && others != {}
    ensures SetOf(q) == others
    ensures OneTable(q) && NamedTables(q) && NamedTables([e]) && EntityToTableName(e) != TableOfGroup(q)
  {
    q := SequenceOf(others);
    assert SetOf([]) == {};
    assert q[0] in SetOf(q);
    forall o | o in q ensures o in others {
      assert o in SetOf(q);
    }
  }

  /** What the grouping loop knows after the relevant entities s. */
  ghost predicate Grouped(s: seq<IrEntity>, groups: seq<seq<IrEntity>>, seen: set<string>, current: string)
  {
    && Groupable(s)
    && groups == ByTable(s)
    && (forall name :: name in seen <==> Some(name) in TableNames(s))
    && (if s == [] then current == "" else Some(current) == EntityToTableName(s[|s| - 1]))
  }

  lemma GroupedSame(s: seq<IrEntity>, groups: seq<seq<IrEntity>>, seen: set<string>, current: string, e: IrEntity)
    requires Grouped(s, groups, seen, current)
    requires NamedTable(e) && EntityToTableName(e) == Some(current)
    ensures groups != []
    ensures Grouped(s + [e], groups[..|groups| - 1] + [groups[|groups| - 1] + [e]], seen, current)
  {
    assert s != [];
    assert (s + [e])[..|s|] == s;
    assert s[|s| - 1] in s;
    GroupableExtends(s, e);
    TableNamesExtend(s, e);
  }

  lemma GroupedNext(s: seq<IrEntity>, groups: seq<seq<IrEntity>>, seen: set<string>, current: string, e: IrEntity,
                    name: string)
    requires Grouped(s, groups, seen, current)
    requires EntityToTableName(e) == Some(name) && name != current && name !in seen
    ensures Grouped(s + [e], groups + [[e]], seen + {name}, name)
  {
    assert (s + [e])[..|s|] == s;
    GroupableExtends(s, e);
    TableNamesExtend(s, e);
  }

  lemma GroupedStops(s: seq<IrEntity>, groups: seq<seq<IrEntity>>, seen: set<string>, current: string,
                     e: IrEntity, rest: seq<IrEntity>)
    requires Grouped(s, groups, seen, current)
    requires var name := EntityToTableName(e); name == None || (name.value != current && name.value in seen)
    ensures !Groupable(s + [e] + rest)
  {
    GroupableExtends(s, e);
    if s == [] {
      assert TableNames(s) == {};
    }
    if Groupable(s + [e] + rest) {
      GroupablePrefix(s + [e], rest);
    }
  }

  /** Groups consecutive entities of the same table; refuses a table that comes back after another. */
  method GroupByTable(entities: seq<IrEntity>) returns (status: StatusCode, groups: seq<seq<IrEntity>>)
    requires forall e :: e in entities ==> NamedTable(e)
    ensures status == if Groupable(Relevant(entities)) then Ok else InvalidArgument
    ensures status == Ok ==> groups == ByTable(Relevant(entities))
    ensures status == Ok ==> forall e :: e in entities ==> !e.ReplicationTypeNotSet?
    ensures status == Ok ==> forall e :: (exists g :: g in groups && e in g) <==> e in entities && !e.EntityNotSet?
  {
    groups := [];
    var seen: set<string> := {};
    var current := "";
    ghost var s: seq<IrEntity> := [];
    for i := 0 to |entities|
      invariant s == Relevant(entities[..i])
      invariant Grouped(s, groups, seen, current)
    {
      var entity := entities[i];
      RelevantExtends(entities, i);
      if !HasTable(entity) {
        continue;
      }
      var name := EntityToTableName(entity);
      if name == None {
        GroupedStops(s, groups, seen, current, entity, Relevant(entities[i + 1..]));
        return InvalidArgument, [];
      }
      if name.value == current {
        GroupedSame(s, groups, seen, current, entity);
        groups := groups[..|groups| - 1] + [groups[|groups| - 1] + [entity]];
      } else if name.value in seen {
        GroupedStops(s, groups, seen, current, entity, Relevant(entities[i + 1..]));
        return InvalidArgument, [];
      } else {
        GroupedNext(s, groups, seen, current, entity, name.value);
        seen := seen + {name.value};
        current := name.value;
        groups := groups + [[entity]];
      }
      s := s + [entity];
    }
    assert entities[..|entities|] == entities;
    GroupedMembers(entities, groups);
    status := Ok;
  }

  lemma GroupedMembers(entities: seq<IrEntity>, groups: seq<seq<IrEntity>>)
    requires Groupable(Relevant(entities)) && groups == ByTable(Relevant(entities))
    ensures forall e :: e in entities ==> !e.ReplicationTypeNotSet?
    ensures forall e :: (exists g :: g in groups && e in g) <==> e in entities && !e.EntityNotSet?
  {
    RelevantMembers(entities);
    ByTablePartitions(Relevant(entities));
    forall e | e in Relevant(entities) ensures EntityToTableName(e).Some? {
      var i :| 0 <= i < |Relevant(entities)| && Relevant(entities)[i] == e;
    }
    forall e ensures (exists g :: g in groups && e in g) <==> e in entities && !e.EntityNotSet? {
      InSomeGroup(groups, e);
    }
  }

  lemma {:induction false} InSomeGroup(groups: seq<seq<IrEntity>>, e: IrEntity)
    ensures e in Flatten(groups) <==> exists g :: g in groups && e in g
  {
    if groups != [] {
      var n := |groups| - 1;
      InSomeGroup(groups[..n], e);
      assert groups == groups[..n] + [groups[n]];
    }
  }

  lemma RelevantExtends(entities: seq<IrEntity>, i: nat)
    requires i < |entities|
    ensures Relevant(entities[..i + 1])
            == Relevant(entities[..i]) + (if HasTable(entities[i]) then [entities[i]] else [])
    ensures Relevant(entities) == Relevant(entities[..i + 1]) + Relevant(entities[i + 1..])
  {
    assert entities[..i + 1] == entities[..i] + [entities[i]];
    FilterConcat(HasTable, entities[..i], [entities[i]]);
    assert entities == entities[..i + 1] + entities[i + 1..];
    FilterConcat(HasTable, entities[..i + 1], entities[i + 1..]);
  }

  // ----- the minimizer -----

  /** The testbed at one point of the minimization. */
  datatype Moment = Moment(log: seq<Trial>, calls: nat, installed: set<IrEntity>)

  /** Between two moments the run was carried out in full, or up to a call that ended in an error. */
  ghost predicate CarriedOut(faults: nat -> bool, before: Moment, run: Run, after: Moment, status: StatusCode)
  {
    && (status == Ok || status == Unknown)
    && before.log <= after.log
    && (status == Ok ==>
          && after.log == before.log + run.trials
          && after.calls == before.calls + |run.trials|
          && after.installed == run.left
          && forall k :: before.calls <= k < after.calls ==> !faults(k))
    && (status == Unknown ==>
          && after.log < before.log + run.trials
          && after.calls == before.calls + |after.log| - |before.log| + 1
          && faults(after.calls - 1))
  }

  lemma CarriedThen(faults: nat -> bool, s: Moment, a: Run, t: Moment, b: Run, u: Moment, status: StatusCode)
    requires CarriedOut(faults, s, a, t, Ok)
    requires CarriedOut(faults, t, b, u, status)
    ensures CarriedOut(faults, s, Then(a, b), u, status)
  {
  }

  lemma CarriedNotThen(faults: nat -> bool, s: Moment, a: Run, t: Moment, b: Run)
    requires CarriedOut(faults, s, a, t, Unknown)
    ensures CarriedOut(faults, s, Then(a, b), t, Unknown)
  {
  }

  lemma ThenAssociative(a: Run, b: Run, c: Run)
    ensures Then(Then(a, b), c) == Then(a, Then(b, c))
  {
  }

  /**
    The callback and what it acts on. `fails` says whether the test fails with exactly the given
    entities installed; `faults` says which calls end in an error instead of an answer.
   */
  class Testbed {
    const fails: set<IrEntity> -> bool
    const faults: nat -> bool
    var installed: set<IrEntity>
    var calls: nat
    ghost var log: seq<Trial>

    constructor (fails: set<IrEntity> -> bool, faults: nat -> bool, installed: set<IrEntity>)
      ensures this.fails == fails && this.faults == faults && this.installed == installed
      ensures calls == 0 && log == []
    {
      this.fails := fails;
      this.faults := faults;
      this.installed := installed;
      calls := 0;
      log := [];
    }

    /** Removes the entities if the test still fails without them, and otherwise leaves them installed. */
    method TestIfEntitiesCanBeRemoved(entities: seq<IrEntity>) returns (r: Option<bool>)
      modifies this
      ensures calls == old(calls) + 1
      ensures r.None? <==> faults(old(calls))
      ensures r.None? ==> log == old(log)
      ensures r.Some? ==>
                var run := Try(fails, old(installed), entities);
                log == old(log) + run.trials && installed == run.left && r.value == run.trials[0].removed
    {
      calls := calls + 1;
      if faults(calls - 1) {
        installed := *;
        return None;
      }
      var without := installed - SetOf(entities);
      r := Some(fails(without));
      log := log + [Trial(installed, entities, r.value)];
      if r.value {
        installed := without;
      }
    }

    ghost function Now(): Moment
      reads this
    {
      Moment(log, calls, installed)
    }

    /** Bisection of one group. */
    method TryToDeleteAndBisect(entities: seq<IrEntity>) returns (status: StatusCode)
      modifies this
      ensures CarriedOut(faults, old(Now()), Bisect(fails, old(installed), entities), Now(), status)
      decreases |entities|, 1
    {
      if |entities| == 0 {
        return Ok;
      }
      ghost var start := Now();
      var canBeRemoved := TestIfEntitiesCanBeRemoved(entities);
      if canBeRemoved == None {
        BisectMakesATrial(fails, start.installed, entities);
        return Unknown;
      }
      if canBeRemoved.value || |entities| == 1 {
        return Ok;
      }
      var first, second := SplitInHalf(entities);
      ghost var wholeTried := Now();
      BisectInHalves(fails, start.installed, entities, first, second);
      status := BisectHalves(first, second);
      CarriedThen(faults, start, Try(fails, start.installed, entities), wholeTried,
                  Halves(fails, wholeTried.installed, first, second), Now(), status);
    }

    method BisectHalves(first: seq<IrEntity>, second: seq<IrEntity>) returns (status: StatusCode)
      requires first != [] && second != []
      modifies this
      ensures CarriedOut(faults, old(Now()), Halves(fails, old(installed), first, second), Now(), status)
      decreases |first| + |second|, 0
    {
      ghost var start := Now();
      ghost var later := Bisect(fails, start.installed, second);
      ghost var earlier := Bisect(fails, later.left, first);
      status := TryToDeleteAndBisect(second);
      if status != Ok {
        CarriedNotThen(faults, start, later, Now(), earlier);
        return;
      }
      ghost var secondDone := Now();
      status := TryToDeleteAndBisect(first);
      CarriedThen(faults, start, later, secondDone, earlier, Now(), status);
    }

    /** Every table's entities, last table first. */
    method TableBasedBisection(entities: seq<IrEntity>) returns (status: StatusCode)
      requires forall e :: e in entities ==> NamedTable(e)
      modifies this
      ensures !Groupable(Relevant(entities)) ==> status == InvalidArgument && Now() == old(Now())
      ensures Groupable(Relevant(entities)) ==>
                CarriedOut(faults, old(Now()), Sweep(fails, old(installed), ByTable(Relevant(entities))), Now(), status)
    {
      var groups;
      status, groups := GroupByTable(entities);
      if status != Ok {
        return;
      }
      status := BisectGroups(groups);
    }

    method BisectGroups(groups: seq<seq<IrEntity>>) returns (status: StatusCode)
      modifies this
      ensures CarriedOut(faults, old(Now()), Sweep(fails, old(installed), groups), Now(), status)
    {
      ghost var start := Now();
      ghost var all := Sweep(fails, installed, groups);
      ghost var done := Run([], installed);
      assert groups[..|groups|] == groups;
      var reversed := Reverse(groups);
      for i := 0 to |reversed|
        invariant CarriedOut(faults, start, done, Now(), Ok)
        invariant all == Then(done, Sweep(fails, installed, groups[..|groups| - i]))
      {
        ghost var rest := groups[..|groups| - i];
        assert rest[..|rest| - 1] == groups[..|groups| - i - 1];
        ghost var here := Now();
        ghost var group := Bisect(fails, installed, reversed[i]);
        ghost var others := Sweep(fails, group.left, groups[..|groups| - i - 1]);
        status := TryToDeleteAndBisect(reversed[i]);
        CarriedThen(faults, start, done, here, group, Now(), status);
        ThenAssociative(done, group, others);
        done := Then(done, group);
        if status != Ok {
          CarriedNotThen(faults, start, done, Now(), others);
          return;
        }
      }
      assert groups[..0] == [];
      status := Ok;
    }

    /** Every entity on its own, last entity first. */
    method RemoveEntitiesOneByOne(entities: seq<IrEntity>) returns (status: StatusCode)
      modifies this
      ensures CarriedOut(faults, old(Now()), OneByOne(fails, old(installed), entities), Now(), status)
    {
      ghost var start := Now();
      ghost var all := OneByOne(fails, installed, entities);
      ghost var done := Run([], installed);
      var i := |entities| - 1;
      assert entities[..i + 1] == entities;
      while i >= 0
        invariant -1 <= i < |entities|
        invariant CarriedOut(faults, start, done, Now(), Ok)
        invariant all == Then(done, OneByOne(fails, installed, entities[..i + 1]))
      {
        ghost var here := Now();
        ghost var one := Try(fails, installed, [entities[i]]);
        ghost var others := OneByOne(fails, one.left, entities[..i]);
        assert entities[..i + 1][..i] == entities[..i];
        ThenAssociative(done, one, others);
        var canBeRemoved := TestIfEntitiesCanBeRemoved([entities[i]]);
        if canBeRemoved == None {
          CarriedThen(faults, start, done, here, one, Now(), Unknown);
          CarriedNotThen(faults, start, Then(done, one), Now(), others);
          return Unknown;
        }
        CarriedThen(faults, start, done, here, one, Now(), Ok);
        done := Then(done, one);
        i := i - 1;
      }
      status := Ok;
    }

    method DoEntityMinimization(entities: seq<IrEntity>, algorithm: MinimizationAlgorithm) returns (status: StatusCode)
      requires forall e :: e in entities ==> NamedTable(e)
      modifies this
      ensures status == Ok ==>
                && old(log) <= log
                && Achieves(fails, old(installed), Candidates(entities, algorithm), Run(log[|old(log)|..], installed))
      ensures status == Ok ==>
                Run(log[|old(log)|..], installed)
                == if algorithm == TableBasedBisectionAlgorithm
                   then Sweep(fails, old(installed), ByTable(Relevant(entities)))
                   else OneByOne(fails, old(installed), entities)
      ensures algorithm == RemoveEntitiesOneByOneAlgorithm ==> calls - old(calls) <= |entities|
      ensures algorithm == TableBasedBisectionAlgorithm && Groupable(Relevant(entities)) ==>
                calls - old(calls) <= 2 * |Relevant(entities)| - |TableNames(Relevant(entities))|
      ensures algorithm == UnknownAlgorithm
              || (algorithm == TableBasedBisectionAlgorithm && !Groupable(Relevant(entities)))
              ==> status == InvalidArgument && Now() == old(Now())
    {
      match algorithm
      case TableBasedBisectionAlgorithm =>
        status := TableBasedBisection(entities);
        ghost var s := Relevant(entities);
        if Groupable(s) {
          SweepByTable(fails, old(installed), s);
          CarriedTrials(faults, old(Now()), Sweep(fails, old(installed), ByTable(s)), Now(), status);
        }
      case RemoveEntitiesOneByOneAlgorithm =>
        status := RemoveEntitiesOneByOne(entities);
        OneByOneAchieves(fails, old(installed), entities);
        OneByOneCost(fails, old(installed), entities);
        CarriedTrials(faults, old(Now()), OneByOne(fails, old(installed), entities), Now(), status);
      case UnknownAlgorithm =>
        status := InvalidArgument;
    }
  }

  function Candidates(entities: seq<IrEntity>, algorithm: MinimizationAlgorithm): seq<IrEntity>
  {
    if algorithm == TableBasedBisectionAlgorithm then Relevant(entities) else entities
  }

  lemma CarriedTrials(faults: nat -> bool, s: Moment, run: Run, t: Moment, status: StatusCode)
    requires CarriedOut(faults, s, run, t, status)
    ensures t.calls - s.calls <= |run.trials|
    ensures status == Ok ==> t.log[|s.log|..] == run.trials && run == Run(t.log[|s.log|..], t.installed)
  {
  }

  lemma BisectInHalves(fails: set<IrEntity> -> bool, installed: set<IrEntity>, entities: seq<IrEntity>,
                       first: seq<IrEntity>, second: seq<IrEntity>)
    requires |entities| > 1 && !Try(fails, installed, entities).trials[0].removed
    requires first == entities[..|entities| / 2] && second == entities[|entities| / 2..]
    ensures var whole := Try(fails, installed, entities);
            Bisect(fails, installed, entities) == Then(whole, Halves(fails, whole.left, first, second))
  {
  }

  lemma BisectMakesATrial(fails: set<IrEntity> -> bool, installed: set<IrEntity>, entities: seq<IrEntity>)
    requires entities != []
    ensures |Bisect(fails, installed, entities).trials| > 0
  {
  }

  method SplitInHalf<T>(s: seq<T>) returns (first: seq<T>, second: seq<T>)
    ensures first == s[..|s| / 2] && second == s[|s| / 2..]
  {
    first, second := [], [];
    var half := |s| / 2;
    for counter := 0 to |s|
      invariant first == s[..if counter < half then counter else half]
      invariant second == s[half..if counter < half then half else counter]
    {
      if counter < half {
        first := first + [s[counter]];
      } else {
        second := second + [s[counter]];
      }
    }
  }

  method Reverse<T>(s: seq<T>) returns (r: seq<T>)
    ensures |r| == |s|
    ensures forall i :: 0 <= i < |s| ==> r[i] == s[|s| - 1 - i]
  {
    r := [];
    for i := 0 to |s|
      invariant |r| == i
      invariant forall j :: 0 <= j < i ==> r[j] == s[|s| - 1 - j]
    {
      r := r + [s[|s| - 1 - i]];
    }
  }
}
