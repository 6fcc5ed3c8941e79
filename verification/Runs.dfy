/**
  Whole runs of a SwitchState: any finite sequence of updates and clears in which every update
  is accepted, started from a fresh object.
 */
module Runs {
  import opened Common
  import opened P4Entries
  import opened StateModel
  import opened Statistics

  datatype Operation = Do(u: Update) | Clear

  /** A state, the statistics kept for it, and every state there has been. */
  datatype Configuration = Configuration(state: State, books: Books, history: seq<State>)

  function Start(info: P4Info): Configuration
  {
    Configuration(
      EmptyState(info),
      Books(ZeroStats(info), map t | t in info.tables :: NO_PEAKS,
            0, 0, NO_RESOURCES, NO_PEAKS),
      [EmptyState(info)])
  }

  function Cleared(info: P4Info, c: Configuration): Configuration
  {
    Configuration(
      EmptyState(info),
      ClearedBooks(info, c.books),
      c.history + [EmptyState(info)])
  }

  /** One operation, as SwitchState performs it; None when the update is refused. */
  function Step(info: P4Info, c: Configuration, op: Operation): Option<Configuration>
  {
    match op
    case Clear => Some(Cleared(info, c))
    case Do(u) =>
      var next := Apply(info, c.state, u);
      if next == None || !Bookable(info, c, u) then None
      else Some(Configuration(next.value, BookUpdate(info, c.books, c.state, u), c.history + [next.value]))
  }

  predicate Bookable(info: P4Info, c: Configuration, u: Update)
  {
    c.books.ForTables(info) && Subject(info, u).Some?
    && (Subject(info, u).value.TableEntity? ==> Subject(info, u).value.entry.tableId in info.tables)
  }

  function Run(info: P4Info, c: Configuration, ops: seq<Operation>): Option<Configuration>
    decreases |ops|
  {
    if ops == [] then Some(c)
    else
      var c' := Step(info, c, ops[0]);
      if c' == None then None else Run(info, c'.value, ops[1..])
  }

  ghost predicate Exact(info: P4Info, c: Configuration)
  {
    WellFormed(info, c.state) && BooksExact(info, c.books, c.state, c.history)
  }

  lemma StartExact(info: P4Info)
    ensures Exact(info, Start(info))
  {
    EmptyMeasures(info);
    var c := Start(info);
    forall t | t in info.tables ensures TableBooked(c.books, c.state, c.history, t) {
    }
  }

  /** A step is refused only when the update does not apply, and exactness survives it. */
  lemma StepExact(info: P4Info, c: Configuration, op: Operation)
    requires Exact(info, c)
    ensures op.Do? ==> (Step(info, c, op).Some? <==> Apply(info, c.state, op.u).Some?)
    ensures Step(info, c, op).Some? ==> Exact(info, Step(info, c, op).value)
    ensures Step(info, c, op).Some? ==>
              Some(Step(info, c, op).value.state)
              == match op { case Clear => Some(EmptyState(info)) case Do(u) => Apply(info, c.state, u) }
  {
    match op
    case Clear =>
      EmptyIsWellFormed(info);
      ClearedBooksExact(info, c.books, c.state, c.history);
    case Do(u) =>
      if Apply(info, c.state, u).Some? {
        BookExact(info, c.books, c.state, c.history, u);
        ApplyKeepsWellFormed(info, c.state, u);
      }
  }

  /** Every state reached by a run is well formed, with exact statistics and exact high-water marks. */
  lemma {:induction false} RunExact(info: P4Info, c: Configuration, ops: seq<Operation>)
    requires Exact(info, c) && Run(info, c, ops).Some?
    ensures Exact(info, Run(info, c, ops).value)
    decreases |ops|
  {
    if ops != [] {
      StepExact(info, c, ops[0]);
      RunExact(info, Step(info, c, ops[0]).value, ops[1..]);
    }
  }

  /** The history holds the state before the first operation and after each one. */
  lemma {:induction false} HistoryOfRun(info: P4Info, c: Configuration, ops: seq<Operation>, i: nat)
    requires Run(info, c, ops).Some? && i <= |ops| && EndsIn(c.history, c.state)
    ensures Run(info, c, ops[..i]).Some?
    ensures |Run(info, c, ops).value.history| == |c.history| + |ops|
    ensures Run(info, c, ops).value.history[|c.history| - 1 + i] == Run(info, c, ops[..i]).value.state
    ensures c.history <= Run(info, c, ops).value.history
    decreases |ops|
  {
    if ops != [] {
      var next := Step(info, c, ops[0]).value;
      HistoryOfRun(info, next, ops[1..], if i == 0 then 0 else i - 1);
      if i == 0 {
        assert ops[..0] == [];
      } else {
        assert ops[..i][1..] == ops[1..][..i - 1];
      }
    }
  }

  /**
    The high-water marks after any run, spelled out for one table: each is an upper bound of its
    statistic over every state of the run, and each is reached in some state (or is 0).
   */
  lemma HighWaterMarks(info: P4Info, ops: seq<Operation>, t: int)
    requires Run(info, Start(info), ops).Some? && t in info.tables
    ensures var c := Run(info, Start(info), ops).value;
            t in c.books.peakStats
            && var p := c.books.peakStats[t];
               IsHighWaterMark(p.entries, c.history, TableEntries(t))
               && IsHighWaterMark(p.totalWeight, c.history, TableWeight(t))
               && IsHighWaterMark(p.totalMembers, c.history, TableMembers(t))
               && IsHighWaterMark(p.maxGroupWeight, c.history, LargestGroupWeight(t))
               && IsHighWaterMark(p.maxMembersPerGroup, c.history, LargestGroupMembers(t))
               && IsHighWaterMark(c.books.peakEntriesSeen, c.history, AllEntries)
  {
    StartExact(info);
    RunExact(info, Start(info), ops);
    var c := Run(info, Start(info), ops).value;
    Unbook(info, c.books, c.state, c.history);
    assert TableBooked(c.books, c.state, c.history, t);
    PeakIsMaximum(c.history, TableEntries(t));
    PeakIsMaximum(c.history, TableWeight(t));
    PeakIsMaximum(c.history, TableMembers(t));
    PeakIsMaximum(c.history, LargestGroupWeight(t));
    PeakIsMaximum(c.history, LargestGroupMembers(t));
    PeakIsMaximum(c.history, AllEntries);
  }

  ghost predicate IsHighWaterMark(p: int, history: seq<State>, m: Measure)
  {
    (forall i :: 0 <= i < |history| ==> Of(history[i], m) <= p)
    && (p == 0 || exists i :: 0 <= i < |history| && Of(history[i], m) == p)
  }

  lemma MulticastHighWaterMarks(info: P4Info, ops: seq<Operation>)
    requires Run(info, Start(info), ops).Some?
    ensures var c := Run(info, Start(info), ops).value;
            IsHighWaterMark(c.books.multicastPeaks.entries, c.history, MulticastEntries)
            && IsHighWaterMark(c.books.multicastPeaks.totalMembers, c.history, Replicas)
            && IsHighWaterMark(c.books.multicastPeaks.maxMembersPerGroup, c.history, LargestReplicaCount)
  {
    StartExact(info);
    RunExact(info, Start(info), ops);
    var c := Run(info, Start(info), ops).value;
    Unbook(info, c.books, c.state, c.history);
    PeakIsMaximum(c.history, MulticastEntries);
    PeakIsMaximum(c.history, Replicas);
    PeakIsMaximum(c.history, LargestReplicaCount);
  }
}
