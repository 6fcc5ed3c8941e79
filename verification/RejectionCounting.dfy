/**
  When answers of RESOURCE_EXHAUSTED have an explanation, by counting. A key comes and goes; a
  rejected INSERT needs a moment at which its own key is absent and its table is full. What bounds
  the fullness is how many of the rejected keys must be absent at the same time.
 */
module RejectionCounting {
  import opened Common
  import opened P4Entries
  import opened StateModel
  import opened StateComparison
  import opened OracleModel
  import opened OracleCounting
  import opened ExhaustionCheck

  // ----- how often a key comes and goes -----

  /** Successful INSERTs. */
  function Starts(g: seq<Answered>): nat
  {
    |Filter((x: Answered) => x.status == Ok && x.kind.Insert?, g)|
  }

  /** Successful DELETEs. */
  function Stops(g: seq<Answered>): nat
  {
    |Filter((x: Answered) => x.status == Ok && x.kind.Delete?, g)|
  }

  lemma StartsConcat(a: seq<Answered>, b: seq<Answered>)
    ensures Starts(a + b) == Starts(a) + Starts(b)
    ensures Stops(a + b) == Stops(a) + Stops(b)
  {
    FilterConcat((x: Answered) => x.status == Ok && x.kind.Insert?, a, b);
    FilterConcat((x: Answered) => x.status == Ok && x.kind.Delete?, a, b);
  }

  lemma StartsPermute(a: seq<Answered>, b: seq<Answered>)
    requires Permutation(a, b)
    ensures Starts(a) == Starts(b) && Stops(a) == Stops(b)
  {
    FilterPermutes((x: Answered) => x.status == Ok && x.kind.Insert?, a, b);
    FilterPermutes((x: Answered) => x.status == Ok && x.kind.Delete?, a, b);
    PermutationMembers(Filter((x: Answered) => x.status == Ok && x.kind.Insert?, a),
                       Filter((x: Answered) => x.status == Ok && x.kind.Insert?, b));
    PermutationMembers(Filter((x: Answered) => x.status == Ok && x.kind.Delete?, a),
                       Filter((x: Answered) => x.status == Ok && x.kind.Delete?, b));
  }

  lemma StartsOfOne(x: Answered)
    ensures Starts([x]) == Bit(x.status == Ok && x.kind.Insert?)
    ensures Stops([x]) == Bit(x.status == Ok && x.kind.Delete?)
  {
    assert [x] + [] == [x];
    FilterHead((x: Answered) => x.status == Ok && x.kind.Insert?, x, []);
    FilterHead((x: Answered) => x.status == Ok && x.kind.Delete?, x, []);
  }

  predicate OkKinds(g: seq<Answered>)
  {
    forall x :: x in g && x.status == Ok ==> x.kind.Insert? || x.kind.Delete?
  }

  // ----- presence along a run -----

  lemma {:induction false} FinalPresenceConcat(info: P4Info, present: bool, a: seq<Answered>, b: seq<Answered>)
    ensures FinalPresence(info, present, a + b) == FinalPresence(info, FinalPresence(info, present, a), b)
    decreases |a|
  {
    if a == [] {
      assert a + b == b;
    } else {
      assert (a + b)[1..] == a[1..] + b;
      FinalPresenceConcat(info, PresentAfter(info, present, a[0]), a[1..], b);
    }
  }

  lemma {:induction false} KeyRunConcat(info: P4Info, present: bool, a: seq<Answered>, b: seq<Answered>)
    ensures KeyRun(info, present, a + b)
       <==> KeyRun(info, present, a) && KeyRun(info, FinalPresence(info, present, a), b)
    decreases |a|
  {
    if a == [] {
      assert a + b == b;
    } else {
      assert (a + b)[1..] == a[1..] + b;
      KeyRunConcat(info, PresentAfter(info, present, a[0]), a[1..], b);
    }
  }

  /** Presence needs a start, absence after presence needs a stop. */
  lemma {:induction false} PresenceNeeds(info: P4Info, present: bool, g: seq<Answered>)
    requires OkKinds(g)
    ensures FinalPresence(info, present, g) ==> present || Starts(g) > 0
    ensures !FinalPresence(info, present, g) && (present || Starts(g) > 0) ==> Stops(g) > 0
    decreases |g|
  {
    if g != [] {
      assert g[0] in g && forall x :: x in g[1..] ==> x in g;
      PresenceNeeds(info, PresentAfter(info, present, g[0]), g[1..]);
      assert g == [g[0]] + g[1..];
      StartsConcat([g[0]], g[1..]);
      StartsOfOne(g[0]);
    }
  }

  lemma GroupConcat(a: seq<Answered>, b: seq<Answered>, k: TableEntryKey)
    ensures Group(a + b, k) == Group(a, k) + Group(b, k)
  {
    FilterConcat(x => KeyFor(x) == k, a, b);
  }

  /** One step of a legal run, rejections included, seen from one key. */
  lemma PresentAfterStep(info: P4Info, s: State, x: Answered, k: TableEntryKey)
    requires Admissible(info, x) && Accepts(info, s, x)
    ensures Present(After(info, s, x), k)
            == if KeyFor(x) == k then PresentAfter(info, Present(s, k), x) else Present(s, k)
  {
    if x.status != ResourceExhausted {
      StepIsLocal(info, s, x);
    }
  }

  /** What is present after a legal run depends on the updates of each key alone. */
  lemma {:induction false} PresentAfterRun(info: P4Info, s: State, r: seq<Answered>, k: TableEntryKey)
    requires forall x :: x in r ==> Admissible(info, x)
    requires LegalRun(info, s, r)
    ensures Present(AfterAll(info, s, r), k) == FinalPresence(info, Present(s, k), Group(r, k))
    decreases |r|
  {
    if r != [] {
      assert r[0] in r && forall x :: x in r[1..] ==> x in r;
      PresentAfterStep(info, s, r[0], k);
      PresentAfterRun(info, After(info, s, r[0]), r[1..], k);
      assert r == [r[0]] + r[1..];
      GroupConcat([r[0]], r[1..], k);
      assert Group([r[0]], k) == if KeyFor(r[0]) == k then [r[0]] else [];
      FinalPresenceConcat(info, Present(s, k), Group([r[0]], k), Group(r[1..], k));
    }
  }

  lemma {:induction false} WellFormedAfter(info: P4Info, s: State, r: seq<Answered>)
    requires WellFormed(info, s) && OkKinds(r)
    ensures WellFormed(info, AfterAll(info, s, r))
    decreases |r|
  {
    if r != [] {
      assert r[0] in r && forall x :: x in r[1..] ==> x in r;
      OccupancyStep(info, s, r[0], 0);
      WellFormedAfter(info, After(info, s, r[0]), r[1..]);
    }
  }

  // ----- the keys of a table over a whole batch -----

  /** How many separate times the key is present. */
  function Episodes(s: State, xs: seq<Answered>, k: TableEntryKey): nat
  {
    (if Present(s, k) then 1 else 0) + Starts(Group(xs, k))
  }

  /** The key is absent at some time. */
  predicate SometimesAbsent(s: State, xs: seq<Answered>, k: TableEntryKey)
  {
    !Present(s, k) || Stops(Group(xs, k)) > 0
  }

  function KeysOf(xs: seq<Answered>): set<TableEntryKey>
  {
    set i | 0 <= i < |xs| :: KeyFor(xs[i])
  }

  /** The keys of table t that are present at some time: stored ones and successfully inserted ones. */
  function EverPresent(s: State, xs: seq<Answered>, t: int): set<TableEntryKey>
  {
    set k | k in TableOf(s, t).Keys + KeysOf(xs) && k.tableId == t && Episodes(s, xs, k) > 0
  }

  /** The keys of table t with a rejection. */
  function RejectedKeys(xs: seq<Answered>, t: int): set<TableEntryKey>
  {
    set i | 0 <= i < |xs| && xs[i].status == ResourceExhausted && xs[i].entry.tableId == t :: KeyFor(xs[i])
  }

  /** Rejected keys that are present once: the rejection is before or after that. */
  function SingleEpisode(s: State, xs: seq<Answered>, t: int): set<TableEntryKey>
  {
    set k | k in RejectedKeys(xs, t) && Episodes(s, xs, k) == 1
  }

  /** Among them, those that come and stay, so that the rejection is before. */
  function Arriving(s: State, xs: seq<Answered>, t: int): set<TableEntryKey>
  {
    set k | k in SingleEpisode(s, xs, t) && !Present(s, k) && Stops(Group(xs, k)) == 0
  }

  /** Among them, those that are there and leave, so that the rejection is after. */
  function Leaving(s: State, xs: seq<Answered>, t: int): set<TableEntryKey>
  {
    set k | k in SingleEpisode(s, xs, t) && Present(s, k)
  }

  /** How many of the keys that are ever present in the table may be absent while it is full. */
  function Slack(info: P4Info, s: State, xs: seq<Answered>, t: int): int
    requires t in info.tables
  {
    |EverPresent(s, xs, t)| - info.tables[t].size
  }

  /** The counting test for a table with rejections. */
  predicate TableFits(info: P4Info, s: State, xs: seq<Answered>, t: int)
    requires t in info.tables
  {
    var slack := Slack(info, s, xs, t);
    && 0 <= slack
    && (RejectedKeys(xs, t) * EverPresent(s, xs, t) != {} ==> 1 <= slack)
    && |Arriving(s, xs, t)| <= slack
    && |Leaving(s, xs, t)| <= slack
    && |SingleEpisode(s, xs, t)| <= 2 * slack
  }

  /** Every rejection is of an INSERT whose key is absent at some time, into a table that passes the test. */
  predicate RejectionsFit(info: P4Info, s: State, xs: seq<Answered>)
    requires KnownTables(info, xs)
  {
    forall x :: x in xs && x.status == ResourceExhausted ==>
      && IsWellformed(info, x) && x.kind.Insert?
      && SometimesAbsent(s, xs, KeyFor(x))
      && TableFits(info, s, xs, x.entry.tableId)
  }

  lemma KeysOfMember(xs: seq<Answered>, x: Answered)
    requires x in xs
    ensures KeyFor(x) in KeysOf(xs)
    ensures x.status == ResourceExhausted ==> KeyFor(x) in RejectedKeys(xs, x.entry.tableId)
  {
  }

  lemma RejectionOf(xs: seq<Answered>, t: int, k: TableEntryKey) returns (x: Answered)
    requires k in RejectedKeys(xs, t)
    ensures x in xs && x.status == ResourceExhausted && KeyFor(x) == k && k.tableId == x.entry.tableId == t
  {
    var i :| 0 <= i < |xs| && xs[i].status == ResourceExhausted && xs[i].entry.tableId == t && KeyFor(xs[i]) == k;
    x := xs[i];
  }

  /** A key with a start is a key of the batch. */
  lemma StartedKey(xs: seq<Answered>, k: TableEntryKey)
    requires Group(xs, k) != []
    ensures k in KeysOf(xs)
  {
    GroupMembers(xs, k);
    assert Group(xs, k)[0] in Group(xs, k);
  }

  lemma EverPresentMember(info: P4Info, s: State, xs: seq<Answered>, t: int, k: TableEntryKey)
    requires WellFormed(info, s)
    ensures k in EverPresent(s, xs, t) <==> k.tableId == t && Episodes(s, xs, k) > 0
  {
    if k.tableId == t && Starts(Group(xs, k)) > 0 {
      StartedKey(xs, k);
    }
  }

  // ----- why the test is necessary -----

  lemma LeastIndex(holds: nat -> bool, n: nat) returns (m: nat)
    requires holds(n)
    ensures m <= n && holds(m) && forall i :: 0 <= i < m ==> !holds(i)
  {
    m := 0;
    while !holds(m)
      invariant m <= n && forall i :: 0 <= i < m ==> !holds(i)
      decreases n - m
    {
      m := m + 1;
    }
  }

  lemma GreatestIndex(holds: nat -> bool, n: nat, bound: nat) returns (m: nat)
    requires n < bound && holds(n)
    ensures n <= m < bound && holds(m) && forall i :: m < i < bound ==> !holds(i)
  {
    m := bound - 1;
    while !holds(m)
      invariant n <= m < bound && forall i :: m < i < bound ==> !holds(i)
      decreases m - n
    {
      m := m - 1;
    }
  }

  /** A legal order r of the batch xs. */
  ghost predicate Explains(info: P4Info, s: State, xs: seq<Answered>, r: seq<Answered>)
  {
    && WellFormed(info, s)
    && (forall x :: x in xs ==> Admissible(info, x))
    && (forall x :: x in r ==> Admissible(info, x))
    && OkKinds(r)
    && Permutation(r, xs) && LegalRun(info, s, r)
  }

  /** r[n] is the rejection of key k. */
  predicate RejectedAt(r: seq<Answered>, n: nat, k: TableEntryKey)
  {
    n < |r| && r[n].status == ResourceExhausted && KeyFor(r[n]) == k
  }

  lemma GroupSplit(r: seq<Answered>, n: nat, k: TableEntryKey)
    requires n <= |r|
    ensures Group(r, k) == Group(r[..n], k) + Group(r[n..], k)
    ensures Starts(Group(r, k)) == Starts(Group(r[..n], k)) + Starts(Group(r[n..], k))
    ensures Stops(Group(r, k)) == Stops(Group(r[..n], k)) + Stops(Group(r[n..], k))
  {
    assert r == r[..n] + r[n..];
    GroupConcat(r[..n], r[n..], k);
    StartsConcat(Group(r[..n], k), Group(r[n..], k));
  }

  lemma GroupKinds(r: seq<Answered>, k: TableEntryKey)
    requires OkKinds(r)
    ensures OkKinds(Group(r, k))
  {
    GroupMembers(r, k);
  }

  lemma GroupCounts(xs: seq<Answered>, r: seq<Answered>, k: TableEntryKey)
    requires Permutation(r, xs)
    ensures Starts(Group(r, k)) == Starts(Group(xs, k)) && Stops(Group(r, k)) == Stops(Group(xs, k))
  {
    FilterPermutes(x => KeyFor(x) == k, r, xs);
    StartsPermute(Group(r, k), Group(xs, k));
  }

  /** Presence after a prefix of a legal order. */
  lemma PrefixPresence(info: P4Info, s: State, xs: seq<Answered>, r: seq<Answered>, n: nat, k: TableEntryKey)
    requires Explains(info, s, xs, r) && n <= |r|
    ensures Present(AfterAll(info, s, r[..n]), k) == FinalPresence(info, Present(s, k), Group(r[..n], k))
    ensures Present(AfterAll(info, s, r[..n]), k) ==> Present(s, k) || Starts(Group(r[..n], k)) > 0
    ensures !Present(AfterAll(info, s, r[..n]), k) && (Present(s, k) || Starts(Group(r[..n], k)) > 0)
            ==> Stops(Group(r[..n], k)) > 0
  {
    assert r == r[..n] + r[n..];
    LegalConcat(info, s, r[..n], r[n..]);
    assert forall x :: x in r[..n] ==> x in r;
    PresentAfterRun(info, s, r[..n], k);
    GroupKinds(r[..n], k);
    PresenceNeeds(info, Present(s, k), Group(r[..n], k));
  }

  /** At a rejection the key is absent and the table full. */
  lemma AtRejection(info: P4Info, s: State, xs: seq<Answered>, r: seq<Answered>, n: nat, k: TableEntryKey)
    requires Explains(info, s, xs, r) && RejectedAt(r, n, k)
    ensures IsWellformed(info, r[n]) && r[n].kind.Insert? && k.tableId in info.tables
    ensures !Present(AfterAll(info, s, r[..n]), k)
    ensures |TableOf(AfterAll(info, s, r[..n]), k.tableId)| >= info.tables[k.tableId].size
  {
    var x, before := r[n], AfterAll(info, s, r[..n]);
    assert x in r;
    assert r == r[..n] + r[n..] && r[n..][0] == x;
    LegalConcat(info, s, r[..n], r[n..]);
    assert Accepts(info, before, x);
    assert StripKey(KeyFor(x)) == KeyFor(x);
  }

  /** At any moment, a table holds at most the keys that are ever present and not absent then. */
  lemma TableWithin(info: P4Info, s: State, xs: seq<Answered>, r: seq<Answered>, n: nat, t: int,
                    absent: set<TableEntryKey>)
    requires Explains(info, s, xs, r) && n <= |r|
    requires absent <= EverPresent(s, xs, t)
    requires forall k :: k in absent ==> !Present(AfterAll(info, s, r[..n]), k)
    ensures |TableOf(AfterAll(info, s, r[..n]), t)| + |absent| <= |EverPresent(s, xs, t)|
  {
    var now := AfterAll(info, s, r[..n]);
    assert forall x :: x in r[..n] ==> x in r;
    WellFormedAfter(info, s, r[..n]);
    var keys, ever := TableOf(now, t).Keys, EverPresent(s, xs, t);
    forall k | k in keys ensures k in ever - absent {
      assert Stored(now, t, k);
      assert k.tableId == t && Present(now, k);
      PrefixPresence(info, s, xs, r, n, k);
      GroupSplit(r, n, k);
      GroupCounts(xs, r, k);
      EverPresentMember(info, s, xs, t, k);
    }
    SubsetSizes(keys, ever - absent);
    SubsetSizes(absent, ever);
    assert |ever - absent| == |ever| - |absent|;
    assert |keys| == |TableOf(now, t)|;
  }

  /** The position of a rejection in a legal order. */
  lemma PositionOf(xs: seq<Answered>, r: seq<Answered>, t: int, k: TableEntryKey) returns (n: nat)
    requires Permutation(r, xs) && k in RejectedKeys(xs, t)
    ensures RejectedAt(r, n, k) && k.tableId == t
  {
    var x := RejectionOf(xs, t, k);
    PermutationMembers(r, xs);
    assert x in r;
    n :| 0 <= n < |r| && r[n] == x;
  }

  /** Rejected before its only episode has begun. */
  predicate RejectedBefore(s: State, r: seq<Answered>, n: nat, k: TableEntryKey)
  {
    RejectedAt(r, n, k) && !Present(s, k) && Starts(Group(r[..n], k)) == 0
  }

  /** Rejected after its only episode has ended. */
  predicate RejectedAfter(r: seq<Answered>, n: nat, k: TableEntryKey)
  {
    RejectedAt(r, n, k) && Starts(Group(r[n..], k)) == 0
  }

  lemma PrefixStarts(r: seq<Answered>, m: nat, n: nat, k: TableEntryKey)
    requires m <= n <= |r|
    ensures Starts(Group(r[..m], k)) <= Starts(Group(r[..n], k))
    ensures Starts(Group(r[m..n], k)) <= Starts(Group(r[m..], k))
  {
    assert r[..n][..m] == r[..m] && r[m..][..n - m] == r[m..n];
    GroupSplit(r[..n], m, k);
    GroupSplit(r[m..], n - m, k);
  }

  /** Absent, and not inserted any more: absent from then on. */
  lemma StaysAbsent(info: P4Info, s: State, xs: seq<Answered>, r: seq<Answered>, n: nat, m: nat, k: TableEntryKey)
    requires Explains(info, s, xs, r) && n <= m <= |r|
    requires !Present(AfterAll(info, s, r[..n]), k) && Starts(Group(r[n..], k)) == 0
    ensures !Present(AfterAll(info, s, r[..m]), k)
  {
    PrefixPresence(info, s, xs, r, n, k);
    PrefixPresence(info, s, xs, r, m, k);
    assert r[..m] == r[..n] + r[n..m];
    GroupConcat(r[..n], r[n..m], k);
    FinalPresenceConcat(info, Present(s, k), Group(r[..n], k), Group(r[n..m], k));
    PrefixStarts(r, n, m, k);
    GroupKinds(r[n..m], k);
    PresenceNeeds(info, false, Group(r[n..m], k));
  }

  ghost predicate SomeBefore(s: State, r: seq<Answered>, front: set<TableEntryKey>, n: nat)
  {
    exists k :: k in front && RejectedBefore(s, r, n, k)
  }

  ghost predicate SomeAfter(r: seq<Answered>, back: set<TableEntryKey>, n: nat)
  {
    exists k :: k in back && RejectedAfter(r, n, k)
  }

  lemma SingleEverPresent(info: P4Info, s: State, xs: seq<Answered>, t: int, keys: set<TableEntryKey>)
    requires WellFormed(info, s) && keys <= SingleEpisode(s, xs, t)
    ensures keys <= EverPresent(s, xs, t)
  {
    forall k | k in keys ensures k in EverPresent(s, xs, t) {
      EverPresentMember(info, s, xs, t, k);
    }
  }

  /** The first of the rejections that precede an episode. */
  lemma FirstBefore(s: State, r: seq<Answered>, front: set<TableEntryKey>) returns (m: nat, first: TableEntryKey)
    requires front != {} && forall k :: k in front ==> exists n :: RejectedBefore(s, r, n, k)
    ensures first in front && RejectedBefore(s, r, m, first)
    ensures forall l: nat, k :: k in front && RejectedBefore(s, r, l, k) ==> m <= l
  {
    var some :| some in front;
    var n :| RejectedBefore(s, r, n, some);
    assert SomeBefore(s, r, front, n);
    var holds := (i: nat) => SomeBefore(s, r, front, i);
    m := LeastIndex(holds, n);
    first :| first in front && RejectedBefore(s, r, m, first);
    forall l: nat, k | k in front && RejectedBefore(s, r, l, k) ensures m <= l {
      assert SomeBefore(s, r, front, l);
      assert holds(l);
    }
  }

  /** The last of the rejections that follow an episode. */
  lemma LastAfter(r: seq<Answered>, back: set<TableEntryKey>) returns (m: nat, last: TableEntryKey)
    requires back != {} && forall k :: k in back ==> exists n :: RejectedAfter(r, n, k)
    ensures last in back && RejectedAfter(r, m, last)
    ensures forall l: nat, k :: k in back && RejectedAfter(r, l, k) ==> l <= m
  {
    var some :| some in back;
    var n :| RejectedAfter(r, n, some);
    assert SomeAfter(r, back, n);
    var holds := (i: nat) => SomeAfter(r, back, i);
    m := GreatestIndex(holds, n, |r|);
    last :| last in back && RejectedAfter(r, m, last);
    forall l: nat, k | k in back && RejectedAfter(r, l, k) ensures l <= m {
      assert SomeAfter(r, back, l);
      assert holds(l);
    }
  }

  lemma AbsentBefore(info: P4Info, s: State, xs: seq<Answered>, r: seq<Answered>, m: nat, l: nat, k: TableEntryKey)
    requires Explains(info, s, xs, r) && m <= l && RejectedBefore(s, r, l, k)
    ensures !Present(AfterAll(info, s, r[..m]), k)
  {
    PrefixStarts(r, m, l, k);
    PrefixPresence(info, s, xs, r, m, k);
  }

  lemma AbsentAfter(info: P4Info, s: State, xs: seq<Answered>, r: seq<Answered>, m: nat, l: nat, k: TableEntryKey)
    requires Explains(info, s, xs, r) && l <= m <= |r| && RejectedAfter(r, l, k)
    ensures !Present(AfterAll(info, s, r[..m]), k)
  {
    AtRejection(info, s, xs, r, l, k);
    StaysAbsent(info, s, xs, r, l, m, k);
  }

  /** The first of the rejections that precede an episode finds all those keys absent. */
  lemma FrontBound(info: P4Info, s: State, xs: seq<Answered>, r: seq<Answered>, t: int, front: set<TableEntryKey>)
    requires Explains(info, s, xs, r) && t in info.tables
    requires front != {} && front <= SingleEpisode(s, xs, t)
    requires forall k :: k in front ==> exists n :: RejectedBefore(s, r, n, k)
    ensures |front| <= Slack(info, s, xs, t)
  {
    var m, first := FirstBefore(s, r, front);
    SingleOfTable(s, xs, t, first);
    AtRejection(info, s, xs, r, m, first);
    forall k | k in front ensures !Present(AfterAll(info, s, r[..m]), k) {
      var l :| RejectedBefore(s, r, l, k);
      AbsentBefore(info, s, xs, r, m, l, k);
    }
    SingleEverPresent(info, s, xs, t, front);
    TableWithin(info, s, xs, r, m, t, front);
  }

  /** The last of the rejections that follow an episode finds all those keys absent. */
  lemma BackBound(info: P4Info, s: State, xs: seq<Answered>, r: seq<Answered>, t: int, back: set<TableEntryKey>)
    requires Explains(info, s, xs, r) && t in info.tables
    requires back != {} && back <= SingleEpisode(s, xs, t)
    requires forall k :: k in back ==> exists n :: RejectedAfter(r, n, k)
    ensures |back| <= Slack(info, s, xs, t)
  {
    var m, last := LastAfter(r, back);
    SingleOfTable(s, xs, t, last);
    AtRejection(info, s, xs, r, m, last);
    forall k | k in back ensures !Present(AfterAll(info, s, r[..m]), k) {
      var l :| RejectedAfter(r, l, k);
      AbsentAfter(info, s, xs, r, m, l, k);
    }
    SingleEverPresent(info, s, xs, t, back);
    TableWithin(info, s, xs, r, m, t, back);
  }

  lemma SingleOfTable(s: State, xs: seq<Answered>, t: int, k: TableEntryKey)
    requires k in SingleEpisode(s, xs, t)
    ensures k.tableId == t
  {
    var x := RejectionOf(xs, t, k);
  }

  /** A rejected key with one episode is rejected before or after it, and which one if it only comes or only goes. */
  lemma BeforeOrAfter(info: P4Info, s: State, xs: seq<Answered>, r: seq<Answered>, t: int, k: TableEntryKey)
    requires Explains(info, s, xs, r) && k in SingleEpisode(s, xs, t)
    ensures (exists n :: RejectedBefore(s, r, n, k)) || (exists n :: RejectedAfter(r, n, k))
    ensures k in Arriving(s, xs, t) ==> exists n :: RejectedBefore(s, r, n, k)
    ensures k in Leaving(s, xs, t) ==> exists n :: RejectedAfter(r, n, k)
  {
    var n := PositionOf(xs, r, t, k);
    AtRejection(info, s, xs, r, n, k);
    PrefixPresence(info, s, xs, r, n, k);
    GroupSplit(r, n, k);
    GroupCounts(xs, r, k);
    if Present(s, k) || Starts(Group(r[..n], k)) > 0 {
      assert RejectedAfter(r, n, k);
    } else {
      assert RejectedBefore(s, r, n, k);
    }
  }

  /** The bounds on the keys of one table. */
  lemma TableMustFit(info: P4Info, s: State, xs: seq<Answered>, r: seq<Answered>, x: Answered)
    requires Explains(info, s, xs, r) && x in xs && x.status == ResourceExhausted
    requires x.entry.tableId in info.tables
    ensures TableFits(info, s, xs, x.entry.tableId)
  {
    var t := x.entry.tableId;
    KeysOfMember(xs, x);
    forall k | k in RejectedKeys(xs, t)
      ensures 0 <= Slack(info, s, xs, t) && (k in EverPresent(s, xs, t) ==> 1 <= Slack(info, s, xs, t))
    {
      OneMustFit(info, s, xs, r, t, k);
    }
    var single := SingleEpisode(s, xs, t);
    var front := set k | k in single && exists n :: RejectedBefore(s, r, n, k);
    var back := set k | k in single && exists n :: RejectedAfter(r, n, k);
    forall k | k in single
      ensures k in front || k in back
      ensures k in Arriving(s, xs, t) ==> k in front
      ensures k in Leaving(s, xs, t) ==> k in back
    {
      BeforeOrAfter(info, s, xs, r, t, k);
    }
    if front != {} {
      FrontBound(info, s, xs, r, t, front);
    }
    if back != {} {
      BackBound(info, s, xs, r, t, back);
    }
    SubsetSizes(Arriving(s, xs, t), front);
    SubsetSizes(Leaving(s, xs, t), back);
    SubsetSizes(single, front + back);
    UnionSize(front, back);
  }

  lemma OneMustFit(info: P4Info, s: State, xs: seq<Answered>, r: seq<Answered>, t: int, k: TableEntryKey)
    requires Explains(info, s, xs, r) && k in RejectedKeys(xs, t) && t in info.tables
    ensures 0 <= Slack(info, s, xs, t) && (k in EverPresent(s, xs, t) ==> 1 <= Slack(info, s, xs, t))
  {
    var n := PositionOf(xs, r, t, k);
    AtRejection(info, s, xs, r, n, k);
    TableWithin(info, s, xs, r, n, t, {});
    if k in EverPresent(s, xs, t) {
      TableWithin(info, s, xs, r, n, t, {k});
    }
  }

  lemma UnionSize<T>(a: set<T>, b: set<T>)
    ensures |a + b| <= |a| + |b|
  {
    assert a + b == a + (b - a);
    SubsetSizes(b - a, b);
  }

  /** The answers of an explained batch pass the test. */
  lemma ExplainedBatchFits(info: P4Info, s: State, xs: seq<Answered>)
    requires WellFormed(info, s) && KnownTables(info, xs)
    requires forall x :: x in xs ==> Admissible(info, x)
    requires Explainable(info, s, xs)
    ensures RejectionsFit(info, s, xs)
  {
    var r :| Permutation(r, xs) && LegalRun(info, s, r);
    PermutationMembers(r, xs);
    LegalKinds(info, s, r);
    assert Explains(info, s, xs, r);
    forall x | x in xs && x.status == ResourceExhausted
      ensures IsWellformed(info, x) && x.kind.Insert?
      ensures SometimesAbsent(s, xs, KeyFor(x)) && TableFits(info, s, xs, x.entry.tableId)
    {
      RejectedSometimeAbsent(info, s, xs, r, x);
      TableMustFit(info, s, xs, r, x);
    }
  }

  lemma RejectedSometimeAbsent(info: P4Info, s: State, xs: seq<Answered>, r: seq<Answered>, x: Answered)
    requires Explains(info, s, xs, r) && x in xs && x.status == ResourceExhausted
    ensures IsWellformed(info, x) && x.kind.Insert? && SometimesAbsent(s, xs, KeyFor(x))
  {
    PermutationMembers(r, xs);
    assert x in r;
    var n :| 0 <= n < |r| && r[n] == x;
    AtRejection(info, s, xs, r, n, KeyFor(x));
    PrefixPresence(info, s, xs, r, n, KeyFor(x));
    GroupSplit(r, n, KeyFor(x));
    GroupCounts(xs, r, KeyFor(x));
  }
}
