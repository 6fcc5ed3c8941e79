/**
  The counting test for rejections is sufficient: an order of execution that gives every rejection
  its moment. All keys that are ever present are brought in, except that some rejected keys stay
  away until their rejections are over (front), others leave and come back one at a time (dip), and
  the rest leave for good at the end, before their rejections (back).
 */
module RejectionPlanning {
  import opened Common
  import opened P4Entries
  import opened StateModel
  import opened StateComparison
  import opened OracleModel
  import opened OracleCounting
  import opened ExhaustionCheck
  import opened RejectionCounting

  // ----- weaving rejections into an order -----

  /** Each rejection is put where it is first acceptable. */
  function Woven(info: P4Info, s: State, r: seq<Answered>, rejections: seq<Answered>): seq<Answered>
    decreases |r|
  {
    Filter(x => Accepts(info, s, x), rejections)
    + (if r == [] then []
       else [r[0]] + Woven(info, After(info, s, r[0]), r[1..], Filter(x => !Accepts(info, s, x), rejections)))
  }

  ghost predicate AcceptedSomewhere(info: P4Info, s: State, r: seq<Answered>, x: Answered)
  {
    exists i :: 0 <= i <= |r| && Accepts(info, AfterAll(info, s, r[..i]), x)
  }

  lemma AcceptedLater(info: P4Info, s: State, r: seq<Answered>, x: Answered)
    requires AcceptedSomewhere(info, s, r, x) && !Accepts(info, s, x)
    ensures r != [] && AcceptedSomewhere(info, After(info, s, r[0]), r[1..], x)
  {
    var i :| 0 <= i <= |r| && Accepts(info, AfterAll(info, s, r[..i]), x);
    assert i > 0 && r[..i][1..] == r[1..][..i - 1];
    assert Accepts(info, AfterAll(info, After(info, s, r[0]), r[1..][..i - 1]), x);
  }

  lemma {:induction false} FilterSplit<T>(f: T -> bool, g: T -> bool, xs: seq<T>)
    requires forall x :: g(x) == !f(x)
    ensures multiset(Filter(f, xs)) + multiset(Filter(g, xs)) == multiset(xs)
  {
    if xs != [] {
      FilterSplit(f, g, xs[1..]);
      assert xs == [xs[0]] + xs[1..];
    }
  }

  /** The woven order holds the same answers, if every rejection found its place. */
  lemma {:induction false} WovenElements(info: P4Info, s: State, r: seq<Answered>, rejections: seq<Answered>)
    requires forall x :: x in rejections ==> AcceptedSomewhere(info, s, r, x)
    ensures multiset(Woven(info, s, r, rejections)) == multiset(r) + multiset(rejections)
    decreases |r|
  {
    var now, later := Filter(x => Accepts(info, s, x), rejections), Filter(x => !Accepts(info, s, x), rejections);
    FilterSplit(x => Accepts(info, s, x), x => !Accepts(info, s, x), rejections);
    LaterAccepted(info, s, r, rejections);
    if r != [] {
      WovenElements(info, After(info, s, r[0]), r[1..], later);
      HeadBetween(now, r, Woven(info, After(info, s, r[0]), r[1..], later), later);
    }
  }

  lemma HeadBetween<T>(now: seq<T>, r: seq<T>, rest: seq<T>, later: seq<T>)
    requires r != [] && multiset(rest) == multiset(r[1..]) + multiset(later)
    ensures multiset(now + ([r[0]] + rest)) == multiset(r) + (multiset(now) + multiset(later))
  {
    assert r == [r[0]] + r[1..];
  }

  lemma LaterAccepted(info: P4Info, s: State, r: seq<Answered>, rejections: seq<Answered>)
    requires forall x :: x in rejections ==> AcceptedSomewhere(info, s, r, x)
    ensures var later := Filter(x => !Accepts(info, s, x), rejections);
            && (r == [] ==> later == [])
            && (r != [] ==> forall x :: x in later ==>
                  x in rejections && AcceptedSomewhere(info, After(info, s, r[0]), r[1..], x))
  {
    var later := Filter(x => !Accepts(info, s, x), rejections);
    FilterMembers(x => !Accepts(info, s, x), rejections);
    forall x | x in later
      ensures r != [] && AcceptedSomewhere(info, After(info, s, r[0]), r[1..], x)
    {
      AcceptedLater(info, s, r, x);
    }
    if later != [] {
      assert later[0] in later;
    }
  }

  /** The woven order is legal. */
  lemma {:induction false} WovenLegal(info: P4Info, s: State, r: seq<Answered>, rejections: seq<Answered>)
    requires LegalRun(info, s, r)
    requires forall x :: x in rejections ==> x.status == ResourceExhausted && AcceptedSomewhere(info, s, r, x)
    ensures LegalRun(info, s, Woven(info, s, r, rejections))
    decreases |r|
  {
    var here, later := Filter(x => Accepts(info, s, x), rejections), Filter(x => !Accepts(info, s, x), rejections);
    FilterMembers(x => Accepts(info, s, x), rejections);
    RejectionsLegal(info, s, here);
    RejectionsStay(info, s, here);
    LaterAccepted(info, s, r, rejections);
    if r == [] {
      LegalConcat(info, s, here, []);
    } else {
      var rest := Woven(info, After(info, s, r[0]), r[1..], later);
      WovenLegal(info, After(info, s, r[0]), r[1..], later);
      assert ([r[0]] + rest)[1..] == rest;
      LegalConcat(info, s, here, [r[0]] + rest);
    }
  }

  lemma {:induction false} RejectionsStay(info: P4Info, s: State, b: seq<Answered>)
    requires forall x :: x in b ==> x.status == ResourceExhausted
    ensures AfterAll(info, s, b) == s
    decreases |b|
  {
    if b != [] {
      assert b[0] in b && forall x :: x in b[1..] ==> x in b;
      RejectionsStay(info, s, b[1..]);
    }
  }

  // ----- the part of one key -----

  datatype Role = Steady | Front | Dip | Back

  /** A legal order of the updates of one key, cut at the moments at which its presence matters. */
  datatype Plan = Plan(a: seq<Answered>, f: seq<Answered>, away: seq<Answered>, home: seq<Answered>,
                       z: seq<Answered>, b: seq<Answered>)
  {
    function Dipping(): seq<Answered> { away + home }

    function Whole(): seq<Answered> { a + f + Dipping() + z + b }
  }

  ghost predicate GoodPlan(info: P4Info, present: bool, ever: bool, role: Role, group: seq<Answered>, p: Plan)
  {
    && Permutation(p.Whole(), group)
    && KeyRun(info, present, p.Whole())
    && FinalPresence(info, present, p.a) == (ever && role != Front)
    && FinalPresence(info, present, p.a + p.f) == ever
    && FinalPresence(info, present, p.a + p.f + p.away) == (ever && role != Dip)
    && FinalPresence(info, present, p.a + p.f + p.Dipping()) == ever
    && FinalPresence(info, present, p.a + p.f + p.Dipping() + p.z) == (ever && role != Back)
  }

  /** A key with an episode is present after some prefix. */
  lemma {:induction false} PresentSomewhere(info: P4Info, present: bool, g: seq<Answered>) returns (i: nat)
    requires KeyRun(info, present, g) && (present || Starts(g) > 0)
    ensures i <= |g| && FinalPresence(info, present, g[..i])
    decreases |g|
  {
    if present {
      i := 0;
    } else {
      assert g == [g[0]] + g[1..];
      StartsConcat([g[0]], g[1..]);
      StartsOfOne(g[0]);
      var j := PresentSomewhere(info, PresentAfter(info, present, g[0]), g[1..]);
      i := j + 1;
      assert g[..i] == [g[0]] + g[1..][..j];
    }
  }

  /** A key with two episodes is present, absent and present again. */
  lemma {:induction false} PresentTwice(info: P4Info, present: bool, g: seq<Answered>) returns (i: nat, j: nat, l: nat)
    requires KeyRun(info, present, g) && Bit(present) + Starts(g) >= 2
    ensures i <= j <= l <= |g|
    ensures FinalPresence(info, present, g[..i]) && !FinalPresence(info, present, g[..j])
              && FinalPresence(info, present, g[..l])
    decreases |g|
  {
    assert g != [];
    var n := |g| - 1;
    var init, last := g[..n], g[n];
    assert g == init + [last];
    StartsConcat(init, [last]);
    StartsOfOne(last);
    KeyRunConcat(info, present, init, [last]);
    FinalPresenceConcat(info, present, init, [last]);
    if last.status == Ok && last.kind.Insert? {
      i := PresentSomewhere(info, present, init);
      assert init[..i] == g[..i];
      j, l := n, n + 1;
      assert g[..l] == g;
      assert AcceptsAt(info, FinalPresence(info, present, init), last);
    } else {
      i, j, l := PresentTwice(info, present, init);
      assert init[..i] == g[..i] && init[..j] == g[..j] && init[..l] == g[..l];
    }
  }

  /** The plan with the given cuts. */
  function Cut(g: seq<Answered>, i: nat, j: nat, l: nat, m: nat, n: nat): Plan
    requires i <= j <= l <= m <= n <= |g|
  {
    Plan(g[..i], g[i..j], g[j..l], g[l..m], g[m..n], g[n..])
  }

  lemma CutPieces(g: seq<Answered>, i: nat, j: nat, l: nat, m: nat, n: nat)
    requires i <= j <= l <= m <= n <= |g|
    ensures var p := Cut(g, i, j, l, m, n);
            && p.Whole() == g && p.a + p.f == g[..j] && p.a + p.f + p.away == g[..l]
            && p.a + p.f + p.Dipping() == g[..m] && p.a + p.f + p.Dipping() + p.z == g[..n]
  {
    var p := Cut(g, i, j, l, m, n);
    assert p.a + p.f == g[..j];
    assert p.Dipping() == g[j..m];
    assert g[..j] + g[j..l] == g[..l];
    assert g[..j] + g[j..m] == g[..m];
    assert g[..m] + g[m..n] == g[..n];
    assert g[..n] + g[n..] == g;
  }

  lemma GoodCut(info: P4Info, present: bool, ever: bool, role: Role, group: seq<Answered>, g: seq<Answered>,
                i: nat, j: nat, l: nat, m: nat, n: nat)
    requires Permutation(g, group) && KeyRun(info, present, g)
    requires i <= j <= l <= m <= n <= |g|
    requires FinalPresence(info, present, g[..i]) == (ever && role != Front)
    requires FinalPresence(info, present, g[..j]) == ever && FinalPresence(info, present, g[..m]) == ever
    requires FinalPresence(info, present, g[..l]) == (ever && role != Dip)
    requires FinalPresence(info, present, g[..n]) == (ever && role != Back)
    ensures GoodPlan(info, present, ever, role, group, Cut(g, i, j, l, m, n))
  {
    CutPieces(g, i, j, l, m, n);
  }

  /** What a role asks of a key. */
  predicate RoleFits(present: bool, starts: nat, stops: nat, role: Role)
  {
    match role
    case Steady => true
    case Front => !present && starts > 0
    case Dip => Bit(present) + starts >= 2
    case Back => Bit(present) + starts == 1 && stops == 1
  }

  lemma FinalBalance(info: P4Info, present: bool, g: seq<Answered>)
    requires KeyRun(info, present, g)
    ensures Bit(FinalPresence(info, present, g)) == Bit(present) + Starts(g) - Stops(g)
    decreases |g|
  {
    if g != [] {
      assert g == [g[0]] + g[1..];
      StartsConcat([g[0]], g[1..]);
      StartsOfOne(g[0]);
      FinalBalance(info, PresentAfter(info, present, g[0]), g[1..]);
    }
  }

  /** Never inserted and not there: absent throughout. */
  lemma NeverPresent(info: P4Info, g: seq<Answered>, i: nat)
    requires KeyRun(info, false, g) && Starts(g) == 0 && i <= |g|
    ensures !FinalPresence(info, false, g[..i])
  {
    assert g == g[..i] + g[i..];
    StartsConcat(g[..i], g[i..]);
    KeyRunConcat(info, false, g[..i], g[i..]);
    FinalBalance(info, false, g[..i]);
  }

  /** Every key can play a role that fits it. */
  lemma PlanExists(info: P4Info, present: bool, role: Role, group: seq<Answered>, g: seq<Answered>) returns (p: Plan)
    requires Permutation(g, group) && KeyRun(info, present, g)
    requires RoleFits(present, Starts(group), Stops(group), role)
    ensures GoodPlan(info, present, present || Starts(group) > 0, role, group, p)
  {
    StartsPermute(g, group);
    var ever, n := present || Starts(g) > 0, |g|;
    assert g[..n] == g && g[..0] == [];
    if !ever {
      NeverPresent(info, g, n);
      GoodCut(info, present, ever, role, group, g, n, n, n, n, n);
      p := Cut(g, n, n, n, n, n);
    } else if role == Dip {
      var i, j, l := PresentTwice(info, present, g);
      GoodCut(info, present, ever, role, group, g, i, i, j, l, l);
      p := Cut(g, i, i, j, l, l);
    } else {
      var i := PresentSomewhere(info, present, g);
      var first, last := if role == Front then 0 else i, if role == Back then n else i;
      FinalBalance(info, present, g);
      GoodCut(info, present, ever, role, group, g, first, i, i, i, last);
      p := Cut(g, first, i, i, i, last);
    }
  }

  // ----- who waits in front and who leaves at the back -----

  lemma {:induction false} SubsetOfSize<T>(m: set<T>, n: nat) returns (g: set<T>)
    requires n <= |m|
    ensures g <= m && |g| == n
    decreases n
  {
    if n == 0 {
      g := {};
    } else {
      var x :| x in m;
      var rest := SubsetOfSize(m - {x}, n - 1);
      g := rest + {x};
    }
  }

  ghost predicate GoodFront(info: P4Info, s: State, xs: seq<Answered>, t: int, front: set<TableEntryKey>)
    requires t in info.tables
  {
    && Arriving(s, xs, t) <= front <= SingleEpisode(s, xs, t)
    && front !! Leaving(s, xs, t)
    && |front| <= Slack(info, s, xs, t)
    && |SingleEpisode(s, xs, t) - front| <= Slack(info, s, xs, t)
  }

  /** A set can be divided into two parts that are not too large, each containing what must be in it. */
  lemma Divide<T>(single: set<T>, early: set<T>, late: set<T>, slack: nat) returns (front: set<T>)
    requires early <= single && late <= single && early !! late
    requires |early| <= slack && |late| <= slack && |single| <= 2 * slack
    ensures early <= front <= single && front !! late
    ensures |front| <= slack && |single - front| <= slack
  {
    var free := single - early - late;
    DividedSizes(single, early, late);
    var chosen := SubsetOfSize(free, if |free| <= slack - |early| then |free| else slack - |early|);
    front := early + chosen;
    assert |front| == |early| + |chosen|;
    assert single == front + (single - front);
    assert |single| == |front| + |single - front|;
    if chosen != free {
      SubsetSizes(chosen, free);
    } else {
      assert single - front == late;
    }
  }

  lemma FrontExists(info: P4Info, s: State, xs: seq<Answered>, t: int) returns (front: set<TableEntryKey>)
    requires t in info.tables && TableFits(info, s, xs, t)
    ensures GoodFront(info, s, xs, t, front)
  {
    front := Divide(SingleEpisode(s, xs, t), Arriving(s, xs, t), Leaving(s, xs, t), Slack(info, s, xs, t));
  }

  lemma DividedSizes<T>(all: set<T>, a: set<T>, b: set<T>)
    requires a <= all && b <= all && a !! b
    ensures |all| == |a| + |b| + |all - a - b|
  {
    assert all == (a + b) + (all - a - b);
    assert |a + b| == |a| + |b|;
  }

  ghost function FrontOf(info: P4Info, s: State, xs: seq<Answered>, t: int): set<TableEntryKey>
    requires t in info.tables
  {
    if exists front :: GoodFront(info, s, xs, t, front) then
      var front :| GoodFront(info, s, xs, t, front);
      front
    else {}
  }

  ghost function RoleOf(info: P4Info, s: State, xs: seq<Answered>, k: TableEntryKey): Role
  {
    if k !in RejectedKeys(xs, k.tableId) || k.tableId !in info.tables || Episodes(s, xs, k) == 0 then Steady
    else if Episodes(s, xs, k) >= 2 then Dip
    else if k in FrontOf(info, s, xs, k.tableId) then Front
    else Back
  }

  // ----- a plan for every key -----

  /** A batch whose groups are explainable and whose rejections pass the counting test. */
  ghost predicate Plannable(info: P4Info, s: State, xs: seq<Answered>)
  {
    && WellFormed(info, s) && KnownTables(info, xs)
    && (forall x :: x in xs ==> Admissible(info, x))
    && (forall k :: Explainable(info, s, Group(NotExhausted(xs), k)))
    && RejectionsFit(info, s, xs)
  }

  lemma {:induction false} FilterTwice<T>(f: T -> bool, g: T -> bool, xs: seq<T>)
    requires forall x :: f(x) ==> g(x)
    ensures Filter(f, Filter(g, xs)) == Filter(f, xs)
  {
    if xs != [] {
      FilterTwice(f, g, xs[1..]);
      if g(xs[0]) {
        FilterHead(f, xs[0], Filter(g, xs[1..]));
      } else {
        assert Filter(g, xs) == Filter(g, xs[1..]) && Filter(f, xs) == Filter(f, xs[1..]);
      }
    }
  }

  lemma FilterStep<T>(f: T -> bool, g: T -> bool, xs: seq<T>)
    requires xs != []
    ensures Filter(f, Filter(g, xs)) == (if f(xs[0]) && g(xs[0]) then [xs[0]] else []) + Filter(f, Filter(g, xs[1..]))
  {
    if g(xs[0]) {
      FilterHead(f, xs[0], Filter(g, xs[1..]));
    } else {
      assert Filter(g, xs) == Filter(g, xs[1..]);
    }
  }

  lemma {:induction false} FilterCommutes<T>(f: T -> bool, g: T -> bool, xs: seq<T>)
    ensures Filter(f, Filter(g, xs)) == Filter(g, Filter(f, xs))
  {
    if xs != [] {
      FilterCommutes(f, g, xs[1..]);
      FilterStep(f, g, xs);
      FilterStep(g, f, xs);
    }
  }

  /** Leaving out the rejections changes no count. */
  lemma ServedCounts(xs: seq<Answered>, k: TableEntryKey)
    ensures Starts(Group(NotExhausted(xs), k)) == Starts(Group(xs, k))
    ensures Stops(Group(NotExhausted(xs), k)) == Stops(Group(xs, k))
  {
    FilterCommutes(x => KeyFor(x) == k, (x: Answered) => x.status != ResourceExhausted, xs);
    FilterTwice((x: Answered) => x.status == Ok && x.kind.Insert?, (x: Answered) => x.status != ResourceExhausted,
                Group(xs, k));
    FilterTwice((x: Answered) => x.status == Ok && x.kind.Delete?, (x: Answered) => x.status != ResourceExhausted,
                Group(xs, k));
  }

  lemma ServedMembers(xs: seq<Answered>, k: TableEntryKey)
    ensures forall x :: x in NotExhausted(xs) <==> x in xs && x.status != ResourceExhausted
    ensures forall x :: x in Group(NotExhausted(xs), k) <==> x in xs && x.status != ResourceExhausted && KeyFor(x) == k
  {
    FilterMembers((x: Answered) => x.status != ResourceExhausted, xs);
    GroupMembers(NotExhausted(xs), k);
  }

  /** A legal order of the answered updates of one key. */
  lemma KeyOrder(info: P4Info, s: State, xs: seq<Answered>, k: TableEntryKey) returns (g: seq<Answered>)
    requires forall x :: x in xs ==> Admissible(info, x)
    requires Explainable(info, s, Group(NotExhausted(xs), k))
    ensures Permutation(g, Group(NotExhausted(xs), k)) && KeyRun(info, Present(s, k), g)
  {
    g :| Permutation(g, Group(NotExhausted(xs), k)) && LegalRun(info, s, g);
    PermutationMembers(g, Group(NotExhausted(xs), k));
    ServedMembers(xs, k);
    SingleKeyRun(info, s, g, k);
  }

  lemma RoleFitsKey(info: P4Info, s: State, xs: seq<Answered>, k: TableEntryKey)
    requires Plannable(info, s, xs)
    ensures RoleFits(Present(s, k), Starts(Group(xs, k)), Stops(Group(xs, k)), RoleOf(info, s, xs, k))
  {
    var t := k.tableId;
    if k in SingleEpisode(s, xs, t) && t in info.tables {
      RejectedKeyFits(info, s, xs, k);
      FrontOfGood(info, s, xs, t);
      BalanceOf(info, s, xs, k);
      SideFits(s, xs, k, FrontOf(info, s, xs, t));
    }
  }

  /** In front is the rejection before the only episode, at the back it is after. */
  lemma SideFits(s: State, xs: seq<Answered>, k: TableEntryKey, front: set<TableEntryKey>)
    requires k in SingleEpisode(s, xs, k.tableId) && SometimesAbsent(s, xs, k)
    requires Arriving(s, xs, k.tableId) <= front && front !! Leaving(s, xs, k.tableId)
    requires 0 <= Bit(Present(s, k)) + Starts(Group(xs, k)) - Stops(Group(xs, k)) <= 1
    ensures k in front ==> !Present(s, k) && Starts(Group(xs, k)) > 0
    ensures k !in front ==> Stops(Group(xs, k)) == 1
  {
  }

  lemma RejectedKeyFits(info: P4Info, s: State, xs: seq<Answered>, k: TableEntryKey)
    requires KnownTables(info, xs) && RejectionsFit(info, s, xs) && k in RejectedKeys(xs, k.tableId)
    ensures k.tableId in info.tables && SometimesAbsent(s, xs, k) && TableFits(info, s, xs, k.tableId)
  {
    var x := RejectionOf(xs, k.tableId, k);
  }

  lemma FrontOfGood(info: P4Info, s: State, xs: seq<Answered>, t: int)
    requires t in info.tables && TableFits(info, s, xs, t)
    ensures GoodFront(info, s, xs, t, FrontOf(info, s, xs, t))
  {
    var front := FrontExists(info, s, xs, t);
  }

  /** A key cannot come more often than it goes, or go more often than it comes. */
  lemma BalanceOf(info: P4Info, s: State, xs: seq<Answered>, k: TableEntryKey)
    requires forall x :: x in xs ==> Admissible(info, x)
    requires Explainable(info, s, Group(NotExhausted(xs), k))
    ensures 0 <= Bit(Present(s, k)) + Starts(Group(xs, k)) - Stops(Group(xs, k)) <= 1
  {
    var g := KeyOrder(info, s, xs, k);
    FinalBalance(info, Present(s, k), g);
    StartsPermute(g, Group(NotExhausted(xs), k));
    ServedCounts(xs, k);
  }

  ghost predicate PlanFor(info: P4Info, s: State, xs: seq<Answered>, k: TableEntryKey, p: Plan)
  {
    GoodPlan(info, Present(s, k), Episodes(s, xs, k) > 0, RoleOf(info, s, xs, k), Group(NotExhausted(xs), k), p)
  }

  ghost function PlanOf(info: P4Info, s: State, xs: seq<Answered>, k: TableEntryKey): Plan
  {
    if exists p :: PlanFor(info, s, xs, k, p) then
      var p :| PlanFor(info, s, xs, k, p);
      p
    else Plan([], [], [], [], [], [])
  }

  lemma PlanOfGood(info: P4Info, s: State, xs: seq<Answered>, k: TableEntryKey)
    requires Plannable(info, s, xs)
    ensures PlanFor(info, s, xs, k, PlanOf(info, s, xs, k))
  {
    var g := KeyOrder(info, s, xs, k);
    RoleFitsKey(info, s, xs, k);
    ServedCounts(xs, k);
    var p := PlanExists(info, Present(s, k), RoleOf(info, s, xs, k), Group(NotExhausted(xs), k), g);
    assert PlanFor(info, s, xs, k, p);
  }

  /** A good plan for every key. */
  ghost predicate Planned(info: P4Info, s: State, xs: seq<Answered>, plans: TableEntryKey -> Plan)
  {
    forall k {:trigger plans(k)} :: PlanFor(info, s, xs, k, plans(k))
  }

  // ----- all keys together -----

  function Piece(p: Plan, i: nat): seq<Answered>
  {
    match i
    case 0 => p.a
    case 1 => p.f
    case 2 => p.Dipping()
    case 3 => p.z
    case _ => p.b
  }

  /** The first n pieces of a plan. */
  function Pieces(p: Plan, n: nat): seq<Answered>
  {
    if n == 0 then [] else Pieces(p, n - 1) + Piece(p, n - 1)
  }

  lemma PiecesShape(p: Plan)
    ensures Pieces(p, 1) == p.a && Pieces(p, 2) == p.a + p.f && Pieces(p, 3) == p.a + p.f + p.Dipping()
    ensures Pieces(p, 4) == p.a + p.f + p.Dipping() + p.z && Pieces(p, 5) == p.Whole()
  {
    assert Pieces(p, 0) == [];
    assert Pieces(p, 1) == [] + p.a;
  }

  lemma PieceWithin(p: Plan, i: nat)
    requires i < 5
    ensures multiset(Piece(p, i)) <= multiset(p.Whole())
  {
  }

  /** The same piece of the plans of all the keys. */
  ghost function Stage(plans: TableEntryKey -> Plan, ks: seq<TableEntryKey>, i: nat): seq<Answered>
  {
    if ks == [] then [] else Stage(plans, ks[..|ks| - 1], i) + Piece(plans(ks[|ks| - 1]), i)
  }

  /** The first n stages. */
  ghost function Stages(plans: TableEntryKey -> Plan, ks: seq<TableEntryKey>, n: nat): seq<Answered>
  {
    if n == 0 then [] else Stages(plans, ks, n - 1) + Stage(plans, ks, n - 1)
  }

  predicate DistinctKeyList(ks: seq<TableEntryKey>)
  {
    forall i, j :: 0 <= i < j < |ks| ==> ks[i] != ks[j]
  }

  function KeyList(xs: seq<Answered>): seq<TableEntryKey>
  {
    if xs == [] then []
    else
      var before, k := KeyList(xs[..|xs| - 1]), KeyFor(xs[|xs| - 1]);
      if k in before then before else before + [k]
  }

  lemma {:induction false} KeyListComplete(xs: seq<Answered>)
    ensures DistinctKeyList(KeyList(xs))
    ensures forall x :: x in xs ==> KeyFor(x) in KeyList(xs)
  {
    if xs != [] {
      var init := xs[..|xs| - 1];
      KeyListComplete(init);
      assert xs == init + [xs[|xs| - 1]];
    }
  }

  /** Plans whose pieces hold updates of their own key only, and nothing for a key without updates. */
  ghost predicate Separate(plans: TableEntryKey -> Plan, ks: seq<TableEntryKey>)
  {
    forall k, i: nat {:trigger Piece(plans(k), i)} :: i < 5 ==>
      (forall x :: x in Piece(plans(k), i) ==> KeyFor(x) == k) && (k !in ks ==> Piece(plans(k), i) == [])
  }

  lemma PieceGroup(plans: TableEntryKey -> Plan, all: seq<TableEntryKey>, own: TableEntryKey, i: nat, k: TableEntryKey)
    requires Separate(plans, all) && i < 5
    ensures Group(Piece(plans(own), i), k) == if k == own then Piece(plans(own), i) else []
  {
    FilterAll(x => KeyFor(x) == k, Piece(plans(own), i));
  }

  lemma {:induction false} StageGroup(plans: TableEntryKey -> Plan, all: seq<TableEntryKey>, ks: seq<TableEntryKey>,
                                      i: nat, k: TableEntryKey)
    requires Separate(plans, all) && DistinctKeyList(ks) && i < 5
    ensures Group(Stage(plans, ks, i), k) == if k in ks then Piece(plans(k), i) else []
  {
    if ks != [] {
      var init, last := ks[..|ks| - 1], ks[|ks| - 1];
      assert ks == init + [last];
      assert last !in init;
      StageGroup(plans, all, init, i, k);
      GroupConcat(Stage(plans, init, i), Piece(plans(last), i), k);
      PieceGroup(plans, all, last, i, k);
    }
  }

  lemma {:induction false} StagesGroup(plans: TableEntryKey -> Plan, ks: seq<TableEntryKey>, n: nat, k: TableEntryKey)
    requires Separate(plans, ks) && DistinctKeyList(ks) && n <= 5
    ensures Group(Stages(plans, ks, n), k) == Pieces(plans(k), n)
  {
    if n > 0 {
      StagesGroup(plans, ks, n - 1, k);
      StageGroup(plans, ks, ks, n - 1, k);
      GroupConcat(Stages(plans, ks, n - 1), Stage(plans, ks, n - 1), k);
    }
  }

  /** The keys of the batch. */
  function BatchKeys(xs: seq<Answered>): seq<TableEntryKey>
  {
    KeyList(NotExhausted(xs))
  }

  lemma PlansSeparate(info: P4Info, s: State, xs: seq<Answered>, plans: TableEntryKey -> Plan)
    requires Planned(info, s, xs, plans)
    ensures Separate(plans, BatchKeys(xs)) && DistinctKeyList(BatchKeys(xs))
  {
    KeyListComplete(NotExhausted(xs));
    forall k, i: nat | i < 5
      ensures forall x :: x in Piece(plans(k), i) ==> KeyFor(x) == k
      ensures k !in BatchKeys(xs) ==> Piece(plans(k), i) == []
    {
      PlanSeparate(info, s, xs, k, plans(k), i);
    }
  }

  lemma PlanSeparate(info: P4Info, s: State, xs: seq<Answered>, k: TableEntryKey, p: Plan, i: nat)
    requires PlanFor(info, s, xs, k, p) && i < 5
    ensures forall x :: x in Piece(p, i) ==> KeyFor(x) == k
    ensures k !in BatchKeys(xs) ==> Piece(p, i) == []
  {
    PieceWithin(p, i);
    PermutationMembers(p.Whole(), Group(NotExhausted(xs), k));
    GroupMembers(NotExhausted(xs), k);
    KeyListComplete(NotExhausted(xs));
    forall x | x in Piece(p, i) ensures KeyFor(x) == k && k in BatchKeys(xs) {
      assert x in multiset(Piece(p, i));
      assert x in p.Whole();
    }
    if Piece(p, i) != [] {
      assert Piece(p, i)[0] in Piece(p, i);
    }
  }

  /** Five stages: arrivals, the keys that waited in front, dips, departures, and what is left. */
  ghost function Schedule(xs: seq<Answered>, plans: TableEntryKey -> Plan): seq<Answered>
  {
    Stages(plans, BatchKeys(xs), 5)
  }

  lemma ScheduleGroup(info: P4Info, s: State, xs: seq<Answered>, plans: TableEntryKey -> Plan, k: TableEntryKey)
    requires Planned(info, s, xs, plans)
    ensures Group(Schedule(xs, plans), k) == plans(k).Whole()
    ensures KeyRun(info, Present(s, k), Group(Schedule(xs, plans), k))
    ensures Permutation(Group(Schedule(xs, plans), k), Group(NotExhausted(xs), k))
  {
    PlansSeparate(info, s, xs, plans);
    StagesGroup(plans, BatchKeys(xs), 5, k);
    PiecesShape(plans(k));
    assert PlanFor(info, s, xs, k, plans(k));
  }

  lemma ScheduleElements(info: P4Info, s: State, xs: seq<Answered>, plans: TableEntryKey -> Plan)
    requires Planned(info, s, xs, plans)
    ensures Permutation(Schedule(xs, plans), NotExhausted(xs))
  {
    var r, served := Schedule(xs, plans), NotExhausted(xs);
    forall x ensures multiset(r)[x] == multiset(served)[x] {
      ScheduleGroup(info, s, xs, plans, KeyFor(x));
      FilterMultiset(y => KeyFor(y) == KeyFor(x), r, x);
      FilterMultiset(y => KeyFor(y) == KeyFor(x), served, x);
      assert multiset(Group(r, KeyFor(x)))[x] == multiset(Group(served, KeyFor(x)))[x];
    }
    assert multiset(r) == multiset(served);
  }

  lemma ScheduleLegal(info: P4Info, s: State, xs: seq<Answered>, plans: TableEntryKey -> Plan)
    requires Plannable(info, s, xs) && Planned(info, s, xs, plans)
    ensures LegalRun(info, s, Schedule(xs, plans))
    ensures forall x :: x in Schedule(xs, plans) ==> x in xs && x.status != ResourceExhausted
  {
    var r := Schedule(xs, plans);
    ScheduleElements(info, s, xs, plans);
    PermutationMembers(r, NotExhausted(xs));
    FilterMembers((x: Answered) => x.status != ResourceExhausted, xs);
    forall k ensures KeyRun(info, Present(s, k), Group(r, k)) {
      ScheduleGroup(info, s, xs, plans, k);
    }
    RunDecomposes(info, s, r);
  }

  // ----- the moments of the schedule -----

  /** After a prefix of the schedule, a key is present as its own updates in the prefix say. */
  lemma MomentPresence(info: P4Info, s: State, xs: seq<Answered>, plans: TableEntryKey -> Plan, q: seq<Answered>,
                       k: TableEntryKey)
    requires Plannable(info, s, xs) && Planned(info, s, xs, plans) && q <= Schedule(xs, plans)
    ensures Present(AfterAll(info, s, q), k) == FinalPresence(info, Present(s, k), Group(q, k))
    ensures WellFormed(info, AfterAll(info, s, q))
  {
    var r := Schedule(xs, plans);
    ScheduleLegal(info, s, xs, plans);
    assert r == q + r[|q|..];
    LegalConcat(info, s, q, r[|q|..]);
    assert forall x :: x in q ==> x in r;
    PresentAfterRun(info, s, q, k);
    LegalKinds(info, s, q);
    WellFormedAfter(info, s, q);
  }

  lemma {:induction false} StagesPrefix(plans: TableEntryKey -> Plan, ks: seq<TableEntryKey>, n: nat, m: nat)
    requires n <= m
    ensures Stages(plans, ks, n) <= Stages(plans, ks, m)
  {
    if n < m {
      StagesPrefix(plans, ks, n, m - 1);
    }
  }

  lemma {:induction false} StagePrefix(plans: TableEntryKey -> Plan, ks: seq<TableEntryKey>, i: nat, j: nat)
    requires j <= |ks|
    ensures Stage(plans, ks[..j], i) <= Stage(plans, ks, i)
  {
    if j == |ks| {
      assert ks[..j] == ks;
    } else {
      StagePrefix(plans, ks[..|ks| - 1], i, j);
      assert ks[..|ks| - 1][..j] == ks[..j];
    }
  }

  /** Once everything has arrived, exactly the keys in front are still away. */
  lemma ArrivedPresence(info: P4Info, s: State, xs: seq<Answered>, plans: TableEntryKey -> Plan, k: TableEntryKey)
    requires Plannable(info, s, xs) && Planned(info, s, xs, plans)
    ensures Stages(plans, BatchKeys(xs), 1) <= Schedule(xs, plans)
    ensures Present(AfterAll(info, s, Stages(plans, BatchKeys(xs), 1)), k)
            == (Episodes(s, xs, k) > 0 && RoleOf(info, s, xs, k) != Front)
  {
    StagesPrefix(plans, BatchKeys(xs), 1, 5);
    MomentPresence(info, s, xs, plans, Stages(plans, BatchKeys(xs), 1), k);
    PlansSeparate(info, s, xs, plans);
    StagesGroup(plans, BatchKeys(xs), 1, k);
    PiecesShape(plans(k));
    assert PlanFor(info, s, xs, k, plans(k));
  }

  /** Once the departures are over, exactly the keys at the back are away. */
  lemma DepartedPresence(info: P4Info, s: State, xs: seq<Answered>, plans: TableEntryKey -> Plan, k: TableEntryKey)
    requires Plannable(info, s, xs) && Planned(info, s, xs, plans)
    ensures Stages(plans, BatchKeys(xs), 4) <= Schedule(xs, plans)
    ensures Present(AfterAll(info, s, Stages(plans, BatchKeys(xs), 4)), k)
            == (Episodes(s, xs, k) > 0 && RoleOf(info, s, xs, k) != Back)
  {
    StagesPrefix(plans, BatchKeys(xs), 4, 5);
    MomentPresence(info, s, xs, plans, Stages(plans, BatchKeys(xs), 4), k);
    PlansSeparate(info, s, xs, plans);
    StagesGroup(plans, BatchKeys(xs), 4, k);
    PiecesShape(plans(k));
    assert PlanFor(info, s, xs, k, plans(k));
  }

  /** Up to the dip of the j-th key. */
  ghost function UpToDip(plans: TableEntryKey -> Plan, ks: seq<TableEntryKey>, j: nat): seq<Answered>
    requires j < |ks|
  {
    Stages(plans, ks, 2) + (Stage(plans, ks[..j], 2) + plans(ks[j]).away)
  }

  lemma PrefixAppend<T>(a: seq<T>, b: seq<T>, c: seq<T>)
    requires b <= c
    ensures a + b <= a + c
  {
  }

  lemma DipWithinStage(plans: TableEntryKey -> Plan, ks: seq<TableEntryKey>, j: nat)
    requires j < |ks|
    ensures Stage(plans, ks[..j], 2) + plans(ks[j]).away <= Stage(plans, ks, 2)
  {
    StagePrefix(plans, ks, 2, j + 1);
    PrefixExtends(ks, j);
    StageAppend(plans, ks[..j], ks[j], 2);
    PrefixAppend(Stage(plans, ks[..j], 2), plans(ks[j]).away, plans(ks[j]).Dipping());
  }

  lemma PrefixExtends<T>(xs: seq<T>, j: nat)
    requires j < |xs|
    ensures xs[..j + 1] == xs[..j] + [xs[j]]
  {
  }

  lemma StageAppend(plans: TableEntryKey -> Plan, ks: seq<TableEntryKey>, k: TableEntryKey, i: nat)
    ensures Stage(plans, ks + [k], i) == Stage(plans, ks, i) + Piece(plans(k), i)
  {
    assert (ks + [k])[..|ks|] == ks;
  }

  lemma UpToDipPrefix(plans: TableEntryKey -> Plan, ks: seq<TableEntryKey>, j: nat)
    requires j < |ks|
    ensures UpToDip(plans, ks, j) <= Stages(plans, ks, 5)
  {
    DipWithinStage(plans, ks, j);
    PrefixAppend(Stages(plans, ks, 2), Stage(plans, ks[..j], 2) + plans(ks[j]).away, Stage(plans, ks, 2));
    assert Stages(plans, ks, 3) == Stages(plans, ks, 2) + Stage(plans, ks, 2);
    StagesPrefix(plans, ks, 3, 5);
  }

  lemma HalfDipGroup(plans: TableEntryKey -> Plan, ks: seq<TableEntryKey>, j: nat, k: TableEntryKey)
    requires Separate(plans, ks) && DistinctKeyList(ks) && j < |ks|
    ensures Group(Stage(plans, ks[..j], 2) + plans(ks[j]).away, k)
            == if k == ks[j] then plans(k).away else if k in ks[..j] then plans(k).Dipping() else []
  {
    var d := ks[j];
    StageGroup(plans, ks, ks[..j], 2, k);
    assert d !in ks[..j];
    assert forall x :: x in plans(d).away ==> x in Piece(plans(d), 2);
    FilterAll(x => KeyFor(x) == k, plans(d).away);
    GroupConcat(Stage(plans, ks[..j], 2), plans(d).away, k);
  }

  lemma UpToDipGroup(plans: TableEntryKey -> Plan, ks: seq<TableEntryKey>, j: nat, k: TableEntryKey)
    requires Separate(plans, ks) && DistinctKeyList(ks) && j < |ks|
    ensures var p := plans(k);
            Group(UpToDip(plans, ks, j), k) == p.a + p.f + (if k == ks[j] then p.away
                                                            else if k in ks[..j] then p.Dipping() else [])
  {
    StagesGroup(plans, ks, 2, k);
    PiecesShape(plans(k));
    HalfDipGroup(plans, ks, j, k);
    GroupConcat(Stages(plans, ks, 2), Stage(plans, ks[..j], 2) + plans(ks[j]).away, k);
  }

  /** At the dip of a key, it alone is away. */
  lemma DipPresence(info: P4Info, s: State, xs: seq<Answered>, plans: TableEntryKey -> Plan, j: nat, k: TableEntryKey)
    requires Plannable(info, s, xs) && Planned(info, s, xs, plans)
    requires j < |BatchKeys(xs)| && RoleOf(info, s, xs, BatchKeys(xs)[j]) == Dip
    ensures UpToDip(plans, BatchKeys(xs), j) <= Schedule(xs, plans)
    ensures Present(AfterAll(info, s, UpToDip(plans, BatchKeys(xs), j)), k)
            == (Episodes(s, xs, k) > 0 && k != BatchKeys(xs)[j])
  {
    UpToDipPrefix(plans, BatchKeys(xs), j);
    MomentPresence(info, s, xs, plans, UpToDip(plans, BatchKeys(xs), j), k);
    PlansSeparate(info, s, xs, plans);
    UpToDipGroup(plans, BatchKeys(xs), j, k);
    assert PlanFor(info, s, xs, k, plans(k));
    NothingAdded(plans(k).a + plans(k).f);
  }

  lemma NothingAdded<T>(xs: seq<T>)
    ensures xs + [] == xs
  {
  }

  // ----- every rejection finds its moment -----

  /** A table that holds all keys ever present but a few has many entries. */
  lemma TableCovers(info: P4Info, s: State, xs: seq<Answered>, now: State, t: int, away: set<TableEntryKey>)
    requires WellFormed(info, s) && away <= EverPresent(s, xs, t)
    requires forall k :: k in EverPresent(s, xs, t) && k !in away ==> Present(now, k)
    ensures |TableOf(now, t)| >= |EverPresent(s, xs, t)| - |away|
  {
    var keys, ever := TableOf(now, t).Keys, EverPresent(s, xs, t);
    forall k | k in ever - away ensures k in keys {
      EverPresentMember(info, s, xs, t, k);
    }
    CoveringSize(ever, away, keys);
    assert |keys| == |TableOf(now, t)|;
  }

  lemma CoveringSize<T>(all: set<T>, away: set<T>, keys: set<T>)
    requires away <= all && all - away <= keys
    ensures |keys| >= |all| - |away|
  {
    SubsetSizes(all - away, keys);
    assert all == away + (all - away);
  }

  /** A rejection is acceptable when its key is away and its table full. */
  lemma AcceptedWhenFull(info: P4Info, s: State, xs: seq<Answered>, r: seq<Answered>, q: seq<Answered>, x: Answered)
    requires q <= r && Admissible(info, x) && IsWellformed(info, x) && x.kind.Insert? && x.status == ResourceExhausted
    requires !Present(AfterAll(info, s, q), KeyFor(x))
    requires |TableOf(AfterAll(info, s, q), x.entry.tableId)| >= info.tables[x.entry.tableId].size
    ensures AcceptedSomewhere(info, s, r, x)
  {
    assert r[..|q|] == q;
    assert Accepts(info, AfterAll(info, s, r[..|q|]), x);
  }

  /** A moment of the schedule at which the table holds all keys ever present but a few. */
  lemma AcceptedWhenCovered(info: P4Info, s: State, xs: seq<Answered>, r: seq<Answered>, q: seq<Answered>, x: Answered,
                            away: set<TableEntryKey>)
    requires Plannable(info, s, xs) && q <= r && x in xs && x.status == ResourceExhausted
    requires !Present(AfterAll(info, s, q), KeyFor(x))
    requires away <= EverPresent(s, xs, x.entry.tableId) && |away| <= Slack(info, s, xs, x.entry.tableId)
    requires forall k :: k in EverPresent(s, xs, x.entry.tableId) && k !in away ==> Present(AfterAll(info, s, q), k)
    ensures AcceptedSomewhere(info, s, r, x)
  {
    TableCovers(info, s, xs, AfterAll(info, s, q), x.entry.tableId, away);
    AcceptedWhenFull(info, s, xs, r, q, x);
  }

  /** Rejections of keys in front, and of keys that are never present. */
  lemma ArrivedAccepts(info: P4Info, s: State, xs: seq<Answered>, plans: TableEntryKey -> Plan, x: Answered)
    requires Plannable(info, s, xs) && Planned(info, s, xs, plans) && x in xs && x.status == ResourceExhausted
    requires Episodes(s, xs, KeyFor(x)) == 0 || RoleOf(info, s, xs, KeyFor(x)) == Front
    ensures AcceptedSomewhere(info, s, Schedule(xs, plans), x)
  {
    var t, q := x.entry.tableId, Stages(plans, BatchKeys(xs), 1);
    FrontOfGood(info, s, xs, t);
    SingleEverPresent(info, s, xs, t, FrontOf(info, s, xs, t));
    forall k | k in EverPresent(s, xs, t) && k !in FrontOf(info, s, xs, t) ensures Present(AfterAll(info, s, q), k) {
      EverPresentMember(info, s, xs, t, k);
      ArrivedPresence(info, s, xs, plans, k);
    }
    ArrivedPresence(info, s, xs, plans, KeyFor(x));
    AcceptedWhenCovered(info, s, xs, Schedule(xs, plans), q, x, FrontOf(info, s, xs, t));
  }

  /** Rejections of keys at the back. */
  lemma DepartedAccepts(info: P4Info, s: State, xs: seq<Answered>, plans: TableEntryKey -> Plan, x: Answered)
    requires Plannable(info, s, xs) && Planned(info, s, xs, plans) && x in xs && x.status == ResourceExhausted
    requires RoleOf(info, s, xs, KeyFor(x)) == Back
    ensures AcceptedSomewhere(info, s, Schedule(xs, plans), x)
  {
    var t, q := x.entry.tableId, Stages(plans, BatchKeys(xs), 4);
    var back := SingleEpisode(s, xs, t) - FrontOf(info, s, xs, t);
    FrontOfGood(info, s, xs, t);
    SingleEverPresent(info, s, xs, t, back);
    forall k | k in EverPresent(s, xs, t) && k !in back ensures Present(AfterAll(info, s, q), k) {
      EverPresentMember(info, s, xs, t, k);
      DepartedPresence(info, s, xs, plans, k);
    }
    DepartedPresence(info, s, xs, plans, KeyFor(x));
    AcceptedWhenCovered(info, s, xs, Schedule(xs, plans), q, x, back);
  }

  lemma DipIsInBatch(info: P4Info, s: State, xs: seq<Answered>, k: TableEntryKey) returns (j: nat)
    requires RoleOf(info, s, xs, k) == Dip
    ensures j < |BatchKeys(xs)| && BatchKeys(xs)[j] == k
  {
    ServedCounts(xs, k);
    GroupMembers(NotExhausted(xs), k);
    KeyListComplete(NotExhausted(xs));
    assert Group(NotExhausted(xs), k)[0] in NotExhausted(xs);
    j :| 0 <= j < |BatchKeys(xs)| && BatchKeys(xs)[j] == k;
  }

  /** Rejections of keys with several episodes. */
  lemma DipAccepts(info: P4Info, s: State, xs: seq<Answered>, plans: TableEntryKey -> Plan, x: Answered)
    requires Plannable(info, s, xs) && Planned(info, s, xs, plans) && x in xs && x.status == ResourceExhausted
    requires RoleOf(info, s, xs, KeyFor(x)) == Dip
    ensures AcceptedSomewhere(info, s, Schedule(xs, plans), x)
  {
    var t, d := x.entry.tableId, KeyFor(x);
    var j := DipIsInBatch(info, s, xs, d);
    var q := UpToDip(plans, BatchKeys(xs), j);
    var away := {d};
    DipFits(info, s, xs, x, away);
    forall k | k in EverPresent(s, xs, t) && k !in away ensures Present(AfterAll(info, s, q), k) {
      EverPresentMember(info, s, xs, t, k);
      DipPresence(info, s, xs, plans, j, k);
    }
    DipPresence(info, s, xs, plans, j, d);
    AcceptedWhenCovered(info, s, xs, Schedule(xs, plans), q, x, away);
  }

  lemma DipFits(info: P4Info, s: State, xs: seq<Answered>, x: Answered, away: set<TableEntryKey>)
    requires Plannable(info, s, xs) && x in xs && x.status == ResourceExhausted && away == {KeyFor(x)}
    requires RoleOf(info, s, xs, KeyFor(x)) == Dip
    ensures away <= EverPresent(s, xs, x.entry.tableId) && |away| <= Slack(info, s, xs, x.entry.tableId)
  {
    KeysOfMember(xs, x);
    EverPresentMember(info, s, xs, x.entry.tableId, KeyFor(x));
    assert KeyFor(x) in RejectedKeys(xs, x.entry.tableId) * EverPresent(s, xs, x.entry.tableId);
  }

  lemma EveryRejectionAccepted(info: P4Info, s: State, xs: seq<Answered>, plans: TableEntryKey -> Plan, x: Answered)
    requires Plannable(info, s, xs) && Planned(info, s, xs, plans) && x in xs && x.status == ResourceExhausted
    ensures AcceptedSomewhere(info, s, Schedule(xs, plans), x)
  {
    KeysOfMember(xs, x);
    if Episodes(s, xs, KeyFor(x)) == 0 || RoleOf(info, s, xs, KeyFor(x)) == Front {
      ArrivedAccepts(info, s, xs, plans, x);
    } else if RoleOf(info, s, xs, KeyFor(x)) == Dip {
      DipAccepts(info, s, xs, plans, x);
    } else {
      DepartedAccepts(info, s, xs, plans, x);
    }
  }

  /** A batch that passes the counting tests has an order that explains it. */
  lemma FittingBatchExplained(info: P4Info, s: State, xs: seq<Answered>)
    requires Plannable(info, s, xs)
    ensures Explainable(info, s, xs)
  {
    ghost var plans := k => PlanOf(info, s, xs, k);
    forall k ensures PlanFor(info, s, xs, k, plans(k)) {
      PlanOfGood(info, s, xs, k);
    }
    var r := Schedule(xs, plans);
    ScheduleLegal(info, s, xs, plans);
    ScheduleElements(info, s, xs, plans);
    FilterMembers((x: Answered) => x.status == ResourceExhausted, xs);
    forall x | x in Exhausted(xs) ensures AcceptedSomewhere(info, s, r, x) {
      EveryRejectionAccepted(info, s, xs, plans, x);
    }
    WovenLegal(info, s, r, Exhausted(xs));
    WovenElements(info, s, r, Exhausted(xs));
    ServedAndRejected(xs);
    assert Permutation(Woven(info, s, r, Exhausted(xs)), xs);
  }
}
