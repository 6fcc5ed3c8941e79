/**
  Generation of action-profile groups (p4_fuzzer/fuzz_util.cc) against the checker that judges
  them (p4_fuzzer/switch_state.cc); the semantics of group sizes is in section 9.2.3 of the
  P4Runtime Specification.
 */
module ActionProfileGroups {
  import opened Common
  import opened ByteStrings
  import opened P4Entries
  import opened StateModel
  import opened Statistics
  import opened ResourcePrediction

  const MAX_CARDINALITY := 32
  const MAX_MEMBER_WEIGHT := 4095

  /** The random decisions behind one member. */
  datatype MemberDraw = MemberDraw(action: Action, watchPort: Bytes, weightPick: nat)

  function Min(a: int, b: int): int
  {
    if a < b then a else b
  }

  /** Conversion of a 64-bit size to a 32-bit int. */
  function ToInt32(x: int): Int32
  {
    var r := x % 0x1_0000_0000;
    if r < 0x8000_0000 then r else r - 0x1_0000_0000
  }

  /** The weight a SumOfWeights group may distribute, converted to 32 bits twice on the way. */
  function WeightBudget(profile: ActionProfile): Int32
  {
    ToInt32(Min(ToInt32(if profile.maxGroupSize == 0 then profile.size else profile.maxGroupSize), profile.size))
  }

  /** The profile's limits bound the budget unless the size is so negative that it wraps around. */
  lemma BudgetBounds(profile: ActionProfile)
    ensures profile.size >= -0x8000_0000 ==>
              WeightBudget(profile) <= profile.size
              && (profile.maxGroupSize != 0 ==> WeightBudget(profile) <= profile.maxGroupSize)
    ensures profile.size < -0x8000_0000 ==> WeightBudget(profile) == ToInt32(profile.size)
  {
  }

  function FuzzActionProfileAction(draw: MemberDraw, maxWeight: int): (m: GroupMember)
    ensures m.weight >= 1 && (maxWeight >= 1 ==> m.weight <= maxWeight)
  {
    GroupMember(draw.action, UniformHalfOpen(1, maxWeight, draw.weightPick), draw.watchPort)
  }

  /** How many members a group gets. */
  function Cardinality(profile: ActionProfile, noEmptyGroups: bool, cardinality: nat): int
  {
    UniformClosed(
      if noEmptyGroups then 1 else 0,
      if profile.sumOfMembers.Some? then (if profile.maxGroupSize != 0 then profile.maxGroupSize else MAX_CARDINALITY)
      else Min(WeightBudget(profile), MAX_CARDINALITY),
      cardinality)
  }

  /** The i-th member: its weight leaves at least 1 for every member that is still to come. */
  function Member(profile: ActionProfile, members: seq<GroupMember>, draw: nat -> MemberDraw, i: nat): GroupMember
    requires i < |members|
  {
    FuzzActionProfileAction(
      draw(i),
      if profile.sumOfMembers.Some?
      then (if profile.MaxMemberWeight() != 0 then profile.MaxMemberWeight() else MAX_MEMBER_WEIGHT)
      else Left(WeightBudget(profile), members, i) - (|members| - i - 1))
  }

  /** The entry of a table that holds exactly this group. */
  function EntryWith(members: seq<GroupMember>): TableEntry
  {
    TableEntry(0, 0, map[], ActionSet(members), [])
  }

  /** Under SumOfMembers: every weight up to the member limit. */
  method FuzzMembers(profile: ActionProfile, count: int, draw: nat -> MemberDraw) returns (members: seq<GroupMember>)
    requires profile.sumOfMembers.Some?
    ensures |members| == if count > 0 then count else 0
    ensures forall i {:trigger Member(profile, members, draw, i)} ::
              0 <= i < |members| ==> members[i] == Member(profile, members, draw, i)
    ensures forall m :: m in members ==> m.weight >= 1
    ensures forall m :: m in members ==> (MemberPasses(profile, m.weight) <==> profile.MaxMemberWeight() >= 0)
  {
    members := [];
    var maxMemberWeight := if profile.MaxMemberWeight() != 0 then profile.MaxMemberWeight() else MAX_MEMBER_WEIGHT;
    var i := 0;
    while i < count
      invariant |members| == i && (i == 0 || i <= count)
      invariant forall j :: 0 <= j < i ==> members[j] == FuzzActionProfileAction(draw(j), maxMemberWeight)
      invariant forall m :: m in members ==> m.weight >= 1
      invariant forall m :: m in members ==> (MemberPasses(profile, m.weight) <==> profile.MaxMemberWeight() >= 0)
    {
      members := members + [FuzzActionProfileAction(draw(i), maxMemberWeight)];
      i := i + 1;
    }
  }

  /** What the first n members leave of the budget. */
  function Left(budget: int, members: seq<GroupMember>, n: nat): int
    requires n <= |members|
  {
    if n == 0 then budget else Left(budget, members, n - 1) - members[n - 1].weight
  }

  lemma {:induction false} LeftKeeps(budget: int, members: seq<GroupMember>, next: GroupMember, n: nat)
    requires n <= |members|
    ensures Left(budget, members + [next], n) == Left(budget, members, n)
  {
    if n > 0 {
      LeftKeeps(budget, members, next, n - 1);
    }
  }

  /** The members drawn so far, out of `count`, each within what the ones before it left. */
  ghost predicate SplitOf(budget: int, members: seq<GroupMember>, count: int, member: (nat, int) -> GroupMember)
  {
    forall j {:trigger Fits(budget, members, count, member, j)} ::
      0 <= j < |members| ==> Fits(budget, members, count, member, j)
  }

  ghost predicate Fits(budget: int, members: seq<GroupMember>, count: int, member: (nat, int) -> GroupMember, j: nat)
    requires j < |members|
  {
    members[j] == member(j, Left(budget, members, j) - (count - j - 1))
  }

  lemma SplitFurther(budget: int, members: seq<GroupMember>, count: int, member: (nat, int) -> GroupMember,
                     next: GroupMember)
    requires SplitOf(budget, members, count, member)
    requires next == member(|members|, Left(budget, members, |members|) - (count - |members| - 1))
    ensures SplitOf(budget, members + [next], count, member)
  {
    var more := members + [next];
    forall j | 0 <= j < |more| ensures Fits(budget, more, count, member, j) {
      LeftKeeps(budget, members, next, j);
      assert j < |members| ==> Fits(budget, members, count, member, j);
    }
  }

  lemma WeightExtends(budget: int, members: seq<GroupMember>, next: GroupMember)
    ensures WeightOf(members + [next]) == WeightOf(members) + next.weight
    ensures Left(budget, members + [next], |members| + 1) == Left(budget, members, |members|) - next.weight
  {
    assert (members + [next])[..|members|] == members;
    LeftKeeps(budget, members, next, |members|);
  }

  /**
    Under SumOfWeights: weights that leave at least 1 for every member still to come. The bound of a
    draw above 1 is never drawn, so the budget is used up only when every member gets weight 1.
   */
  method FuzzWeights(profile: ActionProfile, count: nat, draw: nat -> MemberDraw) returns (members: seq<GroupMember>)
    requires profile.sumOfMembers == None && count <= WeightBudget(profile)
    ensures |members| == count && WeightOf(members) <= WeightBudget(profile)
    ensures WeightOf(members) == WeightBudget(profile) <==> count == WeightBudget(profile)
    ensures forall i {:trigger Member(profile, members, draw, i)} ::
              0 <= i < |members| ==> members[i] == Member(profile, members, draw, i)
    ensures forall m :: m in members ==> m.weight >= 1
  {
    members := DistributeWeight(WeightBudget(profile), count, draw);
    forall i | 0 <= i < count ensures members[i] == Member(profile, members, draw, i) {
      assert Fits(WeightBudget(profile), members, count, Drawer(draw), i);
    }
  }

  /** The loop over the members, for any weight that suffices for them. */
  method DistributeWeight(budget: nat, count: nat, draw: nat -> MemberDraw) returns (members: seq<GroupMember>)
    requires count <= budget
    ensures |members| == count && WeightOf(members) <= budget
    ensures WeightOf(members) == budget <==> count == budget
    ensures SplitOf(budget, members, count, Drawer(draw))
    ensures forall m :: m in members ==> m.weight >= 1
  {
    members := [];
    var unallocatedWeight := budget;
    for i := 0 to count
      invariant |members| == i
      invariant unallocatedWeight >= count - i
      invariant unallocatedWeight == count - i <==> count == budget
      invariant WeightOf(members) + unallocatedWeight == budget
      invariant unallocatedWeight == Left(budget, members, i)
      invariant forall m :: m in members ==> m.weight >= 1
      invariant SplitOf(budget, members, count, Drawer(draw))
    {
      var remainingActions := count - i - 1;
      var maxWeight := unallocatedWeight - remainingActions;
      var action := FuzzActionProfileAction(draw(i), maxWeight);
      SplitFurther(budget, members, count, Drawer(draw), action);
      WeightExtends(budget, members, action);
      members := members + [action];
      unallocatedWeight := unallocatedWeight - action.weight;
    }
  }

  /** What the random decisions make of a profile. */
  ghost predicate Generated(profile: ActionProfile, noEmptyGroups: bool, cardinality: nat, draw: nat -> MemberDraw,
                            members: seq<GroupMember>)
  {
    |members| == Cardinality(profile, noEmptyGroups, cardinality)
    && forall i {:trigger Member(profile, members, draw, i)} ::
         0 <= i < |members| ==> members[i] == Member(profile, members, draw, i)
  }

  /**
    A group for the profile, or None when the profile leaves no weight to give. The group passes
    the per-group checks, except under SumOfMembers with a negative limit, where it cannot, and
    under SumOfWeights when the profile's size is below the 32-bit range: then the group may exceed
    the limit for groups, and it never fits the profile.
   */
  method FuzzActionProfileActionSet(profile: ActionProfile, noEmptyGroups: bool, cardinality: nat,
                                    draw: nat -> MemberDraw)
    returns (r: Option<seq<GroupMember>>)
    ensures r.Some? <==> profile.sumOfMembers.Some? || WeightBudget(profile) > 0
    ensures r.Some? ==> Generated(profile, noEmptyGroups, cardinality, draw, r.value)
    ensures r.Some? ==> forall m :: m in r.value ==> m.weight >= 1
    ensures r.Some? ==> forall i :: 0 <= i < |r.value| ==>
              r.value[i].action == draw(i).action && r.value[i].watchPort == draw(i).watchPort
    ensures r.Some? && noEmptyGroups ==> r.value != []
    ensures r.Some? ==> |r.value| <= if profile.sumOfMembers == None || profile.maxGroupSize == 0 then 32
                                     else Max(profile.maxGroupSize, 1)
    ensures profile.sumOfMembers.Some? ==>
              (GroupPasses(profile, EntryWith(r.value))
               <==> profile.maxGroupSize >= 0 && (profile.MaxMemberWeight() >= 0 || r.value == []))
    ensures r.Some? && profile.sumOfMembers == None ==>
              WeightOf(r.value) <= WeightBudget(profile)
              && (GroupPasses(profile, EntryWith(r.value))
                  <==> profile.maxGroupSize == 0 || WeightOf(r.value) <= profile.maxGroupSize)
              && (profile.size >= -0x8000_0000 ==> GroupPasses(profile, EntryWith(r.value)))
              && (ProfileVerdict(profile, map[], EntryWith(r.value), Insert) == Ok <==> profile.size >= -0x8000_0000)
  {
    var fewest := if noEmptyGroups then 1 else 0;
    if profile.sumOfMembers.Some? {
      var maxNumberOfActions := if profile.maxGroupSize != 0 then profile.maxGroupSize else MAX_CARDINALITY;
      var members := FuzzMembers(profile, UniformClosed(fewest, maxNumberOfActions, cardinality), draw);
      if members != [] {
        assert members[0] in members;
      }
      DrawnActions(profile, members, draw);
      return Some(members);
    }
    var unallocatedWeight := WeightBudget(profile);
    if unallocatedWeight <= 0 {
      return None;
    }
    var members := FuzzWeights(profile, UniformClosed(fewest, Min(unallocatedWeight, MAX_CARDINALITY), cardinality),
                               draw);
    EmptyUsage(profile);
    BudgetBounds(profile);
    WeightAtLeast(members);
    DrawnActions(profile, members, draw);
    r := Some(members);
  }

  lemma DrawnActions(profile: ActionProfile, members: seq<GroupMember>, draw: nat -> MemberDraw)
    requires forall i {:trigger Member(profile, members, draw, i)} ::
               0 <= i < |members| ==> members[i] == Member(profile, members, draw, i)
    ensures forall i :: 0 <= i < |members| ==>
              members[i].action == draw(i).action && members[i].watchPort == draw(i).watchPort
  {
    forall i | 0 <= i < |members|
      ensures members[i].action == draw(i).action && members[i].watchPort == draw(i).watchPort
    {
      assert members[i] == Member(profile, members, draw, i);
    }
  }

  lemma {:induction false} WeightAtLeast(members: seq<GroupMember>)
    requires forall m :: m in members ==> m.weight >= 1
    ensures WeightOf(members) >= |members|
  {
    if members != [] {
      var init := members[..|members| - 1];
      assert forall m :: m in init ==> m in members;
      assert members[|members| - 1] in members;
      WeightAtLeast(init);
    }
  }

  lemma EmptyUsage(profile: ActionProfile)
    ensures Usage(profile, map[]) == 0
  {
  }

  // ----- which profiles can get a group that is too heavy -----

  lemma DrawnWeight(draw: MemberDraw, maxWeight: int)
    requires maxWeight >= 1
    ensures var weight := FuzzActionProfileAction(draw, maxWeight).weight;
            1 <= weight <= maxWeight && (weight == maxWeight <==> maxWeight == 1)
  {
  }

  /** The weight left after n members, by the draws alone. */
  lemma {:induction false} DrawnLeft(budget: int, members: seq<GroupMember>, draw: nat -> MemberDraw, n: nat)
    requires n <= |members| <= budget
    requires SplitOf(budget, members, |members|, Drawer(draw))
    ensures Left(budget, members, n) >= |members| - n
    ensures Left(budget, members, n) == |members| - n <==> |members| == budget
  {
    if n > 0 {
      DrawnLeft(budget, members, draw, n - 1);
      assert Fits(budget, members, |members|, Drawer(draw), n - 1);
      DrawnWeight(draw(n - 1), Left(budget, members, n - 1) - (|members| - n));
    }
  }

  function Drawer(draw: nat -> MemberDraw): (nat, int) -> GroupMember
  {
    (i: nat, maxWeight: int) => FuzzActionProfileAction(draw(i), maxWeight)
  }

  lemma {:induction false} LeftIsRest(budget: int, members: seq<GroupMember>, n: nat)
    requires n <= |members|
    ensures WeightOf(members[..n]) + Left(budget, members, n) == budget
  {
    if n > 0 {
      LeftIsRest(budget, members, n - 1);
      assert members[..n][..n - 1] == members[..n - 1];
    }
  }

  /** Generated weights use up the budget only if every member gets weight 1. */
  lemma GeneratedWeight(profile: ActionProfile, noEmptyGroups: bool, cardinality: nat, draw: nat -> MemberDraw,
                        members: seq<GroupMember>)
    requires profile.sumOfMembers == None && WeightBudget(profile) > 0
    requires Generated(profile, noEmptyGroups, cardinality, draw, members)
    ensures WeightOf(members) <= LargestWeight(WeightBudget(profile))
    ensures forall m :: m in members ==> m.weight >= 1
  {
    var budget := WeightBudget(profile);
    forall i | 0 <= i < |members| ensures Fits(budget, members, |members|, Drawer(draw), i) {
      assert members[i] == Member(profile, members, draw, i);
    }
    DrawnLeft(budget, members, draw, |members|);
    LeftIsRest(budget, members, |members|);
    assert members[..|members|] == members;
    forall i | 0 <= i < |members| ensures members[i].weight >= 1 {
      assert members[i] == Member(profile, members, draw, i);
    }
  }

  /** The largest weight of a generated group: the whole budget only if it can be given in ones. */
  function LargestWeight(budget: int): int
  {
    if budget <= MAX_CARDINALITY then budget else budget - 1
  }

  function SampleDraw(weightPick: nat): MemberDraw
  {
    MemberDraw(Action(0, map[]), [], weightPick)
  }

  function Samples(weightPick: nat): nat -> MemberDraw
  {
    i => SampleDraw(weightPick)
  }

  /** Every number of members up to the budget can be drawn. */
  lemma CardinalityDrawn(profile: ActionProfile, noEmptyGroups: bool, count: nat) returns (cardinality: nat)
    requires profile.sumOfMembers == None && 1 <= count <= Min(WeightBudget(profile), MAX_CARDINALITY)
    ensures Cardinality(profile, noEmptyGroups, cardinality) == count
  {
    var fewest, most := if noEmptyGroups then 1 else 0, Min(WeightBudget(profile), MAX_CARDINALITY);
    cardinality := count - fewest;
    PickInRange(cardinality, most + 1 - fewest);
  }

  /** Under SumOfMembers every number of members up to the limit can be drawn. */
  lemma MembersDrawn(profile: ActionProfile, noEmptyGroups: bool, count: nat) returns (cardinality: nat)
    requires profile.sumOfMembers.Some? && (noEmptyGroups ==> count >= 1)
    requires count <= if profile.maxGroupSize != 0 then profile.maxGroupSize else 32
    ensures Cardinality(profile, noEmptyGroups, cardinality) == count
  {
    var fewest, most := if noEmptyGroups then 1 else 0, if profile.maxGroupSize != 0 then profile.maxGroupSize else 32;
    cardinality := count - fewest;
    PickInRange(cardinality, most + 1 - fewest);
  }

  /** And each member gets any weight below its limit, or 4095, whatever the others got. */
  lemma MemberWeights(profile: ActionProfile, members: seq<GroupMember>, i: nat, weight: int)
    requires profile.sumOfMembers.Some? && i < |members|
    ensures (exists draw: nat -> MemberDraw :: Member(profile, members, draw, i).weight == weight)
       <==> weight == 1
            || 1 <= weight < (if profile.sumOfMembers.value.maxMemberWeight != 0
                              then profile.sumOfMembers.value.maxMemberWeight else 4095)
  {
    var limit := if profile.MaxMemberWeight() != 0 then profile.MaxMemberWeight() else 4095;
    WeightsDrawn(limit, weight);
    if pick: nat :| UniformHalfOpen(1, limit, pick) == weight {
      assert Member(profile, members, Samples(pick), i).weight == weight;
    }
    if draw: nat -> MemberDraw :| Member(profile, members, draw, i).weight == weight {
      assert UniformHalfOpen(1, limit, draw(i).weightPick) == weight;
    }
  }

  function Ones(count: nat): (members: seq<GroupMember>)
    ensures |members| == count && forall i :: 0 <= i < count ==> members[i] == FuzzActionProfileAction(SampleDraw(0), 1)
  {
    seq(count, i => FuzzActionProfileAction(SampleDraw(0), 1))
  }

  lemma {:induction false} OnesLeft(budget: int, members: seq<GroupMember>, n: nat)
    requires n <= |members| && forall i :: 0 <= i < |members| ==> members[i].weight == 1
    ensures Left(budget, members, n) == budget - n
  {
    if n > 0 {
      OnesLeft(budget, members, n - 1);
    }
  }

  /** As many members as the budget has ones leave nothing. */
  lemma OnesFit(budget: nat)
    ensures SplitOf(budget, Ones(budget), budget, Drawer(Samples(0)))
    ensures WeightOf(Ones(budget)) == budget
  {
    var members := Ones(budget);
    forall i | 0 <= i < budget ensures Fits(budget, members, budget, Drawer(Samples(0)), i) {
      OnesLeft(budget, members, i);
      assert Drawer(Samples(0))(i, 1) == FuzzActionProfileAction(SampleDraw(0), 1);
    }
    OnesLeft(budget, members, budget);
    LeftIsRest(budget, members, budget);
    assert members[..budget] == members;
  }

  /** A single member can take all of a larger budget but one. */
  lemma OneFits(budget: nat, members: seq<GroupMember>)
    requires budget >= 2 && members == [Drawer(Samples(budget - 2))(0, budget)]
    ensures SplitOf(budget, members, 1, Drawer(Samples(budget - 2)))
    ensures WeightOf(members) == budget - 1
  {
    assert Fits(budget, members, 1, Drawer(Samples(budget - 2)), 0);
    PickInRange(budget - 2, budget - 1);
    assert members[..0] == [];
    assert WeightOf(members[..0]) == 0;
  }

  lemma SplitIsGenerated(profile: ActionProfile, noEmptyGroups: bool, cardinality: nat, draw: nat -> MemberDraw,
                         members: seq<GroupMember>)
    requires profile.sumOfMembers == None && |members| == Cardinality(profile, noEmptyGroups, cardinality)
    requires SplitOf(WeightBudget(profile), members, |members|, Drawer(draw))
    ensures Generated(profile, noEmptyGroups, cardinality, draw, members)
  {
    forall i | 0 <= i < |members| ensures members[i] == Member(profile, members, draw, i) {
      assert Fits(WeightBudget(profile), members, |members|, Drawer(draw), i);
    }
  }

  /** A group of the largest weight can be drawn. */
  lemma LargestWeightDrawn(profile: ActionProfile, noEmptyGroups: bool)
    returns (cardinality: nat, draw: nat -> MemberDraw, members: seq<GroupMember>)
    requires profile.sumOfMembers == None && WeightBudget(profile) > 0
    ensures Generated(profile, noEmptyGroups, cardinality, draw, members)
    ensures WeightOf(members) == LargestWeight(WeightBudget(profile))
  {
    var budget := WeightBudget(profile);
    if budget <= MAX_CARDINALITY {
      draw, members := Samples(0), Ones(budget);
      OnesFit(budget);
    } else {
      draw := Samples(budget - 2);
      members := [Drawer(draw)(0, budget)];
      OneFits(budget, members);
    }
    cardinality := CardinalityDrawn(profile, noEmptyGroups, |members|);
    SplitIsGenerated(profile, noEmptyGroups, cardinality, draw, members);
  }

  /**
    Every group that can be generated passes the per-group checks exactly when no limit is given,
    the size is within the 32-bit range or above, or the heaviest group still meets the limit.
   */
  lemma EveryGroupPassesIff(profile: ActionProfile, noEmptyGroups: bool)
    requires profile.sumOfMembers == None && WeightBudget(profile) > 0
    ensures (forall cardinality, draw, members :: Generated(profile, noEmptyGroups, cardinality, draw, members) ==>
               GroupPasses(profile, EntryWith(members)))
       <==> profile.maxGroupSize == 0 || profile.size >= -0x8000_0000
            || LargestWeight(WeightBudget(profile)) <= profile.maxGroupSize
  {
    BudgetBounds(profile);
    forall cardinality, draw, members | Generated(profile, noEmptyGroups, cardinality, draw, members)
      ensures WeightOf(members) <= LargestWeight(WeightBudget(profile))
      ensures forall m: GroupMember :: m in members ==> m.weight >= 1
    {
      GeneratedWeight(profile, noEmptyGroups, cardinality, draw, members);
    }
    var cardinality, draw, members := LargestWeightDrawn(profile, noEmptyGroups);
    assert GroupPasses(profile, EntryWith(members)) ==>
        profile.maxGroupSize == 0 || WeightOf(members) <= profile.maxGroupSize;
  }

  /** A size that wraps around: groups of weight 5 for a profile that allows 3. */
  lemma WrappedSizeIsTooHeavy() returns (cardinality: nat, draw: nat -> MemberDraw, members: seq<GroupMember>)
    ensures var profile := ActionProfile(-4294967291, 3, None);
            WeightBudget(profile) == 5 && Generated(profile, true, cardinality, draw, members)
            && WeightOf(members) == 5 && !GroupPasses(profile, EntryWith(members))
  {
    cardinality, draw, members := LargestWeightDrawn(ActionProfile(-4294967291, 3, None), true);
  }

  /** The weights that can be drawn: 1, and everything from 1 up to but not including the bound. */
  lemma WeightsDrawn(maxWeight: int, weight: int)
    ensures (exists pick: nat :: UniformHalfOpen(1, maxWeight, pick) == weight)
       <==> weight == 1 || 1 <= weight < maxWeight
  {
    if 1 <= weight < maxWeight {
      assert (weight - 1) % (maxWeight - 1) == weight - 1;
      assert UniformHalfOpen(1, maxWeight, weight - 1) == weight;
    } else if weight == 1 {
      assert UniformHalfOpen(1, maxWeight, 0) == 1;
    }
  }
}
