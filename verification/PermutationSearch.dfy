/**
  The search order of the response oracle: lexicographic permutation of a group by the index of
  its updates, one step of which yields the least ordering that is greater.
 */
module PermutationSearch {
  import opened Common
  import opened OracleModel

  type Ordering = seq<Answered>

  predicate DistinctIndices(p: Ordering)
  {
    forall i, j :: 0 <= i < j < |p| ==> p[i].index != p[j].index
  }

  /** Lexicographic order by index, of orderings of the same elements. */
  predicate Less(p: Ordering, q: Ordering)
  {
    p != [] && q != []
    && (p[0].index < q[0].index || (p[0] == q[0] && Less(p[1..], q[1..])))
  }

  predicate Ascending(p: Ordering)
  {
    forall i, j :: 0 <= i < j < |p| ==> p[i].index < p[j].index
  }

  predicate Descending(p: Ordering)
  {
    forall i, j :: 0 <= i < j < |p| ==> p[i].index > p[j].index
  }

  /** q is the next ordering after p: greater, and no ordering lies strictly between. */
  ghost predicate Successor(p: Ordering, q: Ordering)
  {
    Permutation(q, p) && Less(p, q)
    && forall r :: Permutation(r, p) && Less(p, r) ==> r == q || Less(q, r)
  }

  // ----- facts about the order -----

  lemma DistinctAfterPermuting(p: Ordering, r: Ordering)
    requires Permutation(r, p) && DistinctIndices(p)
    ensures |r| == |p| && forall x :: x in r <==> x in p
    ensures forall x, y :: x in p && y in p && x.index == y.index ==> x == y
    ensures DistinctIndices(r)
  {
    PermutationMembers(r, p);
    forall x, y | x in p && y in p && x.index == y.index ensures x == y {
      var i :| 0 <= i < |p| && p[i] == x;
      var j :| 0 <= j < |p| && p[j] == y;
    }
    forall i, j | 0 <= i < j < |r| ensures r[i].index != r[j].index {
      if r[i].index == r[j].index {
        assert r[i] in p && r[j] in p && r[i] == r[j];
        TwiceInMultiset(r, i, j);
        var a :| 0 <= a < |p| && p[a] == r[i];
        OnceInMultiset(p, a);
      }
    }
  }

  lemma TailsPermute(p: Ordering, r: Ordering)
    requires p != [] && r != [] && p[0] == r[0] && Permutation(r, p)
    ensures Permutation(r[1..], p[1..])
  {
    assert p == [p[0]] + p[1..] && r == [r[0]] + r[1..];
    assert multiset(p[1..]) == multiset(p) - multiset{p[0]};
    assert multiset(r[1..]) == multiset(r) - multiset{r[0]};
  }

  /** A descending ordering is the last one. */
  lemma {:induction false} DescendingIsLast(p: Ordering, r: Ordering)
    requires Descending(p) && Permutation(r, p)
    ensures !Less(p, r)
    decreases |p|
  {
    PermutationMembers(r, p);
    if p != [] {
      assert r[0] in p;
      if r[0] == p[0] {
        TailsPermute(p, r);
        DescendingIsLast(p[1..], r[1..]);
      }
    }
  }

  /** An ascending ordering is the first one. */
  lemma {:induction false} AscendingIsFirst(p: Ordering, r: Ordering)
    requires Ascending(p) && Permutation(r, p)
    ensures r == p || Less(p, r)
    decreases |p|
  {
    PermutationMembers(r, p);
    if p != [] {
      assert r[0] in p;
      if r[0] == p[0] {
        TailsPermute(p, r);
        AscendingIsFirst(p[1..], r[1..]);
      }
    }
  }

  lemma {:induction false} LessIrreflexive(p: Ordering)
    ensures !Less(p, p)
    decreases |p|
  {
    if p != [] {
      LessIrreflexive(p[1..]);
    }
  }

  /** A common head changes nothing about successors, or about being last. */
  lemma HeadKeepsSuccessor(x: Answered, p: Ordering, q: Ordering)
    requires DistinctIndices([x] + p) && Successor(p, q)
    ensures Successor([x] + p, [x] + q)
  {
    assert multiset([x] + q) == multiset{x} + multiset(q);
    assert multiset([x] + p) == multiset{x} + multiset(p);
    assert ([x] + p)[1..] == p && ([x] + q)[1..] == q;
    forall r: Ordering | Permutation(r, [x] + p) && Less([x] + p, r)
      ensures r == [x] + q || Less([x] + q, r)
    {
      if r[0] == x {
        TailsPermute([x] + p, r);
        assert r == [x] + r[1..];
      }
    }
  }

  lemma {:induction false} PrefixKeepsSuccessor(a: Ordering, p: Ordering, q: Ordering)
    requires DistinctIndices(a + p) && Successor(p, q)
    ensures Successor(a + p, a + q)
    decreases |a|
  {
    if a == [] {
      assert a + p == p && a + q == q;
    } else {
      var rest := a[1..];
      assert a + p == [a[0]] + (rest + p) && a + q == [a[0]] + (rest + q);
      assert DistinctIndices(rest + p) by {
        assert rest + p == (a + p)[1..];
      }
      PrefixKeepsSuccessor(rest, p, q);
      HeadKeepsSuccessor(a[0], rest + p, rest + q);
    }
  }

  /** Exchanging the pivot with the least greater element of its descending tail, tail then ascending. */
  lemma PivotSuccessor(x: Answered, tail: Ordering, y: Answered, q: Ordering)
    requires Descending(tail) && DistinctIndices([x] + tail)
    requires y in tail && y.index > x.index
    requires forall z :: z in tail && z.index > x.index ==> z.index >= y.index
    requires q != [] && q[0] == y && Ascending(q[1..]) && Permutation(q, [x] + tail)
    ensures Successor([x] + tail, q)
  {
    var p := [x] + tail;
    forall r: Ordering | Permutation(r, p) && Less(p, r)
      ensures r == q || Less(q, r)
    {
      BeyondPivot(x, tail, y, q, r);
    }
  }

  lemma BeyondPivot(x: Answered, tail: Ordering, y: Answered, q: Ordering, r: Ordering)
    requires Descending(tail) && DistinctIndices([x] + tail)
    requires y in tail
    requires forall z :: z in tail && z.index > x.index ==> z.index >= y.index
    requires q != [] && q[0] == y && Ascending(q[1..]) && Permutation(q, [x] + tail)
    requires Permutation(r, [x] + tail) && Less([x] + tail, r)
    ensures r == q || Less(q, r)
  {
    var p := [x] + tail;
    assert p[1..] == tail;
    DistinctAfterPermuting(p, r);
    if r[0] == x {
      TailsPermute(p, r);
      DescendingIsLast(tail, r[1..]);
    } else {
      assert r[0] in r && r[0] in p && r[0] in tail && y in p;
      assert r[0].index >= y.index;
      if r[0].index == y.index {
        SameHead(q, r);
      }
    }
  }

  lemma SameHead(q: Ordering, r: Ordering)
    requires q != [] && r != [] && r[0] == q[0] && Ascending(q[1..]) && Permutation(r, q)
    ensures r == q || Less(q, r)
  {
    TailsPermute(q, r);
    AscendingIsFirst(q[1..], r[1..]);
    assert r == [r[0]] + r[1..] && q == [q[0]] + q[1..];
  }

  // ----- the step -----

  function Reversed(p: Ordering): (r: Ordering)
    ensures |r| == |p|
    ensures forall i :: 0 <= i < |p| ==> r[i] == p[|p| - 1 - i]
  {
    if p == [] then [] else Reversed(p[1..]) + [p[0]]
  }

  lemma {:induction false} ReversedPermutes(p: Ordering)
    ensures Permutation(Reversed(p), p)
  {
    if p != [] {
      ReversedPermutes(p[1..]);
      assert p == [p[0]] + p[1..];
    }
  }

  /**
    The standard step: find the longest descending tail, exchange the element before it with the
    last greater element of the tail, reverse the tail. When the whole ordering descends there is
    no next one and the ordering is reversed, back to the first.
   */
  method NextPermutation(p: Ordering) returns (more: bool, q: Ordering)
    requires DistinctIndices(p)
    ensures more ==> Successor(p, q)
    ensures !more ==> forall r :: Permutation(r, p) ==> !Less(p, r)
    ensures !more ==> q == Reversed(p) && Ascending(q)
    ensures Permutation(q, p)
  {
    if p == [] {
      return false, p;
    }
    var i := DescendingTail(p);
    if i == 0 {
      assert p[0..] == p;
      LastOrdering(p);
      return false, Reversed(p);
    }
    var j := LastGreater(p, i);
    var swapped := p[i - 1 := p[j]][j := p[i - 1]];
    q, more := swapped[..i] + Reversed(swapped[i..]), true;
    StepIsSuccessor(p, i, j, q);
  }

  /** Where the longest descending tail starts. */
  method DescendingTail(p: Ordering) returns (i: nat)
    requires p != [] && DistinctIndices(p)
    ensures i < |p| && Descending(p[i..])
    ensures i > 0 ==> p[i - 1].index < p[i].index
  {
    i := |p| - 1;
    while i > 0 && p[i - 1].index > p[i].index
      invariant i < |p| && Descending(p[i..])
    {
      i := i - 1;
      DescendingGrows(p, i);
    }
  }

  /** The last element of the tail that is greater than the pivot before it. */
  method LastGreater(p: Ordering, i: nat) returns (j: nat)
    requires DistinctIndices(p) && 0 < i < |p| && p[i - 1].index < p[i].index
    ensures i <= j < |p| && p[j].index > p[i - 1].index
    ensures forall k :: j < k < |p| ==> p[k].index < p[i - 1].index
  {
    j := |p| - 1;
    while p[j].index <= p[i - 1].index
      invariant i <= j < |p|
      invariant forall k :: j < k < |p| ==> p[k].index < p[i - 1].index
      decreases j
    {
      j := j - 1;
    }
  }

  lemma LastOrdering(p: Ordering)
    requires Descending(p)
    ensures forall r :: Permutation(r, p) ==> !Less(p, r)
    ensures Ascending(Reversed(p)) && Permutation(Reversed(p), p)
  {
    ReversedPermutes(p);
    forall r: Ordering | Permutation(r, p) ensures !Less(p, r) {
      DescendingIsLast(p, r);
    }
  }

  lemma DescendingGrows(p: Ordering, i: nat)
    requires i + 1 < |p| && p[i].index > p[i + 1].index && Descending(p[i + 1..])
    ensures Descending(p[i..])
  {
  }

  lemma StepIsSuccessor(p: Ordering, i: nat, j: nat, q: Ordering)
    requires DistinctIndices(p) && 1 <= i <= j < |p| && Descending(p[i..])
    requires p[j].index > p[i - 1].index
    requires forall k :: j < k < |p| ==> p[k].index < p[i - 1].index
    requires var swapped := p[i - 1 := p[j]][j := p[i - 1]]; q == swapped[..i] + Reversed(swapped[i..])
    ensures Successor(p, q)
  {
    var a, x, tail, k := StepParts(p, i, j, q);
    StepWithin(a, x, tail, k, p, q);
  }

  /** The step seen from the pivot x: what is before it stays. */
  lemma StepParts(p: Ordering, i: nat, j: nat, q: Ordering) returns (a: Ordering, x: Answered, tail: Ordering, k: nat)
    requires DistinctIndices(p) && 1 <= i <= j < |p| && Descending(p[i..])
    requires p[j].index > p[i - 1].index
    requires forall l :: j < l < |p| ==> p[l].index < p[i - 1].index
    requires var swapped := p[i - 1 := p[j]][j := p[i - 1]]; q == swapped[..i] + Reversed(swapped[i..])
    ensures DistinctIndices([x] + tail) && Descending(tail) && k < |tail|
    ensures tail[k].index > x.index
    ensures forall l :: k < l < |tail| ==> tail[l].index < x.index
    ensures p == a + ([x] + tail) && q == a + ([tail[k]] + Reversed(tail[k := x]))
  {
    a, x, tail, k := p[..i - 1], p[i - 1], p[i..], j - i;
    TailDistinct(p, i);
    StepShape(p, i, j, a, x, tail, q);
  }

  lemma StepWithin(a: Ordering, x: Answered, tail: Ordering, j: nat, p: Ordering, q: Ordering)
    requires DistinctIndices(p) && DistinctIndices([x] + tail) && Descending(tail) && j < |tail|
    requires tail[j].index > x.index
    requires forall k :: j < k < |tail| ==> tail[k].index < x.index
    requires p == a + ([x] + tail) && q == a + ([tail[j]] + Reversed(tail[j := x]))
    ensures Successor(p, q)
  {
    TailSuccessor(x, tail, j);
    PrefixKeepsSuccessor(a, [x] + tail, [tail[j]] + Reversed(tail[j := x]));
  }

  lemma StepShape(p: Ordering, i: nat, j: nat, a: Ordering, x: Answered, tail: Ordering, q: Ordering)
    requires 1 <= i <= j < |p| && a == p[..i - 1] && x == p[i - 1] && tail == p[i..]
    requires var swapped := p[i - 1 := p[j]][j := p[i - 1]]; q == swapped[..i] + Reversed(swapped[i..])
    ensures p == a + ([x] + tail)
    ensures q == a + ([tail[j - i]] + Reversed(tail[j - i := x]))
  {
  }

  lemma TailDistinct(p: Ordering, i: nat)
    requires DistinctIndices(p) && 1 <= i < |p|
    ensures DistinctIndices([p[i - 1]] + p[i..])
  {
  }

  lemma TailSuccessor(x: Answered, tail: Ordering, j: nat)
    requires DistinctIndices([x] + tail) && Descending(tail) && j < |tail|
    requires tail[j].index > x.index
    requires forall k :: j < k < |tail| ==> tail[k].index < x.index
    ensures Successor([x] + tail, [tail[j]] + Reversed(tail[j := x]))
  {
    var swappedTail := tail[j := x];
    TailAscends(tail, x, j, swappedTail);
    SwapPermutes(tail, x, j, swappedTail);
    ReversedPermutes(swappedTail);
    PivotAndTail(x, tail, tail[j], Reversed(swappedTail));
  }

  lemma PivotAndTail(x: Answered, tail: Ordering, y: Answered, rest: Ordering)
    requires Descending(tail) && DistinctIndices([x] + tail)
    requires y in tail && y.index > x.index
    requires forall z :: z in tail && z.index > x.index ==> z.index >= y.index
    requires Ascending(rest) && multiset(rest) + multiset{y} == multiset(tail) + multiset{x}
    ensures Successor([x] + tail, [y] + rest)
  {
    var q := [y] + rest;
    assert q[1..] == rest;
    assert multiset(q) == multiset(rest) + multiset{y};
    assert multiset([x] + tail) == multiset(tail) + multiset{x};
    PivotSuccessor(x, tail, y, q);
  }

  lemma SwapPermutes(tail: Ordering, x: Answered, j: nat, swappedTail: Ordering)
    requires j < |tail| && swappedTail == tail[j := x]
    ensures multiset(swappedTail) + multiset{tail[j]} == multiset(tail) + multiset{x}
  {
  }

  lemma TailAscends(tail: Ordering, x: Answered, j: nat, swappedTail: Ordering)
    requires Descending(tail) && j < |tail| && swappedTail == tail[j := x]
    requires tail[j].index > x.index
    requires forall k :: j < k < |tail| ==> tail[k].index < x.index
    ensures Ascending(Reversed(swappedTail))
  {
  }

  // ----- termination of the search -----

  function Pow(b: nat, n: nat): nat
  {
    if n == 0 then 1 else b * Pow(b, n - 1)
  }

  /** An ordering read as a number in base b. */
  function Rank(p: Ordering, b: nat): nat
  {
    if p == [] then 0 else p[0].index * Pow(b, |p| - 1) + Rank(p[1..], b)
  }

  lemma {:induction false} RankBound(p: Ordering, b: nat)
    requires forall x :: x in p ==> x.index < b
    ensures Rank(p, b) < Pow(b, |p|)
    decreases |p|
  {
    if p != [] {
      assert p[0] in p && forall x :: x in p[1..] ==> x in p;
      RankBound(p[1..], b);
      var w := Pow(b, |p| - 1);
      Scale(p[0].index + 1, b, w);
    }
  }

  lemma Scale(a: nat, b: nat, w: nat)
    requires a <= b
    ensures a * w <= b * w && (a >= 1 ==> (a - 1) * w + w == a * w)
  {
  }

  /** The search climbs: a greater ordering has a greater rank. */
  lemma {:induction false} LessRanks(p: Ordering, q: Ordering, b: nat)
    requires |p| == |q| && Less(p, q)
    requires forall x :: x in p || x in q ==> x.index < b
    ensures Rank(p, b) < Rank(q, b)
    decreases |p|
  {
    assert p[0] in p && q[0] in q;
    assert forall x :: x in p[1..] || x in q[1..] ==> x in p || x in q;
    if p[0].index < q[0].index {
      RankBound(p[1..], b);
      Scale(p[0].index + 1, q[0].index, Pow(b, |p| - 1));
    } else {
      LessRanks(p[1..], q[1..], b);
    }
  }
}
