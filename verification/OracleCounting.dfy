/**
  The permutation search of the response oracle, replaced by counting. Whether some order of one
  key's updates explains their answers depends only on how many answers of each kind there are.
 */
module OracleCounting {
  import opened Common
  import opened P4Entries
  import opened StateModel
  import opened OracleModel

  /** The kinds of answer that can be right in some state. */
  datatype Answer = Rejected | Inserted | Deleted | AlreadyThere | NotThere | Impossible

  function AnswerOf(info: P4Info, x: Answered): Answer
  {
    if !IsWellformed(info, x) then (if x.status == InvalidArgument then Rejected else Impossible)
    else
      match (x.kind, x.status)
      case (Insert, Ok) => Inserted
      case (Insert, AlreadyExists) => AlreadyThere
      case (Delete, Ok) => Deleted
      case (Delete, NotFound) => NotThere
      case _ => Impossible
  }

  function Select(info: P4Info, a: Answer, xs: seq<Answered>): seq<Answered>
  {
    Filter(x => AnswerOf(info, x) == a, xs)
  }

  function Count(info: P4Info, a: Answer, xs: seq<Answered>): nat
  {
    |Select(info, a, xs)|
  }

  function Bit(b: bool): int
  {
    if b then 1 else 0
  }

  /** Presence at the end: initial presence plus successful inserts minus successful deletes. */
  function Balance(info: P4Info, present: bool, xs: seq<Answered>): int
  {
    Bit(present) + Count(info, Inserted, xs) - Count(info, Deleted, xs)
  }

  predicate CountTest(info: P4Info, present: bool, xs: seq<Answered>)
  {
    && Count(info, Impossible, xs) == 0
    && 0 <= Balance(info, present, xs) <= 1
    && (Count(info, AlreadyThere, xs) > 0 ==> present || Count(info, Inserted, xs) > 0)
    && (Count(info, NotThere, xs) > 0 ==> !present || Count(info, Deleted, xs) > 0)
  }

  lemma CountCons(info: P4Info, a: Answer, xs: seq<Answered>)
    requires xs != []
    ensures Count(info, a, xs) == Bit(AnswerOf(info, xs[0]) == a) + Count(info, a, xs[1..])
  {
  }

  lemma CountsPermute(info: P4Info, xs: seq<Answered>, ys: seq<Answered>)
    requires Permutation(xs, ys)
    ensures forall a :: Count(info, a, xs) == Count(info, a, ys)
  {
    forall a ensures Count(info, a, xs) == Count(info, a, ys) {
      FilterPermutes(x => AnswerOf(info, x) == a, xs, ys);
      PermutationMembers(Select(info, a, xs), Select(info, a, ys));
    }
  }

  function FinalPresence(info: P4Info, present: bool, xs: seq<Answered>): bool
    decreases |xs|
  {
    if xs == [] then present else FinalPresence(info, PresentAfter(info, present, xs[0]), xs[1..])
  }

  /** A legal order passes the counting test, and ends in the presence the balance gives. */
  lemma {:induction false} LegalOrderCounts(info: P4Info, present: bool, r: seq<Answered>)
    requires KeyRun(info, present, r)
    ensures CountTest(info, present, r)
    ensures Bit(FinalPresence(info, present, r)) == Balance(info, present, r)
    decreases |r|
  {
    if r != [] {
      LegalOrderCounts(info, PresentAfter(info, present, r[0]), r[1..]);
      CountCons(info, Impossible, r);
      CountCons(info, Inserted, r);
      CountCons(info, Deleted, r);
      CountCons(info, AlreadyThere, r);
      CountCons(info, NotThere, r);
    }
  }

  // ----- building a legal order from the counts -----

  predicate AllOf(info: P4Info, a: Answer, xs: seq<Answered>)
  {
    forall x :: x in xs ==> AnswerOf(info, x) == a
  }

  lemma SelectAll(info: P4Info, a: Answer, xs: seq<Answered>)
    ensures AllOf(info, a, Select(info, a, xs))
  {
    FilterMembers(x => AnswerOf(info, x) == a, xs);
  }

  /** Answers that are right at this presence and do not change it can stand in front of any run. */
  lemma {:induction false} PassiveBlock(info: P4Info, present: bool, a: Answer, block: seq<Answered>,
                                        tail: seq<Answered>)
    requires AllOf(info, a, block)
    requires a == Rejected || a == (if present then AlreadyThere else NotThere)
    ensures KeyRun(info, present, block + tail) <==> KeyRun(info, present, tail)
    decreases |block|
  {
    if block == [] {
      assert block + tail == tail;
    } else {
      assert block[0] in block;
      assert (block + tail)[1..] == block[1..] + tail;
      PassiveBlock(info, present, a, block[1..], tail);
    }
  }

  /** One of a, one of b, one of a, ... */
  function Alternate(a: seq<Answered>, b: seq<Answered>): seq<Answered>
    requires 0 <= |a| - |b| <= 1
    decreases |a| + |b|
  {
    if a == [] then [] else [a[0]] + Alternate(b, a[1..])
  }

  lemma {:induction false} AlternateElements(a: seq<Answered>, b: seq<Answered>)
    requires 0 <= |a| - |b| <= 1
    ensures multiset(Alternate(a, b)) == multiset(a) + multiset(b)
    decreases |a| + |b|
  {
    if a != [] {
      AlternateElements(b, a[1..]);
      assert a == [a[0]] + a[1..];
    }
  }

  function Change(present: bool): Answer
  {
    if present then Deleted else Inserted
  }

  function Passive(present: bool): Answer
  {
    if present then AlreadyThere else NotThere
  }

  lemma {:induction false} AlternateLegal(info: P4Info, present: bool, a: seq<Answered>, b: seq<Answered>)
    requires 0 <= |a| - |b| <= 1
    requires AllOf(info, Change(present), a) && AllOf(info, Change(!present), b)
    ensures KeyRun(info, present, Alternate(a, b))
    decreases |a| + |b|
  {
    if a != [] {
      assert a[0] in a && AllOf(info, Change(present), a[1..]);
      AlternateLegal(info, !present, b, a[1..]);
      var run := Alternate(a, b);
      assert run[0] == a[0] && run[1..] == Alternate(b, a[1..]);
      assert AcceptsAt(info, present, a[0]) && PresentAfter(info, present, a[0]) == !present;
    }
  }

  /** From the first change on: make it, then everything passive on the other side, then alternate. */
  function ChangesFirst(first: seq<Answered>, second: seq<Answered>, passive: seq<Answered>): seq<Answered>
    requires first != [] ==> 0 <= |second| - (|first| - 1) <= 1
  {
    if first == [] then [] else [first[0]] + (passive + Alternate(second, first[1..]))
  }

  lemma ChangesFirstLegal(info: P4Info, present: bool, first: seq<Answered>, second: seq<Answered>,
                          passive: seq<Answered>)
    requires first != [] ==> 0 <= |second| - (|first| - 1) <= 1
    requires AllOf(info, Change(present), first) && AllOf(info, Change(!present), second)
    requires AllOf(info, Passive(!present), passive)
    ensures KeyRun(info, present, ChangesFirst(first, second, passive))
  {
    if first != [] {
      assert first[0] in first && AllOf(info, Change(present), first[1..]);
      var tail := Alternate(second, first[1..]);
      AlternateLegal(info, !present, second, first[1..]);
      PassiveBlock(info, !present, Passive(!present), passive, tail);
      var run := ChangesFirst(first, second, passive);
      assert run[0] == first[0] && run[1..] == passive + tail;
      assert AcceptsAt(info, present, first[0]) && PresentAfter(info, present, first[0]) == !present;
    }
  }

  lemma ChangesFirstElements(first: seq<Answered>, second: seq<Answered>, passive: seq<Answered>)
    requires first != [] ==> 0 <= |second| - (|first| - 1) <= 1
    requires first == [] ==> second == passive == []
    ensures multiset(ChangesFirst(first, second, passive)) == multiset(first) + multiset(second) + multiset(passive)
  {
    if first != [] {
      AlternateElements(second, first[1..]);
      assert first == [first[0]] + first[1..];
    }
  }

  /** A legal order of the updates of one key, whenever the counts allow one. */
  function OrderFromCounts(info: P4Info, present: bool, xs: seq<Answered>): seq<Answered>
    requires CountTest(info, present, xs)
  {
    Select(info, Rejected, xs)
    + (Select(info, Passive(present), xs)
       + ChangesFirst(Select(info, Change(present), xs), Select(info, Change(!present), xs),
                      Select(info, Passive(!present), xs)))
  }

  lemma OrderFromCountsLegal(info: P4Info, present: bool, xs: seq<Answered>)
    requires CountTest(info, present, xs)
    ensures KeyRun(info, present, OrderFromCounts(info, present, xs))
  {
    forall a ensures AllOf(info, a, Select(info, a, xs)) {
      SelectAll(info, a, xs);
    }
    var first, second := Select(info, Change(present), xs), Select(info, Change(!present), xs);
    var passive, here := Select(info, Passive(!present), xs), Select(info, Passive(present), xs);
    var tail := ChangesFirst(first, second, passive);
    ChangesFirstLegal(info, present, first, second, passive);
    PassiveBlock(info, present, Passive(present), here, tail);
    PassiveBlock(info, present, Rejected, Select(info, Rejected, xs), here + tail);
  }

  lemma OrderFromCountsElements(info: P4Info, present: bool, xs: seq<Answered>)
    requires CountTest(info, present, xs)
    ensures multiset(OrderFromCounts(info, present, xs)) == Selections(info, xs)
  {
    var first, second := Select(info, Change(present), xs), Select(info, Change(!present), xs);
    var passive, early := Select(info, Passive(!present), xs), Select(info, Passive(present), xs);
    var rejected := Select(info, Rejected, xs);
    ChangesFirstElements(first, second, passive);
    if present {
      Regroup(multiset(rejected), multiset(early), multiset(first), multiset(second), multiset(passive));
    } else {
      Regroup(multiset(rejected), multiset(early), multiset(first), multiset(second), multiset(passive));
    }
  }

  lemma Regroup<T>(r: multiset<T>, e: multiset<T>, f: multiset<T>, s: multiset<T>, p: multiset<T>)
    ensures r + (e + (f + s + p)) == r + f + s + e + p == r + s + f + p + e
  {
  }

  ghost function Selections(info: P4Info, xs: seq<Answered>): multiset<Answered>
  {
    multiset(Select(info, Rejected, xs)) + multiset(Select(info, Inserted, xs)) + multiset(Select(info, Deleted, xs))
    + multiset(Select(info, AlreadyThere, xs)) + multiset(Select(info, NotThere, xs))
  }

  /** The five selections of a group without impossible answers make up the group. */
  lemma SelectionsPartition(info: P4Info, xs: seq<Answered>)
    requires Count(info, Impossible, xs) == 0
    ensures multiset(xs) == Selections(info, xs)
  {
    var parts := Selections(info, xs);
    forall x ensures multiset(xs)[x] == parts[x] {
      SelectAt(info, Rejected, xs, x);
      SelectAt(info, Inserted, xs, x);
      SelectAt(info, Deleted, xs, x);
      SelectAt(info, AlreadyThere, xs, x);
      SelectAt(info, NotThere, xs, x);
      SelectAt(info, Impossible, xs, x);
      assert multiset(Select(info, Impossible, xs)) == multiset{};
    }
    assert multiset(xs) == parts;
  }

  lemma SelectAt(info: P4Info, answer: Answer, xs: seq<Answered>, x: Answered)
    ensures multiset(Select(info, answer, xs))[x] == if AnswerOf(info, x) == answer then multiset(xs)[x] else 0
  {
    FilterMultiset(x => AnswerOf(info, x) == answer, xs, x);
  }

  /** A run over updates of a single key is legal exactly when it is legal for that key. */
  lemma SingleKeyRun(info: P4Info, s: State, r: seq<Answered>, k: TableEntryKey)
    requires forall x :: x in r ==> Admissible(info, x) && x.status != ResourceExhausted && KeyFor(x) == k
    ensures LegalRun(info, s, r) <==> KeyRun(info, Present(s, k), r)
  {
    RunDecomposes(info, s, r);
    forall k' ensures Group(r, k') == if k' == k then r else [] {
      FilterAll(x => KeyFor(x) == k', r);
    }
  }

  /**
    Counting refines the search: the updates of one key have a legal order exactly when their
    answers pass the counting test.
   */
  lemma CountingDecides(info: P4Info, s: State, xs: seq<Answered>, k: TableEntryKey)
    requires forall x :: x in xs ==> Admissible(info, x) && x.status != ResourceExhausted && KeyFor(x) == k
    ensures Explainable(info, s, xs) <==> CountTest(info, Present(s, k), xs)
  {
    if r :| Permutation(r, xs) && LegalRun(info, s, r) {
      PermutationMembers(r, xs);
      SingleKeyRun(info, s, r, k);
      LegalOrderCounts(info, Present(s, k), r);
      CountsPermute(info, r, xs);
    }
    if CountTest(info, Present(s, k), xs) {
      CountsExplain(info, s, xs, k);
    }
  }

  lemma CountsExplain(info: P4Info, s: State, xs: seq<Answered>, k: TableEntryKey)
    requires forall x :: x in xs ==> Admissible(info, x) && x.status != ResourceExhausted && KeyFor(x) == k
    requires CountTest(info, Present(s, k), xs)
    ensures Explainable(info, s, xs)
  {
    var r := OrderFromCounts(info, Present(s, k), xs);
    OrderFromCountsLegal(info, Present(s, k), xs);
    OrderFromCountsElements(info, Present(s, k), xs);
    SelectionsPartition(info, xs);
    assert Permutation(r, xs);
    PermutationMembers(r, xs);
    SingleKeyRun(info, s, r, k);
  }

  /** All legal orders of one key's updates leave the key in the same state. */
  lemma LegalOrdersAgree(info: P4Info, present: bool, xs: seq<Answered>, r: seq<Answered>)
    requires Permutation(r, xs) && KeyRun(info, present, r)
    ensures Bit(FinalPresence(info, present, r)) == Balance(info, present, xs)
  {
    LegalOrderCounts(info, present, r);
    CountsPermute(info, r, xs);
  }
}
