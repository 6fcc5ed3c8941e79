/**
  What the response oracle decides (p4_fuzzer/oracle_util.cc), as predicates on a state value:
  which answer to one update is right, which sequences of answered updates are legal, and which
  batches some order of execution explains.
 */
module OracleModel {
  import opened Common
  import opened P4Entries
  import opened StateModel
  import opened StateComparison

  /** An update of a table entry with its position in the batch and the answer of the switch. */
  datatype Answered = Answered(index: nat, kind: UpdateType, entry: TableEntry, status: StatusCode)
  {
    function ToUpdate(): Update
    {
      Update(kind, TableEntity(entry))
    }
  }

  function KeyFor(x: Answered): TableEntryKey
  {
    KeyOf(x.entry)
  }

  predicate IsWellformed(info: P4Info, x: Answered)
  {
    EntryTranslates(info, x.entry, false)
  }

  /** The oracle only supports INSERT and DELETE. */
  predicate Supported(info: P4Info, x: Answered)
  {
    IsWellformed(info, x) ==> x.kind.Insert? || x.kind.Delete?
  }

  /** Updates that translate carry canonical keys, as annotation leaves them. */
  predicate CanonicalKey(info: P4Info, x: Answered)
  {
    IsWellformed(info, x) ==> StripKey(KeyFor(x)) == KeyFor(x)
  }

  predicate Admissible(info: P4Info, x: Answered)
  {
    Supported(info, x) && CanonicalKey(info, x)
  }

  /** The answer is a correct way to respond to the update in state s. */
  predicate Accepts(info: P4Info, s: State, x: Answered)
  {
    if !IsWellformed(info, x) then x.status == InvalidArgument
    else
      var exists' := FindEntry(info, s, x.entry).Some?;
      match x.kind
      case Delete => x.status == if exists' then Ok else NotFound
      case Insert =>
        if exists' then x.status == AlreadyExists
        else x.status == Ok
             || (x.status == ResourceExhausted && |TableOf(s, x.entry.tableId)| >= info.tables[x.entry.tableId].size)
      case _ => false
  }

  /** The state the oracle assumes after the answer: changed only when the answer was Ok. */
  function After(info: P4Info, s: State, x: Answered): State
  {
    var next := Apply(info, s, x.ToUpdate());
    if x.status == Ok && next.Some? then next.value else s
  }

  /** Every answer is correct in the state left by the ones before it. */
  predicate LegalRun(info: P4Info, s: State, xs: seq<Answered>)
    decreases |xs|
  {
    xs == [] || (Accepts(info, s, xs[0]) && LegalRun(info, After(info, s, xs[0]), xs[1..]))
  }

  /** Some order of execution explains all the answers. */
  ghost predicate Explainable(info: P4Info, s: State, xs: seq<Answered>)
  {
    exists r :: Permutation(r, xs) && LegalRun(info, s, r)
  }

  function Group(xs: seq<Answered>, k: TableEntryKey): seq<Answered>
  {
    Filter(x => KeyFor(x) == k, xs)
  }

  function NotExhausted(xs: seq<Answered>): seq<Answered>
  {
    Filter((x: Answered) => x.status != ResourceExhausted, xs)
  }

  /** An update answered Ok that is correctly answered does apply. */
  lemma AcceptedOkApplies(info: P4Info, s: State, x: Answered)
    requires x.status == Ok && Accepts(info, s, x)
    ensures Apply(info, s, x.ToUpdate()).Some?
  {
  }

  // ----- one key at a time -----

  predicate Present(s: State, k: TableEntryKey)
  {
    k in TableOf(s, k.tableId)
  }

  /** The answer is correct when the key is present (or not). */
  predicate AcceptsAt(info: P4Info, present: bool, x: Answered)
  {
    if !IsWellformed(info, x) then x.status == InvalidArgument
    else
      match x.kind
      case Delete => x.status == if present then Ok else NotFound
      case Insert => x.status == if present then AlreadyExists else Ok
      case _ => false
  }

  function PresentAfter(info: P4Info, present: bool, x: Answered): bool
  {
    if x.status == Ok then x.kind.Insert? else present
  }

  predicate KeyRun(info: P4Info, present: bool, xs: seq<Answered>)
    decreases |xs|
  {
    xs == [] || (AcceptsAt(info, present, xs[0]) && KeyRun(info, PresentAfter(info, present, xs[0]), xs[1..]))
  }

  /** An update is judged by, and changes, the presence of its own key only. */
  lemma StepIsLocal(info: P4Info, s: State, x: Answered)
    requires Admissible(info, x) && x.status != ResourceExhausted
    ensures Accepts(info, s, x) <==> AcceptsAt(info, Present(s, KeyFor(x)), x)
    ensures Accepts(info, s, x) ==>
              Present(After(info, s, x), KeyFor(x)) == PresentAfter(info, Present(s, KeyFor(x)), x)
    ensures Accepts(info, s, x) ==>
              forall k :: k != KeyFor(x) ==> Present(After(info, s, x), k) == Present(s, k)
  {
    if Accepts(info, s, x) && x.status == Ok {
      AcceptedOkApplies(info, s, x);
      CanonicalKeyCommutes(info, x.entry, x.kind.Delete?);
      forall k ensures Present(After(info, s, x), k) == if k == KeyFor(x) then x.kind.Insert? else Present(s, k) {
        LookupApply(info, s, x.ToUpdate(), TableKey(k));
        assert Present(s, k) == Lookup(s, TableKey(k)).Some?;
        assert Present(After(info, s, x), k) == Lookup(After(info, s, x), TableKey(k)).Some?;
      }
    }
  }

  /** A run over many keys is legal exactly when its restriction to each key is. */
  lemma {:induction false} RunDecomposes(info: P4Info, s: State, xs: seq<Answered>)
    requires forall x :: x in xs ==> Admissible(info, x) && x.status != ResourceExhausted
    ensures LegalRun(info, s, xs) <==> forall k :: KeyRun(info, Present(s, k), Group(xs, k))
    decreases |xs|
  {
    if xs == [] {
      assert forall k :: Group(xs, k) == [];
    } else {
      var x, rest := xs[0], xs[1..];
      assert x in xs;
      StepIsLocal(info, s, x);
      forall k ensures Group(xs, k) == (if KeyFor(x) == k then [x] else []) + Group(rest, k) {
      }
      var own := Group(xs, KeyFor(x));
      assert own[0] == x && own[1..] == Group(rest, KeyFor(x));
      if Accepts(info, s, x) {
        var s' := After(info, s, x);
        RunDecomposes(info, s', rest);
        forall k
          ensures KeyRun(info, Present(s, k), Group(xs, k)) <==> KeyRun(info, Present(s', k), Group(rest, k))
        {
          if k != KeyFor(x) {
            assert Group(xs, k) == Group(rest, k);
          }
        }
      } else {
        assert !KeyRun(info, Present(s, KeyFor(x)), own);
      }
    }
  }

  // ----- locality -----

  lemma GroupOfGroup(xs: seq<Answered>, k: TableEntryKey, k': TableEntryKey)
    ensures Group(Group(xs, k), k') == if k == k' then Group(xs, k) else []
  {
    FilterMembers(x => KeyFor(x) == k, xs);
    FilterAll(x => KeyFor(x) == k', Group(xs, k));
  }

  lemma GroupMembers(xs: seq<Answered>, k: TableEntryKey)
    ensures forall x :: x in Group(xs, k) <==> x in xs && KeyFor(x) == k
  {
    FilterMembers(x => KeyFor(x) == k, xs);
  }

  /** Projection: a legal order of the batch restricts to a legal order of each group. */
  lemma Projection(info: P4Info, s: State, xs: seq<Answered>, r: seq<Answered>, k: TableEntryKey)
    requires forall x :: x in xs ==> Admissible(info, x) && x.status != ResourceExhausted
    requires Permutation(r, xs) && LegalRun(info, s, r)
    ensures Permutation(Group(r, k), Group(xs, k)) && LegalRun(info, s, Group(r, k))
  {
    FilterPermutes(x => KeyFor(x) == k, r, xs);
    PermutationMembers(r, xs);
    GroupMembers(r, k);
    RunDecomposes(info, s, r);
    RunDecomposes(info, s, Group(r, k));
    forall k' ensures KeyRun(info, Present(s, k'), Group(Group(r, k), k')) {
      GroupOfGroup(r, k, k');
    }
  }

  function Others(xs: seq<Answered>, k: TableEntryKey): seq<Answered>
  {
    Filter(x => KeyFor(x) != k, xs)
  }

  lemma SplitByKey(xs: seq<Answered>, k: TableEntryKey)
    ensures multiset(Group(xs, k)) + multiset(Others(xs, k)) == multiset(xs)
    ensures forall k' :: k' != k ==> Group(Others(xs, k), k') == Group(xs, k')
    ensures Group(Others(xs, k), k) == []
  {
    forall x ensures multiset(Group(xs, k))[x] + multiset(Others(xs, k))[x] == multiset(xs)[x] {
      FilterMultiset(x => KeyFor(x) == k, xs, x);
      FilterMultiset(x => KeyFor(x) != k, xs, x);
    }
    forall k' ensures Group(Others(xs, k), k') == if k' == k then [] else Group(xs, k') {
      GroupOfOthers(xs, k, k');
    }
  }

  lemma {:induction false} GroupOfOthers(xs: seq<Answered>, k: TableEntryKey, k': TableEntryKey)
    ensures Group(Others(xs, k), k') == if k' == k then [] else Group(xs, k')
  {
    if xs != [] {
      GroupOfOthers(xs[1..], k, k');
      var head := if KeyFor(xs[0]) != k then [xs[0]] else [];
      assert Others(xs, k) == head + Others(xs[1..], k);
      FilterConcat(x => KeyFor(x) == k', head, Others(xs[1..], k));
      assert Group(head, k') == if head != [] && KeyFor(xs[0]) == k' then [xs[0]] else [];
    }
  }

  /** Merging: legal orders of all groups concatenate to a legal order of the batch. */
  lemma {:induction false} Merging(info: P4Info, s: State, xs: seq<Answered>)
    requires forall x :: x in xs ==> Admissible(info, x) && x.status != ResourceExhausted
    requires forall k :: Explainable(info, s, Group(xs, k))
    ensures Explainable(info, s, xs)
    decreases |xs|
  {
    if xs == [] {
      NothingIsExplainable(info, s);
    } else {
      var k := KeyFor(xs[0]);
      var rest := Others(xs, k);
      SplitByKey(xs, k);
      GroupMembers(xs, k);
      FilterMembers(x => KeyFor(x) != k, xs);
      FewerOthers(xs, k);
      forall k' ensures Explainable(info, s, Group(rest, k')) {
        if k' == k { NothingIsExplainable(info, s); }
      }
      Merging(info, s, rest);
      MergeOne(info, s, xs, k);
    }
  }

  lemma NothingIsExplainable(info: P4Info, s: State)
    ensures Explainable(info, s, [])
  {
    var none: seq<Answered> := [];
    assert Permutation(none, none) && LegalRun(info, s, none);
  }

  /** A legal order of one group followed by one of the other updates. */
  lemma MergeOne(info: P4Info, s: State, xs: seq<Answered>, k: TableEntryKey)
    requires forall x :: x in xs ==> Admissible(info, x) && x.status != ResourceExhausted
    requires Explainable(info, s, Group(xs, k)) && Explainable(info, s, Others(xs, k))
    ensures Explainable(info, s, xs)
  {
    var p :| Permutation(p, Group(xs, k)) && LegalRun(info, s, p);
    var r :| Permutation(r, Others(xs, k)) && LegalRun(info, s, r);
    ConcatLegal(info, s, xs, k, p, r);
    SplitByKey(xs, k);
    assert Permutation(p + r, xs);
  }

  lemma FewerOthers(xs: seq<Answered>, k: TableEntryKey)
    requires xs != [] && KeyFor(xs[0]) == k
    ensures |Others(xs, k)| < |xs|
  {
    SplitByKey(xs, k);
    assert |multiset(xs)| == |xs| && |multiset(Others(xs, k))| == |Others(xs, k)|;
    assert Group(xs, k) == [xs[0]] + Group(xs[1..], k);
    assert |multiset(Group(xs, k))| == |Group(xs, k)|;
    assert |multiset(Group(xs, k)) + multiset(Others(xs, k))| == |multiset(xs)|;
  }

  lemma ConcatLegal(info: P4Info, s: State, xs: seq<Answered>, k: TableEntryKey, p: seq<Answered>, r: seq<Answered>)
    requires forall x :: x in xs ==> Admissible(info, x) && x.status != ResourceExhausted
    requires Permutation(p, Group(xs, k)) && LegalRun(info, s, p)
    requires Permutation(r, Others(xs, k)) && LegalRun(info, s, r)
    ensures LegalRun(info, s, p + r)
  {
    PermutationMembers(p, Group(xs, k));
    PermutationMembers(r, Others(xs, k));
    GroupMembers(xs, k);
    FilterMembers(x => KeyFor(x) != k, xs);
    RunDecomposes(info, s, p);
    RunDecomposes(info, s, r);
    RunDecomposes(info, s, p + r);
    forall k' ensures KeyRun(info, Present(s, k'), Group(p + r, k')) {
      FilterConcat(x => KeyFor(x) == k', p, r);
      FilterAll(x => KeyFor(x) == k', p);
      FilterAll(x => KeyFor(x) == k', r);
      if k' == k {
        assert Group(p + r, k') == Group(p, k');
      } else {
        assert Group(p + r, k') == Group(r, k');
      }
    }
  }

  /**
    Locality: the answers of a batch are explained by one order of the whole batch exactly when
    the answers about each key are explained by some order of that key's updates alone.
   */
  lemma Locality(info: P4Info, s: State, xs: seq<Answered>)
    requires forall x :: x in xs ==> Admissible(info, x) && x.status != ResourceExhausted
    ensures (forall k :: Explainable(info, s, Group(xs, k))) <==> Explainable(info, s, xs)
  {
    if forall k :: Explainable(info, s, Group(xs, k)) {
      Merging(info, s, xs);
    }
    if r :| Permutation(r, xs) && LegalRun(info, s, r) {
      forall k ensures Explainable(info, s, Group(xs, k)) {
        Projection(info, s, xs, r, k);
      }
    }
  }
}
