/**
  The undo log of a programming context (lib/p4rt/p4rt_programming_context.cc): a stack of inverse
  write requests over a switch that answers as the P4Runtime Specification requires.
 */
module ProgrammingContext {
  import opened Common
  import opened P4Entries
  import opened StateModel

  type WriteRequest = seq<Update>

  // ----- inverse requests -----

  function InverseKind(kind: UpdateType): UpdateType
  {
    match kind
    case Insert => Delete
    case Delete => Insert
    case _ => Unspecified
  }

  function Inverse(u: Update): Update
  {
    u.(kind := InverseKind(u.kind))
  }

  /** The updates in their original order, each with INSERT and DELETE exchanged. */
  function InverseRequest(us: WriteRequest): WriteRequest
  {
    seq(|us|, i requires 0 <= i < |us| => Inverse(us[i]))
  }

  method InvertP4rtRequest(request: WriteRequest) returns (inverse: WriteRequest)
    ensures inverse == InverseRequest(request)
    ensures |inverse| == |request| && forall i :: 0 <= i < |request| ==>
              inverse[i].entity == request[i].entity
              && (request[i].kind.Insert? ==> inverse[i].kind.Delete?)
              && (request[i].kind.Delete? ==> inverse[i].kind.Insert?)
  {
    inverse := request;
    for i := 0 to |inverse|
      invariant |inverse| == |request|
      invariant forall j :: 0 <= j < i ==> inverse[j] == Inverse(request[j])
      invariant forall j :: i <= j < |request| ==> inverse[j] == request[j]
    {
      match inverse[i].kind
      case Insert => inverse := inverse[i := inverse[i].(kind := Delete)];
      case Delete => inverse := inverse[i := inverse[i].(kind := Insert)];
      case _ => inverse := inverse[i := inverse[i].(kind := Unspecified)];
    }
  }

  predicate Supported(us: WriteRequest)
  {
    forall u :: u in us ==> u.kind.Insert? || u.kind.Delete?
  }

  /** The entity an update carries, in full canonical form. */
  function Carried(info: P4Info, u: Update): Option<Entity>
  {
    CanonicalizeEntity(info, u.entity, false)
  }

  function Touches(info: P4Info, u: Update, key: EntityKey): bool
  {
    Subject(info, u).Some? && UpdateKey(info, u) == key
  }

  function TimesTouched(info: P4Info, us: WriteRequest, key: EntityKey): nat
  {
    if us == [] then 0 else (if Touches(info, us[0], key) then 1 else 0) + TimesTouched(info, us[1..], key)
  }

  /** The last update of the request on a key. */
  function LastOn(info: P4Info, us: WriteRequest, key: EntityKey): Option<Update>
  {
    if us == [] then None
    else
      var later := LastOn(info, us[1..], key);
      if later.Some? then later else if Touches(info, us[0], key) then Some(us[0]) else None
  }

  // ----- one update -----

  /** A full translation gives a key-only translation with the same key. */
  lemma CarriedKey(info: P4Info, u: Update)
    requires u.kind.Insert? || u.kind.Delete?
    requires Carried(info, u).Some?
    ensures Subject(info, u).Some? && Subject(info, Inverse(u)).Some?
    ensures UpdateKey(info, u) == UpdateKey(info, Inverse(u)) == EntityKeyOf(Carried(info, u).value)
  {
  }

  /** The inverse of an update applies where the key is as the update leaves it. */
  lemma InverseApplies(info: P4Info, s: State, a: State, u: Update)
    requires u.kind.Insert? || u.kind.Delete?
    requires Apply(info, s, u).Some?
    ensures Apply(info, a, Inverse(u)).Some?
            <==> Carried(info, u).Some? && Lookup(a, UpdateKey(info, u)).Some? != Lookup(s, UpdateKey(info, u)).Some?
  {
  }

  // ----- a whole request -----

  /** The two states disagree about the presence of every key the request touches. */
  ghost predicate Opposite(info: P4Info, s: State, a: State, us: WriteRequest)
  {
    forall key {:trigger TimesTouched(info, us, key)} ::
      TimesTouched(info, us, key) > 0 ==> Lookup(a, key).Some? != Lookup(s, key).Some?
  }

  predicate AllCarry(info: P4Info, us: WriteRequest)
  {
    forall u :: u in us ==> Carried(info, u).Some?
  }

  lemma OppositeStep(info: P4Info, s: State, a: State, us: WriteRequest)
    requires us != [] && Supported(us)
    requires Apply(info, s, us[0]).Some? && Apply(info, a, Inverse(us[0])).Some? && Carried(info, us[0]).Some?
    requires Lookup(a, UpdateKey(info, us[0])).Some? != Lookup(s, UpdateKey(info, us[0])).Some?
    ensures Opposite(info, s, a, us)
            <==> Opposite(info, Apply(info, s, us[0]).value, Apply(info, a, Inverse(us[0])).value, us[1..])
  {
    var u, s', a' := us[0], Apply(info, s, us[0]).value, Apply(info, a, Inverse(us[0])).value;
    assert u in us;
    CarriedKey(info, u);
    forall key
      ensures Lookup(a, key).Some? != Lookup(s, key).Some? <==> Lookup(a', key).Some? != Lookup(s', key).Some?
      ensures TimesTouched(info, us, key) > 0 <==> key == UpdateKey(info, u) || TimesTouched(info, us[1..], key) > 0
    {
      LookupApply(info, s, u, key);
      LookupApply(info, a, Inverse(u), key);
    }
  }

  /** When the inverse of an accepted request is itself accepted. */
  lemma {:induction false} InverseAccepted(info: P4Info, s: State, a: State, us: WriteRequest)
    requires Supported(us) && ApplyAll(info, s, us).Some?
    ensures ApplyAll(info, a, InverseRequest(us)).Some? <==> AllCarry(info, us) && Opposite(info, s, a, us)
    decreases |us|
  {
    if us != [] {
      var u, rest := us[0], us[1..];
      assert u in us && Touches(info, u, UpdateKey(info, u));
      assert TimesTouched(info, us, UpdateKey(info, u)) > 0;
      assert InverseRequest(us)[0] == Inverse(u) && InverseRequest(us)[1..] == InverseRequest(rest);
      InverseApplies(info, s, a, u);
      assert AllCarry(info, us) <==> Carried(info, u).Some? && AllCarry(info, rest) by {
        assert us == [u] + rest;
      }
      if Apply(info, a, Inverse(u)).Some? {
        OppositeStep(info, s, a, us);
        InverseAccepted(info, Apply(info, s, u).value, Apply(info, a, Inverse(u)).value, rest);
      }
    }
  }

  lemma {:induction false} LookupApplyAll(info: P4Info, s: State, us: WriteRequest, key: EntityKey)
    requires ApplyAll(info, s, us).Some?
    ensures Lookup(ApplyAll(info, s, us).value, key)
            == match LastOn(info, us, key) { case None => Lookup(s, key) case Some(u) => Effect(info, u) }
    decreases |us|
  {
    if us != [] {
      LookupApply(info, s, us[0], key);
      LookupApplyAll(info, Apply(info, s, us[0]).value, us[1..], key);
    }
  }

  lemma {:induction false} ApplyAllKeepsWellFormed(info: P4Info, s: State, us: WriteRequest)
    requires WellFormed(info, s) && ApplyAll(info, s, us).Some?
    ensures WellFormed(info, ApplyAll(info, s, us).value)
    decreases |us|
  {
    if us != [] {
      ApplyKeepsWellFormed(info, s, us[0]);
      ApplyAllKeepsWellFormed(info, Apply(info, s, us[0]).value, us[1..]);
    }
  }

  lemma NextParity(n: nat)
    ensures (n + 1) % 2 == 0 <==> n % 2 != 0
  {
  }

  /** Accepted inserts and deletes alternate on a key. */
  lemma {:induction false} PresenceAlternates(info: P4Info, s: State, us: WriteRequest, key: EntityKey)
    requires Supported(us) && ApplyAll(info, s, us).Some?
    ensures Lookup(ApplyAll(info, s, us).value, key).Some? == Lookup(s, key).Some?
       <==> TimesTouched(info, us, key) % 2 == 0
    decreases |us|
  {
    if us != [] {
      assert us[0] in us;
      LookupApply(info, s, us[0], key);
      PresenceAlternates(info, Apply(info, s, us[0]).value, us[1..], key);
      NextParity(TimesTouched(info, us[1..], key));
    }
  }

  lemma {:induction false} LastOnInverse(info: P4Info, us: WriteRequest, key: EntityKey)
    requires Supported(us) && AllCarry(info, us)
    ensures LastOn(info, us, key).Some? ==> LastOn(info, us, key).value in us
    ensures LastOn(info, InverseRequest(us), key)
            == match LastOn(info, us, key) { case None => None case Some(u) => Some(Inverse(u)) }
    ensures LastOn(info, us, key).Some? <==> TimesTouched(info, us, key) > 0
    ensures LastOn(info, us, key).Some? ==> Touches(info, LastOn(info, us, key).value, key)
  {
    if us != [] {
      assert us[0] in us;
      CarriedKey(info, us[0]);
      assert InverseRequest(us)[1..] == InverseRequest(us[1..]);
      LastOnInverse(info, us[1..], key);
    }
  }

  // ----- when the inverse of a request restores the state -----

  /** Every update on the key can be undone: an odd number of them, and a last DELETE carries what was stored. */
  predicate KeyReversible(info: P4Info, s: State, us: WriteRequest, key: EntityKey)
  {
    TimesTouched(info, us, key) > 0 ==>
      && TimesTouched(info, us, key) % 2 == 1
      && (var last := LastOn(info, us, key);
          last.Some? && last.value.kind.Delete? ==> Carried(info, last.value) == Lookup(s, key))
  }

  ghost predicate Reversible(info: P4Info, s: State, us: WriteRequest)
  {
    AllCarry(info, us) && forall key {:trigger KeyReversible(info, s, us, key)} :: KeyReversible(info, s, us, key)
  }

  ghost predicate OddlyTouched(info: P4Info, us: WriteRequest)
  {
    forall key {:trigger TimesTouched(info, us, key)} ::
      TimesTouched(info, us, key) > 0 ==> TimesTouched(info, us, key) % 2 == 1
  }

  lemma OppositeIffOdd(info: P4Info, s: State, us: WriteRequest)
    requires Supported(us) && ApplyAll(info, s, us).Some?
    ensures Opposite(info, s, ApplyAll(info, s, us).value, us) <==> OddlyTouched(info, us)
  {
    var t := ApplyAll(info, s, us).value;
    if Opposite(info, s, t, us) {
      forall key | TimesTouched(info, us, key) > 0 ensures TimesTouched(info, us, key) % 2 == 1 {
        PresenceAlternates(info, s, us, key);
      }
    }
    if OddlyTouched(info, us) {
      forall key | TimesTouched(info, us, key) > 0 ensures Lookup(t, key).Some? != Lookup(s, key).Some? {
        PresenceAlternates(info, s, us, key);
      }
    }
  }

  /** Under one key, an accepted inverse brings back what was there exactly when a last DELETE carried it. */
  lemma RestoredAt(info: P4Info, s: State, us: WriteRequest, key: EntityKey)
    requires Supported(us) && AllCarry(info, us) && ApplyAll(info, s, us).Some?
    requires var t := ApplyAll(info, s, us).value;
             Opposite(info, s, t, us) && ApplyAll(info, t, InverseRequest(us)).Some?
    ensures var t := ApplyAll(info, s, us).value;
            (Lookup(ApplyAll(info, t, InverseRequest(us)).value, key) == Lookup(s, key))
            == KeyReversible(info, s, us, key)
  {
    var t := ApplyAll(info, s, us).value;
    LookupApplyAll(info, s, us, key);
    LookupApplyAll(info, t, InverseRequest(us), key);
    LastOnInverse(info, us, key);
    PresenceAlternates(info, s, us, key);
    assert TimesTouched(info, us, key) > 0 ==> Lookup(t, key).Some? != Lookup(s, key).Some?;
    if LastOn(info, us, key).Some? {
      CarriedKey(info, LastOn(info, us, key).value);
    }
  }

  /** The inverse of an accepted request restores the state exactly when the request is reversible. */
  lemma InverseRestoresIffReversible(info: P4Info, s: State, us: WriteRequest)
    requires WellFormed(info, s) && Supported(us) && ApplyAll(info, s, us).Some?
    ensures ApplyAll(info, ApplyAll(info, s, us).value, InverseRequest(us)) == Some(s) <==> Reversible(info, s, us)
  {
    var t := ApplyAll(info, s, us).value;
    InverseAccepted(info, s, t, us);
    OppositeIffOdd(info, s, us);
    var back := ApplyAll(info, t, InverseRequest(us));
    if Reversible(info, s, us) {
      assert OddlyTouched(info, us) by {
        forall key | TimesTouched(info, us, key) > 0 ensures TimesTouched(info, us, key) % 2 == 1 {
          assert KeyReversible(info, s, us, key);
        }
      }
    }
    if back.Some? {
      ApplyAllKeepsWellFormed(info, s, us);
      ApplyAllKeepsWellFormed(info, t, InverseRequest(us));
      forall key
        ensures Lookup(back.value, key) == Lookup(s, key) <==> KeyReversible(info, s, us, key)
      {
        RestoredAt(info, s, us, key);
      }
      if Reversible(info, s, us) {
        StateExtensionality(info, back.value, s);
      }
    }
  }

  predicate DeletesCarryStored(info: P4Info, s: State, us: WriteRequest)
    requires forall u :: u in us ==> Subject(info, u).Some?
  {
    forall u :: u in us && u.kind.Delete? ==> Carried(info, u) == Lookup(s, UpdateKey(info, u))
  }

  /** On pairwise distinct keys, what matters is that each DELETE carries the stored entity. */
  lemma DistinctKeysReversible(info: P4Info, s: State, us: WriteRequest)
    requires Supported(us) && DistinctKeys(info, us) && ApplyAll(info, s, us).Some?
    ensures forall u :: u in us ==> Subject(info, u).Some?
    ensures Reversible(info, s, us) <==> DeletesCarryStored(info, s, us)
  {
    forall u | u in us
      ensures Subject(info, u).Some?
      ensures TimesTouched(info, us, UpdateKey(info, u)) == 1
      ensures LastOn(info, us, UpdateKey(info, u)) == Some(u)
    {
      var i :| 0 <= i < |us| && us[i] == u;
      TouchedOnce(info, us, i);
    }
    if DeletesCarryStored(info, s, us) {
      CarryingIsReversible(info, s, us);
    }
    if Reversible(info, s, us) {
      forall u | u in us && u.kind.Delete? ensures Carried(info, u) == Lookup(s, UpdateKey(info, u)) {
        assert KeyReversible(info, s, us, UpdateKey(info, u));
      }
    }
  }

  lemma CarryingIsReversible(info: P4Info, s: State, us: WriteRequest)
    requires Supported(us) && DistinctKeys(info, us) && ApplyAll(info, s, us).Some?
    requires forall u :: u in us ==>
               Subject(info, u).Some? && TimesTouched(info, us, UpdateKey(info, u)) == 1
               && LastOn(info, us, UpdateKey(info, u)) == Some(u)
    requires DeletesCarryStored(info, s, us)
    ensures Reversible(info, s, us)
  {
    DistinctKeysApply(info, s, us);
    forall u | u in us ensures Carried(info, u).Some? {
      var i :| 0 <= i < |us| && us[i] == u;
      assert Apply(info, s, us[i]).Some?;
    }
    forall key ensures KeyReversible(info, s, us, key) {
      KeyIsReversible(info, s, us, key);
    }
  }

  lemma KeyIsReversible(info: P4Info, s: State, us: WriteRequest, key: EntityKey)
    requires Supported(us) && AllCarry(info, us)
    requires forall u :: u in us ==>
               Subject(info, u).Some? && TimesTouched(info, us, UpdateKey(info, u)) == 1
    requires DeletesCarryStored(info, s, us)
    ensures KeyReversible(info, s, us, key)
  {
    LastOnInverse(info, us, key);
  }

  lemma {:induction false} NotTouched(info: P4Info, us: WriteRequest, key: EntityKey)
    requires forall u :: u in us ==> !Touches(info, u, key)
    ensures TimesTouched(info, us, key) == 0 && LastOn(info, us, key) == None
  {
    if us != [] {
      assert us[0] in us;
      NotTouched(info, us[1..], key);
    }
  }

  lemma {:induction false} TouchedOnce(info: P4Info, us: WriteRequest, i: nat)
    requires DistinctKeys(info, us) && i < |us|
    ensures TimesTouched(info, us, UpdateKey(info, us[i])) == 1
    ensures LastOn(info, us, UpdateKey(info, us[i])) == Some(us[i])
  {
    var rest := us[1..];
    assert forall j :: 0 <= j < |rest| ==> rest[j] == us[j + 1];
    if i == 0 {
      NotTouched(info, rest, UpdateKey(info, us[0]));
    } else {
      assert rest[i - 1] == us[i];
      TouchedOnce(info, rest, i - 1);
    }
  }

  /** An INSERT and DELETE of the same key in one request cannot be undone, whatever they carry. */
  lemma InsertThenDeleteIsNotUndone(info: P4Info, s: State, inserted: Entity, deleted: Entity)
    requires WellFormed(info, s)
    requires var us := [Update(Insert, inserted), Update(Delete, deleted)];
             && ApplyAll(info, s, us).Some?
             && Subject(info, us[0]).Some? && Subject(info, us[1]).Some?
             && UpdateKey(info, us[0]) == UpdateKey(info, us[1])
    ensures var us := [Update(Insert, inserted), Update(Delete, deleted)];
            ApplyAll(info, ApplyAll(info, s, us).value, InverseRequest(us)) != Some(s)
  {
    var us := [Update(Insert, inserted), Update(Delete, deleted)];
    var key := UpdateKey(info, us[0]);
    assert us[1..] == [us[1]] && us[1..][1..] == [];
    assert TimesTouched(info, us[1..][1..], key) == 0;
    assert TimesTouched(info, us[1..], key) == 1;
    assert TimesTouched(info, us, key) == 2;
    assert !KeyReversible(info, s, us, key);
    InverseRestoresIffReversible(info, s, us);
  }

  // ----- the stack of inverses -----

  /** The state after all the requests, last one first. */
  function Unwind(info: P4Info, s: State, stack: seq<WriteRequest>): Option<State>
    decreases |stack|
  {
    if stack == [] then Some(s)
    else
      var top := ApplyAll(info, s, stack[|stack| - 1]);
      if top == None then None else Unwind(info, top.value, stack[..|stack| - 1])
  }

  /** A switch that carries out a write request in full or, when it answers with an error, not at all. */
  class Switch {
    const info: P4Info
    const refuses: nat -> bool
    var state: State
    var writes: nat

    constructor (info: P4Info, refuses: nat -> bool)
      ensures this.info == info && this.refuses == refuses
      ensures state == EmptyState(info) && writes == 0
    {
      this.info := info;
      this.refuses := refuses;
      state := EmptyState(info);
      writes := 0;
    }

    method Write(request: WriteRequest) returns (status: StatusCode)
      modifies this
      ensures writes == old(writes) + 1
      ensures status == Ok <==> !refuses(old(writes)) && ApplyAll(info, old(state), request).Some?
      ensures state == if status == Ok then ApplyAll(info, old(state), request).value else old(state)
    {
      var after := ApplyAll(info, state, request);
      if refuses(writes) || after == None {
        status := Unknown;
      } else {
        state := after.value;
        status := Ok;
      }
      writes := writes + 1;
    }
  }

  class P4rtProgrammingContext {
    const session: Switch
    var inverses: seq<WriteRequest>

    constructor (session: Switch)
      ensures this.session == session && inverses == []
      ensures Undone() == Some(session.state)
    {
      this.session := session;
      inverses := [];
    }

    /** The state that undoing everything now would produce. */
    ghost function Undone(): Option<State>
      reads this, session
    {
      Unwind(session.info, session.state, inverses)
    }

    method SendWriteRequest(request: WriteRequest) returns (status: StatusCode)
      modifies this, session
      ensures (exists u :: u in request && !u.kind.Insert? && !u.kind.Delete?) ==>
                status == InvalidArgument && inverses == old(inverses)
                && session.state == old(session.state) && session.writes == old(session.writes)
      ensures (forall u :: u in request ==> u.kind.Insert? || u.kind.Delete?) ==>
                (status == Ok <==> !session.refuses(old(session.writes))
                                   && ApplyAll(session.info, old(session.state), request).Some?)
      ensures status != Ok ==> inverses == old(inverses) && session.state == old(session.state)
      ensures status == Ok ==>
                && session.state == ApplyAll(session.info, old(session.state), request).value
                && inverses == old(inverses) + [InverseRequest(request)]
      ensures WellFormed(session.info, old(session.state)) ==> WellFormed(session.info, session.state)
      ensures WellFormed(session.info, old(session.state))
              && (status == Ok ==> Reversible(session.info, old(session.state), request))
              ==> Undone() == old(Undone())
    {
      for i := 0 to |request|
        invariant forall j :: 0 <= j < i ==> request[j].kind.Insert? || request[j].kind.Delete?
      {
        if request[i].kind != Insert && request[i].kind != Delete {
          assert request[i] in request;
          return InvalidArgument;
        }
      }
      ghost var before := session.state;
      status := session.Write(request);
      if status != Ok {
        return;
      }
      var inverse := InvertP4rtRequest(request);
      inverses := inverses + [inverse];
      assert inverses[..|inverses| - 1] == old(inverses);
      if WellFormed(session.info, before) {
        ApplyAllKeepsWellFormed(session.info, before, request);
        InverseRestoresIffReversible(session.info, before, request);
      }
    }

    /** Sends the inverses in last-in first-out order; on an error the rest stays for another attempt. */
    method Revert() returns (status: StatusCode)
      modifies this, session
      ensures status == Ok ==> inverses == [] && Some(session.state) == old(Undone())
      ensures status != Ok ==> inverses != [] && inverses <= old(inverses)
      ensures Undone() == old(Undone()) || (status != Ok && old(Undone()) == None)
      ensures old(Undone()).Some? && (forall k :: old(session.writes) <= k < session.writes ==> !session.refuses(k))
              ==> status == Ok
      ensures WellFormed(session.info, old(session.state)) ==> WellFormed(session.info, session.state)
      ensures session.writes == old(session.writes) + |old(inverses)| - |inverses| + (if status == Ok then 0 else 1)
    {
      while inverses != []
        invariant inverses <= old(inverses)
        invariant Undone() == old(Undone())
        invariant WellFormed(session.info, old(session.state)) ==> WellFormed(session.info, session.state)
        invariant session.writes == old(session.writes) + |old(inverses)| - |inverses|
        decreases |inverses|
      {
        ghost var before := session.state;
        status := session.Write(inverses[|inverses| - 1]);
        if status != Ok {
          return;
        }
        if WellFormed(session.info, before) {
          ApplyAllKeepsWellFormed(session.info, before, inverses[|inverses| - 1]);
        }
        inverses := inverses[..|inverses| - 1];
      }
      status := Ok;
    }
  }

  // ----- whole sessions -----

  /** The switch and the stack between two writes. */
  datatype Configuration = Configuration(state: State, inverses: seq<WriteRequest>)

  /** A request that was accepted and is reversible where it was accepted. */
  ghost predicate SendStep(info: P4Info, c: Configuration, request: WriteRequest, c': Configuration)
  {
    && Supported(request)
    && Reversible(info, c.state, request)
    && ApplyAll(info, c.state, request) == Some(c'.state)
    && c'.inverses == c.inverses + [InverseRequest(request)]
  }

  /** One accepted inverse within a Revert that may stop right after it. */
  ghost predicate UndoStep(info: P4Info, c: Configuration, c': Configuration)
  {
    && c.inverses != []
    && ApplyAll(info, c.state, c.inverses[|c.inverses| - 1]) == Some(c'.state)
    && c'.inverses == c.inverses[..|c.inverses| - 1]
  }

  /** Refused writes and unsupported requests change nothing. */
  ghost predicate Step(info: P4Info, c: Configuration, c': Configuration)
  {
    c' == c || UndoStep(info, c, c')
      || exists request {:trigger SendStep(info, c, request, c')} :: SendStep(info, c, request, c')
  }

  ghost predicate SessionRun(info: P4Info, run: seq<Configuration>)
  {
    && run != [] && run[0].inverses == [] && WellFormed(info, run[0].state)
    && forall i :: 0 < i < |run| ==> Step(info, run[i - 1], run[i])
  }

  lemma StepKeepsUnwinding(info: P4Info, c: Configuration, c': Configuration)
    requires WellFormed(info, c.state) && Step(info, c, c')
    ensures WellFormed(info, c'.state)
    ensures Unwind(info, c'.state, c'.inverses) == Unwind(info, c.state, c.inverses)
  {
    if c' == c {
    } else if UndoStep(info, c, c') {
      ApplyAllKeepsWellFormed(info, c.state, c.inverses[|c.inverses| - 1]);
    } else {
      var request :| SendStep(info, c, request, c');
      ApplyAllKeepsWellFormed(info, c.state, request);
      InverseRestoresIffReversible(info, c.state, request);
      assert c'.inverses[..|c'.inverses| - 1] == c.inverses;
    }
  }

  /**
    Whatever mix of requests, refusals and partial reverts happened, unwinding the stack leads back to
    the state before the first request; an empty stack means the switch is in that state.
   */
  lemma {:induction false} SessionUnwinds(info: P4Info, run: seq<Configuration>)
    requires SessionRun(info, run)
    ensures var c := run[|run| - 1];
            && WellFormed(info, c.state)
            && Unwind(info, c.state, c.inverses) == Some(run[0].state)
            && (c.inverses == [] ==> c.state == run[0].state)
  {
    if |run| > 1 {
      var n := |run| - 1;
      assert run[..n][n - 1] == run[n - 1];
      SessionUnwinds(info, run[..n]);
      assert Step(info, run[n - 1], run[n]);
      StepKeepsUnwinding(info, run[n - 1], run[n]);
    }
  }
}
