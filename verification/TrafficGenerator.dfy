/**
  Bookkeeping of injected and collected traffic (dvaas/traffic_generator.cc). Injection, collection
  and validation run in different threads; each lock-protected section is one step, and the local
  variables of a validation in progress are part of the state, so a run is any interleaving of steps.
 */
module TrafficGenerator {
  import opened Common

  type Time = int
  type Packet = nat

  datatype InputType = Dataplane | SubmitToIngress | PacketOut

  /** A test vector with the tag that is written into its packets. */
  datatype TestVector = TestVector(tag: int, input: InputType, contents: nat)

  datatype InjectedTraffic = InjectedTraffic(tag: int, vector: TestVector, injectionTime: Time)

  datatype SwitchOutput = SwitchOutput(packets: seq<Packet>, packetIns: seq<Packet>)
  {
    function Stream(punted: bool): seq<Packet>
    {
      if punted then packetIns else packets
    }
  }

  const NO_OUTPUT := SwitchOutput([], [])

  /** The outcome of one test: its vector, when it was injected, and everything that came out for its tag. */
  datatype Outcome = Outcome(vector: TestVector, injectionTime: Time, actualOutput: SwitchOutput)

  type Collected = map<int, SwitchOutput>

  /** How far a validation has come, with what it has taken out of the shared buffers. */
  datatype Phase =
    | Idle
    | Waiting(taken: seq<InjectedTraffic>, cutoff: Time)
    | Judging(taken: seq<InjectedTraffic>, cutoff: Time, outputs: Collected)

  datatype State = State(
    ignorePacketIns: bool,
    packetTagId: int,
    inFlight: Option<TestVector>,
    injected: seq<InjectedTraffic>,
    residualInjected: seq<InjectedTraffic>,
    collected: Collected,
    residualCollected: Collected,
    outcomes: seq<Outcome>,
    phase: Phase)

  datatype Event =
    | TakeTag(vector: TestVector)
    | Inject(now: Time)
    | AbandonInjection
    | Arrive(tag: int, punted: bool, packet: Packet)
    | BeginValidation(now: Time)
    | TakeCollected
    | FinishValidation(clear: bool)

  function Initial(ignorePacketIns: bool): State
  {
    State(ignorePacketIns, 1, None, [], [], map[], map[], [], Idle)
  }

  // ----- the steps -----

  function Held(m: Collected, tag: int): SwitchOutput
  {
    if tag in m then m[tag] else NO_OUTPUT
  }

  function AddPacket(m: Collected, tag: int, punted: bool, packet: Packet): Collected
  {
    var o := Held(m, tag);
    m[tag := if punted then o.(packetIns := o.packetIns + [packet]) else o.(packets := o.packets + [packet])]
  }

  function Append(a: SwitchOutput, b: SwitchOutput): SwitchOutput
  {
    SwitchOutput(a.packets + b.packets, a.packetIns + b.packetIns)
  }

  function Merge(live: Collected, residual: Collected): Collected
  {
    map t | t in live.Keys + residual.Keys ::
      if t in residual then Append(Held(live, t), residual[t]) else live[t]
  }

  datatype Verdicts = Verdicts(outcomes: seq<Outcome>, kept: seq<InjectedTraffic>, outputs: Collected)

  /** Records from before the cutoff become outcomes and take the output of their tag; the others are kept. */
  function Judge(taken: seq<InjectedTraffic>, cutoff: Time, outputs: Collected): Verdicts
  {
    if taken == [] then Verdicts([], [], outputs)
    else
      var v, r := Judge(taken[..|taken| - 1], cutoff, outputs), taken[|taken| - 1];
      if r.injectionTime < cutoff
      then Verdicts(v.outcomes + [Outcome(r.vector, r.injectionTime, Held(v.outputs, r.tag))],
                    v.kept, v.outputs - {r.tag})
      else v.(kept := v.kept + [r])
  }

  predicate Skipped(s: State, vector: TestVector)
  {
    s.ignorePacketIns && vector.input != Dataplane
  }

  predicate Enabled(s: State, e: Event)
  {
    match e
    case TakeTag(_) => s.inFlight == None
    case Inject(_) => s.inFlight.Some?
    case AbandonInjection => s.inFlight.Some?
    case Arrive(_, punted, _) => punted ==> !s.ignorePacketIns
    case BeginValidation(_) => s.phase.Idle?
    case TakeCollected => s.phase.Waiting?
    case FinishValidation(_) => s.phase.Judging?
  }

  function Step(s: State, e: Event): State
    requires Enabled(s, e)
  {
    match e
    case TakeTag(vector) =>
      s.(packetTagId := s.packetTagId + 1,
         inFlight := if Skipped(s, vector) then None else Some(vector.(tag := s.packetTagId)))
    case Inject(now) =>
      s.(inFlight := None, injected := s.injected + [InjectedTraffic(s.inFlight.value.tag, s.inFlight.value, now)])
    case AbandonInjection =>
      s.(inFlight := None)
    case Arrive(tag, punted, packet) =>
      s.(collected := AddPacket(s.collected, tag, punted, packet))
    case BeginValidation(now) =>
      s.(injected := [], residualInjected := [], phase := Waiting(s.injected + s.residualInjected, now))
    case TakeCollected =>
      s.(collected := map[], residualCollected := map[],
         phase := Judging(s.phase.taken, s.phase.cutoff, Merge(s.collected, s.residualCollected)))
    case FinishValidation(clear) =>
      var v := Judge(s.phase.taken, s.phase.cutoff, s.phase.outputs);
      s.(residualInjected := s.residualInjected + v.kept,
         residualCollected := s.residualCollected + v.outputs,
         outcomes := if clear then [] else s.outcomes + v.outcomes,
         phase := Idle)
  }

  // ----- what a run has seen -----

  datatype Arrival = Arrival(tag: int, punted: bool, packet: Packet)

  /** Everything injected, collected and judged so far, and what get-and-clear calls have returned. */
  datatype History = History(injected: seq<InjectedTraffic>, arrivals: seq<Arrival>,
                             produced: seq<Outcome>, returned: seq<Outcome>)

  function Record(h: History, s: State, e: Event): History
    requires Enabled(s, e)
  {
    match e
    case Inject(now) => h.(injected := h.injected + [InjectedTraffic(s.inFlight.value.tag, s.inFlight.value, now)])
    case Arrive(tag, punted, packet) => h.(arrivals := h.arrivals + [Arrival(tag, punted, packet)])
    case FinishValidation(clear) =>
      var made := Judge(s.phase.taken, s.phase.cutoff, s.phase.outputs).outcomes;
      h.(produced := h.produced + made,
         returned := if clear then h.returned + (s.outcomes + made) else h.returned)
    case _ => h
  }

  function NoHistory(): History
  {
    History([], [], [], [])
  }

  datatype World = World(state: State, history: History)

  /** The world after a run, or None when some step was not possible where it stands. */
  function Run(ignorePacketIns: bool, events: seq<Event>): Option<World>
  {
    From(World(Initial(ignorePacketIns), NoHistory()), events)
  }

  /** The world after further events, if all of them can take place. */
  function From(w: World, events: seq<Event>): Option<World>
  {
    if events == [] then Some(w)
    else
      var before, e := From(w, events[..|events| - 1]), events[|events| - 1];
      if before == None || !Enabled(before.value.state, e) then None
      else Some(World(Step(before.value.state, e), Record(before.value.history, before.value.state, e)))
  }

  // ----- conservation -----

  function RecordOf(o: Outcome): InjectedTraffic
  {
    InjectedTraffic(o.vector.tag, o.vector, o.injectionTime)
  }

  function RecordsOf(outcomes: seq<Outcome>): seq<InjectedTraffic>
  {
    seq(|outcomes|, i requires 0 <= i < |outcomes| => RecordOf(outcomes[i]))
  }

  function Taken(phase: Phase): seq<InjectedTraffic>
  {
    if phase.Idle? then [] else phase.taken
  }

  function Outputs(phase: Phase): Collected
  {
    if phase.Judging? then phase.outputs else map[]
  }

  function Packets(m: Collected, tag: int, punted: bool): multiset<Packet>
  {
    multiset(Held(m, tag).Stream(punted))
  }

  /** The packets that outcomes hold for a tag. */
  function Reported(outcomes: seq<Outcome>, tag: int, punted: bool): multiset<Packet>
  {
    if outcomes == [] then multiset{}
    else
      var o := outcomes[|outcomes| - 1];
      Reported(outcomes[..|outcomes| - 1], tag, punted)
      + (if o.vector.tag == tag then multiset(o.actualOutput.Stream(punted)) else multiset{})
  }

  /** The packets that arrived with a tag. */
  function Arrived(arrivals: seq<Arrival>, tag: int, punted: bool): multiset<Packet>
  {
    if arrivals == [] then multiset{}
    else
      var a := arrivals[|arrivals| - 1];
      Arrived(arrivals[..|arrivals| - 1], tag, punted)
      + (if a.tag == tag && a.punted == punted then multiset{a.packet} else multiset{})
  }

  /** Tags are handed out once, in increasing order, and are the tags written into the packets. */
  ghost predicate TagsInOrder(s: State, h: History)
  {
    && 1 <= s.packetTagId
    && (forall i :: 0 <= i < |h.injected| ==>
          h.injected[i].tag == h.injected[i].vector.tag && 1 <= h.injected[i].tag < s.packetTagId)
    && (forall i, j :: 0 <= i < j < |h.injected| ==> h.injected[i].tag < h.injected[j].tag)
    && (s.inFlight.Some? ==>
          && 1 <= s.inFlight.value.tag < s.packetTagId
          && forall i :: 0 <= i < |h.injected| ==> h.injected[i].tag < s.inFlight.value.tag)
  }

  /** Every injected record is in exactly one of the live, residual and taken records and the outcomes. */
  ghost predicate RecordsConserved(s: State, h: History)
  {
    multiset(h.injected)
    == multiset(s.injected) + multiset(s.residualInjected) + multiset(Taken(s.phase)) + multiset(RecordsOf(h.produced))
  }

  ghost predicate Balanced(arrivals: seq<Arrival>, live: Collected, residual: Collected, taken: Collected,
                           produced: seq<Outcome>, tag: int, punted: bool)
  {
    Arrived(arrivals, tag, punted)
    == Packets(live, tag, punted) + Packets(residual, tag, punted) + Packets(taken, tag, punted)
       + Reported(produced, tag, punted)
  }

  ghost predicate PacketsConservedAt(s: State, h: History, tag: int, punted: bool)
  {
    Balanced(h.arrivals, s.collected, s.residualCollected, Outputs(s.phase), h.produced, tag, punted)
  }

  /**
    Every collected packet is in exactly one of the live, residual and taken outputs and the
    outcomes of its own tag.
   */
  ghost predicate PacketsConserved(s: State, h: History)
  {
    forall tag, punted {:trigger PacketsConservedAt(s, h, tag, punted)} :: PacketsConservedAt(s, h, tag, punted)
  }

  ghost predicate Conserved(s: State, h: History)
  {
    && TagsInOrder(s, h)
    && RecordsConserved(s, h)
    && PacketsConserved(s, h)
    && h.produced == h.returned + s.outcomes
    && (s.phase.Idle? || s.residualInjected == [])
    && (s.phase.Judging? ==> s.residualCollected == map[])
  }

  // ----- each step conserves -----

  lemma MergeNone(live: Collected, residual: Collected)
    ensures Merge(live, residual - residual.Keys) == live
  {
  }

  lemma MergeAnother(live: Collected, residual: Collected, ids: set<int>, id: int)
    requires id in ids && id in residual
    ensures Merge(live, residual - (ids - {id}))
            == Merge(live, residual - ids)[id := Append(Held(Merge(live, residual - ids), id), residual[id])]
  {
  }

  lemma AddPacketHolds(m: Collected, tag: int, punted: bool, packet: Packet, t: int, p: bool)
    ensures Packets(AddPacket(m, tag, punted, packet), t, p)
            == Packets(m, t, p) + (if t == tag && p == punted then multiset{packet} else multiset{})
  {
  }

  lemma ReportedExtend(outcomes: seq<Outcome>, o: Outcome, tag: int, punted: bool)
    ensures Reported(outcomes + [o], tag, punted)
            == Reported(outcomes, tag, punted)
               + (if o.vector.tag == tag then multiset(o.actualOutput.Stream(punted)) else multiset{})
  {
  }

  lemma {:induction false} ReportedConcat(a: seq<Outcome>, b: seq<Outcome>, tag: int, punted: bool)
    ensures Reported(a + b, tag, punted) == Reported(a, tag, punted) + Reported(b, tag, punted)
  {
    if b == [] {
      assert a + b == a;
    } else {
      var init, last := b[..|b| - 1], b[|b| - 1];
      assert b == init + [last] && a + b == (a + init) + [last];
      ReportedConcat(a, init, tag, punted);
      ReportedExtend(a + init, last, tag, punted);
    }
  }

  lemma RecordsOfConcat(a: seq<Outcome>, b: seq<Outcome>)
    ensures RecordsOf(a + b) == RecordsOf(a) + RecordsOf(b)
  {
  }

  ghost predicate TagsMatch(records: seq<InjectedTraffic>)
  {
    forall i :: 0 <= i < |records| ==> records[i].tag == records[i].vector.tag
  }

  /** Judging splits the records between outcomes and kept ones. */
  lemma {:induction false} JudgeKeepsRecords(taken: seq<InjectedTraffic>, cutoff: Time, outputs: Collected)
    requires TagsMatch(taken)
    ensures var v := Judge(taken, cutoff, outputs);
            multiset(taken) == multiset(RecordsOf(v.outcomes)) + multiset(v.kept)
    ensures forall r :: r in Judge(taken, cutoff, outputs).kept ==> r.injectionTime >= cutoff
    ensures forall o :: o in Judge(taken, cutoff, outputs).outcomes ==> o.injectionTime < cutoff
  {
    if taken != [] {
      var init, r := taken[..|taken| - 1], taken[|taken| - 1];
      assert taken == init + [r];
      JudgeKeepsRecords(init, cutoff, outputs);
      var v := Judge(init, cutoff, outputs);
      var o := Outcome(r.vector, r.injectionTime, Held(v.outputs, r.tag));
      assert RecordOf(o) == r;
      assert RecordsOf(v.outcomes + [o]) == RecordsOf(v.outcomes) + [r];
    }
  }

  /** Judging splits the packets of every tag between the outcomes of that tag and what stays. */
  lemma {:induction false} JudgeKeepsPackets(taken: seq<InjectedTraffic>, cutoff: Time, outputs: Collected, tag: int,
                                             punted: bool)
    requires TagsMatch(taken)
    ensures var v := Judge(taken, cutoff, outputs);
            Packets(outputs, tag, punted) == Reported(v.outcomes, tag, punted) + Packets(v.outputs, tag, punted)
  {
    if taken != [] {
      var init, r := taken[..|taken| - 1], taken[|taken| - 1];
      assert r.tag == r.vector.tag;
      JudgeKeepsPackets(init, cutoff, outputs, tag, punted);
      var v := Judge(init, cutoff, outputs);
      if r.injectionTime < cutoff {
        ReportMovesPackets(v.outcomes, v.outputs, r, tag, punted);
      }
    }
  }

  lemma ReportMovesPackets(outcomes: seq<Outcome>, outputs: Collected, r: InjectedTraffic, tag: int, punted: bool)
    requires r.tag == r.vector.tag
    ensures Reported(outcomes + [Outcome(r.vector, r.injectionTime, Held(outputs, r.tag))], tag, punted)
            + Packets(outputs - {r.tag}, tag, punted)
            == Reported(outcomes, tag, punted) + Packets(outputs, tag, punted)
  {
    ReportedExtend(outcomes, Outcome(r.vector, r.injectionTime, Held(outputs, r.tag)), tag, punted);
    if tag == r.tag {
      assert Packets(outputs - {r.tag}, tag, punted) == multiset{};
    } else {
      assert Held(outputs - {r.tag}, tag) == Held(outputs, tag);
    }
  }

  /** The records a validation has taken carry their own tags. */
  lemma TakenTagsMatch(s: State, h: History)
    requires TagsInOrder(s, h) && RecordsConserved(s, h)
    ensures TagsMatch(Taken(s.phase))
  {
    var taken := Taken(s.phase);
    forall i | 0 <= i < |taken| ensures taken[i].tag == taken[i].vector.tag {
      assert taken[i] in multiset(taken);
      assert taken[i] in multiset(h.injected);
    }
  }

  lemma RecordsAfterInject(s: State, h: History, now: Time)
    requires Enabled(s, Inject(now)) && RecordsConserved(s, h)
    ensures RecordsConserved(Step(s, Inject(now)), Record(h, s, Inject(now)))
  {
  }

  lemma RecordsAfterBegin(s: State, h: History, now: Time)
    requires Enabled(s, BeginValidation(now)) && RecordsConserved(s, h)
    ensures RecordsConserved(Step(s, BeginValidation(now)), Record(h, s, BeginValidation(now)))
  {
  }

  lemma RecordsAfterFinish(s: State, h: History, clear: bool)
    requires Enabled(s, FinishValidation(clear)) && RecordsConserved(s, h) && TagsInOrder(s, h)
    requires s.residualInjected == []
    ensures RecordsConserved(Step(s, FinishValidation(clear)), Record(h, s, FinishValidation(clear)))
  {
    TakenTagsMatch(s, h);
    var v := Judge(s.phase.taken, s.phase.cutoff, s.phase.outputs);
    JudgeKeepsRecords(s.phase.taken, s.phase.cutoff, s.phase.outputs);
    RecordsOfConcat(h.produced, v.outcomes);
    assert s.residualInjected + v.kept == v.kept;
  }

  lemma RecordsStep(s: State, h: History, e: Event)
    requires Enabled(s, e) && Conserved(s, h)
    ensures RecordsConserved(Step(s, e), Record(h, s, e))
  {
    match e
    case Inject(now) => RecordsAfterInject(s, h, now);
    case BeginValidation(now) => RecordsAfterBegin(s, h, now);
    case FinishValidation(clear) => RecordsAfterFinish(s, h, clear);
    case _ =>
  }

  lemma ArrivedExtend(arrivals: seq<Arrival>, a: Arrival, tag: int, punted: bool)
    ensures Arrived(arrivals + [a], tag, punted)
            == Arrived(arrivals, tag, punted)
               + (if a.tag == tag && a.punted == punted then multiset{a.packet} else multiset{})
  {
  }

  lemma AddToFirst<T>(all: multiset<T>, a: multiset<T>, b: multiset<T>, c: multiset<T>, d: multiset<T>, x: multiset<T>)
    requires all == a + b + c + d
    ensures all + x == (a + x) + b + c + d
  {
  }

  lemma MoveToLast<T>(all: multiset<T>, a: multiset<T>, b: multiset<T>, kept: multiset<T>, moved: multiset<T>,
                      d: multiset<T>)
    requires all == a + b + (moved + kept) + d && b == multiset{}
    ensures all == a + kept + multiset{} + (d + moved)
  {
  }

  lemma PacketsAfterArrive(s: State, h: History, e: Event, tag: int, punted: bool)
    requires e.Arrive? && Enabled(s, e) && PacketsConservedAt(s, h, tag, punted)
    ensures PacketsConservedAt(Step(s, e), Record(h, s, e), tag, punted)
  {
    var s', h' := Step(s, e), Record(h, s, e);
    var x := if tag == e.tag && punted == e.punted then multiset{e.packet} else multiset{};
    AddPacketHolds(s.collected, e.tag, e.punted, e.packet, tag, punted);
    ArrivedExtend(h.arrivals, Arrival(e.tag, e.punted, e.packet), tag, punted);
    assert Arrived(h'.arrivals, tag, punted) == Arrived(h.arrivals, tag, punted) + x;
    assert Packets(s'.collected, tag, punted) == Packets(s.collected, tag, punted) + x;
    AddToFirst(Arrived(h.arrivals, tag, punted), Packets(s.collected, tag, punted),
               Packets(s.residualCollected, tag, punted), Packets(Outputs(s.phase), tag, punted),
               Reported(h.produced, tag, punted), x);
  }

  lemma PacketsAfterTake(s: State, h: History, tag: int, punted: bool)
    requires Enabled(s, TakeCollected) && PacketsConservedAt(s, h, tag, punted)
    ensures PacketsConservedAt(Step(s, TakeCollected), Record(h, s, TakeCollected), tag, punted)
  {
  }

  lemma FinishBalances(arrivals: seq<Arrival>, live: Collected, taken: seq<InjectedTraffic>, cutoff: Time,
                       outputs: Collected, produced: seq<Outcome>, tag: int, punted: bool)
    requires TagsMatch(taken) && Balanced(arrivals, live, map[], outputs, produced, tag, punted)
    ensures var v := Judge(taken, cutoff, outputs);
            Balanced(arrivals, live, v.outputs, map[], produced + v.outcomes, tag, punted)
  {
    var v := Judge(taken, cutoff, outputs);
    JudgeKeepsPackets(taken, cutoff, outputs, tag, punted);
    ReportedConcat(produced, v.outcomes, tag, punted);
    MoveToLast(Arrived(arrivals, tag, punted), Packets(live, tag, punted), Packets(map[], tag, punted),
               Packets(v.outputs, tag, punted), Reported(v.outcomes, tag, punted), Reported(produced, tag, punted));
  }

  lemma PacketsAfterFinish(s: State, h: History, clear: bool, tag: int, punted: bool)
    requires Enabled(s, FinishValidation(clear)) && PacketsConservedAt(s, h, tag, punted)
    requires TagsMatch(s.phase.taken) && s.residualCollected == map[]
    ensures PacketsConservedAt(Step(s, FinishValidation(clear)), Record(h, s, FinishValidation(clear)), tag, punted)
  {
    FinishBalances(h.arrivals, s.collected, s.phase.taken, s.phase.cutoff, s.phase.outputs, h.produced, tag, punted);
    assert s.residualCollected + Judge(s.phase.taken, s.phase.cutoff, s.phase.outputs).outputs
        == Judge(s.phase.taken, s.phase.cutoff, s.phase.outputs).outputs;
  }

  lemma PacketsStep(s: State, h: History, e: Event, tag: int, punted: bool)
    requires Enabled(s, e) && PacketsConservedAt(s, h, tag, punted)
    requires s.phase.Judging? ==> TagsMatch(s.phase.taken) && s.residualCollected == map[]
    ensures PacketsConservedAt(Step(s, e), Record(h, s, e), tag, punted)
  {
    match e
    case Arrive(_, _, _) => PacketsAfterArrive(s, h, e, tag, punted);
    case TakeCollected => PacketsAfterTake(s, h, tag, punted);
    case FinishValidation(clear) => PacketsAfterFinish(s, h, clear, tag, punted);
    case _ =>
  }

  lemma TagsStep(s: State, h: History, e: Event)
    requires Enabled(s, e) && TagsInOrder(s, h)
    ensures TagsInOrder(Step(s, e), Record(h, s, e))
  {
  }

  lemma StepConserves(s: State, h: History, e: Event)
    requires Enabled(s, e) && Conserved(s, h)
    ensures Conserved(Step(s, e), Record(h, s, e))
  {
    TagsStep(s, h, e);
    RecordsStep(s, h, e);
    TakenTagsMatch(s, h);
    forall tag, punted ensures PacketsConservedAt(Step(s, e), Record(h, s, e), tag, punted) {
      assert PacketsConservedAt(s, h, tag, punted);
      PacketsStep(s, h, e, tag, punted);
    }
    ReturnedStep(s, h, e);
  }

  lemma ReturnedStep(s: State, h: History, e: Event)
    requires Enabled(s, e) && h.produced == h.returned + s.outcomes
    ensures Record(h, s, e).produced == Record(h, s, e).returned + Step(s, e).outcomes
  {
  }

  /** Conservation holds after every run, whatever the interleaving. */
  lemma RunConserves(ignorePacketIns: bool, events: seq<Event>)
    ensures var w := Run(ignorePacketIns, events);
            w.Some? ==> Conserved(w.value.state, w.value.history)
  {
    InitialConserved(ignorePacketIns);
    FromConserves(World(Initial(ignorePacketIns), NoHistory()), events);
  }

  lemma {:induction false} FromConserves(w: World, events: seq<Event>)
    requires Conserved(w.state, w.history)
    ensures var after := From(w, events);
            after.Some? ==> Conserved(after.value.state, after.value.history)
  {
    if events != [] {
      FromConserves(w, events[..|events| - 1]);
      var before, e := From(w, events[..|events| - 1]), events[|events| - 1];
      if before.Some? && Enabled(before.value.state, e) {
        StepConserves(before.value.state, before.value.history, e);
      }
    }
  }

  lemma InitialConserved(ignorePacketIns: bool)
    ensures Conserved(Initial(ignorePacketIns), NoHistory())
  {
  }

  // ----- what conservation means for single records, outcomes and packets -----

  /** An injected record is in exactly one place, once; nothing else is anywhere. */
  lemma EachRecordInOnePlace(s: State, h: History, r: InjectedTraffic)
    requires Conserved(s, h)
    ensures multiset(s.injected)[r] + multiset(s.residualInjected)[r] + multiset(Taken(s.phase))[r]
            + multiset(RecordsOf(h.produced))[r] == if r in h.injected then 1 else 0
  {
    if r in h.injected {
      var i :| 0 <= i < |h.injected| && h.injected[i] == r;
      OnceInMultiset(h.injected, i);
    } else {
      assert multiset(h.injected)[r] == 0;
    }
  }

  /** Every outcome is that of an injected record, and no two outcomes share a tag. */
  lemma OneOutcomePerInjection(s: State, h: History)
    requires Conserved(s, h)
    ensures forall o :: o in h.produced ==> RecordOf(o) in h.injected
    ensures forall i, j :: 0 <= i < j < |h.produced| ==> h.produced[i].vector.tag != h.produced[j].vector.tag
  {
    var records := RecordsOf(h.produced);
    forall i | 0 <= i < |records| ensures records[i] in h.injected {
      assert records[i] in multiset(records);
      assert records[i] in multiset(h.injected);
    }
    forall o | o in h.produced ensures RecordOf(o) in h.injected {
      var i :| 0 <= i < |h.produced| && h.produced[i] == o;
      assert records[i] == RecordOf(o);
    }
    forall i, j | 0 <= i < j < |h.produced|
      ensures h.produced[i].vector.tag != h.produced[j].vector.tag
    {
      if h.produced[i].vector.tag == h.produced[j].vector.tag {
        SameTagSameRecord(s, h, records[i], records[j]);
        TwiceInMultiset(records, i, j);
        EachRecordInOnePlace(s, h, records[i]);
      }
    }
  }

  lemma SameTagSameRecord(s: State, h: History, a: InjectedTraffic, b: InjectedTraffic)
    requires TagsInOrder(s, h) && a in h.injected && b in h.injected && a.tag == b.tag
    ensures a == b
  {
  }

  lemma {:induction false} ReportedContains(outcomes: seq<Outcome>, i: nat, punted: bool)
    requires i < |outcomes|
    ensures multiset(outcomes[i].actualOutput.Stream(punted)) <= Reported(outcomes, outcomes[i].vector.tag, punted)
  {
    if i < |outcomes| - 1 {
      assert outcomes[..|outcomes| - 1][i] == outcomes[i];
      ReportedContains(outcomes[..|outcomes| - 1], i, punted);
    }
  }

  /** An outcome reports only packets that arrived with its own tag. */
  lemma OutcomeReportsOwnPackets(s: State, h: History, i: nat, punted: bool)
    requires Conserved(s, h) && i < |h.produced|
    ensures multiset(h.produced[i].actualOutput.Stream(punted)) <= Arrived(h.arrivals, h.produced[i].vector.tag, punted)
  {
    ReportedContains(h.produced, i, punted);
    assert PacketsConservedAt(s, h, h.produced[i].vector.tag, punted);
  }

  /** Get-and-clear calls return every outcome exactly once, in the order in which they were judged. */
  lemma EachOutcomeReturnedOnce(ignorePacketIns: bool, events: seq<Event>)
    requires Run(ignorePacketIns, events).Some?
    ensures var w := Run(ignorePacketIns, events).value;
            && w.history.produced == w.history.returned + w.state.outcomes
            && forall i, j :: 0 <= i < j < |w.history.returned| ==>
                 w.history.returned[i].vector.tag != w.history.returned[j].vector.tag
  {
    RunConserves(ignorePacketIns, events);
    var w := Run(ignorePacketIns, events).value;
    OneOutcomePerInjection(w.state, w.history);
    forall i | 0 <= i < |w.history.returned| ensures w.history.produced[i] == w.history.returned[i] {
    }
  }

  lemma {:induction false} NothingReported(outcomes: seq<Outcome>, tag: int, punted: bool)
    requires forall i :: 0 <= i < |outcomes| ==> outcomes[i].vector.tag != tag
    ensures Reported(outcomes, tag, punted) == multiset{}
  {
    if outcomes != [] {
      NothingReported(outcomes[..|outcomes| - 1], tag, punted);
    }
  }

  /** A judged tag is settled: whatever happens later, nothing more is reported for it. */
  lemma {:induction false} JudgedTagIsFinal(w: World, events: seq<Event>, i: nat, punted: bool)
    requires Conserved(w.state, w.history) && i < |w.history.produced| && From(w, events).Some?
    ensures w.history.produced <= From(w, events).value.history.produced
    ensures var tag := w.history.produced[i].vector.tag;
            Reported(From(w, events).value.history.produced, tag, punted) == Reported(w.history.produced, tag, punted)
  {
    if events != [] {
      var before := From(w, events[..|events| - 1]).value;
      FromConserves(w, events[..|events| - 1]);
      JudgedTagIsFinal(w, events[..|events| - 1], i, punted);
      NextReportsNothing(before.state, before.history, events[|events| - 1], i, punted);
    }
  }

  lemma NextReportsNothing(s: State, h: History, e: Event, i: nat, punted: bool)
    requires Enabled(s, e) && Conserved(s, h) && i < |h.produced|
    ensures h.produced <= Record(h, s, e).produced
    ensures var tag := h.produced[i].vector.tag;
            Reported(Record(h, s, e).produced, tag, punted) == Reported(h.produced, tag, punted)
  {
    if e.FinishValidation? {
      StepConserves(s, h, e);
      OneOutcomePerInjection(Step(s, e), Record(h, s, e));
      NewOutcomesOfOthers(h.produced, Judge(s.phase.taken, s.phase.cutoff, s.phase.outputs).outcomes, i, punted);
    }
  }

  lemma NewOutcomesOfOthers(earlier: seq<Outcome>, made: seq<Outcome>, i: nat, punted: bool)
    requires i < |earlier|
    requires var all := earlier + made;
             forall j, k :: 0 <= j < k < |all| ==> all[j].vector.tag != all[k].vector.tag
    ensures var tag := earlier[i].vector.tag; Reported(earlier + made, tag, punted) == Reported(earlier, tag, punted)
  {
    var all, tag := earlier + made, earlier[i].vector.tag;
    forall j | 0 <= j < |made| ensures made[j].vector.tag != tag {
      assert all[|earlier| + j] == made[j] && all[i] == earlier[i];
    }
    ReportedConcat(earlier, made, tag, punted);
    NothingReported(made, tag, punted);
  }

  // ----- what a finished validation settles -----

  ghost predicate DistinctTags(records: seq<InjectedTraffic>)
  {
    forall i, j :: 0 <= i < j < |records| ==> records[i].tag != records[j].tag
  }

  /** Judging leaves the outputs of tags it has not met. */
  lemma {:induction false} JudgeLeavesOthers(taken: seq<InjectedTraffic>, cutoff: Time, outputs: Collected, tag: int)
    requires forall r :: r in taken ==> r.tag != tag
    ensures Held(Judge(taken, cutoff, outputs).outputs, tag) == Held(outputs, tag)
  {
    if taken != [] {
      var init, r := taken[..|taken| - 1], taken[|taken| - 1];
      assert r in taken;
      JudgeLeavesOthers(init, cutoff, outputs, tag);
    }
  }

  /** The outcome of a record from before the cutoff reports everything taken for its tag. */
  lemma {:induction false} JudgeReportsAll(taken: seq<InjectedTraffic>, cutoff: Time, outputs: Collected, i: nat)
    requires DistinctTags(taken) && i < |taken| && taken[i].injectionTime < cutoff
    ensures Outcome(taken[i].vector, taken[i].injectionTime, Held(outputs, taken[i].tag))
            in Judge(taken, cutoff, outputs).outcomes
  {
    var init, r := taken[..|taken| - 1], taken[|taken| - 1];
    if i < |init| {
      assert init[i] == taken[i];
      JudgeReportsAll(init, cutoff, outputs, i);
    } else {
      JudgeLeavesOthers(init, cutoff, outputs, r.tag);
    }
  }

  /**
    When a validation finishes, every record from before its cutoff that it took has its outcome, which
    reports exactly the packets of its tag that had arrived when the outputs were taken: all that ever
    arrived but those that are still in the live buffer.
   */
  lemma FinishSettles(s: State, h: History, clear: bool, i: nat)
    requires Conserved(s, h) && s.phase.Judging?
    requires i < |s.phase.taken| && s.phase.taken[i].injectionTime < s.phase.cutoff
    ensures var r := s.phase.taken[i];
            Outcome(r.vector, r.injectionTime, Held(s.phase.outputs, r.tag))
            in Record(h, s, FinishValidation(clear)).produced
    ensures forall punted ::
              Packets(s.phase.outputs, s.phase.taken[i].tag, punted)
              == Arrived(h.arrivals, s.phase.taken[i].tag, punted) - Packets(s.collected, s.phase.taken[i].tag, punted)
    ensures forall r :: r in Step(s, FinishValidation(clear)).residualInjected ==> r.injectionTime >= s.phase.cutoff
  {
    TakenTagsMatch(s, h);
    TakenTagsDistinct(s, h);
    JudgeReportsAll(s.phase.taken, s.phase.cutoff, s.phase.outputs, i);
    JudgeKeepsRecords(s.phase.taken, s.phase.cutoff, s.phase.outputs);
    forall punted
      ensures Packets(s.phase.outputs, s.phase.taken[i].tag, punted)
           == Arrived(h.arrivals, s.phase.taken[i].tag, punted) - Packets(s.collected, s.phase.taken[i].tag, punted)
    {
      TakenOutputs(s, h, i, punted);
    }
  }

  /** Nothing of a tag that is still to be judged has been reported, so what arrived is taken or live. */
  lemma TakenOutputs(s: State, h: History, i: nat, punted: bool)
    requires Conserved(s, h) && s.phase.Judging? && i < |s.phase.taken|
    ensures Packets(s.phase.outputs, s.phase.taken[i].tag, punted)
         == Arrived(h.arrivals, s.phase.taken[i].tag, punted) - Packets(s.collected, s.phase.taken[i].tag, punted)
  {
    var r := s.phase.taken[i];
    assert PacketsConservedAt(s, h, r.tag, punted);
    forall j | 0 <= j < |h.produced| ensures h.produced[j].vector.tag != r.tag {
      TakenIsNotProduced(s, h, i, j);
    }
    NothingReported(h.produced, r.tag, punted);
  }

  // ----- a whole validation -----

  /** Events of the injection and collection threads. */
  predicate Quiet(events: seq<Event>)
  {
    forall e :: e in events ==> e.TakeTag? || e.Inject? || e.AbandonInjection? || e.Arrive?
  }

  lemma {:induction false} FromConcat(w: World, a: seq<Event>, b: seq<Event>)
    requires From(w, a + b).Some?
    ensures From(w, a).Some? && From(w, a + b) == From(From(w, a).value, b)
  {
    if b == [] {
      assert a + b == a;
    } else {
      var init, last := b[..|b| - 1], b[|b| - 1];
      assert (a + b)[..|a + b| - 1] == a + init;
      FromConcat(w, a, init);
    }
  }

  lemma FromOne(w: World, e: Event)
    requires From(w, [e]).Some?
    ensures Enabled(w.state, e) && From(w, [e]).value == World(Step(w.state, e), Record(w.history, w.state, e))
  {
    assert [e][..0] == [];
    assert From(w, []) == Some(w);
  }

  /** The other threads leave a validation in progress alone. */
  lemma {:induction false} QuietKeeps(w: World, events: seq<Event>)
    requires Quiet(events) && From(w, events).Some?
    ensures var after := From(w, events).value;
            after.state.phase == w.state.phase && after.state.residualInjected == w.state.residualInjected
            && after.state.residualCollected == w.state.residualCollected
            && after.history.produced == w.history.produced
  {
    if events != [] {
      assert events[|events| - 1] in events;
      assert forall e :: e in events[..|events| - 1] ==> e in events;
      QuietKeeps(w, events[..|events| - 1]);
    }
  }

  /** Judged in order: the records from before the cutoff, and those that wait for the next validation. */
  lemma JudgeInOrder(taken: seq<InjectedTraffic>, cutoff: Time, outputs: Collected)
    ensures var v := Judge(taken, cutoff, outputs);
            var early := Filter((r: InjectedTraffic) => r.injectionTime < cutoff, taken);
            && |v.outcomes| == |early|
            && (forall i :: 0 <= i < |early| ==>
                  v.outcomes[i].vector == early[i].vector && v.outcomes[i].injectionTime == early[i].injectionTime)
            && v.kept == Filter((r: InjectedTraffic) => r.injectionTime >= cutoff, taken)
  {
    OutcomesInOrder(taken, cutoff, outputs, (r: InjectedTraffic) => r.injectionTime < cutoff);
    KeptInOrder(taken, cutoff, outputs, (r: InjectedTraffic) => r.injectionTime >= cutoff);
  }

  lemma {:induction false} OutcomesInOrder(taken: seq<InjectedTraffic>, cutoff: Time, outputs: Collected,
                                           early: InjectedTraffic -> bool)
    requires forall r :: early(r) <==> r.injectionTime < cutoff
    ensures var outcomes, records := Judge(taken, cutoff, outputs).outcomes, Filter(early, taken);
            |outcomes| == |records|
            && forall i :: 0 <= i < |records| ==>
                 outcomes[i].vector == records[i].vector && outcomes[i].injectionTime == records[i].injectionTime
  {
    if taken != [] {
      var init, r := taken[..|taken| - 1], taken[|taken| - 1];
      assert taken == init + [r];
      OutcomesInOrder(init, cutoff, outputs, early);
      FilterSnoc(early, init, r);
    }
  }

  lemma {:induction false} KeptInOrder(taken: seq<InjectedTraffic>, cutoff: Time, outputs: Collected,
                                       late: InjectedTraffic -> bool)
    requires forall r :: late(r) <==> r.injectionTime >= cutoff
    ensures Judge(taken, cutoff, outputs).kept == Filter(late, taken)
  {
    if taken != [] {
      var init, r := taken[..|taken| - 1], taken[|taken| - 1];
      assert taken == init + [r];
      KeptInOrder(init, cutoff, outputs, late);
      FilterSnoc(late, init, r);
    }
  }

  /** The events of one validation, with whatever the other threads do in between. */
  function Validation(now: Time, waiting: seq<Event>, judging: seq<Event>, clear: bool): seq<Event>
  {
    [BeginValidation(now)] + waiting + [TakeCollected] + judging + [FinishValidation(clear)]
  }

  /** The worlds before the collected packets are taken, and before the validation finishes. */
  lemma ValidationSteps(w: World, now: Time, waiting: seq<Event>, judging: seq<Event>, clear: bool)
    returns (taking: World, finishing: World)
    requires Conserved(w.state, w.history) && Quiet(waiting) && Quiet(judging)
    requires From(w, Validation(now, waiting, judging, clear)).Some?
    ensures From(w, [BeginValidation(now)] + waiting) == Some(taking)
    ensures Conserved(finishing.state, finishing.history)
    ensures w.state.phase.Idle? && taking.state.phase == Waiting(w.state.injected + w.state.residualInjected, now)
    ensures finishing.state.phase
            == Judging(w.state.injected + w.state.residualInjected, now,
                       Merge(taking.state.collected, taking.state.residualCollected))
    ensures Conserved(taking.state, taking.history) && Enabled(taking.state, TakeCollected)
    ensures From(w, Validation(now, waiting, judging, clear))
            == Some(World(Step(finishing.state, FinishValidation(clear)),
                          Record(finishing.history, finishing.state, FinishValidation(clear))))
  {
    var begun, last := [BeginValidation(now)], [FinishValidation(clear)];
    FromConcat(w, begun + waiting + [TakeCollected] + judging, last);
    FromConcat(w, begun + waiting + [TakeCollected], judging);
    FromConcat(w, begun + waiting, [TakeCollected]);
    FromConcat(w, begun, waiting);
    FromConserves(w, begun + waiting);
    FromConserves(w, begun + waiting + [TakeCollected] + judging);
    FromOne(w, BeginValidation(now));
    QuietKeeps(From(w, begun).value, waiting);
    taking := From(w, begun + waiting).value;
    FromOne(taking, TakeCollected);
    QuietKeeps(From(taking, [TakeCollected]).value, judging);
    finishing := From(w, begun + waiting + [TakeCollected] + judging).value;
    FromOne(finishing, FinishValidation(clear));
  }

  /** Everything that had arrived for a taken record is in the outputs when they are taken. */
  lemma TakenArrivals(s: State, h: History, i: nat, punted: bool)
    requires Conserved(s, h) && s.phase.Waiting? && i < |s.phase.taken|
    ensures Packets(Merge(s.collected, s.residualCollected), s.phase.taken[i].tag, punted)
         == Arrived(h.arrivals, s.phase.taken[i].tag, punted)
  {
    var s' := Step(s, TakeCollected);
    StepConserves(s, h, TakeCollected);
    TakenOutputs(s', Record(h, s, TakeCollected), i, punted);
  }

  /**
    What a validation settles: every record that was live or left over when it began has its outcome, with
    exactly the packets of its tag that had arrived by the time they were taken, if it was injected before
    the validation began; every other one is left over again, in order.
   */
  lemma ValidationSettles(w: World, now: Time, waiting: seq<Event>, judging: seq<Event>, clear: bool)
    requires Conserved(w.state, w.history) && Quiet(waiting) && Quiet(judging)
    requires From(w, Validation(now, waiting, judging, clear)).Some?
    ensures From(w, [BeginValidation(now)] + waiting).Some?
    ensures var after := From(w, Validation(now, waiting, judging, clear)).value;
            var arrivals := From(w, [BeginValidation(now)] + waiting).value.history.arrivals;
            && (forall r :: r in w.state.injected + w.state.residualInjected && r.injectionTime < now ==>
                  exists o :: o in after.history.produced && o.vector == r.vector && o.injectionTime == r.injectionTime
                              && forall punted ::
                                   multiset(o.actualOutput.Stream(punted)) == Arrived(arrivals, r.tag, punted))
            && after.state.residualInjected
               == Filter((r: InjectedTraffic) => r.injectionTime >= now, w.state.injected + w.state.residualInjected)
  {
    var taking, finishing := ValidationSteps(w, now, waiting, judging, clear);
    var s, h, taken := finishing.state, finishing.history, finishing.state.phase.taken;
    JudgeInOrder(taken, now, s.phase.outputs);
    forall r | r in taken && r.injectionTime < now
      ensures exists o :: o in Record(h, s, FinishValidation(clear)).produced && o.vector == r.vector
                          && o.injectionTime == r.injectionTime
                          && forall punted :: multiset(o.actualOutput.Stream(punted))
                                              == Arrived(taking.history.arrivals, r.tag, punted)
    {
      var i :| 0 <= i < |taken| && taken[i] == r;
      FinishSettles(s, h, clear, i);
      var o := Outcome(r.vector, r.injectionTime, Held(s.phase.outputs, r.tag));
      forall punted ensures multiset(o.actualOutput.Stream(punted)) == Arrived(taking.history.arrivals, r.tag, punted) {
        TakenArrivals(taking.state, taking.history, i, punted);
      }
    }
  }

  lemma TakenIsNotProduced(s: State, h: History, i: nat, j: nat)
    requires Conserved(s, h) && s.phase.Judging? && i < |s.phase.taken| && j < |h.produced|
    ensures h.produced[j].vector.tag != s.phase.taken[i].tag
  {
    var r, o := s.phase.taken[i], RecordOf(h.produced[j]);
    OneOutcomePerInjection(s, h);
    assert r in multiset(s.phase.taken);
    assert r in multiset(h.injected);
    assert h.produced[j] in h.produced;
    if o.tag == r.tag {
      SameTagSameRecord(s, h, o, r);
      assert RecordsOf(h.produced)[j] == r;
      assert r in multiset(RecordsOf(h.produced));
      EachRecordInOnePlace(s, h, r);
    }
  }

  lemma TakenTagsDistinct(s: State, h: History)
    requires Conserved(s, h)
    ensures DistinctTags(Taken(s.phase))
  {
    var taken := Taken(s.phase);
    forall i, j | 0 <= i < j < |taken| ensures taken[i].tag != taken[j].tag {
      assert taken[i] in multiset(taken) && taken[j] in multiset(taken);
      assert taken[i] in multiset(h.injected) && taken[j] in multiset(h.injected);
      if taken[i].tag == taken[j].tag {
        SameTagSameRecord(s, h, taken[i], taken[j]);
        TwiceInMultiset(taken, i, j);
        EachRecordInOnePlace(s, h, taken[i]);
      }
    }
  }

  // ----- the generator -----

  class TrafficGeneratorWithGuaranteedRate {
    const ignorePacketIns: bool
    var packetTagId: int
    var inFlight: Option<TestVector>
    var injectedTraffic: seq<InjectedTraffic>
    var residualInjectedTraffic: seq<InjectedTraffic>
    var collectedTrafficById: Collected
    var residualCollectedTrafficById: Collected
    var testOutcomes: seq<Outcome>
    var phase: Phase

    constructor (ignorePacketIns: bool)
      ensures Model() == Initial(ignorePacketIns)
      ensures packetTagId == 1 && inFlight == None && phase == Idle && testOutcomes == []
      ensures injectedTraffic == residualInjectedTraffic == []
      ensures collectedTrafficById == residualCollectedTrafficById == map[]
    {
      this.ignorePacketIns := ignorePacketIns;
      packetTagId := 1;
      inFlight := None;
      injectedTraffic, residualInjectedTraffic := [], [];
      collectedTrafficById, residualCollectedTrafficById := map[], map[];
      testOutcomes := [];
      phase := Idle;
    }

    ghost function Model(): State
      reads this
    {
      State(ignorePacketIns, packetTagId, inFlight, injectedTraffic, residualInjectedTraffic,
            collectedTrafficById, residualCollectedTrafficById, testOutcomes, phase)
    }

    /** Injection thread: the next tag, whether or not the vector is then skipped. */
    method PrepareTestVector(vector: TestVector) returns (skip: bool)
      requires inFlight == None
      modifies this
      ensures Model() == Step(old(Model()), TakeTag(vector))
      ensures skip <==> inFlight == None
      ensures skip <==> ignorePacketIns && (vector.input == SubmitToIngress || vector.input == PacketOut)
      ensures !skip ==> inFlight == Some(TestVector(old(packetTagId), vector.input, vector.contents))
      ensures packetTagId == old(packetTagId) + 1
    {
      var newTag := packetTagId;
      packetTagId := packetTagId + 1;
      if ignorePacketIns && (vector.input == SubmitToIngress || vector.input == PacketOut) {
        return true;
      }
      inFlight := Some(vector.(tag := newTag));
      skip := false;
    }

    /** Injection thread, under its mutex: the record of a packet that has been sent. */
    method RecordInjection(now: Time)
      requires inFlight.Some?
      modifies this
      ensures Model() == Step(old(Model()), Inject(now))
      ensures var vector := old(inFlight).value;
              injectedTraffic == old(injectedTraffic) + [InjectedTraffic(vector.tag, vector, now)]
    {
      injectedTraffic := injectedTraffic + [InjectedTraffic(inFlight.value.tag, inFlight.value, now)];
      inFlight := None;
    }

    /** Collection thread, under its mutex: a packet forwarded to the control switch. */
    method RecordForwarded(tag: int, packet: Packet)
      modifies this
      ensures Model() == Step(old(Model()), Arrive(tag, false, packet))
      ensures collectedTrafficById.Keys == old(collectedTrafficById).Keys + {tag}
      ensures var before := if tag in old(collectedTrafficById) then old(collectedTrafficById)[tag] else NO_OUTPUT;
              collectedTrafficById[tag] == SwitchOutput(before.packets + [packet], before.packetIns)
    {
      var output := if tag in collectedTrafficById then collectedTrafficById[tag] else NO_OUTPUT;
      collectedTrafficById := collectedTrafficById[tag := output.(packets := output.packets + [packet])];
    }

    /** Collection thread, under its mutex: a packet punted by the switch under test. */
    method RecordPunted(tag: int, packet: Packet)
      requires !ignorePacketIns
      modifies this
      ensures Model() == Step(old(Model()), Arrive(tag, true, packet))
      ensures collectedTrafficById.Keys == old(collectedTrafficById).Keys + {tag}
      ensures var before := if tag in old(collectedTrafficById) then old(collectedTrafficById)[tag] else NO_OUTPUT;
              collectedTrafficById[tag] == SwitchOutput(before.packets, before.packetIns + [packet])
    {
      var output := if tag in collectedTrafficById then collectedTrafficById[tag] else NO_OUTPUT;
      collectedTrafficById := collectedTrafficById[tag := output.(packetIns := output.packetIns + [packet])];
    }

    /** Validation, first part: swaps out the injected records and appends the residual ones. */
    method StartValidation(now: Time)
      requires phase.Idle?
      modifies this
      ensures Model() == Step(old(Model()), BeginValidation(now))
      ensures phase == Waiting(old(injectedTraffic) + old(residualInjectedTraffic), now)
    {
      var injectedTrafficVector: seq<InjectedTraffic> := [];
      injectedTraffic, injectedTrafficVector := injectedTrafficVector, injectedTraffic;
      for i := 0 to |residualInjectedTraffic|
        invariant injectedTrafficVector == old(injectedTraffic) + residualInjectedTraffic[..i]
      {
        injectedTrafficVector := injectedTrafficVector + [residualInjectedTraffic[i]];
      }
      assert residualInjectedTraffic[..|residualInjectedTraffic|] == residualInjectedTraffic;
      residualInjectedTraffic := [];
      phase := Waiting(injectedTrafficVector, now);
    }

    /** Validation, second part, after the wait: swaps out the collected packets and adds the residual ones. */
    method SwapCollected()
      requires phase.Waiting?
      modifies this
      ensures Model() == Step(old(Model()), TakeCollected)
      ensures collectedTrafficById == residualCollectedTrafficById == map[]
      ensures phase.Judging?
              && phase.outputs.Keys == old(collectedTrafficById).Keys + old(residualCollectedTrafficById).Keys
      ensures forall t :: t in phase.outputs ==>
                var live := if t in old(collectedTrafficById) then old(collectedTrafficById)[t] else NO_OUTPUT;
                var left := if t in old(residualCollectedTrafficById) then old(residualCollectedTrafficById)[t]
                            else NO_OUTPUT;
                phase.outputs[t] == SwitchOutput(live.packets + left.packets, live.packetIns + left.packetIns)
    {
      var merged: Collected := map[];
      collectedTrafficById, merged := merged, collectedTrafficById;
      merged := MergeResidual(merged, residualCollectedTrafficById);
      residualCollectedTrafficById := map[];
      phase := Judging(phase.taken, phase.cutoff, merged);
    }

    static method MergeResidual(live: Collected, residual: Collected) returns (merged: Collected)
      ensures merged == Merge(live, residual)
    {
      merged := live;
      var ids := residual.Keys;
      MergeNone(live, residual);
      while ids != {}
        invariant ids <= residual.Keys
        invariant merged == Merge(live, residual - ids)
        decreases |ids|
      {
        var id := PickElement(ids);
        MergeAnother(live, residual, ids, id);
        merged := merged[id := Append(Held(merged, id), residual[id])];
        ids := ids - {id};
      }
      assert residual - {} == residual;
    }

    /** Validation, third part: outcomes for the records from before the cutoff; the rest becomes residual. */
    method GetValidationResult() returns (result: seq<Outcome>)
      requires phase.Judging?
      modifies this
      ensures Model() == Step(old(Model()), FinishValidation(false))
      ensures result == testOutcomes && old(testOutcomes) <= testOutcomes
      ensures var cutoff, taken := old(phase.cutoff), old(phase.taken);
              && |testOutcomes| == |old(testOutcomes)|
                                   + |Filter((r: InjectedTraffic) => r.injectionTime < cutoff, taken)|
              && residualInjectedTraffic
                 == old(residualInjectedTraffic)
                    + Filter((r: InjectedTraffic) => r.injectionTime >= cutoff, taken)
    {
      var taken, cutoff, outputs := phase.taken, phase.cutoff, phase.outputs;
      var newOutcomes: seq<Outcome> := [];
      ghost var kept: seq<InjectedTraffic> := [];
      ghost var all := outputs;
      for i := 0 to |taken|
        invariant Judge(taken[..i], cutoff, all) == Verdicts(newOutcomes, kept, outputs)
        invariant residualInjectedTraffic == old(residualInjectedTraffic) + kept
        invariant Model() == old(Model()).(residualInjected := residualInjectedTraffic)
      {
        var record := taken[i];
        assert taken[..i + 1][..i] == taken[..i];
        if record.injectionTime < cutoff {
          var actual := NO_OUTPUT;
          if record.tag in outputs {
            actual := outputs[record.tag];
          }
          outputs := outputs - {record.tag};
          newOutcomes := newOutcomes + [Outcome(record.vector, record.injectionTime, actual)];
        } else {
          residualInjectedTraffic := residualInjectedTraffic + [record];
          kept := kept + [record];
        }
      }
      assert taken[..|taken|] == taken;
      residualCollectedTrafficById := residualCollectedTrafficById + outputs;
      testOutcomes := testOutcomes + newOutcomes;
      phase := Idle;
      result := testOutcomes;
      JudgeInOrder(taken, cutoff, all);
    }

    method GetAndClearValidationResult() returns (result: seq<Outcome>)
      requires phase.Judging?
      modifies this
      ensures Model() == Step(old(Model()), FinishValidation(true))
      ensures testOutcomes == []
      ensures result == old(testOutcomes) + Judge(old(phase.taken), old(phase.cutoff), old(phase.outputs)).outcomes
    {
      result := GetValidationResult();
      testOutcomes := [];
    }
  }
}
