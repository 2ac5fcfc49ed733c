/**
 Runs of one server's copy of a room: any sequence of received, historic and local events from an
 empty store, each accepted event written as `Accepted` says. What every run keeps.
 */
module DagRuns {
  import opened Common
  import opened Sorting
  import opened MatrixEvents
  import opened AuthChain
  import opened Dag

  datatype Step =
    | Receive(id: EventId, wire: Wire)
    | Past(id: EventId, wire: Wire)
    | Local(draft: Draft)

  /** A store, the order its events were written in, and the events that extended the room (accepted
      as live events and not soft-failed). */
  datatype World = World(db: Store, log: seq<EventId>, live: set<EventId>)

  const Start := World(EmptyStore, [], {})

  function Record(w: World, a: Accepted): (r: World) {
    World(Write(w.db, a), w.log + [a.eventId], if a.softFailed then w.live else w.live + {a.eventId})
  }

  function RecordPast(w: World, h: Historic): (r: World) {
    World(WriteHistoric(w.db, h), w.log + [h.eventId], w.live)
  }

  /** A refused event changes nothing; a historic event that already has a state is skipped. */
  function Apply(rules: Rules, w: World, s: Step): (r: World) {
    match s
    case Receive(id, wire) =>
      var a := Acceptance(rules, w.db, id, wire, None);
      if a.Ok? then Record(w, a.value) else w
    case Past(id, wire) =>
      if id in w.db.stateAfter then w
      else
        var h := HistoricAcceptance(rules, w.db, id, wire);
        if h.Ok? then RecordPast(w, h.value) else w
    case Local(d) =>
      var a := LocalEvent(rules, w.db, d);
      if a.Ok? then Record(w, a.value) else w
  }

  function Run(rules: Rules, steps: seq<Step>): (r: World) {
    if steps == [] then Start
    else Apply(rules, Run(rules, steps[..|steps| - 1]), steps[|steps| - 1])
  }

  // ----- Hypotheses on state resolution -----

  ghost predicate SameOn(chains: seq<set<EventId>>, p: map<EventId, Pdu>, q: map<EventId, Pdu>) {
    forall i, x :: 0 <= i < |chains| && x in chains[i] ==> x in p && x in q && p[x] == q[x]
  }

  /** The resolver reads only events of the auth chains it is given. */
  ghost predicate ReadsChains(rules: Rules) {
    forall forks, chains, p, q ::
      SameOn(chains, p, q) ==> rules.resolve(forks, chains, p) == rules.resolve(forks, chains, q)
  }

  /** The resolver returns only events of the auth chains it is given. */
  ghost predicate ReturnsChains(rules: Rules) {
    forall forks, chains, p, k ::
      rules.resolve(forks, chains, p).Some? && k in rules.resolve(forks, chains, p).value
      ==> exists i :: 0 <= i < |chains| && rules.resolve(forks, chains, p).value[k] in chains[i]
  }

  // ----- Invariants -----

  /** Live events that no live event cites as a previous event. */
  ghost function Tips(w: World): set<EventId>
    requires w.live <= w.db.pdus.Keys
  {
    set e | e in w.live && !exists f :: f in w.live && e in w.db.pdus[f].prevEvents
  }

  /** Events cite only stored events, and those written before them. */
  ghost predicate Grounded(w: World) {
    && w.db.pdus.Keys == w.db.stateAfter.Keys == Elems(w.log)
    && NoDup(w.log)
    && Cited(w.db.pdus) <= w.db.pdus.Keys
    && (forall e :: e in w.db.pdus ==> w.db.pdus[e].eventId == e)
    && (forall i, p :: 0 <= i < |w.log| && w.log[i] in w.db.pdus && p in w.db.pdus[w.log[i]].prevEvents
          ==> p in w.log[..i])
  }

  ghost predicate ExtremitiesExact(w: World) {
    && w.live <= w.db.pdus.Keys
    && NoDup(w.db.extremities)
    && Sorted(LexLe, w.db.extremities)
    && Elems(w.db.extremities) == Tips(w)
  }

  /** Every entry of every state map is a stored event. */
  ghost predicate StatesStored(db: Store) {
    forall e :: e in db.stateAfter ==> db.stateAfter[e].Values <= db.pdus.Keys
  }

  /** The stored states solve the room's state equations: the state after an event is its own entry
      over the resolution of the states after its previous events, in the store as it is now. */
  ghost predicate StatesSolve(rules: Rules, db: Store)
    requires db.pdus.Keys == db.stateAfter.Keys
  {
    forall e :: e in db.pdus ==>
      && ResolveOver(rules, db, db.pdus[e].prevEvents, None).Ok?
      && db.stateAfter[e] == After(db.pdus[e], ResolveOver(rules, db, db.pdus[e].prevEvents, None).value)
  }

  ghost predicate Sound(rules: Rules, w: World) {
    && Grounded(w)
    && StatesStored(w.db)
    && StatesSolve(rules, w.db)
    && ExtremitiesExact(w)
    && CurrentState(rules, w.db).Ok?
  }

  // ----- One step -----

  /** Growth of a world by one event that `Admit` let through. */
  ghost predicate Grows(rules: Rules, w: World, w': World, pdu: Pdu, after: StateMap) {
    && pdu.eventId !in w.db.stateAfter
    && w'.db.pdus == w.db.pdus[pdu.eventId := pdu]
    && w'.db.stateAfter == w.db.stateAfter[pdu.eventId := after]
    && w'.log == w.log + [pdu.eventId]
    && (forall a :: a in pdu.authEvents ==> a in w.db.pdus)
    && ResolveOver(rules, w.db, pdu.prevEvents, None).Ok?
    && after == After(pdu, ResolveOver(rules, w.db, pdu.prevEvents, None).value)
  }

  lemma AdmitGives(rules: Rules, db: Store, id: EventId, w: Wire)
    requires Admit(rules, db, id, w, None).Ok?
    ensures var (pdu, after) := Admit(rules, db, id, w, None).value;
            && pdu.eventId == id
            && (forall a :: a in pdu.authEvents ==> a in db.pdus)
            && ResolveOver(rules, db, pdu.prevEvents, None).Ok?
            && after == After(pdu, ResolveOver(rules, db, pdu.prevEvents, None).value)
  {
    var pdu := FromWire(rules, id, w).value;
    assert FirstMissing(db.pdus, pdu.authEvents).None?;
  }

  lemma {:induction false} ForksNeedStates(db: Store, ids: seq<EventId>)
    requires Forks(db, ids, None).Ok?
    ensures forall e :: e in ids ==> e in db.stateAfter
    ensures |Forks(db, ids, None).value| == |ids|
    ensures forall i :: 0 <= i < |ids| ==> Forks(db, ids, None).value[i] == db.stateAfter[ids[i]]
    decreases |ids|
  {
    if ids != [] {
      ForksNeedStates(db, ids[..|ids| - 1]);
    }
  }

  lemma GroundedKept(rules: Rules, w: World, w': World, pdu: Pdu, after: StateMap)
    requires Grounded(w) && Grows(rules, w, w', pdu, after)
    ensures Grounded(w')
  {
    ForksNeedStates(w.db, pdu.prevEvents);
    assert Elems(w'.log) == Elems(w.log) + {pdu.eventId};
    assert Cited(w'.db.pdus) <= Cited(w.db.pdus) + Elems(pdu.authEvents);
    forall i, p | 0 <= i < |w'.log| && w'.log[i] in w'.db.pdus && p in w'.db.pdus[w'.log[i]].prevEvents
      ensures p in w'.log[..i]
    {
      if i < |w.log| {
        assert w.log[i] in Elems(w.log);
        assert w'.log[..i] == w.log[..i];
      } else {
        assert p in w.db.stateAfter && p in Elems(w.log);
        assert w'.log[..i] == w.log;
      }
    }
  }

  /** Two closed stores whose common events cite alike hand the resolver the same forks and chains. */
  lemma ChainsSame(a: Store, b: Store, ids: seq<EventId>)
    requires SameAuth(a.pdus, b.pdus) && Cited(a.pdus) <= a.pdus.Keys && Cited(b.pdus) <= b.pdus.Keys
    requires forall e :: e in ids ==> e in a.stateAfter && e in b.stateAfter && a.stateAfter[e] == b.stateAfter[e]
    requires forall e :: e in ids ==> a.stateAfter[e].Values <= a.pdus.Keys && a.stateAfter[e].Values <= b.pdus.Keys
    ensures Forks(a, ids, None).Ok? && Forks(a, ids, None) == Forks(b, ids, None)
    ensures var chains := Chains(a.pdus, Forks(a, ids, None).value);
            && chains == Chains(b.pdus, Forks(a, ids, None).value)
            && (forall i, x :: 0 <= i < |chains| && x in chains[i] ==> x in a.pdus && x in b.pdus)
  {
    ForksSame(a, b, ids);
    var forks := Forks(a, ids, None).value;
    forall i | 0 <= i < |forks|
      ensures Chain(a.pdus, forks[i].Values) == Chain(b.pdus, forks[i].Values)
      ensures Chain(a.pdus, forks[i].Values) <= a.pdus.Keys && Chain(a.pdus, forks[i].Values) <= b.pdus.Keys
    {
      assert forks[i] == a.stateAfter[ids[i]];
      ChainAgrees(a.pdus, b.pdus, forks[i].Values);
    }
    assert Chains(a.pdus, forks) == Chains(b.pdus, forks);
  }

  /** Two stores with the same copies of common events resolve the same ids to the same state. */
  lemma ResolveSame(rules: Rules, a: Store, b: Store, ids: seq<EventId>)
    requires ReadsChains(rules)
    requires (forall x :: x in a.pdus && x in b.pdus ==> a.pdus[x] == b.pdus[x])
    requires Cited(a.pdus) <= a.pdus.Keys && Cited(b.pdus) <= b.pdus.Keys
    requires forall e :: e in ids ==> e in a.stateAfter && e in b.stateAfter && a.stateAfter[e] == b.stateAfter[e]
    requires forall e :: e in ids ==> a.stateAfter[e].Values <= a.pdus.Keys && a.stateAfter[e].Values <= b.pdus.Keys
    ensures ResolveOver(rules, a, ids, None) == ResolveOver(rules, b, ids, None)
  {
    ChainsSame(a, b, ids);
  }

  lemma {:induction false} ForksSame(a: Store, b: Store, ids: seq<EventId>)
    requires forall e :: e in ids ==> e in a.stateAfter && e in b.stateAfter && a.stateAfter[e] == b.stateAfter[e]
    ensures Forks(a, ids, None).Ok? && Forks(a, ids, None) == Forks(b, ids, None)
    ensures |Forks(a, ids, None).value| == |ids|
    ensures forall i :: 0 <= i < |ids| ==> Forks(a, ids, None).value[i] == a.stateAfter[ids[i]]
    decreases |ids|
  {
    if ids != [] {
      ForksSame(a, b, ids[..|ids| - 1]);
    }
  }

  /** A resolution of stored states is stored. */
  lemma ResolveStored(rules: Rules, db: Store, ids: seq<EventId>)
    requires ReturnsChains(rules) && StatesStored(db) && Cited(db.pdus) <= db.pdus.Keys
    requires ResolveOver(rules, db, ids, None).Ok?
    ensures ResolveOver(rules, db, ids, None).value.Values <= db.pdus.Keys
  {
    var forks := Forks(db, ids, None).value;
    ForksNeedStates(db, ids);
    forall i | 0 <= i < |forks| ensures Chain(db.pdus, forks[i].Values) <= db.pdus.Keys {
      assert forks[i] == db.stateAfter[ids[i]];
      ChainStored(db.pdus, forks[i].Values);
    }
    if |forks| == 1 {
      assert forks[0] == db.stateAfter[ids[0]];
    } else if |forks| > 1 {
      var chains := Chains(db.pdus, forks);
      var s := rules.resolve(forks, chains, db.pdus).value;
      forall v | v in s.Values ensures v in db.pdus.Keys {
        var k :| k in s && s[k] == v;
        var i :| 0 <= i < |chains| && s[k] in chains[i];
        assert chains[i] == Chain(db.pdus, forks[i].Values);
      }
    }
  }

  /** A stored event's previous events keep their resolution when the store grows. */
  lemma GrowthKeepsResolution(rules: Rules, w: World, w': World, pdu: Pdu, after: StateMap, ids: seq<EventId>)
    requires ReadsChains(rules)
    requires Grounded(w) && StatesStored(w.db) && Grows(rules, w, w', pdu, after)
    requires forall e :: e in ids ==> e in w.db.stateAfter
    ensures ResolveOver(rules, w.db, ids, None) == ResolveOver(rules, w'.db, ids, None)
  {
    GroundedKept(rules, w, w', pdu, after);
    ResolveSame(rules, w.db, w'.db, ids);
  }

  lemma StatesKept(rules: Rules, w: World, w': World, pdu: Pdu, after: StateMap)
    requires ReadsChains(rules) && ReturnsChains(rules)
    requires Grounded(w) && StatesStored(w.db) && StatesSolve(rules, w.db) && Grows(rules, w, w', pdu, after)
    ensures Grounded(w') && StatesStored(w'.db) && StatesSolve(rules, w'.db)
  {
    GroundedKept(rules, w, w', pdu, after);
    ForksNeedStates(w.db, pdu.prevEvents);
    ResolveStored(rules, w.db, pdu.prevEvents);
    var before := ResolveOver(rules, w.db, pdu.prevEvents, None).value;
    assert after.Values <= before.Values + {pdu.eventId};
    forall e | e in w'.db.pdus
      ensures ResolveOver(rules, w'.db, w'.db.pdus[e].prevEvents, None).Ok?
      ensures w'.db.stateAfter[e]
              == After(w'.db.pdus[e], ResolveOver(rules, w'.db, w'.db.pdus[e].prevEvents, None).value)
    {
      if e != pdu.eventId {
        ForksNeedStates(w.db, w.db.pdus[e].prevEvents);
      }
      GrowthKeepsResolution(rules, w, w', pdu, after, w'.db.pdus[e].prevEvents);
    }
  }

  /** Moving the extremities past a new event gives exactly the tips of the larger room. */
  lemma AdvanceExact(w: World, w': World, pdu: Pdu)
    requires Grounded(w) && ExtremitiesExact(w) && pdu.eventId !in w.db.pdus
    requires w'.db.pdus == w.db.pdus[pdu.eventId := pdu]
    requires forall p :: p in pdu.prevEvents ==> p in w.db.pdus
    requires w'.live == w.live + {pdu.eventId}
    requires w'.db.extremities == Advance(w.db.extremities, pdu)
    ensures ExtremitiesExact(w')
  {
    assert pdu.eventId !in Elems(w.db.extremities);
    AdvanceMembers(w.db.extremities, pdu);
    TipsAdvance(w, w', pdu);
  }

  lemma AdvanceMembers(ext: seq<EventId>, pdu: Pdu)
    requires NoDup(ext) && pdu.eventId !in ext
    ensures NoDup(Advance(ext, pdu)) && Sorted(LexLe, Advance(ext, pdu))
    ensures forall e :: e in Elems(Advance(ext, pdu))
              <==> e == pdu.eventId || (e in Elems(ext) && e !in pdu.prevEvents)
  {
    var all := Without(ext, pdu.prevEvents) + [pdu.eventId];
    assert NoDup(all);
    LexIsOrder();
    SortSorts(LexLe, all);
    MultisetMembers(all, Sort(LexLe, all));
    forall e ensures e in Elems(all) <==> e == pdu.eventId || (e in Elems(ext) && e !in pdu.prevEvents) {
      assert e in all <==> e in Without(ext, pdu.prevEvents) || e == pdu.eventId;
    }
  }

  lemma TipsAdvance(w: World, w': World, pdu: Pdu)
    requires Grounded(w) && w.live <= w.db.pdus.Keys && pdu.eventId !in w.db.pdus
    requires w'.db.pdus == w.db.pdus[pdu.eventId := pdu] && w'.live == w.live + {pdu.eventId}
    requires forall p :: p in pdu.prevEvents ==> p in w.db.pdus
    ensures forall e :: e in Tips(w') <==> e == pdu.eventId || (e in Tips(w) && e !in pdu.prevEvents)
  {
    PrevStored(w);
    assert forall f :: f in w.live ==> f in w'.live && w'.db.pdus[f] == w.db.pdus[f];
    assert pdu.eventId in w'.live && w'.db.pdus[pdu.eventId] == pdu;
  }

  lemma PrevStored(w: World)
    requires Grounded(w)
    ensures forall e, p :: e in w.db.pdus && p in w.db.pdus[e].prevEvents ==> p in w.db.pdus
  {
    forall e, p | e in w.db.pdus && p in w.db.pdus[e].prevEvents ensures p in w.db.pdus {
      assert e in Elems(w.log);
      var i :| 0 <= i < |w.log| && w.log[i] == e;
      assert p in w.log[..i];
      assert p in Elems(w.log);
    }
  }

  lemma AcceptedKeepsExtremities(rules: Rules, w: World, id: EventId, wire: Wire)
    requires Grounded(w) && ExtremitiesExact(w)
    requires Acceptance(rules, w.db, id, wire, None).Ok?
    ensures var w' := Record(w, Acceptance(rules, w.db, id, wire, None).value);
            Grounded(w') && ExtremitiesExact(w')
  {
    var a := Acceptance(rules, w.db, id, wire, None).value;
    var w' := Record(w, a);
    var current := AcceptanceSteps(rules, w.db, id, wire, None);
    AdmitGives(rules, w.db, id, wire);
    GroundedKept(rules, w, w', a.pdu, a.stateAfter);
    ForksNeedStates(w.db, a.pdu.prevEvents);
    if a.softFailed {
      assert Tips(w') == Tips(w);
    } else {
      assert a.extremities == Advance(w.db.extremities, a.pdu);
      AdvanceExact(w, w', a.pdu);
    }
  }

  lemma HistoricKeepsExtremities(rules: Rules, w: World, id: EventId, wire: Wire)
    requires Grounded(w) && ExtremitiesExact(w)
    requires id !in w.db.stateAfter && HistoricAcceptance(rules, w.db, id, wire).Ok?
    ensures var w' := RecordPast(w, HistoricAcceptance(rules, w.db, id, wire).value);
            Grounded(w') && ExtremitiesExact(w')
  {
    var h := HistoricAcceptance(rules, w.db, id, wire).value;
    var w' := RecordPast(w, h);
    AdmitGives(rules, w.db, id, wire);
    GroundedKept(rules, w, w', h.pdu, h.stateAfter);
    assert Tips(w') == Tips(w);
  }

  /** A local event is accepted through the same door as a received one. */
  lemma LocalIsReceived(rules: Rules, w: World, d: Draft) returns (id: EventId, wire: Wire)
    requires LocalEvent(rules, w.db, d).Ok?
    ensures rules.IdOf(wire) == Some(id) && Acceptance(rules, w.db, id, wire, None) == LocalEvent(rules, w.db, d)
  {
    var (i, signed) := SignTemplate(rules, Template(rules, w.db, d).value).value;
    id, wire := i, signed;
  }

  // ----- Theorems over runs -----

  /**
   After every run, under any rules and any resolver, the extremities are sorted, free of duplicates
   and exactly the live events that no live event cites as a previous event.
   */
  lemma {:induction false} ExtremitiesOfRuns(rules: Rules, steps: seq<Step>)
    ensures Grounded(Run(rules, steps)) && ExtremitiesExact(Run(rules, steps))
    decreases |steps|
  {
    if steps == [] {
      assert Tips(Start) == {};
    } else {
      var w := Run(rules, steps[..|steps| - 1]);
      ExtremitiesOfRuns(rules, steps[..|steps| - 1]);
      match steps[|steps| - 1]
      case Receive(id, wire) =>
        if Acceptance(rules, w.db, id, wire, None).Ok? {
          AcceptedKeepsExtremities(rules, w, id, wire);
        }
      case Past(id, wire) =>
        if id !in w.db.stateAfter && HistoricAcceptance(rules, w.db, id, wire).Ok? {
          HistoricKeepsExtremities(rules, w, id, wire);
        }
      case Local(d) =>
        if LocalEvent(rules, w.db, d).Ok? {
          var id, wire := LocalIsReceived(rules, w, d);
          AcceptedKeepsExtremities(rules, w, id, wire);
        }
    }
  }

  lemma TipsHaveStates(w: World)
    requires Grounded(w) && ExtremitiesExact(w)
    ensures forall e :: e in w.db.extremities ==> e in w.db.stateAfter
  {
    forall e | e in w.db.extremities ensures e in w.db.stateAfter {
      assert e in Elems(w.db.extremities);
    }
  }

  /**
   The current state reported at acceptance is what a reader recomputes from the store after the
   write, also for a soft-failed event: its write adds an event that no stored auth chain reaches.
   */
  lemma ReportedStateIsCurrent(rules: Rules, w: World, id: EventId, wire: Wire)
    requires ReadsChains(rules) && Sound(rules, w)
    requires Acceptance(rules, w.db, id, wire, None).Ok?
    ensures var a := Acceptance(rules, w.db, id, wire, None).value;
            CurrentState(rules, Write(w.db, a)) == Ok(a.currentState)
  {
    var a := Acceptance(rules, w.db, id, wire, None).value;
    if a.softFailed {
      var current := AcceptanceSteps(rules, w.db, id, wire, None);
      AdmitGives(rules, w.db, id, wire);
      TipsHaveStates(w);
      GrowthKeepsResolution(rules, w, Record(w, a), a.pdu, a.stateAfter, w.db.extremities);
    } else {
      CurrentStateAfterWrite(rules, w.db, id, wire, None);
    }
  }

  lemma AcceptedKeepsSound(rules: Rules, w: World, id: EventId, wire: Wire)
    requires ReadsChains(rules) && ReturnsChains(rules) && Sound(rules, w)
    requires Acceptance(rules, w.db, id, wire, None).Ok?
    ensures Sound(rules, Record(w, Acceptance(rules, w.db, id, wire, None).value))
  {
    var a := Acceptance(rules, w.db, id, wire, None).value;
    var current := AcceptanceSteps(rules, w.db, id, wire, None);
    AdmitGives(rules, w.db, id, wire);
    StatesKept(rules, w, Record(w, a), a.pdu, a.stateAfter);
    AcceptedKeepsExtremities(rules, w, id, wire);
    ReportedStateIsCurrent(rules, w, id, wire);
  }

  lemma HistoricKeepsSound(rules: Rules, w: World, id: EventId, wire: Wire)
    requires ReadsChains(rules) && ReturnsChains(rules) && Sound(rules, w)
    requires id !in w.db.stateAfter && HistoricAcceptance(rules, w.db, id, wire).Ok?
    ensures Sound(rules, RecordPast(w, HistoricAcceptance(rules, w.db, id, wire).value))
  {
    var h := HistoricAcceptance(rules, w.db, id, wire).value;
    var w' := RecordPast(w, h);
    AdmitGives(rules, w.db, id, wire);
    StatesKept(rules, w, w', h.pdu, h.stateAfter);
    HistoricKeepsExtremities(rules, w, id, wire);
    TipsHaveStates(w);
    GrowthKeepsResolution(rules, w, w', h.pdu, h.stateAfter, w.db.extremities);
  }

  lemma StepKeepsSound(rules: Rules, w: World, s: Step)
    requires ReadsChains(rules) && ReturnsChains(rules) && Sound(rules, w)
    ensures Sound(rules, Apply(rules, w, s))
  {
    match s
    case Receive(id, wire) =>
      if Acceptance(rules, w.db, id, wire, None).Ok? {
        AcceptedKeepsSound(rules, w, id, wire);
      }
    case Past(id, wire) =>
      if id !in w.db.stateAfter && HistoricAcceptance(rules, w.db, id, wire).Ok? {
        HistoricKeepsSound(rules, w, id, wire);
      }
    case Local(d) =>
      if LocalEvent(rules, w.db, d).Ok? {
        var id, wire := LocalIsReceived(rules, w, d);
        AcceptedKeepsSound(rules, w, id, wire);
      }
  }

  /**
   After every run the store cites nothing it does not hold, its states solve the state equations
   against the store as it is now, the extremities are exact and the current state resolves.
   */
  lemma {:induction false} RunsAreSound(rules: Rules, steps: seq<Step>)
    requires ReadsChains(rules) && ReturnsChains(rules)
    ensures Sound(rules, Run(rules, steps))
    decreases |steps|
  {
    if steps == [] {
      assert Tips(Start) == {};
    } else {
      var w := Run(rules, steps[..|steps| - 1]);
      RunsAreSound(rules, steps[..|steps| - 1]);
      StepKeepsSound(rules, w, steps[|steps| - 1]);
    }
  }

  /** The same over runs: in every reachable room, what `accept` reports is what the store then says. */
  lemma RunsReportCurrentState(rules: Rules, steps: seq<Step>, id: EventId, wire: Wire)
    requires ReadsChains(rules) && ReturnsChains(rules)
    requires Acceptance(rules, Run(rules, steps).db, id, wire, None).Ok?
    ensures var a := Acceptance(rules, Run(rules, steps).db, id, wire, None).value;
            CurrentState(rules, Write(Run(rules, steps).db, a)) == Ok(a.currentState)
  {
    RunsAreSound(rules, steps);
    ReportedStateIsCurrent(rules, Run(rules, steps), id, wire);
  }

  // ----- What a run stores -----

  /** The event that a step brings into the store, and the state after it. */
  function Brings(rules: Rules, db: Store, s: Step): (r: Option<(Pdu, StateMap)>) {
    match s
    case Receive(id, wire) =>
      var a := Acceptance(rules, db, id, wire, None);
      if a.Ok? then Some((a.value.pdu, a.value.stateAfter)) else None
    case Past(id, wire) =>
      var h := HistoricAcceptance(rules, db, id, wire);
      if id !in db.stateAfter && h.Ok? then Some((h.value.pdu, h.value.stateAfter)) else None
    case Local(d) =>
      var a := LocalEvent(rules, db, d);
      if a.Ok? then Some((a.value.pdu, a.value.stateAfter)) else None
  }

  predicate BringsAt(rules: Rules, steps: seq<Step>, i: nat, p: Pdu, after: StateMap) {
    i < |steps| && Brings(rules, Run(rules, steps[..i]).db, steps[i]) == Some((p, after))
  }

  ghost predicate IsBrought(rules: Rules, steps: seq<Step>, p: Pdu, after: StateMap) {
    exists i: nat :: BringsAt(rules, steps, i, p, after)
  }

  /** An event, with its state, is in the store. */
  predicate Has(db: Store, p: Pdu, after: StateMap) {
    && p.eventId in db.pdus && db.pdus[p.eventId] == p
    && p.eventId in db.stateAfter && db.stateAfter[p.eventId] == after
  }

  lemma StepStores(rules: Rules, w: World, s: Step)
    requires Grounded(w)
    ensures var w', brought := Apply(rules, w, s), Brings(rules, w.db, s);
            if brought.None? then w'.db.pdus == w.db.pdus && w'.db.stateAfter == w.db.stateAfter
            else
              var (p, after) := brought.value;
              && p.eventId !in w.db.pdus && p.eventId !in w.db.stateAfter
              && w'.db.pdus == w.db.pdus[p.eventId := p] && w'.db.stateAfter == w.db.stateAfter[p.eventId := after]
  {
    match s
    case Receive(id, wire) =>
      if Acceptance(rules, w.db, id, wire, None).Ok? {
        var _ := AcceptanceSteps(rules, w.db, id, wire, None);
      }
    case Past(id, wire) =>
    case Local(d) =>
      if LocalEvent(rules, w.db, d).Ok? {
        var id, wire := LocalIsReceived(rules, w, d);
        var _ := AcceptanceSteps(rules, w.db, id, wire, None);
      }
  }

  /** Over every run under any rules the store has exactly the events that the steps brought, each as it was
      brought and with the state it was brought with, however much came after. */
  lemma {:induction false} StoredIsBrought(rules: Rules, steps: seq<Step>, p: Pdu, after: StateMap)
    ensures Has(Run(rules, steps).db, p, after) <==> IsBrought(rules, steps, p, after)
    decreases |steps|
  {
    if steps != [] {
      var n := |steps| - 1;
      var before, w := steps[..n], Run(rules, steps[..n]);
      StoredIsBrought(rules, before, p, after);
      ExtremitiesOfRuns(rules, before);
      HasNext(rules, w, steps[n], p, after);
      forall i: nat | i < n ensures BringsAt(rules, steps, i, p, after) <==> BringsAt(rules, before, i, p, after) {
        assert before[..i] == steps[..i] && before[i] == steps[i];
      }
      StoredNext(rules, steps, p, after);
    }
  }

  lemma HasNext(rules: Rules, w: World, s: Step, p: Pdu, after: StateMap)
    requires Grounded(w)
    ensures Has(Apply(rules, w, s).db, p, after) <==> Has(w.db, p, after) || Brings(rules, w.db, s) == Some((p, after))
  {
    StepStores(rules, w, s);
    var db', brought := Apply(rules, w, s).db, Brings(rules, w.db, s);
    if brought.Some? && p.eventId == brought.value.0.eventId {
      assert Has(db', p, after) <==> (p, after) == brought.value;
    }
  }

  lemma StoredNext(rules: Rules, steps: seq<Step>, p: Pdu, after: StateMap)
    requires steps != []
    requires var n := |steps| - 1;
             && (forall i: nat :: i < n ==>
                   (BringsAt(rules, steps, i, p, after) <==> BringsAt(rules, steps[..n], i, p, after)))
    ensures IsBrought(rules, steps, p, after)
            <==> || IsBrought(rules, steps[..|steps| - 1], p, after)
                 || Brings(rules, Run(rules, steps[..|steps| - 1]).db, steps[|steps| - 1]) == Some((p, after))
  {
    var n := |steps| - 1;
    if i: nat :| BringsAt(rules, steps, i, p, after) {
      assert i == n || BringsAt(rules, steps[..n], i, p, after);
    }
    if i: nat :| BringsAt(rules, steps[..n], i, p, after) {
      assert BringsAt(rules, steps, i, p, after);
    }
    if Brings(rules, Run(rules, steps[..n]).db, steps[n]) == Some((p, after)) {
      assert BringsAt(rules, steps, n, p, after);
    }
  }
}
