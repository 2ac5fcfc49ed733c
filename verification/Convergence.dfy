/**
 What two servers agree on that were sent events of one room: the state after each event they share, and,
 under an exact condition, the extremities and the current state.
 */
module Convergence {
  import opened Common
  import opened Sorting
  import opened MatrixEvents
  import opened AuthChain
  import opened Dag
  import opened DagRuns

  ghost predicate AlikeOn(rules: Rules, chains: seq<set<EventId>>, p: map<EventId, Pdu>, q: map<EventId, Pdu>) {
    forall i, x :: 0 <= i < |chains| && x in chains[i] ==> x in p && x in q && rules.Core(p[x]) == rules.Core(q[x])
  }

  /** The resolver reads only events of the auth chains it is given, and of those only what `keep` keeps. */
  ghost predicate ReadsCores(rules: Rules) {
    forall forks, chains, p, q ::
      AlikeOn(rules, chains, p, q) ==> rules.resolve(forks, chains, p) == rules.resolve(forks, chains, q)
  }

  /** Two stores that hold the same events, erased or in full, resolve the same ids to the same state. */
  lemma ResolveAgrees(rules: Rules, a: Store, b: Store, ids: seq<EventId>)
    requires ReadsCores(rules)
    requires Alike(rules, a.pdus, b.pdus) && Cited(a.pdus) <= a.pdus.Keys && Cited(b.pdus) <= b.pdus.Keys
    requires forall e :: e in ids ==> e in a.stateAfter && e in b.stateAfter && a.stateAfter[e] == b.stateAfter[e]
    requires forall e :: e in ids ==> a.stateAfter[e].Values <= a.pdus.Keys && a.stateAfter[e].Values <= b.pdus.Keys
    ensures ResolveOver(rules, a, ids, None) == ResolveOver(rules, b, ids, None)
  {
    forall x | x in a.pdus && x in b.pdus ensures a.pdus[x].authEvents == b.pdus[x].authEvents {
      assert rules.Core(a.pdus[x]) == rules.Core(b.pdus[x]);
    }
    ChainsSame(a, b, ids);
  }

  lemma CoresAreChains(rules: Rules)
    requires ReadsCores(rules)
    ensures ReadsChains(rules)
  {
    forall chains, p, q | SameOn(chains, p, q) ensures AlikeOn(rules, chains, p, q) {
    }
  }

  /** The state after an event does not depend on the server: it is a function of the event's history. */
  lemma {:induction false} StatesAgree(rules: Rules, a: World, b: World, n: nat)
    requires ReadsCores(rules) && Sound(rules, a) && Sound(rules, b)
    requires Alike(rules, a.db.pdus, b.db.pdus)
    requires n <= |a.log|
    ensures forall e :: e in a.log[..n] && e in b.db.stateAfter ==> a.db.stateAfter[e] == b.db.stateAfter[e]
    decreases n
  {
    if n > 0 {
      StatesAgree(rules, a, b, n - 1);
      var e := a.log[n - 1];
      assert a.log[..n] == a.log[..n - 1] + [e];
      assert e in Elems(a.log);
      if e in b.db.stateAfter {
        var prev := a.db.pdus[e].prevEvents;
        assert rules.Core(a.db.pdus[e]) == rules.Core(b.db.pdus[e]);
        PrevStored(a);
        PrevStored(b);
        ResolveAgrees(rules, a.db, b.db, prev);
      }
    }
  }

  /** Every received id is the one computed from the event, as the callers of `accept` do. */
  ghost predicate IdsComputed(rules: Rules, steps: seq<Step>) {
    forall i :: 0 <= i < |steps| && !steps[i].Local? ==> rules.IdOf(steps[i].wire) == Some(steps[i].id)
  }

  /** Every stored event was read from a wire form with that id. */
  ghost predicate Read(rules: Rules, pdus: map<EventId, Pdu>) {
    forall x :: x in pdus ==> exists w :: rules.IdOf(w) == Some(x) && FromWire(rules, x, w) == Ok(pdus[x])
  }

  lemma AdmittedIsRead(rules: Rules, db: Store, id: EventId, w: Wire)
    requires Read(rules, db.pdus) && rules.IdOf(w) == Some(id) && Admit(rules, db, id, w, None).Ok?
    ensures Read(rules, db.pdus[id := Admit(rules, db, id, w, None).value.0])
  {
    assert FromWire(rules, id, w) == Ok(Admit(rules, db, id, w, None).value.0);
  }

  lemma ReceivedIsRead(rules: Rules, w: World, id: EventId, wire: Wire)
    requires Read(rules, w.db.pdus) && rules.IdOf(wire) == Some(id) && Acceptance(rules, w.db, id, wire, None).Ok?
    ensures Read(rules, Record(w, Acceptance(rules, w.db, id, wire, None).value).db.pdus)
  {
    var _ := AcceptanceSteps(rules, w.db, id, wire, None);
    AdmittedIsRead(rules, w.db, id, wire);
  }

  lemma {:induction false} RunsRead(rules: Rules, steps: seq<Step>)
    requires IdsComputed(rules, steps)
    ensures Read(rules, Run(rules, steps).db.pdus)
    decreases |steps|
  {
    if steps != [] {
      var n := |steps| - 1;
      var w := Run(rules, steps[..n]);
      RunsRead(rules, steps[..n]);
      match steps[n]
      case Receive(id, wire) =>
        if Acceptance(rules, w.db, id, wire, None).Ok? {
          ReceivedIsRead(rules, w, id, wire);
        }
      case Past(id, wire) =>
        if id !in w.db.stateAfter && HistoricAcceptance(rules, w.db, id, wire).Ok? {
          AdmittedIsRead(rules, w.db, id, wire);
        }
      case Local(d) =>
        if LocalEvent(rules, w.db, d).Ok? {
          var id, wire := LocalIsReceived(rules, w, d);
          ReceivedIsRead(rules, w, id, wire);
        }
    }
  }

  /** In any two runs an event that both servers hold has the same state after it. */
  lemma RunsGiveSameStates(rules: Rules, s: seq<Step>, t: seq<Step>, e: EventId)
    requires ReadsCores(rules) && ReturnsChains(rules)
    requires IdBindsCore(rules) && IdsComputed(rules, s) && IdsComputed(rules, t)
    requires e in Run(rules, s).db.stateAfter && e in Run(rules, t).db.stateAfter
    ensures Run(rules, s).db.stateAfter[e] == Run(rules, t).db.stateAfter[e]
  {
    var a, b := Run(rules, s), Run(rules, t);
    CoresAreChains(rules);
    RunsAreSound(rules, s);
    RunsAreSound(rules, t);
    RunsAlike(rules, s, t);
    StatesAgree(rules, a, b, |a.log|);
    assert a.log[..|a.log|] == a.log;
    assert e in Elems(a.log);
  }

  /** What two servers hold under one id is the same event, whether in full or erased. */
  lemma RunsAlike(rules: Rules, s: seq<Step>, t: seq<Step>)
    requires IdBindsCore(rules) && IdsComputed(rules, s) && IdsComputed(rules, t)
    ensures Alike(rules, Run(rules, s).db.pdus, Run(rules, t).db.pdus)
  {
    RunsRead(rules, s);
    RunsRead(rules, t);
    var p, q := Run(rules, s).db.pdus, Run(rules, t).db.pdus;
    forall x | x in p && x in q ensures rules.Core(p[x]) == rules.Core(q[x]) {
      var v :| rules.IdOf(v) == Some(x) && FromWire(rules, x, v) == Ok(p[x]);
      var w :| rules.IdOf(w) == Some(x) && FromWire(rules, x, w) == Ok(q[x]);
    }
  }

  // ----- When an event is live -----

  /** The event a received or local step stores, if it stores one. */
  function Stored(rules: Rules, db: Store, s: Step): (r: Option<Pdu>) {
    match s
    case Receive(id, wire) =>
      var a := Acceptance(rules, db, id, wire, None);
      if a.Ok? then Some(a.value.pdu) else None
    case Past(_, _) => None
    case Local(d) =>
      var a := LocalEvent(rules, db, d);
      if a.Ok? then Some(a.value.pdu) else None
  }

  /** The check against the current state, which an empty room does not make. */
  predicate Passes(rules: Rules, db: Store, pdu: Pdu) {
    || db.extremities == []
    || (var current := CurrentState(rules, db); current.Ok? && rules.dependent(pdu, StatePdus(db.pdus, current.value)))
  }

  /** The step stores `e`, and `e` passes that check in the store it finds. */
  predicate PassesIn(rules: Rules, db: Store, s: Step, e: EventId) {
    var stored := Stored(rules, db, s);
    stored.Some? && stored.value.eventId == e && Passes(rules, db, stored.value)
  }

  predicate PassesAt(rules: Rules, steps: seq<Step>, i: nat, e: EventId) {
    i < |steps| && PassesIn(rules, Run(rules, steps[..i]).db, steps[i], e)
  }

  ghost predicate Passed(rules: Rules, steps: seq<Step>, e: EventId) {
    exists i: nat :: PassesAt(rules, steps, i, e)
  }

  lemma AcceptedIsLive(rules: Rules, w: World, id: EventId, wire: Wire)
    requires Acceptance(rules, w.db, id, wire, None).Ok?
    ensures var a := Acceptance(rules, w.db, id, wire, None).value;
            a.pdu.eventId == a.eventId && (a.softFailed <==> !Passes(rules, w.db, a.pdu))
  {
    var _ := AcceptanceSteps(rules, w.db, id, wire, None);
  }

  lemma StepLives(rules: Rules, w: World, s: Step)
    ensures var stored := Stored(rules, w.db, s);
            Apply(rules, w, s).live
            == (if stored.Some? && Passes(rules, w.db, stored.value) then w.live + {stored.value.eventId} else w.live)
  {
    match s
    case Receive(id, wire) =>
      if Acceptance(rules, w.db, id, wire, None).Ok? {
        AcceptedIsLive(rules, w, id, wire);
      }
    case Past(_, _) =>
    case Local(d) =>
      if LocalEvent(rules, w.db, d).Ok? {
        var id, wire := LocalIsReceived(rules, w, d);
        AcceptedIsLive(rules, w, id, wire);
      }
  }

  lemma PassedNext(rules: Rules, steps: seq<Step>, s: Step, e: EventId)
    ensures Passed(rules, steps + [s], e) <==> Passed(rules, steps, e) || PassesIn(rules, Run(rules, steps).db, s, e)
  {
    PassesLast(rules, steps, s, e);
    if Passed(rules, steps, e) {
      var i: nat :| PassesAt(rules, steps, i, e);
      PassesEarlier(rules, steps, s, i, e);
    }
    if Passed(rules, steps + [s], e) {
      var i: nat :| PassesAt(rules, steps + [s], i, e);
      if i < |steps| {
        PassesEarlier(rules, steps, s, i, e);
      }
    }
  }

  lemma LiveNext(rules: Rules, steps: seq<Step>, s: Step, e: EventId)
    ensures e in Run(rules, steps + [s]).live
            <==> e in Run(rules, steps).live || PassesIn(rules, Run(rules, steps).db, s, e)
  {
    assert (steps + [s])[..|steps|] == steps;
    StepLives(rules, Run(rules, steps), s);
  }

  lemma LivePassedNext(rules: Rules, steps: seq<Step>, s: Step, e: EventId)
    requires e in Run(rules, steps).live <==> Passed(rules, steps, e)
    ensures e in Run(rules, steps + [s]).live <==> Passed(rules, steps + [s], e)
  {
    LiveNext(rules, steps, s, e);
    PassedNext(rules, steps, s, e);
  }

  lemma PassesEarlier(rules: Rules, steps: seq<Step>, s: Step, i: nat, e: EventId)
    requires i < |steps|
    ensures PassesAt(rules, steps + [s], i, e) <==> PassesAt(rules, steps, i, e)
  {
    assert (steps + [s])[..i] == steps[..i];
  }

  lemma PassesLast(rules: Rules, steps: seq<Step>, s: Step, e: EventId)
    ensures PassesAt(rules, steps + [s], |steps|, e) <==> PassesIn(rules, Run(rules, steps).db, s, e)
  {
    assert (steps + [s])[..|steps|] == steps;
  }

  /** Over every run, under any rules: an event extended the room if and only if some step stored it while
      it passed against the state that was current then. */
  lemma {:induction false} LiveIsPassed(rules: Rules, steps: seq<Step>, e: EventId)
    ensures e in Run(rules, steps).live <==> Passed(rules, steps, e)
    decreases |steps|
  {
    if steps != [] {
      var n := |steps| - 1;
      LiveIsPassed(rules, steps[..n], e);
      assert steps == steps[..n] + [steps[n]];
      LivePassedNext(rules, steps[..n], steps[n], e);
    }
  }

  /** The check against the current state answered alike for every event of the two runs. */
  ghost predicate AnsweredAlike(rules: Rules, s: seq<Step>, t: seq<Step>) {
    forall e :: Passed(rules, s, e) <==> Passed(rules, t, e)
  }

  lemma AlikeIsSameLive(rules: Rules, s: seq<Step>, t: seq<Step>)
    ensures Run(rules, s).live == Run(rules, t).live <==> AnsweredAlike(rules, s, t)
  {
    forall e ensures e in Run(rules, s).live <==> Passed(rules, s, e) { LiveIsPassed(rules, s, e); }
    forall e ensures e in Run(rules, t).live <==> Passed(rules, t, e) { LiveIsPassed(rules, t, e); }
    if Run(rules, s).live == Run(rules, t).live {
      assert forall e :: e in Run(rules, s).live <==> e in Run(rules, t).live;
    }
  }

  lemma TipsAlike(rules: Rules, a: World, b: World)
    requires Alike(rules, a.db.pdus, b.db.pdus) && a.live == b.live && a.live <= a.db.pdus.Keys
             && b.live <= b.db.pdus.Keys
    ensures Tips(a) == Tips(b)
  {
    forall f | f in a.live ensures a.db.pdus[f].prevEvents == b.db.pdus[f].prevEvents {
      assert rules.Core(a.db.pdus[f]) == rules.Core(b.db.pdus[f]);
    }
  }

  /** An event that passed and that no event that passed cites. */
  ghost predicate PassedUncited(rules: Rules, steps: seq<Step>, e: EventId) {
    var pdus := Run(rules, steps).db.pdus;
    Passed(rules, steps, e) && forall f :: f in pdus && e in pdus[f].prevEvents ==> !Passed(rules, steps, f)
  }

  lemma TipIsPassedUncited(rules: Rules, steps: seq<Step>, e: EventId)
    ensures Run(rules, steps).live <= Run(rules, steps).db.pdus.Keys
    ensures e in Tips(Run(rules, steps)) <==> PassedUncited(rules, steps, e)
  {
    ExtremitiesOfRuns(rules, steps);
    forall f ensures f in Run(rules, steps).live <==> Passed(rules, steps, f) { LiveIsPassed(rules, steps, f); }
  }

  lemma WorldsConverge(rules: Rules, a: World, b: World)
    requires ReadsCores(rules) && Sound(rules, a) && Sound(rules, b) && Alike(rules, a.db.pdus, b.db.pdus)
    ensures Tips(a) == Tips(b) <==> a.db.extremities == b.db.extremities
    ensures Tips(a) == Tips(b) ==> CurrentState(rules, a.db) == CurrentState(rules, b.db)
  {
    if Tips(a) == Tips(b) {
      LexIsOrder();
      SortedUnique(LexLe, a.db.extremities, b.db.extremities);
      SameTipsSameState(rules, a, b);
    }
  }

  lemma SameTipsSameState(rules: Rules, a: World, b: World)
    requires ReadsCores(rules) && Sound(rules, a) && Sound(rules, b) && Alike(rules, a.db.pdus, b.db.pdus)
    requires a.db.extremities == b.db.extremities
    ensures CurrentState(rules, a.db) == CurrentState(rules, b.db)
  {
    StatesAgree(rules, a, b, |a.log|);
    assert a.log[..|a.log|] == a.log;
    TipsHaveStates(a);
    TipsHaveStates(b);
    forall e | e in a.db.extremities ensures a.db.stateAfter[e] == b.db.stateAfter[e] {
      assert e in Elems(a.log);
    }
    ResolveAgrees(rules, a.db, b.db, a.db.extremities);
  }

  /** What a member of the room sees of it. */
  ghost predicate RoomsAgree(rules: Rules, s: seq<Step>, t: seq<Step>) {
    && Run(rules, s).db.extremities == Run(rules, t).db.extremities
    && CurrentState(rules, Run(rules, s).db) == CurrentState(rules, Run(rules, t).db)
  }

  /**
   Two servers agree on the extremities and the current state of a room if and only if the same events,
   uncited by others that passed, passed on both against the state that was current on arrival. It does
   not matter in which order the events came, how they came (received, historic, local), which server
   holds which of them in full or erased, and what else either server holds.
   */
  lemma RoomsAgreeExactly(rules: Rules, s: seq<Step>, t: seq<Step>)
    requires ReadsCores(rules) && ReturnsChains(rules)
    requires IdBindsCore(rules) && IdsComputed(rules, s) && IdsComputed(rules, t)
    ensures RoomsAgree(rules, s, t) <==> forall e :: PassedUncited(rules, s, e) <==> PassedUncited(rules, t, e)
  {
    CoresAreChains(rules);
    RunsAreSound(rules, s);
    RunsAreSound(rules, t);
    RunsAlike(rules, s, t);
    var a, b := Run(rules, s), Run(rules, t);
    WorldsConverge(rules, a, b);
    forall e ensures e in Tips(a) <==> PassedUncited(rules, s, e) { TipIsPassedUncited(rules, s, e); }
    forall e ensures e in Tips(b) <==> PassedUncited(rules, t, e) { TipIsPassedUncited(rules, t, e); }
    assert Tips(a) == Tips(b) <==> forall e :: e in Tips(a) <==> e in Tips(b);
  }

  /** In particular they agree if the check answered alike for every event, and the current state is one. */
  lemma ServersConverge(rules: Rules, s: seq<Step>, t: seq<Step>)
    requires ReadsCores(rules) && ReturnsChains(rules)
    requires IdBindsCore(rules) && IdsComputed(rules, s) && IdsComputed(rules, t)
    requires AnsweredAlike(rules, s, t)
    ensures RoomsAgree(rules, s, t) && CurrentState(rules, Run(rules, s).db).Ok?
  {
    CoresAreChains(rules);
    RunsAreSound(rules, s);
    RunsAreSound(rules, t);
    RunsAlike(rules, s, t);
    AlikeIsSameLive(rules, s, t);
    TipsAlike(rules, Run(rules, s), Run(rules, t));
    WorldsConverge(rules, Run(rules, s), Run(rules, t));
  }

  /** Where every stored event passed on its way in, holding the same events is enough. */
  lemma StoresConverge(rules: Rules, s: seq<Step>, t: seq<Step>)
    requires ReadsCores(rules) && ReturnsChains(rules)
    requires IdBindsCore(rules) && IdsComputed(rules, s) && IdsComputed(rules, t)
    requires Run(rules, s).db.pdus.Keys == Run(rules, t).db.pdus.Keys
    requires forall e :: e in Run(rules, s).db.pdus ==> Passed(rules, s, e) && Passed(rules, t, e)
    ensures RoomsAgree(rules, s, t)
  {
    forall e ensures Passed(rules, s, e) <==> Passed(rules, t, e) {
      PassedIsStored(rules, s, e);
      PassedIsStored(rules, t, e);
    }
    ServersConverge(rules, s, t);
  }

  lemma PassedIsStored(rules: Rules, steps: seq<Step>, e: EventId)
    ensures Passed(rules, steps, e) ==> e in Run(rules, steps).db.pdus
  {
    ExtremitiesOfRuns(rules, steps);
    LiveIsPassed(rules, steps, e);
  }
}
