/** Erasing the content of stored events in place, between the steps of a run. */
module Erasure {
  import opened Common
  import opened MatrixEvents
  import opened AuthChain
  import opened Dag
  import opened DagRuns
  import opened Convergence

  datatype Deed = Take(step: Step) | Erase(id: EventId)

  /** `skeletonize`: the stored event becomes its erased form; edges, states and extremities stay. */
  function Erased(rules: Rules, w: World, id: EventId): (r: World) {
    if id in w.db.pdus then w.(db := w.db.(pdus := w.db.pdus[id := rules.Core(w.db.pdus[id])])) else w
  }

  function Perform(rules: Rules, deeds: seq<Deed>): (r: World) {
    if deeds == [] then Start
    else
      var w := Perform(rules, deeds[..|deeds| - 1]);
      match deeds[|deeds| - 1]
      case Take(s) => Apply(rules, w, s)
      case Erase(id) => Erased(rules, w, id)
  }

  /** Erasing twice is erasing once. */
  ghost predicate ErasesOnce(rules: Rules) {
    forall kind, content :: rules.keep(kind, rules.keep(kind, content)) == rules.keep(kind, content)
  }

  lemma ErasedAlike(rules: Rules, w: World, id: EventId)
    requires ErasesOnce(rules) && Grounded(w)
    ensures Alike(rules, w.db.pdus, Erased(rules, w, id).db.pdus) && Grounded(Erased(rules, w, id))
    ensures Cited(Erased(rules, w, id).db.pdus) == Cited(w.db.pdus)
  {
  }

  lemma ErasureKeepsResolution(rules: Rules, w: World, id: EventId, ids: seq<EventId>)
    requires ReadsCores(rules) && ErasesOnce(rules) && Grounded(w) && StatesStored(w.db)
    requires forall e :: e in ids ==> e in w.db.stateAfter
    ensures ResolveOver(rules, w.db, ids, None) == ResolveOver(rules, Erased(rules, w, id).db, ids, None)
  {
    ErasedAlike(rules, w, id);
    ResolveAgrees(rules, w.db, Erased(rules, w, id).db, ids);
  }

  lemma ErasureKeepsSolution(rules: Rules, w: World, id: EventId, e: EventId)
    requires ReadsCores(rules) && ErasesOnce(rules) && Sound(rules, w) && e in w.db.pdus
    ensures var db := Erased(rules, w, id).db;
            var before := ResolveOver(rules, db, db.pdus[e].prevEvents, None);
            before.Ok? && db.stateAfter[e] == After(db.pdus[e], before.value)
  {
    ForksNeedStates(w.db, w.db.pdus[e].prevEvents);
    ErasureKeepsResolution(rules, w, id, w.db.pdus[e].prevEvents);
  }

  lemma ErasureKeepsSolutions(rules: Rules, w: World, id: EventId)
    requires ReadsCores(rules) && ErasesOnce(rules) && Sound(rules, w)
    ensures Erased(rules, w, id).db.pdus.Keys == w.db.pdus.Keys && StatesSolve(rules, Erased(rules, w, id).db)
  {
    var db := Erased(rules, w, id).db;
    forall e | e in db.pdus
      ensures ResolveOver(rules, db, db.pdus[e].prevEvents, None).Ok?
      ensures db.stateAfter[e] == After(db.pdus[e], ResolveOver(rules, db, db.pdus[e].prevEvents, None).value)
    {
      ErasureKeepsSolution(rules, w, id, e);
    }
  }

  lemma ErasureKeepsExtremities(rules: Rules, w: World, id: EventId)
    requires ErasesOnce(rules) && Grounded(w) && ExtremitiesExact(w) && StatesStored(w.db)
    ensures var w' := Erased(rules, w, id);
            Grounded(w') && ExtremitiesExact(w') && StatesStored(w'.db)
  {
    ErasedAlike(rules, w, id);
    TipsAlike(rules, w, Erased(rules, w, id));
  }

  /** Of the erased event nothing is left but what redaction keeps of its content; every other field of it, and
      every other event, is as before. */
  lemma ErasesExactly(rules: Rules, w: World, id: EventId)
    ensures var w' := Erased(rules, w, id);
            && w'.db.pdus.Keys == w.db.pdus.Keys
            && (forall x :: x in w.db.pdus && x != id ==> w'.db.pdus[x] == w.db.pdus[x])
            && (id in w.db.pdus ==>
                  var p, p' := w.db.pdus[id], w'.db.pdus[id];
                  && p'.content == rules.keep(p.kind, p.content)
                  && (p'.eventId, p'.roomId, p'.sender, p'.ts, p'.kind, p'.stateKey)
                     == (p.eventId, p.roomId, p.sender, p.ts, p.kind, p.stateKey)
                  && (p'.prevEvents, p'.authEvents, p'.depth) == (p.prevEvents, p.authEvents, p.depth))
            && (id !in w.db.pdus ==> w' == w)
  {
  }

  /** Erasing an event changes no state, no extremity and not the current state, and the room stays sound. */
  lemma ErasureKeepsRoom(rules: Rules, w: World, id: EventId)
    requires ReadsCores(rules) && ErasesOnce(rules) && Sound(rules, w)
    ensures var w' := Erased(rules, w, id);
            && Sound(rules, w') && (w'.log, w'.live) == (w.log, w.live)
            && w'.db.stateAfter == w.db.stateAfter && w'.db.extremities == w.db.extremities
            && CurrentState(rules, w'.db) == CurrentState(rules, w.db)
  {
    ErasureKeepsExtremities(rules, w, id);
    TipsHaveStates(w);
    ErasureKeepsResolution(rules, w, id, w.db.extremities);
    ErasureKeepsSolutions(rules, w, id);
  }

  /** After every run with erasures in between, the states still solve the state equations, the extremities
      are exact and the current state resolves. */
  lemma {:induction false} ErasingRunsAreSound(rules: Rules, deeds: seq<Deed>)
    requires ReadsCores(rules) && ReturnsChains(rules) && ErasesOnce(rules)
    ensures Sound(rules, Perform(rules, deeds))
    decreases |deeds|
  {
    CoresAreChains(rules);
    if deeds == [] {
      RunsAreSound(rules, []);
    } else {
      var w := Perform(rules, deeds[..|deeds| - 1]);
      ErasingRunsAreSound(rules, deeds[..|deeds| - 1]);
      match deeds[|deeds| - 1]
      case Take(s) => StepKeepsSound(rules, w, s);
      case Erase(id) => ErasureKeepsRoom(rules, w, id);
    }
  }
}
