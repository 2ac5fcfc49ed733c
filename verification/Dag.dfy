/**
 Acceptance of one event into a room's event DAG ("Checks performed on receipt of a PDU" and "Soft
 failure" in the Matrix Server-Server API). The functions say what is decided; the methods below
 them are the source's loops, proved to decide the same.
 */
module Dag {
  import opened Common
  import opened Sorting
  import opened MatrixEvents
  import opened AuthChain

  /** What the DAG reads from storage. */
  datatype Store = Store(pdus: map<EventId, Pdu>, stateAfter: map<EventId, StateMap>, extremities: seq<EventId>)

  const EmptyStore := Store(map[], map[], [])

  datatype Accepted = Accepted(
    eventId: EventId,
    pdu: Pdu,
    stateAfter: StateMap,
    softFailed: bool,
    extremities: seq<EventId>,
    currentState: StateMap,
    forked: bool)

  datatype Historic = Historic(eventId: EventId, pdu: Pdu, stateAfter: StateMap)

  // ----- Specification functions -----

  /** The states after `ids`, in order; `extra` supplies the state of an event not written yet. */
  function Forks(db: Store, ids: seq<EventId>, extra: Option<(EventId, StateMap)>): (r: Result<seq<StateMap>, Reject>)
  {
    if ids == [] then Ok([])
    else
      var id := ids[|ids| - 1];
      var forks :- Forks(db, ids[..|ids| - 1], extra);
      if extra.Some? && extra.value.0 == id then Ok(forks + [extra.value.1])
      else if id in db.stateAfter then Ok(forks + [db.stateAfter[id]])
      else Err(MissingPrev(id))
  }

  function Chains(pdus: map<EventId, Pdu>, forks: seq<StateMap>): (r: seq<set<EventId>>) {
    seq(|forks|, i requires 0 <= i < |forks| => Chain(pdus, forks[i].Values))
  }

  function ResolveStates(rules: Rules, pdus: map<EventId, Pdu>, forks: seq<StateMap>): (r: Option<StateMap>) {
    rules.resolve(forks, Chains(pdus, forks), pdus)
  }

  function Merge(rules: Rules, pdus: map<EventId, Pdu>, forks: seq<StateMap>): (r: Result<StateMap, Reject>) {
    if |forks| == 0 then Ok(map[])
    else if |forks| == 1 then Ok(forks[0])
    else match ResolveStates(rules, pdus, forks)
         case Some(s) => Ok(s)
         case None => Err(ResolveFailed)
  }

  /** Resolved room state over the states after `ids`. */
  function ResolveOver(rules: Rules, db: Store, ids: seq<EventId>,
                       extra: Option<(EventId, StateMap)>): (r: Result<StateMap, Reject>)
  {
    var forks :- Forks(db, ids, extra);
    Merge(rules, db.pdus, forks)
  }

  function CurrentState(rules: Rules, db: Store): (r: Result<StateMap, Reject>) {
    ResolveOver(rules, db, db.extremities, None)
  }

  function FirstMissing(pdus: map<EventId, Pdu>, ids: seq<EventId>): (r: Option<EventId>)
    ensures r.None? <==> forall a :: a in ids ==> a in pdus
  {
    if ids == [] then None
    else if ids[0] !in pdus then Some(ids[0])
    else
      assert ids == [ids[0]] + ids[1..];
      FirstMissing(pdus, ids[1..])
  }

  /** The state named by an event's own auth events; a later entry replaces an earlier one. */
  function AuthState(pdus: map<EventId, Pdu>, auth: seq<EventId>): (r: map<StateKey, Pdu>)
    requires forall a :: a in auth ==> a in pdus
  {
    if auth == [] then map[]
    else
      var p := pdus[auth[|auth| - 1]];
      var rest := AuthState(pdus, auth[..|auth| - 1]);
      if p.IsState() then rest[p.Key() := p] else rest
  }

  /** A state map with the ids replaced by the stored events (ids not stored are dropped). */
  function StatePdus(pdus: map<EventId, Pdu>, state: StateMap): (r: map<StateKey, Pdu>) {
    map k | k in state && state[k] in pdus :: pdus[state[k]]
  }

  function After(pdu: Pdu, before: StateMap): (r: StateMap) {
    if pdu.IsState() then before[pdu.Key() := pdu.eventId] else before
  }

  /** What `accept` and `accept_historic` share: the event is well formed, holds up against its own
      auth events and against the state before it. Gives the event and the state after it. */
  function Admit(rules: Rules, db: Store, id: EventId, w: Wire,
                 stateBefore: Option<StateMap>): (r: Result<(Pdu, StateMap), Reject>)
    ensures r.Ok? ==> r.value.0.eventId == id
  {
    var pdu :- FromWire(rules, id, w);
    match FirstMissing(db.pdus, pdu.authEvents)
    case Some(a) => Err(MissingAuth(a))
    case None =>
      if !rules.independent(pdu, db.pdus[id := pdu]) then Err(AuthRefused)
      else if !rules.dependent(pdu, AuthState(db.pdus, pdu.authEvents)) then Err(AuthRefused)
      else
        var before :- if stateBefore.Some? then Ok(stateBefore.value) else ResolveOver(rules, db, pdu.prevEvents, None);
        if !rules.dependent(pdu, StatePdus(db.pdus, before)) then Err(AuthRefused)
        else Ok((pdu, After(pdu, before)))
  }

  function Advance(ext: seq<EventId>, pdu: Pdu): (r: seq<EventId>) {
    Sort(LexLe, Without(ext, pdu.prevEvents) + [pdu.eventId])
  }

  function Without(ext: seq<EventId>, gone: seq<EventId>): (r: seq<EventId>)
    ensures forall e :: e in r <==> e in ext && e !in gone
    ensures NoDup(ext) ==> NoDup(r)
  {
    if ext == [] then []
    else
      var n := |ext| - 1;
      assert ext == ext[..n] + [ext[n]];
      var rest := Without(ext[..n], gone);
      if ext[n] in gone then rest else rest + [ext[n]]
  }

  function Acceptance(rules: Rules, db: Store, id: EventId, w: Wire,
                      stateBefore: Option<StateMap>): (r: Result<Accepted, Reject>)
  {
    if id in db.pdus then Err(Duplicate)
    else
      var (pdu, after) :- Admit(rules, db, id, w, stateBefore);
      var current :- CurrentState(rules, db);
      Place(rules, db, pdu, after, current)
  }

  /** The check against the current state, which only soft-fails, and the move of the extremities. */
  function Place(rules: Rules, db: Store, pdu: Pdu, after: StateMap, current: StateMap): (r: Result<Accepted, Reject>)
    ensures r.Ok? ==> r.value.eventId == pdu.eventId && r.value.pdu == pdu && r.value.stateAfter == after
  {
    if db.extremities != [] && !rules.dependent(pdu, StatePdus(db.pdus, current)) then
      Ok(Accepted(pdu.eventId, pdu, after, true, db.extremities, current, false))
    else
      var ext := Advance(db.extremities, pdu);
      var now :- ResolveOver(rules, WithNew(db, pdu), ext, Some((pdu.eventId, after)));
      Ok(Accepted(pdu.eventId, pdu, after, false, ext, now, |ext| > 1))
  }

  /** The store plus an event that is not written yet. */
  function WithNew(db: Store, pdu: Pdu): (r: Store) {
    db.(pdus := db.pdus[pdu.eventId := pdu])
  }

  function HistoricAcceptance(rules: Rules, db: Store, id: EventId, w: Wire): (r: Result<Historic, Reject>) {
    var (pdu, after) :- Admit(rules, db, id, w, None);
    Ok(Historic(id, pdu, after))
  }

  function MaxDepth(pdus: map<EventId, Pdu>, ids: seq<EventId>): (r: nat)
    ensures forall e :: e in ids && e in pdus ==> pdus[e].depth <= r
  {
    if ids == [] then 0
    else
      assert ids == [ids[0]] + ids[1..];
      var rest := MaxDepth(pdus, ids[1..]);
      if ids[0] in pdus && pdus[ids[0]].depth > rest then pdus[ids[0]].depth else rest
  }

  /** What a client asks to be sent as an event. */
  datatype Draft = Draft(roomId: string, ts: nat, sender: string, kind: string, stateKey: Option<string>,
                         content: string)

  function DraftWire(d: Draft, prev: seq<EventId>, auth: seq<EventId>, depth: nat): (w: Wire) {
    Wire(Some(d.roomId), Some(d.sender), Some(d.kind), Some(d.content), Some(d.ts), d.stateKey, prev, auth, Some(depth),
         "")
  }

  function Template(rules: Rules, db: Store, d: Draft): (r: Result<Wire, Reject>) {
    if !rules.validUser(d.sender) then Err(Malformed)
    else
      var current :- CurrentState(rules, db);
      match rules.authTypes(d.kind, d.sender, d.stateKey, d.content)
      case None => Err(AuthRefused)
      case Some(keys) =>
        Ok(DraftWire(d, db.extremities, Select(keys, current), MaxDepth(db.pdus, db.extremities) + 1))
  }

  function LocalEvent(rules: Rules, db: Store, d: Draft): (r: Result<Accepted, Reject>) {
    var w :- Template(rules, db, d);
    var (id, signed) :- SignTemplate(rules, w);
    Acceptance(rules, db, id, signed, None)
  }

  // ----- What a store writes -----

  function Write(db: Store, a: Accepted): (r: Store) {
    Store(db.pdus[a.eventId := a.pdu], db.stateAfter[a.eventId := a.stateAfter], a.extremities)
  }

  function WriteHistoric(db: Store, h: Historic): (r: Store) {
    db.(pdus := db.pdus[h.eventId := h.pdu], stateAfter := db.stateAfter[h.eventId := h.stateAfter])
  }

  // ----- The source's loops -----

  method ListOf(ids: set<EventId>) returns (r: seq<EventId>)
    ensures Elems(r) == ids
  {
    var left := ids;
    r := [];
    while left != {}
      invariant left <= ids && Elems(r) == ids - left
      decreases left
    {
      var x :| x in left;
      assert Elems(r + [x]) == Elems(r) + {x};
      r := r + [x];
      left := left - {x};
    }
  }

  method ResolveOverLoop(rules: Rules, db: Store, ids: seq<EventId>, extra: Option<(EventId, StateMap)>)
    returns (r: Result<StateMap, Reject>)
    ensures r == ResolveOver(rules, db, ids, extra)
  {
    var forks: seq<StateMap> := [];
    for i := 0 to |ids|
      invariant Forks(db, ids[..i], extra) == Ok(forks)
    {
      var id := ids[i];
      assert ids[..i + 1][..i] == ids[..i];
      if extra.Some? && extra.value.0 == id {
        forks := forks + [extra.value.1];
      } else if id in db.stateAfter {
        forks := forks + [db.stateAfter[id]];
      } else {
        ForksFailEarly(db, ids, i + 1, extra);
        return Err(MissingPrev(id));
      }
    }
    assert ids[..|ids|] == ids;
    if |forks| == 0 { return Ok(map[]); }
    if |forks| == 1 { return Ok(forks[0]); }
    var chains: seq<set<EventId>> := [];
    for i := 0 to |forks|
      invariant chains == Chains(db.pdus, forks)[..i]
    {
      var values := ListOf(forks[i].Values);
      var chain := AuthChainWith(db.pdus, values);
      chains := chains + [chain];
    }
    assert chains == Chains(db.pdus, forks);
    match rules.resolve(forks, chains, db.pdus)
    case Some(s) => return Ok(s);
    case None => return Err(ResolveFailed);
  }

  lemma {:induction false} ForksFailEarly(db: Store, ids: seq<EventId>, n: nat, extra: Option<(EventId, StateMap)>)
    requires n <= |ids| && Forks(db, ids[..n], extra).Err?
    ensures Forks(db, ids, extra) == Forks(db, ids[..n], extra)
    decreases |ids|
  {
    if n == |ids| {
      assert ids[..n] == ids;
    } else {
      assert ids[..|ids| - 1][..n] == ids[..n];
      ForksFailEarly(db, ids[..|ids| - 1], n, extra);
    }
  }

  method AuthStateLoop(pdus: map<EventId, Pdu>, auth: seq<EventId>) returns (state: map<StateKey, Pdu>)
    requires forall a :: a in auth ==> a in pdus
    ensures state == AuthState(pdus, auth)
  {
    state := map[];
    for i := 0 to |auth|
      invariant state == AuthState(pdus, auth[..i])
    {
      assert auth[..i + 1][..i] == auth[..i];
      var p := pdus[auth[i]];
      if p.IsState() {
        state := state[p.Key() := p];
      }
    }
    assert auth[..|auth|] == auth;
  }

  method AdmitLoop(rules: Rules, db: Store, id: EventId, w: Wire, stateBefore: Option<StateMap>)
    returns (r: Result<(Pdu, StateMap), Reject>)
    ensures r == Admit(rules, db, id, w, stateBefore)
  {
    var parsed := FromWire(rules, id, w);
    if parsed.Err? { return Err(parsed.error); }
    var pdu := parsed.value;
    for i := 0 to |pdu.authEvents|
      invariant forall a :: a in pdu.authEvents[..i] ==> a in db.pdus
      invariant FirstMissing(db.pdus, pdu.authEvents) == FirstMissing(db.pdus, pdu.authEvents[i..])
    {
      if pdu.authEvents[i] !in db.pdus {
        return Err(MissingAuth(pdu.authEvents[i]));
      }
    }
    assert pdu.authEvents[..|pdu.authEvents|] == pdu.authEvents;
    if !rules.independent(pdu, db.pdus[id := pdu]) { return Err(AuthRefused); }
    var named := AuthStateLoop(db.pdus, pdu.authEvents);
    if !rules.dependent(pdu, named) { return Err(AuthRefused); }
    var before;
    if stateBefore.Some? {
      before := stateBefore.value;
    } else {
      var resolved := ResolveOverLoop(rules, db, pdu.prevEvents, None);
      if resolved.Err? { return Err(resolved.error); }
      before := resolved.value;
    }
    if !rules.dependent(pdu, StatePdus(db.pdus, before)) { return Err(AuthRefused); }
    return Ok((pdu, After(pdu, before)));
  }

  /** `accept`. */
  method Accept(rules: Rules, db: Store, id: EventId, w: Wire, stateBefore: Option<StateMap>)
    returns (r: Result<Accepted, Reject>)
    ensures r == Acceptance(rules, db, id, w, stateBefore)
  {
    if id in db.pdus { return Err(Duplicate); }
    var admitted := AdmitLoop(rules, db, id, w, stateBefore);
    if admitted.Err? { return Err(admitted.error); }
    var (pdu, after) := admitted.value;
    var current := ResolveOverLoop(rules, db, db.extremities, None);
    if current.Err? { return Err(current.error); }
    r := PlaceLoop(rules, db, pdu, after, current.value);
  }

  method AdvanceLoop(extremities: seq<EventId>, pdu: Pdu) returns (ext: seq<EventId>)
    ensures ext == Advance(extremities, pdu)
  {
    ext := [];
    for i := 0 to |extremities|
      invariant ext == Without(extremities[..i], pdu.prevEvents)
    {
      assert extremities[..i + 1][..i] == extremities[..i];
      if extremities[i] !in pdu.prevEvents {
        ext := ext + [extremities[i]];
      }
    }
    assert extremities[..|extremities|] == extremities;
    ext := Sort(LexLe, ext + [pdu.eventId]);
  }

  method PlaceLoop(rules: Rules, db: Store, pdu: Pdu, after: StateMap, current: StateMap)
    returns (r: Result<Accepted, Reject>)
    ensures r == Place(rules, db, pdu, after, current)
  {
    if db.extremities != [] && !rules.dependent(pdu, StatePdus(db.pdus, current)) {
      return Ok(Accepted(pdu.eventId, pdu, after, true, db.extremities, current, false));
    }
    var ext := AdvanceLoop(db.extremities, pdu);
    var now := ResolveOverLoop(rules, WithNew(db, pdu), ext, Some((pdu.eventId, after)));
    if now.Err? { return Err(now.error); }
    return Ok(Accepted(pdu.eventId, pdu, after, false, ext, now.value, |ext| > 1));
  }

  /** `accept_historic`. */
  method AcceptHistoric(rules: Rules, db: Store, id: EventId, w: Wire) returns (r: Result<Historic, Reject>)
    ensures r == HistoricAcceptance(rules, db, id, w)
  {
    var admitted := AdmitLoop(rules, db, id, w, None);
    if admitted.Err? { return Err(admitted.error); }
    return Ok(Historic(id, admitted.value.0, admitted.value.1));
  }

  // ----- Single-step theorems -----

  /** Looking up the new event through `extra` is the same as looking it up after the write. */
  lemma {:induction false} ForksAfterWrite(db: Store, a: Accepted, ids: seq<EventId>)
    ensures Forks(WithNew(db, a.pdu), ids, Some((a.eventId, a.stateAfter))) == Forks(Write(db, a), ids, None)
    decreases |ids|
  {
    if ids != [] {
      ForksAfterWrite(db, a, ids[..|ids| - 1]);
    }
  }

  lemma PlaceReportsState(rules: Rules, db: Store, pdu: Pdu, after: StateMap, current: StateMap)
    requires Place(rules, db, pdu, after, current).Ok?
    requires !Place(rules, db, pdu, after, current).value.softFailed
    ensures var a := Place(rules, db, pdu, after, current).value;
            CurrentState(rules, Write(db, a)) == Ok(a.currentState)
  {
    var a := Place(rules, db, pdu, after, current).value;
    ForksAfterWrite(db, a, a.extremities);
  }

  /** An accepted event was admitted and then placed. */
  lemma AcceptanceSteps(rules: Rules, db: Store, id: EventId, w: Wire, stateBefore: Option<StateMap>)
    returns (current: StateMap)
    requires Acceptance(rules, db, id, w, stateBefore).Ok?
    ensures var a := Acceptance(rules, db, id, w, stateBefore).value;
            && id !in db.pdus && a.eventId == id && a.pdu.eventId == id
            && Admit(rules, db, id, w, stateBefore) == Ok((a.pdu, a.stateAfter))
            && CurrentState(rules, db) == Ok(current)
            && Place(rules, db, a.pdu, a.stateAfter, current) == Ok(a)
  {
    current := CurrentState(rules, db).value;
  }

  /** For an event that is not soft-failed, the current state reported at acceptance is the one a
      reader recomputes from the store after the write. */
  lemma CurrentStateAfterWrite(rules: Rules, db: Store, id: EventId, w: Wire, stateBefore: Option<StateMap>)
    requires Acceptance(rules, db, id, w, stateBefore).Ok?
    requires !Acceptance(rules, db, id, w, stateBefore).value.softFailed
    ensures var a := Acceptance(rules, db, id, w, stateBefore).value;
            CurrentState(rules, Write(db, a)) == Ok(a.currentState)
  {
    var a := Acceptance(rules, db, id, w, stateBefore).value;
    var current := AcceptanceSteps(rules, db, id, w, stateBefore);
    PlaceReportsState(rules, db, a.pdu, a.stateAfter, current);
  }

  /** `forked` is documented as "more than one extremity". It says so exactly when no branches were open
      before, or the event passes against the current state. */
  lemma ForkedExact(rules: Rules, db: Store, id: EventId, w: Wire, stateBefore: Option<StateMap>)
    requires Acceptance(rules, db, id, w, stateBefore).Ok?
    ensures var a := Acceptance(rules, db, id, w, stateBefore).value;
            FromWire(rules, id, w).Ok? && CurrentState(rules, db).Ok?
            && ((a.forked <==> |a.extremities| > 1)
                <==> || |db.extremities| <= 1
                     || rules.dependent(FromWire(rules, id, w).value,
                                        StatePdus(db.pdus, CurrentState(rules, db).value)))
  {
    var _ := AcceptanceSteps(rules, db, id, w, stateBefore);
  }

  /** A soft-failed event moves nothing. */
  lemma SoftFailureLeaves(rules: Rules, db: Store, id: EventId, w: Wire, stateBefore: Option<StateMap>)
    requires Acceptance(rules, db, id, w, stateBefore).Ok? && Acceptance(rules, db, id, w, stateBefore).value.softFailed
    ensures var a := Acceptance(rules, db, id, w, stateBefore).value;
            a.extremities == db.extremities && !a.forked && CurrentState(rules, db) == Ok(a.currentState)
  {
    var _ := AcceptanceSteps(rules, db, id, w, stateBefore);
  }

  lemma {:induction false} WithoutItself(ext: seq<EventId>, gone: seq<EventId>)
    requires forall e :: e in ext ==> e in gone
    ensures Without(ext, gone) == []
  {
    if ext != [] {
      WithoutItself(ext[..|ext| - 1], gone);
    }
  }

  /** An event that cites every extremity and passes against the current state replaces them all. */
  lemma PlaceClosesForks(rules: Rules, db: Store, pdu: Pdu, after: StateMap, current: StateMap)
    requires pdu.prevEvents == db.extremities
    requires rules.dependent(pdu, StatePdus(db.pdus, current))
    ensures Place(rules, db, pdu, after, current)
            == Ok(Accepted(pdu.eventId, pdu, after, false, [pdu.eventId], after, false))
  {
    WithoutItself(db.extremities, pdu.prevEvents);
    var id := pdu.eventId;
    assert Advance(db.extremities, pdu) == [id] by {
      assert Without(db.extremities, pdu.prevEvents) + [id] == [id];
      SortSingleton(LexLe, id);
    }
    ForksOfNew(WithNew(db, pdu), id, after);
  }

  lemma ForksOfNew(db: Store, id: EventId, after: StateMap)
    ensures Forks(db, [id], Some((id, after))) == Ok([after])
  {
    assert [id][..0] == [];
    assert Forks(db, [], Some((id, after))) == Ok([]);
    assert [] + [after] == [after];
  }

  /**
   A local event that is accepted is never soft-failed and closes every fork, whatever the branches
   were: it becomes the only extremity, and the room's state is the state after it.
   */
  lemma LocalEventClosesForks(rules: Rules, db: Store, d: Draft)
    requires LocalEvent(rules, db, d).Ok?
    ensures var a := LocalEvent(rules, db, d).value;
            && !a.softFailed && !a.forked
            && a.extremities == [a.eventId]
            && a.pdu.prevEvents == db.extremities
            && (forall e :: e in db.extremities && e in db.pdus ==> db.pdus[e].depth < a.pdu.depth)
            && CurrentState(rules, db).Ok?
            && a.stateAfter == After(a.pdu, CurrentState(rules, db).value)
            && a.currentState == a.stateAfter
            && CurrentState(rules, Write(db, a)) == Ok(a.stateAfter)
  {
    var w := Template(rules, db, d).value;
    var (id, signed) := SignTemplate(rules, w).value;
    var a := Acceptance(rules, db, id, signed, None).value;
    var current := AcceptanceSteps(rules, db, id, signed, None);
    PlaceClosesForks(rules, db, a.pdu, a.stateAfter, current);
    PlaceReportsState(rules, db, a.pdu, a.stateAfter, current);
  }
}
