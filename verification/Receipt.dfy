/**
 What acceptance means, said without the functions that compute it: which event a wire form carries,
 what the resolver is handed, what an accepted event had to pass and where it is placed, why one is
 refused, and that a local event is the one asked for.
 */
module Receipt {
  import opened Common
  import opened Sorting
  import opened MatrixEvents
  import opened AuthChain
  import opened Dag

  // ----- Reading an event -----

  /** `p` is the event that `w` carries: every field is there and well formed; no depth counts as zero. */
  ghost predicate Carries(rules: Rules, id: EventId, w: Wire, p: Pdu) {
    && p.eventId == id
    && w.roomId == Some(p.roomId) && rules.validRoom(p.roomId)
    && w.sender == Some(p.sender) && rules.validUser(p.sender)
    && (w.kind, w.content, w.ts) == (Some(p.kind), Some(p.content), Some(p.ts))
    && (w.stateKey, w.prevEvents, w.authEvents) == (p.stateKey, p.prevEvents, p.authEvents)
    && (forall e :: e in p.prevEvents || e in p.authEvents ==> rules.validEvent(e))
    && (w.depth == Some(p.depth) || (w.depth.None? && p.depth == 0))
  }

  lemma ReadsExactly(rules: Rules, id: EventId, w: Wire, p: Pdu)
    ensures FromWire(rules, id, w) == Ok(p) <==> Carries(rules, id, w, p)
    ensures FromWire(rules, id, w).Err? ==> FromWire(rules, id, w) == Err(Malformed)
  {
  }

  /** The id of a wire form: its reference hash behind a dollar sign, if that is well formed. */
  predicate HasId(rules: Rules, w: Wire, id: EventId) {
    rules.hash(w).Some? && id == "$" + rules.hash(w).value && rules.validEvent(id)
  }

  lemma IdsExactly(rules: Rules, w: Wire, id: EventId)
    ensures rules.IdOf(w) == Some(id) <==> HasId(rules, w, id)
  {
  }

  // ----- What the resolver is handed -----

  /** The state after `id`; `extra` has that of an event not written yet. */
  function StateOf(db: Store, extra: Option<(EventId, StateMap)>, id: EventId): (r: Option<StateMap>) {
    if extra.Some? && extra.value.0 == id then Some(extra.value.1) else Get(db.stateAfter, id)
  }

  ghost predicate AreStates(db: Store, extra: Option<(EventId, StateMap)>, ids: seq<EventId>, states: seq<StateMap>) {
    |states| == |ids| && forall i :: 0 <= i < |ids| ==> StateOf(db, extra, ids[i]) == Some(states[i])
  }

  /** Each state's full auth chain. */
  ghost predicate AreChains(pdus: map<EventId, Pdu>, states: seq<StateMap>, chains: seq<set<EventId>>) {
    |chains| == |states| && forall i :: 0 <= i < |states| ==> IsChain(pdus, states[i].Values, chains[i])
  }

  ghost predicate IsAnswer(answer: Option<StateMap>, r: Result<StateMap, Reject>) {
    if answer.Some? then r == Ok(answer.value) else r == Err(ResolveFailed)
  }

  /** No state is the empty one, one state is itself, and several are what the resolver makes of them and
      their auth chains. */
  ghost predicate ResolvesTo(rules: Rules, pdus: map<EventId, Pdu>, states: seq<StateMap>,
                             r: Result<StateMap, Reject>) {
    && (|states| == 0 ==> r == Ok(map[]))
    && (|states| == 1 ==> r == Ok(states[0]))
    && (|states| >= 2 ==>
          exists chains :: AreChains(pdus, states, chains) && IsAnswer(rules.resolve(states, chains, pdus), r))
  }

  lemma {:induction false} ForksAreStates(db: Store, ids: seq<EventId>, extra: Option<(EventId, StateMap)>,
                                          states: seq<StateMap>)
    requires AreStates(db, extra, ids, states)
    ensures Forks(db, ids, extra) == Ok(states)
    decreases |ids|
  {
    if ids != [] {
      var n := |ids| - 1;
      ForksAreStates(db, ids[..n], extra, states[..n]);
      assert StateOf(db, extra, ids[n]) == Some(states[n]);
      assert states == states[..n] + [states[n]];
    } else {
      assert states == [];
    }
  }

  /**
   Resolution over any ids that all have a state, with or without an event not written yet: with two or
   more of them the resolver is handed exactly these states, the least closed auth chain of each, and the
   stored events.
   */
  lemma ResolutionExactly(rules: Rules, db: Store, ids: seq<EventId>, extra: Option<(EventId, StateMap)>,
                          states: seq<StateMap>)
    requires AreStates(db, extra, ids, states)
    ensures ResolvesTo(rules, db.pdus, states, ResolveOver(rules, db, ids, extra))
  {
    ForksAreStates(db, ids, extra, states);
    assert AreChains(db.pdus, states, Chains(db.pdus, states));
    assert IsAnswer(rules.resolve(states, Chains(db.pdus, states), db.pdus), Merge(rules, db.pdus, states))
           || |states| < 2;
  }

  /** Where some id has no state, the first such is named. */
  lemma ResolutionMisses(rules: Rules, db: Store, ids: seq<EventId>, extra: Option<(EventId, StateMap)>, i: nat)
    requires i < |ids| && StateOf(db, extra, ids[i]).None?
    requires forall j :: 0 <= j < i ==> StateOf(db, extra, ids[j]).Some?
    ensures ResolveOver(rules, db, ids, extra) == Err(MissingPrev(ids[i]))
  {
    var states := seq(i, j requires 0 <= j < i => StateOf(db, extra, ids[j]).value);
    assert ids[..i + 1][..i] == ids[..i];
    ForksAreStates(db, ids[..i], extra, states);
    ForksFailEarly(db, ids, i + 1, extra);
  }

  // ----- What an event is checked against -----

  predicate NamedAt(pdus: map<EventId, Pdu>, auth: seq<EventId>, i: int, k: StateKey) {
    && 0 <= i < |auth| && auth[i] in pdus
    && pdus[auth[i]].stateKey == Some(k.key) && pdus[auth[i]].kind == k.kind
  }

  /** The state that `auth` names has, at each key, the last event of that key among them... */
  lemma {:induction false} NamedState(pdus: map<EventId, Pdu>, auth: seq<EventId>, i: nat, k: StateKey)
    requires (forall a :: a in auth ==> a in pdus) && NamedAt(pdus, auth, i, k)
    requires forall j :: i < j < |auth| ==> !NamedAt(pdus, auth, j, k)
    ensures Get(AuthState(pdus, auth), k) == Some(pdus[auth[i]])
    decreases |auth|
  {
    var n := |auth| - 1;
    if i < n {
      var before := auth[..n];
      forall j | i < j < n ensures !NamedAt(pdus, before, j, k) { assert !NamedAt(pdus, auth, j, k); }
      NamedState(pdus, before, i, k);
      assert !NamedAt(pdus, auth, n, k);
    }
  }

  /** ...and no others. */
  lemma {:induction false} NotNamedState(pdus: map<EventId, Pdu>, auth: seq<EventId>, k: StateKey)
    requires (forall a :: a in auth ==> a in pdus) && forall j :: 0 <= j < |auth| ==> !NamedAt(pdus, auth, j, k)
    ensures k !in AuthState(pdus, auth)
    decreases |auth|
  {
    if auth != [] {
      var n := |auth| - 1;
      var before := auth[..n];
      forall j | 0 <= j < n ensures !NamedAt(pdus, before, j, k) { assert !NamedAt(pdus, auth, j, k); }
      NotNamedState(pdus, before, k);
      assert !NamedAt(pdus, auth, n, k);
    }
  }

  /** A state shows the stored event of each of its entries. */
  lemma StateShows(pdus: map<EventId, Pdu>, state: StateMap, k: StateKey)
    ensures Get(StatePdus(pdus, state), k) == if k in state && state[k] in pdus then Some(pdus[state[k]]) else None
  {
  }

  /** `after` is `before` with the event's own entry, if it is a state event. */
  ghost predicate Follows(before: StateMap, p: Pdu, after: StateMap) {
    forall k: StateKey :: Get(after, k)
      == if p.stateKey == Some(k.key) && p.kind == k.kind then Some(p.eventId) else Get(before, k)
  }

  // ----- Accepting an event -----

  /** The state before an event: given, or resolved over its previous events. */
  function Before(rules: Rules, db: Store, p: Pdu, given: Option<StateMap>): (r: Result<StateMap, Reject>) {
    if given.Some? then Ok(given.value) else ResolveOver(rules, db, p.prevEvents, None)
  }

  predicate HasAuth(db: Store, p: Pdu) {
    forall a :: a in p.authEvents ==> a in db.pdus
  }

  /** The rules let an event through on the strength of its own auth events. */
  predicate OwnAuthHolds(rules: Rules, db: Store, p: Pdu)
    requires HasAuth(db, p)
  {
    rules.independent(p, db.pdus[p.eventId := p]) && rules.dependent(p, AuthState(db.pdus, p.authEvents))
  }

  predicate Passes(rules: Rules, db: Store, p: Pdu, state: StateMap) {
    rules.dependent(p, StatePdus(db.pdus, state))
  }

  /** The event holds against its own auth events and against the state before it. */
  predicate Stands(rules: Rules, db: Store, p: Pdu, before: StateMap) {
    HasAuth(db, p) && OwnAuthHolds(rules, db, p) && Passes(rules, db, p, before)
  }

  predicate FirstAbsent(db: Store, p: Pdu, i: nat) {
    && i < |p.authEvents| && p.authEvents[i] !in db.pdus
    && (forall j :: 0 <= j < i ==> p.authEvents[j] in db.pdus)
  }

  /** The first check the event fails, in the order of the Server-Server API: an auth event that is not
      held, the event's own auth events, the state before it. */
  ghost predicate Fails(rules: Rules, db: Store, p: Pdu, given: Option<StateMap>, e: Reject) {
    if !HasAuth(db, p) then exists i: nat :: FirstAbsent(db, p, i) && e == MissingAuth(p.authEvents[i])
    else if !OwnAuthHolds(rules, db, p) then e == AuthRefused
    else
      var before := Before(rules, db, p, given);
      (before.Err? && e == before.error) || (before.Ok? && !Passes(rules, db, p, before.value) && e == AuthRefused)
  }

  /** Where an event stands, it is admitted with its own fields and the state before it plus its own entry;
      where it does not, the first check it fails is named. */
  lemma AdmitsExactly(rules: Rules, db: Store, id: EventId, w: Wire, given: Option<StateMap>, p: Pdu)
    requires Carries(rules, id, w, p)
    ensures var r, before := Admit(rules, db, id, w, given), Before(rules, db, p, given);
            && (r.Ok? <==> before.Ok? && Stands(rules, db, p, before.value))
            && (r.Ok? ==> r.value.0 == p && Follows(before.value, p, r.value.1))
            && (forall e :: r == Err(e) <==> Fails(rules, db, p, given, e))
  {
    ReadsExactly(rules, id, w, p);
    if !HasAuth(db, p) {
      var i := AbsentFirst(db, p);
      MissingFirst(db.pdus, p.authEvents, i);
      forall e | Fails(rules, db, p, given, e) ensures e == MissingAuth(p.authEvents[i]) {
        var j: nat :| FirstAbsent(db, p, j) && e == MissingAuth(p.authEvents[j]);
        assert !(i < j) && !(j < i);
      }
    }
  }

  lemma AbsentFirst(db: Store, p: Pdu) returns (i: nat)
    requires !HasAuth(db, p)
    ensures FirstAbsent(db, p, i)
  {
    i := 0;
    while p.authEvents[i] in db.pdus
      invariant i < |p.authEvents| && forall j :: 0 <= j < i ==> p.authEvents[j] in db.pdus
      decreases |p.authEvents| - i
    {
      i := i + 1;
    }
  }

  lemma {:induction false} MissingFirst(pdus: map<EventId, Pdu>, ids: seq<EventId>, i: nat)
    requires i < |ids| && ids[i] !in pdus && forall j :: 0 <= j < i ==> ids[j] in pdus
    ensures FirstMissing(pdus, ids) == Some(ids[i])
  {
    if i > 0 {
      assert ids[0] in pdus;
      MissingFirst(pdus, ids[1..], i - 1);
    }
  }

  /** The extremities after an event: the old ones it does not cite, and itself, in order. */
  ghost predicate Extends(ext: seq<EventId>, p: Pdu, new': seq<EventId>) {
    && Sorted(LexLe, new')
    && (forall e :: multiset(new')[e]
          == (if e in p.prevEvents then 0 else multiset(ext)[e]) + (if e == p.eventId then 1 else 0))
  }

  lemma {:induction false} WithoutCounts(ext: seq<EventId>, gone: seq<EventId>, e: EventId)
    ensures multiset(Without(ext, gone))[e] == if e in gone then 0 else multiset(ext)[e]
  {
    if ext != [] {
      var n := |ext| - 1;
      WithoutCounts(ext[..n], gone, e);
      assert ext == ext[..n] + [ext[n]];
    }
  }

  lemma AdvanceExtends(ext: seq<EventId>, p: Pdu)
    ensures Extends(ext, p, Advance(ext, p))
  {
    LexIsOrder();
    SortSorts(LexLe, Without(ext, p.prevEvents) + [p.eventId]);
    forall e ensures multiset(Advance(ext, p))[e]
      == (if e in p.prevEvents then 0 else multiset(ext)[e]) + (if e == p.eventId then 1 else 0)
    {
      WithoutCounts(ext, p.prevEvents, e);
    }
  }

  /** Where an accepted event was put: soft-failed, it moves nothing; else it replaces the extremities it
      cites, and the current state is resolved over the new ones with the event among the stored ones. */
  ghost predicate IsPlaced(rules: Rules, db: Store, a: Accepted, current: StateMap) {
    && (a.softFailed <==> db.extremities != [] && !Passes(rules, db, a.pdu, current))
    && (a.forked <==> !a.softFailed && |a.extremities| > 1)
    && (if a.softFailed then a.extremities == db.extremities && a.currentState == current
        else
          && Extends(db.extremities, a.pdu, a.extremities)
          && exists states ::
            && AreStates(db, Some((a.pdu.eventId, a.stateAfter)), a.extremities, states)
            && ResolvesTo(rules, db.pdus[a.pdu.eventId := a.pdu], states, Ok(a.currentState)))
  }

  lemma {:induction false} ForksHaveStates(db: Store, ids: seq<EventId>, extra: Option<(EventId, StateMap)>)
    requires Forks(db, ids, extra).Ok?
    ensures AreStates(db, extra, ids, Forks(db, ids, extra).value)
    decreases |ids|
  {
    if ids != [] {
      ForksHaveStates(db, ids[..|ids| - 1], extra);
    }
  }

  lemma PlacesExactly(rules: Rules, db: Store, p: Pdu, after: StateMap, current: StateMap)
    requires Place(rules, db, p, after, current).Ok?
    ensures var a := Place(rules, db, p, after, current).value;
            (a.eventId, a.pdu, a.stateAfter) == (p.eventId, p, after) && IsPlaced(rules, db, a, current)
  {
    var a := Place(rules, db, p, after, current).value;
    if !a.softFailed {
      AdvanceExtends(db.extremities, p);
      PlacedState(rules, db, p, after, a.extremities, a.currentState);
    }
  }

  lemma PlacedState(rules: Rules, db: Store, p: Pdu, after: StateMap, ext: seq<EventId>, state: StateMap)
    requires ResolveOver(rules, WithNew(db, p), ext, Some((p.eventId, after))) == Ok(state)
    ensures exists states :: AreStates(db, Some((p.eventId, after)), ext, states)
              && ResolvesTo(rules, db.pdus[p.eventId := p], states, Ok(state))
  {
    var extra := Some((p.eventId, after));
    ForksHaveStates(WithNew(db, p), ext, extra);
    var states := Forks(WithNew(db, p), ext, extra).value;
    SameStates(db, WithNew(db, p), extra, ext, states);
    ResolutionExactly(rules, WithNew(db, p), ext, extra, states);
  }

  lemma SameStates(a: Store, b: Store, extra: Option<(EventId, StateMap)>, ids: seq<EventId>, states: seq<StateMap>)
    requires a.stateAfter == b.stateAfter && AreStates(b, extra, ids, states)
    ensures AreStates(a, extra, ids, states)
  {
    forall i | 0 <= i < |ids| ensures StateOf(a, extra, ids[i]) == Some(states[i]) {
      assert StateOf(b, extra, ids[i]) == Some(states[i]);
    }
  }

  /** Nothing but the resolution over the extremities with the event can still fail. */
  ghost predicate IsBlocked(rules: Rules, db: Store, p: Pdu, before: StateMap, current: StateMap, e: Reject) {
    && (db.extremities == [] || Passes(rules, db, p, current))
    && exists ext, after ::
      && Extends(db.extremities, p, ext) && Follows(before, p, after)
      && ResolveOver(rules, db.(pdus := db.pdus[p.eventId := p]), ext, Some((p.eventId, after))) == Err(e)
  }

  /** What an event that stands becomes, given the current state. */
  ghost predicate IsOutcome(rules: Rules, db: Store, p: Pdu, before: StateMap, current: StateMap,
                            r: Result<Accepted, Reject>) {
    if r.Err? then IsBlocked(rules, db, p, before, current, r.error)
    else
      && r.value.eventId == p.eventId && r.value.pdu == p && Follows(before, p, r.value.stateAfter)
      && IsPlaced(rules, db, r.value, current)
  }

  lemma PlaceIsOutcome(rules: Rules, db: Store, p: Pdu, before: StateMap, after: StateMap, current: StateMap)
    requires Follows(before, p, after)
    ensures IsOutcome(rules, db, p, before, current, Place(rules, db, p, after, current))
  {
    if Place(rules, db, p, after, current).Ok? {
      PlacesExactly(rules, db, p, after, current);
    } else {
      AdvanceExtends(db.extremities, p);
      assert WithNew(db, p) == db.(pdus := db.pdus[p.eventId := p]);
    }
  }

  /**
   `accept`, for every store and every event. An event that does not stand is refused by the first check
   it fails; one that stands is accepted, with exactly the fields it carries and the state before it plus
   its own entry, and placed as `IsPlaced` says, unless the state to place it in does not resolve.
   */
  lemma AcceptsExactly(rules: Rules, db: Store, id: EventId, w: Wire, given: Option<StateMap>, p: Pdu)
    requires Carries(rules, id, w, p) && id !in db.pdus
    ensures var r, before, current :=
              Acceptance(rules, db, id, w, given), Before(rules, db, p, given), CurrentState(rules, db);
            if before.Err? || !Stands(rules, db, p, before.value) then r.Err? && Fails(rules, db, p, given, r.error)
            else if current.Err? then r == Err(current.error)
            else IsOutcome(rules, db, p, before.value, current.value, r)
  {
    AdmitsExactly(rules, db, id, w, given, p);
    var admitted, before, current :=
      Admit(rules, db, id, w, given), Before(rules, db, p, given), CurrentState(rules, db);
    if admitted.Ok? && current.Ok? {
      PlaceIsOutcome(rules, db, p, before.value, admitted.value.1, current.value);
      assert Acceptance(rules, db, id, w, given) == Place(rules, db, p, admitted.value.1, current.value);
    } else if admitted.Err? {
      assert Fails(rules, db, p, given, admitted.error);
    }
  }

  /** An event already held is a duplicate, and a wire form that carries no event is malformed. */
  lemma AcceptsNoOther(rules: Rules, db: Store, id: EventId, w: Wire, given: Option<StateMap>)
    ensures id in db.pdus ==> Acceptance(rules, db, id, w, given) == Err(Duplicate)
    ensures id !in db.pdus && (forall p :: !Carries(rules, id, w, p))
            ==> Acceptance(rules, db, id, w, given) == Err(Malformed)
  {
    if FromWire(rules, id, w).Ok? {
      ReadsExactly(rules, id, w, FromWire(rules, id, w).value);
    }
  }

  /** `accept_historic`: the same checks against the resolved state, and nothing else. */
  lemma AcceptsHistoryExactly(rules: Rules, db: Store, id: EventId, w: Wire, p: Pdu)
    requires Carries(rules, id, w, p)
    ensures var r, before := HistoricAcceptance(rules, db, id, w), Before(rules, db, p, None);
            && (r.Ok? <==> before.Ok? && Stands(rules, db, p, before.value))
            && (r.Ok? ==> r.value.eventId == id && r.value.pdu == p && Follows(before.value, p, r.value.stateAfter))
            && (forall e :: r == Err(e) <==> Fails(rules, db, p, None, e))
  {
    AdmitsExactly(rules, db, id, w, None, p);
  }

  // ----- Local events -----

  /** `at` lists, upwards, the positions of the keys that the state has, and `picked` their entries. */
  ghost predicate PicksAt(keys: seq<StateKey>, state: StateMap, picked: seq<EventId>, at: seq<nat>) {
    && |at| == |picked| && (forall i, j :: 0 <= i < j < |at| ==> at[i] < at[j])
    && (forall j :: 0 <= j < |at| ==> at[j] < |keys| && Get(state, keys[at[j]]) == Some(picked[j]))
    && (forall i :: 0 <= i < |keys| && keys[i] in state ==> i in at)
  }

  /** `picked` has the state's entries at those of `keys` that it has, in the order of the keys. */
  ghost predicate Picks(keys: seq<StateKey>, state: StateMap, picked: seq<EventId>) {
    exists at :: PicksAt(keys, state, picked, at)
  }

  lemma {:induction false} SelectPicks(keys: seq<StateKey>, state: StateMap)
    ensures Picks(keys, state, Select(keys, state))
  {
    if keys == [] {
      assert PicksAt(keys, state, [], []);
    } else {
      var rest := Select(keys[1..], state);
      SelectPicks(keys[1..], state);
      var at :| PicksAt(keys[1..], state, rest, at);
      var up := PicksUp(keys, state, rest, at);
      if keys[0] in state {
        PicksFirst(keys, state, rest, up);
      }
    }
  }

  /** The same positions, counted from one key earlier. */
  lemma PicksUp(keys: seq<StateKey>, state: StateMap, rest: seq<EventId>, at: seq<nat>) returns (up: seq<nat>)
    requires keys != [] && PicksAt(keys[1..], state, rest, at)
    ensures |up| == |rest| && (forall i, j :: 0 <= i < j < |up| ==> up[i] < up[j])
    ensures forall j :: 0 <= j < |up| ==> 0 < up[j] < |keys| && Get(state, keys[up[j]]) == Some(rest[j])
    ensures forall i :: 1 <= i < |keys| && keys[i] in state ==> i in up
    ensures keys[0] !in state ==> PicksAt(keys, state, rest, up)
  {
    up := seq(|at|, j requires 0 <= j < |at| => at[j] + 1);
    forall j | 0 <= j < |up| ensures up[j] < |keys| && Get(state, keys[up[j]]) == Some(rest[j]) {
      assert keys[up[j]] == keys[1..][at[j]];
    }
    forall i | 1 <= i < |keys| && keys[i] in state ensures i in up {
      assert keys[i] == keys[1..][i - 1];
      var j :| 0 <= j < |at| && at[j] == i - 1;
      assert up[j] == i;
    }
  }

  lemma PicksFirst(keys: seq<StateKey>, state: StateMap, rest: seq<EventId>, up: seq<nat>)
    requires keys != [] && keys[0] in state
    requires |up| == |rest| && (forall i, j :: 0 <= i < j < |up| ==> up[i] < up[j])
    requires forall j :: 0 <= j < |up| ==> 0 < up[j] < |keys| && Get(state, keys[up[j]]) == Some(rest[j])
    requires forall i :: 1 <= i < |keys| && keys[i] in state ==> i in up
    ensures Picks(keys, state, [state[keys[0]]] + rest)
  {
    assert PicksAt(keys, state, [state[keys[0]]] + rest, [0] + up);
  }

  /** One more than the greatest depth of a stored extremity; one if there is none. */
  ghost predicate IsNextDepth(db: Store, depth: nat) {
    && depth >= 1
    && (forall e :: e in db.extremities && e in db.pdus ==> db.pdus[e].depth < depth)
    && (depth > 1 ==> exists e :: e in db.extremities && e in db.pdus && db.pdus[e].depth == depth - 1)
  }

  lemma {:induction false} DepthExactly(pdus: map<EventId, Pdu>, ids: seq<EventId>)
    ensures MaxDepth(pdus, ids) > 0 ==> exists e :: e in ids && e in pdus && pdus[e].depth == MaxDepth(pdus, ids)
  {
    if ids != [] {
      DepthExactly(pdus, ids[1..]);
    }
  }

  /** The event a client asked for, in its place: the draft's own fields, after all extremities, with the
      auth events the rules select from the current state. */
  ghost predicate IsDraftOf(db: Store, d: Draft, keys: seq<StateKey>, current: StateMap, p: Pdu) {
    && (p.roomId, p.sender, p.kind, p.content, p.stateKey, p.ts)
       == (d.roomId, d.sender, d.kind, d.content, d.stateKey, d.ts)
    && p.prevEvents == db.extremities && Picks(keys, current, p.authEvents) && IsNextDepth(db, p.depth)
  }

  /** A signed wire form of an event, and its id. */
  ghost predicate IsSigned(rules: Rules, p: Pdu, w: Wire) {
    && Carries(rules, p.eventId, w, p) && w.depth.Some?
    && rules.sign(w.(proof := "")) == Some(w.proof) && rules.IdOf(w) == Some(p.eventId)
  }

  /** `local_event`: the event that is sent is the event that was asked for, signed and accepted. */
  lemma LocalEventIsDraft(rules: Rules, db: Store, d: Draft)
    requires LocalEvent(rules, db, d).Ok?
    ensures var a := LocalEvent(rules, db, d).value;
            var keys, current := rules.authTypes(d.kind, d.sender, d.stateKey, d.content), CurrentState(rules, db);
            && keys.Some? && current.Ok? && IsDraftOf(db, d, keys.value, current.value, a.pdu)
            && exists w :: IsSigned(rules, a.pdu, w) && Acceptance(rules, db, a.pdu.eventId, w, None) == Ok(a)
  {
    var a := LocalEvent(rules, db, d).value;
    var keys, current := rules.authTypes(d.kind, d.sender, d.stateKey, d.content).value, CurrentState(rules, db).value;
    var t := Template(rules, db, d).value;
    var (id, w) := SignTemplate(rules, t).value;
    SelectPicks(keys, current);
    DepthExactly(db.pdus, db.extremities);
    var _ := AcceptanceSteps(rules, db, id, w, None);
    ReadsExactly(rules, id, w, a.pdu);
    assert w.(proof := "") == t;
    assert IsSigned(rules, a.pdu, w);
  }

  /** And where it fails, it is for one of these: the sender is no user id, the current state does not
      resolve, the rules select no auth events, it cannot be signed, or it is not accepted. */
  lemma LocalEventRefused(rules: Rules, db: Store, d: Draft)
    ensures var r, current := LocalEvent(rules, db, d), CurrentState(rules, db);
            && (!rules.validUser(d.sender) ==> r == Err(Malformed))
            && (rules.validUser(d.sender) && current.Err? ==> r == Err(current.error))
            && (rules.validUser(d.sender) && current.Ok? ==>
                  match rules.authTypes(d.kind, d.sender, d.stateKey, d.content)
                  case None => r == Err(AuthRefused)
                  case Some(keys) =>
                    exists t ::
                      && IsTemplate(rules, db, d, keys, current.value, t)
                      && (rules.sign(t).None? ==> r == Err(Malformed))
                      && (rules.sign(t).Some? ==>
                            var w := t.(proof := rules.sign(t).value);
                            if rules.IdOf(w).None? then r == Err(Malformed)
                            else r == Acceptance(rules, db, rules.IdOf(w).value, w, None)))
  {
    var current := CurrentState(rules, db);
    match rules.authTypes(d.kind, d.sender, d.stateKey, d.content)
    case None =>
    case Some(keys) =>
      if rules.validUser(d.sender) && current.Ok? {
        SelectPicks(keys, current.value);
        DepthExactly(db.pdus, db.extremities);
        assert IsTemplate(rules, db, d, keys, current.value, Template(rules, db, d).value);
      }
  }

  /** The unsigned wire form of a draft in its place. */
  ghost predicate IsTemplate(rules: Rules, db: Store, d: Draft, keys: seq<StateKey>, current: StateMap, t: Wire) {
    && (t.roomId, t.sender, t.kind, t.content, t.ts, t.stateKey)
       == (Some(d.roomId), Some(d.sender), Some(d.kind), Some(d.content), Some(d.ts), d.stateKey)
    && t.prevEvents == db.extremities && Picks(keys, current, t.authEvents)
    && t.depth.Some? && IsNextDepth(db, t.depth.value) && t.proof == ""
  }
}
