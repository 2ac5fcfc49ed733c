/**
 The builder of one new room's timeline, and why every other server accepts what it builds: the list
 of its events replays through `accept` on an empty store.
 */
module RoomBuilder {
  import opened Common
  import opened MatrixEvents
  import opened Dag
  import Receipt

  datatype BuildError = BadField | SignFailed | AuthRefusal

  /** One `push`: who sends what. */
  datatype Ask = Ask(sender: string, kind: string, stateKey: Option<string>, content: string)

  datatype Signed = Signed(eventId: EventId, wire: Wire)

  /** The builder's fields. */
  datatype Built = Built(
    ts: nat,
    depth: nat,
    last: Option<EventId>,
    state: StateMap,
    pdus: map<EventId, Pdu>,
    events: seq<Signed>)
  {
    function Prev(): (r: seq<EventId>) {
      if last.Some? then [last.value] else []
    }
  }

  function Fresh(ts: nat): (b: Built) {
    Built(ts, 0, None, map[], map[], [])
  }

  /** Specification of `push`: the clock and the depth advance as soon as the auth events are
      selected, even when the event is refused later. */
  function Pushed(rules: Rules, room: string, b: Built, ask: Ask): (r: (Built, Result<Signed, BuildError>)) {
    if !rules.validUser(ask.sender) then (b, Err(BadField))
    else match rules.authTypes(ask.kind, ask.sender, ask.stateKey, ask.content)
         case None => (b, Err(AuthRefusal))
         case Some(keys) => Finish(rules, Tick(b), Unsigned(room, b, ask, keys))
  }

  function Tick(b: Built): (r: Built) {
    b.(ts := b.ts + 1, depth := b.depth + 1)
  }

  function Unsigned(room: string, b: Built, ask: Ask, keys: seq<StateKey>): (w: Wire) {
    DraftWire(Draft(room, b.ts + 1, ask.sender, ask.kind, ask.stateKey, ask.content), b.Prev(), Select(keys, b.state),
              b.depth + 1)
  }

  function Finish(rules: Rules, b: Built, w: Wire): (r: (Built, Result<Signed, BuildError>)) {
    var signed := rules.sign(w);
    if signed.None? || rules.hash(w.(proof := signed.value)).None? then (b, Err(SignFailed))
    else if rules.IdOf(w.(proof := signed.value)).None? then (b, Err(BadField))
    else
      var wire := w.(proof := signed.value);
      var id := rules.IdOf(wire).value;
      var parsed := FromWire(rules, id, wire);
      if parsed.Err? then (b, Err(BadField))
      else if !rules.independent(parsed.value, b.pdus) then (b, Err(AuthRefusal))
      else if !rules.dependent(parsed.value, StatePdus(b.pdus, b.state)) then (b, Err(AuthRefusal))
      else (Append(b, parsed.value, wire), Ok(Signed(id, wire)))
  }

  function Append(b: Built, pdu: Pdu, wire: Wire): (r: Built) {
    b.(last := Some(pdu.eventId),
       state := After(pdu, b.state),
       pdus := b.pdus[pdu.eventId := pdu],
       events := b.events + [Signed(pdu.eventId, wire)])
  }

  function Build(rules: Rules, room: string, ts: nat, asks: seq<Ask>): (b: Built) {
    if asks == [] then Fresh(ts)
    else Pushed(rules, room, Build(rules, room, ts, asks[..|asks| - 1]), asks[|asks| - 1]).0
  }

  /** The builder as the source has it: one object whose fields `push` updates. */
  class RoomBuilder {
    const rules: Rules
    const room: string
    var ts: nat
    var depth: nat
    var last: Option<EventId>
    var state: StateMap
    var pdus: map<EventId, Pdu>
    var events: seq<Signed>

    function View(): (b: Built)
      reads this
    {
      Built(ts, depth, last, state, pdus, events)
    }

    constructor (rules: Rules, room: string, startTs: nat)
      ensures View() == Fresh(startTs) && this.rules == rules && this.room == room
    {
      this.rules := rules;
      this.room := room;
      ts, depth, last, state, pdus, events := startTs, 0, None, map[], map[], [];
    }

    method Push(ask: Ask) returns (r: Result<Signed, BuildError>)
      modifies this
      ensures (View(), r) == Pushed(rules, room, old(View()), ask)
    {
      if !rules.validUser(ask.sender) { return Err(BadField); }
      var keys := rules.authTypes(ask.kind, ask.sender, ask.stateKey, ask.content);
      if keys.None? { return Err(AuthRefusal); }
      var auth := Select(keys.value, state);
      depth := depth + 1;
      ts := ts + 1;
      var prev := if last.Some? then [last.value] else [];
      var w := DraftWire(Draft(room, ts, ask.sender, ask.kind, ask.stateKey, ask.content), prev, auth, depth);
      var signed := rules.sign(w);
      if signed.None? { return Err(SignFailed); }
      var wire := w.(proof := signed.value);
      var hash := rules.hash(wire);
      if hash.None? { return Err(SignFailed); }
      var id := "$" + hash.value;
      if !rules.validEvent(id) { return Err(BadField); }
      var parsed := FromWire(rules, id, wire);
      if parsed.Err? { return Err(BadField); }
      var pdu := parsed.value;
      if !rules.independent(pdu, pdus) { return Err(AuthRefusal); }
      if !rules.dependent(pdu, StatePdus(pdus, state)) { return Err(AuthRefusal); }
      if pdu.IsState() {
        state := state[pdu.Key() := id];
      }
      last := Some(id);
      pdus := pdus[id := pdu];
      events := events + [Signed(id, wire)];
      return Ok(Signed(id, wire));
    }
  }

  // ----- What is built -----

  /** The event asked for, as the next one after `b`: the ask's own fields, one tick later, one deeper, after
      the last event, with the auth events the rules select from the builder's state. */
  ghost predicate IsNext(room: string, b: Built, ask: Ask, keys: seq<StateKey>, w: Wire) {
    && (w.roomId, w.sender, w.kind, w.content, w.stateKey)
       == (Some(room), Some(ask.sender), Some(ask.kind), Some(ask.content), ask.stateKey)
    && (w.ts, w.depth) == (Some(b.ts + 1), Some(b.depth + 1))
    && w.prevEvents == (if b.last.Some? then [b.last.value] else [])
    && Receipt.Picks(keys, b.state, w.authEvents)
  }

  /** The rules let the event through against the events and the state built so far. */
  predicate Passes(rules: Rules, b: Built, p: Pdu) {
    rules.independent(p, b.pdus) && rules.dependent(p, StatePdus(b.pdus, b.state))
  }

  /**
   A push builds the event asked for or nothing. It succeeds exactly if the sender is a user id, the rules
   select auth events, the event is signed, carries a well-formed event and passes; then exactly that event
   is appended, and only then do last event, state, events by id and event list move.
   */
  lemma PushBuildsAsked(rules: Rules, room: string, b: Built, ask: Ask) returns (w: Wire)
    ensures var (b', r) := Pushed(rules, room, b, ask);
            var keys := rules.authTypes(ask.kind, ask.sender, ask.stateKey, ask.content);
            if !rules.validUser(ask.sender) then r == Err(BadField) && b' == b
            else if keys.None? then r == Err(AuthRefusal) && b' == b
            else
              && IsNext(room, b, ask, keys.value, w) && (b'.ts, b'.depth) == (b.ts + 1, b.depth + 1)
              && (rules.sign(w.(proof := "")).None? ==> r == Err(SignFailed))
              && (rules.sign(w.(proof := "")).Some? ==> rules.sign(w.(proof := "")) == Some(w.proof))
              && (r.Err? ==> b' == b.(ts := b'.ts, depth := b'.depth))
              && (r.Ok? ==>
                    exists p :: Receipt.IsSigned(rules, p, w) && Passes(rules, b, p) && IsAppended(b, p, w, b', r))
              && (forall p :: Receipt.IsSigned(rules, p, w) && Passes(rules, b, p) ==> r.Ok?)
  {
    var keys := rules.authTypes(ask.kind, ask.sender, ask.stateKey, ask.content);
    if rules.validUser(ask.sender) && keys.Some? {
      var u := Unsigned(room, b, ask, keys.value);
      Receipt.SelectPicks(keys.value, b.state);
      w := if rules.sign(u).Some? then u.(proof := rules.sign(u).value) else u;
      assert w.(proof := "") == u;
      forall p: Pdu ensures FromWire(rules, p.eventId, w) == Ok(p) <==> Receipt.Carries(rules, p.eventId, w, p) {
        Receipt.ReadsExactly(rules, p.eventId, w, p);
      }
      if Pushed(rules, room, b, ask).1.Ok? {
        var p := FromWire(rules, rules.IdOf(w).value, w).value;
        assert Receipt.IsSigned(rules, p, w) && Passes(rules, b, p);
        assert IsAppended(b, p, w, Pushed(rules, room, b, ask).0, Pushed(rules, room, b, ask).1);
      }
    } else {
      w := *;
    }
  }

  /** And a push that fails after that says why: it could not be signed or hashed, its id or a field is not
      well formed, or the rules refuse it. */
  lemma PushRefusedFor(rules: Rules, room: string, b: Built, ask: Ask) returns (w: Wire)
    ensures var r := Pushed(rules, room, b, ask).1;
            var keys := rules.authTypes(ask.kind, ask.sender, ask.stateKey, ask.content);
            rules.validUser(ask.sender) && keys.Some? && r.Err? ==>
              && IsNext(room, b, ask, keys.value, w)
              && (r.error == SignFailed <==> rules.sign(w.(proof := "")) != Some(w.proof) || rules.hash(w).None?)
              && (r.error == AuthRefusal ==>
                    exists p :: Receipt.IsSigned(rules, p, w) && !Passes(rules, b, p))
              && (r.error == BadField ==> forall p :: !Receipt.IsSigned(rules, p, w))
  {
    var keys := rules.authTypes(ask.kind, ask.sender, ask.stateKey, ask.content);
    if rules.validUser(ask.sender) && keys.Some? {
      var u := Unsigned(room, b, ask, keys.value);
      Receipt.SelectPicks(keys.value, b.state);
      w := if rules.sign(u).Some? then u.(proof := rules.sign(u).value) else u;
      assert w.(proof := "") == u;
      forall p: Pdu ensures FromWire(rules, p.eventId, w) == Ok(p) <==> Receipt.Carries(rules, p.eventId, w, p) {
        Receipt.ReadsExactly(rules, p.eventId, w, p);
      }
      var id := rules.IdOf(w);
      if id.Some? && FromWire(rules, id.value, w).Ok? && rules.sign(u).Some? {
        assert Receipt.IsSigned(rules, FromWire(rules, id.value, w).value, w);
      }
    } else {
      w := *;
    }
  }

  /** The builder with one more event, which is also the answer. */
  ghost predicate IsAppended(b: Built, p: Pdu, w: Wire, b': Built, r: Result<Signed, BuildError>) {
    && r == Ok(Signed(p.eventId, w)) && b'.events == b.events + [Signed(p.eventId, w)]
    && b'.last == Some(p.eventId) && b'.pdus == b.pdus[p.eventId := p] && Receipt.Follows(b.state, p, b'.state)
  }

  // ----- Replay -----

  /** The store after feeding `events` to `accept` in order; `None` as soon as one of them is refused,
      is soft-failed, or leaves the room with other than one extremity. */
  function Replay(rules: Rules, events: seq<Signed>): (r: Option<Store>) {
    if events == [] then Some(EmptyStore)
    else
      match Replay(rules, events[..|events| - 1])
      case None => None
      case Some(db) =>
        var e := events[|events| - 1];
        var a := Acceptance(rules, db, e.eventId, e.wire, None);
        if a.Ok? && !a.value.softFailed && |a.value.extremities| == 1 then Some(Write(db, a.value)) else None
  }

  // ----- Hypotheses -----

  /** The state-dependent rules read only the state entries that the rules select for the event. */
  ghost predicate DependentReads(rules: Rules) {
    forall p: Pdu, s, t ::
      && rules.authTypes(p.kind, p.sender, p.stateKey, p.content).Some?
      && (forall k :: k in rules.authTypes(p.kind, p.sender, p.stateKey, p.content).value ==> Get(s, k) == Get(t, k))
      ==> rules.dependent(p, s) == rules.dependent(p, t)
  }

  /** Ids do not collide: the reference hash covers the depth. (It does not cover erased content, so
      full injectivity would be too much to ask.) */
  ghost predicate IdBindsDepth(rules: Rules) {
    forall v, w :: rules.IdOf(v).Some? && rules.IdOf(v) == rules.IdOf(w) ==> v.depth == w.depth
  }

  // ----- Invariants -----

  /** Each state entry is a known state event with that key; each event's id is the hash of a wire
      form no deeper than the builder. */
  ghost predicate WellBuilt(rules: Rules, b: Built) {
    && (forall k :: k in b.state
          ==> b.state[k] in b.pdus && b.pdus[b.state[k]].IsState() && b.pdus[b.state[k]].Key() == k)
    && (forall e :: e in b.pdus ==> b.pdus[e].eventId == e && Known(rules, b, e))
    && (b.last.None? ==> b.state == map[])
  }

  ghost predicate Known(rules: Rules, b: Built, e: EventId) {
    exists i :: 0 <= i < |b.events| && b.events[i].eventId == e
      && rules.IdOf(b.events[i].wire) == Some(e)
      && b.events[i].wire.depth.Some? && b.events[i].wire.depth.value <= b.depth
  }

  /** A store holds what the builder holds. */
  ghost predicate Mirrors(b: Built, db: Store) {
    && db.pdus == b.pdus
    && db.extremities == b.Prev()
    && (b.last.Some? ==> b.last.value in db.stateAfter && db.stateAfter[b.last.value] == b.state)
  }

  lemma {:induction false} AuthStateOfSelected(b: Built, auth: seq<EventId>)
    requires forall k :: k in b.state
               ==> b.state[k] in b.pdus && b.pdus[b.state[k]].IsState() && b.pdus[b.state[k]].Key() == k
    requires Elems(auth) <= b.state.Values
    ensures forall a :: a in auth ==> a in b.pdus
    ensures forall k :: k in AuthState(b.pdus, auth)
              ==> k in b.state && AuthState(b.pdus, auth)[k] == b.pdus[b.state[k]]
    ensures forall k :: k in b.state && b.state[k] in auth ==> k in AuthState(b.pdus, auth)
    decreases |auth|
  {
    if auth != [] {
      var n := |auth| - 1;
      assert auth == auth[..n] + [auth[n]];
      assert auth[n] in Elems(auth) && Elems(auth[..n]) <= Elems(auth);
      AuthStateOfSelected(b, auth[..n]);
    }
  }

  /** Step 2 of acceptance sees, at the selected keys, what the builder saw in its own state. */
  lemma OwnAuthEventsSuffice(b: Built, keys: seq<StateKey>)
    requires forall k :: k in b.state
               ==> b.state[k] in b.pdus && b.pdus[b.state[k]].IsState() && b.pdus[b.state[k]].Key() == k
    ensures forall a :: a in Select(keys, b.state) ==> a in b.pdus
    ensures forall k :: k in keys
              ==> Get(AuthState(b.pdus, Select(keys, b.state)), k) == Get(StatePdus(b.pdus, b.state), k)
  {
    AuthStateOfSelected(b, Select(keys, b.state));
  }

  lemma PrevResolves(rules: Rules, b: Built, db: Store)
    requires Mirrors(b, db) && WellBuilt(rules, b)
    ensures ResolveOver(rules, db, b.Prev(), None) == Ok(b.state)
  {
    if b.last.Some? {
      assert b.Prev()[..0] == [];
      assert Forks(db, [], None) == Ok([]);
      assert Forks(db, b.Prev(), None) == Ok([b.state]) by { assert [] + [b.state] == [b.state]; }
    }
  }

  /** An event the builder just built has an id that no earlier event has. */
  lemma NewIdIsFresh(rules: Rules, b: Built, id: EventId, wire: Wire)
    requires IdBindsDepth(rules) && WellBuilt(rules, b)
    requires rules.IdOf(wire) == Some(id) && wire.depth == Some(b.depth + 1)
    ensures id !in b.pdus
  {
  }

  /** What the builder appends, a store that mirrors it accepts as the next and only extremity. */
  lemma PushIsAccepted(rules: Rules, room: string, b: Built, ask: Ask, db: Store)
    requires DependentReads(rules) && IndependentReads(rules) && IdBindsDepth(rules)
    requires WellBuilt(rules, b) && Mirrors(b, db)
    requires Pushed(rules, room, b, ask).1.Ok?
    ensures var (b', e) := Pushed(rules, room, b, ask);
            var pdu := b'.pdus[e.value.eventId];
            && e.value.eventId in b'.pdus
            && Acceptance(rules, db, e.value.eventId, e.value.wire, None)
               == Ok(Accepted(e.value.eventId, pdu, b'.state, false, [e.value.eventId], b'.state, false))
  {
    var keys := rules.authTypes(ask.kind, ask.sender, ask.stateKey, ask.content).value;
    var w := Unsigned(room, b, ask, keys);
    var (id, wire) := SignTemplate(rules, w).value;
    var pdu := FromWire(rules, id, wire).value;
    NewIdIsFresh(rules, b, id, wire);
    OwnAuthEventsSuffice(b, keys);
    assert pdu.authEvents == Select(keys, b.state);
    assert FirstMissing(db.pdus, pdu.authEvents).None?;
    assert rules.independent(pdu, db.pdus[id := pdu]) by {
      assert forall a :: a in pdu.authEvents ==> Get(db.pdus[id := pdu], a) == Get(b.pdus, a);
      assert rules.independent(pdu, b.pdus);
    }
    assert rules.dependent(pdu, AuthState(db.pdus, pdu.authEvents));
    PrevResolves(rules, b, db);
    assert Admit(rules, db, id, wire, None) == Ok((pdu, After(pdu, b.state)));
    PlaceClosesForks(rules, db, pdu, After(pdu, b.state), b.state);
  }

  lemma AppendKeepsBuilt(rules: Rules, b: Built, pdu: Pdu, wire: Wire)
    requires WellBuilt(rules, b) && pdu.eventId !in b.pdus
    requires rules.IdOf(wire) == Some(pdu.eventId) && wire.depth.Some? && wire.depth.value <= b.depth
    ensures WellBuilt(rules, Append(b, pdu, wire))
  {
    var b' := Append(b, pdu, wire);
    forall e | e in b'.pdus ensures Known(rules, b', e) {
      if e in b.pdus {
        KnownKept(rules, b, b', e);
      } else {
        assert b'.events[|b.events|].eventId == e;
      }
    }
  }

  lemma KnownKept(rules: Rules, b: Built, b': Built, e: EventId)
    requires Known(rules, b, e) && b.events <= b'.events && b.depth <= b'.depth
    ensures Known(rules, b', e)
  {
    var i :| 0 <= i < |b.events| && b.events[i].eventId == e && rules.IdOf(b.events[i].wire) == Some(e)
             && b.events[i].wire.depth.Some? && b.events[i].wire.depth.value <= b.depth;
    assert b'.events[i] == b.events[i];
  }

  lemma TickKeepsBuilt(rules: Rules, b: Built)
    requires WellBuilt(rules, b)
    ensures WellBuilt(rules, Tick(b))
  {
    forall e | e in b.pdus ensures Known(rules, Tick(b), e) {
      KnownKept(rules, b, Tick(b), e);
    }
  }

  /** The outcomes of a push: refused, with or without a tick, or appended under a new depth. */
  lemma PushOutcome(rules: Rules, room: string, b: Built, ask: Ask) returns (pdu: Pdu, wire: Wire)
    ensures var (b', r) := Pushed(rules, room, b, ask);
            if r.Ok? then
              && b' == Append(Tick(b), pdu, wire) && r.value == Signed(pdu.eventId, wire)
              && rules.IdOf(wire) == Some(pdu.eventId) && wire.depth == Some(b.depth + 1)
            else b' == b || b' == Tick(b)
  {
    if Pushed(rules, room, b, ask).1.Ok? {
      var keys := rules.authTypes(ask.kind, ask.sender, ask.stateKey, ask.content).value;
      var (id, signed) := SignTemplate(rules, Unsigned(room, b, ask, keys)).value;
      pdu, wire := FromWire(rules, id, signed).value, signed;
    } else {
      pdu, wire := *, *;
    }
  }

  lemma PushKeepsBuilt(rules: Rules, room: string, b: Built, ask: Ask)
    requires IdBindsDepth(rules) && WellBuilt(rules, b)
    ensures WellBuilt(rules, Pushed(rules, room, b, ask).0)
  {
    var pdu, wire := PushOutcome(rules, room, b, ask);
    TickKeepsBuilt(rules, b);
    if Pushed(rules, room, b, ask).1.Ok? {
      NewIdIsFresh(rules, b, pdu.eventId, wire);
      AppendKeepsBuilt(rules, Tick(b), pdu, wire);
    }
  }

  lemma ReplayNext(rules: Rules, events: seq<Signed>, e: Signed, db: Store, a: Accepted)
    requires Replay(rules, events) == Some(db) && Acceptance(rules, db, e.eventId, e.wire, None) == Ok(a)
    requires !a.softFailed && |a.extremities| == 1
    ensures Replay(rules, events + [e]) == Some(Write(db, a))
  {
    assert (events + [e])[..|events|] == events;
  }

  /** A push moves the builder and the store that mirrors it together. */
  lemma PushReplays(rules: Rules, room: string, b: Built, ask: Ask, db: Store)
    requires DependentReads(rules) && IndependentReads(rules) && IdBindsDepth(rules)
    requires WellBuilt(rules, b) && Replay(rules, b.events) == Some(db) && Mirrors(b, db)
    ensures var b' := Pushed(rules, room, b, ask).0;
            Replay(rules, b'.events).Some? && Mirrors(b', Replay(rules, b'.events).value)
  {
    var (b', r) := Pushed(rules, room, b, ask);
    var pdu, wire := PushOutcome(rules, room, b, ask);
    if r.Ok? {
      PushIsAccepted(rules, room, b, ask, db);
      ReplayNext(rules, b.events, r.value, db,
                 Accepted(pdu.eventId, pdu, b'.state, false, [pdu.eventId], b'.state, false));
    }
  }

  /**
   Every list of events a builder makes, through any sequence of pushes of which some may be refused,
   replays on an empty store: each event is accepted and not soft-failed, the room keeps one
   extremity, and the resolved state is the builder's own.
   */
  lemma {:induction false} BuilderReplays(rules: Rules, room: string, ts: nat, asks: seq<Ask>)
    requires DependentReads(rules) && IndependentReads(rules) && IdBindsDepth(rules)
    ensures var b := Build(rules, room, ts, asks);
            && WellBuilt(rules, b)
            && Replay(rules, b.events).Some?
            && Mirrors(b, Replay(rules, b.events).value)
            && CurrentState(rules, Replay(rules, b.events).value) == Ok(b.state)
    decreases |asks|
  {
    var b := Build(rules, room, ts, asks);
    if asks != [] {
      var b0 := Build(rules, room, ts, asks[..|asks| - 1]);
      var ask := asks[|asks| - 1];
      BuilderReplays(rules, room, ts, asks[..|asks| - 1]);
      PushKeepsBuilt(rules, room, b0, ask);
      PushReplays(rules, room, b0, ask, Replay(rules, b0.events).value);
    }
    PrevResolves(rules, b, Replay(rules, b.events).value);
  }
}
