/**
 Runs that show what the room theorems do not promise: small rooms under rules where a state event bans
 every later message, with a resolver and ids that meet all hypotheses of the theorems. `Room` is all
 that matters of such a room, and `RunIsRoom` says that a run of `accept` does to the store what `Next`
 does to it; the witnesses are then small computations.
 */
module DagWitnesses {
  import opened Common
  import opened Sorting
  import opened MatrixEvents
  import opened Dag
  import opened DagRuns
  import opened Convergence

  const BAN := StateKey("t", "")

  function Message(tag: string): (w: Wire) {
    Wire(Some("r"), Some("u"), Some("t"), Some(""), Some(0), None, [], [], Some(1), tag)
  }

  function Ban(tag: string, prev: seq<EventId>): (w: Wire) {
    Message(tag).(stateKey := Some(""), prevEvents := prev)
  }

  /** A message or a ban. */
  predicate Plain(w: Wire) {
    && w == Message(w.proof).(stateKey := w.stateKey, prevEvents := w.prevEvents)
    && (w.stateKey.Some? ==> w.stateKey.value == "")
  }

  function PduOf(id: EventId, w: Wire): (p: Pdu) {
    Pdu(id, "r", "u", 0, "t", "", w.stateKey, w.prevEvents, [], 1)
  }

  /** The first ban of the branches, as far as it is in its branch's chain. */
  function FirstBan(forks: seq<StateMap>, chains: seq<set<EventId>>): (r: StateMap) {
    if forks == [] || chains == [] then map[]
    else if BAN in forks[0] && forks[0][BAN] in chains[0] then map[BAN := forks[0][BAN]]
    else FirstBan(forks[1..], chains[1..])
  }

  /** Under these rules a ban in the state refuses every message. */
  ghost predicate Bans(rules: Rules) {
    && (forall s :: rules.validRoom(s) && rules.validUser(s) && rules.validEvent(s))
    && (forall p, m :: rules.independent(p, m))
    && (forall p, s :: rules.dependent(p, s) <==> p.IsState() || BAN !in s)
    && (forall forks, chains, p :: rules.resolve(forks, chains, p) == Some(FirstBan(forks, chains)))
    && ReadsCores(rules) && ReturnsChains(rules)
  }

  // ----- What matters of such a room -----

  /** The previous events of the stored events, those whose state has a ban, and the live ones. */
  datatype Room = Room(prev: map<EventId, seq<EventId>>, banned: set<EventId>, live: set<EventId>)
  {
    /** A live event with a ban in its state, cited by no live event: the ban is in the current state. */
    ghost predicate Closed() {
      exists e :: e in banned && e in live && forall f :: f in live && f in prev ==> e !in prev[f]
    }
  }

  /** A ban always passes; a message may not follow a ban, and lives if the room is not closed. */
  ghost function Next(r: Room, id: EventId, w: Wire): Room {
    var banned := if w.stateKey.Some? then r.banned + {id} else r.banned;
    Room(r.prev[id := w.prevEvents], banned, if w.stateKey.Some? || !r.Closed() then r.live + {id} else r.live)
  }

  ghost predicate Fits(r: Room, id: EventId, w: Wire) {
    && Plain(w) && id !in r.prev
    && (forall p :: p in w.prevEvents ==> p in r.prev && (p in r.banned ==> w.stateKey.Some?))
  }

  ghost predicate Shows(w: World, r: Room) {
    && w.db.pdus.Keys == w.db.stateAfter.Keys == r.prev.Keys && w.live == r.live && r.banned <= r.prev.Keys
    && (forall e :: e in r.prev ==> w.db.pdus[e].prevEvents == r.prev[e])
    && (forall e :: e in r.prev ==> (BAN in w.db.stateAfter[e] <==> e in r.banned))
  }

  // ----- A run does to the store what `Next` does to the room -----

  lemma {:induction false} BanIsFound(forks: seq<StateMap>, chains: seq<set<EventId>>)
    requires |forks| == |chains| && forall i :: 0 <= i < |forks| ==> forks[i].Values <= chains[i]
    ensures BAN in FirstBan(forks, chains) <==> exists i :: 0 <= i < |forks| && BAN in forks[i]
    decreases |forks|
  {
    if forks != [] {
      BanIsFound(forks[1..], chains[1..]);
      assert BAN in forks[0] ==> forks[0][BAN] in forks[0].Values;
      if i :| 0 <= i < |forks| && BAN in forks[i] {
        assert i > 0 ==> forks[1..][i - 1] == forks[i];
      }
      if j :| 0 <= j < |forks| - 1 && BAN in forks[1..][j] {
        assert forks[j + 1] == forks[1..][j];
      }
    }
  }

  /** A resolved state has a ban exactly if the state after one of the ids has one. */
  lemma ResolvedBan(rules: Rules, db: Store, ids: seq<EventId>)
    requires Bans(rules) && forall e :: e in ids ==> e in db.stateAfter
    ensures ResolveOver(rules, db, ids, None).Ok?
    ensures BAN in ResolveOver(rules, db, ids, None).value <==> exists e :: e in ids && BAN in db.stateAfter[e]
  {
    ForksSame(db, db, ids);
    var forks := Forks(db, ids, None).value;
    var chains := Chains(db.pdus, forks);
    BanIsFound(forks, chains);
    assert (exists e :: e in ids && BAN in db.stateAfter[e]) <==> exists i :: 0 <= i < |forks| && BAN in forks[i] by {
      if e :| e in ids && BAN in db.stateAfter[e] {
        var i :| 0 <= i < |ids| && ids[i] == e;
        assert BAN in forks[i];
      }
      if i :| 0 <= i < |forks| && BAN in forks[i] {
        assert ids[i] in ids && BAN in db.stateAfter[ids[i]];
      }
    }
  }

  lemma {:induction false} ForksFound(db: Store, ids: seq<EventId>, extra: (EventId, StateMap))
    requires forall e :: e in ids ==> e == extra.0 || e in db.stateAfter
    ensures Forks(db, ids, Some(extra)).Ok?
    decreases |ids|
  {
    if ids != [] {
      ForksFound(db, ids[..|ids| - 1], extra);
    }
  }

  lemma AdvanceStays(ext: seq<EventId>, pdu: Pdu)
    ensures forall e :: e in Advance(ext, pdu) ==> e == pdu.eventId || e in ext
  {
    var unsorted := Without(ext, pdu.prevEvents) + [pdu.eventId];
    MultisetMembers(unsorted, Advance(ext, pdu));
    forall e | e in Advance(ext, pdu) ensures e == pdu.eventId || e in ext {
      assert e in Elems(unsorted);
    }
  }

  lemma PlacesAlways(rules: Rules, db: Store, pdu: Pdu, after: StateMap, current: StateMap)
    requires Bans(rules) && forall e :: e in db.extremities ==> e in db.stateAfter
    ensures Place(rules, db, pdu, after, current).Ok?
  {
    var ext := Advance(db.extremities, pdu);
    AdvanceStays(db.extremities, pdu);
    ResolvesAlways(rules, WithNew(db, pdu), ext, (pdu.eventId, after));
  }

  lemma ResolvesAlways(rules: Rules, db: Store, ids: seq<EventId>, extra: (EventId, StateMap))
    requires Bans(rules) && forall e :: e in ids ==> e == extra.0 || e in db.stateAfter
    ensures ResolveOver(rules, db, ids, Some(extra)).Ok?
  {
    ForksFound(db, ids, extra);
    MergeAlways(rules, db.pdus, Forks(db, ids, Some(extra)).value);
  }

  lemma MergeAlways(rules: Rules, pdus: map<EventId, Pdu>, forks: seq<StateMap>)
    requires Bans(rules)
    ensures Merge(rules, pdus, forks).Ok?
  {
  }

  lemma AdmitsPlain(rules: Rules, db: Store, id: EventId, w: Wire, before: StateMap)
    requires Bans(rules) && Plain(w) && ResolveOver(rules, db, w.prevEvents, None) == Ok(before)
    requires w.stateKey.Some? || BAN !in before
    ensures Admit(rules, db, id, w, None) == Ok((PduOf(id, w), After(PduOf(id, w), before)))
  {
    assert FromWire(rules, id, w) == Ok(PduOf(id, w));
    assert AuthState(db.pdus, []) == map[];
  }

  /** What `accept` answers: a fitting event is stored, and soft-failed exactly if it is a message and the
      room is closed. */
  lemma Accepts(rules: Rules, w: World, r: Room, id: EventId, wire: Wire)
    requires Bans(rules) && Sound(rules, w) && Shows(w, r) && Fits(r, id, wire)
    ensures var a := Acceptance(rules, w.db, id, wire, None);
            && a.Ok? && a.value.pdu == PduOf(id, wire) && a.value.eventId == id
            && (BAN in a.value.stateAfter <==> wire.stateKey.Some?)
            && (a.value.softFailed <==> wire.stateKey.None? && r.Closed())
  {
    ResolvedBan(rules, w.db, wire.prevEvents);
    var before := ResolveOver(rules, w.db, wire.prevEvents, None).value;
    AdmitsPlain(rules, w.db, id, wire, before);
    TipsHaveStates(w);
    PlacesAlways(rules, w.db, PduOf(id, wire), After(PduOf(id, wire), before), CurrentState(rules, w.db).value);
    AcceptedIsLive(rules, w, id, wire);
    CurrentBan(rules, w, r);
  }

  lemma CurrentBan(rules: Rules, w: World, r: Room)
    requires Bans(rules) && Sound(rules, w) && Shows(w, r)
    ensures CurrentState(rules, w.db).Ok?
    ensures BAN in StatePdus(w.db.pdus, CurrentState(rules, w.db).value) <==> r.Closed()
    ensures w.db.extremities == [] ==> !r.Closed()
  {
    TipsHaveStates(w);
    ResolvedBan(rules, w.db, w.db.extremities);
    ResolveStored(rules, w.db, w.db.extremities);
    var current := CurrentState(rules, w.db).value;
    assert BAN in current ==> current[BAN] in current.Values;
    assert forall e :: e in w.db.extremities <==> e in Elems(w.db.extremities);
    assert forall e :: e in Tips(w) <==> e in r.live && forall f :: f in r.live && f in r.prev ==> e !in r.prev[f];
  }

  /** One more event, in the store and in the room. */
  lemma Follows(rules: Rules, steps: seq<Step>, r: Room, id: EventId, wire: Wire)
    requires Bans(rules) && Shows(Run(rules, steps), r) && Fits(r, id, wire)
    ensures Shows(Run(rules, steps + [Receive(id, wire)]), Next(r, id, wire))
  {
    assert (steps + [Receive(id, wire)])[..|steps|] == steps;
    CoresAreChains(rules);
    RunsAreSound(rules, steps);
    Accepts(rules, Run(rules, steps), r, id, wire);
    Records(rules, Run(rules, steps), r, id, wire);
  }

  lemma Records(rules: Rules, w: World, r: Room, id: EventId, wire: Wire)
    requires Shows(w, r) && id !in r.prev
    requires var a := Acceptance(rules, w.db, id, wire, None);
             && a.Ok? && a.value.pdu == PduOf(id, wire) && a.value.eventId == id
             && (BAN in a.value.stateAfter <==> wire.stateKey.Some?)
             && (a.value.softFailed <==> wire.stateKey.None? && r.Closed())
    ensures Shows(Apply(rules, w, Receive(id, wire)), Next(r, id, wire))
  {
    RecordShows(w, Acceptance(rules, w.db, id, wire, None).value, r, id, wire);
  }

  lemma RecordShows(w: World, a: Accepted, r: Room, id: EventId, wire: Wire)
    requires Shows(w, r) && id !in r.prev && a.pdu == PduOf(id, wire) && a.eventId == id
    requires BAN in a.stateAfter <==> wire.stateKey.Some?
    requires a.softFailed <==> wire.stateKey.None? && r.Closed()
    ensures Shows(Record(w, a), Next(r, id, wire))
  {
  }

  datatype Sent = Sent(id: EventId, wire: Wire)

  function StepsOf(sent: seq<Sent>): (r: seq<Step>) {
    seq(|sent|, i requires 0 <= i < |sent| => Receive(sent[i].id, sent[i].wire))
  }

  ghost function RoomOf(sent: seq<Sent>): Room {
    if sent == [] then Room(map[], {}, {})
    else Next(RoomOf(sent[..|sent| - 1]), sent[|sent| - 1].id, sent[|sent| - 1].wire)
  }

  ghost predicate AllFit(sent: seq<Sent>) {
    sent == [] || (AllFit(sent[..|sent| - 1])
                   && Fits(RoomOf(sent[..|sent| - 1]), sent[|sent| - 1].id, sent[|sent| - 1].wire))
  }

  lemma {:induction false} RunIsRoom(rules: Rules, sent: seq<Sent>)
    requires Bans(rules) && AllFit(sent)
    ensures Shows(Run(rules, StepsOf(sent)), RoomOf(sent))
    decreases |sent|
  {
    if sent != [] {
      var front, last := sent[..|sent| - 1], sent[|sent| - 1];
      RunIsRoom(rules, front);
      StepsOfNext(sent);
      Follows(rules, StepsOf(front), RoomOf(front), last.id, last.wire);
    }
  }

  lemma StepsOfNext(sent: seq<Sent>)
    requires sent != []
    ensures var last := sent[|sent| - 1];
            StepsOf(sent) == StepsOf(sent[..|sent| - 1]) + [Receive(last.id, last.wire)]
  {
  }

  ghost predicate AreTips(r: Room, tips: set<EventId>) {
    forall e :: e in tips <==> e in r.live && forall f :: f in r.live && f in r.prev ==> e !in r.prev[f]
  }

  /** The extremities, told from the room. */
  lemma ExtremitiesShown(rules: Rules, sent: seq<Sent>, tips: set<EventId>)
    requires Bans(rules) && AllFit(sent) && AreTips(RoomOf(sent), tips)
    ensures var w := Run(rules, StepsOf(sent));
            && Sound(rules, w) && Shows(w, RoomOf(sent)) && Tips(w) == tips
            && Elems(w.db.extremities) == tips && |w.db.extremities| == |tips|
  {
    RunIsRoom(rules, sent);
    CoresAreChains(rules);
    RunsAreSound(rules, StepsOf(sent));
    NoDupSize(Run(rules, StepsOf(sent)).db.extremities);
  }

  // ----- Three kinds of run -----

  /** In a closed room with open branches a message is soft-failed and leaves `forked` unset. */
  lemma ForkedUnset(rules: Rules, sent: seq<Sent>, tips: set<EventId>, x: Sent)
    requires Bans(rules) && AllFit(sent) && AreTips(RoomOf(sent), tips) && RoomOf(sent).Closed()
    requires Fits(RoomOf(sent), x.id, x.wire) && x.wire.stateKey.None?
    ensures var a := Acceptance(rules, Run(rules, StepsOf(sent)).db, x.id, x.wire, None);
            a.Ok? && a.value.softFailed && |a.value.extremities| == |tips| && !a.value.forked
  {
    ExtremitiesShown(rules, sent, tips);
    Accepts(rules, Run(rules, StepsOf(sent)), RoomOf(sent), x.id, x.wire);
    SoftFailureLeaves(rules, Run(rules, StepsOf(sent)).db, x.id, x.wire, None);
  }

  /** Rooms of the same events with different tips do not agree. */
  lemma Disagree(rules: Rules, s: seq<Sent>, p: set<EventId>, t: seq<Sent>, q: set<EventId>)
    requires Bans(rules) && AllFit(s) && AllFit(t) && AreTips(RoomOf(s), p) && AreTips(RoomOf(t), q) && p != q
    requires RoomOf(s).prev.Keys == RoomOf(t).prev.Keys
    ensures Run(rules, StepsOf(s)).db.pdus.Keys == Run(rules, StepsOf(t)).db.pdus.Keys
    ensures !RoomsAgree(rules, StepsOf(s), StepsOf(t))
  {
    ExtremitiesShown(rules, s, p);
    ExtremitiesShown(rules, t, q);
  }

  /** Rooms with the same tips agree, whatever else is live. */
  lemma AgreeAnyway(rules: Rules, s: seq<Sent>, t: seq<Sent>, tips: set<EventId>)
    requires Bans(rules) && AllFit(s) && AllFit(t) && AreTips(RoomOf(s), tips) && AreTips(RoomOf(t), tips)
    requires IdBindsCore(rules) && IdsComputed(rules, StepsOf(s)) && IdsComputed(rules, StepsOf(t))
    ensures RoomsAgree(rules, StepsOf(s), StepsOf(t))
    ensures forall e :: Passed(rules, StepsOf(s), e) <==> e in RoomOf(s).live
    ensures forall e :: Passed(rules, StepsOf(t), e) <==> e in RoomOf(t).live
  {
    ExtremitiesShown(rules, s, tips);
    ExtremitiesShown(rules, t, tips);
    RunsAlike(rules, StepsOf(s), StepsOf(t));
    WorldsConverge(rules, Run(rules, StepsOf(s)), Run(rules, StepsOf(t)));
    forall e ensures Passed(rules, StepsOf(s), e) <==> e in RoomOf(s).live { LiveIsPassed(rules, StepsOf(s), e); }
    forall e ensures Passed(rules, StepsOf(t), e) <==> e in RoomOf(t).live { LiveIsPassed(rules, StepsOf(t), e); }
  }

  // ----- The rules, with ids that bind their events -----

  const P := Message("p")
  const Q := Message("q")
  const X := Message("x")
  const A := Ban("a", ["$p"])
  const B := Ban("b", [])
  const Z := Ban("z", ["$b", "$p"])

  function Hash(w: Wire): (h: Option<string>) {
    if w in {P, Q, X, A, B, Z} then Some(w.proof) else None
  }

  const Banning := Rules(_ => true, _ => true, _ => true, (_, _) => true,
                         (p: Pdu, s: map<StateKey, Pdu>) => p.IsState() || BAN !in s,
                         (_, _, _, _) => None, (forks, chains, _) => Some(FirstBan(forks, chains)), _ => None,
                         Hash, (_, c) => c)

  lemma {:induction false} FirstBanInChains(forks: seq<StateMap>, chains: seq<set<EventId>>, k: StateKey)
    requires k in FirstBan(forks, chains)
    ensures exists i :: 0 <= i < |chains| && FirstBan(forks, chains)[k] in chains[i]
    decreases |forks|
  {
    if !(BAN in forks[0] && forks[0][BAN] in chains[0]) {
      FirstBanInChains(forks[1..], chains[1..], k);
      var i :| 0 <= i < |chains| - 1 && FirstBan(forks, chains)[k] in chains[1..][i];
      assert chains[i + 1] == chains[1..][i];
    } else {
      assert FirstBan(forks, chains)[k] in chains[0];
    }
  }

  lemma BanningBans()
    ensures Bans(Banning)
  {
    forall forks, chains, p, k | k in FirstBan(forks, chains)
      ensures exists i :: 0 <= i < |chains| && Banning.resolve(forks, chains, p).value[k] in chains[i]
    {
      FirstBanInChains(forks, chains, k);
    }
  }

  lemma IdsBind()
    ensures IdBindsCore(Banning)
  {
    forall v, w, id | Banning.IdOf(v) == Some(id) && Banning.IdOf(w) == Some(id) ensures v == w {
      assert "$" + v.proof == "$" + w.proof;
      assert v.proof == ("$" + v.proof)[1..] && w.proof == ("$" + w.proof)[1..];
    }
  }

  lemma IdsAre()
    ensures Banning.IdOf(P) == Some("$p") && Banning.IdOf(Q) == Some("$q") && Banning.IdOf(A) == Some("$a")
    ensures Banning.IdOf(B) == Some("$b") && Banning.IdOf(Z) == Some("$z")
  {
    assert "$" + "p" == "$p" && "$" + "q" == "$q" && "$" + "a" == "$a" && "$" + "b" == "$b" && "$" + "z" == "$z";
  }

  // ----- The witnesses -----

  const Branching := [Sent("$p", P), Sent("$q", Q), Sent("$a", A)]
  const MessageFirst := [Sent("$p", P), Sent("$b", B)]
  const BanFirst := [Sent("$b", B), Sent("$p", P)]
  const MessageFirstClosed := [Sent("$p", P), Sent("$b", B), Sent("$z", Z)]
  const BanFirstClosed := [Sent("$b", B), Sent("$p", P), Sent("$z", Z)]

  lemma IdsOfWitnesses()
    ensures IdsComputed(Banning, StepsOf(Branching))
    ensures IdsComputed(Banning, StepsOf(MessageFirst)) && IdsComputed(Banning, StepsOf(BanFirst))
    ensures IdsComputed(Banning, StepsOf(MessageFirstClosed)) && IdsComputed(Banning, StepsOf(BanFirstClosed))
  {
    IdsAre();
  }

  lemma OneSent(s: Sent)
    requires Plain(s.wire) && s.wire.prevEvents == []
    ensures AllFit([s])
    ensures RoomOf([s]) == Room(map[s.id := []], if s.wire.stateKey.Some? then {s.id} else {}, {s.id})
  {
    assert [s][..0] == [];
    assert AllFit([]) && RoomOf([]) == Room(map[], {}, {});
    assert Fits(RoomOf([]), s.id, s.wire);
  }

  lemma TwoSent(s: Sent, t: Sent)
    requires Plain(s.wire) && Plain(t.wire) && s.wire.prevEvents == t.wire.prevEvents == [] && s.id != t.id
    ensures AllFit([s, t])
    ensures var banned := (if s.wire.stateKey.Some? then {s.id} else {})
            + (if t.wire.stateKey.Some? then {t.id} else {});
            var live := if t.wire.stateKey.Some? || s.wire.stateKey.None? then {s.id, t.id} else {s.id};
            RoomOf([s, t]) == Room(map[s.id := [], t.id := []], banned, live)
  {
    OneSent(s);
    assert [s, t][..1] == [s];
    var r := RoomOf([s]);
    assert r.Closed() <==> s.wire.stateKey.Some? by {
      if s.wire.stateKey.Some? {
        assert s.id in r.banned && s.id in r.live;
      }
    }
  }

  /** A ban after two events. */
  lemma ThirdSent(s: Sent, t: Sent, u: Sent)
    requires Plain(s.wire) && Plain(t.wire) && s.wire.prevEvents == t.wire.prevEvents == [] && s.id != t.id
    requires Plain(u.wire) && u.wire.stateKey.Some? && u.id !in {s.id, t.id}
    requires forall p :: p in u.wire.prevEvents ==> p in {s.id, t.id}
    ensures AllFit([s, t, u])
    ensures var r := RoomOf([s, t]);
            RoomOf([s, t, u]) == Room(r.prev[u.id := u.wire.prevEvents], r.banned + {u.id}, r.live + {u.id})
  {
    TwoSent(s, t);
    assert [s, t, u][..2] == [s, t];
  }

  /** A reachable room with two open branches, and an event it accepts, soft-failed: two extremities
      stay open and `forked` says otherwise. */
  lemma ForkedUnsetOnOpenBranches()
    ensures IdsComputed(Banning, StepsOf(Branching))
    ensures var a := Acceptance(Banning, Run(Banning, StepsOf(Branching)).db, "$x", X, None);
            a.Ok? && a.value.softFailed && |a.value.extremities| == 2 && !a.value.forked
  {
    BanningBans();
    IdsOfWitnesses();
    BranchingRoom();
    ForkedUnset(Banning, Branching, {"$a", "$q"}, Sent("$x", X));
  }

  lemma BranchingRoom()
    ensures AllFit(Branching) && AreTips(RoomOf(Branching), {"$a", "$q"}) && RoomOf(Branching).Closed()
    ensures Fits(RoomOf(Branching), "$x", X)
  {
    TwoSent(Sent("$p", P), Sent("$q", Q));
    ThirdSent(Sent("$p", P), Sent("$q", Q), Sent("$a", A));
    var r := RoomOf(Branching);
    assert "$a" in r.banned && "$a" in r.live;
  }

  lemma OrdersRooms()
    ensures AllFit(MessageFirst) && AreTips(RoomOf(MessageFirst), {"$p", "$b"})
    ensures AllFit(BanFirst) && AreTips(RoomOf(BanFirst), {"$b"})
    ensures RoomOf(MessageFirst).prev.Keys == RoomOf(BanFirst).prev.Keys
  {
    TwoSent(Sent("$p", P), Sent("$b", B));
    TwoSent(Sent("$b", B), Sent("$p", P));
  }

  lemma MessageFirstRoom()
    ensures AllFit(MessageFirstClosed) && AreTips(RoomOf(MessageFirstClosed), {"$z"})
    ensures "$p" in RoomOf(MessageFirstClosed).live
  {
    TwoSent(Sent("$p", P), Sent("$b", B));
    ThirdSent(Sent("$p", P), Sent("$b", B), Sent("$z", Z));
  }

  lemma BanFirstRoom()
    ensures AllFit(BanFirstClosed) && AreTips(RoomOf(BanFirstClosed), {"$z"})
    ensures "$p" !in RoomOf(BanFirstClosed).live
  {
    TwoSent(Sent("$b", B), Sent("$p", P));
    ThirdSent(Sent("$b", B), Sent("$p", P), Sent("$z", Z));
  }

  /** Holding the same events is not enough to agree: the same two events in two orders, under rules that
      meet every hypothesis of `RoomsAgreeExactly`, leave different extremities, because the message that
      comes after the ban is soft-failed. */
  lemma OrderDecidesSoftFailure()
    ensures ReadsCores(Banning) && ReturnsChains(Banning) && IdBindsCore(Banning)
    ensures IdsComputed(Banning, StepsOf(MessageFirst)) && IdsComputed(Banning, StepsOf(BanFirst))
    ensures Run(Banning, StepsOf(MessageFirst)).db.pdus.Keys == Run(Banning, StepsOf(BanFirst)).db.pdus.Keys
    ensures !RoomsAgree(Banning, StepsOf(MessageFirst), StepsOf(BanFirst))
  {
    BanningBans();
    IdsBind();
    IdsOfWitnesses();
    OrdersRooms();
    assert "$p" in {"$p", "$b"} && "$p" !in {"$b"};
    Disagree(Banning, MessageFirst, {"$p", "$b"}, BanFirst, {"$b"});
  }

  /** Nor need every event be answered alike for rooms to agree: a later event that cites both closes the
      difference, and the two servers agree again although the message passed on one of them only. */
  lemma AgreementWithoutEqualAnswers()
    ensures RoomsAgree(Banning, StepsOf(MessageFirstClosed), StepsOf(BanFirstClosed))
    ensures Passed(Banning, StepsOf(MessageFirstClosed), "$p") && !Passed(Banning, StepsOf(BanFirstClosed), "$p")
  {
    BanningBans();
    IdsBind();
    IdsOfWitnesses();
    MessageFirstRoom();
    BanFirstRoom();
    AgreeAnyway(Banning, MessageFirstClosed, BanFirstClosed, {"$z"});
  }
}
