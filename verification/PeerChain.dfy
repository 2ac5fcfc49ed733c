/** Re-verification of the events a peer sends along with a join: are they genuine, is every auth event
    among them, and does each hold up against the state its own auth events name. */
module PeerChain {
  import opened Common
  import opened Sorting
  import opened MatrixEvents
  import opened AuthChain
  import opened Dag
  import opened DagRuns
  import Receipt

  datatype Verified = All | Signatures | Nothing

  /** The signature check against the peer's keys, and whether an event is in its erased form. */
  datatype Seal = Seal(check: Wire -> Verified, skeleton: Wire -> bool)

  /** `verify_wire`: an erased event needs no matching content hash, since it cannot have one. */
  function VerifyWire(seal: Seal, w: Wire): (r: Result<(), Reject>) {
    match seal.check(w)
    case All => Ok(())
    case Signatures => if seal.skeleton(w) then Ok(()) else Err(BadContentHash)
    case Nothing => Err(BadSignature)
  }

  /** One event as received: signature and content hash, id, fields. */
  function ReadWire(rules: Rules, seal: Seal, w: Wire): (r: Result<Pdu, Reject>) {
    var _ :- VerifyWire(seal, w);
    match rules.IdOf(w)
    case None => Err(Malformed)
    case Some(id) => FromWire(rules, id, w)
  }

  /** The events by id; a later copy replaces an earlier one. */
  function Collect(rules: Rules, seal: Seal, events: seq<Wire>): (r: Result<map<EventId, Pdu>, Reject>) {
    if events == [] then Ok(map[])
    else
      var pdus :- Collect(rules, seal, events[..|events| - 1]);
      var p :- ReadWire(rules, seal, events[|events| - 1]);
      Ok(pdus[p.eventId := p])
  }

  /** What is wrong with an event among `pdus`. */
  function Flaw(rules: Rules, pdus: map<EventId, Pdu>, p: Pdu): (r: Option<Reject>) {
    match FirstMissing(pdus, p.authEvents)
    case Some(a) => Some(MissingAuth(a))
    case None =>
      if !rules.independent(p, pdus) then Some(AuthRefused)
      else if !rules.dependent(p, AuthState(pdus, p.authEvents)) then Some(AuthRefused)
      else None
  }

  ghost predicate Stands(rules: Rules, pdus: map<EventId, Pdu>) {
    forall x :: x in pdus ==> Flaw(rules, pdus, pdus[x]).None?
  }

  function DepthOf(pdus: map<EventId, Pdu>, id: EventId): (r: nat) {
    if id in pdus then pdus[id].depth else 0
  }

  /** By depth, then by id. */
  predicate ByDepth(pdus: map<EventId, Pdu>, a: EventId, b: EventId) {
    DepthOf(pdus, a) < DepthOf(pdus, b) || (DepthOf(pdus, a) == DepthOf(pdus, b) && LexLe(a, b))
  }

  function Order(pdus: map<EventId, Pdu>): (r: (EventId, EventId) -> bool) {
    (a, b) => ByDepth(pdus, a, b)
  }

  ghost predicate InOrder(pdus: map<EventId, Pdu>, ids: seq<EventId>) {
    NoDup(ids) && Elems(ids) == pdus.Keys && Sorted(Order(pdus), ids)
  }

  lemma ByDepthIsOrder(pdus: map<EventId, Pdu>)
    ensures TotalPreorder(Order(pdus))
    ensures forall x, y :: Order(pdus)(x, y) && Order(pdus)(y, x) ==> x == y
  {
    LexIsOrder();
  }

  /** There is one such order, so the answer does not depend on how a hash map lists its values. */
  lemma OrderUnique(pdus: map<EventId, Pdu>, s: seq<EventId>, t: seq<EventId>)
    requires InOrder(pdus, s) && InOrder(pdus, t)
    ensures s == t
  {
    ByDepthIsOrder(pdus);
    SortedUnique(Order(pdus), s, t);
  }

  /** The error of the first flawed event in the order. */
  ghost predicate FirstFlaw(rules: Rules, pdus: map<EventId, Pdu>, order: seq<EventId>, i: nat, e: Reject) {
    && i < |order| && (forall j :: 0 <= j <= i ==> order[j] in pdus)
    && Flaw(rules, pdus, pdus[order[i]]) == Some(e)
    && (forall j :: 0 <= j < i ==> Flaw(rules, pdus, pdus[order[j]]).None?)
  }

  method Listed(pdus: map<EventId, Pdu>) returns (ids: seq<EventId>)
    ensures InOrder(pdus, ids)
  {
    var left := pdus.Keys;
    ids := [];
    while left != {}
      invariant left <= pdus.Keys && Elems(ids) == pdus.Keys - left && NoDup(ids)
      decreases left
    {
      var x :| x in left;
      assert forall y :: y in ids ==> y in Elems(ids);
      assert Elems(ids + [x]) == Elems(ids) + {x};
      ids := ids + [x];
      left := left - {x};
    }
    var sorted := Sort(Order(pdus), ids);
    ByDepthIsOrder(pdus);
    SortSorts(Order(pdus), ids);
    MultisetMembers(ids, sorted);
    ids := sorted;
  }

  method CollectLoop(rules: Rules, seal: Seal, events: seq<Wire>) returns (r: Result<map<EventId, Pdu>, Reject>)
    ensures r == Collect(rules, seal, events)
  {
    var pdus: map<EventId, Pdu> := map[];
    for i := 0 to |events|
      invariant Collect(rules, seal, events[..i]) == Ok(pdus)
    {
      assert events[..i + 1][..i] == events[..i];
      var p := ReadWire(rules, seal, events[i]);
      if p.Err? {
        CollectFails(rules, seal, events, i + 1);
        return Err(p.error);
      }
      pdus := pdus[p.value.eventId := p.value];
    }
    assert events[..|events|] == events;
    return Ok(pdus);
  }

  lemma {:induction false} CollectFails(rules: Rules, seal: Seal, events: seq<Wire>, n: nat)
    requires n <= |events| && Collect(rules, seal, events[..n]).Err?
    ensures Collect(rules, seal, events) == Collect(rules, seal, events[..n])
    decreases |events|
  {
    if n == |events| {
      assert events[..n] == events;
    } else {
      assert events[..|events| - 1][..n] == events[..n];
      CollectFails(rules, seal, events[..|events| - 1], n);
    }
  }

  method FindFlaw(rules: Rules, pdus: map<EventId, Pdu>, order: seq<EventId>) returns (flaw: Option<Reject>, i: nat)
    requires InOrder(pdus, order)
    ensures flaw.None? <==> Stands(rules, pdus)
    ensures flaw.Some? ==> FirstFlaw(rules, pdus, order, i, flaw.value)
  {
    assert forall j :: 0 <= j < |order| ==> order[j] in Elems(order);
    i := 0;
    while i < |order|
      invariant i <= |order| && forall j :: 0 <= j < i ==> Flaw(rules, pdus, pdus[order[j]]).None?
    {
      flaw := Flaw(rules, pdus, pdus[order[i]]);
      if flaw.Some? { return; }
      i := i + 1;
    }
    assert forall x :: x in pdus ==> x in Elems(order);
    flaw := None;
  }

  // ----- What is verified -----

  /** The signatures are valid, and so is the content hash unless the event is in its erased form. */
  predicate Sealed(seal: Seal, w: Wire) {
    seal.check(w) == All || (seal.check(w) == Signatures && seal.skeleton(w))
  }

  /** `w` is a genuine form of the event `p` under the id that its hash gives. */
  ghost predicate Genuine(rules: Rules, seal: Seal, w: Wire, p: Pdu) {
    Sealed(seal, w) && rules.IdOf(w) == Some(p.eventId) && Receipt.Carries(rules, p.eventId, w, p)
  }

  ghost predicate IsGenuine(rules: Rules, seal: Seal, w: Wire) {
    exists p :: Genuine(rules, seal, w, p)
  }

  /** What is wrong with a wire form: no valid signature, a content hash that does not match, or no event. */
  ghost predicate Spoilt(rules: Rules, seal: Seal, w: Wire, e: Reject) {
    match seal.check(w)
    case Nothing => e == BadSignature
    case Signatures =>
      if seal.skeleton(w) then e == Malformed && NoEvent(rules, w) else e == BadContentHash
    case All => e == Malformed && NoEvent(rules, w)
  }

  ghost predicate NoEvent(rules: Rules, w: Wire) {
    forall p: Pdu :: rules.IdOf(w) == Some(p.eventId) ==> !Receipt.Carries(rules, p.eventId, w, p)
  }

  /** A wire form is read as the event it is a genuine form of, if there is one, and else refused for what
      is wrong with it. */
  lemma ReadsExactly(rules: Rules, seal: Seal, w: Wire)
    ensures forall p :: ReadWire(rules, seal, w) == Ok(p) <==> Genuine(rules, seal, w, p)
    ensures forall e :: ReadWire(rules, seal, w) == Err(e) <==> Spoilt(rules, seal, w, e)
  {
    forall p: Pdu ensures FromWire(rules, p.eventId, w) == Ok(p) <==> Receipt.Carries(rules, p.eventId, w, p) {
      Receipt.ReadsExactly(rules, p.eventId, w, p);
    }
    var id := rules.IdOf(w);
    if id.Some? {
      var p := FromWire(rules, id.value, w);
      assert p.Ok? ==> p.value.eventId == id.value;
      assert p.Err? ==> p == Err(Malformed);
    }
  }

  /** `pdus` has each event by its id, as the last of its forms among `events` has it. */
  ghost predicate LastForms(rules: Rules, seal: Seal, events: seq<Wire>, pdus: map<EventId, Pdu>) {
    && (forall i :: 0 <= i < |events| ==> IdIn(rules, events[i], pdus))
    && (forall x :: x in pdus ==> exists i :: IsLastForm(rules, seal, events, i, x, pdus[x]))
  }

  predicate IdIn(rules: Rules, w: Wire, pdus: map<EventId, Pdu>) {
    rules.IdOf(w).Some? && rules.IdOf(w).value in pdus
  }

  ghost predicate IsLastForm(rules: Rules, seal: Seal, events: seq<Wire>, i: int, x: EventId, p: Pdu) {
    && 0 <= i < |events| && p.eventId == x && Genuine(rules, seal, events[i], p)
    && forall j :: i < j < |events| ==> rules.IdOf(events[j]) != Some(x)
  }

  /** The first spoilt form, if any, decides. */
  ghost predicate FirstSpoilt(rules: Rules, seal: Seal, events: seq<Wire>, i: nat, e: Reject) {
    && i < |events| && Spoilt(rules, seal, events[i], e)
    && forall j :: 0 <= j < i ==> IsGenuine(rules, seal, events[j])
  }

  ghost predicate CollectedRight(rules: Rules, seal: Seal, events: seq<Wire>, r: Result<map<EventId, Pdu>, Reject>) {
    if r.Ok? then LastForms(rules, seal, events, r.value) && forall w :: w in events ==> IsGenuine(rules, seal, w)
    else exists i: nat :: FirstSpoilt(rules, seal, events, i, r.error)
  }

  lemma {:induction false} CollectsExactly(rules: Rules, seal: Seal, events: seq<Wire>)
    ensures CollectedRight(rules, seal, events, Collect(rules, seal, events))
    decreases |events|
  {
    if events != [] {
      var n := |events| - 1;
      var before, w := events[..n], events[n];
      assert before + [w] == events;
      CollectsExactly(rules, seal, before);
      var r, p := Collect(rules, seal, before), ReadWire(rules, seal, w);
      if r.Err? {
        var i: nat :| FirstSpoilt(rules, seal, before, i, r.error);
        SpoiltEarly(rules, seal, events, n, i, r.error);
      } else if p.Err? {
        SpoiltLast(rules, seal, before, w, p.error);
      } else {
        ReadsExactly(rules, seal, w);
        LastFormsNext(rules, seal, before, w, r.value, p.value);
        assert Collect(rules, seal, events) == Ok(r.value[p.value.eventId := p.value]);
      }
    }
  }

  lemma SpoiltLast(rules: Rules, seal: Seal, before: seq<Wire>, w: Wire, e: Reject)
    requires (forall v :: v in before ==> IsGenuine(rules, seal, v)) && ReadWire(rules, seal, w) == Err(e)
    ensures FirstSpoilt(rules, seal, before + [w], |before|, e)
  {
    ReadsExactly(rules, seal, w);
    forall j | 0 <= j < |before| ensures IsGenuine(rules, seal, (before + [w])[j]) { assert before[j] in before; }
  }

  lemma SpoiltEarly(rules: Rules, seal: Seal, events: seq<Wire>, n: nat, i: nat, e: Reject)
    requires n <= |events| && FirstSpoilt(rules, seal, events[..n], i, e)
    ensures FirstSpoilt(rules, seal, events, i, e)
  {
    forall j | 0 <= j < i ensures IsGenuine(rules, seal, events[j]) {
      assert events[..n][j] == events[j];
    }
  }

  lemma LastFormsNext(rules: Rules, seal: Seal, before: seq<Wire>, w: Wire, pdus: map<EventId, Pdu>, p: Pdu)
    requires LastForms(rules, seal, before, pdus) && Genuine(rules, seal, w, p)
    ensures LastForms(rules, seal, before + [w], pdus[p.eventId := p])
  {
    var events, more := before + [w], pdus[p.eventId := p];
    forall i | 0 <= i < |events| ensures IdIn(rules, events[i], more) {
      assert i < |before| ==> IdIn(rules, before[i], pdus);
    }
    forall x | x in more ensures exists i :: IsLastForm(rules, seal, events, i, x, more[x]) {
      if x == p.eventId {
        assert IsLastForm(rules, seal, events, |before|, x, p);
      } else {
        var i :| IsLastForm(rules, seal, before, i, x, pdus[x]);
        assert IsLastForm(rules, seal, events, i, x, pdus[x]) by {
          forall j | i < j < |events| ensures rules.IdOf(events[j]) != Some(x) {
            assert j < |before| ==> events[j] == before[j];
          }
        }
      }
    }
  }

  /** An event among `pdus` is flawed if one of its auth events is not among them, which the first such
      says, or if the rules refuse it on the strength of its auth events. */
  lemma FlawsExactly(rules: Rules, pdus: map<EventId, Pdu>, p: Pdu)
    ensures var r, held := Flaw(rules, pdus, p), Receipt.HasAuth(Store(pdus, map[], []), p);
            && (forall i: nat :: Receipt.FirstAbsent(Store(pdus, map[], []), p, i)
                  ==> r == Some(MissingAuth(p.authEvents[i])))
            && (held ==> var stands := rules.independent(p, pdus) && rules.dependent(p, AuthState(pdus, p.authEvents));
                         r == if stands then None else Some(AuthRefused))
  {
    forall i: nat | Receipt.FirstAbsent(Store(pdus, map[], []), p, i)
      ensures FirstMissing(pdus, p.authEvents) == Some(p.authEvents[i])
    {
      Receipt.MissingFirst(pdus, p.authEvents, i);
    }
  }

  /** `verify_auth_chain`: it succeeds exactly when every event can be read and stands, and then lists
      the events once each, by depth and id; otherwise it names the first thing wrong. */
  method VerifyAuthChain(rules: Rules, seal: Seal, events: seq<Wire>) returns (r: Result<seq<EventId>, Reject>)
    ensures var read := Collect(rules, seal, events);
            && (r.Ok? <==> read.Ok? && Stands(rules, read.value))
            && (r.Ok? ==> InOrder(read.value, r.value))
            && (read.Err? ==> r == Err(read.error))
            && (read.Ok? && r.Err?
                ==> exists order, i :: InOrder(read.value, order) && FirstFlaw(rules, read.value, order, i, r.error))
    ensures r.Ok? ==> forall w :: w in events ==> IsGenuine(rules, seal, w)
    ensures r.Ok? ==> exists pdus :: LastForms(rules, seal, events, pdus) && Stands(rules, pdus)
                                     && InOrder(pdus, r.value)
    ensures r.Err? ==> || (exists i: nat :: FirstSpoilt(rules, seal, events, i, r.error))
                       || (exists pdus, order, i :: LastForms(rules, seal, events, pdus) && InOrder(pdus, order)
                                                    && FirstFlaw(rules, pdus, order, i, r.error))
  {
    CollectsExactly(rules, seal, events);
    var read := CollectLoop(rules, seal, events);
    if read.Err? { return Err(read.error); }
    var pdus := read.value;
    var order := Listed(pdus);
    var flaw, i := FindFlaw(rules, pdus, order);
    if flaw.Some? {
      assert InOrder(pdus, order) && FirstFlaw(rules, pdus, order, i, flaw.value);
      return Err(flaw.value);
    }
    return Ok(order);
  }

  // ----- What the answer is worth -----

  /** Copies of one event among `events` read alike. */
  ghost predicate Unambiguous(rules: Rules, seal: Seal, events: seq<Wire>) {
    forall v, w :: v in events && w in events && ReadWire(rules, seal, v).Ok? && ReadWire(rules, seal, w).Ok?
      && ReadWire(rules, seal, v).value.eventId == ReadWire(rules, seal, w).value.eventId
      ==> ReadWire(rules, seal, v) == ReadWire(rules, seal, w)
  }

  /** `pdus` holds what the events read as: every one of them, by id, and nothing else. */
  ghost predicate Gathers(rules: Rules, seal: Seal, events: seq<Wire>, pdus: map<EventId, Pdu>) {
    && (forall w :: w in events ==> ReadWire(rules, seal, w).Ok? && ReadWire(rules, seal, w).value.eventId in pdus)
    && (forall x :: x in pdus
          ==> pdus[x].eventId == x && exists w :: w in events && ReadWire(rules, seal, w) == Ok(pdus[x]))
  }

  lemma {:induction false} CollectExact(rules: Rules, seal: Seal, events: seq<Wire>)
    ensures Collect(rules, seal, events).Ok? <==> forall w :: w in events ==> ReadWire(rules, seal, w).Ok?
    ensures Collect(rules, seal, events).Ok? ==> Gathers(rules, seal, events, Collect(rules, seal, events).value)
    decreases |events|
  {
    if events != [] {
      var n := |events| - 1;
      assert events == events[..n] + [events[n]];
      CollectExact(rules, seal, events[..n]);
      if Collect(rules, seal, events).Ok? {
        var pdus, p := Collect(rules, seal, events[..n]).value, ReadWire(rules, seal, events[n]).value;
        GathersNext(rules, seal, events[..n], events[n], pdus, p);
      }
    }
  }

  lemma GathersNext(rules: Rules, seal: Seal, events: seq<Wire>, w: Wire, pdus: map<EventId, Pdu>, p: Pdu)
    requires Gathers(rules, seal, events, pdus) && ReadWire(rules, seal, w) == Ok(p)
    ensures Gathers(rules, seal, events + [w], pdus[p.eventId := p])
  {
    assert forall v :: v in events + [w] <==> v in events || v == w;
  }

  lemma GatheredAlike(rules: Rules, seal: Seal, v: seq<Wire>, p: map<EventId, Pdu>, w: seq<Wire>, q: map<EventId, Pdu>,
                      x: EventId)
    requires Gathers(rules, seal, v, p) && Gathers(rules, seal, w, q) && x in p
    requires (forall e :: e in v <==> e in w) && Unambiguous(rules, seal, v)
    ensures x in q && p[x] == q[x]
  {
    var e :| e in v && ReadWire(rules, seal, e) == Ok(p[x]);
    assert e in w;
    var f :| f in w && ReadWire(rules, seal, f) == Ok(q[x]);
    assert f in v;
  }

  lemma GathersUnique(rules: Rules, seal: Seal, v: seq<Wire>, p: map<EventId, Pdu>, w: seq<Wire>, q: map<EventId, Pdu>)
    requires Gathers(rules, seal, v, p) && Gathers(rules, seal, w, q)
    requires (forall e :: e in v <==> e in w) && Unambiguous(rules, seal, v)
    ensures p == q
  {
    forall x | x in p ensures x in q && p[x] == q[x] {
      GatheredAlike(rules, seal, v, p, w, q, x);
    }
    forall x | x in q ensures x in p {
      var e :| e in w && ReadWire(rules, seal, e) == Ok(q[x]);
      assert e in v;
    }
  }

  /** The answer depends only on which events were sent, not on their order or on repetitions. */
  lemma SameEventsSameAnswer(rules: Rules, seal: Seal, v: seq<Wire>, w: seq<Wire>)
    requires (forall e :: e in v <==> e in w) && Unambiguous(rules, seal, v)
    ensures Collect(rules, seal, v).Ok? == Collect(rules, seal, w).Ok?
    ensures Collect(rules, seal, v).Ok? ==> Collect(rules, seal, v) == Collect(rules, seal, w)
  {
    CollectExact(rules, seal, v);
    CollectExact(rules, seal, w);
    if Collect(rules, seal, v).Ok? {
      GathersUnique(rules, seal, v, Collect(rules, seal, v).value, w, Collect(rules, seal, w).value);
    }
  }

  /** A verified set is closed: it holds the whole auth chain of every event in it. */
  lemma VerifiedHoldsChains(rules: Rules, pdus: map<EventId, Pdu>, ids: set<EventId>)
    requires Stands(rules, pdus) && ids <= pdus.Keys
    ensures Chain(pdus, ids) <= pdus.Keys
  {
    forall a | a in Cited(pdus) ensures a in pdus {
      var x :| x in pdus && a in pdus[x].authEvents;
      assert Flaw(rules, pdus, pdus[x]).None?;
      assert FirstMissing(pdus, pdus[x].authEvents).None?;
    }
    ChainStored(pdus, ids);
  }

  /** The order is by depth, and among equal depths by id. */
  lemma OrderIsByDepth(pdus: map<EventId, Pdu>, ids: seq<EventId>, i: nat, j: nat)
    requires InOrder(pdus, ids) && i < j < |ids|
    ensures ids[i] in pdus && ids[j] in pdus && pdus[ids[i]].depth <= pdus[ids[j]].depth
    ensures pdus[ids[i]].depth == pdus[ids[j]].depth
            ==> ids[i] < ids[j] || exists n: nat :: SmallerAt(CharLt, ids[i], ids[j], n)
  {
    assert ids[i] in Elems(ids) && ids[j] in Elems(ids);
    assert Order(pdus)(ids[i], ids[j]);
    LexLeExactly(ids[i], ids[j]);
    assert ids[i] != ids[j];
  }

  lemma PositionByDepth(pdus: map<EventId, Pdu>, order: seq<EventId>, i: nat, j: nat)
    requires InOrder(pdus, order) && i < |order| && j < |order|
    ensures j < i <==> order[j] != order[i] && ByDepth(pdus, order[j], order[i])
  {
    ByDepthIsOrder(pdus);
    assert i < j ==> Order(pdus)(order[i], order[j]);
    assert j < i ==> Order(pdus)(order[j], order[i]);
    assert Order(pdus)(order[i], order[j]) && Order(pdus)(order[j], order[i]) ==> order[i] == order[j];
  }

  /** The order puts every event after its auth events exactly when the sender's depths do (with the
      id deciding between equal depths); nothing else in the check enforces it. */
  lemma CausalOrder(rules: Rules, pdus: map<EventId, Pdu>, order: seq<EventId>)
    requires Stands(rules, pdus) && InOrder(pdus, order)
    ensures (forall i, a :: 0 <= i < |order| && order[i] in pdus && a in pdus[order[i]].authEvents ==> a in order[..i])
            <==> (forall x, a :: x in pdus && a in pdus[x].authEvents ==> a != x && ByDepth(pdus, a, x))
  {
    forall i, a | 0 <= i < |order| && order[i] in pdus && a in pdus[order[i]].authEvents
      ensures a in order[..i] <==> a != order[i] && ByDepth(pdus, a, order[i])
    {
      AuthHasPosition(rules, pdus, order, i, a);
    }
    assert forall x :: x in pdus ==> x in Elems(order);
  }

  lemma AuthHasPosition(rules: Rules, pdus: map<EventId, Pdu>, order: seq<EventId>, i: nat, a: EventId)
    requires Stands(rules, pdus) && InOrder(pdus, order) && i < |order| && order[i] in pdus
             && a in pdus[order[i]].authEvents
    ensures a in order[..i] <==> a != order[i] && ByDepth(pdus, a, order[i])
  {
    assert Flaw(rules, pdus, pdus[order[i]]).None?;
    assert a in Elems(order);
    var j :| 0 <= j < |order| && order[j] == a;
    PositionByDepth(pdus, order, i, j);
    assert j < i ==> order[..i][j] == a;
  }

  /** Depths come from the wire unchecked: here an event of depth 1 cites one of depth 2, the check
      passes, and the event comes before its auth event. */
  lemma AuthAfterCiter() returns (rules: Rules, seal: Seal, events: seq<Wire>, order: seq<EventId>)
    ensures var read := Collect(rules, seal, events);
            && read.Ok? && Stands(rules, read.value) && InOrder(read.value, order)
            && order == ["$a", "$b"] && "$b" in read.value["$a"].authEvents
  {
    var b := Wire(Some("r"), Some("u"), Some("t"), Some(""), Some(0), None, [], [], Some(2), "b");
    var a := b.(authEvents := ["$b"], depth := Some(1), proof := "a");
    rules := Rules(_ => true, _ => true, _ => true, (_, _) => true, (_, _) => true, (_, _, _, _) => None,
                   (_, _, _) => None, _ => None, (w: Wire) => Some(w.proof), (_, c) => c);
    seal := Seal(_ => All, _ => false);
    events := [a, b];
    order := ["$a", "$b"];
    assert "$" + "a" == "$a" && "$" + "b" == "$b";
    var p, q := FromWire(rules, "$a", a).value, FromWire(rules, "$b", b).value;
    CollectTwo(rules, seal, a, b, p, q);
    InOrderByDepth(map["$a" := p, "$b" := q], "$a", "$b");
  }

  lemma CollectTwo(rules: Rules, seal: Seal, v: Wire, w: Wire, p: Pdu, q: Pdu)
    requires ReadWire(rules, seal, v) == Ok(p) && ReadWire(rules, seal, w) == Ok(q)
    ensures Collect(rules, seal, [v, w]) == Ok(map[p.eventId := p, q.eventId := q])
  {
    assert [v, w][..1] == [v] && [v][..0] == [];
    assert Collect(rules, seal, [v]) == Ok(map[][p.eventId := p]);
  }

  lemma InOrderByDepth(pdus: map<EventId, Pdu>, a: EventId, b: EventId)
    requires pdus.Keys == {a, b} && pdus[a].depth < pdus[b].depth
    ensures InOrder(pdus, [a, b])
  {
  }

  // ----- A server's own events pass -----

  lemma AdmittedStands(rules: Rules, db: Store, id: EventId, w: Wire)
    requires IndependentReads(rules) && Stands(rules, db.pdus) && id !in db.pdus && Admit(rules, db, id, w, None).Ok?
    ensures Stands(rules, db.pdus[id := Admit(rules, db, id, w, None).value.0])
  {
    AdmitGives(rules, db, id, w);
    var pdu := Admit(rules, db, id, w, None).value.0;
    var more := db.pdus[id := pdu];
    forall x | x in more ensures Flaw(rules, more, more[x]).None? {
      assert x != id ==> Flaw(rules, db.pdus, db.pdus[x]).None?;
      FlawKept(rules, db.pdus, more, more[x]);
    }
  }

  /** More events change nothing for an event whose auth events were all there. */
  lemma FlawKept(rules: Rules, pdus: map<EventId, Pdu>, more: map<EventId, Pdu>, p: Pdu)
    requires IndependentReads(rules)
    requires forall a :: a in p.authEvents ==> a in pdus && a in more && pdus[a] == more[a]
    ensures Flaw(rules, pdus, p) == Flaw(rules, more, p)
  {
    AuthStateSame(pdus, more, p.authEvents);
    assert rules.independent(p, pdus) == rules.independent(p, more);
  }

  lemma {:induction false} AuthStateSame(pdus: map<EventId, Pdu>, more: map<EventId, Pdu>, auth: seq<EventId>)
    requires forall a :: a in auth ==> a in pdus && a in more && pdus[a] == more[a]
    ensures AuthState(pdus, auth) == AuthState(more, auth)
    decreases |auth|
  {
    if auth != [] {
      AuthStateSame(pdus, more, auth[..|auth| - 1]);
    }
  }

  /** Whatever a server has accepted, in any run, a peer that is sent all of it finds nothing wrong:
      the auth checks it repeats give the answers they gave at acceptance. */
  lemma {:induction false} RunsReverify(rules: Rules, steps: seq<Step>)
    requires IndependentReads(rules)
    ensures Stands(rules, Run(rules, steps).db.pdus)
    decreases |steps|
  {
    if steps != [] {
      var n := |steps| - 1;
      RunsReverify(rules, steps[..n]);
      ExtremitiesOfRuns(rules, steps[..n]);
      var w := Run(rules, steps[..n]);
      match steps[n]
      case Receive(id, wire) =>
        if Acceptance(rules, w.db, id, wire, None).Ok? {
          ReceivedStands(rules, w, id, wire);
        }
      case Past(id, wire) =>
        if id !in w.db.stateAfter && HistoricAcceptance(rules, w.db, id, wire).Ok? {
          AdmittedStands(rules, w.db, id, wire);
        }
      case Local(d) =>
        if LocalEvent(rules, w.db, d).Ok? {
          var id, wire := LocalIsReceived(rules, w, d);
          ReceivedStands(rules, w, id, wire);
        }
    }
  }

  lemma ReceivedStands(rules: Rules, w: World, id: EventId, wire: Wire)
    requires IndependentReads(rules) && Stands(rules, w.db.pdus) && Acceptance(rules, w.db, id, wire, None).Ok?
    ensures Stands(rules, Record(w, Acceptance(rules, w.db, id, wire, None).value).db.pdus)
  {
    var _ := AcceptanceSteps(rules, w.db, id, wire, None);
    AdmittedStands(rules, w.db, id, wire);
  }
}
