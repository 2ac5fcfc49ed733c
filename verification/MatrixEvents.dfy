/**
 Events of one Matrix room (room version 11) as the DAG layer sees them, and the parts of the Matrix
 rules that this repository takes from a library: they are fields of `Rules`, so every theorem holds
 for any rules that meet the hypotheses it names.
 */
module MatrixEvents {
  import opened Common

  type EventId = string

  datatype StateKey = StateKey(kind: string, key: string)

  type StateMap = map<StateKey, EventId>

  /** A signed wire event: the fields a PDU is read from, and the hashes and signatures (`proof`). */
  datatype Wire = Wire(
    roomId: Option<string>,
    sender: Option<string>,
    kind: Option<string>,
    content: Option<string>,
    ts: Option<nat>,
    stateKey: Option<string>,
    prevEvents: seq<string>,
    authEvents: seq<string>,
    depth: Option<nat>,
    proof: string)

  datatype Pdu = Pdu(
    eventId: EventId,
    roomId: string,
    sender: string,
    ts: nat,
    kind: string,
    content: string,
    stateKey: Option<string>,
    prevEvents: seq<EventId>,
    authEvents: seq<EventId>,
    depth: nat)
  {
    predicate IsState() {
      stateKey.Some?
    }

    function Key(): (k: StateKey)
      requires IsState()
    {
      StateKey(kind, stateKey.value)
    }
  }

  /** What comes from outside: id grammars, the two auth rule checks, the selection of auth events,
      state resolution v2, signing, the reference hash, and what redaction keeps of a content. */
  datatype Rules = Rules(
    validRoom: string -> bool,
    validUser: string -> bool,
    validEvent: string -> bool,
    independent: (Pdu, map<EventId, Pdu>) -> bool,
    dependent: (Pdu, map<StateKey, Pdu>) -> bool,
    authTypes: (string, string, Option<string>, string) -> Option<seq<StateKey>>,
    resolve: (seq<StateMap>, seq<set<EventId>>, map<EventId, Pdu>) -> Option<StateMap>,
    sign: Wire -> Option<string>,
    hash: Wire -> Option<string>,
    keep: (string, string) -> string)
  {
    /** `compute_event_id`: the reference hash behind a `$`, if that parses as an event id. */
    function IdOf(w: Wire): (r: Option<EventId>) {
      match hash(w)
      case None => None
      case Some(h) => if validEvent("$" + h) then Some("$" + h) else None
    }

    /** What is left of an event when its content is erased. */
    function Core(p: Pdu): (r: Pdu) {
      p.(content := keep(p.kind, p.content))
    }
  }

  /** Two stores hold the same event, in full or erased, under an id that both hold. */
  ghost predicate Alike(rules: Rules, p: map<EventId, Pdu>, q: map<EventId, Pdu>) {
    forall x :: x in p && x in q ==> rules.Core(p[x]) == rules.Core(q[x])
  }

  /** Ids do not collide: the reference hash is taken of the erased event, so it binds the rest of it. */
  ghost predicate IdBindsCore(rules: Rules) {
    forall v, w, id ::
      rules.IdOf(v) == Some(id) && rules.IdOf(w) == Some(id) && FromWire(rules, id, v).Ok? && FromWire(rules, id, w).Ok?
      ==> rules.Core(FromWire(rules, id, v).value) == rules.Core(FromWire(rules, id, w).value)
  }

  /** The state-independent rules read only the auth events that the event names. */
  ghost predicate IndependentReads(rules: Rules) {
    forall p: Pdu, m, n :: (forall a :: a in p.authEvents ==> Get(m, a) == Get(n, a))
                              ==> rules.independent(p, m) == rules.independent(p, n)
  }

  datatype Reject =
    | Malformed
    | BadSignature
    | BadContentHash
    | Duplicate
    | MissingPrev(prev: EventId)
    | MissingAuth(auth: EventId)
    | AuthRefused
    | ResolveFailed

  /** `Pdu::from_wire`: required fields must be present and well formed; ids must parse. */
  function FromWire(rules: Rules, id: EventId, w: Wire): (r: Result<Pdu, Reject>)
  {
    if || w.roomId.None? || !rules.validRoom(w.roomId.value)
       || w.sender.None? || !rules.validUser(w.sender.value)
       || w.ts.None? || w.kind.None? || w.content.None?
       || (exists e :: e in w.prevEvents && !rules.validEvent(e))
       || (exists e :: e in w.authEvents && !rules.validEvent(e))
    then Err(Malformed)
    else Ok(Pdu(id, w.roomId.value, w.sender.value, w.ts.value, w.kind.value, w.content.value, w.stateKey,
                w.prevEvents, w.authEvents, if w.depth.Some? then w.depth.value else 0))
  }

  /** `hash_and_sign_event` then the reference hash: the signed form and the event id. */
  function SignTemplate(rules: Rules, w: Wire): (r: Result<(EventId, Wire), Reject>)
  {
    match rules.sign(w)
    case None => Err(Malformed)
    case Some(proof) =>
      var signed := w.(proof := proof);
      match rules.IdOf(signed)
      case None => Err(Malformed)
      case Some(id) => Ok((id, signed))
  }

  /** The auth events the room rules select out of a state: for each selected key, the state's entry. */
  function Select(keys: seq<StateKey>, state: StateMap): (r: seq<EventId>)
    ensures forall e :: e in r <==> exists k :: k in keys && k in state && state[k] == e
  {
    if keys == [] then []
    else
      var rest := Select(keys[1..], state);
      assert keys == [keys[0]] + keys[1..];
      if keys[0] in state then [state[keys[0]]] + rest else rest
  }
}
