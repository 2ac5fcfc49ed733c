/** Runs of the mailbox: any sequence of engine operations from an empty store. */
module MailRuns {
  import opened Common
  import opened MailApi
  import opened MessageIds
  import opened Mailbox

  datatype Op =
    | OpRegister(id: ParticipantId, title: Option<Text>, may: Permissions, secret: Text)
    | OpDeregister(id: ParticipantId)
    | OpRotate(id: ParticipantId, secret: Text)
    | OpRevoke(id: ParticipantId, secret: Text)
    | OpCreateRoom(room: RoomId, now: Millis)
    | OpAddMember(room: RoomId, member: ParticipantId)
    | OpRemoveMember(room: RoomId, member: ParticipantId)
    | OpEnsureSession(account: ParticipantId, session: SessionId, card: SessionCard, now: Millis)
    | OpSetDeclared(session: SessionId, declared: Declared)
    | OpSend(sender: Address, request: SendRequest, now: Millis, nonce: Text)
    | OpAck(reader: Address, messageId: MessageId, now: Millis)
  {
    predicate HasSecret() {
      OpRegister? || OpRotate? || OpRevoke?
    }

    /** The hash input of a send. */
    function Input(): (t: Text)
      requires OpSend?
    {
      Preimage(sender, request, now, Tail(request, nonce))
    }

    predicate Keyed() {
      OpSend? && request.idempotencyKey.Some?
    }

    predicate Unkeyed() {
      OpSend? && request.idempotencyKey.None?
    }

    function Key(): (k: (Address, Text))
      requires Keyed()
    {
      (sender, request.idempotencyKey.value)
    }
  }

  datatype Reply = Handed(secret: Text) | Done | Sent(id: MessageId) | Acked(ack: Ack) | Refused(error: MailError)

  function FromCheck(r: (Mail, Check)): (s: (Mail, Reply)) {
    (r.0, if r.1.Ok? then Done else Refused(r.1.error))
  }

  function FromSecret(r: (Mail, Result<Text, MailError>)): (s: (Mail, Reply)) {
    (r.0, if r.1.Ok? then Handed(r.1.value) else Refused(r.1.error))
  }

  function Step(h: Hashes, m: Mail, op: Op): (r: (Mail, Reply)) {
    match op
    case OpRegister(id, title, may, secret) => FromSecret(Register(h, m, id, title, may, secret))
    case OpDeregister(id) => FromCheck(Deregister(m, id))
    case OpRotate(id, secret) => FromSecret(Rotate(h, m, id, secret))
    case OpRevoke(id, secret) => FromCheck(Revoke(h, m, id, secret))
    case OpCreateRoom(room, now) => FromCheck(CreateRoom(m, room, now))
    case OpAddMember(room, p) => FromCheck(AddMember(m, room, p))
    case OpRemoveMember(room, p) => FromCheck(RemoveMember(m, room, p))
    case OpEnsureSession(account, s, card, now) =>
      var (m', out) := EnsureSession(m, account, s, card, now);
      (m', if out.Ok? then Done else Refused(out.error))
    case OpSetDeclared(s, d) => FromCheck(SetDeclared(m, s, d))
    case OpSend(sender, q, now, nonce) =>
      var (m', out) := Send(h, m, sender, q, now, nonce);
      (m', if out.Ok? then Sent(out.value) else Refused(out.error))
    case OpAck(reader, id, now) =>
      var (m', out) := AckMessage(m, reader, id, now);
      (m', if out.Ok? then Acked(out.value) else Refused(out.error))
  }

  function Run(h: Hashes, ops: seq<Op>): (m: Mail) {
    if ops == [] then EmptyMail else Step(h, Run(h, ops[..|ops| - 1]), ops[|ops| - 1]).0
  }

  function ReplyAt(h: Hashes, ops: seq<Op>, i: nat): (r: Reply)
    requires i < |ops|
  {
    Step(h, Run(h, ops[..i]), ops[i]).1
  }

  /** Participants, rooms and sessions are touched only by their own operations. */
  lemma StepFrame(h: Hashes, m: Mail, op: Op)
    ensures !op.HasSecret() && !op.OpDeregister? ==> Step(h, m, op).0.participants == m.participants
    ensures !op.OpCreateRoom? && !op.OpAddMember? && !op.OpRemoveMember? ==> Step(h, m, op).0.rooms == m.rooms
    ensures !op.OpEnsureSession? && !op.OpSetDeclared? ==> Step(h, m, op).0.sessions == m.sessions
  {
    match op
    case OpSend(sender, q, now, nonce) =>
      assert Step(h, m, op).0 == Send(h, m, sender, q, now, nonce).0;
    case OpAck(reader, id, now) =>
      assert Step(h, m, op).0 == AckMessage(m, reader, id, now).0;
    case OpEnsureSession(account, s, card, now) =>
      assert Step(h, m, op).0 == EnsureSession(m, account, s, card, now).0;
    case _ =>
  }

  lemma RunNext(h: Hashes, ops: seq<Op>, i: nat)
    requires i < |ops|
    ensures Run(h, ops[..i + 1]) == Step(h, Run(h, ops[..i]), ops[i]).0
  {
    assert ops[..i + 1][..i] == ops[..i];
  }

  // ----- Messages -----

  /** No two different hash inputs of the run give one truncated hash. */
  ghost predicate NoCollisions(h: Hashes, ops: seq<Op>) {
    forall i, j ::
      && 0 <= i < |ops| && 0 <= j < |ops| && ops[i].OpSend? && ops[j].OpSend?
      && h.truncated(ops[i].Input()) == h.truncated(ops[j].Input())
      ==> ops[i].Input() == ops[j].Input()
  }

  /** The 16 random bytes of an unkeyed send are not those of another one, and not the last 16 bytes of
      what a keyed send hashes. */
  ghost predicate FreshNonces(ops: seq<Op>) {
    && (forall i :: 0 <= i < |ops| && ops[i].Unkeyed() ==> |ops[i].nonce| == 16)
    && (forall i, j :: 0 <= i < j < |ops| && ops[i].Unkeyed() && ops[j].Unkeyed() ==> ops[i].nonce != ops[j].nonce)
    && (forall i, j :: 0 <= i < |ops| && 0 <= j < |ops| && ops[i].Unkeyed() && ops[j].Keyed()
          ==> !EndsIn(ops[j].Input(), ops[i].nonce))
  }

  lemma UnkeyedInputsApart(ops: seq<Op>, i: nat, j: nat)
    requires FreshNonces(ops) && i < |ops| && j < |ops| && i != j && ops[i].Unkeyed() && ops[j].OpSend?
    ensures ops[i].Input() != ops[j].Input()
  {
    PreimageEndsInTail(ops[i].sender, ops[i].request, ops[i].now, ops[i].nonce);
    if ops[j].Unkeyed() {
      PreimageEndsInTail(ops[j].sender, ops[j].request, ops[j].now, ops[j].nonce);
    }
  }

  ghost predicate ValidSend(op: Op) {
    op.OpSend? && ValidateAddress(op.sender).Ok? && ValidateSend(op.request).Ok?
  }

  /** What matters of a send for accounting: the id it would take and the key it would file. */
  datatype Claim = Claim(id: MessageId, key: Option<(Address, Text)>)

  function ClaimOf(h: Hashes, op: Op): (c: Claim)
    requires op.OpSend?
  {
    Claim(h.truncated(op.Input()), IdempotencyOf(op.sender, op.request))
  }

  /** The claims of the valid sends of a run, by position. */
  ghost function Claims(h: Hashes, ops: seq<Op>): map<nat, Claim> {
    map i: nat | i < |ops| && ValidSend(ops[i]) :: ClaimOf(h, ops[i])
  }

  /** Two sends share an id only if they share a sender and a key. */
  ghost predicate Apart(claims: map<nat, Claim>) {
    forall i, j :: i in claims && j in claims && i < j && claims[i].id == claims[j].id
      ==> claims[i].key.Some? && claims[i].key == claims[j].key
  }

  /** Message `id` was inserted by an earlier send, whose key, if any, is on file. */
  ghost predicate HasOrigin(claims: map<nat, Claim>, n: nat, m: Mail, id: MessageId) {
    exists j :: j in claims && j < n && claims[j].id == id
      && (claims[j].key.Some? ==> claims[j].key.value in m.idempotency)
  }

  ghost predicate Accounted(claims: map<nat, Claim>, n: nat, m: Mail) {
    && Filed(m)
    && (forall id :: id in m.messages ==> HasOrigin(claims, n, m, id))
    && (forall k :: k in m.idempotency ==> m.idempotency[k] in m.messages)
  }

  /** Keyed sends with different keys, or from different addresses, have different hash inputs. */
  lemma DifferentKeysDifferentInputs(a: Op, b: Op)
    requires a.Keyed() && b.Keyed() && a.Key() != b.Key()
    requires ValidateAddress(a.sender).Ok? && ValidateSend(a.request).Ok? && ValidateAddress(b.sender).Ok?
             && ValidateSend(b.request).Ok?
    ensures a.Input() != b.Input()
  {
    if a.Input() == b.Input() {
      KeyedPreimageInjective(a.sender, a.request, a.now, b.sender, b.request, b.now);
    }
  }

  /** Without hash collisions, ids keep sends apart: this is where the hash input being readable
      back is needed. */
  lemma IdsOfRunApart(h: Hashes, ops: seq<Op>)
    requires NoCollisions(h, ops) && FreshNonces(ops)
    ensures Apart(Claims(h, ops))
  {
    forall i: nat, j: nat | i < j < |ops| && ValidSend(ops[i]) && ValidSend(ops[j])
      && ClaimOf(h, ops[i]).id == ClaimOf(h, ops[j]).id
      ensures ops[i].Keyed() && ops[j].Keyed() && ops[i].Key() == ops[j].Key()
    {
      assert h.truncated(ops[i].Input()) == h.truncated(ops[j].Input());
      if ops[i].Unkeyed() {
        UnkeyedInputsApart(ops, i, j);
      } else if ops[j].Unkeyed() {
        UnkeyedInputsApart(ops, j, i);
      } else if ops[i].Keyed() && ops[j].Keyed() && ops[i].Key() != ops[j].Key() {
        DifferentKeysDifferentInputs(ops[i], ops[j]);
      }
    }
  }

  /** A send that inserts takes an id that no stored message has. */
  lemma InsertedIdIsNew(claims: map<nat, Claim>, n: nat, m: Mail)
    requires n in claims && Apart(claims) && Accounted(claims, n, m)
    requires claims[n].key.Some? ==> claims[n].key.value !in m.idempotency
    ensures claims[n].id !in m.messages
  {
    forall id | id in m.messages ensures id != claims[n].id {
      assert HasOrigin(claims, n, m, id);
    }
  }

  /** What one operation does to messages and idempotency keys. */
  ghost predicate MessageEffect(h: Hashes, m: Mail, op: Op, m': Mail, r: Reply) {
    if !op.OpSend? || !r.Sent? then m'.messages == m.messages && m'.idempotency == m.idempotency
    else if op.Keyed() && op.Key() in m.idempotency then m' == m && r.id == m.idempotency[op.Key()]
    else
      var msg := MessageOf(h, op.sender, op.request, op.now, op.nonce);
      && r.id == msg.messageId && Inserted(m, m', msg, IdempotencyOf(op.sender, op.request))
  }

  ghost predicate Inserted(m: Mail, m': Mail, msg: Message, key: Option<(Address, Text)>) {
    && m'.messages == m.messages[msg.messageId := msg]
    && m'.idempotency == if key.Some? then m.idempotency[key.value := msg.messageId] else m.idempotency
  }

  lemma StepMessages(h: Hashes, m: Mail, op: Op)
    ensures MessageEffect(h, m, op, Step(h, m, op).0, Step(h, m, op).1)
    ensures op.OpSend? && Step(h, m, op).1.Sent? ==> ValidSend(op)
  {
    if op.OpSend? && Step(h, m, op).1.Sent? {
      assert CheckSend(h, m, op.sender, op.request, op.now, op.nonce).Ok?;
    }
  }

  /** One map holds all of another, unchanged. */
  ghost predicate Extends<K, V>(a: map<K, V>, b: map<K, V>) {
    forall k :: k in a ==> k in b && b[k] == a[k]
  }

  lemma OriginKept(claims: map<nat, Claim>, n: nat, m: Mail, m': Mail, id: MessageId)
    requires HasOrigin(claims, n, m, id) && Extends(m.idempotency, m'.idempotency)
    ensures HasOrigin(claims, n + 1, m', id)
  {
    var j :| j in claims && j < n && claims[j].id == id
      && (claims[j].key.Some? ==> claims[j].key.value in m.idempotency);
    assert claims[j].id == id && j < n + 1;
  }

  lemma InsertAccounted(claims: map<nat, Claim>, n: nat, m: Mail, m': Mail, msg: Message)
    requires n in claims && Apart(claims) && Accounted(claims, n, m)
    requires claims[n].key.Some? ==> claims[n].key.value !in m.idempotency
    requires msg.messageId == claims[n].id && Inserted(m, m', msg, claims[n].key)
    ensures Accounted(claims, n + 1, m')
    ensures Extends(m.messages, m'.messages) && Extends(m.idempotency, m'.idempotency)
  {
    InsertedIdIsNew(claims, n, m);
    forall id | id in m'.messages ensures HasOrigin(claims, n + 1, m', id) {
      if id == msg.messageId {
        assert claims[n].id == id;
      } else {
        OriginKept(claims, n, m, m', id);
      }
    }
  }

  lemma EffectAccounted(h: Hashes, claims: map<nat, Claim>, n: nat, m: Mail, op: Op, m': Mail, r: Reply)
    requires Apart(claims) && Accounted(claims, n, m)
    requires MessageEffect(h, m, op, m', r) && (op.OpSend? && r.Sent? ==> n in claims && claims[n] == ClaimOf(h, op))
    ensures Accounted(claims, n + 1, m')
    ensures Extends(m.messages, m'.messages) && Extends(m.idempotency, m'.idempotency)
  {
    if op.OpSend? && r.Sent? && !(op.Keyed() && op.Key() in m.idempotency) {
      InsertAccounted(claims, n, m, m', MessageOf(h, op.sender, op.request, op.now, op.nonce));
    } else {
      forall id | id in m'.messages ensures HasOrigin(claims, n + 1, m', id) {
        OriginKept(claims, n, m, m', id);
      }
    }
  }

  lemma SentIsClaimed(h: Hashes, ops: seq<Op>, i: nat)
    requires i < |ops|
    ensures var m := Run(h, ops[..i]);
            && MessageEffect(h, m, ops[i], Step(h, m, ops[i]).0, ReplyAt(h, ops, i))
            && (ops[i].OpSend? && ReplyAt(h, ops, i).Sent?
                ==> i in Claims(h, ops) && Claims(h, ops)[i] == ClaimOf(h, ops[i]))
  {
    StepMessages(h, Run(h, ops[..i]), ops[i]);
  }

  /** In every reachable mailbox each message is filed under its id and came from one send of the run;
      and what was stored stays stored unchanged. */
  lemma {:induction false} RunAccounted(h: Hashes, ops: seq<Op>, i: nat, n: nat)
    requires i <= n <= |ops| && Apart(Claims(h, ops))
    ensures Accounted(Claims(h, ops), n, Run(h, ops[..n]))
    ensures Extends(Run(h, ops[..i]).messages, Run(h, ops[..n]).messages)
    ensures Extends(Run(h, ops[..i]).idempotency, Run(h, ops[..n]).idempotency)
    decreases n
  {
    if n > 0 {
      var m, m', r := Run(h, ops[..n - 1]), Run(h, ops[..n]), ReplyAt(h, ops, n - 1);
      RunNext(h, ops, n - 1);
      RunAccounted(h, ops, if i < n then i else n - 1, n - 1);
      SentIsClaimed(h, ops, n - 1);
      EffectAccounted(h, Claims(h, ops), n - 1, m, ops[n - 1], m', r);
    }
  }

  /** In every reachable mailbox, collisions or not, every message is filed under its own id. */
  lemma {:induction false} RunsAreFiled(h: Hashes, ops: seq<Op>)
    ensures Filed(Run(h, ops))
    decreases |ops|
  {
    if ops != [] {
      RunsAreFiled(h, ops[..|ops| - 1]);
      StepMessages(h, Run(h, ops[..|ops| - 1]), ops[|ops| - 1]);
    }
  }

  /**
   The inbox of every reachable mailbox: what the index queries list for a reader that is no operator is
   exactly what the point predicate lets it read, and there is exactly one page of it.
   */
  lemma InboxOfRuns(h: Hashes, ops: seq<Op>, reader: Address, since: Millis, limit: nat)
    requires ResolveIdentity(Run(h, ops), reader).Ok? && !ResolveIdentity(Run(h, ops), reader).value.1.may.operator
    ensures var m := Run(h, ops);
            var (account, rec) := ResolveIdentity(m, reader).value;
            var own := Own(m, reader, account, since);
            && Filed(m)
            && (forall id :: id in own <==>
                  id in m.messages && m.messages[id].createdAt >= since
                    && IsReadable(m, m.messages[id], reader, account, rec))
            && (exists page :: IsPage(m, page, own, limit))
            && (forall p, q :: IsPage(m, p, own, limit) && IsPage(m, q, own, limit) ==> p == q)
  {
    var m := Run(h, ops);
    var (account, rec) := ResolveIdentity(m, reader).value;
    var own := Own(m, reader, account, since);
    RunsAreFiled(h, ops);
    forall id | id in m.messages
      ensures id in Own(m, reader, account, 0) <==> IsReadable(m, m.messages[id], reader, account, rec)
    {
      ListedIffReadable(m, reader, id);
    }
    var found := Enumerated(m, own);
    SortGivesPage(m, found, own, limit);
    forall p, q | IsPage(m, p, own, limit) && IsPage(m, q, own, limit) ensures p == q {
      PageUnique(m, p, q, own, limit);
    }
  }

  lemma {:induction false} Enumerated(m: Mail, ids: set<MessageId>) returns (found: seq<Message>)
    requires Filed(m) && ids <= m.messages.Keys
    ensures NoDup(found) && Elems(found) == Values(m, ids)
    decreases ids
  {
    found := [];
    if ids != {} {
      var id :| id in ids;
      var rest := Enumerated(m, ids - {id});
      found := rest + [m.messages[id]];
      assert forall x :: x in rest ==> x in Elems(rest);
      assert Values(m, ids) == Values(m, ids - {id}) + {m.messages[id]};
    }
  }

  /** Over every run without hash collisions, messages are never removed, replaced or changed, and
      neither are the ids behind idempotency keys. */
  lemma MessagesOnlyGrow(h: Hashes, ops: seq<Op>, i: nat)
    requires i <= |ops| && NoCollisions(h, ops) && FreshNonces(ops)
    ensures Extends(Run(h, ops[..i]).messages, Run(h, ops).messages)
    ensures Extends(Run(h, ops[..i]).idempotency, Run(h, ops).idempotency)
  {
    IdsOfRunApart(h, ops);
    RunAccounted(h, ops, i, |ops|);
    assert ops[..|ops|] == ops;
  }

  /** The first successful send with a key stores exactly one new message, the one it answers with. */
  lemma FirstKeyedSendInserts(h: Hashes, ops: seq<Op>, i: nat)
    requires i < |ops| && NoCollisions(h, ops) && FreshNonces(ops)
    requires ops[i].Keyed() && ReplyAt(h, ops, i).Sent? && ops[i].Key() !in Run(h, ops[..i]).idempotency
    ensures var m, m', id := Run(h, ops[..i]), Run(h, ops[..i + 1]), ReplyAt(h, ops, i).id;
            var q := ops[i].request;
            && id !in m.messages
            && m'.messages == m.messages[id := Message(id, ops[i].sender, q.to, q.subject, q.body, q.replyTo,
                                                       q.correlation, q.refs, ops[i].now)]
            && m'.idempotency == m.idempotency[ops[i].Key() := id]
  {
    IdsOfRunApart(h, ops);
    RunAccounted(h, ops, i, i);
    RunNext(h, ops, i);
    StepMessages(h, Run(h, ops[..i]), ops[i]);
    InsertedIdIsNew(Claims(h, ops), i, Run(h, ops[..i]));
  }

  /** After a successful keyed send its key is on file with the id it answered. */
  lemma KeyOnFile(h: Hashes, ops: seq<Op>, i: nat)
    requires i < |ops| && ops[i].Keyed() && ReplyAt(h, ops, i).Sent?
    ensures var m' := Run(h, ops[..i + 1]);
            ops[i].Key() in m'.idempotency && m'.idempotency[ops[i].Key()] == ReplyAt(h, ops, i).id
  {
    RunNext(h, ops, i);
    StepMessages(h, Run(h, ops[..i]), ops[i]);
  }

  /** A keyed send that succeeds while its key is on file answers the filed id and changes nothing. */
  lemma FiledKeyAnswers(h: Hashes, m: Mail, op: Op)
    requires op.Keyed() && op.Key() in m.idempotency && Step(h, m, op).1.Sent?
    ensures Step(h, m, op) == (m, Sent(m.idempotency[op.Key()]))
  {
    StepMessages(h, m, op);
  }

  /** Every later successful send of the same address with the same key, whatever its content and
      time, answers the first one's id and changes nothing at all. */
  lemma KeyedSendsAnswerOnce(h: Hashes, ops: seq<Op>, i: nat, j: nat)
    requires i < j < |ops| && NoCollisions(h, ops) && FreshNonces(ops)
    requires ops[i].Keyed() && ops[j].Keyed() && ops[i].Key() == ops[j].Key()
    requires ReplyAt(h, ops, i).Sent? && ReplyAt(h, ops, j).Sent?
    ensures ReplyAt(h, ops, j) == ReplyAt(h, ops, i)
    ensures Run(h, ops[..j + 1]) == Run(h, ops[..j])
  {
    KeyOnFile(h, ops, i);
    IdsOfRunApart(h, ops);
    RunAccounted(h, ops, i + 1, j);
    FiledKeyAnswers(h, Run(h, ops[..j]), ops[j]);
    RunNext(h, ops, j);
  }

  // ----- Secrets -----

  ghost predicate FreshSecrets(ops: seq<Op>) {
    forall i, j :: 0 <= i < j < |ops| && ops[i].HasSecret() && ops[j].HasSecret() ==> ops[i].secret != ops[j].secret
  }

  /** The digest tells apart the secrets of the run and the one presented. */
  ghost predicate DigestsApart(h: Hashes, ops: seq<Op>, presented: Text) {
    && (forall i, j ::
          && 0 <= i < |ops| && 0 <= j < |ops| && ops[i].HasSecret() && ops[j].HasSecret()
          && h.digest(ops[i].secret) == h.digest(ops[j].secret)
          ==> ops[i].secret == ops[j].secret)
    && (forall i :: 0 <= i < |ops| && ops[i].HasSecret() && h.digest(ops[i].secret) == h.digest(presented)
          ==> ops[i].secret == presented)
  }

  /** Who holds which secret, told from the operations and their answers alone: the last one made for
      a participant that is still registered. After a revocation it is one that nobody was handed. */
  function Holds(h: Hashes, ops: seq<Op>): (r: map<ParticipantId, Text>) {
    if ops == [] then map[]
    else NextHolds(Holds(h, ops[..|ops| - 1]), ops[|ops| - 1], ReplyAt(h, ops, |ops| - 1))
  }

  /** The digest index is the exact inverse of the participants' digests. */
  ghost predicate IndexExact(m: Mail) {
    && (forall id :: id in m.participants
          ==> m.participants[id].digest in m.digestIndex && m.digestIndex[m.participants[id].digest] == id)
    && (forall d :: d in m.digestIndex
          ==> m.digestIndex[d] in m.participants && m.participants[m.digestIndex[d]].digest == d)
  }

  ghost predicate Matches(h: Hashes, m: Mail, holds: map<ParticipantId, Text>) {
    && m.participants.Keys == holds.Keys
    && (forall id :: id in holds ==> m.participants[id].digest == h.digest(holds[id]))
  }

  ghost predicate FromOps(ops: seq<Op>, n: nat, holds: map<ParticipantId, Text>) {
    forall id :: id in holds
      ==> exists i :: 0 <= i < n <= |ops| && ops[i].HasSecret() && ops[i].id == id && ops[i].secret == holds[id]
  }

  lemma NewDigestIsFree(h: Hashes, ops: seq<Op>, n: nat, m: Mail, holds: map<ParticipantId, Text>)
    requires n < |ops| && ops[n].HasSecret() && FreshSecrets(ops) && DigestsApart(h, ops, ops[n].secret)
    requires IndexExact(m) && Matches(h, m, holds) && FromOps(ops, n, holds)
    ensures h.digest(ops[n].secret) !in m.digestIndex
  {
    forall id | id in holds ensures h.digest(holds[id]) != h.digest(ops[n].secret) {
      var i :| 0 <= i < n <= |ops| && ops[i].HasSecret() && ops[i].secret == holds[id];
    }
  }

  /** What one operation does to the participants and the digest index. */
  ghost predicate RegistryEffect(h: Hashes, m: Mail, op: Op, m': Mail, r: Reply) {
    if r.Refused? || !(op.HasSecret() || op.OpDeregister?) then
      m'.participants == m.participants && m'.digestIndex == m.digestIndex
    else if op.OpDeregister? then
      && op.id in m.participants
      && m'.participants == m.participants - {op.id} && m'.digestIndex == m.digestIndex - {m.participants[op.id].digest}
    else
      && m'.participants.Keys == m.participants.Keys + {op.id}
      && m'.participants[op.id].digest == h.digest(op.secret)
      && (forall p :: p in m.participants && p != op.id ==> m'.participants[p] == m.participants[p])
      && var gone := if op.id in m.participants then {m.participants[op.id].digest} else {};
      && m'.digestIndex == (m.digestIndex - gone)[h.digest(op.secret) := op.id]
  }

  lemma SecretRegistry(h: Hashes, m: Mail, op: Op)
    requires op.HasSecret()
    ensures RegistryEffect(h, m, op, Step(h, m, op).0, Step(h, m, op).1)
  {
    if !op.OpRegister? {
      RotationRegistry(h, m, op);
    }
  }

  lemma RotationRegistry(h: Hashes, m: Mail, op: Op)
    requires op.OpRotate? || op.OpRevoke?
    ensures RegistryEffect(h, m, op, Step(h, m, op).0, Step(h, m, op).1)
  {
    assert Step(h, m, op).0 == Rotate(h, m, op.id, op.secret).0;
  }

  lemma OtherRegistry(h: Hashes, m: Mail, op: Op)
    requires !op.HasSecret()
    ensures RegistryEffect(h, m, op, Step(h, m, op).0, Step(h, m, op).1)
  {
  }

  lemma StepRegistry(h: Hashes, m: Mail, op: Op)
    ensures RegistryEffect(h, m, op, Step(h, m, op).0, Step(h, m, op).1)
  {
    if op.HasSecret() {
      SecretRegistry(h, m, op);
    } else {
      OtherRegistry(h, m, op);
    }
  }

  /** What `Holds` becomes. */
  function NextHolds(holds: map<ParticipantId, Text>, op: Op, r: Reply): (now: map<ParticipantId, Text>) {
    if r.Refused? then holds
    else if op.HasSecret() then holds[op.id := op.secret]
    else if op.OpDeregister? then holds - {op.id}
    else holds
  }

  lemma EffectKeepsIndex(h: Hashes, m: Mail, op: Op, m': Mail, r: Reply)
    requires IndexExact(m) && RegistryEffect(h, m, op, m', r)
    requires op.HasSecret() ==> h.digest(op.secret) !in m.digestIndex
    ensures IndexExact(m')
  {
  }

  lemma EffectKeepsMatch(h: Hashes, m: Mail, op: Op, m': Mail, r: Reply, holds: map<ParticipantId, Text>)
    requires Matches(h, m, holds) && RegistryEffect(h, m, op, m', r)
    ensures Matches(h, m', NextHolds(holds, op, r))
  {
  }

  lemma HoldsFromOps(ops: seq<Op>, n: nat, r: Reply, holds: map<ParticipantId, Text>)
    requires n < |ops| && FromOps(ops, n, holds)
    ensures FromOps(ops, n + 1, NextHolds(holds, ops[n], r))
  {
    var now := NextHolds(holds, ops[n], r);
    forall id | id in now
      ensures exists i :: 0 <= i < n + 1 <= |ops| && ops[i].HasSecret() && ops[i].id == id && ops[i].secret == now[id] {
      if id in holds && holds[id] == now[id] {
        var i :| 0 <= i < n <= |ops| && ops[i].HasSecret() && ops[i].id == id && ops[i].secret == holds[id];
        assert 0 <= i < n + 1 <= |ops|;
      } else {
        assert ops[n].HasSecret() && ops[n].id == id && ops[n].secret == now[id];
      }
    }
  }

  lemma {:induction false} RegistryOfRuns(h: Hashes, ops: seq<Op>, n: nat, presented: Text)
    requires n <= |ops| && FreshSecrets(ops) && DigestsApart(h, ops, presented)
    ensures IndexExact(Run(h, ops[..n])) && Matches(h, Run(h, ops[..n]), Holds(h, ops[..n]))
            && FromOps(ops, n, Holds(h, ops[..n]))
  {
    if n > 0 {
      var m := Run(h, ops[..n - 1]);
      RegistryOfRuns(h, ops, n - 1, presented);
      RunNext(h, ops, n - 1);
      HoldsNext(h, ops, n - 1);
      StepRegistry(h, m, ops[n - 1]);
      RegistryStep(h, ops, n - 1, m, Run(h, ops[..n]), ReplyAt(h, ops, n - 1), Holds(h, ops[..n - 1]));
    }
  }

  lemma RegistryStep(h: Hashes, ops: seq<Op>, n: nat, m: Mail, m': Mail, r: Reply, holds: map<ParticipantId, Text>)
    requires n < |ops| && FreshSecrets(ops) && (ops[n].HasSecret() ==> DigestsApart(h, ops, ops[n].secret))
    requires IndexExact(m) && Matches(h, m, holds) && FromOps(ops, n, holds) && RegistryEffect(h, m, ops[n], m', r)
    ensures IndexExact(m') && Matches(h, m', NextHolds(holds, ops[n], r))
            && FromOps(ops, n + 1, NextHolds(holds, ops[n], r))
  {
    if ops[n].HasSecret() {
      NewDigestIsFree(h, ops, n, m, holds);
    }
    EffectKeepsIndex(h, m, ops[n], m', r);
    EffectKeepsMatch(h, m, ops[n], m', r, holds);
    HoldsFromOps(ops, n, r, holds);
  }

  lemma HoldsNext(h: Hashes, ops: seq<Op>, i: nat)
    requires i < |ops|
    ensures Holds(h, ops[..i + 1]) == NextHolds(Holds(h, ops[..i]), ops[i], ReplyAt(h, ops, i))
  {
    assert ops[..i + 1][..i] == ops[..i];
  }

  /**
   In every reachable mailbox a presented secret authenticates as a participant exactly when it is the
   one that participant holds: nothing else opens the door, and that one always does.
   */
  lemma AuthenticateExact(h: Hashes, ops: seq<Op>, presented: Text, id: ParticipantId)
    requires FreshSecrets(ops) && DigestsApart(h, ops, presented)
    ensures IndexExact(Run(h, ops))
    ensures Authenticate(h, Run(h, ops), presented) == Ok(id) <==> id in Holds(h, ops) && Holds(h, ops)[id] == presented
  {
    RegistryOfRuns(h, ops, |ops|, presented);
    assert ops[..|ops|] == ops;
    var m, holds := Run(h, ops), Holds(h, ops);
    if Authenticate(h, m, presented) == Ok(id) {
      var i :| 0 <= i < |ops| && ops[i].HasSecret() && ops[i].secret == holds[id];
      assert h.digest(ops[i].secret) == h.digest(presented);
    }
  }

  lemma OldSecretStaysUnheld(ops: seq<Op>, n: nat, secret: Text, r: Reply, holds: map<ParticipantId, Text>)
    requires n < |ops| && FreshSecrets(ops) && secret !in holds.Values
    requires exists i :: 0 <= i < n && ops[i].HasSecret() && ops[i].secret == secret
    ensures secret !in NextHolds(holds, ops[n], r).Values
  {
    var i :| 0 <= i < n && ops[i].HasSecret() && ops[i].secret == secret;
    var now := NextHolds(holds, ops[n], r);
    forall id | id in now ensures now[id] != secret {
      if id in holds && now[id] == holds[id] {
        assert holds[id] in holds.Values;
      }
    }
  }

  lemma {:induction false} HoldsOnlyNew(h: Hashes, ops: seq<Op>, n: nat, secret: Text)
    requires n <= |ops| && FreshSecrets(ops)
    requires exists i :: 0 <= i < n && ops[i].HasSecret() && ops[i].secret == secret
    requires secret !in Holds(h, ops[..n]).Values
    ensures secret !in Holds(h, ops).Values
    decreases |ops| - n
  {
    if n < |ops| {
      HoldsNext(h, ops, n);
      OldSecretStaysUnheld(ops, n, secret, ReplyAt(h, ops, n), Holds(h, ops[..n]));
      HoldsOnlyNew(h, ops, n + 1, secret);
    } else {
      assert ops[..n] == ops;
    }
  }

  lemma UnheldStaysRefused(h: Hashes, ops: seq<Op>, n: nat, i: nat)
    requires i < n <= |ops| && ops[i].HasSecret() && FreshSecrets(ops) && DigestsApart(h, ops, ops[i].secret)
    requires ops[i].secret !in Holds(h, ops[..n]).Values
    ensures Authenticate(h, Run(h, ops), ops[i].secret).Err?
  {
    var secret := ops[i].secret;
    HoldsOnlyNew(h, ops, n, secret);
    forall id ensures Authenticate(h, Run(h, ops), secret) != Ok(id) {
      AuthenticateExact(h, ops, secret, id);
      assert id in Holds(h, ops) ==> Holds(h, ops)[id] in Holds(h, ops).Values;
    }
  }

  /** A secret of the run that is refused once is refused for ever after. */
  lemma RetiredSecretsStayRefused(h: Hashes, ops: seq<Op>, n: nat, i: nat)
    requires i < n <= |ops| && ops[i].HasSecret() && FreshSecrets(ops) && DigestsApart(h, ops, ops[i].secret)
    requires Authenticate(h, Run(h, ops[..n]), ops[i].secret).Err?
    ensures Authenticate(h, Run(h, ops), ops[i].secret).Err?
  {
    var secret := ops[i].secret;
    RegistryOfRuns(h, ops, n, secret);
    var holds := Holds(h, ops[..n]);
    forall id | id in holds ensures holds[id] != secret {
      assert Run(h, ops[..n]).participants[id].digest == h.digest(holds[id]);
    }
    UnheldStaysRefused(h, ops, n, i);
  }

  /** A successful registration, rotation, revocation or deregistration of a participant retires every
      secret made for it before: it is refused then and in every later state. */
  lemma ReplacedSecretsAreRefused(h: Hashes, ops: seq<Op>, i: nat, n: nat)
    requires i < n < |ops| && ops[i].HasSecret() && FreshSecrets(ops) && DigestsApart(h, ops, ops[i].secret)
    requires (ops[n].HasSecret() || ops[n].OpDeregister?) && ops[n].id == ops[i].id && !ReplyAt(h, ops, n).Refused?
    ensures Authenticate(h, Run(h, ops), ops[i].secret).Err?
  {
    RegistryOfRuns(h, ops, n, ops[i].secret);
    HoldsNext(h, ops, n);
    ReplacedIsUnheld(ops, i, n, ReplyAt(h, ops, n), Holds(h, ops[..n]));
    UnheldStaysRefused(h, ops, n + 1, i);
  }

  lemma ReplacedIsUnheld(ops: seq<Op>, i: nat, n: nat, r: Reply, holds: map<ParticipantId, Text>)
    requires i < n < |ops| && ops[i].HasSecret() && FreshSecrets(ops) && FromOps(ops, n, holds)
    requires (ops[n].HasSecret() || ops[n].OpDeregister?) && ops[n].id == ops[i].id && !r.Refused?
    ensures ops[i].secret !in NextHolds(holds, ops[n], r).Values
  {
    var now := NextHolds(holds, ops[n], r);
    HoldsFromOps(ops, n, r, holds);
    forall id | id in now ensures now[id] != ops[i].secret {
      var k :| 0 <= k < n + 1 <= |ops| && ops[k].HasSecret() && ops[k].id == id && ops[k].secret == now[id];
      assert id == ops[n].id ==> now[id] == ops[n].secret;
    }
  }

  // ----- Sessions -----

  /** A session never changes accounts, and only `set_declared` changes what it declared. */
  lemma {:induction false} SessionsKeepIdentity(h: Hashes, ops: seq<Op>, i: nat, n: nat, s: SessionId)
    requires i <= n <= |ops| && s in Run(h, ops[..i]).sessions
    ensures s in Run(h, ops[..n]).sessions
            && Run(h, ops[..n]).sessions[s].account == Run(h, ops[..i]).sessions[s].account
    ensures (forall j :: i <= j < n ==> ops[j].OpSetDeclared? ==> ops[j].session != s)
            ==> Run(h, ops[..n]).sessions[s].card.declared == Run(h, ops[..i]).sessions[s].card.declared
    decreases n - i
  {
    if i < n {
      SessionsKeepIdentity(h, ops, i, n - 1, s);
      SessionNext(h, ops, n - 1, s);
      var m, m' := Run(h, ops[..n - 1]), Run(h, ops[..n]);
      assert m'.sessions[s].account == m.sessions[s].account;
      if forall j :: i <= j < n ==> ops[j].OpSetDeclared? ==> ops[j].session != s {
        assert m'.sessions[s].card.declared == m.sessions[s].card.declared;
      }
    }
  }

  lemma SessionNext(h: Hashes, ops: seq<Op>, n: nat, s: SessionId)
    requires n < |ops| && s in Run(h, ops[..n]).sessions
    ensures SessionKept(Run(h, ops[..n]), ops[n], Run(h, ops[..n + 1]), s)
  {
    RunNext(h, ops, n);
    SessionStep(h, Run(h, ops[..n]), ops[n], s);
  }

  ghost predicate SessionKept(m: Mail, op: Op, m': Mail, s: SessionId)
    requires s in m.sessions
  {
    && s in m'.sessions && m'.sessions[s].account == m.sessions[s].account
    && (m'.sessions[s].card.declared == m.sessions[s].card.declared || (op.OpSetDeclared? && op.session == s))
  }

  lemma EnsureKeeps(m: Mail, account: ParticipantId, t: SessionId, card: SessionCard, now: Millis, s: SessionId)
    requires s in m.sessions
    ensures var m' := EnsureSession(m, account, t, card, now).0;
            && s in m'.sessions && m'.sessions[s].account == m.sessions[s].account
            && m'.sessions[s].card.declared == m.sessions[s].card.declared
  {
  }

  lemma SessionStep(h: Hashes, m: Mail, op: Op, s: SessionId)
    requires s in m.sessions
    ensures SessionKept(m, op, Step(h, m, op).0, s)
  {
    if op.OpEnsureSession? {
      EnsureKeeps(m, op.account, op.session, op.card, op.now, s);
    } else if !op.OpSetDeclared? {
      StepFrame(h, m, op);
    }
  }
}
