/**
 The mailbox as a value: what the store holds, what each engine operation decides and writes, and the
 two answers to "may this reader read this message". The classes in `MailEngine` do the same in place.
 */
module Mailbox {
  import opened Common
  import opened Sorting
  import opened MailApi
  import opened MessageIds

  type Digest = Text

  datatype Permissions = Permissions(maySend: bool, mayRead: bool, operator: bool)

  datatype ParticipantRecord = ParticipantRecord(title: Option<Text>, digest: Digest, may: Permissions)

  datatype RoomRecord = RoomRecord(createdAt: Millis, members: set<ParticipantId>)

  datatype Attested = Attested(pid: nat, startedAt: Millis, exe: Option<Text>)

  datatype Corroborated = Corroborated(providerSession: Option<Text>, model: Option<Text>, cwd: Option<Text>)

  datatype Declared = Declared(workingOn: Option<Text>, role: Option<Text>, parent: Option<SessionId>)

  datatype SessionCard = SessionCard(attested: Attested, corroborated: Corroborated, declared: Declared)

  datatype SessionRecord = SessionRecord(account: ParticipantId, card: SessionCard, lastSeen: Millis)

  datatype Ack = Ack(messageId: MessageId, reader: Address, ackedAt: Millis)

  /** The seven maps of the store. */
  datatype Mail = Mail(
    participants: map<ParticipantId, ParticipantRecord>,
    digestIndex: map<Digest, ParticipantId>,
    rooms: map<RoomId, RoomRecord>,
    messages: map<MessageId, Message>,
    idempotency: map<(Address, Text), MessageId>,
    acks: map<(MessageId, Address), Ack>,
    sessions: map<SessionId, SessionRecord>)

  const EmptyMail := Mail(map[], map[], map[], map[], map[], map[], map[])

  /** SHA-256 of a secret, and the truncated SHA-256 behind message ids. */
  datatype Hashes = Hashes(digest: Text -> Digest, truncated: Text -> MessageId)

  // ----- Card validation -----

  function ValidateBounded(field: string, v: Option<Text>): (r: Check) {
    if v.None? then Ok(())
    else if |v.value| > SUBJECT_MAX_BYTES then Err(TooLarge(field, SUBJECT_MAX_BYTES, |v.value|))
    else if HasControl(v.value) then Err(Malformed(field))
    else Ok(())
  }

  function ValidateDeclared(d: Declared): (r: Check) {
    var _ :- ValidateBounded("declared working_on", d.workingOn);
    var _ :- ValidateBounded("declared role", d.role);
    if d.parent.Some? then ValidateSessionId(d.parent.value) else Ok(())
  }

  function ValidateCard(c: SessionCard): (r: Check) {
    var _ :- ValidateBounded("attested exe", c.attested.exe);
    var _ :- ValidateBounded("corroborated provider_session_id", c.corroborated.providerSession);
    var _ :- ValidateBounded("corroborated model", c.corroborated.model);
    var _ :- ValidateBounded("corroborated cwd", c.corroborated.cwd);
    ValidateDeclared(c.declared)
  }

  // ----- Identity -----

  function Authenticate(h: Hashes, m: Mail, secret: Text): (r: Result<ParticipantId, MailError>) {
    var d := h.digest(secret);
    if d in m.digestIndex && m.digestIndex[d] in m.participants && m.participants[m.digestIndex[d]].digest == d
    then Ok(m.digestIndex[d])
    else Err(PermissionDenied("mail:authenticate"))
  }

  function RequireParticipant(m: Mail, id: ParticipantId): (r: Result<ParticipantRecord, MailError>) {
    if id in m.participants then Ok(m.participants[id]) else Err(UnknownParticipant(id))
  }

  /** The account an address acts as, and its record; a room acts as nobody. */
  function ResolveIdentity(m: Mail, a: Address): (r: Result<(ParticipantId, ParticipantRecord), MailError>) {
    var _ :- ValidateAddress(a);
    match a
    case Direct(p) =>
      var rec :- RequireParticipant(m, p);
      Ok((p, rec))
    case Session(p, s) =>
      if s !in m.sessions then Err(UnknownSession(s))
      else if m.sessions[s].account != p then Err(SessionAccountMismatch(s, m.sessions[s].account, p))
      else
        var rec :- RequireParticipant(m, p);
        Ok((p, rec))
    case Room(_) => Err(Malformed("address"))
  }

  function RequireRead(rec: ParticipantRecord): (r: Check) {
    if rec.may.mayRead || rec.may.operator then Ok(()) else Err(PermissionDenied("mail:read"))
  }

  // ----- Registry -----

  function Register(h: Hashes, m: Mail, id: ParticipantId, title: Option<Text>, may: Permissions,
                    secret: Text): (r: (Mail, Result<Text, MailError>))
    ensures r.0 == m.(participants := r.0.participants, digestIndex := r.0.digestIndex)
  {
    var valid := ValidateSelector("participant id", id);
    if valid.Err? then (m, Err(valid.error))
    else if ValidateBounded("label", title).Err? then (m, Err(ValidateBounded("label", title).error))
    else if id in m.participants then (m, Err(Malformed("participant")))
    else (PutParticipant(m, id, ParticipantRecord(title, h.digest(secret), may)), Ok(secret))
  }

  function PutParticipant(m: Mail, id: ParticipantId, rec: ParticipantRecord): (r: Mail) {
    m.(digestIndex := m.digestIndex[rec.digest := id], participants := m.participants[id := rec])
  }

  function Deregister(m: Mail, id: ParticipantId): (r: (Mail, Check))
    ensures r.0 == m.(participants := r.0.participants, digestIndex := r.0.digestIndex)
  {
    if id !in m.participants then (m, Err(UnknownParticipant(id)))
    else (m.(participants := m.participants - {id}, digestIndex := m.digestIndex - {m.participants[id].digest}), Ok(()))
  }

  function Rotate(h: Hashes, m: Mail, id: ParticipantId, secret: Text): (r: (Mail, Result<Text, MailError>))
    ensures r.0 == m.(participants := r.0.participants, digestIndex := r.0.digestIndex)
  {
    if id !in m.participants then (m, Err(UnknownParticipant(id)))
    else
      var rec := m.participants[id];
      var without := m.(digestIndex := m.digestIndex - {rec.digest});
      (PutParticipant(without, id, rec.(digest := h.digest(secret))), Ok(secret))
  }

  /** Rotation whose new secret is discarded. */
  function Revoke(h: Hashes, m: Mail, id: ParticipantId, secret: Text): (r: (Mail, Check))
    ensures r.0 == m.(participants := r.0.participants, digestIndex := r.0.digestIndex)
  {
    var (m', out) := Rotate(h, m, id, secret);
    (m', if out.Ok? then Ok(()) else Err(out.error))
  }

  // ----- Rooms and sessions -----

  function CreateRoom(m: Mail, id: RoomId, now: Millis): (r: (Mail, Check))
    ensures r.0 == m.(rooms := r.0.rooms)
  {
    if id in m.rooms then (m, Err(Malformed("room")))
    else (m.(rooms := m.rooms[id := RoomRecord(now, {})]), Ok(()))
  }

  function AddMember(m: Mail, room: RoomId, p: ParticipantId): (r: (Mail, Check))
    ensures r.0 == m.(rooms := r.0.rooms)
  {
    if room !in m.rooms then (m, Err(UnknownRoom(room)))
    else if p !in m.participants then (m, Err(UnknownParticipant(p)))
    else (m.(rooms := m.rooms[room := m.rooms[room].(members := m.rooms[room].members + {p})]), Ok(()))
  }

  function RemoveMember(m: Mail, room: RoomId, p: ParticipantId): (r: (Mail, Check))
    ensures r.0 == m.(rooms := r.0.rooms)
  {
    if room !in m.rooms then (m, Err(UnknownRoom(room)))
    else (m.(rooms := m.rooms[room := m.rooms[room].(members := m.rooms[room].members - {p})]), Ok(()))
  }

  const NothingDeclared := Declared(None, None, None)

  /** Creates a session or refreshes its attested and corroborated groups; what the session declared
      about itself stays. */
  function EnsureSession(m: Mail, account: ParticipantId, s: SessionId, card: SessionCard,
                         now: Millis): (r: (Mail, Result<SessionId, MailError>))
    ensures r.0 == m.(sessions := r.0.sessions)
  {
    var checks := EnsureChecks(m, account, s, card);
    if checks.Err? then (m, Err(checks.error))
    else
      var declared := if s in m.sessions then m.sessions[s].card.declared else NothingDeclared;
      var merged := card.(declared := declared);
      var valid := ValidateCard(merged);
      if valid.Err? then (m, Err(valid.error))
      else (m.(sessions := m.sessions[s := SessionRecord(account, merged, now)]), Ok(s))
  }

  function EnsureChecks(m: Mail, account: ParticipantId, s: SessionId, card: SessionCard): (r: Check) {
    var _ :- ValidateCard(card);
    var _ :- ValidateSessionId(s);
    var _ :- RequireParticipant(m, account);
    if s in m.sessions && m.sessions[s].account != account
      then Err(SessionAccountMismatch(s, m.sessions[s].account, account))
    else Ok(())
  }

  function SetDeclared(m: Mail, s: SessionId, d: Declared): (r: (Mail, Check))
    ensures r.0 == m.(sessions := r.0.sessions)
  {
    var valid := ValidateSessionId(s);
    if valid.Err? then (m, Err(valid.error))
    else if s !in m.sessions then (m, Err(UnknownSession(s)))
    else if ValidateDeclared(d).Err? then (m, Err(ValidateDeclared(d).error))
    else
      var rec := m.sessions[s];
      (m.(sessions := m.sessions[s := rec.(card := rec.card.(declared := d))]), Ok(()))
  }

  // ----- Sending -----

  function CheckDestination(m: Mail, to: Address): (r: Check) {
    match to
    case Direct(p) => if p in m.participants then Ok(()) else Err(UnknownParticipant(p))
    case Session(p, s) =>
      if s !in m.sessions then Err(UnknownSession(s))
      else if m.sessions[s].account != p then Err(SessionAccountMismatch(s, m.sessions[s].account, p))
      else Ok(())
    case Room(room) => if room in m.rooms then Ok(()) else Err(UnknownRoom(room))
  }

  function Tail(q: SendRequest, nonce: Text): (t: Text) {
    if q.idempotencyKey.Some? then q.idempotencyKey.value else nonce
  }

  function MessageOf(h: Hashes, sender: Address, q: SendRequest, now: Millis, nonce: Text): (r: Message) {
    Message(h.truncated(Preimage(sender, q, now, Tail(q, nonce))), sender, q.to, q.subject, q.body, q.replyTo,
            q.correlation, q.refs, now)
  }

  /** Everything that can refuse a send, in the source's order. */
  function CheckSend(h: Hashes, m: Mail, sender: Address, q: SendRequest, now: Millis, nonce: Text): (r: Check) {
    var _ :- ValidateSend(q);
    var (_, rec) :- ResolveIdentity(m, sender);
    if !rec.may.maySend then Err(PermissionDenied("mail:send"))
    else
      var _ :- CheckDestination(m, q.to);
      ValidateMessage(MessageOf(h, sender, q, now, nonce))
  }

  function InsertMessage(m: Mail, msg: Message, key: Option<(Address, Text)>): (r: (Mail, MessageId)) {
    if key.Some? && key.value in m.idempotency then (m, m.idempotency[key.value])
    else
      var stored := m.(messages := m.messages[msg.messageId := msg]);
      if key.None? then (stored, msg.messageId)
      else (stored.(idempotency := stored.idempotency[key.value := msg.messageId]), msg.messageId)
  }

  function IdempotencyOf(sender: Address, q: SendRequest): (r: Option<(Address, Text)>) {
    if q.idempotencyKey.Some? then Some((sender, q.idempotencyKey.value)) else None
  }

  function Send(h: Hashes, m: Mail, sender: Address, q: SendRequest, now: Millis,
                nonce: Text): (r: (Mail, Result<MessageId, MailError>))
    ensures r.0 == m.(messages := r.0.messages, idempotency := r.0.idempotency)
  {
    var checks := CheckSend(h, m, sender, q, now, nonce);
    if checks.Err? then (m, Err(checks.error))
    else
      var (m', id) := InsertMessage(m, MessageOf(h, sender, q, now, nonce), IdempotencyOf(sender, q));
      (m', Ok(id))
  }

  // ----- Reading -----

  /** The point predicate: may this reader read this one message? */
  predicate IsReadable(m: Mail, msg: Message, reader: Address, account: ParticipantId, rec: ParticipantRecord) {
    rec.may.operator ||
    match msg.to
    case Direct(p) => p == account
    case Session(_, _) => reader == msg.to
    case Room(room) => room in m.rooms && account in m.rooms[room].members
  }

  /** The bulk rule, as the index queries read it: mail to the address itself, the account's direct
      mail when the address is a session, and mail to the rooms the account belongs to now. */
  predicate Listed(m: Mail, msg: Message, identity: Address, account: ParticipantId) {
    || (msg.to == identity)
    || (identity.Session? && msg.to == Direct(account))
    || (msg.to.Room? && msg.to.room in m.rooms && account in m.rooms[msg.to.room].members)
  }

  function Own(m: Mail, identity: Address, account: ParticipantId, since: Millis): (r: set<MessageId>) {
    set id | id in m.messages && m.messages[id].createdAt >= since && Listed(m, m.messages[id], identity, account)
  }

  function Values(m: Mail, ids: set<MessageId>): (r: set<Message>)
    requires ids <= m.messages.Keys
  {
    set id | id in ids :: m.messages[id]
  }

  /** Own messages that the address neither sent nor acknowledged. */
  function Unread(m: Mail, identity: Address, account: ParticipantId): (r: set<MessageId>) {
    set id | id in Own(m, identity, account, 0) && m.messages[id].from != identity && (id, identity) !in m.acks
  }

  predicate ByteLt(x: Byte, y: Byte) {
    x < y
  }

  /** Inbox order: by time, then by message id. */
  predicate Earlier(a: Message, b: Message) {
    a.createdAt < b.createdAt || (a.createdAt == b.createdAt && LexBy(ByteLt, a.messageId, b.messageId))
  }

  /** `page` is the first `limit` of the messages `ids`, in inbox order. */
  ghost predicate IsPage(m: Mail, page: seq<Message>, ids: set<MessageId>, limit: nat)
    requires ids <= m.messages.Keys
  {
    exists all: seq<Message> ::
      && NoDup(all) && Sorted(Earlier, all) && Elems(all) == Values(m, ids)
      && page == all[..if limit < |all| then limit else |all|]
  }

  /** Every message is filed under its own id. */
  ghost predicate Filed(m: Mail) {
    forall id :: id in m.messages ==> m.messages[id].messageId == id
  }

  function RecordAck(m: Mail, a: Ack): (r: (Mail, Ack)) {
    var k := (a.messageId, a.reader);
    if k in m.acks then (m, m.acks[k]) else (m.(acks := m.acks[k := a]), a)
  }

  function CheckAck(m: Mail, reader: Address, id: MessageId, now: Millis): (r: Check) {
    var (account, rec) :- ResolveIdentity(m, reader);
    var _ :- RequireRead(rec);
    if id !in m.messages then Err(UnknownMessage(id))
    else if !IsReadable(m, m.messages[id], reader, account, rec) then Err(NotAddressedToYou(id))
    else
      var _ :- ValidateMessageId(id);
      var _ :- ValidateParticipantAddress("reader", reader);
      if now == 0 then Err(Malformed("acked_at_unix_ms")) else Ok(())
  }

  function AckMessage(m: Mail, reader: Address, id: MessageId, now: Millis): (r: (Mail, Result<Ack, MailError>))
    ensures r.0 == m.(acks := r.0.acks)
  {
    var checks := CheckAck(m, reader, id, now);
    if checks.Err? then (m, Err(checks.error))
    else
      var (m', a) := RecordAck(m, Ack(id, reader, now));
      (m', Ok(a))
  }

  // ----- The two readings agree -----

  lemma IdentityShape(m: Mail, reader: Address)
    requires ResolveIdentity(m, reader).Ok?
    ensures var (account, rec) := ResolveIdentity(m, reader).value;
            && !reader.Room? && reader.participant == account
            && account in m.participants && m.participants[account] == rec
            && ValidateAddress(reader).Ok?
  {
  }

  /** For a reader without the operator bit, the bulk listing holds exactly the messages the point
      predicate lets it read. */
  lemma ListedIffReadable(m: Mail, reader: Address, id: MessageId)
    requires ResolveIdentity(m, reader).Ok? && id in m.messages
    requires !ResolveIdentity(m, reader).value.1.may.operator
    ensures var (account, rec) := ResolveIdentity(m, reader).value;
            id in Own(m, reader, account, 0) <==> IsReadable(m, m.messages[id], reader, account, rec)
  {
    IdentityShape(m, reader);
  }

  lemma EarlierIsOrder()
    ensures TotalPreorder(Earlier)
    ensures forall a, b :: Earlier(a, b) && Earlier(b, a) ==> a.messageId == b.messageId
  {
    assert StrictTotal(ByteLt);
    forall a: Message, b: Message ensures Earlier(a, b) || Earlier(b, a) { ByteLexTotal(a.messageId, b.messageId); }
    forall a: Message, b: Message | Earlier(a, b) && Earlier(b, a) ensures a.messageId == b.messageId {
      ByteLexTotal(a.messageId, b.messageId);
    }
    forall a: Message, b: Message, c: Message | Earlier(a, b) && Earlier(b, c) ensures Earlier(a, c) {
      if a.createdAt == c.createdAt {
        LexTransitive(ByteLt, a.messageId, b.messageId, c.messageId);
      }
    }
  }

  lemma ByteLexTotal(a: Text, b: Text)
    ensures LexBy(ByteLt, a, b) || LexBy(ByteLt, b, a)
    ensures LexBy(ByteLt, a, b) && LexBy(ByteLt, b, a) ==> a == b
  {
    assert StrictTotal(ByteLt);
    LexTotal(ByteLt, a, b);
  }

  /** A page is determined by the messages and the limit alone. */
  lemma PageUnique(m: Mail, p: seq<Message>, q: seq<Message>, ids: set<MessageId>, limit: nat)
    requires Filed(m) && ids <= m.messages.Keys
    requires IsPage(m, p, ids, limit) && IsPage(m, q, ids, limit)
    ensures p == q
  {
    var s :| NoDup(s) && Sorted(Earlier, s) && Elems(s) == Values(m, ids)
      && p == s[..if limit < |s| then limit else |s|];
    var t :| NoDup(t) && Sorted(Earlier, t) && Elems(t) == Values(m, ids)
      && q == t[..if limit < |t| then limit else |t|];
    EarlierIsOrder();
    forall x, y | x in s && y in s && Earlier(x, y) && Earlier(y, x) ensures x == y {
      assert x in Elems(s) && y in Elems(s);
    }
    SortedUnique(Earlier, s, t);
  }

  /** Whatever order the store hands the messages out in, sorting and cutting gives the page. */
  lemma SortGivesPage(m: Mail, found: seq<Message>, ids: set<MessageId>, limit: nat)
    requires ids <= m.messages.Keys && NoDup(found) && Elems(found) == Values(m, ids)
    ensures var all := Sort(Earlier, found);
            IsPage(m, all[..if limit < |all| then limit else |all|], ids, limit)
  {
    var all := Sort(Earlier, found);
    EarlierIsOrder();
    SortSorts(Earlier, found);
    MultisetMembers(found, all);
  }

  // ----- Acknowledging -----

  /** Acks are not consulted when deciding who may ack. */
  lemma AckKeepsChecks(m: Mail, acks: map<(MessageId, Address), Ack>, reader: Address, id: MessageId, now: Millis)
    ensures ResolveIdentity(m.(acks := acks), reader) == ResolveIdentity(m, reader)
    ensures CheckAck(m.(acks := acks), reader, id, now) == CheckAck(m, reader, id, now)
  {
  }

  lemma AckKeepsOwn(m: Mail, acks: map<(MessageId, Address), Ack>, identity: Address, account: ParticipantId,
                    since: Millis)
    ensures Own(m.(acks := acks), identity, account, since) == Own(m, identity, account, since)
  {
  }

  /** The first ack of an unread message lowers that address's unread count by exactly one; acks of
      anything else leave it. */
  lemma AckLowersUnread(m: Mail, reader: Address, account: ParticipantId, id: MessageId, now: Millis)
    ensures |Unread(RecordAck(m, Ack(id, reader, now)).0, reader, account)|
            == |Unread(m, reader, account)| - (if id in Unread(m, reader, account) then 1 else 0)
  {
    var m' := RecordAck(m, Ack(id, reader, now)).0;
    AckKeepsOwn(m, m'.acks, reader, account, 0);
    if (id, reader) !in m.acks {
      assert Unread(m', reader, account) == Unread(m, reader, account) - {id};
    }
  }

  /** No other address's unread messages move, not even a sibling session's. */
  lemma AckLeavesOthers(m: Mail, reader: Address, id: MessageId, now: Millis, other: Address, account: ParticipantId)
    requires other != reader
    ensures Unread(RecordAck(m, Ack(id, reader, now)).0, other, account) == Unread(m, other, account)
  {
    var m' := RecordAck(m, Ack(id, reader, now)).0;
    AckKeepsOwn(m, m'.acks, other, account, 0);
  }

  /** A second ack of the same message by the same address changes nothing and answers the first
      one's time, whatever time it is made at. */
  lemma AckIdempotent(m: Mail, reader: Address, id: MessageId, now: Millis, later: Millis)
    requires AckMessage(m, reader, id, now).1.Ok? && later != 0
    ensures var (m', out) := AckMessage(m, reader, id, now);
            && AckMessage(m', reader, id, later) == (m', out)
            && out.value.ackedAt == (if (id, reader) in m.acks then m.acks[(id, reader)].ackedAt else now)
            && ((id, reader) in m.acks ==> m' == m)
  {
    var (m', out) := AckMessage(m, reader, id, now);
    AckKeepsChecks(m, m'.acks, reader, id, later);
    assert CheckAck(m, reader, id, later) == Ok(());
    assert m' == m.(acks := m'.acks);
  }
}
