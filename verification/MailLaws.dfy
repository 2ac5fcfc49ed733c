/**
 What the mailbox promises its clients, said without the functions that compute it: what a valid request
 is, when an operation succeeds and what it then leaves, who gets to see a message and in which order.
 */
module MailLaws {
  import opened Common
  import opened Sorting
  import opened MailApi
  import opened MessageIds
  import opened Mailbox
  import opened MailRuns

  // ----- Valid requests -----

  predicate IsSelector(v: Text) {
    1 <= |v| <= 128 && forall b :: b in v ==> SelectorByte(b)
  }

  predicate AllHex(v: Text) {
    forall b :: b in v ==> Hex(b)
  }

  predicate IsMessageId(v: Text) {
    |v| == 28 && v[..4] == Ascii("m4a_") && AllHex(v[4..])
  }

  predicate IsSessionId(v: Text) {
    10 <= |v| <= 66 && v[..2] == Ascii("s-") && AllHex(v[2..])
  }

  predicate IsAddress(a: Address) {
    match a
    case Direct(p) => IsSelector(p)
    case Session(p, s) => IsSelector(p) && IsSessionId(s)
    case Room(room) => IsSelector(room)
  }

  /** No control characters. */
  predicate IsLine(v: Text) {
    forall i :: 0 <= i < |v| ==> !ControlAt(v, i)
  }

  /** No control characters but newline and tab. */
  predicate IsProse(v: Text) {
    forall i :: 0 <= i < |v| ==> !ControlAt(v, i) || v[i] == 10 || v[i] == 9
  }

  predicate IsRef(m: MessageRef) {
    && IsSelector(m.kind) && 1 <= |m.locator| <= 512 && IsLine(m.locator)
    && (m.digest.Some? ==> 1 <= |m.digest.value| <= 128 && AllHex(m.digest.value))
  }

  predicate IsRequest(q: SendRequest) {
    && IsAddress(q.to) && |q.subject| <= 512 && IsLine(q.subject) && |q.body| <= 65536 && IsProse(q.body)
    && (q.replyTo.Some? ==> IsMessageId(q.replyTo.value))
    && (q.correlation.Some? ==> 1 <= |q.correlation.value| <= 512 && IsLine(q.correlation.value))
    && |q.refs| <= 8 && (forall m :: m in q.refs ==> IsRef(m))
    && (q.idempotencyKey.Some? ==> IsSelector(q.idempotencyKey.value))
  }

  lemma IdsValidExactly(v: Text)
    ensures forall field :: ValidateSelector(field, v).Ok? <==> IsSelector(v)
    ensures ValidateMessageId(v).Ok? <==> IsMessageId(v)
    ensures ValidateSessionId(v).Ok? <==> IsSessionId(v)
  {
    if MESSAGE_ID_PREFIX <= v { assert v[..4] == MESSAGE_ID_PREFIX; }
    if SESSION_ID_PREFIX <= v { assert v[..2] == SESSION_ID_PREFIX; }
  }

  lemma AddressesValidExactly(a: Address)
    ensures ValidateAddress(a).Ok? <==> IsAddress(a)
  {
    match a
    case Direct(p) => IdsValidExactly(p);
    case Session(p, s) => IdsValidExactly(p); IdsValidExactly(s);
    case Room(room) => IdsValidExactly(room);
  }

  /** How an address is written: an account alone, an account and a session around a slash, a room behind a
      hash sign. */
  predicate IsWritten(t: Text, a: Address) {
    match a
    case Direct(p) => t == p
    case Session(p, s) => t == p + Ascii("/") + s
    case Room(room) => t == Ascii("#") + room
  }

  /** A text is read as the valid address that is written that way, if there is one. */
  lemma ParsesExactly(t: Text, a: Address)
    ensures ParseAddress(t) == Ok(a) <==> IsAddress(a) && IsWritten(t, a)
  {
    AddressesValidExactly(a);
    assert Ascii("/") == [SLASH] && Ascii("#") == [HASH];
    if ParseAddress(t) == Ok(a) {
      DisplayParse(t);
    }
    if IsAddress(a) && IsWritten(t, a) {
      ParseDisplay(a);
      assert t == Display(a);
    }
  }

  lemma TextsValidExactly(v: Text)
    ensures ValidateSubject(v).Ok? <==> |v| <= 512 && IsLine(v)
    ensures ValidateBody(v).Ok? <==> |v| <= 65536 && IsProse(v)
    ensures ValidateCorrelation(v).Ok? <==> 1 <= |v| <= 512 && IsLine(v)
  {
  }

  lemma RefsValidExactly(m: MessageRef)
    ensures ValidateRef(m).Ok? <==> IsRef(m)
  {
    IdsValidExactly(m.kind);
  }

  lemma RequestsValidExactly(q: SendRequest)
    ensures ValidateSend(q).Ok? <==> IsRequest(q)
  {
    AddressesValidExactly(q.to);
    TextsValidExactly(q.subject);
    TextsValidExactly(q.body);
    if q.replyTo.Some? { IdsValidExactly(q.replyTo.value); }
    if q.correlation.Some? { TextsValidExactly(q.correlation.value); }
    forall m | m in q.refs ensures ValidateRef(m).Ok? <==> IsRef(m) { RefsValidExactly(m); }
    if q.idempotencyKey.Some? { IdsValidExactly(q.idempotencyKey.value); }
  }

  // ----- Who acts -----

  /** The address is one of the registered account `account`: its own, or that of one of its sessions. */
  predicate ActsAs(m: Mail, a: Address, account: ParticipantId) {
    && IsAddress(a) && account in m.participants
    && (a == Direct(account) || (a.Session? && a.participant == account && a.session in m.sessions
                                 && m.sessions[a.session].account == account))
  }

  lemma ResolvesExactly(m: Mail, a: Address, account: ParticipantId, rec: ParticipantRecord)
    ensures ResolveIdentity(m, a) == Ok((account, rec)) <==> ActsAs(m, a, account) && m.participants[account] == rec
  {
    AddressesValidExactly(a);
  }

  /** Where an address acts as nobody, the reason is told. */
  lemma ResolvesNobody(m: Mail, a: Address)
    ensures var r := ResolveIdentity(m, a);
            && (!IsAddress(a) ==> r == Err(ValidateAddress(a).error))
            && (IsAddress(a) ==>
                  match a
                  case Direct(p) => p !in m.participants ==> r == Err(UnknownParticipant(p))
                  case Session(p, s) =>
                    && (s !in m.sessions ==> r == Err(UnknownSession(s)))
                    && (s in m.sessions && m.sessions[s].account != p
                        ==> r == Err(SessionAccountMismatch(s, m.sessions[s].account, p)))
                    && (s in m.sessions && m.sessions[s].account == p && p !in m.participants
                        ==> r == Err(UnknownParticipant(p)))
                  case Room(_) => r == Err(Malformed("address")))
  {
    AddressesValidExactly(a);
  }

  predicate Exists(m: Mail, to: Address) {
    match to
    case Direct(p) => p in m.participants
    case Session(p, s) => s in m.sessions && m.sessions[s].account == p
    case Room(room) => room in m.rooms
  }

  ghost predicate MaySend(m: Mail, sender: Address) {
    exists account :: ActsAs(m, sender, account) && m.participants[account].may.maySend
  }

  lemma MaySendExactly(m: Mail, sender: Address)
    ensures MaySend(m, sender)
            <==> ResolveIdentity(m, sender).Ok? && ResolveIdentity(m, sender).value.1.may.maySend
  {
    var r := ResolveIdentity(m, sender);
    if r.Ok? {
      ResolvesExactly(m, sender, r.value.0, r.value.1);
    }
    if account :| ActsAs(m, sender, account) && m.participants[account].may.maySend {
      ResolvesExactly(m, sender, account, m.participants[account]);
    }
  }

  // ----- Sending -----

  lemma DestinationsExactly(m: Mail, to: Address)
    ensures CheckDestination(m, to).Ok? <==> Exists(m, to)
    ensures to.Direct? && !Exists(m, to) ==> CheckDestination(m, to) == Err(UnknownParticipant(to.participant))
    ensures to.Room? && !Exists(m, to) ==> CheckDestination(m, to) == Err(UnknownRoom(to.room))
    ensures to.Session? && !Exists(m, to)
            ==> CheckDestination(m, to)
                == Err(if to.session !in m.sessions then UnknownSession(to.session)
                       else SessionAccountMismatch(to.session, m.sessions[to.session].account, to.participant))
  {
  }

  /** A message made of a valid request by a valid sender fails its own check only for its id or its time. */
  lemma MessagesValidExactly(msg: Message, q: SendRequest)
    requires IsRequest(q) && IsAddress(msg.from) && !msg.from.Room?
    requires (msg.to, msg.subject, msg.body, msg.replyTo, msg.correlation, msg.refs)
             == (q.to, q.subject, q.body, q.replyTo, q.correlation, q.refs)
    ensures ValidateMessage(msg).Ok?
            <==> IsMessageId(msg.messageId) && msg.replyTo != Some(msg.messageId) && msg.createdAt > 0
  {
    RequestsValidExactly(q);
    AddressesValidExactly(msg.from);
    IdsValidExactly(msg.messageId);
  }

  /** The id of a message: the truncated hash of its input, which ends in the key or in random bytes. */
  function IdOf(h: Hashes, sender: Address, q: SendRequest, now: Millis, nonce: Text): (id: MessageId) {
    h.truncated(Preimage(sender, q, now, if q.idempotencyKey.Some? then q.idempotencyKey.value else nonce))
  }

  /** The message as its readers will see it. */
  function Sealed(id: MessageId, sender: Address, q: SendRequest, now: Millis): (r: Message) {
    Message(messageId := id, from := sender, to := q.to, subject := q.subject, body := q.body, replyTo := q.replyTo,
            correlation := q.correlation, refs := q.refs, createdAt := now)
  }

  /**
   `send`, in every mailbox: it succeeds exactly if the request is valid, the sender is an account or session
   with the right to send, the destination exists, and the new message's id and time are well formed. Then
   the message is stored under its id with every field as requested, and its key, if it has one, is filed;
   but a key already on file answers its id, and nothing is stored. Refused, nothing changes.
   */
  lemma SendsExactly(h: Hashes, m: Mail, sender: Address, q: SendRequest, now: Millis, nonce: Text)
    ensures var (m', r) := Send(h, m, sender, q, now, nonce);
            var id := IdOf(h, sender, q, now, nonce);
            var messages := m.messages[id := Sealed(id, sender, q, now)];
            && (r.Ok? <==> && IsRequest(q) && MaySend(m, sender) && Exists(m, q.to)
                           && IsMessageId(id) && q.replyTo != Some(id) && now > 0)
            && (r.Err? ==> m' == m)
            && (r.Ok? ==>
                  match q.idempotencyKey
                  case None => r.value == id && m' == m.(messages := messages)
                  case Some(key) =>
                    if (sender, key) in m.idempotency then r.value == m.idempotency[(sender, key)] && m' == m
                    else && r.value == id
                         && m' == m.(messages := messages, idempotency := m.idempotency[(sender, key) := id]))
  {
    SendChecksExactly(h, m, sender, q, now, nonce);
  }

  lemma SendChecksExactly(h: Hashes, m: Mail, sender: Address, q: SendRequest, now: Millis, nonce: Text)
    ensures CheckSend(h, m, sender, q, now, nonce).Ok?
            <==> && IsRequest(q) && MaySend(m, sender) && Exists(m, q.to)
                 && IsMessageId(IdOf(h, sender, q, now, nonce))
                 && q.replyTo != Some(IdOf(h, sender, q, now, nonce)) && now > 0
  {
    RequestsValidExactly(q);
    MaySendExactly(m, sender);
    DestinationsExactly(m, q.to);
    if IsRequest(q) && MaySend(m, sender) {
      var account :| ActsAs(m, sender, account);
      MessagesValidExactly(MessageOf(h, sender, q, now, nonce), q);
    }
  }

  /** The first reason to refuse a send is the one told. */
  lemma SendRefusedFor(h: Hashes, m: Mail, sender: Address, q: SendRequest, now: Millis, nonce: Text)
    ensures var r, who := Send(h, m, sender, q, now, nonce).1, ResolveIdentity(m, sender);
            && (!IsRequest(q) ==> r.Err? && ValidateSend(q) == Err(r.error))
            && (IsRequest(q) && who.Err? ==> r == Err(who.error))
            && (IsRequest(q) && who.Ok? && !MaySend(m, sender) ==> r == Err(PermissionDenied("mail:send")))
            && (IsRequest(q) && MaySend(m, sender) && !Exists(m, q.to) ==>
                  r.Err? && CheckDestination(m, q.to) == Err(r.error))
  {
    RequestsValidExactly(q);
    MaySendExactly(m, sender);
    DestinationsExactly(m, q.to);
  }

  // ----- Who sees a message -----

  /** Whom a message is for: the account it names and its sessions, the very session it names, or whoever
      belongs to the room. */
  predicate IsFor(m: Mail, to: Address, reader: Address, account: ParticipantId) {
    match to
    case Direct(p) => p == account
    case Session(_, _) => reader == to
    case Room(room) => room in m.rooms && account in m.rooms[room].members
  }

  /**
   What a successful new send changes for any reader, of any account: exactly the readers the message is for
   have one more message in their inbox, if it is not older than they ask; and exactly these, except the
   sending address itself, have one more unread.
   */
  lemma SentIsSeenExactly(h: Hashes, m: Mail, sender: Address, q: SendRequest, now: Millis, nonce: Text,
                          reader: Address, account: ParticipantId, since: Millis)
    requires Send(h, m, sender, q, now, nonce).1.Ok? && IdOf(h, sender, q, now, nonce) !in m.messages
    requires q.idempotencyKey.Some? ==> (sender, q.idempotencyKey.value) !in m.idempotency
    requires ActsAs(m, reader, account)
    ensures var m', id := Send(h, m, sender, q, now, nonce).0, IdOf(h, sender, q, now, nonce);
            && Own(m', reader, account, since)
               == Own(m, reader, account, since)
                  + (if now >= since && IsFor(m, q.to, reader, account) then {id} else {})
            && Unread(m', reader, account)
               == Unread(m, reader, account)
                  + (if IsFor(m, q.to, reader, account) && reader != sender && (id, reader) !in m.acks
                     then {id} else {})
  {
    SendsExactly(h, m, sender, q, now, nonce);
    var m', id := Send(h, m, sender, q, now, nonce).0, IdOf(h, sender, q, now, nonce);
    NewIsSeenExactly(m, m', id, Sealed(id, sender, q, now), reader, account, since);
    NewIsUnreadExactly(m, m', id, Sealed(id, sender, q, now), reader, account);
  }

  lemma NewIsSeenExactly(m: Mail, m': Mail, id: MessageId, msg: Message, reader: Address, account: ParticipantId,
                         since: Millis)
    requires id !in m.messages && ActsAs(m, reader, account)
    requires m'.messages == m.messages[id := msg] && m'.rooms == m.rooms
    ensures Own(m', reader, account, since)
            == Own(m, reader, account, since)
               + (if msg.createdAt >= since && IsFor(m, msg.to, reader, account) then {id} else {})
  {
  }

  lemma NewIsUnreadExactly(m: Mail, m': Mail, id: MessageId, msg: Message, reader: Address, account: ParticipantId)
    requires id !in m.messages && ActsAs(m, reader, account)
    requires m'.messages == m.messages[id := msg] && m'.rooms == m.rooms && m'.acks == m.acks
    ensures Unread(m', reader, account)
            == Unread(m, reader, account)
               + (if IsFor(m, msg.to, reader, account) && reader != msg.from && (id, reader) !in m.acks
                  then {id} else {})
  {
    NewIsSeenExactly(m, m', id, msg, reader, account, 0);
    forall x | x in m.messages ensures x in Unread(m', reader, account) <==> x in Unread(m, reader, account) {
      assert m'.messages[x] == m.messages[x];
    }
  }

  /** What may be read at all: a message for the reader, or any message for an operator. */
  lemma ReadableExactly(m: Mail, id: MessageId, reader: Address, account: ParticipantId)
    requires id in m.messages && ActsAs(m, reader, account)
    ensures IsReadable(m, m.messages[id], reader, account, m.participants[account])
            <==> m.participants[account].may.operator || IsFor(m, m.messages[id].to, reader, account)
    ensures forall since: Millis ::
              id in Own(m, reader, account, since)
              <==> m.messages[id].createdAt >= since && IsFor(m, m.messages[id].to, reader, account)
    ensures id in Unread(m, reader, account)
            <==> && IsFor(m, m.messages[id].to, reader, account) && m.messages[id].from != reader
                 && (id, reader) !in m.acks
  {
  }

  // ----- The order of an inbox -----

  /** Smaller at the first differing byte, or a prefix. */
  ghost predicate IdBefore(a: MessageId, b: MessageId) {
    a <= b || exists n: nat :: SmallerAt(ByteLt, a, b, n)
  }

  ghost predicate Precedes(a: Message, b: Message) {
    a.createdAt < b.createdAt || (a.createdAt == b.createdAt && IdBefore(a.messageId, b.messageId))
  }

  lemma EarlierExactly(a: Message, b: Message)
    ensures Earlier(a, b) <==> Precedes(a, b)
  {
    assert StrictTotal(ByteLt);
    LexExactly(ByteLt, a.messageId, b.messageId);
  }

  /** A page has its messages oldest first, with equal times by id; what is left out comes after all of it,
      and something is left out only if the page is full. */
  lemma PageOldestFirst(m: Mail, page: seq<Message>, ids: set<MessageId>, limit: nat)
    requires ids <= m.messages.Keys && IsPage(m, page, ids, limit)
    ensures |page| <= limit && NoDup(page) && (forall x :: x in page ==> x in Values(m, ids))
    ensures forall i, j :: 0 <= i < j < |page| ==> Precedes(page[i], page[j])
    ensures forall id :: id in ids && m.messages[id] !in page
              ==> |page| == limit && forall i :: 0 <= i < |page| ==> Precedes(page[i], m.messages[id])
  {
    var all: seq<Message> :| NoDup(all) && Sorted(Earlier, all) && Elems(all) == Values(m, ids)
      && page == all[..if limit < |all| then limit else |all|];
    forall i, j | 0 <= i < j < |all| ensures Precedes(all[i], all[j]) {
      EarlierExactly(all[i], all[j]);
    }
    forall x | x in page ensures x in Values(m, ids) { assert x in Elems(all); }
    forall id | id in ids && m.messages[id] !in page
      ensures |page| == limit && forall i :: 0 <= i < |page| ==> Precedes(page[i], m.messages[id])
    {
      assert m.messages[id] in Elems(all);
      var j :| 0 <= j < |all| && all[j] == m.messages[id];
    }
  }

  // ----- Acknowledging -----

  ghost predicate MayRead(m: Mail, reader: Address, id: MessageId)
    requires id in m.messages
  {
    exists account ::
      && ActsAs(m, reader, account)
      && (m.participants[account].may.operator
          || (m.participants[account].may.mayRead && IsFor(m, m.messages[id].to, reader, account)))
  }

  /** `ack` succeeds exactly if the message is stored and the reader may read it; the first ack of the pair is
      what is on file from then on, and the answer. Refused, nothing changes. */
  lemma AcksExactly(m: Mail, reader: Address, id: MessageId, now: Millis)
    ensures var (m', r) := AckMessage(m, reader, id, now);
            && (r.Ok? <==> id in m.messages && MayRead(m, reader, id) && IsMessageId(id) && now > 0)
            && (r.Err? ==> m' == m)
            && (r.Ok? ==>
                  if (id, reader) in m.acks then m' == m && r.value == m.acks[(id, reader)]
                  else r.value == Ack(id, reader, now) && m' == m.(acks := m.acks[(id, reader) := r.value]))
  {
    IdsValidExactly(id);
    AddressesValidExactly(reader);
    var who := ResolveIdentity(m, reader);
    if who.Ok? {
      ResolvesExactly(m, reader, who.value.0, who.value.1);
      if id in m.messages {
        ReadableExactly(m, id, reader, who.value.0);
      }
    }
    forall account | ActsAs(m, reader, account) ensures who == Ok((account, m.participants[account])) {
      ResolvesExactly(m, reader, account, m.participants[account]);
    }
  }

  // ----- Registering -----

  /** A short text without control characters, if there is one. */
  predicate IsLabel(v: Option<Text>) {
    v.Some? ==> |v.value| <= 512 && IsLine(v.value)
  }

  /** When a registry operation succeeds, and what it answers. */
  lemma RegistryReplies(h: Hashes, m: Mail, op: Op)
    ensures var r := Step(h, m, op).1;
            && (op.OpRegister? ==>
                  && (r == Handed(op.secret) <==> IsSelector(op.id) && IsLabel(op.title) && op.id !in m.participants)
                  && (r.Refused? <==> r != Handed(op.secret)))
            && (op.OpRotate? ==>
                  r == if op.id in m.participants then Handed(op.secret) else Refused(UnknownParticipant(op.id)))
            && (op.OpRevoke? || op.OpDeregister? ==>
                  r == if op.id in m.participants then Done else Refused(UnknownParticipant(op.id)))
  {
    if op.OpRegister? {
      IdsValidExactly(op.id);
    }
  }

  /** Operation `i` registered the participant, and no later one took it out. */
  ghost predicate StillRegistered(h: Hashes, ops: seq<Op>, i: nat, id: ParticipantId) {
    && i < |ops| && ops[i].OpRegister? && ops[i].id == id && ReplyAt(h, ops, i).Handed?
    && forall j :: i < j < |ops| && ops[j].OpDeregister? && ops[j].id == id ==> ReplyAt(h, ops, j).Refused?
  }

  ghost predicate IsRegistered(h: Hashes, ops: seq<Op>, id: ParticipantId) {
    exists i: nat :: StillRegistered(h, ops, i, id)
  }

  ghost predicate SameRights(m: Mail, m': Mail, id: ParticipantId) {
    && (id in m'.participants <==> id in m.participants)
    && (id in m.participants ==>
          (m'.participants[id].title, m'.participants[id].may) == (m.participants[id].title, m.participants[id].may))
  }

  lemma StepRights(h: Hashes, m: Mail, op: Op, id: ParticipantId)
    ensures var (m', r) := Step(h, m, op);
            if op.OpRegister? && op.id == id && r.Handed? then
              id !in m.participants && id in m'.participants
              && (m'.participants[id].title, m'.participants[id].may) == (op.title, op.may)
            else if op.OpDeregister? && op.id == id && !r.Refused? then id in m.participants && id !in m'.participants
            else SameRights(m, m', id)
  {
    if op.OpRotate? || op.OpRevoke? {
      RotationKeepsRights(h, m, op, id);
    } else if !op.OpRegister? && !op.OpDeregister? {
      StepFrame(h, m, op);
    }
  }

  lemma RotationKeepsRights(h: Hashes, m: Mail, op: Op, id: ParticipantId)
    requires op.OpRotate? || op.OpRevoke?
    ensures SameRights(m, Step(h, m, op).0, id)
  {
    assert Step(h, m, op).0 == Rotate(h, m, op.id, op.secret).0;
  }

  lemma RegisteredNext(h: Hashes, ops: seq<Op>, i: nat, id: ParticipantId)
    requires ops != []
    ensures var n := |ops| - 1;
            var out := ops[n].OpDeregister? && ops[n].id == id && !ReplyAt(h, ops, n).Refused?;
            StillRegistered(h, ops, i, id)
            <==> || (StillRegistered(h, ops[..n], i, id) && !out)
                 || (i == n && ops[n].OpRegister? && ops[n].id == id && ReplyAt(h, ops, n).Handed?)
  {
    var n := |ops| - 1;
    forall j | 0 <= j < n ensures ReplyAt(h, ops[..n], j) == ReplyAt(h, ops, j) {
      assert ops[..n][..j] == ops[..j];
    }
  }

  /** Over every run: a participant is on file exactly if some operation registered it and none took it out
      since; its label and its rights are those it was registered with, whatever became of its secret. */
  lemma {:induction false} RightsOfRuns(h: Hashes, ops: seq<Op>, id: ParticipantId)
    ensures id in Run(h, ops).participants <==> IsRegistered(h, ops, id)
    ensures forall i: nat :: StillRegistered(h, ops, i, id)
              ==> && id in Run(h, ops).participants
                  && var rec := Run(h, ops).participants[id];
                  (rec.title, rec.may) == (ops[i].title, ops[i].may)
    decreases |ops|
  {
    if ops != [] {
      var n := |ops| - 1;
      var before, m := ops[..n], Run(h, ops[..n]);
      RightsOfRuns(h, before, id);
      StepRights(h, m, ops[n], id);
      assert ReplyAt(h, ops, n) == Step(h, m, ops[n]).1;
      forall i: nat ensures StillRegistered(h, ops, i, id) <==>
          || (StillRegistered(h, before, i, id)
              && !(ops[n].OpDeregister? && ops[n].id == id && !ReplyAt(h, ops, n).Refused?))
          || (i == n && ops[n].OpRegister? && ops[n].id == id && ReplyAt(h, ops, n).Handed?)
      {
        RegisteredNext(h, ops, i, id);
      }
      RightsNext(h, ops, id);
    }
  }

  lemma RightsNext(h: Hashes, ops: seq<Op>, id: ParticipantId)
    requires ops != []
    ensures var n := |ops| - 1;
            var out := ops[n].OpDeregister? && ops[n].id == id && !ReplyAt(h, ops, n).Refused?;
            IsRegistered(h, ops, id)
            <==> || (IsRegistered(h, ops[..n], id) && !out)
                 || (ops[n].OpRegister? && ops[n].id == id && ReplyAt(h, ops, n).Handed?)
  {
    var n := |ops| - 1;
    if i: nat :| StillRegistered(h, ops, i, id) { RegisteredNext(h, ops, i, id); }
    if i: nat :| StillRegistered(h, ops[..n], i, id) { RegisteredNext(h, ops, i, id); }
    RegisteredNext(h, ops, n, id);
  }

  // ----- Rooms -----

  /** When a room operation succeeds. */
  lemma RoomReplies(h: Hashes, m: Mail, op: Op)
    ensures var r := Step(h, m, op).1;
            && (op.OpCreateRoom? ==> r == if op.room in m.rooms then Refused(Malformed("room")) else Done)
            && (op.OpAddMember? ==>
                  r == if op.room !in m.rooms then Refused(UnknownRoom(op.room))
                       else if op.member !in m.participants then Refused(UnknownParticipant(op.member))
                       else Done)
            && (op.OpRemoveMember? ==> r == if op.room in m.rooms then Done else Refused(UnknownRoom(op.room)))
  {
  }

  predicate IsMember(m: Mail, room: RoomId, p: ParticipantId) {
    room in m.rooms && p in m.rooms[room].members
  }

  predicate Adds(op: Op, r: Reply, room: RoomId, p: ParticipantId) {
    op == OpAddMember(room, p) && r.Done?
  }

  predicate Removes(op: Op, r: Reply, room: RoomId, p: ParticipantId) {
    op == OpRemoveMember(room, p) && r.Done?
  }

  predicate Creates(op: Op, room: RoomId) {
    op.OpCreateRoom? && op.room == room
  }

  lemma StepMembers(h: Hashes, m: Mail, op: Op, m': Mail, r: Reply, room: RoomId, p: ParticipantId)
    requires (m', r) == Step(h, m, op)
    ensures room in m'.rooms <==> room in m.rooms || Creates(op, room)
    ensures IsMember(m', room, p) <==> Adds(op, r, room, p) || (IsMember(m, room, p) && !Removes(op, r, room, p))
  {
    StepFrame(h, m, op);
    match op
    case OpCreateRoom(_, now) => assert (m', r) == FromCheck(CreateRoom(m, op.room, now));
    case OpAddMember(_, q) => assert (m', r) == FromCheck(AddMember(m, op.room, q));
    case OpRemoveMember(_, q) => assert (m', r) == FromCheck(RemoveMember(m, op.room, q));
    case _ =>
  }

  /** The replies of a run, in order. */
  function Replies(h: Hashes, ops: seq<Op>): (r: seq<Reply>)
    ensures |r| == |ops|
  {
    if ops == [] then [] else Replies(h, ops[..|ops| - 1]) + [ReplyAt(h, ops, |ops| - 1)]
  }

  /** Operation `i` added the member, and no later one removed it. */
  ghost predicate StillMember(ops: seq<Op>, rs: seq<Reply>, i: nat, room: RoomId, p: ParticipantId)
    requires |rs| == |ops|
  {
    && i < |ops| && Adds(ops[i], rs[i], room, p)
    && forall j :: i < j < |ops| ==> !Removes(ops[j], rs[j], room, p)
  }

  ghost predicate WasAdded(ops: seq<Op>, rs: seq<Reply>, room: RoomId, p: ParticipantId)
    requires |rs| == |ops|
  {
    exists i: nat :: StillMember(ops, rs, i, room, p)
  }

  lemma AddedNext(ops: seq<Op>, rs: seq<Reply>, op: Op, r: Reply, room: RoomId, p: ParticipantId)
    requires |rs| == |ops|
    ensures WasAdded(ops + [op], rs + [r], room, p)
            <==> Adds(op, r, room, p) || (WasAdded(ops, rs, room, p) && !Removes(op, r, room, p))
  {
    var n := |ops|;
    if i: nat :| StillMember(ops + [op], rs + [r], i, room, p) {
      assert (ops + [op])[n] == op && (rs + [r])[n] == r;
      if i < n {
        forall j | i < j < n ensures !Removes(ops[j], rs[j], room, p) {
          assert (ops + [op])[j] == ops[j] && (rs + [r])[j] == rs[j];
        }
        assert StillMember(ops, rs, i, room, p);
      }
    }
    if i: nat :| StillMember(ops, rs, i, room, p) && !Removes(op, r, room, p) {
      assert StillMember(ops + [op], rs + [r], i, room, p);
    }
    if Adds(op, r, room, p) {
      assert StillMember(ops + [op], rs + [r], n, room, p);
    }
  }

  ghost predicate WasCreated(ops: seq<Op>, room: RoomId) {
    exists i :: 0 <= i < |ops| && Creates(ops[i], room)
  }

  lemma CreatedNext(ops: seq<Op>, op: Op, room: RoomId)
    ensures WasCreated(ops + [op], room) <==> WasCreated(ops, room) || Creates(op, room)
  {
    if i :| 0 <= i < |ops| && Creates(ops[i], room) { assert (ops + [op])[i] == ops[i]; }
    assert (ops + [op])[|ops|] == op;
  }

  /** Over every run there are exactly the rooms that were asked for, and a room has exactly the members that
      were added and not removed since. */
  lemma {:induction false} MembersOfRuns(h: Hashes, ops: seq<Op>, room: RoomId, p: ParticipantId)
    ensures IsMember(Run(h, ops), room, p) <==> WasAdded(ops, Replies(h, ops), room, p)
    ensures room in Run(h, ops).rooms <==> WasCreated(ops, room)
    decreases |ops|
  {
    if ops != [] {
      var before, op := ops[..|ops| - 1], ops[|ops| - 1];
      var m, m', r := Run(h, before), Run(h, ops), ReplyAt(h, ops, |ops| - 1);
      assert ops == before + [op] && Replies(h, ops) == Replies(h, before) + [r];
      MembersOfRuns(h, before, room, p);
      StepMembers(h, m, op, m', r, room, p);
      AddedNext(before, Replies(h, before), op, r, room, p);
      CreatedNext(before, op, room);
    }
  }

  // ----- Sessions -----

  predicate IsDeclared(d: Declared) {
    IsLabel(d.workingOn) && IsLabel(d.role) && (d.parent.Some? ==> IsSessionId(d.parent.value))
  }

  predicate IsCard(c: SessionCard) {
    && IsLabel(c.attested.exe) && IsLabel(c.corroborated.providerSession) && IsLabel(c.corroborated.model)
    && IsLabel(c.corroborated.cwd) && IsDeclared(c.declared)
  }

  lemma CardsValidExactly(c: SessionCard)
    ensures ValidateDeclared(c.declared).Ok? <==> IsDeclared(c.declared)
    ensures ValidateCard(c).Ok? <==> IsCard(c)
  {
    if c.declared.parent.Some? { IdsValidExactly(c.declared.parent.value); }
  }

  /** What every session on file has declared is valid. */
  ghost predicate CardsValid(m: Mail) {
    forall s :: s in m.sessions ==> IsDeclared(m.sessions[s].card.declared)
  }

  /** `ensure_session`: for a registered account and a session that is new or its own, the card is on file
      with what the edge attests and corroborates now; only what the session declared itself stays. */
  lemma EnsuresExactly(m: Mail, account: ParticipantId, s: SessionId, card: SessionCard, now: Millis)
    requires CardsValid(m)
    ensures var (m', r) := EnsureSession(m, account, s, card, now);
            && (r.Ok? <==> && IsCard(card) && IsSessionId(s) && account in m.participants
                           && (s in m.sessions ==> m.sessions[s].account == account))
            && (r.Err? ==> m' == m)
            && (r.Ok? ==>
                  var declared := if s in m.sessions then m.sessions[s].card.declared else Declared(None, None, None);
                  var rec := SessionRecord(account, SessionCard(card.attested, card.corroborated, declared), now);
                  r.value == s && m' == m.(sessions := m.sessions[s := rec]) && CardsValid(m'))
  {
    CardsValidExactly(card);
    IdsValidExactly(s);
    var declared := if s in m.sessions then m.sessions[s].card.declared else NothingDeclared;
    CardsValidExactly(card.(declared := declared));
  }

  /** `set_declared` changes what an existing session declares, and nothing else. */
  lemma DeclaresExactly(m: Mail, s: SessionId, d: Declared)
    requires CardsValid(m)
    ensures var (m', r) := SetDeclared(m, s, d);
            && (r.Ok? <==> IsSessionId(s) && s in m.sessions && IsDeclared(d))
            && (r.Err? ==> m' == m)
            && (r.Ok? ==>
                  var rec := m.sessions[s];
                  var card := SessionCard(rec.card.attested, rec.card.corroborated, d);
                  && m' == m.(sessions := m.sessions[s := SessionRecord(rec.account, card, rec.lastSeen)])
                  && CardsValid(m'))
  {
    IdsValidExactly(s);
    if s in m.sessions {
      CardsValidExactly(m.sessions[s].card.(declared := d));
    }
  }

  /** Over every run what sessions declare is valid, so the two above hold in every reachable mailbox. */
  lemma {:induction false} CardsOfRuns(h: Hashes, ops: seq<Op>)
    ensures CardsValid(Run(h, ops))
    decreases |ops|
  {
    if ops != [] {
      var m, op := Run(h, ops[..|ops| - 1]), ops[|ops| - 1];
      CardsOfRuns(h, ops[..|ops| - 1]);
      CardsStep(h, m, op, Run(h, ops));
    }
  }

  lemma CardsStep(h: Hashes, m: Mail, op: Op, m': Mail)
    requires CardsValid(m) && m' == Step(h, m, op).0
    ensures CardsValid(m')
  {
    StepFrame(h, m, op);
    match op
    case OpEnsureSession(account, s, card, now) => EnsuresExactly(m, account, s, card, now);
    case OpSetDeclared(s, d) => DeclaresExactly(m, s, d);
    case _ =>
  }
}
