/** The in-memory store and the engine over it, updated in place, proved against `Mailbox`. */
module MailEngine {
  import opened Common
  import opened Sorting
  import opened MailApi
  import opened MessageIds
  import opened Mailbox

  /** `InMemoryStore`: seven maps; reads hand out map entries in no particular order. */
  class InMemoryStore {
    var participants: map<ParticipantId, ParticipantRecord>
    var digestIndex: map<Digest, ParticipantId>
    var rooms: map<RoomId, RoomRecord>
    var messages: map<MessageId, Message>
    var idempotency: map<(Address, Text), MessageId>
    var acks: map<(MessageId, Address), Ack>
    var sessions: map<SessionId, SessionRecord>

    function View(): (m: Mail)
      reads this
    {
      Mail(participants, digestIndex, rooms, messages, idempotency, acks, sessions)
    }

    constructor ()
      ensures View() == EmptyMail
    {
      participants, digestIndex, rooms, messages := map[], map[], map[], map[];
      idempotency, acks, sessions := map[], map[], map[];
    }

    method RegisterParticipant(id: ParticipantId, rec: ParticipantRecord)
      modifies this
      ensures View() == PutParticipant(old(View()), id, rec)
    {
      digestIndex := digestIndex[rec.digest := id];
      participants := participants[id := rec];
    }

    method DeregisterParticipant(id: ParticipantId)
      modifies this
      ensures View() == Deregister(old(View()), id).0
    {
      if id in participants {
        var rec := participants[id];
        participants := participants - {id};
        digestIndex := digestIndex - {rec.digest};
      }
    }

    method SetSecretDigest(id: ParticipantId, digest: Digest)
      modifies this
      ensures id !in old(participants) ==> View() == old(View())
      ensures id in old(participants) ==>
                var rec := old(participants)[id];
                View() == PutParticipant(old(View()).(digestIndex := old(digestIndex) - {rec.digest}), id,
                                         rec.(digest := digest))
    {
      if id in participants {
        var rec := participants[id];
        digestIndex := digestIndex - {rec.digest};
        participants := participants[id := rec.(digest := digest)];
        digestIndex := digestIndex[digest := id];
      }
    }

    method InsertMessage(msg: Message, key: Option<(Address, Text)>) returns (id: MessageId)
      modifies this
      ensures (View(), id) == Mailbox.InsertMessage(old(View()), msg, key)
    {
      if key.Some? && key.value in idempotency {
        return idempotency[key.value];
      }
      messages := messages[msg.messageId := msg];
      if key.Some? {
        idempotency := idempotency[key.value := msg.messageId];
      }
      return msg.messageId;
    }

    method RecordAck(a: Ack) returns (first: Ack)
      modifies this`acks
      ensures (View(), first) == Mailbox.RecordAck(old(View()), a)
    {
      var k := (a.messageId, a.reader);
      if k !in acks {
        acks := acks[k := a];
      }
      return acks[k];
    }

    /** Messages to exactly `to`, in whatever order the map yields them. */
    method MessagesToSince(to: Address, since: Millis) returns (found: seq<Message>)
      requires Filed(View())
      ensures NoDup(found)
      ensures forall x :: x in found
                <==> x.messageId in messages && messages[x.messageId] == x && x.createdAt >= since && x.to == to
    {
      found := [];
      var todo := messages.Keys;
      while todo != {}
        invariant todo <= messages.Keys && NoDup(found)
        invariant forall x :: x in found <==>
                    x.messageId in messages && x.messageId !in todo && messages[x.messageId] == x
                      && x.createdAt >= since && x.to == to
      {
        var id :| id in todo;
        var x := messages[id];
        if x.createdAt >= since && x.to == to {
          found := found + [x];
        }
        todo := todo - {id};
      }
    }

    /** Rooms the participant belongs to, each once. */
    method RoomsContaining(p: ParticipantId) returns (found: seq<RoomId>)
      ensures NoDup(found)
      ensures forall r :: r in found <==> r in rooms && p in rooms[r].members
    {
      found := [];
      var todo := rooms.Keys;
      while todo != {}
        invariant todo <= rooms.Keys && NoDup(found)
        invariant forall r :: r in found <==> r in rooms && r !in todo && p in rooms[r].members
      {
        var r :| r in todo;
        if p in rooms[r].members {
          found := found + [r];
        }
        todo := todo - {r};
      }
    }
  }

  lemma NoDupConcat<T>(a: seq<T>, b: seq<T>)
    requires NoDup(a) && NoDup(b) && (forall x :: x in a ==> x !in b)
    ensures NoDup(a + b)
  {
    forall i, j | 0 <= i < j < |a + b| ensures (a + b)[i] != (a + b)[j] {
      if i < |a| <= j { assert a[i] in a && b[j - |a|] in b; }
    }
  }

  ghost function UnreadIn(m: Mail, identity: Address, found: seq<Message>): set<MessageId> {
    set x | x in found && x.from != identity && (x.messageId, identity) !in m.acks :: x.messageId
  }

  lemma UnreadInStep(m: Mail, identity: Address, found: seq<Message>, i: nat)
    requires i < |found| && NoDup(found)
    requires forall x :: x in found ==> x.messageId in m.messages && m.messages[x.messageId] == x
    ensures |UnreadIn(m, identity, found[..i + 1])|
            == |UnreadIn(m, identity, found[..i])|
              + (if found[i].from != identity && (found[i].messageId, identity) !in m.acks then 1 else 0)
  {
    var x := found[i];
    assert found[..i + 1] == found[..i] + [x];
    assert x in found;
    if x.from != identity && (x.messageId, identity) !in m.acks {
      assert UnreadIn(m, identity, found[..i + 1]) == UnreadIn(m, identity, found[..i]) + {x.messageId};
      assert x.messageId !in UnreadIn(m, identity, found[..i]) by {
        forall y | y in found[..i] ensures y.messageId != x.messageId { assert y in found; }
      }
    } else {
      assert UnreadIn(m, identity, found[..i + 1]) == UnreadIn(m, identity, found[..i]);
    }
  }

  lemma UnreadInAll(m: Mail, identity: Address, account: ParticipantId, found: seq<Message>)
    requires Filed(m) && Elems(found) == Values(m, Own(m, identity, account, 0))
    ensures UnreadIn(m, identity, found) == Unread(m, identity, account)
  {
    assert forall x :: x in found ==> x in Elems(found);
    forall id | id in Unread(m, identity, account) ensures id in UnreadIn(m, identity, found) {
      assert m.messages[id] in Elems(found);
    }
  }

  /** `MailboxEngine` over that store. Secrets, nonces and the clock are arguments. */
  class MailboxEngine {
    const store: InMemoryStore
    const hashes: Hashes

    constructor (store: InMemoryStore, hashes: Hashes)
      ensures this.store == store && this.hashes == hashes
    {
      this.store := store;
      this.hashes := hashes;
    }

    method AuthenticateSecret(secret: Text) returns (r: Result<ParticipantId, MailError>)
      ensures r == Authenticate(hashes, store.View(), secret)
    {
      var d := hashes.digest(secret);
      if d !in store.digestIndex || store.digestIndex[d] !in store.participants {
        return Err(PermissionDenied("mail:authenticate"));
      }
      var id := store.digestIndex[d];
      if store.participants[id].digest == d { return Ok(id); }
      return Err(PermissionDenied("mail:authenticate"));
    }

    method RegisterParticipant(id: ParticipantId, title: Option<Text>, may: Permissions, secret: Text)
      returns (r: Result<Text, MailError>)
      modifies store
      ensures (store.View(), r) == Register(hashes, old(store.View()), id, title, may, secret)
    {
      var valid := ValidateSelector("participant id", id);
      if valid.Err? { return Err(valid.error); }
      valid := ValidateBounded("label", title);
      if valid.Err? { return Err(valid.error); }
      if id in store.participants { return Err(Malformed("participant")); }
      store.RegisterParticipant(id, ParticipantRecord(title, hashes.digest(secret), may));
      return Ok(secret);
    }

    method DeregisterParticipant(id: ParticipantId) returns (r: Check)
      modifies store
      ensures (store.View(), r) == Deregister(old(store.View()), id)
    {
      if id !in store.participants { return Err(UnknownParticipant(id)); }
      store.DeregisterParticipant(id);
      return Ok(());
    }

    method RotateSecret(id: ParticipantId, secret: Text) returns (r: Result<Text, MailError>)
      modifies store
      ensures (store.View(), r) == Rotate(hashes, old(store.View()), id, secret)
    {
      if id !in store.participants { return Err(UnknownParticipant(id)); }
      store.SetSecretDigest(id, hashes.digest(secret));
      return Ok(secret);
    }

    method EnsureSessionCard(account: ParticipantId, s: SessionId, card: SessionCard, now: Millis)
      returns (r: Result<SessionId, MailError>)
      modifies store
      ensures (store.View(), r) == EnsureSession(old(store.View()), account, s, card, now)
    {
      var valid := EnsureChecks(store.View(), account, s, card);
      if valid.Err? { return Err(valid.error); }
      var declared := NothingDeclared;
      if s in store.sessions {
        declared := store.sessions[s].card.declared;
      }
      var merged := SessionCard(card.attested, card.corroborated, declared);
      valid := ValidateCard(merged);
      if valid.Err? { return Err(valid.error); }
      store.sessions := store.sessions[s := SessionRecord(account, merged, now)];
      return Ok(s);
    }

    method DeclareSession(s: SessionId, d: Declared) returns (r: Check)
      modifies store
      ensures (store.View(), r) == SetDeclared(old(store.View()), s, d)
    {
      var valid := ValidateSessionId(s);
      if valid.Err? { return valid; }
      if s !in store.sessions { return Err(UnknownSession(s)); }
      valid := ValidateDeclared(d);
      if valid.Err? { return valid; }
      var rec := store.sessions[s];
      store.sessions := store.sessions[s := rec.(card := rec.card.(declared := d))];
      return Ok(());
    }

    method SendMessage(sender: Address, q: SendRequest, now: Millis, nonce: Text)
      returns (r: Result<MessageId, MailError>)
      modifies store
      ensures (store.View(), r) == Send(hashes, old(store.View()), sender, q, now, nonce)
    {
      var valid := ValidateSend(q);
      if valid.Err? { return Err(valid.error); }
      var who := ResolveIdentity(store.View(), sender);
      if who.Err? { return Err(who.error); }
      if !who.value.1.may.maySend { return Err(PermissionDenied("mail:send")); }
      valid := CheckDestination(store.View(), q.to);
      if valid.Err? { return Err(valid.error); }
      var input := HashInput(sender, q, now, nonce);
      var msg := Message(hashes.truncated(input), sender, q.to, q.subject, q.body, q.replyTo, q.correlation, q.refs,
                         now);
      valid := ValidateMessage(msg);
      if valid.Err? { return Err(valid.error); }
      var id := store.InsertMessage(msg, IdempotencyOf(sender, q));
      return Ok(id);
    }

    method AckMail(reader: Address, id: MessageId, now: Millis) returns (r: Result<Ack, MailError>)
      modifies store
      ensures (store.View(), r) == AckMessage(old(store.View()), reader, id, now)
    {
      var who := ResolveIdentity(store.View(), reader);
      if who.Err? { return Err(who.error); }
      var may := RequireRead(who.value.1);
      if may.Err? { return Err(may.error); }
      if id !in store.messages { return Err(UnknownMessage(id)); }
      if !IsReadable(store.View(), store.messages[id], reader, who.value.0, who.value.1) {
        return Err(NotAddressedToYou(id));
      }
      var valid := ValidateMessageId(id);
      if valid.Err? { return Err(valid.error); }
      valid := ValidateParticipantAddress("reader", reader);
      if valid.Err? { return Err(valid.error); }
      if now == 0 { return Err(Malformed("acked_at_unix_ms")); }
      var a := store.RecordAck(Ack(id, reader, now));
      return Ok(a);
    }

    /** The bulk path: three kinds of index query, concatenated. Every message of `Own` appears, and
        appears once. */
    method OwnMessages(identity: Address, account: ParticipantId, since: Millis) returns (found: seq<Message>)
      requires Filed(store.View())
      requires !identity.Room? && identity.participant == account
      ensures NoDup(found) && Elems(found) == Values(store.View(), Own(store.View(), identity, account, since))
    {
      ghost var m := store.View();
      found := store.MessagesToSince(identity, since);
      if identity.Session? {
        var more := store.MessagesToSince(Direct(account), since);
        NoDupConcat(found, more);
        found := found + more;
      }
      var rooms := store.RoomsContaining(account);
      for i := 0 to |rooms|
        invariant NoDup(found)
        invariant forall x :: x in found <==>
          && x.messageId in m.messages && m.messages[x.messageId] == x && x.createdAt >= since
          && (x.to == identity || (identity.Session? && x.to == Direct(account))
              || (x.to.Room? && x.to.room in rooms[..i]))
      {
        var more := store.MessagesToSince(Room(rooms[i]), since);
        assert rooms[..i + 1] == rooms[..i] + [rooms[i]];
        NoDupConcat(found, more);
        found := found + more;
      }
      assert rooms[..|rooms|] == rooms;
      forall x ensures x in found <==> x in Values(m, Own(m, identity, account, since)) {
        if x in found {
          assert x.messageId in Own(m, identity, account, since);
        }
      }
    }

    /** One page: own messages sorted by time and id, cut at `limit`; see `PageUnique`. */
    method BuildPage(identity: Address, account: ParticipantId, since: Millis, limit: nat) returns (page: seq<Message>)
      requires Filed(store.View())
      requires !identity.Room? && identity.participant == account
      ensures IsPage(store.View(), page, Own(store.View(), identity, account, since), limit)
    {
      var found := OwnMessages(identity, account, since);
      SortGivesPage(store.View(), found, Own(store.View(), identity, account, since), limit);
      var all := Sort(Earlier, found);
      return all[..if limit < |all| then limit else |all|];
    }

    method CountUnread(identity: Address, account: ParticipantId) returns (n: nat)
      requires Filed(store.View())
      requires !identity.Room? && identity.participant == account
      ensures n == |Unread(store.View(), identity, account)|
    {
      ghost var m := store.View();
      var found := OwnMessages(identity, account, 0);
      forall x | x in found ensures x.messageId in m.messages && m.messages[x.messageId] == x {
        assert x in Elems(found);
      }
      n := 0;
      assert UnreadIn(m, identity, found[..0]) == {};
      for i := 0 to |found|
        invariant n == |UnreadIn(m, identity, found[..i])|
      {
        UnreadInStep(m, identity, found, i);
        if found[i].from != identity && (found[i].messageId, identity) !in store.acks {
          n := n + 1;
        }
      }
      assert found[..|found|] == found;
      UnreadInAll(m, identity, account, found);
    }

    /** `inbox`. */
    method Inbox(reader: Address, since: Millis, limit: nat) returns (r: Result<(seq<Message>, nat), MailError>)
      requires Filed(store.View())
      ensures var who := ResolveIdentity(store.View(), reader);
              if who.Err? then r == Err(who.error)
              else if RequireRead(who.value.1).Err? then r == Err(RequireRead(who.value.1).error)
              else r.Ok?
                   && IsPage(store.View(), r.value.0, Own(store.View(), reader, who.value.0, since), limit)
                   && r.value.1 == |Unread(store.View(), reader, who.value.0)|
    {
      var who := ResolveIdentity(store.View(), reader);
      if who.Err? { return Err(who.error); }
      var may := RequireRead(who.value.1);
      if may.Err? { return Err(may.error); }
      IdentityShape(store.View(), reader);
      var page := BuildPage(reader, who.value.0, since, limit);
      var unread := CountUnread(reader, who.value.0);
      return Ok((page, unread));
    }
  }
}
