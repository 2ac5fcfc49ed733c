/**
 The waiting inbox: readers that subscribe, check the store, and park until a notification or a
 deadline; senders that commit, look up who can read, and notify. Every line of `inbox_wait` and `send`
 between two awaits is one atomic action, and a run is any interleaving of them with any other
 operation of the engine.
 */
module LongPoll {
  import opened Common
  import opened MailApi
  import opened Mailbox
  import opened MailRuns

  datatype Answer = GotMail | Nothing | Failed(error: MailError)

  datatype Phase =
    | Ready                       // at the top of the loop
    | Subscribed                  // the notification future exists
    | FoundEmpty                  // the store was checked after subscribing and had nothing
    | Parked                      // waiting for the future or the timeout
    | Answered(answer: Answer)

  /** `doubtful` records the rooms whose membership changed, or whose member lookup failed, since the
      reader last found its inbox empty. */
  datatype Waiter = Waiter(
    reader: Address,
    since: Millis,
    limit: nat,
    deadline: nat,
    phase: Phase,
    notified: bool,
    doubtful: set<RoomId>)

  /** A send that has committed message `id` but not yet notified; `accounts` once they have been looked
      up. */
  datatype Delivery = Delivery(id: MessageId, to: Address, accounts: Option<set<ParticipantId>>)

  datatype State = State(
    mail: Mail,
    clock: nat,
    deliveries: map<nat, Delivery>,
    waiters: map<nat, Waiter>,
    entries: set<ParticipantId>)

  const Quiet := State(EmptyMail, 0, map[], map[], {})

  datatype Action =
    | Tick(elapsed: nat)
    | Join(w: nat, reader: Address, since: Millis, limit: nat, wait: nat)
    | Subscribe(w: nat)
    | Check(w: nat)
    | LookAtClock(w: nat)
    | Wake(w: nat)
    | TimeOut(w: nat)
    | Commit(d: nat, sender: Address, request: SendRequest, ms: Millis, nonce: Text)
    | LookUp(d: nat, succeeds: bool)
    | Notify(d: nat)
    | Engine(op: Op)

  // ----- The actions -----

  function SetPhase(s: State, w: nat, p: Phase): (r: State)
    requires w in s.waiters
  {
    s.(waiters := s.waiters[w := s.waiters[w].(phase := p)])
  }

  /** What one engine call answers a reader; see `InboxAnswers` for its tie to the engine's `inbox`. */
  function InboxNow(m: Mail, w: Waiter): (r: Result<bool, MailError>) {
    var (account, rec) :- ResolveIdentity(m, w.reader);
    var _ :- RequireRead(rec);
    Ok(w.limit > 0 && Own(m, w.reader, account, w.since) != {})
  }

  function CheckAction(s: State, w: nat): (r: State)
    requires w in s.waiters
  {
    match InboxNow(s.mail, s.waiters[w])
    case Err(e) => SetPhase(s, w, Answered(Failed(e)))
    case Ok(true) => SetPhase(s, w, Answered(GotMail))
    case Ok(false) => s.(waiters := s.waiters[w := s.waiters[w].(phase := FoundEmpty, doubtful := {})])
  }

  function AccountsFor(m: Mail, to: Address, succeeds: bool): (r: set<ParticipantId>) {
    match to
    case Direct(p) => {p}
    case Session(p, _) => {p}
    case Room(room) => if succeeds && room in m.rooms then m.rooms[room].members else {}
  }

  function Doubt(waiters: map<nat, Waiter>, room: RoomId): (r: map<nat, Waiter>) {
    map w | w in waiters :: waiters[w].(doubtful := waiters[w].doubtful + {room})
  }

  /** `notify_waiters`: every future of a notified account that exists now is completed. */
  function NotifyAll(s: State, accounts: set<ParticipantId>): (r: map<nat, Waiter>) {
    map w | w in s.waiters ::
      var x := s.waiters[w];
      if && !x.reader.Room? && x.reader.participant in accounts && x.reader.participant in s.entries
         && (x.phase.Subscribed? || x.phase.FoundEmpty? || x.phase.Parked?)
      then x.(notified := true) else x
  }

  predicate Enabled(s: State, a: Action) {
    match a
    case Tick(_) => true
    case Join(w, reader, _, _, _) => w !in s.waiters && !reader.Room?
    case Subscribe(w) => w in s.waiters && s.waiters[w].phase.Ready?
    case Check(w) => w in s.waiters && s.waiters[w].phase.Subscribed?
    case LookAtClock(w) => w in s.waiters && s.waiters[w].phase.FoundEmpty?
    case Wake(w) => w in s.waiters && s.waiters[w].phase.Parked? && s.waiters[w].notified
    case TimeOut(w) => w in s.waiters && s.waiters[w].phase.Parked? && s.clock >= s.waiters[w].deadline
    case Commit(d, _, _, _, _) => d !in s.deliveries
    case LookUp(d, _) => d in s.deliveries && s.deliveries[d].accounts.None?
    case Notify(d) => d in s.deliveries && s.deliveries[d].accounts.Some?
    case Engine(op) => !op.OpSend?
  }

  function Act(h: Hashes, s: State, a: Action): (r: State)
    requires Enabled(s, a)
  {
    match a
    case Tick(elapsed) => s.(clock := s.clock + elapsed)
    case Join(w, reader, since, limit, wait) =>
      s.(waiters := s.waiters[w := Waiter(reader, since, limit, s.clock + wait, Ready, false, {})],
         entries := s.entries + {reader.participant})
    case Subscribe(w) => s.(waiters := s.waiters[w := s.waiters[w].(phase := Subscribed, notified := false)])
    case Check(w) => CheckAction(s, w)
    case LookAtClock(w) => SetPhase(s, w, if s.clock >= s.waiters[w].deadline then Answered(Nothing) else Parked)
    case Wake(w) => SetPhase(s, w, Ready)
    case TimeOut(w) => SetPhase(s, w, Ready)
    case Commit(d, sender, q, ms, nonce) => CommitAction(h, s, d, sender, q, ms, nonce)
    case LookUp(d, succeeds) =>
      var to := s.deliveries[d].to;
      s.(deliveries := s.deliveries[d := s.deliveries[d].(accounts := Some(AccountsFor(s.mail, to, succeeds)))],
         waiters := if to.Room? && !succeeds then Doubt(s.waiters, to.room) else s.waiters)
    case Notify(d) => s.(waiters := NotifyAll(s, s.deliveries[d].accounts.value), deliveries := s.deliveries - {d})
    case Engine(op) =>
      s.(mail := Step(h, s.mail, op).0,
         waiters := if op.OpAddMember? || op.OpRemoveMember? then Doubt(s.waiters, op.room) else s.waiters)
  }

  function CommitAction(h: Hashes, s: State, d: nat, sender: Address, q: SendRequest, ms: Millis,
                        nonce: Text): (r: State) {
    var (mail, out) := Send(h, s.mail, sender, q, ms, nonce);
    if out.Err? then s else s.(mail := mail, deliveries := s.deliveries[d := Delivery(out.value, q.to, None)])
  }

  /** Actions that are not enabled do nothing. */
  function Perform(h: Hashes, s: State, acts: seq<Action>): (r: State) {
    if acts == [] then s
    else
      var before := Perform(h, s, acts[..|acts| - 1]);
      var a := acts[|acts| - 1];
      if Enabled(before, a) then Act(h, before, a) else before
  }

  // ----- The invariant -----

  /** Delivery `d` is that of message `id` to `to`, its notification is still to come, and it will reach
      `account`. */
  predicate Covers(ds: map<nat, Delivery>, d: nat, id: MessageId, to: Address, account: ParticipantId) {
    d in ds && ds[d].id == id && ds[d].to == to && (ds[d].accounts.Some? ==> account in ds[d].accounts.value)
  }

  /** The send of message `id` has its notification still to come, and it will reach `account`. */
  ghost predicate Pending(s: State, id: MessageId, to: Address, account: ParticipantId) {
    exists d :: Covers(s.deliveries, d, id, to, account)
  }

  predicate Asleep(x: Waiter) {
    (x.phase.FoundEmpty? || x.phase.Parked?) && !x.notified && x.limit > 0 && !x.reader.Room?
  }

  /** A message addressed so that its readers are beyond doubt. */
  predicate Undoubted(x: Waiter, to: Address) {
    to.Room? ==> to.room !in x.doubtful
  }

  ghost predicate Watched(s: State, x: Waiter) {
    Asleep(x) ==>
      && x.reader.participant in s.entries
      && forall id :: id in Own(s.mail, x.reader, x.reader.participant, x.since) && Undoubted(x, s.mail.messages[id].to)
           ==> Pending(s, id, s.mail.messages[id].to, x.reader.participant)
  }

  ghost predicate NoLostWakeUp(s: State) {
    && (forall w :: w in s.waiters ==> Watched(s, s.waiters[w]))
    && (forall w :: w in s.waiters ==> !s.waiters[w].reader.Room? && s.waiters[w].reader.participant in s.entries)
    && (forall w :: w in s.waiters && s.waiters[w].phase == Answered(Nothing) ==> s.clock >= s.waiters[w].deadline)
  }

  // ----- One action keeps it -----

  /** A page is empty exactly when there is nothing to list or no room to list it. */
  lemma InboxAnswers(m: Mail, page: seq<Message>, ids: set<MessageId>, limit: nat)
    requires ids <= m.messages.Keys && IsPage(m, page, ids, limit)
    ensures page == [] <==> limit == 0 || ids == {}
  {
    var all :| NoDup(all) && Elems(all) == Values(m, ids) && page == all[..if limit < |all| then limit else |all|];
    NoDupSize(all);
    if ids == {} {
      assert Values(m, ids) == {};
    } else {
      var id :| id in ids;
      assert m.messages[id] in Elems(all);
    }
  }

  lemma CheckKeeps(s: State, w: nat)
    requires NoLostWakeUp(s) && w in s.waiters && s.waiters[w].phase.Subscribed?
    ensures NoLostWakeUp(CheckAction(s, w))
  {
    var s' := CheckAction(s, w);
    if InboxNow(s.mail, s.waiters[w]) == Ok(false) {
      IdentityShape(s.mail, s.waiters[w].reader);
      assert Watched(s', s'.waiters[w]);
    }
    forall v | v in s.waiters && v != w ensures Watched(s', s'.waiters[v]) {
      assert Watched(s, s.waiters[v]);
      StillWatched(s, s', s.waiters[v], s'.waiters[v]);
    }
  }

  /** A waiter stays watched when neither its mail nor the pending sends change for the worse. */
  lemma StillWatched(s: State, s': State, x: Waiter, x': Waiter)
    requires Watched(s, x)
    requires Asleep(x') ==> Asleep(x) && x'.reader == x.reader && x'.since == x.since && x.doubtful <= x'.doubtful
    requires s.entries <= s'.entries
    requires Asleep(x') ==>
               (forall id :: id in Own(s'.mail, x.reader, x.reader.participant, x.since)
                  && Undoubted(x', s'.mail.messages[id].to)
                  ==> (&& id in Own(s.mail, x.reader, x.reader.participant, x.since)
                       && s'.mail.messages[id] == s.mail.messages[id]
                       && (Pending(s, id, s.mail.messages[id].to, x.reader.participant)
                           ==> Pending(s', id, s.mail.messages[id].to, x.reader.participant))))
    ensures Watched(s', x')
  {
  }

  /** Actions that touch one waiter and put nobody to sleep. */
  lemma WaiterMoveKeeps(s: State, s': State, w: nat)
    requires NoLostWakeUp(s) && w in s.waiters && w in s'.waiters
    requires s' == s.(waiters := s.waiters[w := s'.waiters[w]])
    requires s'.waiters[w] == s.waiters[w].(phase := s'.waiters[w].phase, notified := s'.waiters[w].notified)
    requires Asleep(s'.waiters[w]) ==> Asleep(s.waiters[w])
    requires s'.waiters[w].phase == Answered(Nothing) ==> s.clock >= s.waiters[w].deadline
    ensures NoLostWakeUp(s')
  {
    forall v | v in s'.waiters ensures Watched(s', s'.waiters[v]) {
      StillWatched(s, s', s.waiters[v], s'.waiters[v]);
    }
  }

  lemma JoinKeeps(s: State, s': State, w: nat)
    requires NoLostWakeUp(s) && w !in s.waiters && w in s'.waiters && !s'.waiters[w].reader.Room?
             && s'.waiters[w].phase.Ready?
    requires s'
             == s.(waiters := s.waiters[w := s'.waiters[w]], entries := s.entries + {s'.waiters[w].reader.participant})
    ensures NoLostWakeUp(s')
  {
    forall v | v in s.waiters ensures Watched(s', s'.waiters[v]) {
      StillWatched(s, s', s.waiters[v], s'.waiters[v]);
    }
  }

  /** What a successful send leaves: its own message, to its own destination, or nothing new. */
  lemma SendLeaves(h: Hashes, m: Mail, sender: Address, q: SendRequest, ms: Millis, nonce: Text)
    ensures var m' := Send(h, m, sender, q, ms, nonce).0;
            && m'.rooms == m.rooms
            && (forall id :: id in m'.messages ==>
                  || (id in m.messages && m'.messages[id] == m.messages[id])
                  || (m'.messages[id].to == q.to && Send(h, m, sender, q, ms, nonce).1 == Ok(id)))
  {
    var msg, key := MessageOf(h, sender, q, ms, nonce), IdempotencyOf(sender, q);
    InsertLeaves(m, msg, key);
    assert Send(h, m, sender, q, ms, nonce).0 == m
           || Send(h, m, sender, q, ms, nonce).0 == InsertMessage(m, msg, key).0;
  }

  lemma InsertLeaves(m: Mail, msg: Message, key: Option<(Address, Text)>)
    ensures var m' := InsertMessage(m, msg, key).0;
            forall id :: id in m'.messages ==>
              || (id in m.messages && m'.messages[id] == m.messages[id])
              || (m'.messages[id] == msg && InsertMessage(m, msg, key).1 == id)
  {
  }

  lemma CommitKeeps(h: Hashes, s: State, d: nat, sender: Address, q: SendRequest, ms: Millis, nonce: Text)
    requires NoLostWakeUp(s) && d !in s.deliveries
    ensures NoLostWakeUp(CommitAction(h, s, d, sender, q, ms, nonce))
  {
    var s' := CommitAction(h, s, d, sender, q, ms, nonce);
    SendLeaves(h, s.mail, sender, q, ms, nonce);
    var out := Send(h, s.mail, sender, q, ms, nonce).1;
    if out.Ok? {
      assert s'.deliveries[d] == Delivery(out.value, q.to, None);
      forall w | w in s.waiters ensures Watched(s', s.waiters[w]) {
        var x := s.waiters[w];
        assert Watched(s, x);
        if Asleep(x) {
          forall id | id in Own(s'.mail, x.reader, x.reader.participant, x.since)
            && Undoubted(x, s'.mail.messages[id].to)
            ensures Pending(s', id, s'.mail.messages[id].to, x.reader.participant)
          {
            if id in s.mail.messages && s'.mail.messages[id] == s.mail.messages[id] {
              PendingKept(s, s', id, s'.mail.messages[id].to, x.reader.participant);
            } else {
              assert Covers(s'.deliveries, d, id, q.to, x.reader.participant);
            }
          }
        }
      }
    }
  }

  lemma PendingKept(s: State, s': State, id: MessageId, to: Address, account: ParticipantId)
    requires Pending(s, id, to, account)
    requires forall d :: d in s.deliveries ==> d in s'.deliveries && s'.deliveries[d] == s.deliveries[d]
    ensures Pending(s', id, to, account)
  {
    var d :| Covers(s.deliveries, d, id, to, account);
    assert Covers(s'.deliveries, d, id, to, account);
  }

  /** Own mail reaches, by a successful lookup, the account that owns it. */
  lemma OwnerIsLookedUp(m: Mail, x: Waiter, id: MessageId)
    requires !x.reader.Room? && id in Own(m, x.reader, x.reader.participant, x.since)
    ensures x.reader.participant in AccountsFor(m, m.messages[id].to, true)
    ensures !m.messages[id].to.Room? ==> x.reader.participant in AccountsFor(m, m.messages[id].to, false)
  {
  }

  lemma LookUpKeeps(h: Hashes, s: State, d: nat, succeeds: bool)
    requires NoLostWakeUp(s) && Enabled(s, LookUp(d, succeeds))
    ensures NoLostWakeUp(Act(h, s, LookUp(d, succeeds)))
  {
    var s' := Act(h, s, LookUp(d, succeeds));
    forall w | w in s'.waiters ensures Watched(s', s'.waiters[w]) {
      var x, x' := s.waiters[w], s'.waiters[w];
      assert Watched(s, x);
      if Asleep(x') {
        forall id | id in Own(s.mail, x.reader, x.reader.participant, x.since) && Undoubted(x', s.mail.messages[id].to)
          ensures Pending(s', id, s.mail.messages[id].to, x.reader.participant)
        {
          var to := s.mail.messages[id].to;
          assert Undoubted(x, to);
          assert Pending(s, id, to, x.reader.participant);
          var e :| Covers(s.deliveries, e, id, to, x.reader.participant);
          OwnerIsLookedUp(s.mail, x, id);
          assert Covers(s'.deliveries, e, id, to, x.reader.participant);
        }
      }
    }
  }

  lemma NotifyKeeps(h: Hashes, s: State, d: nat)
    requires NoLostWakeUp(s) && Enabled(s, Notify(d))
    ensures NoLostWakeUp(Act(h, s, Notify(d)))
  {
    var s' := Act(h, s, Notify(d));
    forall w | w in s'.waiters ensures Watched(s', s'.waiters[w]) {
      var x, x' := s.waiters[w], s'.waiters[w];
      assert Watched(s, x);
      if Asleep(x') {
        assert x.reader.participant !in s.deliveries[d].accounts.value;
        forall id | id in Own(s.mail, x.reader, x.reader.participant, x.since) && Undoubted(x', s.mail.messages[id].to)
          ensures Pending(s', id, s.mail.messages[id].to, x.reader.participant)
        {
          var to := s.mail.messages[id].to;
          assert Pending(s, id, to, x.reader.participant);
          var e :| Covers(s.deliveries, e, id, to, x.reader.participant);
          assert Covers(s'.deliveries, e, id, to, x.reader.participant);
        }
      }
    }
  }

  /** Apart from one room, and from rooms with no members, memberships are the same. */
  ghost predicate SameMembers(m: Mail, m': Mail, but: Option<RoomId>) {
    forall r :: r in m'.rooms && Some(r) != but
      ==> (r in m.rooms && m'.rooms[r].members == m.rooms[r].members) || m'.rooms[r].members == {}
  }

  lemma RoomOpsLeave(m: Mail, room: RoomId, p: ParticipantId, now: Millis)
    ensures SameMembers(m, CreateRoom(m, room, now).0, None)
    ensures SameMembers(m, AddMember(m, room, p).0, Some(room))
            && SameMembers(m, RemoveMember(m, room, p).0, Some(room))
  {
  }

  function TouchedRoom(op: Op): (r: Option<RoomId>) {
    if op.OpAddMember? || op.OpRemoveMember? then Some(op.room) else None
  }

  /** Other engine operations leave messages alone, and change a room's members only by the two
      membership operations. */
  lemma EngineLeaves(h: Hashes, m: Mail, op: Op)
    requires !op.OpSend?
    ensures Step(h, m, op).0.messages == m.messages
    ensures SameMembers(m, Step(h, m, op).0, TouchedRoom(op))
  {
    if op.OpCreateRoom? {
      RoomOpsLeave(m, op.room, [], op.now);
    } else if op.OpAddMember? || op.OpRemoveMember? {
      RoomOpsLeave(m, op.room, op.member, 0);
    } else {
      assert Step(h, m, op).0.rooms == m.rooms;
    }
  }

  lemma EngineKeeps(h: Hashes, s: State, op: Op)
    requires NoLostWakeUp(s) && !op.OpSend?
    ensures NoLostWakeUp(Act(h, s, Engine(op)))
  {
    var s' := Act(h, s, Engine(op));
    EngineLeaves(h, s.mail, op);
    forall w | w in s'.waiters ensures Watched(s', s'.waiters[w]) {
      var x, x' := s.waiters[w], s'.waiters[w];
      forall id, to, account | Pending(s, id, to, account) ensures Pending(s', id, to, account) {
        PendingKept(s, s', id, to, account);
      }
      StillWatched(s, s', x, x');
    }
  }

  lemma ActKeeps(h: Hashes, s: State, a: Action)
    requires NoLostWakeUp(s) && Enabled(s, a)
    ensures NoLostWakeUp(Act(h, s, a))
  {
    var s' := Act(h, s, a);
    match a
    case Tick(_) =>
      forall w | w in s'.waiters
        ensures Watched(s', s'.waiters[w]) { StillWatched(s, s', s.waiters[w], s'.waiters[w]); }
    case Join(w, _, _, _, _) => JoinKeeps(s, s', w);
    case Subscribe(w) => WaiterMoveKeeps(s, s', w);
    case Check(w) => CheckKeeps(s, w);
    case LookAtClock(w) => WaiterMoveKeeps(s, s', w);
    case Wake(w) => WaiterMoveKeeps(s, s', w);
    case TimeOut(w) => WaiterMoveKeeps(s, s', w);
    case Commit(d, sender, q, ms, nonce) => CommitKeeps(h, s, d, sender, q, ms, nonce);
    case LookUp(d, succeeds) => LookUpKeeps(h, s, d, succeeds);
    case Notify(d) => NotifyKeeps(h, s, d);
    case Engine(op) => EngineKeeps(h, s, op);
  }

  /**
   In every interleaving: while a reader is parked and not notified, every stored message it could
   read (to its account, its exact session, or a room whose membership did not change and whose lookup
   did not fail) belongs to a send whose notification is still to come and will reach it; and an empty
   answer is given only once the deadline has passed.
   */
  lemma {:induction false} WakeUpsAreNeverLost(h: Hashes, acts: seq<Action>)
    ensures NoLostWakeUp(Perform(h, Quiet, acts))
    decreases |acts|
  {
    if acts != [] {
      WakeUpsAreNeverLost(h, acts[..|acts| - 1]);
      var before := Perform(h, Quiet, acts[..|acts| - 1]);
      if Enabled(before, acts[|acts| - 1]) {
        ActKeeps(h, before, acts[|acts| - 1]);
      }
    }
  }

  // ----- What is pending arrives -----

  lemma Then(h: Hashes, s: State, acts: seq<Action>, a: Action)
    requires Enabled(Perform(h, s, acts), a)
    ensures Perform(h, s, acts + [a]) == Act(h, Perform(h, s, acts), a)
  {
    assert (acts + [a])[..|acts|] == acts;
  }

  /** From its lookup on, a delivery's next step and then the reader's own steps end in mail. */
  lemma NotifyThenAnswer(h: Hashes, s: State, s0: seq<Action>, w: nat, d: nat) returns (acts: seq<Action>)
    requires var t := Perform(h, s, s0);
             && w in t.waiters && t.waiters[w].phase.Parked? && InboxNow(t.mail, t.waiters[w]) == Ok(true)
             && !t.waiters[w].reader.Room? && t.waiters[w].reader.participant in t.entries
             && d in t.deliveries && t.deliveries[d].accounts.Some?
                && t.waiters[w].reader.participant in t.deliveries[d].accounts.value
    ensures acts == s0 + [Notify(d), Wake(w), Subscribe(w), Check(w)]
    ensures w in Perform(h, s, acts).waiters && Perform(h, s, acts).waiters[w].phase == Answered(GotMail)
  {
    Then(h, s, s0, Notify(d));
    NotifyReaches(h, Perform(h, s, s0), w, d);
    WokenAnswers(h, s, s0 + [Notify(d)], w);
    acts := s0 + [Notify(d), Wake(w), Subscribe(w), Check(w)];
    assert acts == s0 + [Notify(d)] + [Wake(w)] + [Subscribe(w)] + [Check(w)];
  }

  lemma NotifyReaches(h: Hashes, t: State, w: nat, d: nat)
    requires w in t.waiters && t.waiters[w].phase.Parked? && !t.waiters[w].reader.Room?
    requires d in t.deliveries && t.deliveries[d].accounts.Some?
    requires t.waiters[w].reader.participant in t.deliveries[d].accounts.value
             && t.waiters[w].reader.participant in t.entries
    ensures var u := Act(h, t, Notify(d));
            u.mail == t.mail && w in u.waiters && u.waiters[w] == t.waiters[w].(notified := true)
  {
  }

  lemma WokenAnswers(h: Hashes, s: State, acts: seq<Action>, w: nat)
    requires var t := Perform(h, s, acts);
             && w in t.waiters && t.waiters[w].phase.Parked? && t.waiters[w].notified
             && InboxNow(t.mail, t.waiters[w]) == Ok(true)
    ensures var u := Perform(h, s, acts + [Wake(w)] + [Subscribe(w)] + [Check(w)]);
            w in u.waiters && u.waiters[w].phase == Answered(GotMail)
  {
    Then(h, s, acts, Wake(w));
    Then(h, s, acts + [Wake(w)], Subscribe(w));
    Then(h, s, acts + [Wake(w)] + [Subscribe(w)], Check(w));
  }

  /** A lookup finds the reader of the message and leaves everything else. */
  lemma LookUpReaches(h: Hashes, s: State, w: nat, id: MessageId, d: nat)
    requires w in s.waiters && !s.waiters[w].reader.Room?
    requires id in Own(s.mail, s.waiters[w].reader, s.waiters[w].reader.participant, s.waiters[w].since)
    requires d in s.deliveries && s.deliveries[d].to == s.mail.messages[id].to && s.deliveries[d].accounts.None?
    ensures var t := Perform(h, s, [LookUp(d, true)]);
            && (t.mail, t.waiters, t.entries) == (s.mail, s.waiters, s.entries)
            && d in t.deliveries && t.deliveries[d].accounts.Some?
            && s.waiters[w].reader.participant in t.deliveries[d].accounts.value
  {
    OwnerIsLookedUp(s.mail, s.waiters[w], id);
    Then(h, s, [], LookUp(d, true));
    assert [] + [LookUp(d, true)] == [LookUp(d, true)];
  }

  /**
   Whenever a reader is parked while mail it could read is stored, the pending send that the invariant
   promises delivers it: the remaining steps of that one send, then the reader's own next steps, end
   in an answer with mail, without the deadline and without anybody else doing anything.
   */
  lemma PendingSendDelivers(h: Hashes, s: State, w: nat, id: MessageId) returns (d: nat, acts: seq<Action>)
    requires NoLostWakeUp(s) && w in s.waiters && Asleep(s.waiters[w]) && s.waiters[w].phase.Parked?
    requires InboxNow(s.mail, s.waiters[w]).Ok?
    requires id in Own(s.mail, s.waiters[w].reader, s.waiters[w].reader.participant, s.waiters[w].since)
    requires Undoubted(s.waiters[w], s.mail.messages[id].to)
    ensures d in s.deliveries && s.deliveries[d].id == id && s.deliveries[d].to == s.mail.messages[id].to
    ensures forall a :: a in acts
              ==> a == LookUp(d, true) || a == Notify(d) || a == Wake(w) || a == Subscribe(w) || a == Check(w)
    ensures w in Perform(h, s, acts).waiters && Perform(h, s, acts).waiters[w].phase == Answered(GotMail)
  {
    var x, to := s.waiters[w], s.mail.messages[id].to;
    IdentityShape(s.mail, x.reader);
    assert Watched(s, x);
    assert Pending(s, id, to, x.reader.participant);
    var e :| Covers(s.deliveries, e, id, to, x.reader.participant);
    d := e;
    if s.deliveries[d].accounts.None? {
      LookUpReaches(h, s, w, id, d);
      acts := NotifyThenAnswer(h, s, [LookUp(d, true)], w, d);
    } else {
      acts := NotifyThenAnswer(h, s, [], w, d);
    }
  }

  // ----- What a reader is answered -----

  /** The reader asked for this, and is told that there is nothing only once its time is up. */
  ghost predicate Served(s: State, w: nat, reader: Address, since: Millis, limit: nat, until: nat) {
    && w in s.waiters
    && (s.waiters[w].reader, s.waiters[w].since, s.waiters[w].limit, s.waiters[w].deadline)
       == (reader, since, limit, until)
    && (s.waiters[w].phase == Answered(Nothing) ==> s.clock >= until)
  }

  lemma ActServes(h: Hashes, s: State, a: Action, w: nat, reader: Address, since: Millis, limit: nat, until: nat)
    requires Enabled(s, a) && Served(s, w, reader, since, limit, until)
    ensures Served(Act(h, s, a), w, reader, since, limit, until)
  {
  }

  /** Whatever happens after a reader began to wait, in any state: it is answered "nothing" only after all
      of the time it was ready to wait has passed, and about what it asked. */
  lemma {:induction false} NothingOnlyAfterWait(h: Hashes, s: State, w: nat, reader: Address, since: Millis, limit: nat,
                                                wait: nat, acts: seq<Action>)
    requires w !in s.waiters && !reader.Room?
    ensures Served(Perform(h, s, [Join(w, reader, since, limit, wait)] + acts), w, reader, since, limit, s.clock + wait)
    decreases |acts|
  {
    var join := Join(w, reader, since, limit, wait);
    if acts == [] {
      assert [join] + acts == [] + [join];
      Then(h, s, [], join);
    } else {
      var n := |acts| - 1;
      NothingOnlyAfterWait(h, s, w, reader, since, limit, wait, acts[..n]);
      assert ([join] + acts)[..|acts|] == [join] + acts[..n];
      var before := Perform(h, s, [join] + acts[..n]);
      if Enabled(before, acts[n]) {
        ActServes(h, before, acts[n], w, reader, since, limit, s.clock + wait);
      }
    }
  }

  /** A check answers as the engine's inbox does: its error, mail exactly if the page is not empty. */
  lemma CheckAnswersAsInbox(h: Hashes, s: State, w: nat, page: seq<Message>)
    requires Enabled(s, Check(w))
    ensures var x := s.waiters[w];
            var phase := Act(h, s, Check(w)).waiters[w].phase;
            match ResolveIdentity(s.mail, x.reader)
            case Err(e) => phase == Answered(Failed(e))
            case Ok((account, rec)) =>
              if !rec.may.mayRead && !rec.may.operator then phase == Answered(Failed(PermissionDenied("mail:read")))
              else IsPage(s.mail, page, Own(s.mail, x.reader, account, x.since), x.limit)
                   ==> phase == if page == [] then FoundEmpty else Answered(GotMail)
  {
    var x := s.waiters[w];
    match ResolveIdentity(s.mail, x.reader)
    case Err(e) =>
    case Ok((account, rec)) =>
      if IsPage(s.mail, page, Own(s.mail, x.reader, account, x.since), x.limit) {
        InboxAnswers(s.mail, page, Own(s.mail, x.reader, account, x.since), x.limit);
      }
  }

  /** An answer stays as it is, and is given only by the check or, with nothing found, at the deadline. */
  lemma AnswerHasCause(h: Hashes, s: State, a: Action, w: nat)
    requires Enabled(s, a) && w in s.waiters
    ensures var phase, phase' := s.waiters[w].phase, Act(h, s, a).waiters[w].phase;
            && (phase.Answered? ==> phase' == phase)
            && (!phase.Answered? && phase'.Answered? ==>
                  if phase'.answer == Nothing then a == LookAtClock(w) && s.clock >= s.waiters[w].deadline
                  else a == Check(w))
  {
  }

  /** A reader that is parked when its time is up is answered by its own next steps alone. */
  lemma DeadlineAnswers(h: Hashes, s: State, w: nat)
    requires w in s.waiters && s.waiters[w].phase.Parked? && s.clock >= s.waiters[w].deadline
    ensures var s' := Perform(h, s, [TimeOut(w)] + [Subscribe(w)] + [Check(w)] + [LookAtClock(w)]);
            w in s'.waiters && s'.waiters[w].phase.Answered?
  {
    assert [] + [TimeOut(w)] == [TimeOut(w)];
    Then(h, s, [], TimeOut(w));
    Then(h, s, [TimeOut(w)], Subscribe(w));
    Then(h, s, [TimeOut(w)] + [Subscribe(w)], Check(w));
    var acts := [TimeOut(w)] + [Subscribe(w)] + [Check(w)];
    var t := Perform(h, s, acts);
    if Enabled(t, LookAtClock(w)) {
      Then(h, s, acts, LookAtClock(w));
    } else {
      assert (acts + [LookAtClock(w)])[..|acts|] == acts;
    }
  }

  // ----- The mailbox underneath -----

  /** The engine operations that an interleaving performs, in the order in which they take effect. */
  function Operations(h: Hashes, acts: seq<Action>): (ops: seq<Op>) {
    if acts == [] then []
    else
      var n := |acts| - 1;
      var ops := Operations(h, acts[..n]);
      if !Enabled(Perform(h, Quiet, acts[..n]), acts[n]) then ops
      else match acts[n]
           case Commit(_, sender, q, ms, nonce) => ops + [OpSend(sender, q, ms, nonce)]
           case Engine(op) => ops + [op]
           case _ => ops
  }

  /** However readers and senders interleave, the mailbox is that of a plain run of the engine: every theorem
      about runs holds of it. */
  lemma {:induction false} MailIsOfRun(h: Hashes, acts: seq<Action>)
    ensures Perform(h, Quiet, acts).mail == Run(h, Operations(h, acts))
    decreases |acts|
  {
    if acts != [] {
      var n := |acts| - 1;
      MailIsOfRun(h, acts[..n]);
      var ops, s := Operations(h, acts[..n]), Perform(h, Quiet, acts[..n]);
      if Enabled(s, acts[n]) {
        ActMail(h, s, acts[n], ops);
      }
    }
  }

  lemma ActMail(h: Hashes, s: State, a: Action, ops: seq<Op>)
    requires Enabled(s, a) && s.mail == Run(h, ops)
    ensures a.Commit? ==> Act(h, s, a).mail == Run(h, ops + [OpSend(a.sender, a.request, a.ms, a.nonce)])
    ensures a.Engine? ==> Act(h, s, a).mail == Run(h, ops + [a.op])
    ensures !a.Commit? && !a.Engine? ==> Act(h, s, a).mail == s.mail
  {
    match a
    case Commit(d, sender, q, ms, nonce) =>
      RunAppends(h, ops, OpSend(sender, q, ms, nonce));
      CommitMail(h, s, d, sender, q, ms, nonce);
    case Engine(op) => RunAppends(h, ops, op);
    case _ =>
  }

  lemma CommitMail(h: Hashes, s: State, d: nat, sender: Address, q: SendRequest, ms: Millis, nonce: Text)
    ensures CommitAction(h, s, d, sender, q, ms, nonce).mail == Step(h, s.mail, OpSend(sender, q, ms, nonce)).0
  {
  }

  lemma RunAppends(h: Hashes, ops: seq<Op>, op: Op)
    ensures Run(h, ops + [op]) == Step(h, Run(h, ops), op).0
  {
    assert (ops + [op])[..|ops|] == ops;
  }
}
