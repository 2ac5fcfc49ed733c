/**
 Invites, keys and credentials of the product kit: the tables, and the enrollment as the source runs
 it alone.
 */
module KeyLogin {
  import opened Common

  const INVITE_TTL_MS: int := 604_800_000

  type UserId = nat

  datatype User = User(nick: string, changes: nat, changedMs: int)

  datatype Invite = Invite(user: UserId, expiresMs: int, reserved: bool)

  /** `byNick` is the unique index on the lower-cased nick; credentials and keys name their owner. */
  datatype Tables = Tables(
    users: map<UserId, User>,
    byNick: map<string, UserId>,
    creds: map<string, UserId>,
    keys: map<string, UserId>,
    invites: map<string, Invite>,
    nextId: nat)

  const EmptyTables := Tables(map[], map[], map[], map[], map[], 1)

  datatype StoreError = NickTaken | NotFound

  datatype ServiceError = InvalidNick | Taken | Cooldown(retryAfterMs: int) | Missing | Unauthorized

  /** The nick grammar and lists, and the cooldown between nick changes. */
  datatype NickRules = NickRules(valid: string -> bool, cooldownMs: int)

  function LowerChar(c: char): (r: char) {
    if 'A' <= c <= 'Z' then (c as int - 'A' as int + 'a' as int) as char else c
  }

  function Lower(s: string): (r: string) {
    seq(|s|, i requires 0 <= i < |s| => LowerChar(s[i]))
  }

  // ----- Store methods, each one transaction -----

  function InsertUser(t: Tables, nick: string, now: int): (r: (Tables, Result<UserId, StoreError>))
    ensures r.0 == t.(users := r.0.users, byNick := r.0.byNick, nextId := r.0.nextId)
  {
    if Lower(nick) in t.byNick then (t, Err(NickTaken))
    else
      var t' := t.(users := t.users[t.nextId := User(nick, 0, 0)], byNick := t.byNick[Lower(nick) := t.nextId],
                   nextId := t.nextId + 1);
      (t', Ok(t.nextId))
  }

  function UpdateNick(t: Tables, id: UserId, nick: string, now: int): (r: (Tables, Result<User, StoreError>))
    ensures r.0 == t.(users := r.0.users, byNick := r.0.byNick) && r.0.users.Keys == t.users.Keys
  {
    if id !in t.users then (t, Err(NotFound))
    else if Lower(nick) in t.byNick && t.byNick[Lower(nick)] != id then (t, Err(NickTaken))
    else
      var u := User(nick, t.users[id].changes + 1, now);
      (t.(users := t.users[id := u], byNick := (t.byNick - {Lower(t.users[id].nick)})[Lower(nick) := id]), Ok(u))
  }

  /** The user goes, and with it everything that names it. */
  function DeleteUser(t: Tables, id: UserId): (r: Tables) {
    Tables(t.users - {id},
           map n | n in t.byNick && t.byNick[n] != id :: t.byNick[n],
           map c | c in t.creds && t.creds[c] != id :: t.creds[c],
           map k | k in t.keys && t.keys[k] != id :: t.keys[k],
           map i | i in t.invites && t.invites[i].user != id :: t.invites[i],
           t.nextId)
  }

  function CredentialsOf(t: Tables, id: UserId): (r: set<string>) {
    set c | c in t.creds && t.creds[c] == id
  }

  function AddCredential(t: Tables, id: UserId, cred: string): (r: (Tables, Result<(), StoreError>)) {
    if id !in t.users || cred in t.creds then (t, Err(NickTaken)) else (t.(creds := t.creds[cred := id]), Ok(()))
  }

  function AddKey(t: Tables, id: UserId, key: string): (r: (Tables, Result<(), StoreError>)) {
    if id !in t.users || key in t.keys then (t, Err(NickTaken)) else (t.(keys := t.keys[key := id]), Ok(()))
  }

  function PutInvite(t: Tables, code: string, inv: Invite): (r: (Tables, Result<(), StoreError>)) {
    if inv.user !in t.users then (t, Err(NickTaken)) else (t.(invites := t.invites[code := inv]), Ok(()))
  }

  /** A live invite's user, that user's row, and whether its nick is reserved. */
  function PeekInvite(t: Tables, code: string, now: int): (r: Option<(UserId, User, bool)>) {
    if code in t.invites && t.invites[code].expiresMs > now && t.invites[code].user in t.users
    then Some((t.invites[code].user, t.users[t.invites[code].user], t.invites[code].reserved))
    else None
  }

  /** Spent or expired, the invite goes either way. */
  function TakeInvite(t: Tables, code: string, now: int): (r: (Tables, Option<(UserId, User, bool)>)) {
    (t.(invites := t.invites - {code}), PeekInvite(t, code, now))
  }

  /** `Ok(true)`: rename to `want`; `Ok(false)`: it is the nick the user has. */
  function CheckNick(rules: NickRules, t: Tables, u: User, reserved: bool, want: string, now: int)
    : (r: Result<bool, ServiceError>)
  {
    if Lower(want) == Lower(u.nick) then Ok(false)
    else if reserved then Err(InvalidNick)
    else if !rules.valid(want) then Err(InvalidNick)
    else if u.changes >= 1 && now < u.changedMs + rules.cooldownMs
    then Err(Cooldown(u.changedMs + rules.cooldownMs - now))
    else if Lower(want) in t.byNick then Err(Taken)
    else Ok(true)
  }

  /** The session of a key: its credential, added if the user does not have it yet. */
  function KeySession(t: Tables, id: UserId, key: string): (r: (Tables, Result<(), StoreError>)) {
    if key in t.creds && t.creds[key] == id then (t, Ok(())) else AddCredential(t, id, key)
  }

  /** The nick index is the exact inverse of the users' lower-cased nicks: nicks are unique up to case. */
  ghost predicate NicksExact(t: Tables) {
    && (forall id :: id in t.users ==> Lower(t.users[id].nick) in t.byNick && t.byNick[Lower(t.users[id].nick)] == id)
    && (forall n :: n in t.byNick ==> t.byNick[n] in t.users && Lower(t.users[t.byNick[n]].nick) == n)
    && (forall id :: id in t.users ==> id < t.nextId)
  }

  // ----- Enrollment, run alone -----

  function FromStore(e: StoreError): (r: ServiceError) {
    match e
    case NickTaken => Taken
    case NotFound => Missing
  }

  /** The nick the client asked for: checked, and put in place of the placeholder when it differs. */
  function Rename(rules: NickRules, t: Tables, id: UserId, u: User, reserved: bool, want: Option<string>, now: int)
    : (r: (Tables, Result<(), ServiceError>))
  {
    if want.None? then (t, Ok(()))
    else
      var ok := CheckNick(rules, t, u, reserved, want.value, now);
      if ok.Err? then (t, Err(ok.error))
      else if !ok.value then (t, Ok(()))
      else
        var (t', out) := UpdateNick(t, id, want.value, now);
        (t', if out.Ok? then Ok(()) else Err(FromStore(out.error)))
  }

  function Bind(t: Tables, id: UserId, key: string): (r: (Tables, Result<UserId, ServiceError>)) {
    var (t1, added) := AddKey(t, id, key);
    if added.Err? then (t1, Err(FromStore(added.error)))
    else
      var (t2, session) := KeySession(t1, id, key);
      (t2, if session.Ok? then Ok(id) else Err(FromStore(session.error)))
  }

  /** From the moment the invite is spent: a refused nick gives the invite back. */
  function AfterTake(rules: NickRules, t: Tables, code: string, id: UserId, u: User, reserved: bool, key: string,
                     want: Option<string>, now: int)
    : (r: (Tables, Result<UserId, ServiceError>))
  {
    var (t1, renamed) := Rename(rules, t, id, u, reserved, want, now);
    if renamed.Err? then (PutInvite(t1, code, Invite(id, now + INVITE_TTL_MS, reserved)).0, Err(renamed.error))
    else Bind(t1, id, key)
  }

  /** Specification of `enroll_with_nick` after the signature check. */
  function Enrolled(rules: NickRules, t: Tables, code: string, key: string, want: Option<string>, now: int)
    : (r: (Tables, Result<UserId, ServiceError>))
  {
    var seen := PeekInvite(t, code, now);
    if seen.Some? && want.Some? && CheckNick(rules, t, seen.value.1, seen.value.2, want.value, now).Err?
    then (t, Err(CheckNick(rules, t, seen.value.1, seen.value.2, want.value, now).error))
    else
      var (t1, taken) := TakeInvite(t, code, now);
      if taken.None? then (t1, Err(Unauthorized))
      else AfterTake(rules, t1, code, taken.value.0, taken.value.1, taken.value.2, key, want, now)
  }

  class Users {
    const rules: NickRules
    var t: Tables

    constructor (rules: NickRules)
      ensures t == EmptyTables && this.rules == rules
    {
      this.rules := rules;
      t := EmptyTables;
    }

    method Finish(code: string, id: UserId, u: User, reserved: bool, key: string, want: Option<string>, now: int)
      returns (r: Result<UserId, ServiceError>)
      modifies this
      ensures (t, r) == AfterTake(rules, old(t), code, id, u, reserved, key, want, now)
    {
      var refused: Option<ServiceError> := None;
      if want.Some? {
        var ok := CheckNick(rules, t, u, reserved, want.value, now);
        if ok.Err? {
          refused := Some(ok.error);
        } else if ok.value {
          var (t1, renamed) := UpdateNick(t, id, want.value, now);
          t := t1;
          if renamed.Err? {
            refused := Some(FromStore(renamed.error));
          }
        }
      }
      if refused.Some? {
        var (t2, _) := PutInvite(t, code, Invite(id, now + INVITE_TTL_MS, reserved));
        t := t2;
        return Err(refused.value);
      }
      var (t3, added) := AddKey(t, id, key);
      t := t3;
      if added.Err? { return Err(FromStore(added.error)); }
      var (t4, session) := KeySession(t, id, key);
      t := t4;
      if session.Err? { return Err(FromStore(session.error)); }
      return Ok(id);
    }

    method Enroll(code: string, key: string, want: Option<string>, now: int) returns (r: Result<UserId, ServiceError>)
      modifies this
      ensures (t, r) == Enrolled(rules, old(t), code, key, want, now)
    {
      var seen := PeekInvite(t, code, now);
      if want.Some? && seen.Some? {
        var ok := CheckNick(rules, t, seen.value.1, seen.value.2, want.value, now);
        if ok.Err? { return Err(ok.error); }
      }
      var (t1, taken) := TakeInvite(t, code, now);
      t := t1;
      if taken.None? { return Err(Unauthorized); }
      r := Finish(code, taken.value.0, taken.value.1, taken.value.2, key, want, now);
    }
  }

  /** The user under the nick it asked for, if that is another than it has: the change is counted and dated. */
  function Renamed(u: User, want: Option<string>, now: int): (r: User) {
    if want.Some? && Lower(want.value) != Lower(u.nick) then User(want.value, u.changes + 1, now) else u
  }

  lemma RenameKeeps(rules: NickRules, t: Tables, id: UserId, reserved: bool, want: Option<string>, now: int)
    requires NicksExact(t) && id in t.users
    ensures var (t', out) := Rename(rules, t, id, t.users[id], reserved, want, now);
            && NicksExact(t')
            && (out.Err? ==> t' == t && want.Some? && CheckNick(rules, t, t.users[id], reserved, want.value, now).Err?)
            && (out.Ok? ==> && t' == t.(users := t.users[id := t'.users[id]], byNick := t'.byNick) && id in t'.users
                            && t'.users[id] == Renamed(t.users[id], want, now))
  {
    var (t', out) := Rename(rules, t, id, t.users[id], reserved, want, now);
    if want.Some? && CheckNick(rules, t, t.users[id], reserved, want.value, now) == Ok(true) {
      UpdateKeepsNicks(t, id, want.value, now);
      assert UpdateNick(t, id, want.value, now).1.Ok?;
    } else {
      assert t.users[id := t.users[id]] == t.users;
    }
  }

  /** Changing a nick, to a free one or to the user's own in other letter case, keeps nicks unique; and
      it is refused exactly when another user has it or the user is gone, changing nothing. */
  lemma UpdateKeepsNicks(t: Tables, id: UserId, nick: string, now: int)
    requires NicksExact(t)
    ensures var (t', out) := UpdateNick(t, id, nick, now);
            && NicksExact(t')
            && (out.Ok? <==> id in t.users && forall u :: u in t.users && Lower(t.users[u].nick) == Lower(nick)
                                                ==> u == id)
            && (out.Err? ==> t' == t)
  {
    if id in t.users && Lower(nick) in t.byNick {
      assert Lower(t.users[t.byNick[Lower(nick)]].nick) == Lower(nick);
    }
  }

  lemma InsertKeepsNicks(t: Tables, nick: string, now: int)
    requires NicksExact(t)
    ensures NicksExact(InsertUser(t, nick, now).0)
    ensures InsertUser(t, nick, now).1.Ok? <==> forall u :: u in t.users ==> Lower(t.users[u].nick) != Lower(nick)
    ensures var (t', out) := InsertUser(t, nick, now);
            if out.Ok? then out.value !in t.users && t'.users == t.users[out.value := User(nick, 0, 0)] else t' == t
  {
    if Lower(nick) in t.byNick {
      assert Lower(t.users[t.byNick[Lower(nick)]].nick) == Lower(nick);
    }
  }

  lemma DeleteKeepsNicks(t: Tables, id: UserId)
    requires NicksExact(t)
    ensures NicksExact(DeleteUser(t, id))
  {
  }

  /** The nick the client asks for, if any, passes the check. */
  predicate NickPasses(rules: NickRules, t: Tables, u: User, reserved: bool, want: Option<string>, now: int) {
    want.None? || CheckNick(rules, t, u, reserved, want.value, now).Ok?
  }

  /**
   Run alone, in every case: an unknown code redeems nothing. An enrollment refused for its nick changes
   no table, so the same code still redeems for the same user with the same reserved flag. Otherwise the
   invite is spent, and no other; the key is added exactly if it was not enrolled yet, for the invited
   user; and the enrollment succeeds exactly if moreover no other user has a credential of that name.
   */
  lemma EnrollOutcome(rules: NickRules, t: Tables, code: string, key: string, want: Option<string>, now: int)
    requires NicksExact(t)
    ensures var (t', r) := Enrolled(rules, t, code, key, want, now);
            var seen := PeekInvite(t, code, now);
            && NicksExact(t')
            && (seen.None? ==> r == Err(Unauthorized) && t' == t.(invites := t.invites - {code}))
            && (seen.Some? ==>
                  var (id, u, reserved) := seen.value;
                  if !NickPasses(rules, t, u, reserved, want, now)
                  then t' == t && r.Err? && CheckNick(rules, t, u, reserved, want.value, now) == Err(r.error)
                  else
                    && t'.invites == t.invites - {code}
                    && t'.keys == (if key in t.keys then t.keys else t.keys[key := id])
                    && (r.Ok? <==> key !in t.keys && (key in t.creds ==> t.creds[key] == id))
                    && (r.Ok? ==> r.value == id && t'.creds == t.creds[key := id])
                    && (r.Err? ==> t'.creds == t.creds && r.error == Taken)
                    && t'.users == t.users[id := Renamed(u, want, now)])
  {
    var seen := PeekInvite(t, code, now);
    if seen.Some? {
      var (t1, _) := TakeInvite(t, code, now);
      var (id, u, reserved) := seen.value;
      assert NicksExact(t1);
      if NickPasses(rules, t, u, reserved, want, now) {
        AfterTakeOutcome(rules, t1, code, id, reserved, key, want, now);
      }
    }
  }

  lemma AfterTakeOutcome(rules: NickRules, t: Tables, code: string, id: UserId, reserved: bool, key: string,
                         want: Option<string>, now: int)
    requires NicksExact(t) && id in t.users && NickPasses(rules, t, t.users[id], reserved, want, now)
    ensures var (t', r) := AfterTake(rules, t, code, id, t.users[id], reserved, key, want, now);
            && NicksExact(t') && t'.invites == t.invites
            && t'.keys == (if key in t.keys then t.keys else t.keys[key := id])
            && (r.Ok? <==> key !in t.keys && (key in t.creds ==> t.creds[key] == id))
            && (r.Ok? ==> r.value == id && t'.creds == t.creds[key := id])
            && (r.Err? ==> t'.creds == t.creds && r.error == Taken)
            && t'.users == t.users[id := Renamed(t.users[id], want, now)]
  {
    RenameKeeps(rules, t, id, reserved, want, now);
    BindKeeps(Rename(rules, t, id, t.users[id], reserved, want, now).0, id, key);
  }

  lemma BindKeeps(t: Tables, id: UserId, key: string)
    requires NicksExact(t) && id in t.users
    ensures var (t', r) := Bind(t, id, key);
            && NicksExact(t') && t' == t.(keys := t'.keys, creds := t'.creds)
            && t'.keys == (if key in t.keys then t.keys else t.keys[key := id])
            && (r.Ok? <==> key !in t.keys && (key in t.creds ==> t.creds[key] == id))
            && (r.Ok? ==> r.value == id && t'.creds == t.creds[key := id])
            && (r.Err? ==> t'.creds == t.creds && r.error == Taken)
  {
    if key in t.creds && t.creds[key] == id {
      assert t.creds[key := id] == t.creds;
    }
  }

  // ----- What the checks mean -----

  /** Another user has the nick, up to case. */
  ghost predicate TakenByOther(t: Tables, id: UserId, nick: string) {
    exists u :: u in t.users && u != id && Lower(t.users[u].nick) == Lower(nick)
  }

  /** The user changed nicks before, and not long enough ago. */
  predicate Cooling(rules: NickRules, u: User, now: int) {
    u.changes >= 1 && now - u.changedMs < rules.cooldownMs
  }

  /**
   The nick a user may ask for: the one it has, in any letter case; or, if its own is not reserved, a
   well-formed one, outside the cooldown, that no other user has. The first of these that fails is the error.
   */
  lemma NicksCheckedExactly(rules: NickRules, t: Tables, id: UserId, reserved: bool, want: string, now: int)
    requires NicksExact(t) && id in t.users
    ensures var u := t.users[id];
            CheckNick(rules, t, u, reserved, want, now)
            == if Lower(want) == Lower(u.nick) then Ok(false)
               else if reserved || !rules.valid(want) then Err(InvalidNick)
               else if Cooling(rules, u, now) then Err(Cooldown(rules.cooldownMs - (now - u.changedMs)))
               else if TakenByOther(t, id, want) then Err(Taken)
               else Ok(true)
  {
    var u := t.users[id];
    if Lower(want) != Lower(u.nick) && Lower(want) in t.byNick {
      var other := t.byNick[Lower(want)];
      assert other in t.users && other != id && Lower(t.users[other].nick) == Lower(want);
    }
  }

  /** A change of nick starts the cooldown: until it is over, another nick is refused, with the time left. */
  lemma RenameStartsCooldown(rules: NickRules, t: Tables, id: UserId, nick: string, now: int, want: string, later: int)
    requires NicksExact(t) && UpdateNick(t, id, nick, now).1.Ok?
    requires rules.valid(want) && Lower(want) != Lower(nick) && later < now + rules.cooldownMs
    ensures var (t', out) := UpdateNick(t, id, nick, now);
            && id in t.users && out == Ok(User(nick, t.users[id].changes + 1, now))
            && t'.users == t.users[id := out.value]
            && CheckNick(rules, t', t'.users[id], false, want, later)
               == Err(Cooldown(now + rules.cooldownMs - later))
  {
  }

  /** Two nicks are the same up to case exactly if they agree letter by letter, capital or not. */
  lemma LowerExactly(a: string, b: string)
    ensures Lower(a) == Lower(b)
            <==> && |a| == |b|
                 && forall i :: 0 <= i < |a| ==>
                      || a[i] == b[i]
                      || ('A' <= a[i] <= 'Z' && b[i] as int == a[i] as int + 32)
                      || ('A' <= b[i] <= 'Z' && a[i] as int == b[i] as int + 32)
  {
    if Lower(a) == Lower(b) {
      assert |Lower(a)| == |a| && |Lower(b)| == |b|;
      assert forall i :: 0 <= i < |a| ==> LowerChar(a[i]) == Lower(a)[i] && LowerChar(b[i]) == Lower(b)[i];
    }
  }

  /** An invite is redeemed by its code, for its user and with its flag, for seven days, while the user
      exists, and once: taking it, in time or too late, leaves nothing to redeem. */
  lemma InviteRedeemsExactly(t: Tables, code: string, id: UserId, reserved: bool, made: int, now: int, later: int)
    requires id in t.users
    ensures var (t1, put) := PutInvite(t, code, Invite(id, made + INVITE_TTL_MS, reserved));
            var (t2, taken) := TakeInvite(t1, code, now);
            && put.Ok? && (taken.Some? <==> now < made + 7 * 24 * 60 * 60 * 1000)
            && (taken.Some? ==> taken == Some((id, t.users[id], reserved)))
            && TakeInvite(t2, code, later).1.None?
            && t2 == t.(invites := t.invites - {code})
            && TakeInvite(DeleteUser(t1, id), code, now).1.None?
  {
    assert t.invites[code := Invite(id, made + INVITE_TTL_MS, reserved)] - {code} == t.invites - {code};
  }

  /** Deleting a user leaves nothing that names it, and everything else as it was. */
  lemma DeletesExactly(t: Tables, id: UserId)
    ensures var t' := DeleteUser(t, id);
            && t'.users == t.users - {id} && t'.nextId == t.nextId
            && (forall n :: Get(t'.byNick, n) == if Get(t.byNick, n) == Some(id) then None else Get(t.byNick, n))
            && (forall c :: Get(t'.creds, c) == if Get(t.creds, c) == Some(id) then None else Get(t.creds, c))
            && (forall k :: Get(t'.keys, k) == if Get(t.keys, k) == Some(id) then None else Get(t.keys, k))
            && (forall i :: Get(t'.invites, i)
                  == if i in t.invites && t.invites[i].user == id then None else Get(t.invites, i))
  {
  }
}
