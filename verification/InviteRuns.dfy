/**
 Enrollments, logins, revocations and deletions running at the same time: each store call is one
 atomic step, and a run is any interleaving of such steps by any number of requests.
 */
module InviteRuns {
  import opened Common
  import opened KeyLogin

  /** Where an enrollment stands, between two store calls of `enroll_with_nick`. */
  datatype Phase =
    | Begun
    | Peeked(seen: Option<(UserId, User, bool)>)
    | Passed
    | Holding(user: UserId, row: User, reserved: bool)      // the invite is spent
    | Renaming(user: UserId, row: User, reserved: bool)     // the nick was found free
    | GivingBack(user: UserId, row: User, reserved: bool)   // the nick was refused
    | Adding(user: UserId)
    | Keyed(user: UserId)                                   // the key is added
    | Crediting(user: UserId)                               // and has no credential yet
    | Refused
    | Completed(user: UserId)                                // the key is added, with or without a session

  datatype Enrollment = Enrollment(code: string, key: string, want: Option<string>, phase: Phase)

  /** A deletion that has listed the user's credentials (with their serial numbers) but not deleted the
      user yet; `late` are the credentials the user has been issued since the listing. */
  datatype Deletion = Deletion(user: UserId, listed: map<string, nat>, late: set<string>)

  /** A login that has found its key's user and checked the signature, but issued no session yet. */
  datatype Login = Login(key: string, user: UserId)

  /** `codes` is what each code was issued for. `log` has the batches of references that were announced as
      revoked. Credentials are also counted by serial number, because the reference of a key's credential
      comes back when a revoked key is enrolled again: `rows` are the serials of the live rows, `issued`
      the references of all serials so far, and `announced` the serials whose row was gone when an
      announcement of theirs was logged. */
  datatype World = World(
    t: Tables,
    enrollments: map<nat, Enrollment>,
    deletions: map<nat, Deletion>,
    logins: map<nat, Login>,
    codes: map<string, (UserId, bool)>,
    log: seq<set<string>>,
    rows: map<string, nat>,
    issued: map<nat, string>,
    announced: set<nat>,
    next: nat)

  const Start := World(EmptyTables, map[], map[], map[], map[], [], map[], map[], {}, 0)

  datatype Action =
    | NewUser(nick: string, now: int)
    | MakeInvite(code: string, user: UserId, reserved: bool, now: int)
    | Enter(p: nat, code: string, key: string, want: Option<string>)
    | Advance(p: nat, now: int)
    | IssueCredential(user: UserId, cred: string)           // a session of its own
    | ReadKey(l: nat, key: string)                          // a login by key, up to its proof
    | AnswerLogin(l: nat)                                   // and its session
    | DropKey(key: string)
    | RevokeCredential(cred: string)
    | ChangeNick(user: UserId, nick: string, now: int)
    | ListForDeletion(d: nat, user: UserId)
    | FinishDeletion(d: nat)

  predicate Enabled(w: World, a: Action) {
    match a
    case MakeInvite(code, _, _, _) => code !in w.codes
    case Enter(p, _, _, _) => p !in w.enrollments
    case Advance(p, _) => p in w.enrollments
    case ReadKey(l, key) => l !in w.logins && key in w.t.keys
    case AnswerLogin(l) => l in w.logins
    case ListForDeletion(d, _) => d !in w.deletions
    case FinishDeletion(d) => d in w.deletions
    case _ => true
  }

  // ----- The steps -----

  /** One store call of an enrollment: the tables and where the enrollment stands after it. */
  function Move(rules: NickRules, t: Tables, e: Enrollment, now: int): (r: (Tables, Phase)) {
    match e.phase
    case Begun => (t, if e.want.Some? then Peeked(PeekInvite(t, e.code, now)) else Passed)
    case Peeked(seen) =>
      if && seen.Some? && e.want.Some?
         && CheckNick(rules, t, seen.value.1, seen.value.2, e.want.value, now).Err?
      then (t, Refused)
      else (t, Passed)
    case Passed =>
      var (t', taken) := TakeInvite(t, e.code, now);
      (t', if taken.Some? then Holding(taken.value.0, taken.value.1, taken.value.2) else Refused)
    case Holding(user, row, reserved) =>
      if e.want.None? then (t, Adding(user))
      else
        var ok := CheckNick(rules, t, row, reserved, e.want.value, now);
        if ok.Err? then (t, GivingBack(user, row, reserved))
        else if ok.value then (t, Renaming(user, row, reserved))
        else (t, Adding(user))
    case Renaming(user, row, reserved) =>
      if e.want.None? then (t, Adding(user))
      else
        var (t', out) := UpdateNick(t, user, e.want.value, now);
        (t', if out.Ok? then Adding(user) else GivingBack(user, row, reserved))
    case GivingBack(user, _, reserved) => (PutInvite(t, e.code, Invite(user, now + INVITE_TTL_MS, reserved)).0, Refused)
    case Adding(user) =>
      var (t', out) := AddKey(t, user, e.key);
      (t', if out.Ok? then Keyed(user) else Refused)
    case Keyed(user) => (t, if e.key in CredentialsOf(t, user) then Completed(user) else Crediting(user))
    case Crediting(user) => (AddCredential(t, user, e.key).0, Completed(user))
    case Refused => (t, Refused)
    case Completed(user) => (t, Completed(user))
  }

  /** Adding a credential row: nothing happens if the user is gone or the reference is in use. */
  function Credit(w: World, user: UserId, cred: string): (r: World)
    ensures r.t == AddCredential(w.t, user, cred).0
    ensures r == w.(t := r.t, rows := r.rows, issued := r.issued, next := r.next, deletions := r.deletions)
  {
    var (t', out) := AddCredential(w.t, user, cred);
    if out.Err? then w
    else w.(t := t', rows := w.rows[cred := w.next], issued := w.issued[w.next := cred], next := w.next + 1,
            deletions := map d | d in w.deletions ::
              var x := w.deletions[d];
              if x.user == user then x.(late := x.late + {cred}) else x)
  }

  /** The same in the world: a new credential gets its serial number. */
  function Step(rules: NickRules, w: World, p: nat, now: int): (r: World)
    requires p in w.enrollments
  {
    var e := w.enrollments[p];
    var (t', phase) := Move(rules, w.t, e, now);
    (if e.phase.Crediting? then Credit(w, e.phase.user, e.key) else w)
      .(t := t', enrollments := w.enrollments[p := e.(phase := phase)])
  }

  /** The serial numbers of the live rows among some references. */
  function Serials(w: World, refs: set<string>): (r: set<nat>) {
    set c | c in refs && c in w.rows :: w.rows[c]
  }

  /** The session of a key: its credential, added if the user does not have it. */
  function Answer(w: World, l: nat): (r: World)
    requires l in w.logins
  {
    var x := w.logins[l];
    var w1 := w.(logins := w.logins - {l});
    if x.key in CredentialsOf(w.t, x.user) then w1 else Credit(w1, x.user, x.key)
  }

  function Revoke(w: World, cred: string): (r: World) {
    w.(t := w.t.(creds := w.t.creds - {cred}), rows := w.rows - {cred}, announced := w.announced + Serials(w, {cred}),
       log := if cred in w.t.creds then w.log + [{cred}] else w.log)
  }

  /** The user goes with its rows; then the listed references are announced. */
  function Finish(w: World, d: nat): (r: World)
    requires d in w.deletions
  {
    var x := w.deletions[d];
    var gone := CredentialsOf(w.t, x.user);
    w.(t := DeleteUser(w.t, x.user),
       rows := w.rows - gone,
       announced := w.announced + Serials(w, gone * x.listed.Keys) + x.listed.Values,
       log := w.log + [x.listed.Keys],
       deletions := w.deletions - {d})
  }

  function List(w: World, user: UserId): (r: Deletion) {
    Deletion(user, map c | c in w.rows && c in CredentialsOf(w.t, user) :: w.rows[c], {})
  }

  function Act(rules: NickRules, w: World, a: Action): (r: World)
    requires Enabled(w, a)
  {
    match a
    case NewUser(nick, now) => w.(t := InsertUser(w.t, nick, now).0)
    case MakeInvite(code, user, reserved, now) =>
      var (t', out) := PutInvite(w.t, code, Invite(user, now + INVITE_TTL_MS, reserved));
      if out.Ok? then w.(t := t', codes := w.codes[code := (user, reserved)]) else w
    case Enter(p, code, key, want) => w.(enrollments := w.enrollments[p := Enrollment(code, key, want, Begun)])
    case Advance(p, now) => Step(rules, w, p, now)
    case IssueCredential(user, cred) => Credit(w, user, cred)
    case ReadKey(l, key) => w.(logins := w.logins[l := Login(key, w.t.keys[key])])
    case AnswerLogin(l) => Answer(w, l)
    case DropKey(key) => w.(t := w.t.(keys := w.t.keys - {key}))
    case RevokeCredential(cred) => Revoke(w, cred)
    case ChangeNick(user, nick, now) => w.(t := UpdateNick(w.t, user, nick, now).0)
    case ListForDeletion(d, user) => w.(deletions := w.deletions[d := List(w, user)])
    case FinishDeletion(d) => Finish(w, d)
  }

  /** Actions that are not enabled do nothing. */
  function Perform(rules: NickRules, acts: seq<Action>): (w: World) {
    if acts == [] then Start
    else
      var before := Perform(rules, acts[..|acts| - 1]);
      if Enabled(before, acts[|acts| - 1]) then Act(rules, before, acts[|acts| - 1]) else before
  }

  lemma Then(rules: NickRules, acts: seq<Action>, a: Action, w: World)
    requires Perform(rules, acts) == w && Enabled(w, a)
    ensures Perform(rules, acts + [a]) == Act(rules, w, a)
  {
    assert (acts + [a])[..|acts|] == acts;
  }

  // ----- Without interleaving -----

  function Remaining(phase: Phase): (n: nat) {
    match phase
    case Begun => 8
    case Peeked(_) => 7
    case Passed => 6
    case Holding(_, _, _) => 5
    case Renaming(_, _, _) => 4
    case GivingBack(_, _, _) => 1
    case Adding(_) => 3
    case Keyed(_) => 2
    case Crediting(_) => 1
    case Refused => 0
    case Completed(_) => 0
  }

  /** The tables and the phase after the enrollment's steps to the end, with nothing in between. */
  function Alone(rules: NickRules, t: Tables, e: Enrollment, now: int): (r: (Tables, Phase))
    decreases Remaining(e.phase)
  {
    var (t', phase) := Move(rules, t, e, now);
    if Remaining(e.phase) == 0 then (t, e.phase) else Alone(rules, t', e.(phase := phase), now)
  }

  lemma AloneBinds(rules: NickRules, t: Tables, e: Enrollment, now: int)
    requires e.phase.Adding?
    ensures var (t', phase) := Alone(rules, t, e, now);
            && t' == Bind(t, e.phase.user, e.key).0
            && phase == (if AddKey(t, e.phase.user, e.key).1.Ok? then Completed(e.phase.user) else Refused)
  {
    var (t1, ph1) := Move(rules, t, e, now);
    var e1 := e.(phase := ph1);
    assert Alone(rules, t, e, now) == Alone(rules, t1, e1, now);
    if e1.phase.Keyed? {
      var (t2, ph2) := Move(rules, t1, e1, now);
      var e2 := e1.(phase := ph2);
      assert Alone(rules, t1, e1, now) == Alone(rules, t2, e2, now);
      if e2.phase.Crediting? {
        var (t3, ph3) := Move(rules, t2, e2, now);
        assert Alone(rules, t2, e2, now) == Alone(rules, t3, e2.(phase := ph3), now) == (t3, ph3);
      }
    }
  }

  lemma AloneFinishes(rules: NickRules, t: Tables, e: Enrollment, now: int)
    requires e.phase.Holding?
    ensures var ph := e.phase;
            Alone(rules, t, e, now).0 == AfterTake(rules, t, e.code, ph.user, ph.row, ph.reserved, e.key, e.want, now).0
  {
    var (t1, ph1) := Move(rules, t, e, now);
    var e1 := e.(phase := ph1);
    assert Alone(rules, t, e, now) == Alone(rules, t1, e1, now);
    var (t2, ph2) := if e1.phase.Renaming? then Move(rules, t1, e1, now) else (t1, ph1);
    var e2 := e.(phase := ph2);
    assert Alone(rules, t1, e1, now) == Alone(rules, t2, e2, now);
    if e2.phase.Adding? {
      AloneBinds(rules, t2, e2, now);
    } else {
      var (t3, ph3) := Move(rules, t2, e2, now);
      assert Alone(rules, t2, e2, now) == Alone(rules, t3, e2.(phase := ph3), now) == (t3, ph3);
    }
  }

  /** With nothing in between, the steps leave the tables as `Enrolled` does: the interleaved and the
      sequential enrollment are the same procedure. */
  lemma AloneIsEnrolled(rules: NickRules, t: Tables, e: Enrollment, now: int)
    requires e.phase.Begun?
    ensures Alone(rules, t, e, now).0 == Enrolled(rules, t, e.code, e.key, e.want, now).0
  {
    var (t1, ph1) := Move(rules, t, e, now);
    var e1 := e.(phase := ph1);
    assert Alone(rules, t, e, now) == Alone(rules, t1, e1, now);
    var (t2, ph2) := if e1.phase.Peeked? then Move(rules, t1, e1, now) else (t1, ph1);
    var e2 := e.(phase := ph2);
    assert Alone(rules, t1, e1, now) == Alone(rules, t2, e2, now);
    if e2.phase.Passed? {
      var (t3, ph3) := Move(rules, t2, e2, now);
      var e3 := e.(phase := ph3);
      assert Alone(rules, t2, e2, now) == Alone(rules, t3, e3, now);
      if e3.phase.Holding? {
        AloneFinishes(rules, t3, e3, now);
      }
    }
  }

  /** Without a nick request it ends with a key exactly if the invite is good and the key can be added. */
  lemma AloneEnds(rules: NickRules, t: Tables, e: Enrollment, now: int)
    requires e.phase.Begun? && e.want.None?
    ensures var (t1, taken) := TakeInvite(t, e.code, now);
            Alone(rules, t, e, now).1
            == if taken.Some? && AddKey(t1, taken.value.0, e.key).1.Ok? then Completed(taken.value.0) else Refused
  {
    var e1 := e.(phase := Passed);
    assert Alone(rules, t, e, now) == Alone(rules, t, e1, now);
    var (t2, ph2) := Move(rules, t, e1, now);
    var e2 := e.(phase := ph2);
    assert Alone(rules, t, e1, now) == Alone(rules, t2, e2, now);
    if e2.phase.Holding? {
      var e3 := e.(phase := Adding(e2.phase.user));
      assert Alone(rules, t2, e2, now) == Alone(rules, t2, e3, now);
      AloneBinds(rules, t2, e3, now);
    }
  }

  /** `acts`, then `n` steps of enrollment `p` with nothing in between. */
  function Uninterrupted(acts: seq<Action>, p: nat, now: int, n: nat): (r: seq<Action>)
    decreases n
  {
    if n == 0 then acts else Uninterrupted(acts + [Advance(p, now)], p, now, n - 1)
  }

  lemma {:induction false} UninterruptedIsAlone(rules: NickRules, acts: seq<Action>, p: nat, now: int, n: nat)
    requires p in Perform(rules, acts).enrollments && Remaining(Perform(rules, acts).enrollments[p].phase) <= n
    ensures var w, w' := Perform(rules, acts), Perform(rules, Uninterrupted(acts, p, now, n));
            var (t', phase) := Alone(rules, w.t, w.enrollments[p], now);
            && p in w'.enrollments && w'.t == t' && w'.enrollments[p] == w.enrollments[p].(phase := phase)
            && (w'.codes, w'.logins, w'.enrollments.Keys) == (w.codes, w.logins, w.enrollments.Keys)
    decreases n
  {
    if n > 0 {
      var w := Perform(rules, acts);
      AdvanceIsMove(rules, acts, p, now);
      MoveRemains(rules, w.t, w.enrollments[p], now);
      UninterruptedIsAlone(rules, acts + [Advance(p, now)], p, now, n - 1);
    }
  }

  lemma MoveRemains(rules: NickRules, t: Tables, e: Enrollment, now: int)
    ensures var (t', phase) := Move(rules, t, e, now);
            && (Remaining(e.phase) > 0 ==> Remaining(phase) < Remaining(e.phase))
            && (Remaining(e.phase) == 0 ==> (t', phase) == (t, e.phase))
            && Alone(rules, t, e, now) == Alone(rules, t', e.(phase := phase), now)
  {
  }

  lemma AdvanceIsMove(rules: NickRules, acts: seq<Action>, p: nat, now: int)
    requires p in Perform(rules, acts).enrollments
    ensures var w, w' := Perform(rules, acts), Perform(rules, acts + [Advance(p, now)]);
            var (t', phase) := Move(rules, w.t, w.enrollments[p], now);
            && p in w'.enrollments && w'.t == t' && w'.enrollments[p] == w.enrollments[p].(phase := phase)
            && (w'.codes, w'.logins, w'.enrollments.Keys) == (w.codes, w.logins, w.enrollments.Keys)
  {
    var w := Perform(rules, acts);
    Then(rules, acts, Advance(p, now), w);
    StepIsMove(rules, w, p, now);
    var phase := Move(rules, w.t, w.enrollments[p], now).1;
    assert w.enrollments[p := w.enrollments[p].(phase := phase)].Keys == w.enrollments.Keys;
  }

  lemma StepIsMove(rules: NickRules, w: World, p: nat, now: int)
    requires p in w.enrollments
    ensures var w' := Step(rules, w, p, now);
            var (t', phase) := Move(rules, w.t, w.enrollments[p], now);
            && w'.t == t' && w'.enrollments == w.enrollments[p := w.enrollments[p].(phase := phase)]
            && (w'.codes, w'.logins) == (w.codes, w.logins)
  {
  }

  // ----- One invite, one key -----

  /** The enrollment got a key out of its invite. */
  predicate Redeemed(e: Enrollment) {
    e.phase.Keyed? || e.phase.Crediting? || e.phase.Completed?
  }

  /** It has spent its invite, knows what the invite was for, and may still give it back. */
  predicate Remembers(e: Enrollment) {
    e.phase.Holding? || e.phase.Renaming? || e.phase.GivingBack?
  }

  /** It has spent its invite and not given it back. */
  predicate Owns(e: Enrollment) {
    Redeemed(e) || Remembers(e) || e.phase.Adding?
  }

  /** An enrollment that owns an invite owns one that is not in the table, and acts for the user it
      was issued for. */
  predicate Tied(w: World, e: Enrollment) {
    Owns(e) ==>
      && e.code in w.codes && e.code !in w.t.invites
      && e.phase.user == w.codes[e.code].0
      && (Remembers(e) ==> e.phase.reserved == w.codes[e.code].1)
  }

  /** An invite is in one place only: in the table, as it was issued, or with one enrollment. */
  ghost predicate InviteConserved(w: World) {
    && (forall c :: c in w.t.invites ==> c in w.codes && (w.t.invites[c].user, w.t.invites[c].reserved) == w.codes[c])
    && (forall p :: p in w.enrollments ==> Tied(w, w.enrollments[p]))
    && (forall p, q :: p in w.enrollments && q in w.enrollments && p != q
          && w.enrollments[p].code == w.enrollments[q].code
          ==> !(Owns(w.enrollments[p]) && Owns(w.enrollments[q])))
  }

  /** Every step but the taking and the giving back leaves the invites alone, gains no invite and
      forgets nothing it still needs. */
  lemma OtherMoves(rules: NickRules, t: Tables, e: Enrollment, now: int)
    requires !e.phase.Passed? && !e.phase.GivingBack?
    ensures var (t', phase) := Move(rules, t, e, now);
            var e' := e.(phase := phase);
            && t'.invites == t.invites
            && (Owns(e') ==> Owns(e) && e'.phase.user == e.phase.user)
            && (Remembers(e') ==> Remembers(e) && e'.phase.reserved == e.phase.reserved)
  {
  }

  lemma TakeConserves(rules: NickRules, w: World, p: nat, now: int)
    requires p in w.enrollments && InviteConserved(w) && w.enrollments[p].phase.Passed?
    ensures InviteConserved(Step(rules, w, p, now))
  {
    var w' := Step(rules, w, p, now);
    forall q | q in w'.enrollments ensures Tied(w', w'.enrollments[q]) {
      assert Tied(w, w.enrollments[q]);
    }
  }

  lemma GiveBackConserves(rules: NickRules, w: World, p: nat, now: int)
    requires p in w.enrollments && InviteConserved(w) && w.enrollments[p].phase.GivingBack?
    ensures InviteConserved(Step(rules, w, p, now))
  {
    var w' := Step(rules, w, p, now);
    assert Tied(w, w.enrollments[p]);
    forall q | q in w'.enrollments ensures Tied(w', w'.enrollments[q]) {
      assert Tied(w, w.enrollments[q]);
    }
  }

  lemma StepConserves(rules: NickRules, w: World, p: nat, now: int)
    requires p in w.enrollments && InviteConserved(w)
    ensures InviteConserved(Step(rules, w, p, now))
  {
    if w.enrollments[p].phase.Passed? {
      TakeConserves(rules, w, p, now);
    } else if w.enrollments[p].phase.GivingBack? {
      GiveBackConserves(rules, w, p, now);
    } else {
      OtherMoves(rules, w.t, w.enrollments[p], now);
      var w' := Step(rules, w, p, now);
      assert Tied(w, w.enrollments[p]);
      forall q | q in w'.enrollments ensures Tied(w', w'.enrollments[q]) {
        assert Tied(w, w.enrollments[q]);
      }
    }
  }

  lemma ActConserves(rules: NickRules, w: World, a: Action)
    requires InviteConserved(w) && Enabled(w, a)
    ensures InviteConserved(Act(rules, w, a))
  {
    if a.Advance? {
      StepConserves(rules, w, a.p, a.now);
    } else {
      OthersStay(rules, w, a);
      TiedStays(w, Act(rules, w, a));
    }
  }

  lemma OthersStay(rules: NickRules, w: World, a: Action)
    requires Enabled(w, a) && !a.Advance?
    ensures Stays(w, Act(rules, w, a))
  {
    if !(a.MakeInvite? || a.Enter? || a.FinishDeletion?) {
      NoInviteMoves(rules, w, a);
    }
  }

  lemma NoInviteMoves(rules: NickRules, w: World, a: Action)
    requires Enabled(w, a) && !a.Advance? && !a.MakeInvite? && !a.Enter? && !a.FinishDeletion?
    ensures var w' := Act(rules, w, a);
            (w'.enrollments, w'.codes, w'.t.invites) == (w.enrollments, w.codes, w.t.invites)
  {
  }

  /** Nothing but new codes, new enrollments and invites as issued is added; invites may be dropped. */
  ghost predicate Stays(w: World, w': World) {
    && (forall c :: c in w.codes ==> c in w'.codes && w'.codes[c] == w.codes[c])
    && (forall c :: c in w'.t.invites ==>
          || (c in w.t.invites && w'.t.invites[c] == w.t.invites[c])
          || (c !in w.codes && c in w'.codes && (w'.t.invites[c].user, w'.t.invites[c].reserved) == w'.codes[c]))
    && (forall q :: q in w'.enrollments ==>
          || (q in w.enrollments && w'.enrollments[q] == w.enrollments[q])
          || (q !in w.enrollments && !Owns(w'.enrollments[q])))
  }

  lemma TiedStays(w: World, w': World)
    requires InviteConserved(w) && Stays(w, w')
    ensures InviteConserved(w')
  {
    forall q | q in w'.enrollments ensures Tied(w', w'.enrollments[q]) {
      assert q in w.enrollments ==> Tied(w, w.enrollments[q]);
    }
  }

  lemma {:induction false} RunsConserve(rules: NickRules, acts: seq<Action>)
    ensures InviteConserved(Perform(rules, acts))
    decreases |acts|
  {
    if acts != [] {
      RunsConserve(rules, acts[..|acts| - 1]);
      var before, a := Perform(rules, acts[..|acts| - 1]), acts[|acts| - 1];
      if Enabled(before, a) {
        ActConserves(rules, before, a);
      }
    }
  }

  /**
   Over every interleaving, with every code issued once: two enrollments never both get a key out of
   one code, even though a refused enrollment puts its invite back; none gets one while the invite is
   still in the table; and the key is for the user the invite was issued for.
   */
  lemma OneKeyPerInvite(rules: NickRules, acts: seq<Action>, p: nat, q: nat)
    ensures var w := Perform(rules, acts);
            p in w.enrollments && Redeemed(w.enrollments[p]) ==>
              && var e := w.enrollments[p];
              && e.code in w.codes && e.code !in w.t.invites
              && e.phase.user == w.codes[e.code].0
              && (q != p && q in w.enrollments && Redeemed(w.enrollments[q]) ==> w.enrollments[q].code != e.code)
  {
    RunsConserve(rules, acts);
    var w := Perform(rules, acts);
    if p in w.enrollments {
      assert Tied(w, w.enrollments[p]);
    }
  }

  /** An enrollment refused for its nick after it spent the invite leaves that invite redeemable, for
      the user and with the flag it was issued with, unless the user has been deleted. */
  lemma RefusalGivesBack(rules: NickRules, acts: seq<Action>, p: nat, now: int)
    requires p in Perform(rules, acts).enrollments && Perform(rules, acts).enrollments[p].phase.GivingBack?
    ensures var w := Perform(rules, acts);
            var code := w.enrollments[p].code;
            var w' := Step(rules, w, p, now);
            var again := PeekInvite(w'.t, code, now);
            && code in w.codes && code !in w.t.invites
            && (again.Some? <==> w.codes[code].0 in w.t.users)
            && (again.Some? ==> again.value.0 == w.codes[code].0 && again.value.2 == w.codes[code].1)
            && w'.enrollments[p].phase == Refused && w'.t == w.t.(invites := w'.t.invites)
  {
    RunsConserve(rules, acts);
    var w := Perform(rules, acts);
    assert Tied(w, w.enrollments[p]);
  }

  // ----- Nicks are unique -----

  lemma MoveKeepsNicks(rules: NickRules, t: Tables, e: Enrollment, now: int)
    requires NicksExact(t)
    ensures NicksExact(Move(rules, t, e, now).0)
  {
    if e.phase.Renaming? && e.want.Some? {
      UpdateKeepsNicks(t, e.phase.user, e.want.value, now);
    } else {
      MoveLeavesNicks(rules, t, e, now);
      SameNicks(t, Move(rules, t, e, now).0);
    }
  }

  lemma MoveLeavesNicks(rules: NickRules, t: Tables, e: Enrollment, now: int)
    requires !(e.phase.Renaming? && e.want.Some?)
    ensures var t' := Move(rules, t, e, now).0;
            (t'.users, t'.byNick, t'.nextId) == (t.users, t.byNick, t.nextId)
  {
  }

  lemma SameNicks(t: Tables, t': Tables)
    requires NicksExact(t) && (t'.users, t'.byNick, t'.nextId) == (t.users, t.byNick, t.nextId)
    ensures NicksExact(t')
  {
  }

  /** Over every interleaving nicks are unique up to letter case, although an enrollment's check of its
      nick and the change of it are two steps. */
  lemma {:induction false} NicksOfRuns(rules: NickRules, acts: seq<Action>)
    ensures NicksExact(Perform(rules, acts).t)
    decreases |acts|
  {
    if acts != [] {
      NicksOfRuns(rules, acts[..|acts| - 1]);
      var w := Perform(rules, acts[..|acts| - 1]);
      if Enabled(w, acts[|acts| - 1]) {
        ActKeepsNicks(rules, w, acts[|acts| - 1]);
      }
    }
  }

  lemma ActKeepsNicks(rules: NickRules, w: World, a: Action)
    requires Enabled(w, a) && NicksExact(w.t)
    ensures NicksExact(Act(rules, w, a).t)
  {
    match a
    case NewUser(nick, now) => InsertKeepsNicks(w.t, nick, now);
    case Advance(p, now) => MoveKeepsNicks(rules, w.t, w.enrollments[p], now);
    case ChangeNick(user, nick, now) => UpdateKeepsNicks(w.t, user, nick, now);
    case FinishDeletion(d) => DeleteKeepsNicks(w.t, w.deletions[d].user);
    case _ => SameNicks(w.t, Act(rules, w, a).t);
  }

  // ----- A key enrolled twice -----

  /** `acts`, then an invite for a user and an enrollment with it, uninterrupted. */
  function InvitedAndEnrolled(acts: seq<Action>, code: string, user: UserId, key: string, p: nat, now: int)
    : (r: seq<Action>)
  {
    Uninterrupted(acts + [MakeInvite(code, user, true, now)] + [Enter(p, code, key, None)], p, now, 8)
  }

  lemma InviteIsReady(rules: NickRules, acts: seq<Action>, code: string, user: UserId, key: string, p: nat, now: int)
    requires var w := Perform(rules, acts);
             user in w.t.users && code !in w.codes && p !in w.enrollments
    ensures var w, w' := Perform(rules, acts),
            Perform(rules, acts + [MakeInvite(code, user, true, now)] + [Enter(p, code, key, None)]);
            && w'.t == w.t.(invites := w.t.invites[code := Invite(user, now + INVITE_TTL_MS, true)])
            && w'.codes == w.codes[code := (user, true)] && w'.logins == w.logins
            && w'.enrollments == w.enrollments[p := Enrollment(code, key, None, Begun)]
  {
    var w := Perform(rules, acts);
    Then(rules, acts, MakeInvite(code, user, true, now), w);
    var w1 := Act(rules, w, MakeInvite(code, user, true, now));
    Then(rules, acts + [MakeInvite(code, user, true, now)], Enter(p, code, key, None), w1);
  }

  /** Whatever came before: the enrollment spends its invite either way; it ends refused, with the keys as
      they were, exactly if its key was already enrolled. */
  lemma InviteIsSpentEitherWay(rules: NickRules, acts: seq<Action>, code: string, user: UserId, key: string, p: nat,
                               now: int)
    requires var w := Perform(rules, acts);
             user in w.t.users && code !in w.codes && p !in w.enrollments
    ensures var w, w' := Perform(rules, acts), Perform(rules, InvitedAndEnrolled(acts, code, user, key, p, now));
            && p in w'.enrollments && code in w'.codes && code !in w'.t.invites
            && w'.enrollments[p] == Enrollment(code, key, None, if key in w.t.keys then Refused else Completed(user))
            && w'.t.keys == (if key in w.t.keys then w.t.keys else w.t.keys[key := user])
            && (key !in w.t.keys && key !in w.t.creds ==> w'.t.creds == w.t.creds[key := user])
            && w'.t.users.Keys == w.t.users.Keys
            && w'.codes == w.codes[code := (user, true)] && w'.logins == w.logins
            && w'.enrollments.Keys == w.enrollments.Keys + {p}
  {
    var ready := acts + [MakeInvite(code, user, true, now)] + [Enter(p, code, key, None)];
    InviteIsReady(rules, acts, code, user, key, p, now);
    UninterruptedIsAlone(rules, ready, p, now, 8);
    NicksOfRuns(rules, ready);
    EnrollsWithoutNick(rules, Perform(rules, ready).t, Perform(rules, ready).enrollments[p], user, now);
  }

  lemma EnrollsWithoutNick(rules: NickRules, t: Tables, e: Enrollment, user: UserId, now: int)
    requires NicksExact(t) && e.phase.Begun? && e.want.None? && user in t.users
    requires e.code in t.invites && t.invites[e.code].user == user && t.invites[e.code].expiresMs > now
    ensures var (t', phase) := Alone(rules, t, e, now);
            && e.code !in t'.invites && phase == (if e.key in t.keys then Refused else Completed(user))
            && t'.keys == (if e.key in t.keys then t.keys else t.keys[e.key := user])
            && (e.key !in t.keys && e.key !in t.creds ==> t'.creds == t.creds[e.key := user])
            && t'.users.Keys == t.users.Keys
  {
    AloneIsEnrolled(rules, t, e, now);
    AloneEnds(rules, t, e, now);
    EnrollOutcome(rules, t, e.code, e.key, None, now);
  }

  /** A run that gets there: user 1 enrolls a key, is invited again and enrolls the same key again. The
      second enrollment ends refused and its invite is spent. */
  lemma KeyEnrolledTwice(rules: NickRules)
    ensures var once := InvitedAndEnrolled([NewUser("n", 0)], "c", 1, "k", 0, 0);
            var twice := InvitedAndEnrolled(once, "d", 1, "k", 1, 0);
            var w := Perform(rules, twice);
            && 1 in w.enrollments && w.enrollments[1] == Enrollment("d", "k", None, Refused)
            && "d" in w.codes && "d" !in w.t.invites && w.t.keys == Perform(rules, once).t.keys
  {
    OneUser(rules);
    InviteIsSpentEitherWay(rules, [NewUser("n", 0)], "c", 1, "k", 0, 0);
    var once := InvitedAndEnrolled([NewUser("n", 0)], "c", 1, "k", 0, 0);
    InviteIsSpentEitherWay(rules, once, "d", 1, "k", 1, 0);
  }

  lemma OneUser(rules: NickRules)
    ensures var w := Perform(rules, [NewUser("n", 0)]);
            && w == Start.(t := w.t) && w.t.users.Keys == {1} && w.t.keys == map[] && w.t.creds == map[]
            && w.t.byNick == map[Lower("n") := 1] && w.t.nextId == 2
  {
    assert Perform(rules, []) == Start;
    Then(rules, [], NewUser("n", 0), Start);
    assert [] + [NewUser("n", 0)] == [NewUser("n", 0)];
  }
}
