/** What becomes of credentials over every interleaving of logins, enrollments, revocations and deletions. */
module CredentialRuns {
  import opened Common
  import opened KeyLogin
  import opened InviteRuns

  // ----- Every credential is live or announced -----

  /** The listed rows are this user's, and it has no others but late ones. */
  ghost predicate Covered(w: World, x: Deletion) {
    && (forall c :: c in x.listed ==> x.listed[c] in w.issued && w.issued[x.listed[c]] == c)
    && (forall c :: c in x.listed && c in w.rows && c in w.t.creds && w.rows[c] == x.listed[c]
          ==> w.t.creds[c] == x.user)
    && (forall c :: c in w.t.creds && w.t.creds[c] == x.user ==> c in x.listed || c in x.late)
  }

  /** The books: every live row has its own serial, unannounced; pending deletions are covered. */
  ghost predicate Booked(w: World) {
    && w.rows.Keys == w.t.creds.Keys
    && (forall c :: c in w.rows ==> w.rows[c] in w.issued && w.issued[w.rows[c]] == c && w.rows[c] !in w.announced)
    && (forall s :: s in w.issued || s in w.announced ==> s < w.next)
    && (forall d :: d in w.deletions ==> Covered(w, w.deletions[d]))
  }

  /** Every credential ever issued is live or its revocation has been announced. */
  ghost predicate LiveOrAnnounced(w: World) {
    forall s :: s in w.issued ==> s in w.announced || (w.issued[s] in w.rows && w.rows[w.issued[s]] == s)
  }

  lemma CreditBooks(w: World, user: UserId, cred: string)
    requires Booked(w)
    ensures Booked(Credit(w, user, cred))
  {
    var w' := Credit(w, user, cred);
    forall d | d in w'.deletions ensures Covered(w', w'.deletions[d]) {
      assert Covered(w, w.deletions[d]);
    }
  }

  lemma CreditAccounts(w: World, user: UserId, cred: string)
    requires Booked(w)
    ensures LiveOrAnnounced(w) <==> LiveOrAnnounced(Credit(w, user, cred))
  {
    var w' := Credit(w, user, cred);
    if AddCredential(w.t, user, cred).1.Ok? {
      assert w'.issued[w.next] == cred && w'.rows[cred] == w.next;
      assert LiveOrAnnounced(w') ==> LiveOrAnnounced(w) by {
        if LiveOrAnnounced(w') {
          forall s | s in w.issued ensures s in w.announced || (w.issued[s] in w.rows && w.rows[w.issued[s]] == s) {
            assert s in w'.issued && w'.issued[s] == w.issued[s];
          }
        }
      }
    }
  }

  /** What does not touch credentials keeps the books. */
  ghost predicate SameBooks(w: World, w': World) {
    && w'.t.creds == w.t.creds && w'.deletions == w.deletions
    && (w'.rows, w'.issued, w'.announced, w'.next) == (w.rows, w.issued, w.announced, w.next)
  }

  lemma SameBooksKept(w: World, w': World)
    requires SameBooks(w, w') && Booked(w)
    ensures Booked(w') && (LiveOrAnnounced(w) <==> LiveOrAnnounced(w'))
  {
    forall d | d in w'.deletions ensures Covered(w', w'.deletions[d]) {
      assert Covered(w, w.deletions[d]);
    }
  }

  lemma StepCredits(rules: NickRules, w: World, p: nat, now: int)
    requires p in w.enrollments
    ensures var e := w.enrollments[p];
            SameBooks(if e.phase.Crediting? then Credit(w, e.phase.user, e.key) else w, Step(rules, w, p, now))
  {
    MoveCredits(rules, w.t, w.enrollments[p], now);
  }

  lemma MoveCredits(rules: NickRules, t: Tables, e: Enrollment, now: int)
    ensures e.phase.Crediting? ==> Move(rules, t, e, now).0 == AddCredential(t, e.phase.user, e.key).0
    ensures !e.phase.Crediting? ==> Move(rules, t, e, now).0.creds == t.creds
  {
  }

  lemma AnswerAccounts(w: World, l: nat)
    requires Booked(w) && l in w.logins
    ensures Booked(Answer(w, l)) && (LiveOrAnnounced(w) <==> LiveOrAnnounced(Answer(w, l)))
  {
    var w1 := w.(logins := w.logins - {l});
    SameBooksKept(w, w1);
    CreditBooks(w1, w.logins[l].user, w.logins[l].key);
    CreditAccounts(w1, w.logins[l].user, w.logins[l].key);
  }

  lemma RevokeBooks(w: World, cred: string)
    requires Booked(w)
    ensures Booked(Revoke(w, cred)) && (LiveOrAnnounced(w) ==> LiveOrAnnounced(Revoke(w, cred)))
  {
    var w' := Revoke(w, cred);
    forall d | d in w'.deletions ensures Covered(w', w'.deletions[d]) {
      assert Covered(w, w.deletions[d]);
    }
    forall c | c in w'.rows ensures w'.rows[c] !in w'.announced {
      assert cred in w.rows && w.rows[c] == w.rows[cred] ==> c == cred;
    }
    assert cred in w.rows ==> w.rows[cred] in w'.announced;
  }

  lemma ListBooks(w: World, d: nat, user: UserId)
    requires Booked(w) && d !in w.deletions
    ensures var w' := w.(deletions := w.deletions[d := List(w, user)]);
            Booked(w') && (LiveOrAnnounced(w) <==> LiveOrAnnounced(w'))
  {
    var w' := w.(deletions := w.deletions[d := List(w, user)]);
    forall e | e in w'.deletions ensures Covered(w', w'.deletions[e]) {
      assert e != d ==> Covered(w, w.deletions[e]);
    }
  }

  lemma FinishBooks(w: World, d: nat)
    requires Booked(w) && d in w.deletions
    ensures Booked(Finish(w, d))
  {
    var w', x := Finish(w, d), w.deletions[d];
    assert Covered(w, x);
    forall e | e in w'.deletions ensures Covered(w', w'.deletions[e]) {
      assert Covered(w, w.deletions[e]);
    }
    forall c | c in w'.rows ensures w'.rows[c] !in w'.announced {
      RowNotAnnounced(w, x, c);
    }
  }

  /** A row of another user is neither listed by the deletion nor among those that go. */
  lemma RowNotAnnounced(w: World, x: Deletion, c: string)
    requires Booked(w) && Covered(w, x) && c in w.rows && w.t.creds[c] != x.user
    ensures w.rows[c] !in x.listed.Values && w.rows[c] !in Serials(w, CredentialsOf(w.t, x.user))
  {
    forall k | k in x.listed ensures x.listed[k] != w.rows[c] {
      assert w.issued[x.listed[k]] == k;
    }
    forall k | k in w.rows && k in CredentialsOf(w.t, x.user) ensures w.rows[k] != w.rows[c] {
      assert w.issued[w.rows[k]] == k && w.issued[w.rows[c]] == c;
    }
  }

  /** The action finishes a deletion although its user holds a credential issued after the listing. */
  ghost predicate Overtaken(w: World, a: Action) {
    && a.FinishDeletion? && a.d in w.deletions
    && var x := w.deletions[a.d];
    && (exists c :: c in x.late && c !in x.listed && c in w.t.creds && w.t.creds[c] == x.user)
  }

  lemma FinishAnnounces(w: World, d: nat)
    requires Booked(w) && LiveOrAnnounced(w) && d in w.deletions && !Overtaken(w, FinishDeletion(d))
    ensures LiveOrAnnounced(Finish(w, d))
  {
    var w', x := Finish(w, d), w.deletions[d];
    assert Covered(w, x);
    forall s | s in w'.issued ensures s in w'.announced || (w'.issued[s] in w'.rows && w'.rows[w'.issued[s]] == s) {
      var c := w.issued[s];
      if s !in w.announced && w.t.creds[c] == x.user {
        assert c in x.listed;
        assert c in CredentialsOf(w.t, x.user) * x.listed.Keys;
      }
    }
  }

  lemma OvertakenLoses(w: World, d: nat)
    requires Booked(w) && d in w.deletions && Overtaken(w, FinishDeletion(d))
    ensures !LiveOrAnnounced(Finish(w, d))
  {
    var w', x := Finish(w, d), w.deletions[d];
    assert Covered(w, x);
    var c :| c in x.late && c !in x.listed && c in w.t.creds && w.t.creds[c] == x.user;
    var s := w.rows[c];
    forall k | k in x.listed ensures x.listed[k] != s {
      assert w.issued[x.listed[k]] == k;
    }
    forall k | k in w.rows && k in x.listed ensures w.rows[k] != s {
      assert w.issued[w.rows[k]] == k;
    }
    assert s in w'.issued && s !in w'.announced && c !in w'.rows;
  }

  /** One action keeps the books; and from a state where all is accounted for, it leaves one where all
      is, exactly if it is no overtaken deletion. */
  lemma ActAccounts(rules: NickRules, w: World, a: Action)
    requires Booked(w) && Enabled(w, a)
    ensures Booked(Act(rules, w, a))
    ensures LiveOrAnnounced(w) ==> (LiveOrAnnounced(Act(rules, w, a)) <==> !Overtaken(w, a))
  {
    match a
    case Advance(p, now) =>
      StepCredits(rules, w, p, now);
      var e := w.enrollments[p];
      var w1 := if e.phase.Crediting? then Credit(w, e.phase.user, e.key) else w;
      if e.phase.Crediting? {
        CreditBooks(w, e.phase.user, e.key);
        CreditAccounts(w, e.phase.user, e.key);
      }
      SameBooksKept(w1, Step(rules, w, p, now));
    case IssueCredential(user, cred) =>
      CreditBooks(w, user, cred);
      CreditAccounts(w, user, cred);
    case AnswerLogin(l) => AnswerAccounts(w, l);
    case RevokeCredential(cred) => RevokeBooks(w, cred);
    case ListForDeletion(d, user) => ListBooks(w, d, user);
    case FinishDeletion(d) =>
      FinishBooks(w, d);
      if Overtaken(w, a) {
        OvertakenLoses(w, d);
      } else if LiveOrAnnounced(w) {
        FinishAnnounces(w, d);
      }
    case _ =>
      OthersKeepBooks(rules, w, a);
      SameBooksKept(w, Act(rules, w, a));
  }

  lemma OthersKeepBooks(rules: NickRules, w: World, a: Action)
    requires Enabled(w, a) && !a.Advance? && !a.IssueCredential? && !a.AnswerLogin? && !a.RevokeCredential?
    requires !a.ListForDeletion? && !a.FinishDeletion?
    ensures SameBooks(w, Act(rules, w, a))
  {
  }

  /** Over every interleaving the books are kept: in particular a pending deletion has listed all live
      credentials of its user but late ones. */
  lemma {:induction false} RunsAreBooked(rules: NickRules, acts: seq<Action>)
    ensures Booked(Perform(rules, acts))
    decreases |acts|
  {
    if acts != [] {
      RunsAreBooked(rules, acts[..|acts| - 1]);
      var before, a := Perform(rules, acts[..|acts| - 1]), acts[|acts| - 1];
      if Enabled(before, a) {
        ActAccounts(rules, before, a);
      }
    }
  }

  /** No deletion of the run is overtaken. */
  ghost predicate NeverOvertaken(rules: NickRules, acts: seq<Action>) {
    acts != [] ==>
      && NeverOvertaken(rules, acts[..|acts| - 1])
      && !Overtaken(Perform(rules, acts[..|acts| - 1]), acts[|acts| - 1])
  }

  /** In this state and in every earlier one of the run, every credential issued so far is live or announced. */
  ghost predicate AlwaysLiveOrAnnounced(rules: NickRules, acts: seq<Action>) {
    LiveOrAnnounced(Perform(rules, acts)) && (acts != [] ==> AlwaysLiveOrAnnounced(rules, acts[..|acts| - 1]))
  }

  /**
   The exact condition: in every state of a run every credential ever issued is live or announced, if
   and only if no deletion of the run finishes while its user holds a credential that was issued since
   the listing and is not on it.
   */
  lemma {:induction false} AnnouncedUnlessOvertaken(rules: NickRules, acts: seq<Action>)
    ensures AlwaysLiveOrAnnounced(rules, acts) <==> NeverOvertaken(rules, acts)
    decreases |acts|
  {
    if acts != [] {
      var n := |acts| - 1;
      var before, a := Perform(rules, acts[..n]), acts[n];
      AnnouncedUnlessOvertaken(rules, acts[..n]);
      RunsAreBooked(rules, acts[..n]);
      if Enabled(before, a) {
        ActAccounts(rules, before, a);
      }
    }
  }

  // ----- Runs that are overtaken -----

  const Tables1 := EmptyTables.(users := map[1 := User("n", 0, 0)], byNick := map[Lower("n") := 1], nextId := 2)

  /** The world with that one user, its credential "k" live or not, and some deletions of it. */
  function OneUser(deletions: map<nat, Deletion>, live: bool): (w: World) {
    var w := Start.(t := Tables1, deletions := deletions);
    if !live then w
    else w.(t := Tables1.(creds := map["k" := 1]), rows := map["k" := 0], issued := map[0 := "k"], next := 1)
  }

  const Listing := Deletion(1, map[], {})
  const ListingLate := Deletion(1, map[], {"k"})

  lemma UserListedThenIssued(rules: NickRules)
    ensures Perform(rules, [NewUser("n", 0)] + [ListForDeletion(0, 1)] + [IssueCredential(1, "k")])
            == OneUser(map[0 := ListingLate], true)
  {
    assert Perform(rules, []) == Start;
    Then(rules, [], NewUser("n", 0), Start);
    assert [] + [NewUser("n", 0)] == [NewUser("n", 0)];
    var w1 := OneUser(map[], false);
    assert Act(rules, Start, NewUser("n", 0)) == w1;
    Then(rules, [NewUser("n", 0)], ListForDeletion(0, 1), w1);
    var w2 := OneUser(map[0 := Listing], false);
    assert List(w1, 1) == Listing;
    Then(rules, [NewUser("n", 0)] + [ListForDeletion(0, 1)], IssueCredential(1, "k"), w2);
    IssueOvertakes(w2);
  }

  lemma IssueOvertakes(w: World)
    requires w == OneUser(map[0 := Listing], false)
    ensures Credit(w, 1, "k") == OneUser(map[0 := ListingLate], true)
  {
    var w' := Credit(w, 1, "k");
    assert w'.deletions[0] == ListingLate;
    assert w'.deletions == map[0 := ListingLate];
    assert w'.t.creds == map["k" := 1] && w'.rows == map["k" := 0] && w'.issued == map[0 := "k"];
  }

  /** The condition can fail: a login between the listing and the deletion loses its credential. */
  lemma OvertakenRun(rules: NickRules)
    ensures var acts := [NewUser("n", 0)] + [ListForDeletion(0, 1)] + [IssueCredential(1, "k")] + [FinishDeletion(0)];
            !LiveOrAnnounced(Perform(rules, acts)) && !NeverOvertaken(rules, acts)
  {
    var three := [NewUser("n", 0)] + [ListForDeletion(0, 1)] + [IssueCredential(1, "k")];
    var w := OneUser(map[0 := ListingLate], true);
    UserListedThenIssued(rules);
    Then(rules, three, FinishDeletion(0), w);
    RunsAreBooked(rules, three);
    assert "k" in ListingLate.late;
    OvertakenLoses(w, 0);
    assert (three + [FinishDeletion(0)])[..|three|] == three;
    assert Overtaken(w, FinishDeletion(0));
  }

  const Listed := Deletion(1, map["k" := 0], {})

  lemma ListedTwice(rules: NickRules)
    ensures Perform(rules, [NewUser("n", 0)] + [ListForDeletion(0, 1)] + [IssueCredential(1, "k")]
                    + [ListForDeletion(1, 1)])
            == OneUser(map[0 := ListingLate, 1 := Listed], true)
  {
    var w := OneUser(map[0 := ListingLate], true);
    UserListedThenIssued(rules);
    Then(rules, [NewUser("n", 0)] + [ListForDeletion(0, 1)] + [IssueCredential(1, "k")], ListForDeletion(1, 1), w);
    assert List(w, 1) == Listed;
    assert w.deletions[1 := Listed] == map[0 := ListingLate, 1 := Listed];
  }

  lemma BothFinish(w: World)
    requires w == OneUser(map[0 := ListingLate, 1 := Listed], true)
    ensures Finish(w, 0).deletions == map[1 := Listed] && Overtaken(w, FinishDeletion(0))
    ensures LiveOrAnnounced(Finish(Finish(w, 0), 1))
  {
    assert "k" in ListingLate.late;
    assert Listed.listed["k"] == 0;
    assert 0 in Listed.listed.Values;
  }

  /** A loss can be made up for: a second deletion of the same user, listed in between, announces later
      what the first one lost. So the condition is about every state of a run, not about its last. */
  lemma LateAnnouncement(rules: NickRules)
    ensures var acts := [NewUser("n", 0)] + [ListForDeletion(0, 1)] + [IssueCredential(1, "k")]
            + [ListForDeletion(1, 1)]
                        + [FinishDeletion(0)] + [FinishDeletion(1)];
            LiveOrAnnounced(Perform(rules, acts)) && !NeverOvertaken(rules, acts)
  {
    var four := [NewUser("n", 0)] + [ListForDeletion(0, 1)] + [IssueCredential(1, "k")] + [ListForDeletion(1, 1)];
    var w := OneUser(map[0 := ListingLate, 1 := Listed], true);
    ListedTwice(rules);
    BothFinish(w);
    Finished(rules, four, w);
  }

  lemma Finished(rules: NickRules, acts: seq<Action>, w: World)
    requires Perform(rules, acts) == w && 0 in w.deletions && 1 in Finish(w, 0).deletions
             && Overtaken(w, FinishDeletion(0))
    ensures Perform(rules, acts + [FinishDeletion(0)] + [FinishDeletion(1)]) == Finish(Finish(w, 0), 1)
    ensures !NeverOvertaken(rules, acts + [FinishDeletion(0)] + [FinishDeletion(1)])
  {
    Then(rules, acts, FinishDeletion(0), w);
    Then(rules, acts + [FinishDeletion(0)], FinishDeletion(1), Finish(w, 0));
    var first := acts + [FinishDeletion(0)];
    assert first[..|acts|] == acts && (first + [FinishDeletion(1)])[..|first|] == first;
    assert !NeverOvertaken(rules, first);
  }

  // ----- Announcements that name a live credential -----

  /** The references an action announces as revoked. */
  function Named(w: World, a: Action): (r: set<string>) {
    match a
    case RevokeCredential(cred) => if cred in w.t.creds then {cred} else {}
    case FinishDeletion(d) => if d in w.deletions then w.deletions[d].listed.Keys else {}
    case _ => {}
  }

  /** They are what the log gets. */
  lemma NamedIsLogged(rules: NickRules, w: World, a: Action)
    requires Enabled(w, a)
    ensures Act(rules, w, a).log
            == if a.FinishDeletion? || Named(w, a) != {} then w.log + [Named(w, a)] else w.log
  {
  }

  /** The deletion has listed a reference that is live again, for another user. */
  ghost predicate Misnames(w: World, a: Action) {
    && a.FinishDeletion? && a.d in w.deletions
    && var x := w.deletions[a.d];
    && (exists c :: c in x.listed && c in w.t.creds && w.t.creds[c] != x.user)
  }

  /**
   An announcement names a credential that is live when it is made, if and only if it is that of a
   deletion that listed a reference which now belongs to another user.
   */
  lemma NamesLiveExactly(rules: NickRules, w: World, a: Action)
    requires Enabled(w, a)
    ensures (exists c :: c in Named(w, a) && c in Act(rules, w, a).t.creds) <==> Misnames(w, a)
  {
    var w' := Act(rules, w, a);
    if a.FinishDeletion? {
      var x := w.deletions[a.d];
      assert forall c :: c in w'.t.creds <==> c in w.t.creds && w.t.creds[c] != x.user;
      if c :| c in x.listed && c in w.t.creds && w.t.creds[c] != x.user {
        assert c in Named(w, a) && c in w'.t.creds;
      }
    }
  }

  /** Over a run: no announcement ever names a live credential if and only if no deletion misnames. */
  lemma NeverNamesLiveExactly(rules: NickRules, acts: seq<Action>)
    ensures (forall i, c :: 0 <= i < |acts| && c in Named(Perform(rules, acts[..i]), acts[i])
                            ==> c !in Perform(rules, acts[..i + 1]).t.creds)
            <==> (forall i :: 0 <= i < |acts| ==> !Misnames(Perform(rules, acts[..i]), acts[i]))
  {
    forall i | 0 <= i < |acts|
      ensures (forall c :: c in Named(Perform(rules, acts[..i]), acts[i])
                 ==> c !in Perform(rules, acts[..i + 1]).t.creds)
              <==> !Misnames(Perform(rules, acts[..i]), acts[i])
    {
      StepNamesLive(rules, acts, i);
    }
  }

  lemma StepNamesLive(rules: NickRules, acts: seq<Action>, i: nat)
    requires i < |acts|
    ensures (forall c :: c in Named(Perform(rules, acts[..i]), acts[i]) ==> c !in Perform(rules, acts[..i + 1]).t.creds)
            <==> !Misnames(Perform(rules, acts[..i]), acts[i])
  {
    var w := Perform(rules, acts[..i]);
    assert acts[..i + 1] == acts[..i] + [acts[i]] && acts[..i + 1][..i] == acts[..i];
    if Enabled(w, acts[i]) {
      NamesLiveExactly(rules, w, acts[i]);
    }
  }

  // ----- A revoked key -----

  /** A login or an enrollment under way has read the key and not issued its session yet. */
  ghost predicate Held(w: World, key: string) {
    || (exists l :: l in w.logins && w.logins[l].key == key)
    || (exists p :: p in w.enrollments && w.enrollments[p].key == key
          && (w.enrollments[p].phase.Keyed? || w.enrollments[p].phase.Crediting?))
  }

  /** The action issues the session of something that had read the key, for a user that still exists. */
  predicate Answers(w: World, a: Action, key: string) {
    || (a.AnswerLogin? && a.l in w.logins && w.logins[a.l].key == key && w.logins[a.l].user in w.t.users)
    || (&& a.Advance? && a.p in w.enrollments && w.enrollments[a.p].key == key
        && w.enrollments[a.p].phase.Crediting? && w.enrollments[a.p].phase.user in w.t.users)
  }

  /** A key without a credential gets one, other than as a session of its own, exactly by being answered:
      this does not look at the key again, so it also happens when the key has been revoked meanwhile. */
  lemma CredentialComesBackExactly(rules: NickRules, w: World, a: Action, key: string)
    requires Enabled(w, a) && key !in w.t.creds && !(a.IssueCredential? && a.cred == key)
    ensures key in Act(rules, w, a).t.creds <==> Answers(w, a, key)
  {
    if a.Advance? {
      StepIsMove(rules, w, a.p, a.now);
      MoveCredits(rules, w.t, w.enrollments[a.p], a.now);
    } else if a.AnswerLogin? {
      LoginAnswers(w, a.l, key);
    } else if a.IssueCredential? || a.RevokeCredential? || a.ListForDeletion? || a.FinishDeletion? {
      NoNewCredential(rules, w, a, key);
    } else {
      OthersKeepBooks(rules, w, a);
    }
  }

  lemma LoginAnswers(w: World, l: nat, key: string)
    requires l in w.logins && key !in w.t.creds
    ensures key in Answer(w, l).t.creds <==> w.logins[l].key == key && w.logins[l].user in w.t.users
  {
  }

  lemma NoNewCredential(rules: NickRules, w: World, a: Action, key: string)
    requires Enabled(w, a) && key !in w.t.creds && !(a.IssueCredential? && a.cred == key)
    requires a.IssueCredential? || a.RevokeCredential? || a.ListForDeletion? || a.FinishDeletion?
    ensures key !in Act(rules, w, a).t.creds
  {
  }

  /** A revoked key that nothing under way has read. */
  ghost predicate Out(w: World, key: string) {
    key !in w.t.keys && key !in w.t.creds && !Held(w, key)
  }

  lemma OutStays(rules: NickRules, w: World, a: Action, key: string)
    requires Enabled(w, a) && Out(w, key) && !(a.IssueCredential? && a.cred == key) && key !in Act(rules, w, a).t.keys
    ensures Out(Act(rules, w, a), key)
  {
    CredentialComesBackExactly(rules, w, a, key);
    NotHeldAnew(rules, w, a, key);
  }

  lemma NotHeldAnew(rules: NickRules, w: World, a: Action, key: string)
    requires Enabled(w, a) && !Held(w, key) && key !in w.t.keys && key !in Act(rules, w, a).t.keys
    ensures !Held(Act(rules, w, a), key)
  {
    var w' := Act(rules, w, a);
    if a.Advance? {
      StepIsMove(rules, w, a.p, a.now);
      MoveHolds(rules, w.t, w.enrollments[a.p], a.now);
    }
  }

  lemma MoveHolds(rules: NickRules, t: Tables, e: Enrollment, now: int)
    ensures var (t', phase) := Move(rules, t, e, now);
            phase.Keyed? || phase.Crediting? ==> e.phase.Keyed? || e.phase.Crediting? || e.key in t'.keys
  {
  }

  /** Over every run: a key that is revoked while nothing under way has read it gets no credential, so
      cannot be used, until it is enrolled again. */
  lemma {:induction false} RevokedKeyStaysOut(rules: NickRules, acts: seq<Action>, n: nat, m: nat, key: string)
    requires n <= m <= |acts| && Out(Perform(rules, acts[..n]), key)
    requires forall i :: n <= i <= m ==> key !in Perform(rules, acts[..i]).t.keys
    requires forall i :: n <= i < m ==> !(acts[i].IssueCredential? && acts[i].cred == key)
    ensures Out(Perform(rules, acts[..m]), key)
    decreases m
  {
    if n < m {
      RevokedKeyStaysOut(rules, acts, n, m - 1, key);
      assert acts[..m - 1] + [acts[m - 1]] == acts[..m];
      OutNext(rules, acts[..m - 1], acts[m - 1], key);
    }
  }

  lemma OutNext(rules: NickRules, acts: seq<Action>, a: Action, key: string)
    requires Out(Perform(rules, acts), key) && !(a.IssueCredential? && a.cred == key)
    requires key !in Perform(rules, acts + [a]).t.keys
    ensures Out(Perform(rules, acts + [a]), key)
  {
    assert (acts + [a])[..|acts|] == acts;
    if Enabled(Perform(rules, acts), a) {
      OutStays(rules, Perform(rules, acts), a, key);
    }
  }

  // ----- Runs that show both -----

  /** A key enrolled by user 1. */
  function Once(): (r: seq<Action>) {
    InvitedAndEnrolled([NewUser("n", 0)], "c", 1, "k", 0, 0)
  }

  lemma OnceEnrolled(rules: NickRules)
    ensures var w := Perform(rules, Once());
            w.t.keys == map["k" := 1] && w.t.creds == map["k" := 1] && 1 in w.t.users && w.logins == map[]
  {
    InviteRuns.OneUser(rules);
    InviteIsSpentEitherWay(rules, [NewUser("n", 0)], "c", 1, "k", 0, 0);
  }

  /** A login that read the key before it was revoked adds its credential after: the key is gone and its
      credential is live. */
  lemma RevokedKeyComesBack(rules: NickRules)
    ensures var w := Perform(rules, Once() + [ReadKey(0, "k")] + [DropKey("k")] + [RevokeCredential("k")]
                             + [AnswerLogin(0)]);
            "k" !in w.t.keys && "k" in w.t.creds
  {
    OnceEnrolled(rules);
    var w := Perform(rules, Once());
    LateLogin(rules, Once(), w);
  }

  lemma LateLogin(rules: NickRules, acts: seq<Action>, w: World)
    requires Perform(rules, acts) == w && 0 !in w.logins && "k" in w.t.keys && w.t.keys["k"] in w.t.users
    ensures var w' := Perform(rules, acts + [ReadKey(0, "k")] + [DropKey("k")] + [RevokeCredential("k")]
                              + [AnswerLogin(0)]);
            "k" !in w'.t.keys && "k" in w'.t.creds
  {
    Then(rules, acts, ReadKey(0, "k"), w);
    var w1 := Act(rules, w, ReadKey(0, "k"));
    Then(rules, acts + [ReadKey(0, "k")], DropKey("k"), w1);
    var w2 := Act(rules, w1, DropKey("k"));
    Then(rules, acts + [ReadKey(0, "k")] + [DropKey("k")], RevokeCredential("k"), w2);
    var w3 := Act(rules, w2, RevokeCredential("k"));
    Then(rules, acts + [ReadKey(0, "k")] + [DropKey("k")] + [RevokeCredential("k")], AnswerLogin(0), w3);
    CredentialComesBackExactly(rules, w3, AnswerLogin(0), "k");
  }

  /** The pending deletions and what they have listed. */
  ghost predicate SameListings(w: World, w': World) {
    && w'.deletions.Keys == w.deletions.Keys
    && forall d :: d in w.deletions ==>
      (w'.deletions[d].user, w'.deletions[d].listed) == (w.deletions[d].user, w.deletions[d].listed)
  }

  lemma {:induction false} UninterruptedKeepsListings(rules: NickRules, acts: seq<Action>, p: nat, now: int, n: nat)
    requires p in Perform(rules, acts).enrollments
    ensures SameListings(Perform(rules, acts), Perform(rules, Uninterrupted(acts, p, now, n)))
    decreases n
  {
    if n > 0 {
      var w := Perform(rules, acts);
      Then(rules, acts, Advance(p, now), w);
      UninterruptedKeepsListings(rules, acts + [Advance(p, now)], p, now, n - 1);
    }
  }

  lemma EnrollingKeepsListings(rules: NickRules, acts: seq<Action>, code: string, user: UserId, key: string, p: nat)
    requires code !in Perform(rules, acts).codes && p !in Perform(rules, acts).enrollments
    ensures SameListings(Perform(rules, acts), Perform(rules, InvitedAndEnrolled(acts, code, user, key, p, 0)))
  {
    var w, a, b := Perform(rules, acts), MakeInvite(code, user, true, 0), Enter(p, code, key, None);
    Then(rules, acts, a, w);
    Then(rules, acts + [a], b, Act(rules, w, a));
    UninterruptedKeepsListings(rules, acts + [a] + [b], p, 0, 8);
  }

  /** Two users, of whom the first has enrolled the key "k". */
  function Two(): (r: seq<Action>) {
    InvitedAndEnrolled([NewUser("n", 0)] + [NewUser("m", 0)], "c", 1, "k", 0, 0)
  }

  lemma TwoEnrolled(rules: NickRules)
    ensures var w := Perform(rules, Two());
            && w.t.keys == map["k" := 1] && w.t.creds == map["k" := 1] && w.t.users.Keys == {1, 2}
            && w.deletions == map[] && w.codes.Keys == {"c"} && w.enrollments.Keys == {0}
  {
    InviteRuns.OneUser(rules);
    var one := [NewUser("n", 0)];
    var w := Perform(rules, one);
    Then(rules, one, NewUser("m", 0), w);
    assert Lower("n")[0] == 'n' && Lower("m")[0] == 'm';
    EnrollingKeepsListings(rules, one + [NewUser("m", 0)], "c", 1, "k", 0);
    InviteIsSpentEitherWay(rules, one + [NewUser("m", 0)], "c", 1, "k", 0, 0);
  }

  /** The first user's deletion begins and lists the key's credential; then the key is revoked. */
  function ListedAndRevoked(): (r: seq<Action>) {
    Two() + [ListForDeletion(0, 1)] + [DropKey("k")] + [RevokeCredential("k")]
  }

  lemma ListedThenRevoked(rules: NickRules, acts: seq<Action>, w: World)
    requires Perform(rules, acts) == w && 0 !in w.deletions && "k" in w.t.creds && w.t.creds["k"] == 1
    ensures var w' := Perform(rules, acts + [ListForDeletion(0, 1)] + [DropKey("k")] + [RevokeCredential("k")]);
            && "k" !in w'.t.keys && "k" !in w'.t.creds && w'.t.users == w.t.users
            && (w'.codes, w'.enrollments) == (w.codes, w.enrollments)
            && 0 in w'.deletions && w'.deletions[0].user == 1 && "k" in w'.deletions[0].listed
  {
    RunsAreBooked(rules, acts);
    Then(rules, acts, ListForDeletion(0, 1), w);
    var w1 := Act(rules, w, ListForDeletion(0, 1));
    Then(rules, acts + [ListForDeletion(0, 1)], DropKey("k"), w1);
    Then(rules, acts + [ListForDeletion(0, 1)] + [DropKey("k")], RevokeCredential("k"), Act(rules, w1, DropKey("k")));
  }

  /** A deletion that announces a live credential: the key it listed was revoked and enrolled again by
      another user before the deletion was finished. */
  lemma MisnamedRun(rules: NickRules)
    ensures var w := Perform(rules, InvitedAndEnrolled(ListedAndRevoked(), "d", 2, "k", 1, 0));
            && Enabled(w, FinishDeletion(0)) && Misnames(w, FinishDeletion(0)) && "k" in Named(w, FinishDeletion(0))
            && "k" in Act(rules, w, FinishDeletion(0)).t.keys && "k" in Act(rules, w, FinishDeletion(0)).t.creds
  {
    TwoEnrolled(rules);
    ListedThenRevoked(rules, Two(), Perform(rules, Two()));
    EnrollingKeepsListings(rules, ListedAndRevoked(), "d", 2, "k", 1);
    InviteIsSpentEitherWay(rules, ListedAndRevoked(), "d", 2, "k", 1, 0);
  }
}
