/** Login challenges, used at most once and burnt by the first attempt; and refresh tokens, used at most once. */
module Challenges {
  import opened Common

  const MAX_OPEN_CHALLENGES: nat := 10_000
  const CHALLENGE_TTL_MS: int := 60_000

  /** An open challenge: the key it was issued for, and when it expires. */
  datatype Open = Open(key: string, expiresMs: int)

  type Book = map<string, Open>

  /** When the book is full, expired challenges are dropped first. */
  function Cleared(b: Book, now: int): (r: Book) {
    if |b| >= MAX_OPEN_CHALLENGES then map id | id in b && b[id].expiresMs > now :: b[id] else b
  }

  function Issue(b: Book, id: string, key: string, now: int): (r: Book) {
    var b1 := Cleared(b, now);
    if |b1| < MAX_OPEN_CHALLENGES then b1[id := Open(key, now + CHALLENGE_TTL_MS)] else b1
  }

  function Take(b: Book, id: string, key: string, now: int): (r: (Book, bool)) {
    (b - {id}, id in b && b[id].key == key && b[id].expiresMs > now)
  }

  class ChallengeBook {
    var open: Book

    constructor ()
      ensures open == map[]
    {
      open := map[];
    }

    method IssueChallenge(id: string, key: string, now: int)
      modifies this
      ensures open == Issue(old(open), id, key, now)
    {
      if |open| >= MAX_OPEN_CHALLENGES {
        open := map x | x in open && open[x].expiresMs > now :: open[x];
        assert open == Cleared(old(open), now);
      }
      if |open| < MAX_OPEN_CHALLENGES {
        open := open[id := Open(key, now + CHALLENGE_TTL_MS)];
      }
    }

    method TakeChallenge(id: string, key: string, now: int) returns (granted: bool)
      modifies this
      ensures (open, granted) == Take(old(open), id, key, now)
    {
      if id !in open {
        assert open - {id} == open;
        return false;
      }
      var x := open[id];
      open := open - {id};
      granted := x.key == key && x.expiresMs > now;
    }
  }

  // ----- Runs -----

  datatype Op =
    | OpIssue(id: string, key: string, now: int)
    | OpTake(id: string, key: string, now: int)

  function Run(ops: seq<Op>): (b: Book) {
    if ops == [] then map[]
    else
      var b, op := Run(ops[..|ops| - 1]), ops[|ops| - 1];
      match op
      case OpIssue(id, key, now) => Issue(b, id, key, now)
      case OpTake(id, key, now) => Take(b, id, key, now).0
  }

  predicate Granted(ops: seq<Op>, i: nat) {
    i < |ops| && ops[i].OpTake? && Take(Run(ops[..i]), ops[i].id, ops[i].key, ops[i].now).1
  }

  ghost predicate ClockRuns(ops: seq<Op>) {
    forall i, j :: 0 <= i < j < |ops| ==> ops[i].now <= ops[j].now
  }

  /** Challenge ids are random: no two are issued alike. */
  ghost predicate FreshIds(ops: seq<Op>) {
    forall i, j :: 0 <= i < j < |ops| && ops[i].OpIssue? && ops[j].OpIssue? ==> ops[i].id != ops[j].id
  }

  /** There was room for the challenge, after dropping expired ones. */
  predicate Recorded(ops: seq<Op>, j: nat) {
    j < |ops| && ops[j].OpIssue? && |Cleared(Run(ops[..j]), ops[j].now)| < MAX_OPEN_CHALLENGES
  }

  /** Challenge `j` was recorded and nobody has tried to use it in the first `n` operations. */
  ghost predicate Untouched(ops: seq<Op>, n: nat, j: nat) {
    && j < n <= |ops| && Recorded(ops, j)
    && (forall k :: j < k < n ==> !(ops[k].OpTake? && ops[k].id == ops[j].id))
  }

  ghost predicate IsOpen(ops: seq<Op>, n: nat, j: nat, b: Book) {
    j < n <= |ops| && ops[j].id in b && b[ops[j].id] == Open(ops[j].key, ops[j].now + CHALLENGE_TTL_MS)
  }

  /** The book after `n` operations holds the untouched challenges, except expired ones, and no others. */
  ghost predicate Exact(ops: seq<Op>, n: nat, b: Book, last: int) {
    && (forall j: nat :: Untouched(ops, n, j) ==> IsOpen(ops, n, j, b) || ops[j].now + CHALLENGE_TTL_MS <= last)
    && (forall id :: id in b ==> exists j: nat :: Untouched(ops, n, j) && ops[j].id == id && IsOpen(ops, n, j, b))
  }

  lemma RunNext(ops: seq<Op>, n: nat)
    requires n < |ops|
    ensures Run(ops[..n + 1])
            == match ops[n]
               case OpIssue(id, key, now) => Issue(Run(ops[..n]), id, key, now)
               case OpTake(id, key, now) => Take(Run(ops[..n]), id, key, now).0
  {
    assert ops[..n + 1][..n] == ops[..n];
  }

  lemma UntouchedNext(ops: seq<Op>, n: nat, j: nat)
    requires n < |ops|
    ensures Untouched(ops, n + 1, j) <==>
              || (Untouched(ops, n, j) && !(ops[n].OpTake? && ops[n].id == ops[j].id))
              || (j == n && Recorded(ops, n))
  {
  }

  lemma IssueKeepsUntouched(ops: seq<Op>, n: nat, b: Book, last: int, j: nat)
    requires n < |ops| && FreshIds(ops) && ops[n].OpIssue? && last <= ops[n].now && b == Run(ops[..n])
    requires Exact(ops, n, b, last) && Untouched(ops, n + 1, j)
    ensures IsOpen(ops, n + 1, j, Issue(b, ops[n].id, ops[n].key, ops[n].now))
            || ops[j].now + CHALLENGE_TTL_MS <= ops[n].now
  {
    UntouchedNext(ops, n, j);
    assert j < n ==> Untouched(ops, n, j) && ops[j].id != ops[n].id;
  }

  lemma IssueAddsOne(ops: seq<Op>, n: nat, b: Book, last: int, id: string) returns (j: nat)
    requires n < |ops| && FreshIds(ops) && ops[n].OpIssue? && b == Run(ops[..n]) && Exact(ops, n, b, last)
    requires id in Issue(b, ops[n].id, ops[n].key, ops[n].now)
    ensures Untouched(ops, n + 1, j) && ops[j].id == id
    ensures IsOpen(ops, n + 1, j, Issue(b, ops[n].id, ops[n].key, ops[n].now))
  {
    if id == ops[n].id && Recorded(ops, n) {
      j := n;
    } else {
      j :| Untouched(ops, n, j) && ops[j].id == id && IsOpen(ops, n, j, b);
    }
    UntouchedNext(ops, n, j);
  }

  lemma IssueExact(ops: seq<Op>, n: nat, b: Book, last: int)
    requires n < |ops| && FreshIds(ops) && ops[n].OpIssue? && last <= ops[n].now && b == Run(ops[..n])
    requires Exact(ops, n, b, last)
    ensures Exact(ops, n + 1, Issue(b, ops[n].id, ops[n].key, ops[n].now), ops[n].now)
  {
    var b' := Issue(b, ops[n].id, ops[n].key, ops[n].now);
    forall j: nat | Untouched(ops, n + 1, j)
      ensures IsOpen(ops, n + 1, j, b') || ops[j].now + CHALLENGE_TTL_MS <= ops[n].now
    {
      IssueKeepsUntouched(ops, n, b, last, j);
    }
    forall id | id in b'
      ensures exists j: nat :: Untouched(ops, n + 1, j) && ops[j].id == id && IsOpen(ops, n + 1, j, b')
    {
      var j := IssueAddsOne(ops, n, b, last, id);
    }
  }

  lemma TakeExact(ops: seq<Op>, n: nat, b: Book, last: int)
    requires n < |ops| && FreshIds(ops) && ops[n].OpTake? && last <= ops[n].now && Exact(ops, n, b, last)
    ensures Exact(ops, n + 1, Take(b, ops[n].id, ops[n].key, ops[n].now).0, ops[n].now)
  {
    var b' := b - {ops[n].id};
    forall j: nat | Untouched(ops, n + 1, j)
      ensures IsOpen(ops, n + 1, j, b') || ops[j].now + CHALLENGE_TTL_MS <= ops[n].now
    {
      UntouchedNext(ops, n, j);
    }
    forall id | id in b'
      ensures exists j: nat :: Untouched(ops, n + 1, j) && ops[j].id == id && IsOpen(ops, n + 1, j, b') {
      var j: nat :| Untouched(ops, n, j) && ops[j].id == id && IsOpen(ops, n, j, b);
      UntouchedNext(ops, n, j);
      assert IsOpen(ops, n + 1, j, b');
    }
  }

  ghost function LastNow(ops: seq<Op>, n: nat): int
    requires n <= |ops|
  {
    if n > 0 then ops[n - 1].now else if |ops| > 0 then ops[0].now else 0
  }

  lemma {:induction false} BookIsExact(ops: seq<Op>, n: nat)
    requires n <= |ops| && ClockRuns(ops) && FreshIds(ops)
    ensures Exact(ops, n, Run(ops[..n]), LastNow(ops, n))
    decreases n
  {
    if n > 0 {
      BookIsExact(ops, n - 1);
      RunNext(ops, n - 1);
      if ops[n - 1].OpIssue? {
        IssueExact(ops, n - 1, Run(ops[..n - 1]), LastNow(ops, n - 1));
      } else {
        TakeExact(ops, n - 1, Run(ops[..n - 1]), LastNow(ops, n - 1));
      }
    }
  }

  /** Operation `i` is the first attempt with challenge `j`, by its key and in time. */
  ghost predicate FirstUse(ops: seq<Op>, i: nat, j: nat) {
    && i < |ops| && Untouched(ops, i, j) && ops[j].id == ops[i].id && ops[j].key == ops[i].key
    && ops[i].now < ops[j].now + 60_000
  }

  /**
   Over every run with a clock that does not go back: an attempt is granted if and only if its challenge
   was issued for the same key and recorded, has not expired, and this is the first attempt with it. So a
   wrong key or a late attempt burns the challenge, and dropping expired ones is never noticed.
   */
  lemma GrantedExactly(ops: seq<Op>, i: nat)
    requires i < |ops| && ops[i].OpTake? && ClockRuns(ops) && FreshIds(ops)
    ensures Granted(ops, i) <==> exists j: nat :: FirstUse(ops, i, j)
  {
    var b := Run(ops[..i]);
    BookIsExact(ops, i);
    if Granted(ops, i) {
      var j: nat :| Untouched(ops, i, j) && ops[j].id == ops[i].id && IsOpen(ops, i, j, b);
      assert FirstUse(ops, i, j);
    }
    if j: nat :| FirstUse(ops, i, j) {
      assert IsOpen(ops, i, j, b);
    }
  }

  /** No challenge is granted twice. */
  lemma GrantedOnce(ops: seq<Op>, i: nat, k: nat)
    requires i < k < |ops| && ClockRuns(ops) && FreshIds(ops) && Granted(ops, i) && Granted(ops, k)
    ensures ops[i].id != ops[k].id
  {
    GrantedExactly(ops, i);
    GrantedExactly(ops, k);
    var j: nat :| FirstUse(ops, i, j);
    var l: nat :| FirstUse(ops, k, l);
    assert ops[i].id == ops[k].id ==> j == l;
  }

  /** The book never outgrows its limit. */
  lemma {:induction false} BookIsBounded(ops: seq<Op>)
    ensures |Run(ops)| <= 10_000
    decreases |ops|
  {
    if ops != [] {
      var b, op := Run(ops[..|ops| - 1]), ops[|ops| - 1];
      BookIsBounded(ops[..|ops| - 1]);
      if op.OpIssue? {
        assert Cleared(b, op.now).Keys <= b.Keys;
        SubsetSize(Cleared(b, op.now).Keys, b.Keys);
      } else {
        SubsetSize((b - {op.id}).Keys, b.Keys);
      }
    }
  }

  // ----- Refresh tokens -----

  /** The refresh token of a credential, by its hash, and when it expires. */
  datatype Refresh = Refresh(hash: string, expiresMs: int)

  /** Credentials that have one. */
  type Tokens = map<string, Refresh>

  ghost predicate Redeems(m: Tokens, cred: string, hash: string, now: int) {
    cred in m && m[cred].hash == hash && m[cred].expiresMs > now
  }

  /** `take_refresh`: the credential whose token it is, if any, loses it. */
  ghost function TakeRefresh(m: Tokens, hash: string, now: int): (Tokens, Option<string>) {
    if cred :| Redeems(m, cred, hash, now) then (m - {cred}, Some(cred)) else (m, None)
  }

  /** `Renew` is `refresh`: the credential stays and gets a new token. */
  datatype Deed =
    | Give(cred: string, hash: string, expiresMs: int)
    | Renew(hash: string, now: int, newer: string, expiresMs: int)
    | Forget(cred: string)
  {
    function Made(): (hash: Option<string>) {
      match this
      case Give(_, h, _) => Some(h)
      case Renew(_, _, f, _) => Some(f)
      case Forget(_) => None
    }
  }

  ghost function Done(m: Tokens, d: Deed): (Tokens, Option<string>) {
    match d
    case Give(cred, hash, exp) => (m[cred := Refresh(hash, exp)], None)
    case Renew(hash, now, newer, exp) =>
      var (m1, cred) := TakeRefresh(m, hash, now);
      (if cred.Some? then m1[cred.value := Refresh(newer, exp)] else m1, cred)
    case Forget(cred) => (m - {cred}, None)
  }

  ghost function After(deeds: seq<Deed>): Tokens {
    if deeds == [] then map[] else Done(After(deeds[..|deeds| - 1]), deeds[|deeds| - 1]).0
  }

  /** Tokens are random: no two are made alike. */
  ghost predicate FreshTokens(deeds: seq<Deed>) {
    forall i, j :: 0 <= i < j < |deeds| && deeds[i].Made().Some? ==> deeds[i].Made() != deeds[j].Made()
  }

  ghost predicate Renewed(deeds: seq<Deed>, i: nat) {
    i < |deeds| && deeds[i].Renew? && Done(After(deeds[..i]), deeds[i]).1.Some?
  }

  /** Each token on file was made by one of the deeds, and no two credentials share one. */
  ghost predicate OnFile(deeds: seq<Deed>, n: nat, m: Tokens) {
    && n <= |deeds|
    && (forall c :: c in m ==> exists i :: 0 <= i < n && deeds[i].Made() == Some(m[c].hash))
    && Unshared(m)
  }

  ghost predicate Unshared(m: Tokens) {
    forall c, d :: c in m && d in m && m[c].hash == m[d].hash ==> c == d
  }

  /** A deed files at most the token it makes, and a renewal takes the old one off the file. */
  lemma DoneChanges(m: Tokens, d: Deed)
    requires Unshared(m) && forall c :: c in m ==> d.Made() != Some(m[c].hash)
    ensures var m' := Done(m, d).0;
            && Unshared(m')
            && (forall c :: c in m' ==> d.Made() == Some(m'[c].hash) || (c in m && m'[c] == m[c]))
  {
  }

  lemma RenewalTakes(m: Tokens, d: Deed)
    requires Unshared(m) && d.Renew? && Done(m, d).1.Some? && forall c :: c in m ==> d.Made() != Some(m[c].hash)
    ensures forall c :: c in Done(m, d).0 ==> Done(m, d).0[c].hash != d.hash
  {
  }

  lemma DoneOnFile(deeds: seq<Deed>, n: nat, m: Tokens)
    requires n < |deeds| && FreshTokens(deeds) && OnFile(deeds, n, m)
    ensures OnFile(deeds, n + 1, Done(m, deeds[n]).0)
    ensures forall c :: c in m ==> deeds[n].Made() != Some(m[c].hash)
  {
    var m' := Done(m, deeds[n]).0;
    forall c | c in m ensures deeds[n].Made() != Some(m[c].hash) {
      var i :| 0 <= i < n && deeds[i].Made() == Some(m[c].hash);
    }
    DoneChanges(m, deeds[n]);
    forall c | c in m' ensures exists i :: 0 <= i < n + 1 && deeds[i].Made() == Some(m'[c].hash) {
      if c in m && m'[c] == m[c] {
        var i :| 0 <= i < n && deeds[i].Made() == Some(m[c].hash);
      } else {
        assert deeds[n].Made() == Some(m'[c].hash);
      }
    }
  }

  lemma {:induction false} FileOfRuns(deeds: seq<Deed>, n: nat)
    requires n <= |deeds| && FreshTokens(deeds)
    ensures OnFile(deeds, n, After(deeds[..n]))
  {
    if n > 0 {
      FileOfRuns(deeds, n - 1);
      assert deeds[..n][..n - 1] == deeds[..n - 1];
      DoneOnFile(deeds, n - 1, After(deeds[..n - 1]));
    }
  }

  /** Once redeemed, a token is never on file again. */
  lemma {:induction false} RedeemedIsGone(deeds: seq<Deed>, i: nat, n: nat)
    requires i < n <= |deeds| && FreshTokens(deeds) && Renewed(deeds, i)
    ensures forall c :: c in After(deeds[..n]) ==> After(deeds[..n])[c].hash != deeds[i].hash
    decreases n
  {
    var m := After(deeds[..n - 1]);
    FileOfRuns(deeds, n - 1);
    assert deeds[..n][..n - 1] == deeds[..n - 1];
    DoneOnFile(deeds, n - 1, m);
    if i < n - 1 {
      RedeemedIsGone(deeds, i, n - 1);
      WasMade(deeds, i);
      DoneChanges(m, deeds[n - 1]);
    } else {
      RenewalTakes(m, deeds[i]);
    }
  }

  /** A redeemed token had been made before. */
  lemma WasMade(deeds: seq<Deed>, i: nat)
    requires FreshTokens(deeds) && Renewed(deeds, i)
    ensures exists k :: 0 <= k < i && deeds[k].Made() == Some(deeds[i].hash)
  {
    FileOfRuns(deeds, i);
    var m := After(deeds[..i]);
    var c :| Redeems(m, c, deeds[i].hash, deeds[i].now);
    assert m[c].hash == deeds[i].hash;
  }

  /** Over every run a refresh token is redeemed at most once. */
  lemma RefreshedOnce(deeds: seq<Deed>, i: nat, j: nat)
    requires i < j < |deeds| && FreshTokens(deeds) && Renewed(deeds, i) && Renewed(deeds, j)
    ensures deeds[i].hash != deeds[j].hash
  {
    RedeemedIsGone(deeds, i, j);
    var m := After(deeds[..j]);
    var c :| Redeems(m, c, deeds[j].hash, deeds[j].now);
  }

  /** And it keeps the credential it belongs to: a renewal replaces exactly that credential's token. */
  lemma RenewalKeepsCredential(m: Tokens, hash: string, now: int, newer: string, exp: int)
    requires Unshared(m)
    ensures var (m', cred) := Done(m, Renew(hash, now, newer, exp));
            && (cred.Some? <==> exists c :: Redeems(m, c, hash, now))
            && (cred.Some? ==> Redeems(m, cred.value, hash, now) && m' == m[cred.value := Refresh(newer, exp)])
            && (cred.None? ==> m' == m)
  {
  }
}
