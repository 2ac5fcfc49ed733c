/**
 Accounts registered by trusted nodes: signed requests with a replay book and a sliding hourly limit.
 Strings are their UTF-8 bytes. Key decoding and signature checking are parameters; the registry file
 is assumed to be writable.
 */
module NodeRegistry {
  import opened Common

  const MAX_SKEW_MS: int := 300_000
  const HOUR_MS: int := 3_600_000

  datatype NodeRecord = NodeRecord(publicKey: string, owner: string, revoked: bool, createdMs: int, nicks: seq<string>)

  datatype NodeError = UnknownNode | Revoked | BadSignature | Stale | Replay | RateLimited | Invalid

  datatype Request = Request(nodeId: string, nick: Option<string>, tsMs: int, nonce: string, signature: string)

  /** base64 decoding of a 32-byte key, and ed25519 verification of a request for an audience. */
  datatype Crypto = Crypto(decodeKey: string -> Option<string>, verifies: (string, string, Request) -> bool)

  datatype State = State(nodes: map<string, NodeRecord>, nonces: map<string, int>, recent: map<string, seq<int>>)

  /** The registry as opened over the nodes on file: the replay book and the queues start empty. */
  function Opened(nodes: map<string, NodeRecord>): (st: State) {
    State(nodes, map[], map[])
  }

  predicate IdChar(c: char) {
    'a' <= c <= 'z' || 'A' <= c <= 'Z' || '0' <= c <= '9' || c == '-' || c == '_' || c == '.' || c == ':'
  }

  predicate ValidId(s: string) {
    0 < |s| <= 128 && forall c :: c in s ==> IdChar(c)
  }

  /** ASCII white space only. */
  predicate Blank(s: string) {
    forall c :: c in s ==> c == ' ' || '\t' <= c <= '\r'
  }

  // ----- Specification functions -----

  function Register(c: Crypto, st: State, id: string, key: string, owner: string,
                    now: int): (r: (State, Result<NodeRecord, NodeError>)) {
    if !ValidId(id) || Blank(owner) || c.decodeKey(key).None? then (st, Err(Invalid))
    else if id in st.nodes && st.nodes[id].revoked then (st, Err(Revoked))
    else
      var nicks := if id in st.nodes then st.nodes[id].nicks else [];
      var rec := NodeRecord(c.decodeKey(key).value, owner, false, now, nicks);
      (st.(nodes := st.nodes[id := rec]), Ok(rec))
  }

  function Revoke(st: State, id: string): (r: (State, Result<seq<string>, NodeError>)) {
    if id !in st.nodes then (st, Err(UnknownNode))
    else (st.(nodes := st.nodes[id := st.nodes[id].(revoked := true)]), Ok(st.nodes[id].nicks))
  }

  function RecordAccount(st: State, id: string, nick: string): (r: (State, Result<(), NodeError>)) {
    if id !in st.nodes then (st, Err(UnknownNode))
    else if nick in st.nodes[id].nicks then (st, Ok(()))
    else (st.(nodes := st.nodes[id := st.nodes[id].(nicks := st.nodes[id].nicks + [nick])]), Ok(()))
  }

  function NonceKey(q: Request): (k: string) {
    q.nodeId + "\n" + q.nonce
  }

  function Abs(x: int): (r: nat) {
    if x < 0 then -x else x
  }

  /** Everything checked before the replay book is opened. */
  function Precheck(c: Crypto, st: State, audience: string, q: Request, now: int): (r: Result<NodeRecord, NodeError>) {
    if !ValidId(q.nodeId) || |q.nonce| < 8 || |q.nonce| > 128 then Err(Invalid)
    else if q.nodeId !in st.nodes then Err(UnknownNode)
    else if st.nodes[q.nodeId].revoked then Err(Revoked)
    else if Abs(now - q.tsMs) > MAX_SKEW_MS then Err(Stale)
    else if !c.verifies(st.nodes[q.nodeId].publicKey, audience, q) then Err(BadSignature)
    else Ok(st.nodes[q.nodeId])
  }

  function RetainNonces(nonces: map<string, int>, now: int): (r: map<string, int>) {
    map k | k in nonces && now - nonces[k] <= 2 * MAX_SKEW_MS :: nonces[k]
  }

  /** The queue without the times that are more than an hour old, from the front. */
  function DropOld(q: seq<int>, now: int): (r: seq<int>) {
    if q != [] && now - q[0] > HOUR_MS then DropOld(q[1..], now) else q
  }

  /** It drops a prefix, all of it old. */
  lemma {:induction false} DropOldDrops(q: seq<int>, now: int)
    ensures var r := DropOld(q, now);
            |r| <= |q| && r == q[|q| - |r|..] && (forall i :: 0 <= i < |q| - |r| ==> now - q[i] > HOUR_MS)
  {
    if q != [] && now - q[0] > HOUR_MS {
      DropOldDrops(q[1..], now);
      var r := DropOld(q, now);
      forall i | 0 <= i < |q| - |r| ensures now - q[i] > HOUR_MS {
        if i > 0 { assert q[i] == q[1..][i - 1]; }
      }
    }
  }

  /** Specification of `authorize_inner`: a nonce is spent even when the rate limit then refuses. */
  function Authorize(c: Crypto, st: State, rate: nat, audience: string, q: Request,
                     now: int): (r: (State, Result<NodeRecord, NodeError>))
    ensures r.0.nodes == st.nodes
    ensures r.1.Ok? ==> q.nodeId in st.nodes && !st.nodes[q.nodeId].revoked
  {
    var pre := Precheck(c, st, audience, q, now);
    if pre.Err? then (st, Err(pre.error))
    else
      var kept := RetainNonces(st.nonces, now);
      if NonceKey(q) in kept then (st.(nonces := kept), Err(Replay))
      else
        var spent := st.(nonces := kept[NonceKey(q) := now]);
        var times := DropOld(if q.nodeId in st.recent then st.recent[q.nodeId] else [], now);
        if |times| >= rate then (spent.(recent := st.recent[q.nodeId := times]), Err(RateLimited))
        else (spent.(recent := st.recent[q.nodeId := times + [now]]), pre)
  }

  // ----- The registry object -----

  method PopOld(queue: seq<int>, now: int) returns (times: seq<int>)
    ensures times == DropOld(queue, now)
  {
    times := queue;
    while times != [] && now - times[0] > HOUR_MS
      invariant DropOld(times, now) == DropOld(queue, now)
      decreases |times|
    {
      times := times[1..];
    }
  }

  class Registry {
    const crypto: Crypto
    const ratePerHour: nat
    var nodes: map<string, NodeRecord>
    var nonces: map<string, int>
    var recent: map<string, seq<int>>

    function View(): (st: State)
      reads this
    {
      State(nodes, nonces, recent)
    }

    /** `file` is what was saved before, if anything; the limit is at least one. */
    constructor (crypto: Crypto, file: Option<map<string, NodeRecord>>, rate: nat)
      ensures View() == Opened(if file.Some? then file.value else map[])
      ensures this.crypto == crypto && ratePerHour == (if rate > 1 then rate else 1)
    {
      this.crypto := crypto;
      ratePerHour := if rate > 1 then rate else 1;
      nodes, nonces, recent := if file.Some? then file.value else map[], map[], map[];
    }

    method RegisterNode(id: string, key: string, owner: string, now: int) returns (r: Result<NodeRecord, NodeError>)
      modifies this`nodes
      ensures (View(), r) == Register(crypto, old(View()), id, key, owner, now)
    {
      if !ValidId(id) || Blank(owner) { return Err(Invalid); }
      var pk := crypto.decodeKey(key);
      if pk.None? { return Err(Invalid); }
      if id in nodes && nodes[id].revoked { return Err(Revoked); }
      var nicks := if id in nodes then nodes[id].nicks else [];
      var rec := NodeRecord(pk.value, owner, false, now, nicks);
      nodes := nodes[id := rec];
      return Ok(rec);
    }

    method RevokeNode(id: string) returns (r: Result<seq<string>, NodeError>)
      modifies this`nodes
      ensures (View(), r) == Revoke(old(View()), id)
    {
      if id !in nodes { return Err(UnknownNode); }
      nodes := nodes[id := nodes[id].(revoked := true)];
      return Ok(nodes[id].nicks);
    }

    method AuthorizeRequest(audience: string, q: Request, now: int) returns (r: Result<NodeRecord, NodeError>)
      modifies this`nonces, this`recent
      ensures (View(), r) == Authorize(crypto, old(View()), ratePerHour, audience, q, now)
    {
      var pre := Precheck(crypto, View(), audience, q, now);
      if pre.Err? { return Err(pre.error); }
      nonces := map k | k in nonces && now - nonces[k] <= 2 * MAX_SKEW_MS :: nonces[k];
      assert nonces == RetainNonces(old(nonces), now);
      if NonceKey(q) in nonces { return Err(Replay); }
      nonces := nonces[NonceKey(q) := now];
      var times := if q.nodeId in recent then recent[q.nodeId] else [];
      times := PopOld(times, now);
      if |times| >= ratePerHour {
        recent := recent[q.nodeId := times];
        return Err(RateLimited);
      }
      recent := recent[q.nodeId := times + [now]];
      return pre;
    }
  }

  // ----- Runs -----

  datatype Op =
    | OpRegister(id: string, key: string, owner: string, now: int)
    | OpRevoke(id: string, now: int)
    | OpAuthorize(audience: string, request: Request, now: int)
    | OpRecord(id: string, nick: string, now: int)

  /** A successful authorization. */
  datatype Grant = Grant(request: Request, at: int)

  /** The state and the grants so far, in order. */
  datatype History = History(st: State, grants: seq<Grant>)

  function Apply(c: Crypto, rate: nat, h: History, op: Op): (r: History) {
    match op
    case OpRegister(id, key, owner, now) => h.(st := Register(c, h.st, id, key, owner, now).0)
    case OpRevoke(id, _) => h.(st := Revoke(h.st, id).0)
    case OpRecord(id, nick, _) => h.(st := RecordAccount(h.st, id, nick).0)
    case OpAuthorize(audience, q, now) =>
      var (st, out) := Authorize(c, h.st, rate, audience, q, now);
      History(st, if out.Ok? then h.grants + [Grant(q, now)] else h.grants)
  }

  function Run(c: Crypto, boot: map<string, NodeRecord>, rate: nat, ops: seq<Op>): (h: History) {
    if ops == [] then History(Opened(boot), [])
      else Apply(c, rate, Run(c, boot, rate, ops[..|ops| - 1]), ops[|ops| - 1])
  }

  ghost predicate ClockRuns(ops: seq<Op>) {
    forall i, j :: 0 <= i < j < |ops| ==> ops[i].now <= ops[j].now
  }

  // ----- No request is authorized twice -----

  /** A node id holds no newline, so the joined key says which node and which nonce. */
  lemma NonceKeyDetermines(p: Request, q: Request)
    requires ValidId(p.nodeId) && ValidId(q.nodeId) && NonceKey(p) == NonceKey(q)
    ensures p.nodeId == q.nodeId && p.nonce == q.nonce
  {
    var k, l := NonceKey(p), NonceKey(q);
    assert forall i :: 0 <= i < |p.nodeId| ==> k[i] == p.nodeId[i] && IdChar(p.nodeId[i]);
    assert forall i :: 0 <= i < |q.nodeId| ==> l[i] == q.nodeId[i] && IdChar(q.nodeId[i]);
    assert k[|p.nodeId|] == '\n' && l[|q.nodeId|] == '\n';
    assert p.nodeId == k[..|p.nodeId|] && q.nodeId == l[..|q.nodeId|];
    assert p.nonce == k[|p.nodeId| + 1..] && q.nonce == l[|q.nodeId| + 1..];
  }

  /** The nonce of every grant that could still be replayed is in the book. */
  ghost predicate BookKept(h: History, last: int) {
    forall g :: g in h.grants ==>
      (&& g.at <= last && Abs(g.at - g.request.tsMs) <= MAX_SKEW_MS
       && (last - g.at <= 2 * MAX_SKEW_MS
           ==> NonceKey(g.request) in h.st.nonces && h.st.nonces[NonceKey(g.request)] >= g.at))
  }

  /** What a signature covers besides the nick: node, nonce and time. The signature text is left out, since
      one signature can be written in several ways. */
  function Claim(q: Request): (r: (string, string, int)) {
    (q.nodeId, q.nonce, q.tsMs)
  }

  ghost predicate NoTwice(grants: seq<Grant>) {
    forall i, j :: 0 <= i < j < |grants| ==> Claim(grants[i].request) != Claim(grants[j].request)
  }

  lemma AuthorizeKeepsBook(c: Crypto, rate: nat, h: History, audience: string, q: Request, last: int, now: int)
    requires BookKept(h, last) && last <= now
    ensures BookKept(Apply(c, rate, h, OpAuthorize(audience, q, now)), now)
  {
    var h' := Apply(c, rate, h, OpAuthorize(audience, q, now));
    forall g | g in h'.grants && now - g.at <= 2 * MAX_SKEW_MS
      ensures NonceKey(g.request) in h'.st.nonces && h'.st.nonces[NonceKey(g.request)] >= g.at
    {
      if g in h.grants {
        assert now - h.st.nonces[NonceKey(g.request)] <= 2 * MAX_SKEW_MS;
      }
    }
  }

  lemma AuthorizeIsNew(c: Crypto, rate: nat, h: History, audience: string, q: Request, last: int, now: int)
    requires BookKept(h, last) && last <= now && NoTwice(h.grants)
    ensures NoTwice(Apply(c, rate, h, OpAuthorize(audience, q, now)).grants)
  {
    if Authorize(c, h.st, rate, audience, q, now).1.Ok? {
      forall i | 0 <= i < |h.grants| && h.grants[i].request.nodeId == q.nodeId && h.grants[i].request.nonce == q.nonce
        ensures h.grants[i].request.tsMs != q.tsMs
      {
        var g := h.grants[i];
        assert g in h.grants && NonceKey(g.request) == NonceKey(q);
        assert NonceKey(q) !in RetainNonces(h.st.nonces, now);
        assert now - g.at > 2 * MAX_SKEW_MS;
      }
    }
  }

  ghost function LastNow(ops: seq<Op>): int {
    if ops == [] then 0 else ops[|ops| - 1].now
  }

  lemma {:induction false} BookOfRuns(c: Crypto, boot: map<string, NodeRecord>, rate: nat, ops: seq<Op>)
    requires ClockRuns(ops)
    ensures BookKept(Run(c, boot, rate, ops), LastNow(ops)) && NoTwice(Run(c, boot, rate, ops).grants)
    decreases |ops|
  {
    if ops != [] {
      var before, op := ops[..|ops| - 1], ops[|ops| - 1];
      BookOfRuns(c, boot, rate, before);
      var h := Run(c, boot, rate, before);
      var last := if before == [] then op.now else LastNow(before);
      assert last <= op.now && BookKept(h, last);
      if op.OpAuthorize? {
        AuthorizeKeepsBook(c, rate, h, op.audience, op.request, last, op.now);
        AuthorizeIsNew(c, rate, h, op.audience, op.request, last, op.now);
      } else {
        var h' := Run(c, boot, rate, ops);
        assert h'.grants == h.grants && h'.st.nonces == h.st.nonces;
      }
    }
  }

  /** Over every run with a clock that does not go back, no node, nonce and time are authorized twice, so no
      signed request is, however its signature is written, although nonces are forgotten after ten minutes. */
  lemma NoReplay(c: Crypto, boot: map<string, NodeRecord>, rate: nat, ops: seq<Op>, i: nat, j: nat)
    requires ClockRuns(ops) && i < j < |Run(c, boot, rate, ops).grants|
    ensures Claim(Run(c, boot, rate, ops).grants[i].request) != Claim(Run(c, boot, rate, ops).grants[j].request)
  {
    BookOfRuns(c, boot, rate, ops);
  }

  /** An entry of the book is an earlier attempt of the run, at the time on file. */
  ghost predicate Attempted(ops: seq<Op>, key: string, at: int) {
    exists i :: 0 <= i < |ops| && Attempts(ops[i], key, at)
  }

  predicate Attempts(op: Op, key: string, at: int) {
    op.OpAuthorize? && op.now == at && ValidId(op.request.nodeId) && NonceKey(op.request) == key
  }

  lemma AuthorizeBook(c: Crypto, st: State, rate: nat, audience: string, q: Request, now: int)
    ensures var st' := Authorize(c, st, rate, audience, q, now).0;
            forall k :: k in st'.nonces ==>
              || (k in st.nonces && st'.nonces[k] == st.nonces[k])
              || (k == NonceKey(q) && st'.nonces[k] == now && ValidId(q.nodeId))
  {
  }

  lemma {:induction false} BookFromAttempts(c: Crypto, boot: map<string, NodeRecord>, rate: nat, ops: seq<Op>)
    ensures forall k :: k in Run(c, boot, rate, ops).st.nonces
              ==> Attempted(ops, k, Run(c, boot, rate, ops).st.nonces[k])
    decreases |ops|
  {
    if ops != [] {
      var before, op := ops[..|ops| - 1], ops[|ops| - 1];
      BookFromAttempts(c, boot, rate, before);
      var h, h' := Run(c, boot, rate, before), Run(c, boot, rate, ops);
      if op.OpAuthorize? {
        AuthorizeBook(c, h.st, rate, op.audience, op.request, op.now);
      } else {
        assert h'.st.nonces == h.st.nonces;
      }
      forall k | k in h'.st.nonces ensures Attempted(ops, k, h'.st.nonces[k]) {
        if k in h.st.nonces && h'.st.nonces[k] == h.st.nonces[k] {
          var i :| 0 <= i < |before| && Attempts(before[i], k, h.st.nonces[k]);
          assert ops[i] == before[i];
        } else {
          assert Attempts(ops[|ops| - 1], k, h'.st.nonces[k]);
        }
      }
    }
  }

  /** And no request is refused as a replay without cause: the same node used the same nonce less than
      ten minutes and a millisecond ago. */
  lemma ReplayHasCause(c: Crypto, boot: map<string, NodeRecord>, rate: nat, ops: seq<Op>, audience: string, q: Request,
                       now: int)
    requires Authorize(c, Run(c, boot, rate, ops).st, rate, audience, q, now).1 == Err(Replay)
    ensures exists i :: 0 <= i < |ops| && ops[i].OpAuthorize? && now - ops[i].now <= 2 * MAX_SKEW_MS
              && ops[i].request.nodeId == q.nodeId && ops[i].request.nonce == q.nonce
  {
    var st := Run(c, boot, rate, ops).st;
    BookFromAttempts(c, boot, rate, ops);
    assert NonceKey(q) in RetainNonces(st.nonces, now) && ValidId(q.nodeId);
    var i :| 0 <= i < |ops| && Attempts(ops[i], NonceKey(q), st.nonces[NonceKey(q)]);
    NonceKeyDetermines(ops[i].request, q);
  }

  // ----- The hourly limit -----

  /** Times of one node's grants. */
  function Times(grants: seq<Grant>, node: string): (r: seq<int>) {
    if grants == [] then []
    else
      var g := grants[|grants| - 1];
      var rest := Times(grants[..|grants| - 1], node);
      if g.request.nodeId == node then rest + [g.at] else rest
  }

  /** The queue holds the latest times, and what it no longer holds is more than an hour old. */
  ghost predicate QueueIsRecent(queue: seq<int>, times: seq<int>, rate: nat, last: int) {
    && |queue| <= |times| && |queue| <= rate
    && queue == times[|times| - |queue|..]
    && (forall i :: 0 <= i < |times| - |queue| ==> last - times[i] > HOUR_MS)
  }

  ghost predicate Increasing(times: seq<int>, last: int) {
    && (forall i, j :: 0 <= i < j < |times| ==> times[i] <= times[j])
    && (forall i :: 0 <= i < |times| ==> times[i] <= last)
  }

  /** Any `rate + 1` grants in a row take more than an hour. */
  ghost predicate Spaced(times: seq<int>, rate: nat) {
    forall i :: 0 <= i < |times| - rate ==> times[i + rate] - times[i] > HOUR_MS
  }

  function Queue(st: State, node: string): (r: seq<int>) {
    if node in st.recent then st.recent[node] else []
  }

  ghost predicate Paced(st: State, times: seq<int>, node: string, rate: nat, last: int) {
    QueueIsRecent(Queue(st, node), times, rate, last) && Increasing(times, last) && Spaced(times, rate)
  }

  lemma QueueAges(queue: seq<int>, times: seq<int>, rate: nat, last: int, now: int)
    requires last <= now && QueueIsRecent(queue, times, rate, last)
    ensures QueueIsRecent(queue, times, rate, now) && QueueIsRecent(DropOld(queue, now), times, rate, now)
  {
    var kept := DropOld(queue, now);
    DropOldDrops(queue, now);
    assert kept == times[|times| - |kept|..];
    forall i | 0 <= i < |times| - |kept| ensures now - times[i] > HOUR_MS {
      if i >= |times| - |queue| {
        assert times[i] == queue[i - (|times| - |queue|)];
      }
    }
  }

  lemma PushKeepsPace(queue: seq<int>, times: seq<int>, rate: nat, now: int)
    requires QueueIsRecent(queue, times, rate, now) && |queue| < rate && Increasing(times, now) && Spaced(times, rate)
    ensures QueueIsRecent(queue + [now], times + [now], rate, now) && Increasing(times + [now], now)
            && Spaced(times + [now], rate)
  {
    assert (times + [now])[|times| - |queue|..] == queue + [now];
  }

  /** What an authorization attempt does to a node's queue. */
  lemma AuthorizeQueue(c: Crypto, st: State, rate: nat, audience: string, q: Request, now: int, node: string)
    ensures var (st', out) := Authorize(c, st, rate, audience, q, now);
            var kept := DropOld(Queue(st, node), now);
            if out.Ok? && q.nodeId == node then |kept| < rate && Queue(st', node) == kept + [now]
            else Queue(st', node) == Queue(st, node) || Queue(st', node) == kept
  {
  }

  lemma AuthorizeKeepsPace(c: Crypto, rate: nat, h: History, audience: string, q: Request, last: int, now: int,
                           node: string)
    requires last <= now && Paced(h.st, Times(h.grants, node), node, rate, last)
    ensures var h' := Apply(c, rate, h, OpAuthorize(audience, q, now));
            Paced(h'.st, Times(h'.grants, node), node, rate, now)
  {
    var h' := Apply(c, rate, h, OpAuthorize(audience, q, now));
    QueueAges(Queue(h.st, node), Times(h.grants, node), rate, last, now);
    AuthorizeQueue(c, h.st, rate, audience, q, now, node);
    assert Increasing(Times(h.grants, node), now);
    var out := Authorize(c, h.st, rate, audience, q, now).1;
    TimesNext(h, out.Ok?, Grant(q, now), node);
    if out.Ok? && q.nodeId == node {
      PushKeepsPace(DropOld(Queue(h.st, node), now), Times(h.grants, node), rate, now);
    }
  }

  lemma OtherKeepsPace(c: Crypto, rate: nat, h: History, op: Op, last: int, node: string)
    requires !op.OpAuthorize? && last <= op.now && Paced(h.st, Times(h.grants, node), node, rate, last)
    ensures var h' := Apply(c, rate, h, op);
            Paced(h'.st, Times(h'.grants, node), node, rate, op.now)
  {
    var h' := Apply(c, rate, h, op);
    assert h'.grants == h.grants && h'.st.recent == h.st.recent;
    QueueAges(Queue(h.st, node), Times(h.grants, node), rate, last, op.now);
  }

  lemma TimesNext(h: History, granted: bool, g: Grant, node: string)
    ensures Times(if granted then h.grants + [g] else h.grants, node)
            == Times(h.grants, node) + (if granted && g.request.nodeId == node then [g.at] else [])
  {
    assert (h.grants + [g])[..|h.grants|] == h.grants;
  }

  lemma {:induction false} PaceOfRuns(c: Crypto, boot: map<string, NodeRecord>, rate: nat, ops: seq<Op>, node: string)
    requires ClockRuns(ops)
    ensures Paced(Run(c, boot, rate, ops).st, Times(Run(c, boot, rate, ops).grants, node), node, rate, LastNow(ops))
    decreases |ops|
  {
    if ops != [] {
      var before, op := ops[..|ops| - 1], ops[|ops| - 1];
      PaceOfRuns(c, boot, rate, before, node);
      var h := Run(c, boot, rate, before);
      var last := if before == [] then op.now else LastNow(before);
      if op.OpAuthorize? {
        AuthorizeKeepsPace(c, rate, h, op.audience, op.request, last, op.now, node);
      } else {
        OtherKeepsPace(c, rate, h, op, last, node);
      }
    }
  }

  ghost function Interval(a: int, n: nat): (r: set<int>)
    ensures |r| == n && forall i :: i in r <==> a <= i < a + n
  {
    if n == 0 then {} else Interval(a, n - 1) + {a + n - 1}
  }

  /** Spaced times put at most `rate` of themselves into any hour. */
  lemma SpacedInWindow(times: seq<int>, rate: nat, last: int, from: int)
    requires Increasing(times, last) && Spaced(times, rate)
    ensures |set i: int | 0 <= i < |times| && from <= times[i] <= from + HOUR_MS| <= rate
  {
    var inside := set i: int | 0 <= i < |times| && from <= times[i] <= from + HOUR_MS;
    if inside != {} {
      var a := FirstInside(times, from, last);
      forall i | a + rate <= i < |times| ensures times[i] > from + HOUR_MS {
        assert times[a + rate] - times[a] > HOUR_MS;
        assert i == a + rate || times[a + rate] <= times[i];
      }
      SubsetSize(inside, Interval(a, rate));
    }
  }

  lemma FirstInside(times: seq<int>, from: int, last: int) returns (a: nat)
    requires Increasing(times, last) && exists i :: 0 <= i < |times| && from <= times[i]
    ensures a < |times| && from <= times[a] && forall i :: 0 <= i < a ==> times[i] < from
  {
    a := 0;
    while times[a] < from
      invariant a < |times| && (forall i :: 0 <= i < a ==> times[i] < from)
      decreases |times| - a
    {
      a := a + 1;
    }
  }

  /** Over every run, each node gets at most `rate` authorizations in any hour, wherever it starts. */
  lemma HourlyLimit(c: Crypto, boot: map<string, NodeRecord>, rate: nat, ops: seq<Op>, node: string, from: int)
    requires ClockRuns(ops)
    ensures var times := Times(Run(c, boot, rate, ops).grants, node);
            |set i: int | 0 <= i < |times| && from <= times[i] <= from + HOUR_MS| <= rate
  {
    PaceOfRuns(c, boot, rate, ops, node);
    SpacedInWindow(Times(Run(c, boot, rate, ops).grants, node), rate, LastNow(ops), from);
  }

  // ----- Revocation is final -----

  ghost predicate IsRevoked(st: State, node: string) {
    node in st.nodes && st.nodes[node].revoked
  }

  lemma RevokedStep(c: Crypto, rate: nat, h: History, op: Op, node: string)
    requires IsRevoked(h.st, node)
    ensures IsRevoked(Apply(c, rate, h, op).st, node)
            && Times(Apply(c, rate, h, op).grants, node) == Times(h.grants, node)
  {
    if op.OpAuthorize? {
      var out := Authorize(c, h.st, rate, op.audience, op.request, op.now).1;
      TimesNext(h, out.Ok?, Grant(op.request, op.now), node);
    }
  }

  /** Once revoked, a node stays revoked whatever follows, gets no authorization and cannot be
      registered again. */
  lemma {:induction false} RevocationIsFinal(c: Crypto, boot: map<string, NodeRecord>, rate: nat, ops: seq<Op>, n: nat,
                                             node: string)
    requires n <= |ops| && IsRevoked(Run(c, boot, rate, ops[..n]).st, node)
    ensures IsRevoked(Run(c, boot, rate, ops).st, node)
    ensures Times(Run(c, boot, rate, ops).grants, node) == Times(Run(c, boot, rate, ops[..n]).grants, node)
    ensures forall key, owner, now :: Register(c, Run(c, boot, rate, ops).st, node, key, owner, now).1.Err?
    decreases |ops|
  {
    if n == |ops| {
      assert ops[..n] == ops;
    } else {
      var before, op := ops[..|ops| - 1], ops[|ops| - 1];
      assert before[..n] == ops[..n];
      RevocationIsFinal(c, boot, rate, before, n, node);
      RevokedStep(c, rate, Run(c, boot, rate, before), op, node);
    }
  }

  // ----- Every answer, from the run alone -----

  function AnswerAt(c: Crypto, boot: map<string, NodeRecord>, rate: nat, ops: seq<Op>, i: nat)
    : (r: Result<NodeRecord, NodeError>)
    requires i < |ops| && ops[i].OpAuthorize?
  {
    Authorize(c, Run(c, boot, rate, ops[..i]).st, rate, ops[i].audience, ops[i].request, ops[i].now).1
  }

  /** Operation `i` spent the node's nonce: it was granted, or refused only for the rate. */
  predicate Spends(c: Crypto, boot: map<string, NodeRecord>, rate: nat, ops: seq<Op>, i: nat, key: string) {
    && i < |ops| && ops[i].OpAuthorize? && NonceKey(ops[i].request) == key && ValidId(ops[i].request.nodeId)
    && (AnswerAt(c, boot, rate, ops, i).Ok? || AnswerAt(c, boot, rate, ops, i) == Err(RateLimited))
  }

  /** The book has the nonces spent within the window, and none that was not spent. */
  ghost predicate BookExact(c: Crypto, boot: map<string, NodeRecord>, rate: nat, ops: seq<Op>, nonces: map<string, int>,
                            last: int) {
    && (forall i: nat, k :: Spends(c, boot, rate, ops, i, k) && last - ops[i].now <= 2 * MAX_SKEW_MS
          ==> k in nonces && nonces[k] >= ops[i].now)
    && (forall k :: k in nonces ==> exists i: nat :: Spends(c, boot, rate, ops, i, k) && ops[i].now == nonces[k])
  }

  lemma SpendsNext(c: Crypto, boot: map<string, NodeRecord>, rate: nat, ops: seq<Op>, i: nat, k: string)
    requires ops != [] && i < |ops| - 1
    ensures Spends(c, boot, rate, ops, i, k) <==> Spends(c, boot, rate, ops[..|ops| - 1], i, k)
  {
    assert ops[..|ops| - 1][..i] == ops[..i];
  }

  /** What one attempt does to the book. */
  lemma AuthorizeSpends(c: Crypto, st: State, rate: nat, audience: string, q: Request, now: int)
    ensures var (st', r) := Authorize(c, st, rate, audience, q, now);
            if r.Ok? || r == Err(RateLimited)
            then ValidId(q.nodeId) && st'.nonces == RetainNonces(st.nonces, now)[NonceKey(q) := now]
            else st'.nonces == st.nonces || st'.nonces == RetainNonces(st.nonces, now)
  {
  }

  /** A nonce of the new book was there before, or is that of the last operation, which spent it. */
  lemma BookNext(c: Crypto, boot: map<string, NodeRecord>, rate: nat, ops: seq<Op>, k: string)
    requires ops != []
    ensures var n := |ops| - 1;
            var nonces, nonces' := Run(c, boot, rate, ops[..n]).st.nonces, Run(c, boot, rate, ops).st.nonces;
            && (k in nonces' ==>
                  || (k in nonces && nonces'[k] == nonces[k])
                  || (Spends(c, boot, rate, ops, n, k) && nonces'[k] == ops[n].now))
            && (Spends(c, boot, rate, ops, n, k) ==> k in nonces' && nonces'[k] == ops[n].now)
            && (k in nonces && ops[n].now - nonces[k] <= 2 * MAX_SKEW_MS && nonces[k] <= ops[n].now
                ==> k in nonces' && nonces'[k] >= nonces[k])
  {
    var op, st := ops[|ops| - 1], Run(c, boot, rate, ops[..|ops| - 1]).st;
    if op.OpAuthorize? {
      AuthorizeSpends(c, st, rate, op.audience, op.request, op.now);
    }
  }

  lemma BookStep(c: Crypto, boot: map<string, NodeRecord>, rate: nat, ops: seq<Op>, last: int)
    requires ops != [] && last <= ops[|ops| - 1].now && ClockRuns(ops)
    requires BookExact(c, boot, rate, ops[..|ops| - 1], Run(c, boot, rate, ops[..|ops| - 1]).st.nonces, last)
    ensures BookExact(c, boot, rate, ops, Run(c, boot, rate, ops).st.nonces, ops[|ops| - 1].now)
  {
    var n := |ops| - 1;
    var before, op := ops[..n], ops[n];
    var nonces, nonces' := Run(c, boot, rate, before).st.nonces, Run(c, boot, rate, ops).st.nonces;
    forall i: nat, k | Spends(c, boot, rate, ops, i, k) && op.now - ops[i].now <= 2 * MAX_SKEW_MS
      ensures k in nonces' && nonces'[k] >= ops[i].now
    {
      BookNext(c, boot, rate, ops, k);
      if i < n {
        SpendsNext(c, boot, rate, ops, i, k);
        assert Spends(c, boot, rate, before, i, k) && before[i] == ops[i];
        var j: nat :| Spends(c, boot, rate, before, j, k) && before[j].now == nonces[k];
        assert ops[j].now <= op.now;
      }
    }
    forall k | k in nonces' ensures exists i: nat :: Spends(c, boot, rate, ops, i, k) && ops[i].now == nonces'[k] {
      BookNext(c, boot, rate, ops, k);
      if k in nonces && nonces'[k] == nonces[k] {
        var i: nat :| Spends(c, boot, rate, before, i, k) && before[i].now == nonces[k];
        SpendsNext(c, boot, rate, ops, i, k);
        assert ops[i] == before[i];
      }
    }
  }

  lemma {:induction false} BookOfRunsExact(c: Crypto, boot: map<string, NodeRecord>, rate: nat, ops: seq<Op>)
    requires ClockRuns(ops)
    ensures BookExact(c, boot, rate, ops, Run(c, boot, rate, ops).st.nonces, LastNow(ops))
    decreases |ops|
  {
    if ops != [] {
      var before := ops[..|ops| - 1];
      BookOfRunsExact(c, boot, rate, before);
      if before == [] {
        assert BookExact(c, boot, rate, before, Run(c, boot, rate, before).st.nonces, ops[0].now);
        BookStep(c, boot, rate, ops, ops[0].now);
      } else {
        BookStep(c, boot, rate, ops, LastNow(before));
      }
    }
  }

  /** The node spent this nonce within the last ten minutes. */
  ghost predicate Presented(c: Crypto, boot: map<string, NodeRecord>, rate: nat, ops: seq<Op>, q: Request, now: int) {
    exists i: nat ::
      && Spends(c, boot, rate, ops, i, NonceKey(q)) && now - ops[i].now <= 600_000
      && ops[i].request.nodeId == q.nodeId && ops[i].request.nonce == q.nonce
  }

  /** The node's grants of the last hour. */
  ghost function Recent(times: seq<int>, now: int): set<int> {
    set i: int | 0 <= i < |times| && now - times[i] <= 3_600_000
  }

  lemma PresentedExactly(c: Crypto, boot: map<string, NodeRecord>, rate: nat, ops: seq<Op>, q: Request, now: int)
    requires ClockRuns(ops) && (ops != [] ==> LastNow(ops) <= now) && ValidId(q.nodeId)
    ensures NonceKey(q) in RetainNonces(Run(c, boot, rate, ops).st.nonces, now)
            <==> Presented(c, boot, rate, ops, q, now)
  {
    var nonces, k := Run(c, boot, rate, ops).st.nonces, NonceKey(q);
    BookOfRunsExact(c, boot, rate, ops);
    if k in RetainNonces(nonces, now) {
      var i: nat :| Spends(c, boot, rate, ops, i, k) && ops[i].now == nonces[k];
      NonceKeyDetermines(ops[i].request, q);
    }
    if Presented(c, boot, rate, ops, q, now) {
      var i: nat :| Spends(c, boot, rate, ops, i, k) && now - ops[i].now <= 600_000;
      assert LastNow(ops) - ops[i].now <= 2 * MAX_SKEW_MS;
    }
  }

  lemma {:induction false} DropOldStops(q: seq<int>, now: int)
    ensures DropOld(q, now) != [] ==> now - DropOld(q, now)[0] <= HOUR_MS
  {
    if q != [] && now - q[0] > HOUR_MS {
      DropOldStops(q[1..], now);
    }
  }

  /** What is left of the queue is as long as there were grants in the last hour. */
  lemma QueueCountsRecent(queue: seq<int>, times: seq<int>, rate: nat, last: int, now: int)
    requires last <= now && QueueIsRecent(queue, times, rate, last) && Increasing(times, last)
    ensures |DropOld(queue, now)| == |Recent(times, now)|
  {
    var kept := DropOld(queue, now);
    QueueAges(queue, times, rate, last, now);
    DropOldStops(queue, now);
    var a := |times| - |kept|;
    assert kept == times[a..];
    forall i | a <= i < |times| ensures now - times[i] <= HOUR_MS {
      assert kept[0] == times[a] && times[a] <= times[i];
    }
    assert Recent(times, now) == Interval(a, |kept|);
  }

  /**
   Over every run with a clock that does not go back, the answer to any further request: it is granted
   exactly if it is well formed, the node is registered and not revoked, its time is within five minutes,
   the signature verifies under the node's key for this audience, the node has not spent this nonce in the
   last ten minutes, and it has had fewer grants than its rate in the last hour; else the first of these
   that fails is the error.
   */
  lemma AuthorizesExactly(c: Crypto, boot: map<string, NodeRecord>, rate: nat, ops: seq<Op>, audience: string,
                          q: Request, now: int)
    requires ClockRuns(ops) && (ops != [] ==> LastNow(ops) <= now)
    ensures var h := Run(c, boot, rate, ops);
            var r, nodes := Authorize(c, h.st, rate, audience, q, now).1, h.st.nodes;
            r == if !ValidId(q.nodeId) || !(8 <= |q.nonce| <= 128) then Err(Invalid)
                 else if q.nodeId !in nodes then Err(UnknownNode)
                 else if nodes[q.nodeId].revoked then Err(Revoked)
                 else if !(q.tsMs - 300_000 <= now <= q.tsMs + 300_000) then Err(Stale)
                 else if !c.verifies(nodes[q.nodeId].publicKey, audience, q) then Err(BadSignature)
                 else if Presented(c, boot, rate, ops, q, now) then Err(Replay)
                 else if |Recent(Times(h.grants, q.nodeId), now)| >= rate then Err(RateLimited)
                 else Ok(nodes[q.nodeId])
  {
    var h := Run(c, boot, rate, ops);
    if ValidId(q.nodeId) {
      PresentedExactly(c, boot, rate, ops, q, now);
    }
    PaceOfRuns(c, boot, rate, ops, q.nodeId);
    QueueCountsRecent(Queue(h.st, q.nodeId), Times(h.grants, q.nodeId), rate,
                      if ops == [] then now else LastNow(ops), now);
  }

  /** Registering, revoking and recording an account: when they succeed, what they answer, and that they
      change that one node and nothing else. */
  lemma RegistersExactly(c: Crypto, st: State, id: string, key: string, owner: string, now: int)
    ensures var (st', r) := Register(c, st, id, key, owner, now);
            && (r.Ok? <==> && ValidId(id) && (exists ch :: ch in owner && ch != ' ' && !('\t' <= ch <= '\r'))
                           && c.decodeKey(key).Some? && !IsRevoked(st, id))
            && (r.Err? ==> st' == st
                           && (r.error == Revoked <==> ValidId(id) && !Blank(owner) && c.decodeKey(key).Some?)
                           && (r.error != Revoked ==> r.error == Invalid))
            && (r.Ok? ==>
                  && st' == st.(nodes := st.nodes[id := r.value])
                  && c.decodeKey(key) == Some(r.value.publicKey) && r.value.owner == owner && !r.value.revoked
                  && r.value.createdMs == now
                  && r.value.nicks == (if id in st.nodes then st.nodes[id].nicks else []))
  {
  }

  lemma RevokesExactly(st: State, id: string, nick: string)
    ensures var (st', r) := Revoke(st, id);
            if id in st.nodes
            then r == Ok(st.nodes[id].nicks) && IsRevoked(st', id) && st' == st.(nodes := st.nodes[id := st'.nodes[id]])
                 && st'.nodes[id].(revoked := st.nodes[id].revoked) == st.nodes[id]
            else r == Err(UnknownNode) && st' == st
    ensures var (st', r) := RecordAccount(st, id, nick);
            if id in st.nodes
            then r == Ok(()) && id in st'.nodes && nick in st'.nodes[id].nicks
                 && st.nodes[id].nicks <= st'.nodes[id].nicks
                 && (forall x :: x in st'.nodes[id].nicks ==> x in st.nodes[id].nicks || x == nick)
                 && (NoDup(st.nodes[id].nicks) ==> NoDup(st'.nodes[id].nicks))
                 && st' == st.(nodes := st.nodes[id := st.nodes[id].(nicks := st'.nodes[id].nicks)])
            else r == Err(UnknownNode) && st' == st
  {
  }
}
