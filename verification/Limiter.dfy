/** The edge's token-bucket limiter, over reals (the source's f64 rounding is not modelled). */
module Limiter {
  const MAX_BUCKETS: nat := 50_000
  const IDLE_SECS: real := 300.0

  datatype Bucket = Bucket(tokens: real, at: real)

  type Buckets = map<string, Bucket>

  datatype Params = Params(burst: real, rate: real)

  /** What `forward` asks for: registration is limited harder than everything else. */
  function ParamsFor(register: bool): (p: Params) {
    if register then Params(10.0, 0.2) else Params(200.0, 50.0)
  }

  function KeyFor(ip: string, register: bool): (k: string) {
    ip + "|" + (if register then "true" else "false")
  }

  /** `Instant::duration_since` is zero for a later instant. */
  function Elapsed(now: real, earlier: real): (d: real) {
    if now > earlier then now - earlier else 0.0
  }

  function Retain(m: Buckets, now: real): (r: Buckets) {
    map k | k in m && Elapsed(now, m[k].at) < IDLE_SECS :: m[k]
  }

  /** Tokens gained in `d` seconds. */
  function Gain(p: Params, d: real): (r: real) {
    d * p.rate
  }

  /** Tokens in a bucket after the refill; a new bucket is full. */
  function Level(m: Buckets, key: string, p: Params, now: real): (tokens: real) {
    var b := if key in m then m[key] else Bucket(p.burst, now);
    var refilled := b.tokens + Gain(p, Elapsed(now, b.at));
    if refilled < p.burst then refilled else p.burst
  }

  function Spend(m: Buckets, key: string, p: Params, now: real): (r: (Buckets, bool)) {
    var tokens := Level(m, key, p, now);
    if tokens >= 1.0 then (m[key := Bucket(tokens - 1.0, now)], true) else (m[key := Bucket(tokens, now)], false)
  }

  /** Specification of `allow`: idle buckets are dropped when there are too many. */
  function Decide(m: Buckets, key: string, p: Params, now: real): (r: (Buckets, bool)) {
    Spend(if |m| > MAX_BUCKETS then Retain(m, now) else m, key, p, now)
  }

  class Limiter {
    var buckets: Buckets

    constructor ()
      ensures buckets == map[]
    {
      buckets := map[];
    }

    method Allow(key: string, burst: real, perSec: real, now: real) returns (ok: bool)
      modifies this
      ensures (buckets, ok) == Decide(old(buckets), key, Params(burst, perSec), now)
    {
      ghost var before := buckets;
      if |buckets| > MAX_BUCKETS {
        buckets := map k | k in buckets && Elapsed(now, buckets[k].at) < IDLE_SECS :: buckets[k];
        assert buckets == Retain(before, now);
      }
      ghost var kept := buckets;
      if key !in buckets {
        buckets := buckets[key := Bucket(burst, now)];
      }
      var e := buckets[key];
      var tokens := e.tokens + Elapsed(now, e.at) * perSec;
      if burst < tokens {
        tokens := burst;
      }
      assert tokens == Level(kept, key, Params(burst, perSec), now);
      ok := tokens >= 1.0;
      if ok {
        tokens := tokens - 1.0;
      }
      buckets := buckets[key := Bucket(tokens, now)];
      assert buckets == kept[key := Bucket(tokens, now)];
    }
  }

  // ----- Runs -----

  datatype Request = Request(ip: string, register: bool, now: real)
  {
    function Key(): (k: string) {
      KeyFor(ip, register)
    }
  }

  ghost predicate ClockRuns(reqs: seq<Request>) {
    forall i, j :: 0 <= i < j < |reqs| ==> reqs[i].now <= reqs[j].now
  }

  function Serve(reqs: seq<Request>): (m: Buckets) {
    if reqs == [] then map[]
    else
      var q := reqs[|reqs| - 1];
      Decide(Serve(reqs[..|reqs| - 1]), q.Key(), ParamsFor(q.register), q.now).0
  }

  function Answer(reqs: seq<Request>): (ok: bool)
    requires reqs != []
  {
    var q := reqs[|reqs| - 1];
    Decide(Serve(reqs[..|reqs| - 1]), q.Key(), ParamsFor(q.register), q.now).1
  }

  /** The same limiter without eviction. */
  function ServePlain(reqs: seq<Request>): (m: Buckets) {
    if reqs == [] then map[]
    else
      var q := reqs[|reqs| - 1];
      Spend(ServePlain(reqs[..|reqs| - 1]), q.Key(), ParamsFor(q.register), q.now).0
  }

  function AnswerPlain(reqs: seq<Request>): (ok: bool)
    requires reqs != []
  {
    var q := reqs[|reqs| - 1];
    Spend(ServePlain(reqs[..|reqs| - 1]), q.Key(), ParamsFor(q.register), q.now).1
  }

  // ----- Keys -----

  /** A bucket key determines the client and the kind of request, so a bucket is always used with the
      same parameters, even if a client address contains the separator. */
  lemma KeyDetermines(a: string, r: bool, b: string, s: bool)
    requires KeyFor(a, r) == KeyFor(b, s)
    ensures a == b && r == s
  {
    var k, l := KeyFor(a, r), KeyFor(b, s);
    assert k[|k| - 2] == (if r then 'u' else 's') && l[|l| - 2] == (if s then 'u' else 's');
    assert a == k[..|a|] && b == l[..|b|];
  }

  predicate RegisterKey(k: string) {
    |k| >= 2 && k[|k| - 2] == 'u'
  }

  lemma KeyKind(q: Request)
    ensures RegisterKey(q.Key()) == q.register
  {
    var k := q.Key();
    assert k[|k| - 2] == (if q.register then 'u' else 's');
  }

  // ----- Eviction cannot be seen -----

  /** No bucket is overdrawn, overfull or from the future. */
  ghost predicate Sane(m: Buckets, last: real) {
    forall k :: k in m ==> 0.0 <= m[k].tokens <= ParamsFor(RegisterKey(k)).burst && m[k].at <= last
  }

  /** `m` is `p` without some buckets that would be full again by `last`. */
  ghost predicate OnlyFullMissing(m: Buckets, p: Buckets, last: real) {
    && (forall k :: k in m ==> k in p && m[k] == p[k])
    && (forall k :: k in p && k !in m ==>
          p[k].tokens + Gain(ParamsFor(RegisterKey(k)), last - p[k].at) >= ParamsFor(RegisterKey(k)).burst)
  }

  lemma RetainDropsFull(m: Buckets, p: Buckets, last: real, now: real)
    requires Sane(p, last) && last <= now && OnlyFullMissing(m, p, last)
    ensures OnlyFullMissing(Retain(m, now), p, now) && OnlyFullMissing(m, p, now)
  {
  }

  /** A missing bucket counts as full, and the one it stands for is full by now. */
  lemma LevelSame(m: Buckets, p: Buckets, q: Request)
    requires Sane(p, q.now) && OnlyFullMissing(m, p, q.now)
    ensures Level(m, q.Key(), ParamsFor(q.register), q.now) == Level(p, q.Key(), ParamsFor(q.register), q.now)
    ensures 0.0 <= Level(p, q.Key(), ParamsFor(q.register), q.now) <= ParamsFor(q.register).burst
  {
    KeyKind(q);
  }

  lemma SpendSame(m: Buckets, p: Buckets, q: Request)
    requires Sane(p, q.now) && OnlyFullMissing(m, p, q.now)
    ensures Spend(m, q.Key(), ParamsFor(q.register), q.now).1 == Spend(p, q.Key(), ParamsFor(q.register), q.now).1
    ensures OnlyFullMissing(Spend(m, q.Key(), ParamsFor(q.register), q.now).0,
                            Spend(p, q.Key(), ParamsFor(q.register), q.now).0, q.now)
    ensures Sane(Spend(p, q.Key(), ParamsFor(q.register), q.now).0, q.now)
  {
    KeyKind(q);
    LevelSame(m, p, q);
  }

  ghost function Last(reqs: seq<Request>): real {
    if reqs == [] then 0.0 else reqs[|reqs| - 1].now
  }

  lemma {:induction false} ServesAgree(reqs: seq<Request>)
    requires ClockRuns(reqs)
    ensures Sane(ServePlain(reqs), Last(reqs)) && OnlyFullMissing(Serve(reqs), ServePlain(reqs), Last(reqs))
    ensures reqs != [] ==> Answer(reqs) == AnswerPlain(reqs)
    decreases |reqs|
  {
    if reqs != [] {
      var before, q := reqs[..|reqs| - 1], reqs[|reqs| - 1];
      ServesAgree(before);
      var m, p := Serve(before), ServePlain(before);
      if before != [] {
        assert Last(before) <= q.now;
        RetainDropsFull(m, p, Last(before), q.now);
      }
      SpendSame(if |m| > MAX_BUCKETS then Retain(m, q.now) else m, p, q);
    }
  }

  /** Dropping buckets that were idle for 300 seconds never changes an answer, for either parameter
      pair: over every run the limiter answers as one that keeps every bucket for ever. */
  lemma EvictionUnobservable(reqs: seq<Request>, n: nat)
    requires ClockRuns(reqs) && 0 < n <= |reqs|
    ensures Answer(reqs[..n]) == AnswerPlain(reqs[..n])
  {
    ServesAgree(reqs[..n]);
  }

  // ----- The rate bound -----

  /** Requests of one bucket that were allowed at times from `s` to `t`. */
  function AllowedBetween(reqs: seq<Request>, key: string, s: real, t: real): (n: nat) {
    if reqs == [] then 0
    else
      var q := reqs[|reqs| - 1];
      AllowedBetween(reqs[..|reqs| - 1], key, s, t)
        + (if q.Key() == key && s <= q.now <= t && Answer(reqs) then 1 else 0)
  }

  ghost predicate Seen(reqs: seq<Request>, key: string, s: real) {
    exists i :: 0 <= i < |reqs| && reqs[i].Key() == key && s <= reqs[i].now
  }

  lemma {:induction false} SeenLast(reqs: seq<Request>, key: string, s: real)
    requires reqs != [] && ClockRuns(reqs)
    ensures var q := reqs[|reqs| - 1];
            && (Seen(reqs, key, s) <==> Seen(reqs[..|reqs| - 1], key, s) || (q.Key() == key && s <= q.now))
            && (Seen(reqs[..|reqs| - 1], key, s) ==> s <= q.now)
  {
    var n := |reqs| - 1;
    var before := reqs[..n];
    if Seen(before, key, s) {
      var i :| 0 <= i < |before| && before[i].Key() == key && s <= before[i].now;
      assert reqs[i] == before[i];
    }
    if reqs[n].Key() == key && s <= reqs[n].now {
      assert 0 <= n < |reqs|;
    }
    if Seen(reqs, key, s) && !(reqs[n].Key() == key && s <= reqs[n].now) {
      var i :| 0 <= i < |reqs| && reqs[i].Key() == key && s <= reqs[i].now;
      assert before[i] == reqs[i];
    }
  }

  /** A full bucket and the refill of `d` seconds. */
  function Budgeted(register: bool, d: real): (r: real) {
    ParamsFor(register).burst + Gain(ParamsFor(register), d)
  }

  lemma GainGrows(register: bool, d: real, e: real)
    requires d <= e
    ensures Gain(ParamsFor(register), d) <= Gain(ParamsFor(register), e) && Gain(ParamsFor(register), 0.0) == 0.0
  {
  }

  /** What was allowed since `s`, plus what is left, never exceeds a full bucket plus the refill. */
  ghost predicate WithinBudget(reqs: seq<Request>, key: string, s: real, t: real) {
    var m := ServePlain(reqs);
    if Seen(reqs, key, s)
    then && key in m && s <= m[key].at <= t
         && AllowedBetween(reqs, key, s, t) as real + m[key].tokens <= Budgeted(RegisterKey(key), m[key].at - s)
    else AllowedBetween(reqs, key, s, t) == 0
  }

  /** One refill and one decision stay within the budget. */
  lemma SpendWithinBudget(m: Buckets, q: Request, seen: bool, allowed: nat, s: real)
    requires Sane(m, q.now) && s <= q.now
    requires if seen then q.Key() in m && allowed as real + m[q.Key()].tokens <= Budgeted(q.register, m[q.Key()].at - s)
             else allowed == 0
    ensures var (m', ok) := Spend(m, q.Key(), ParamsFor(q.register), q.now);
            allowed as real + (if ok then 1.0 else 0.0) + m'[q.Key()].tokens <= Budgeted(q.register, q.now - s)
  {
    LevelSame(m, m, q);
  }

  /** A request of another bucket, or from before `s`, spends nothing of the budget. */
  lemma OthersDoNotSpend(reqs: seq<Request>, key: string, s: real, t: real)
    requires reqs != [] && ClockRuns(reqs) && WithinBudget(reqs[..|reqs| - 1], key, s, t)
    requires !(reqs[|reqs| - 1].Key() == key && s <= reqs[|reqs| - 1].now)
    ensures WithinBudget(reqs, key, s, t)
  {
    SeenLast(reqs, key, s);
    var before, q := reqs[..|reqs| - 1], reqs[|reqs| - 1];
    assert AllowedBetween(reqs, key, s, t) == AllowedBetween(before, key, s, t);
    if Seen(before, key, s) {
      assert ServePlain(reqs)[key] == ServePlain(before)[key];
    }
  }

  lemma OwnSpends(reqs: seq<Request>, key: string, s: real, t: real)
    requires reqs != [] && ClockRuns(reqs) && WithinBudget(reqs[..|reqs| - 1], key, s, t)
    requires reqs[|reqs| - 1].Key() == key && s <= reqs[|reqs| - 1].now <= t
    ensures WithinBudget(reqs, key, s, t)
  {
    var before, q := reqs[..|reqs| - 1], reqs[|reqs| - 1];
    SeenLast(reqs, key, s);
    KeyKind(q);
    ServesAgree(before);
    ServesAgree(reqs);
    assert before != [] ==> Last(before) <= q.now;
    var m := ServePlain(before);
    SpendWithinBudget(m, q, Seen(before, key, s), AllowedBetween(before, key, s, t), s);
    assert ServePlain(reqs) == Spend(m, key, ParamsFor(q.register), q.now).0 && ServePlain(reqs)[key].at == q.now;
    assert AllowedBetween(reqs, key, s, t) == AllowedBetween(before, key, s, t) + (if AnswerPlain(reqs) then 1 else 0);
  }

  lemma {:induction false} Budget(reqs: seq<Request>, key: string, s: real, t: real)
    requires ClockRuns(reqs) && (forall i :: 0 <= i < |reqs| ==> reqs[i].now <= t)
    ensures WithinBudget(reqs, key, s, t)
    decreases |reqs|
  {
    if reqs != [] {
      var q := reqs[|reqs| - 1];
      Budget(reqs[..|reqs| - 1], key, s, t);
      if q.Key() == key && s <= q.now {
        OwnSpends(reqs, key, s, t);
      } else {
        OthersDoNotSpend(reqs, key, s, t);
      }
    }
  }

  /**
   Over every run with a clock that does not go back, in every interval from `s` to `t`, one bucket
   lets through at most its burst plus its rate times the length of the interval.
   */
  lemma {:induction false} RateBound(reqs: seq<Request>, key: string, s: real, t: real)
    requires ClockRuns(reqs) && s <= t
    ensures AllowedBetween(reqs, key, s, t) as real
            <= ParamsFor(RegisterKey(key)).burst + (t - s) * ParamsFor(RegisterKey(key)).rate
    decreases |reqs|
  {
    if reqs != [] && reqs[|reqs| - 1].now > t {
      RateBound(reqs[..|reqs| - 1], key, s, t);
    } else {
      Budget(reqs, key, s, t);
      ServesAgree(reqs);
      if Seen(reqs, key, s) {
        GainGrows(RegisterKey(key), ServePlain(reqs)[key].at - s, t - s);
      } else {
        GainGrows(RegisterKey(key), 0.0, t - s);
      }
    }
  }

  // ----- Every answer, from the run alone -----

  /** Some time `s` from which on the bucket has been counted exactly: what was allowed since, plus what is
      left, is at least a full bucket plus the refill. */
  ghost predicate CountedFrom(reqs: seq<Request>, key: string, s: real, b: Bucket) {
    s <= b.at && AllowedBetween(reqs, key, s, b.at) as real + b.tokens >= Budgeted(RegisterKey(key), b.at - s)
  }

  ghost predicate Counted(reqs: seq<Request>, key: string) {
    key in ServePlain(reqs) ==> exists s :: CountedFrom(reqs, key, s, ServePlain(reqs)[key])
  }

  /** Counting up to a later time counts at least as much. */
  lemma {:induction false} AllowedGrows(reqs: seq<Request>, key: string, s: real, t: real, u: real)
    requires t <= u
    ensures AllowedBetween(reqs, key, s, t) <= AllowedBetween(reqs, key, s, u)
    decreases |reqs|
  {
    if reqs != [] {
      AllowedGrows(reqs[..|reqs| - 1], key, s, t, u);
    }
  }

  lemma GainAdds(register: bool, d: real, e: real)
    ensures Gain(ParamsFor(register), d) + Gain(ParamsFor(register), e) == Gain(ParamsFor(register), d + e)
  {
  }

  /** The level that a request finds is at least what is counted from some earlier time. */
  lemma LevelCounted(reqs: seq<Request>) returns (s: real)
    requires reqs != [] && ClockRuns(reqs) && Counted(reqs[..|reqs| - 1], reqs[|reqs| - 1].Key())
    ensures var before, q := reqs[..|reqs| - 1], reqs[|reqs| - 1];
            && s <= q.now
            && AllowedBetween(before, q.Key(), s, q.now) as real
               + Level(ServePlain(before), q.Key(), ParamsFor(q.register), q.now) >= Budgeted(q.register, q.now - s)
  {
    var before, q := reqs[..|reqs| - 1], reqs[|reqs| - 1];
    var m, key := ServePlain(before), q.Key();
    KeyKind(q);
    ServesAgree(before);
    assert before != [] ==> Last(before) <= q.now;
    s := q.now;
    if key in m && Level(m, key, ParamsFor(q.register), q.now) < ParamsFor(q.register).burst {
      var b := m[key];
      s :| CountedFrom(before, key, s, b);
      AllowedGrows(before, key, s, b.at, q.now);
      GainAdds(q.register, b.at - s, q.now - b.at);
    }
  }

  lemma {:induction false} CountedOfRuns(reqs: seq<Request>, key: string)
    requires ClockRuns(reqs)
    ensures Counted(reqs, key)
    decreases |reqs|
  {
    if reqs != [] {
      var before, q := reqs[..|reqs| - 1], reqs[|reqs| - 1];
      CountedOfRuns(before, key);
      if q.Key() == key {
        var s := LevelCounted(reqs);
        SpendCounted(reqs, s);
      } else if key in ServePlain(before) {
        var b := ServePlain(before)[key];
        var s :| CountedFrom(before, key, s, b);
        assert AllowedBetween(reqs, key, s, b.at) == AllowedBetween(before, key, s, b.at);
        assert CountedFrom(reqs, key, s, ServePlain(reqs)[key]);
      }
    }
  }

  lemma SpendCounted(reqs: seq<Request>, s: real)
    requires reqs != [] && ClockRuns(reqs) && s <= reqs[|reqs| - 1].now
    requires var before, q := reqs[..|reqs| - 1], reqs[|reqs| - 1];
             AllowedBetween(before, q.Key(), s, q.now) as real
             + Level(ServePlain(before), q.Key(), ParamsFor(q.register), q.now) >= Budgeted(q.register, q.now - s)
    ensures var key := reqs[|reqs| - 1].Key();
            key in ServePlain(reqs) && CountedFrom(reqs, key, s, ServePlain(reqs)[key])
  {
    var before, q := reqs[..|reqs| - 1], reqs[|reqs| - 1];
    KeyKind(q);
    ServesAgree(reqs);
    assert AllowedBetween(reqs, q.Key(), s, q.now)
        == AllowedBetween(before, q.Key(), s, q.now) + (if AnswerPlain(reqs) then 1 else 0);
  }

  /** One more request at `now` would be within burst and rate, counted from `s`. */
  ghost predicate Fits(before: seq<Request>, q: Request, s: real) {
    AllowedBetween(before, q.Key(), s, q.now) as real + 1.0
    <= if q.register then 10.0 + (q.now - s) * 0.2 else 200.0 + (q.now - s) * 50.0
  }

  /**
   Over every run with a clock that does not go back, each request is allowed if and only if it fits: since
   no moment before would it be one more than the burst and the rate permit. So nobody is let through beyond
   that, and nobody who keeps to it is ever refused, however many buckets there are and were dropped.
   */
  lemma AllowsExactly(reqs: seq<Request>)
    requires reqs != [] && ClockRuns(reqs)
    ensures var before, q := reqs[..|reqs| - 1], reqs[|reqs| - 1];
            Answer(reqs) <==> forall s: real :: s <= q.now ==> Fits(before, q, s)
  {
    var before, q := reqs[..|reqs| - 1], reqs[|reqs| - 1];
    if Answer(reqs) {
      forall s: real | s <= q.now ensures Fits(before, q, s) {
        AllowedFits(reqs, s);
      }
    } else {
      var s := RefusedFitsNot(reqs);
    }
  }

  lemma AllowedFits(reqs: seq<Request>, s: real)
    requires reqs != [] && ClockRuns(reqs) && Answer(reqs) && s <= reqs[|reqs| - 1].now
    ensures Fits(reqs[..|reqs| - 1], reqs[|reqs| - 1], s)
  {
    var before, q := reqs[..|reqs| - 1], reqs[|reqs| - 1];
    KeyKind(q);
    RateBound(reqs, q.Key(), s, q.now);
    assert AllowedBetween(reqs, q.Key(), s, q.now) == AllowedBetween(before, q.Key(), s, q.now) + 1;
  }

  lemma RefusedFitsNot(reqs: seq<Request>) returns (s: real)
    requires reqs != [] && ClockRuns(reqs) && !Answer(reqs)
    ensures s <= reqs[|reqs| - 1].now && !Fits(reqs[..|reqs| - 1], reqs[|reqs| - 1], s)
  {
    CountedOfRuns(reqs[..|reqs| - 1], reqs[|reqs| - 1].Key());
    ServesAgree(reqs);
    s := LevelCounted(reqs);
  }

  /** How often one client asked for one kind of thing. */
  function Asked(reqs: seq<Request>, key: string): (n: nat) {
    if reqs == [] then 0 else Asked(reqs[..|reqs| - 1], key) + (if reqs[|reqs| - 1].Key() == key then 1 else 0)
  }

  lemma {:induction false} AllowedWereAsked(reqs: seq<Request>, key: string, s: real, t: real)
    ensures AllowedBetween(reqs, key, s, t) <= Asked(reqs, key)
    decreases |reqs|
  {
    if reqs != [] {
      AllowedWereAsked(reqs[..|reqs| - 1], key, s, t);
    }
  }

  /** In particular the first requests of a client, as many as the burst, are all allowed. */
  lemma FirstBurstAllowed(reqs: seq<Request>)
    requires reqs != [] && ClockRuns(reqs)
    requires var q := reqs[|reqs| - 1];
             Asked(reqs[..|reqs| - 1], q.Key()) < if q.register then 10 else 200
    ensures Answer(reqs)
  {
    var before, q := reqs[..|reqs| - 1], reqs[|reqs| - 1];
    AllowsExactly(reqs);
    forall s: real | s <= q.now ensures Fits(before, q, s) {
      AllowedWereAsked(before, q.Key(), s, q.now);
    }
  }
}
