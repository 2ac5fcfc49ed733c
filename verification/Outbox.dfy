/**
 Delivery of lifecycle events through an outbox: one worker, any answers, any failed bookkeeping
 writes, any number of crashes and restarts.
 */
module Outbox {
  import opened Common

  const MAX_DELAY_MS: nat := 300_000

  /** `base * 2^min(attempts, 16)`, at most five minutes. */
  function Delay(baseMs: nat, attempts: nat): (ms: nat) {
    var d := baseMs * Pow2(if attempts < 16 then attempts else 16);
    if d < MAX_DELAY_MS then d else MAX_DELAY_MS
  }

  function Pow2(n: nat): (r: nat)
    ensures r >= 1
  {
    if n == 0 then 1 else 2 * Pow2(n - 1)
  }

  lemma {:induction false} Pow2Grows(m: nat, n: nat)
    requires m <= n
    ensures Pow2(m) <= Pow2(n)
    decreases n
  {
    if m < n {
      Pow2Grows(m, n - 1);
    }
  }

  lemma ProductGrows(k: nat, x: nat, y: nat)
    requires x <= y
    ensures k * x <= k * y
  {
    assert k * y == k * x + k * (y - x);
  }

  /** Waiting never gets shorter with more attempts and never exceeds five minutes. */
  lemma DelayGrows(baseMs: nat, a: nat, b: nat)
    requires a <= b
    ensures Delay(baseMs, a) <= Delay(baseMs, b) <= MAX_DELAY_MS
  {
    var m, n := if a < 16 then a else 16, if b < 16 then b else 16;
    Pow2Grows(m, n);
    ProductGrows(baseMs, Pow2(m), Pow2(n));
  }

  /** The delay begins at the base and doubles with each of the first sixteen attempts, up to five minutes;
      from then on it stays. */
  lemma DelayDoubles(baseMs: nat, a: nat)
    ensures Delay(baseMs, 0) == if baseMs < 300_000 then baseMs else 300_000
    ensures a < 16 ==> Delay(baseMs, a + 1) == if 2 * Delay(baseMs, a) < 300_000 then 2 * Delay(baseMs, a) else 300_000
    ensures a >= 16 ==> Delay(baseMs, a + 1) == Delay(baseMs, a)
  {
    assert baseMs * Pow2(0) == baseMs;
    if a < 16 {
      ProductDoubles(baseMs, Pow2(a), Pow2(a + 1));
    }
  }

  lemma ProductDoubles(k: nat, x: nat, y: nat)
    requires y == 2 * x
    ensures k * y == 2 * (k * x)
  {
  }

  // ----- The in-memory queue -----

  datatype Queued = Queued(seqNo: int, event: string, attempts: nat, nextMs: int)

  function Without(queue: seq<Queued>, seqNo: int): (r: seq<Queued>)
    ensures forall q :: q in r <==> q in queue && q.seqNo != seqNo
  {
    if queue == [] then []
    else
      var n := |queue| - 1;
      assert queue == queue[..n] + [queue[n]];
      if queue[n].seqNo == seqNo then Without(queue[..n], seqNo) else Without(queue[..n], seqNo) + [queue[n]]
  }

  function Postponed(queue: seq<Queued>, seqNo: int, attempts: nat, nextMs: int): (r: seq<Queued>) {
    seq(|queue|, i requires 0 <= i < |queue| =>
      if queue[i].seqNo == seqNo then queue[i].(attempts := attempts, nextMs := nextMs) else queue[i])
  }

  /** Numbers are handed out upwards and the queue keeps them in order. */
  ghost predicate InOrder(queue: seq<Queued>, last: int) {
    && (forall i, j :: 0 <= i < j < |queue| ==> queue[i].seqNo < queue[j].seqNo)
    && (forall i :: 0 <= i < |queue| ==> queue[i].seqNo <= last)
  }

  lemma AppendInOrder(queue: seq<Queued>, q: Queued, last: int)
    requires InOrder(queue, last) && q.seqNo <= last && forall i :: 0 <= i < |queue| ==> queue[i].seqNo < q.seqNo
    ensures InOrder(queue + [q], last)
  {
  }

  lemma {:induction false} WithoutInOrder(queue: seq<Queued>, seqNo: int, last: int)
    requires InOrder(queue, last)
    ensures InOrder(Without(queue, seqNo), last)
  {
    if queue != [] {
      var n := |queue| - 1;
      var rest := Without(queue[..n], seqNo);
      WithoutInOrder(queue[..n], seqNo, last);
      if queue[n].seqNo != seqNo {
        forall i | 0 <= i < |rest| ensures rest[i].seqNo < queue[n].seqNo {
          assert rest[i] in queue[..n];
          var j :| 0 <= j < n && queue[j] == rest[i];
        }
        AppendInOrder(rest, queue[n], last);
      }
    }
  }

  class MemoryOutbox {
    var last: int
    var queue: seq<Queued>

    ghost predicate Valid()
      reads this
    {
      InOrder(queue, last)
    }

    constructor ()
      ensures Valid() && queue == [] && last == 0
    {
      last, queue := 0, [];
    }

    method Enqueue(event: string)
      requires Valid()
      modifies this
      ensures Valid() && last == old(last) + 1 && queue == old(queue) + [Queued(last, event, 0, 0)]
    {
      last := last + 1;
      queue := queue + [Queued(last, event, 0, 0)];
    }

    /** The oldest pending delivery: the one with the least number. */
    method Head() returns (q: Option<Queued>)
      requires Valid()
      ensures q.None? <==> queue == []
      ensures q.Some? ==> q.value in queue && forall x :: x in queue ==> q.value.seqNo <= x.seqNo
    {
      if queue == [] { return None; }
      return Some(queue[0]);
    }

    method Ack(seqNo: int)
      requires Valid()
      modifies this`queue
      ensures Valid() && queue == Without(old(queue), seqNo)
    {
      var kept: seq<Queued> := [];
      for i := 0 to |queue|
        invariant kept == Without(queue[..i], seqNo)
        invariant queue == old(queue)
      {
        assert queue[..i + 1][..i] == queue[..i];
        if queue[i].seqNo != seqNo {
          kept := kept + [queue[i]];
        }
      }
      assert queue[..|queue|] == queue;
      WithoutInOrder(queue, seqNo, last);
      queue := kept;
    }

    method Retry(seqNo: int, attempts: nat, nextMs: int)
      requires Valid()
      modifies this`queue
      ensures Valid() && queue == Postponed(old(queue), seqNo, attempts, nextMs)
      ensures |queue| == |old(queue)|
      ensures forall i :: 0 <= i < |queue| ==>
                queue[i] == if old(queue)[i].seqNo != seqNo then old(queue)[i]
                            else Queued(seqNo, old(queue)[i].event, attempts, nextMs)
    {
      for i := 0 to |queue|
        invariant |queue| == |old(queue)|
        invariant forall j :: 0 <= j < i ==> queue[j] == Postponed(old(queue), seqNo, attempts, nextMs)[j]
        invariant forall j :: i <= j < |queue| ==> queue[j] == old(queue)[j]
      {
        if queue[i].seqNo == seqNo {
          queue := queue[i := queue[i].(attempts := attempts, nextMs := nextMs)];
        }
      }
      assert queue == Postponed(old(queue), seqNo, attempts, nextMs);
    }
  }

  // ----- The durable queue and its worker -----

  datatype Row = Row(event: string, attempts: nat, nextMs: int, dead: bool)

  type Status = Option<int>   // None: no answer

  datatype Worker = Idle | Holding(seqNo: nat, attempts: nat) | Replied(seqNo: nat, attempts: nat, status: Status)

  datatype Post = Post(seqNo: nat, status: Status)

  /** `buffer` is enqueued but not yet written; row number n is the n-th event of `flushed`. */
  datatype State = State(
    buffer: seq<string>,
    flushed: seq<string>,
    rows: map<nat, Row>,
    delivered: set<nat>,
    worker: Worker,
    posts: seq<Post>)

  const Fresh := State([], [], map[], {}, Idle, [])

  datatype Action =
    | Enqueue(event: string)
    | Write                                  // the writer commits the oldest buffered event
    | Crash                                  // the process dies and restarts: buffer and worker are lost
    | Take(seqNo: nat, nowMs: int)           // the worker reads the head row, due now
    | Answer(status: Status)                 // the messenger answers the post, or does not
    | Settle(stored: bool, nowMs: int, baseMs: nat)   // the outcome is written, or that write fails

  predicate Accepts(s: Status) {
    s == Some(200)
  }

  predicate RefusesForGood(s: Status) {
    s.Some? && 400 <= s.value < 500 && s.value != 429
  }

  predicate IsPending(st: State, n: nat) {
    n in st.rows && !st.rows[n].dead
  }

  /** The head of the queue: the pending row with the least number. */
  predicate IsHead(st: State, n: nat) {
    IsPending(st, n) && forall m :: m in st.rows && !st.rows[m].dead ==> n <= m
  }

  predicate Enabled(st: State, a: Action) {
    match a
    case Enqueue(_) => true
    case Write => st.buffer != []
    case Crash => true
    case Take(n, now) => st.worker.Idle? && IsHead(st, n) && st.rows[n].nextMs <= now
    case Answer(_) => st.worker.Holding?
    case Settle(_, _, _) => st.worker.Replied?
  }

  function Act(st: State, a: Action): (r: State)
    requires Enabled(st, a)
  {
    match a
    case Enqueue(e) => st.(buffer := st.buffer + [e])
    case Write =>
      st.(buffer := st.buffer[1..], flushed := st.flushed + [st.buffer[0]],
          rows := st.rows[|st.flushed| + 1 := Row(st.buffer[0], 0, 0, false)])
    case Crash => st.(buffer := [], worker := Idle)
    case Take(n, _) => st.(worker := Holding(n, st.rows[n].attempts))
    case Answer(s) =>
      st.(worker := Replied(st.worker.seqNo, st.worker.attempts, s), posts := st.posts + [Post(st.worker.seqNo, s)])
    case Settle(stored, now, base) => (if stored then Outcome(st, now, base) else st).(worker := Idle)
  }

  function Outcome(st: State, now: int, base: nat): (r: State)
    requires st.worker.Replied?
  {
    var n, s := st.worker.seqNo, st.worker.status;
    if Accepts(s) then
      st.(rows := st.rows - {n}, delivered := if n in st.rows then st.delivered + {n} else st.delivered)
    else if n !in st.rows then st
    else if RefusesForGood(s) then st.(rows := st.rows[n := st.rows[n].(dead := true)])
    else
      var row := st.rows[n].(attempts := st.worker.attempts + 1, nextMs := now + Delay(base, st.worker.attempts));
      st.(rows := st.rows[n := row])
  }

  /** Actions that are not enabled do nothing. */
  function Perform(acts: seq<Action>): (st: State) {
    if acts == [] then Fresh
    else
      var before := Perform(acts[..|acts| - 1]);
      if Enabled(before, acts[|acts| - 1]) then Act(before, acts[|acts| - 1]) else before
  }

  // ----- The invariant -----

  /** Every flushed event is in exactly one place, pending or dead as a row with its own event, or
      delivered; and it left the line only for a cause. */
  ghost predicate Conserved(st: State) {
    && (forall n :: n in st.rows || n in st.delivered <==> 1 <= n <= |st.flushed|)
    && st.rows.Keys !! st.delivered
    && (forall n :: n in st.rows && 1 <= n <= |st.flushed| ==> st.rows[n].event == st.flushed[n - 1])
    && (forall n :: n in st.delivered ==> Post(n, Some(200)) in st.posts)
    && (forall n :: n in st.rows && st.rows[n].dead
          ==> exists p :: p in st.posts && p.seqNo == n && RefusesForGood(p.status))
  }

  /** The worker's row is the head of the queue, and nothing later was ever posted. */
  ghost predicate Ordered(st: State) {
    && (st.worker.Holding? || st.worker.Replied? ==> IsHead(st, st.worker.seqNo))
    && (st.worker.Replied? ==> Post(st.worker.seqNo, st.worker.status) in st.posts)
    && (forall p, n :: p in st.posts && n in st.rows && !st.rows[n].dead ==> p.seqNo <= n)
    && (forall p :: p in st.posts ==> p.seqNo <= |st.flushed|)
    && (forall i, j :: 0 <= i < j < |st.posts| ==> st.posts[i].seqNo <= st.posts[j].seqNo)
  }

  lemma WriteKeeps(st: State)
    requires Conserved(st) && Ordered(st) && st.buffer != []
    ensures Conserved(Act(st, Write)) && Ordered(Act(st, Write))
  {
    WriteConserves(st);
    WriteKeepsOrder(st);
  }

  lemma WriteConserves(st: State)
    requires Conserved(st) && st.buffer != []
    ensures Conserved(Act(st, Write))
  {
    var st' := Act(st, Write);
    forall n | n in st'.rows && st'.rows[n].dead
      ensures exists p :: p in st'.posts && p.seqNo == n && RefusesForGood(p.status)
    {
      assert n in st.rows && st.rows[n].dead;
    }
  }

  lemma WriteKeepsOrder(st: State)
    requires Conserved(st) && Ordered(st) && st.buffer != []
    ensures Ordered(Act(st, Write))
  {
  }

  lemma AnswerKeeps(st: State, s: Status)
    requires Conserved(st) && Ordered(st) && st.worker.Holding?
    ensures Conserved(Act(st, Answer(s))) && Ordered(Act(st, Answer(s)))
  {
    var st' := Act(st, Answer(s));
    assert st'.posts[|st.posts|] == Post(st.worker.seqNo, s);
    assert forall p :: p in st.posts ==> p in st'.posts;
  }

  lemma SettleConserves(st: State, stored: bool, now: int, base: nat)
    requires Conserved(st) && Ordered(st) && st.worker.Replied?
    ensures Conserved(Act(st, Settle(stored, now, base)))
  {
    var st' := Act(st, Settle(stored, now, base));
    var n := st.worker.seqNo;
    assert n in st.rows && st'.posts == st.posts && st'.flushed == st.flushed;
    forall k | k in st'.rows && st'.rows[k].dead
      ensures exists p :: p in st'.posts && p.seqNo == k && RefusesForGood(p.status)
    {
      if k == n {
        assert Post(n, st.worker.status) in st.posts;
      } else {
        assert k in st.rows && st.rows[k].dead;
      }
    }
  }

  lemma SettleKeepsOrder(st: State, stored: bool, now: int, base: nat)
    requires Ordered(st) && st.worker.Replied?
    ensures Ordered(Act(st, Settle(stored, now, base)))
  {
  }

  lemma ActKeeps(st: State, a: Action)
    requires Conserved(st) && Ordered(st) && Enabled(st, a)
    ensures Conserved(Act(st, a)) && Ordered(Act(st, a))
  {
    match a
    case Write => WriteKeeps(st);
    case Answer(s) => AnswerKeeps(st, s);
    case Settle(stored, now, base) =>
      SettleConserves(st, stored, now, base);
      SettleKeepsOrder(st, stored, now, base);
    case _ =>
  }

  /**
   Whatever the messenger answers, whatever bookkeeping fails and however often the process dies:
   every flushed event is in exactly one of pending, delivered and dead; it was accepted if delivered
   and refused for good if dead; and posts never go back in sequence, so accepted posts do not either.
   */
  lemma {:induction false} DeliveryIsSafe(acts: seq<Action>)
    ensures Conserved(Perform(acts)) && Ordered(Perform(acts))
    decreases |acts|
  {
    if acts != [] {
      DeliveryIsSafe(acts[..|acts| - 1]);
      var before := Perform(acts[..|acts| - 1]);
      if Enabled(before, acts[|acts| - 1]) {
        ActKeeps(before, acts[|acts| - 1]);
      }
    }
  }

  /** When an event is posted, every earlier one has been delivered or is dead: nothing is overtaken. */
  lemma NothingIsOvertaken(acts: seq<Action>, n: nat)
    requires Perform(acts).worker.Holding? && 1 <= n < Perform(acts).worker.seqNo
    ensures n in Perform(acts).delivered || (n in Perform(acts).rows && Perform(acts).rows[n].dead)
  {
    DeliveryIsSafe(acts);
    var st := Perform(acts);
    assert st.worker.seqNo in st.rows;
  }

  /** What has been flushed is never lost or renumbered: later states extend the list of events. */
  lemma {:induction false} FlushedOnlyGrows(acts: seq<Action>, i: nat)
    requires i <= |acts|
    ensures Perform(acts[..i]).flushed <= Perform(acts).flushed
    ensures Perform(acts[..i]).delivered <= Perform(acts).delivered
    decreases |acts|
  {
    if i == |acts| {
      assert acts[..i] == acts;
    } else {
      assert acts[..|acts| - 1][..i] == acts[..i];
      FlushedOnlyGrows(acts[..|acts| - 1], i);
    }
  }

  // ----- What becomes of a post -----

  /**
   In every reachable state, when the outcome of a post is written: accepted, the event is delivered and
   its row gone; refused for good, it is dead; after any other answer or none it is still pending with the
   same event, one more attempt, and due after the delay of the attempts before. No other row moves. When
   the write fails, nothing changes and the event is pending still.
   */
  lemma SettlesExactly(acts: seq<Action>, stored: bool, now: int, base: nat)
    requires Perform(acts).worker.Replied?
    ensures var st := Perform(acts);
            var n, s, st' := st.worker.seqNo, st.worker.status, Act(st, Settle(stored, now, base));
            && n in st.rows && !st.rows[n].dead && st'.worker == Idle
            && (st'.buffer, st'.flushed, st'.posts) == (st.buffer, st.flushed, st.posts)
            && (!stored ==> st'.rows == st.rows && st'.delivered == st.delivered)
            && (stored && s == Some(200) ==> st'.rows == st.rows - {n} && st'.delivered == st.delivered + {n})
            && (stored && s != Some(200) ==>
                  && st'.delivered == st.delivered && n in st'.rows && st'.rows == st.rows[n := st'.rows[n]]
                  && st'.rows[n].event == st.rows[n].event
                  && (st'.rows[n].dead <==> s.Some? && 400 <= s.value < 500 && s.value != 429)
                  && (!st'.rows[n].dead ==>
                        && st'.rows[n].attempts == st.worker.attempts + 1
                        && st'.rows[n].nextMs == now + Delay(base, st.worker.attempts)))
  {
    DeliveryIsSafe(acts);
  }

  /** The oldest buffered event becomes the row of the next number, untried, due at once and pending; and a
      crash loses what is buffered and what the worker holds, and no row. */
  lemma FlushesExactly(acts: seq<Action>)
    ensures var st := Perform(acts);
            && (st.buffer != [] ==>
                  var st', n := Act(st, Write), |st.flushed| + 1;
                  && n !in st.rows && n in st'.rows && st'.rows == st.rows[n := st'.rows[n]]
                  && st'.rows[n] == Row(event := st.buffer[0], attempts := 0, nextMs := 0, dead := false)
                  && st'.flushed == st.flushed + [st.buffer[0]] && [st.buffer[0]] + st'.buffer == st.buffer
                  && (st'.delivered, st'.worker, st'.posts) == (st.delivered, st.worker, st.posts))
            && var st' := Act(st, Crash);
            && st'.buffer == [] && st'.worker == Idle
            && (st'.flushed, st'.rows, st'.delivered, st'.posts) == (st.flushed, st.rows, st.delivered, st.posts)
  {
    DeliveryIsSafe(acts);
  }

  /** The worker takes the oldest pending event, not before it is due, with the attempts on file; and it posts
      that event. */
  lemma TakesExactly(acts: seq<Action>, n: nat, now: int, s: Status)
    ensures var st := Perform(acts);
            && (Enabled(st, Take(n, now)) <==>
                  && st.worker == Idle && n in st.rows && !st.rows[n].dead && st.rows[n].nextMs <= now
                  && forall m :: m in st.rows && m < n ==> st.rows[m].dead)
            && (Enabled(st, Take(n, now)) ==>
                  Act(st, Take(n, now)) == st.(worker := Holding(n, st.rows[n].attempts)))
            && (st.worker.Holding? ==>
                  Act(st, Answer(s)).posts == st.posts + [Post(st.worker.seqNo, s)]
                  && Act(st, Answer(s)).worker == Replied(st.worker.seqNo, st.worker.attempts, s))
  {
  }

  /** What was handed to the outbox, in order. */
  function Enqueued(acts: seq<Action>): (events: seq<string>) {
    if acts == [] then []
    else
      var last := acts[|acts| - 1];
      Enqueued(acts[..|acts| - 1]) + (if last.Enqueue? then [last.event] else [])
  }

  /** As long as the process lives, what was enqueued is flushed or waits to be, all of it and in order. */
  lemma {:induction false} NothingIsDropped(acts: seq<Action>)
    requires forall i :: 0 <= i < |acts| ==> !acts[i].Crash?
    ensures Perform(acts).flushed + Perform(acts).buffer == Enqueued(acts)
    decreases |acts|
  {
    if acts != [] {
      NothingIsDropped(acts[..|acts| - 1]);
      var st := Perform(acts[..|acts| - 1]);
      if acts[|acts| - 1].Write? && st.buffer != [] {
        assert st.buffer == [st.buffer[0]] + st.buffer[1..];
      }
    }
  }
}
