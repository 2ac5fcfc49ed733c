/** The bytes a message id is hashed from, and why a keyed send can be read back from them. */
module MessageIds {
  import opened Common
  import opened MailApi

  function LittleEndian(n: nat, width: nat): (t: Text)
    ensures |t| == width
  {
    if width == 0 then [] else [n % 256] + LittleEndian(n / 256, width - 1)
  }

  function OrEmpty(t: Option<Text>): (r: Text) {
    if t.Some? then t.value else []
  }

  function ToBytes(to: Address): (t: Text) {
    match to
    case Direct(p) => Ascii("direct:") + p
    case Session(p, s) => Ascii("session:") + p + [0] + s
    case Room(r) => Ascii("room:") + r
  }

  function RefBytes(m: MessageRef): (t: Text) {
    m.kind + [0] + m.locator + [0] + OrEmpty(m.digest) + [0]
  }

  function RefsBytes(refs: seq<MessageRef>): (t: Text) {
    if refs == [] then [] else RefsBytes(refs[..|refs| - 1]) + RefBytes(refs[|refs| - 1])
  }

  /** The hash input of `derive_message_id`; `tail` is the idempotency key, or 16 random bytes. */
  function Preimage(sender: Address, q: SendRequest, now: nat, tail: Text): (t: Text) {
    Display(sender) + [0] + ToBytes(q.to) + [0] + q.subject + [0] + q.body + [0] + OrEmpty(q.replyTo) + [0]
    + OrEmpty(q.correlation) + [0] + RefsBytes(q.refs) + LittleEndian(now, 8) + [0] + tail
  }

  function FixedBytes(sender: Address, q: SendRequest): (t: Text) {
    Display(sender) + [0] + ToBytes(q.to) + [0] + q.subject + [0] + q.body + [0] + OrEmpty(q.replyTo) + [0]
    + OrEmpty(q.correlation) + [0]
  }

  /** The updates of the hasher, in the source's order. */
  method HashInput(sender: Address, q: SendRequest, now: nat, nonce: Text) returns (t: Text)
    ensures t == Preimage(sender, q, now, if q.idempotencyKey.Some? then q.idempotencyKey.value else nonce)
  {
    t := Display(sender) + [0];
    match q.to {
      case Direct(p) => t := t + (Ascii("direct:") + p);
      case Session(p, s) => t := t + (Ascii("session:") + p + [0] + s);
      case Room(r) => t := t + (Ascii("room:") + r);
    }
    t := t + [0] + q.subject + [0] + q.body + [0];
    t := if q.replyTo.Some? then t + q.replyTo.value else t + [];
    t := t + [0];
    t := if q.correlation.Some? then t + q.correlation.value else t + [];
    t := t + [0];
    assert t == FixedBytes(sender, q);
    t := HashRefs(t, q.refs);
    t := t + LittleEndian(now, 8) + [0];
    t := t + if q.idempotencyKey.Some? then q.idempotencyKey.value else nonce;
  }

  method HashRefs(sofar: Text, refs: seq<MessageRef>) returns (t: Text)
    ensures t == sofar + RefsBytes(refs)
  {
    t := sofar;
    for i := 0 to |refs|
      invariant t == sofar + RefsBytes(refs[..i])
    {
      var m := refs[i];
      ghost var before := t;
      t := t + m.kind + [0] + m.locator + [0];
      if m.digest.Some? {
        t := t + m.digest.value;
      }
      t := t + [0];
      assert t == before + RefBytes(m);
      assert refs[..i + 1][..i] == refs[..i];
    }
    assert refs[..|refs|] == refs;
  }

  // ----- NUL-terminated segments -----

  ghost predicate NulFree(t: Text) {
    forall b :: b in t ==> b != 0
  }

  function Terminated(segs: seq<Text>): (t: Text) {
    if segs == [] then [] else segs[0] + [0] + Terminated(segs[1..])
  }

  /** The first NUL ends the first segment. */
  lemma SplitFirst(a: Text, x: Text, b: Text, y: Text)
    requires NulFree(a) && NulFree(b) && a + [0] + x == b + [0] + y
    ensures a == b && x == y
  {
    var s, t := a + [0] + x, b + [0] + y;
    assert forall i :: 0 <= i < |a| ==> s[i] == a[i] && a[i] in a;
    assert forall i :: 0 <= i < |b| ==> t[i] == b[i] && b[i] in b;
    assert s[|a|] == 0 && t[|b|] == 0;
    assert a == s[..|a|] && b == t[..|b|];
    assert x == s[|a| + 1..] && y == t[|b| + 1..];
  }

  lemma LastNul(x: Text, a: Text)
    requires NulFree(a)
    ensures (x + [0] + a)[|x|] == 0
    ensures forall i :: |x| < i < |x + [0] + a| ==> (x + [0] + a)[i] != 0
  {
    forall i | |x| < i < |x + [0] + a| ensures (x + [0] + a)[i] != 0 {
      assert a[i - |x| - 1] in a;
    }
  }

  /** The last NUL starts the last segment. */
  lemma SplitLast(x: Text, a: Text, y: Text, b: Text)
    requires NulFree(a) && NulFree(b) && x + [0] + a == y + [0] + b
    ensures a == b && x == y
  {
    var s := x + [0] + a;
    LastNul(x, a);
    LastNul(y, b);
    assert |x| == |y|;
    assert x == s[..|x|] && y == s[..|y|];
    assert a == s[|x| + 1..] && b == s[|y| + 1..];
  }

  lemma {:induction false} TerminatedInjective(p: seq<Text>, q: seq<Text>)
    requires (forall t :: t in p ==> NulFree(t)) && (forall t :: t in q ==> NulFree(t))
    requires Terminated(p) == Terminated(q)
    ensures p == q
    decreases |p|
  {
    if p == [] || q == [] {
      assert p == q;
    } else {
      SplitFirst(p[0], Terminated(p[1..]), q[0], Terminated(q[1..]));
      TerminatedInjective(p[1..], q[1..]);
      assert p == [p[0]] + p[1..] && q == [q[0]] + q[1..];
    }
  }

  lemma {:induction false} TerminatedConcat(p: seq<Text>, q: seq<Text>)
    ensures Terminated(p + q) == Terminated(p) + Terminated(q)
    decreases |p|
  {
    if p == [] {
      assert p + q == q;
    } else {
      assert (p + q)[1..] == p[1..] + q;
      TerminatedConcat(p[1..], q);
    }
  }

  // ----- The preimage as segments -----

  function ToSegs(to: Address): (r: seq<Text>) {
    match to
    case Direct(p) => [Ascii("direct:") + p]
    case Session(p, s) => [Ascii("session:") + p, s]
    case Room(r) => [Ascii("room:") + r]
  }

  function RefSegs(m: MessageRef): (r: seq<Text>) {
    [m.kind, m.locator, OrEmpty(m.digest)]
  }

  function RefsSegs(refs: seq<MessageRef>): (r: seq<Text>)
    ensures |r| == 3 * |refs|
  {
    if refs == [] then [] else RefsSegs(refs[..|refs| - 1]) + RefSegs(refs[|refs| - 1])
  }

  function MidSegs(q: SendRequest): (r: seq<Text>) {
    [q.subject, q.body, OrEmpty(q.replyTo), OrEmpty(q.correlation)]
  }

  function Segs(sender: Address, q: SendRequest): (r: seq<Text>) {
    [Display(sender)] + ToSegs(q.to) + MidSegs(q) + RefsSegs(q.refs)
  }

  lemma Terminated1(a: Text)
    ensures Terminated([a]) == a + [0]
  {
    assert [a][1..] == [];
  }

  lemma ToSegsBytes(to: Address)
    ensures Terminated(ToSegs(to)) == ToBytes(to) + [0]
  {
    match to
    case Direct(p) => Terminated1(ToSegs(to)[0]);
    case Session(p, s) =>
      Terminated1(s);
      assert ToSegs(to)[1..] == [s];
    case Room(r) => Terminated1(ToSegs(to)[0]);
  }

  lemma MidSegsBytes(a: Text, b: Text, c: Text, d: Text)
    ensures Terminated([a, b, c, d]) == a + [0] + b + [0] + c + [0] + d + [0]
  {
    Terminated1(d);
    assert [a, b, c, d][1..] == [b, c, d] && [b, c, d][1..] == [c, d] && [c, d][1..] == [d];
    assert Terminated([c, d]) == c + [0] + (d + [0]);
    assert Terminated([b, c, d]) == b + [0] + (c + [0] + (d + [0]));
  }

  lemma {:induction false} RefsSegsBytes(refs: seq<MessageRef>)
    ensures Terminated(RefsSegs(refs)) == RefsBytes(refs)
    decreases |refs|
  {
    if refs != [] {
      var m := refs[|refs| - 1];
      var s := RefSegs(m);
      RefsSegsBytes(refs[..|refs| - 1]);
      TerminatedConcat(RefsSegs(refs[..|refs| - 1]), s);
      Terminated1(s[2]);
      assert s[1..] == [s[1], s[2]] && s[1..][1..] == [s[2]];
      assert Terminated(s) == RefBytes(m);
    }
  }

  lemma SegsBytes(sender: Address, q: SendRequest)
    ensures Terminated(Segs(sender, q)) == FixedBytes(sender, q) + RefsBytes(q.refs)
  {
    var d, t, m, r := [Display(sender)], ToSegs(q.to), MidSegs(q), RefsSegs(q.refs);
    TerminatedConcat(d + t + m, r);
    TerminatedConcat(d + t, m);
    TerminatedConcat(d, t);
    Terminated1(Display(sender));
    ToSegsBytes(q.to);
    MidSegsBytes(m[0], m[1], m[2], m[3]);
    RefsSegsBytes(q.refs);
    var left := Display(sender) + [0] + ToBytes(q.to) + [0];
    var mid := q.subject + [0] + q.body + [0] + OrEmpty(q.replyTo) + [0] + OrEmpty(q.correlation) + [0];
    assert Terminated(Segs(sender, q)) == left + mid + RefsBytes(q.refs);
    FixedBytesShape(sender, q, left, mid);
  }

  lemma FixedBytesShape(sender: Address, q: SendRequest, left: Text, mid: Text)
    requires left == Display(sender) + [0] + ToBytes(q.to) + [0]
    requires mid == q.subject + [0] + q.body + [0] + OrEmpty(q.replyTo) + [0] + OrEmpty(q.correlation) + [0]
    ensures left + mid == FixedBytes(sender, q)
  {
    assert left + mid
           == left + q.subject + [0] + q.body + [0] + OrEmpty(q.replyTo) + [0] + OrEmpty(q.correlation) + [0];
  }

  lemma PreimageShape(sender: Address, q: SendRequest, now: nat, tail: Text)
    ensures Preimage(sender, q, now, tail) == Terminated(Segs(sender, q)) + LittleEndian(now, 8) + [0] + tail
  {
    SegsBytes(sender, q);
  }

  /** The tail is the end of the hash input. */
  ghost predicate EndsIn(t: Text, tail: Text) {
    |tail| <= |t| && t[|t| - |tail|..] == tail
  }

  lemma PreimageEndsInTail(sender: Address, q: SendRequest, now: nat, tail: Text)
    ensures EndsIn(Preimage(sender, q, now, tail), tail)
  {
    var front := FixedBytes(sender, q) + RefsBytes(q.refs) + LittleEndian(now, 8) + [0];
    assert Preimage(sender, q, now, tail) == front + tail;
  }

  // ----- What validation gives -----

  lemma SelectorNulFree(field: string, v: Text)
    requires ValidateSelector(field, v).Ok?
    ensures v != [] && NulFree(v)
  {
    forall b | b in v ensures b != 0 { assert SelectorByte(b); }
  }

  lemma OpaqueNulFree(field: string, v: Text, prefix: Text, minHex: nat, maxHex: nat)
    requires ValidateOpaqueId(field, v, prefix, minHex, maxHex).Ok? && NulFree(prefix)
    ensures NulFree(v) && |v| >= |prefix|
  {
    assert v == prefix + v[|prefix|..];
    forall b | b in v ensures b != 0 {
      assert b in prefix || (b in v[|prefix|..] && Hex(b));
    }
  }

  lemma NoControlNulFree(v: Text)
    requires !HasControl(v) || !HasBodyControl(v)
    ensures NulFree(v)
  {
    forall b | b in v ensures b != 0 {
      var i :| 0 <= i < |v| && v[i] == b;
      assert b == 0 ==> ControlAt(v, i);
    }
  }

  lemma AddressNulFree(a: Address)
    requires ValidateAddress(a).Ok?
    ensures NulFree(Display(a)) && (forall t :: t in ToSegs(a) ==> NulFree(t))
  {
    assert NulFree(SESSION_ID_PREFIX) by { assert SESSION_ID_PREFIX == ['s' as int, '-' as int]; }
    match a
    case Direct(p) => SelectorNulFree("participant id", p);
    case Session(p, s) =>
      SelectorNulFree("participant id", p);
      OpaqueNulFree("session id", s, SESSION_ID_PREFIX, SESSION_ID_HEX_MIN_CHARS, SESSION_ID_HEX_MAX_CHARS);
    case Room(r) => SelectorNulFree("room id", r);
  }

  lemma RefNulFree(m: MessageRef)
    requires ValidateRef(m).Ok?
    ensures forall t :: t in RefSegs(m) ==> NulFree(t)
    ensures m.digest.Some? ==> m.digest.value != []
  {
    SelectorNulFree("ref kind", m.kind);
    NoControlNulFree(m.locator);
    if m.digest.Some? {
      forall b | b in m.digest.value ensures b != 0 { assert Hex(b); }
    }
  }

  lemma {:induction false} RefsNulFree(refs: seq<MessageRef>)
    requires forall m :: m in refs ==> ValidateRef(m).Ok?
    ensures forall t :: t in RefsSegs(refs) ==> NulFree(t)
    decreases |refs|
  {
    if refs != [] {
      RefsNulFree(refs[..|refs| - 1]);
      RefNulFree(refs[|refs| - 1]);
    }
  }

  lemma MidNulFree(q: SendRequest)
    requires ValidateSend(q).Ok?
    ensures forall t :: t in MidSegs(q) ==> NulFree(t)
    ensures q.replyTo.Some? ==> q.replyTo.value != []
    ensures q.correlation.Some? ==> q.correlation.value != []
  {
    NoControlNulFree(q.subject);
    NoControlNulFree(q.body);
    assert NulFree(MESSAGE_ID_PREFIX) && |MESSAGE_ID_PREFIX| == 4 by {
      assert MESSAGE_ID_PREFIX == ['m' as int, '4' as int, 'a' as int, '_' as int];
    }
    if q.replyTo.Some? {
      OpaqueNulFree("message id", q.replyTo.value, MESSAGE_ID_PREFIX, MESSAGE_ID_HEX_LEN, MESSAGE_ID_HEX_LEN);
    }
    if q.correlation.Some? {
      NoControlNulFree(q.correlation.value);
    }
  }

  lemma SegsNulFree(sender: Address, q: SendRequest)
    requires ValidateAddress(sender).Ok? && ValidateSend(q).Ok?
    ensures forall t :: t in Segs(sender, q) ==> NulFree(t)
  {
    AddressNulFree(sender);
    AddressNulFree(q.to);
    MidNulFree(q);
    RefsNulFree(q.refs);
  }

  // ----- Reading the fields back -----

  lemma {:induction false} LittleEndianInjective(m: nat, n: nat, width: nat)
    requires LittleEndian(m, width) == LittleEndian(n, width)
    requires m < Pow256(width) && n < Pow256(width)
    ensures m == n
  {
    if width > 0 {
      var p, q := LittleEndian(m, width), LittleEndian(n, width);
      assert p[0] == q[0] && p[1..] == q[1..];
      LittleEndianInjective(m / 256, n / 256, width - 1);
    }
  }

  function Pow256(n: nat): (r: nat) {
    if n == 0 then 1 else 256 * Pow256(n - 1)
  }

  lemma U64Is256To8()
    ensures Pow256(8) == 0x1_0000_0000_0000_0000
  {
    assert Pow256(4) == 256 * (256 * (256 * (256 * Pow256(0))));
    assert Pow256(8) == 256 * (256 * (256 * (256 * Pow256(4))));
  }

  /** The first letter of the destination's first segment says which shape it has. */
  lemma ToFromSegs(a: Address, x: seq<Text>, b: Address, y: seq<Text>)
    requires ToSegs(a) + x == ToSegs(b) + y
    ensures a == b && x == y
  {
    var s, t := ToSegs(a) + x, ToSegs(b) + y;
    assert s[0] == ToSegs(a)[0] && t[0] == ToSegs(b)[0];
    assert s[0][0] == t[0][0];
    assert a.Direct? == b.Direct? && a.Session? == b.Session?;
    assert x == s[|ToSegs(a)|..] && y == t[|ToSegs(b)|..];
    match a
    case Direct(p) => assert p == s[0][7..] && b.participant == t[0][7..];
    case Session(p, _) =>
      assert p == s[0][8..] && b.participant == t[0][8..];
      assert s[1] == t[1] && s[1] == ToSegs(a)[1] && t[1] == ToSegs(b)[1];
    case Room(r) => assert r == s[0][5..] && b.room == t[0][5..];
  }

  lemma {:induction false} RefsFromSegs(p: seq<MessageRef>, q: seq<MessageRef>)
    requires (forall m :: m in p ==> ValidateRef(m).Ok?) && (forall m :: m in q ==> ValidateRef(m).Ok?)
    requires RefsSegs(p) == RefsSegs(q)
    ensures p == q
    decreases |p|
  {
    assert |p| == |q|;
    if p != [] {
      var n := |p| - 1;
      var x, y := RefsSegs(p[..n]), RefsSegs(q[..n]);
      assert x == RefsSegs(p)[..3 * n] && y == RefsSegs(q)[..3 * n];
      RefsFromSegs(p[..n], q[..n]);
      assert RefsSegs(p)[3 * n] == p[n].kind && RefsSegs(q)[3 * n] == q[n].kind;
      assert RefsSegs(p)[3 * n + 1] == p[n].locator && RefsSegs(q)[3 * n + 1] == q[n].locator;
      assert RefsSegs(p)[3 * n + 2] == OrEmpty(p[n].digest) && RefsSegs(q)[3 * n + 2] == OrEmpty(q[n].digest);
      RefNulFree(p[n]);
      RefNulFree(q[n]);
      assert p == p[..n] + [p[n]] && q == q[..n] + [q[n]];
    }
  }

  /** Head, destination and the rest, read off a segment list. */
  lemma SplitSegs(s1: Address, q1: SendRequest, s2: Address, q2: SendRequest)
    requires Segs(s1, q1) == Segs(s2, q2)
    ensures Display(s1) == Display(s2) && q1.to == q2.to
    ensures MidSegs(q1) == MidSegs(q2) && RefsSegs(q1.refs) == RefsSegs(q2.refs)
  {
    var x, y := MidSegs(q1) + RefsSegs(q1.refs), MidSegs(q2) + RefsSegs(q2.refs);
    assert Segs(s1, q1) == [Display(s1)] + (ToSegs(q1.to) + x) && Segs(s2, q2) == [Display(s2)] + (ToSegs(q2.to) + y);
    HeadAndTail(Display(s1), ToSegs(q1.to) + x, Display(s2), ToSegs(q2.to) + y);
    ToFromSegs(q1.to, x, q2.to, y);
    assert MidSegs(q1) == x[..4] && MidSegs(q2) == y[..4];
    assert RefsSegs(q1.refs) == x[4..] && RefsSegs(q2.refs) == y[4..];
  }

  lemma HeadAndTail(a: Text, x: seq<Text>, b: Text, y: seq<Text>)
    requires [a] + x == [b] + y
    ensures a == b && x == y
  {
    assert ([a] + x)[0] == a && ([b] + y)[0] == b && ([a] + x)[1..] == x && ([b] + y)[1..] == y;
  }

  lemma FieldsFromSegs(s1: Address, q1: SendRequest, s2: Address, q2: SendRequest)
    requires ValidateAddress(s1).Ok? && ValidateAddress(s2).Ok? && ValidateSend(q1).Ok? && ValidateSend(q2).Ok?
    requires Segs(s1, q1) == Segs(s2, q2)
    ensures s1 == s2 && q1.(idempotencyKey := None) == q2.(idempotencyKey := None)
  {
    SplitSegs(s1, q1, s2, q2);
    DisplayInjective(s1, s2);
    MidFields(q1, q2);
    RefsFromSegs(q1.refs, q2.refs);
  }

  lemma MidFields(q1: SendRequest, q2: SendRequest)
    requires ValidateSend(q1).Ok? && ValidateSend(q2).Ok? && MidSegs(q1) == MidSegs(q2)
    ensures q1.subject == q2.subject && q1.body == q2.body && q1.replyTo == q2.replyTo
            && q1.correlation == q2.correlation
  {
    var x, y := MidSegs(q1), MidSegs(q2);
    assert x[0] == y[0] && x[1] == y[1] && x[2] == y[2] && x[3] == y[3];
    MidNulFree(q1);
    MidNulFree(q2);
  }

  /**
   The hash input of a validated, keyed send determines the whole send: sender, destination, subject,
   body, reply, correlation, references, timestamp and key. The references are of variable number and
   the eight timestamp bytes may contain anything, NUL included; reading from the end settles both.
   */
  lemma KeyedPreimageInjective(s1: Address, q1: SendRequest, t1: Millis, s2: Address, q2: SendRequest, t2: Millis)
    requires ValidateAddress(s1).Ok? && ValidateAddress(s2).Ok? && ValidateSend(q1).Ok? && ValidateSend(q2).Ok?
    requires q1.idempotencyKey.Some? && q2.idempotencyKey.Some?
    requires Preimage(s1, q1, t1, q1.idempotencyKey.value) == Preimage(s2, q2, t2, q2.idempotencyKey.value)
    ensures s1 == s2 && q1 == q2 && t1 == t2
  {
    var k1, k2 := q1.idempotencyKey.value, q2.idempotencyKey.value;
    SelectorNulFree("idempotency_key", k1);
    SelectorNulFree("idempotency_key", k2);
    PreimageShape(s1, q1, t1, k1);
    PreimageShape(s2, q2, t2, k2);
    var h1, h2 := Terminated(Segs(s1, q1)), Terminated(Segs(s2, q2));
    SplitLast(h1 + LittleEndian(t1, 8), k1, h2 + LittleEndian(t2, 8), k2);
    SameWidthTail(h1, h2, t1, t2);
    SegsNulFree(s1, q1);
    SegsNulFree(s2, q2);
    TerminatedInjective(Segs(s1, q1), Segs(s2, q2));
    FieldsFromSegs(s1, q1, s2, q2);
  }

  /** Eight raw bytes at the end are the timestamp. */
  lemma SameWidthTail(h1: Text, h2: Text, t1: Millis, t2: Millis)
    requires h1 + LittleEndian(t1, 8) == h2 + LittleEndian(t2, 8)
    ensures h1 == h2 && t1 == t2
  {
    var x, y := h1 + LittleEndian(t1, 8), h2 + LittleEndian(t2, 8);
    assert h1 == x[..|x| - 8] && h2 == y[..|y| - 8];
    assert LittleEndian(t1, 8) == x[|x| - 8..] && LittleEndian(t2, 8) == y[|y| - 8..];
    U64Is256To8();
    LittleEndianInjective(t1, t2, 8);
  }
}
