/**
 The mailbox's wire types and validators. A Rust `String` is its UTF-8 bytes, and that is what `Text`
 is: lengths are counted in bytes, as the source counts them.
 */
module MailApi {
  import opened Common

  type Byte = x: int | 0 <= x < 256
  type Text = seq<Byte>

  /** Milliseconds since the epoch, a u64. */
  type Millis = n: nat | n < 0x1_0000_0000_0000_0000

  type ParticipantId = Text
  type RoomId = Text
  type SessionId = Text
  type MessageId = Text

  const SELECTOR_MAX_BYTES: nat := 128
  const SUBJECT_MAX_BYTES: nat := 512
  const BODY_MAX_BYTES: nat := 65_536
  const REFS_MAX: nat := 8
  const REF_LOCATOR_MAX_BYTES: nat := 512
  const REF_DIGEST_MAX_CHARS: nat := 128
  const MESSAGE_ID_HEX_LEN: nat := 24
  const SESSION_ID_HEX_MIN_CHARS: nat := 8
  const SESSION_ID_HEX_MAX_CHARS: nat := 64

  /** ASCII text. */
  function Ascii(s: string): (t: Text)
    requires forall i :: 0 <= i < |s| ==> s[i] < 128 as char
  {
    seq(|s|, i requires 0 <= i < |s| => s[i] as int)
  }

  const MESSAGE_ID_PREFIX: Text := Ascii("m4a_")
  const SESSION_ID_PREFIX: Text := Ascii("s-")
  const HASH: Byte := '#' as int
  const SLASH: Byte := '/' as int

  datatype MailError =
    | UnknownParticipant(participant: ParticipantId)
    | UnknownRoom(room: RoomId)
    | UnknownSession(session: SessionId)
    | SessionAccountMismatch(session: SessionId, expected: ParticipantId, presented: ParticipantId)
    | UnknownMessage(messageId: MessageId)
    | NotAddressedToYou(messageId: MessageId)
    | PermissionDenied(need: string)
    | Malformed(field: string)
    | TooLarge(field: string, limit: nat, actual: nat)

  type Check = Result<(), MailError>

  datatype Address =
    | Direct(participant: ParticipantId)
    | Session(participant: ParticipantId, session: SessionId)
    | Room(room: RoomId)

  datatype MessageRef = MessageRef(kind: Text, locator: Text, digest: Option<Text>)

  datatype SendRequest = SendRequest(
    to: Address,
    subject: Text,
    body: Text,
    replyTo: Option<MessageId>,
    correlation: Option<Text>,
    refs: seq<MessageRef>,
    idempotencyKey: Option<Text>)

  datatype Message = Message(
    messageId: MessageId,
    from: Address,
    to: Address,
    subject: Text,
    body: Text,
    replyTo: Option<MessageId>,
    correlation: Option<Text>,
    refs: seq<MessageRef>,
    createdAt: Millis)

  // ----- Character classes -----

  predicate Hex(b: Byte) {
    '0' as int <= b <= '9' as int || 'a' as int <= b <= 'f' as int
  }

  predicate SelectorByte(b: Byte) {
    || '0' as int <= b <= '9' as int || 'a' as int <= b <= 'z' as int || 'A' as int <= b <= 'Z' as int
    || b == '-' as int || b == '_' as int || b == '.' as int || b == '@' as int || b == '+' as int
  }

  /** A control character starts at `i`: U+0000..U+001F, U+007F, or U+0080..U+009F (two bytes). */
  predicate ControlAt(t: Text, i: nat)
    requires i < |t|
  {
    t[i] < 0x20 || t[i] == 0x7F || (t[i] == 0xC2 && i + 1 < |t| && 0x80 <= t[i + 1] <= 0x9F)
  }

  predicate HasControl(t: Text) {
    exists i :: 0 <= i < |t| && ControlAt(t, i)
  }

  /** A control character other than newline and tab. */
  predicate HasBodyControl(t: Text) {
    exists i :: 0 <= i < |t| && ControlAt(t, i) && t[i] != 10 && t[i] != 9
  }

  // ----- Validators -----

  function ValidateOpaqueId(field: string, v: Text, prefix: Text, minHex: nat, maxHex: nat): (r: Check) {
    if !(prefix <= v) then Err(Malformed(field))
    else
      var hex := v[|prefix|..];
      if |hex| < minHex || |hex| > maxHex || (exists b :: b in hex && !Hex(b)) then Err(Malformed(field)) else Ok(())
  }

  function ValidateMessageId(v: Text): (r: Check) {
    ValidateOpaqueId("message id", v, MESSAGE_ID_PREFIX, MESSAGE_ID_HEX_LEN, MESSAGE_ID_HEX_LEN)
  }

  function ValidateSessionId(v: Text): (r: Check) {
    ValidateOpaqueId("session id", v, SESSION_ID_PREFIX, SESSION_ID_HEX_MIN_CHARS, SESSION_ID_HEX_MAX_CHARS)
  }

  function ValidateSelector(field: string, v: Text): (r: Check) {
    if v == [] then Err(Malformed(field))
    else if |v| > SELECTOR_MAX_BYTES then Err(TooLarge(field, SELECTOR_MAX_BYTES, |v|))
    else if exists b :: b in v && !SelectorByte(b) then Err(Malformed(field))
    else Ok(())
  }

  function ValidateSubject(v: Text): (r: Check) {
    if |v| > SUBJECT_MAX_BYTES then Err(TooLarge("subject", SUBJECT_MAX_BYTES, |v|))
    else if HasControl(v) then Err(Malformed("subject"))
    else Ok(())
  }

  function ValidateBody(v: Text): (r: Check) {
    if |v| > BODY_MAX_BYTES then Err(TooLarge("body", BODY_MAX_BYTES, |v|))
    else if HasBodyControl(v) then Err(Malformed("body"))
    else Ok(())
  }

  function ValidateCorrelation(v: Text): (r: Check) {
    if |v| > SUBJECT_MAX_BYTES then Err(TooLarge("correlation", SUBJECT_MAX_BYTES, |v|))
    else if v == [] || HasControl(v) then Err(Malformed("correlation"))
    else Ok(())
  }

  function ValidateRef(m: MessageRef): (r: Check) {
    var _ :- ValidateSelector("ref kind", m.kind);
    if |m.locator| > REF_LOCATOR_MAX_BYTES then Err(TooLarge("ref locator", REF_LOCATOR_MAX_BYTES, |m.locator|))
    else if m.locator == [] || HasControl(m.locator) then Err(Malformed("ref locator"))
    else if m.digest.None? then Ok(())
    else
      var d := m.digest.value;
      if |d| > REF_DIGEST_MAX_CHARS then Err(TooLarge("ref digest", REF_DIGEST_MAX_CHARS, |d|))
      else if d == [] || (exists b :: b in d && !Hex(b)) then Err(Malformed("ref digest"))
      else Ok(())
  }

  function ValidateEachRef(refs: seq<MessageRef>): (r: Check)
    ensures r.Ok? <==> forall m :: m in refs ==> ValidateRef(m).Ok?
  {
    if refs == [] then Ok(())
    else
      assert refs == [refs[0]] + refs[1..];
      var _ :- ValidateRef(refs[0]);
      ValidateEachRef(refs[1..])
  }

  function ValidateRefs(refs: seq<MessageRef>): (r: Check) {
    if |refs| > REFS_MAX then Err(TooLarge("refs", REFS_MAX, |refs|)) else ValidateEachRef(refs)
  }

  function ValidateAddress(a: Address): (r: Check) {
    match a
    case Direct(p) => ValidateSelector("participant id", p)
    case Session(p, s) => var _ :- ValidateSelector("participant id", p); ValidateSessionId(s)
    case Room(room) => ValidateSelector("room id", room)
  }

  function ValidateSend(q: SendRequest): (r: Check) {
    var _ :- ValidateAddress(q.to);
    var _ :- ValidateSubject(q.subject);
    var _ :- ValidateBody(q.body);
    var _ :- if q.replyTo.Some? then ValidateMessageId(q.replyTo.value) else Ok(());
    var _ :- if q.correlation.Some? then ValidateCorrelation(q.correlation.value) else Ok(());
    var _ :- ValidateRefs(q.refs);
    if q.idempotencyKey.Some? then ValidateSelector("idempotency_key", q.idempotencyKey.value) else Ok(())
  }

  function ValidateParticipantAddress(field: string, a: Address): (r: Check) {
    var _ :- ValidateAddress(a);
    if a.Room? then Err(Malformed(field)) else Ok(())
  }

  function ValidateMessage(m: Message): (r: Check) {
    var _ :- ValidateMessageId(m.messageId);
    var _ :- ValidateParticipantAddress("from", m.from);
    var _ :- ValidateAddress(m.to);
    var _ :- ValidateSubject(m.subject);
    var _ :- ValidateBody(m.body);
    var _ :- if m.replyTo.Some? then ValidateMessageId(m.replyTo.value) else Ok(());
    var _ :- if m.replyTo == Some(m.messageId) then Check.Err(Malformed("reply_to")) else Ok(());
    var _ :- if m.correlation.Some? then ValidateCorrelation(m.correlation.value) else Ok(());
    var _ :- ValidateRefs(m.refs);
    if m.createdAt == 0 then Err(Malformed("created_at_unix_ms")) else Ok(())
  }

  // ----- Printing and parsing addresses -----

  function Display(a: Address): (t: Text) {
    match a
    case Direct(p) => p
    case Session(p, s) => p + [SLASH] + s
    case Room(r) => [HASH] + r
  }

  /** The position of the first `/`, or the length when there is none. */
  function FirstSlash(t: Text): (i: nat)
    ensures i <= |t| && SLASH !in t[..i] && (i < |t| ==> t[i] == SLASH)
  {
    if t == [] || t[0] == SLASH then 0
    else
      var i := 1 + FirstSlash(t[1..]);
      assert t[..i] == [t[0]] + t[1..][..i - 1];
      i
  }

  function ParseAddress(t: Text): (r: Result<Address, MailError>) {
    if t != [] && t[0] == HASH then
      var _ :- ValidateSelector("room id", t[1..]);
      Ok(Room(t[1..]))
    else
      var i := FirstSlash(t);
      if i < |t| then
        var _ :- ValidateSelector("participant id", t[..i]);
        var _ :- ValidateSessionId(t[i + 1..]);
        Ok(Session(t[..i], t[i + 1..]))
      else
        var _ :- ValidateSelector("participant id", t);
        Ok(Direct(t))
  }

  lemma {:induction false} FirstSlashOf(a: Text, b: Text)
    requires SLASH !in a
    ensures FirstSlash(a + [SLASH] + b) == |a|
    ensures FirstSlash(a) == |a|
  {
    if a != [] {
      assert (a + [SLASH] + b)[1..] == a[1..] + [SLASH] + b;
      FirstSlashOf(a[1..], b);
    }
  }

  /** Parsing undoes printing, for every valid address. */
  lemma ParseDisplay(a: Address)
    requires ValidateAddress(a).Ok?
    ensures ParseAddress(Display(a)) == Ok(a)
  {
    match a
    case Direct(p) =>
      assert SelectorByte(p[0]);
      assert SLASH !in p;
      FirstSlashOf(p, []);
    case Session(p, s) =>
      var t := Display(a);
      assert t[0] == p[0] && SelectorByte(p[0]);
      assert SLASH !in p;
      FirstSlashOf(p, s);
      assert t[..|p|] == p && t[|p| + 1..] == s;
    case Room(r) =>
      assert Display(a)[1..] == r;
  }

  /** Printing undoes parsing, and only valid addresses are ever parsed. */
  lemma DisplayParse(t: Text)
    requires ParseAddress(t).Ok?
    ensures Display(ParseAddress(t).value) == t && ValidateAddress(ParseAddress(t).value).Ok?
  {
    if t != [] && t[0] == HASH {
      assert t == [HASH] + t[1..];
    } else {
      var i := FirstSlash(t);
      if i < |t| {
        assert t == t[..i] + [SLASH] + t[i + 1..];
      }
    }
  }

  /** Printing is injective on valid addresses. */
  lemma DisplayInjective(a: Address, b: Address)
    requires ValidateAddress(a).Ok? && ValidateAddress(b).Ok? && Display(a) == Display(b)
    ensures a == b
  {
    ParseDisplay(a);
    ParseDisplay(b);
  }
}
