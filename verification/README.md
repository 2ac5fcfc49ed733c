# mail4agent: verified models

A Dafny model of the parts of mail4agent where correctness depends on state, order and concurrency, with
proofs over every input, every run or every interleaving. `dafny verify dfyconfig.toml` checks all of it.

## What is modelled

**The Matrix event DAG** (`MatrixEvents`, `AuthChain`, `Dag`, `Receipt`, `DagRuns`, `Convergence`, `Erasure`,
`DagWitnesses`, `RoomBuilder`, `PeerChain`). How one server decides whether an event joins its copy of a room,
which state it is checked against, how the forward extremities move and what the resolved state is. The Matrix rules themselves (auth rules, state
resolution, signing, the reference hash) come from a library; they are the function-valued fields of
`Rules`, and each theorem names what it needs of them:

- `ReadsChains`, `ReturnsChains`: the resolver reads and returns only events of the auth chains it is given;
- `ReadsCores` (convergence and erasure only): of those events it reads only what `keep` keeps. With `keep` as
  redaction this fails for third-party invites, whose public keys redaction drops; with `keep` as the identity it
  is `ReadsChains`, and convergence then speaks of servers that hold the same copies;
- `ErasesOnce` (erasure only): erasing an event twice is erasing it once;
- `DependentReads`: the state-dependent rules read only the state entries selected for the event;
- `IndependentReads`: the state-independent rules read only the auth events the event names;
- `IdBindsCore`: equal event ids mean the same event up to what `keep` drops, since the reference hash is taken
  of the erased form;
- `IdBindsDepth`: equal event ids mean equal depth, which is all the builder needs.

Main results: what is accepted, as what, and why anything else is refused, in terms of the fields on the wire,
full auth chains and the rules (`AcceptsExactly`, `ResolutionExactly`); a local event is the one asked for
(`LocalEventIsDraft`); extremities are exactly the live tips after every run (`ExtremitiesOfRuns`), and an event is live
exactly if it passed against the state that was current on its arrival (`LiveIsPassed`); the reported current
state is the recomputed one, soft failures included (`RunsReportCurrentState`); stored states solve the room's
state equations in the store as it is now (`RunsAreSound`); two servers agree on extremities and current state
if and only if the same uncited events passed on both, whatever the order of arrival and whoever holds an event
erased or in full (`RoomsAgreeExactly`); erasing stored events changes nothing of that (`ErasureKeepsRoom`); a
local event closes every fork (`LocalEventClosesForks`); whatever `RoomBuilder` builds replays on an empty store
(`BuilderReplays`); whatever a server accepted passes a peer's re-verification (`RunsReverify`), which lets
through genuine events only (`VerifyAuthChain`).

**The mailbox** (`MailApi`, `MessageIds`, `Mailbox`, `MailEngine`, `MailRuns`, `MailLaws`). Participants, secrets, sessions,
rooms, messages, idempotency keys and acks. Text is its UTF-8 bytes. `Mailbox` says what each operation
does to the seven maps, `MailEngine` has the store and the engine as objects proved against it, `MailRuns`
has sequences of operations, and `MailLaws` says what clients are promised: when each operation succeeds and what
it leaves, who sees a message, in which order. SHA-256 enters as `Hashes`; results about runs assume that different hash
inputs of the run do not collide (`NoCollisions`, `DigestsApart`) and that random values are fresh
(`FreshNonces`, `FreshSecrets`).

**The waiting inbox** (`LongPoll`). Readers that subscribe, check and park, against senders that commit, look
up the readers and notify, as interleaved atomic actions over the same mailbox model.

**Product kit and edge** (`Limiter`, `NodeRegistry`, `Outbox`, `KeyLogin`, `InviteRuns`, `CredentialRuns`,
`Challenges`). The token bucket with eviction, over the reals; signed node requests with replay and rate control;
the durable at-least-once outbox with failing bookkeeping and restarts; invites, keys and credentials, both alone
and interleaved one store call at a time; login challenges and refresh tokens.

**Calendar** (`CivilDate`). The timestamp of the health report against the calendar counted year by year.

`Common` and `Sorting` hold the outcome types and the facts about sequences they share.

## Where the code does less than it says

- `forked` is documented as "more than one extremity". It is false for a soft-failed event even when
  branches are open. `ForkedUnsetOnOpenBranches` is a run that gets there; `ForkedExact` says that the flag is
  right if and only if at most one extremity was open before, or the event passes against the current state.
- Deleting a user first lists its credentials, then deletes the user, in two store calls. A credential issued
  between them is deleted without being announced. `OvertakenRun` is such a run; `AnnouncedUnlessOvertaken` says
  that in every state of a run every credential is live or announced if and only if no deletion of the run is
  overtaken that way. (The last state alone does not tell: `LateAnnouncement` is a run where a second deletion
  announces later what the first one lost.)
- The same gap can announce a live credential: `MisnamedRun` has a listed key revoked and enrolled by another user
  before the deletion finishes. `NeverNamesLiveExactly` says that no announcement of a run names a live
  credential if and only if no deletion finishes with a listed reference that belongs to another user.
- Revoking a key removes its credential too, so that it cannot log in again. A login that had read the key before
  adds the credential back (`RevokedKeyComesBack`). A key gets a credential exactly when a login that has read it,
  or an enrollment that has added it, goes on to issue its session (`CredentialComesBackExactly`); a key revoked
  while there is none of these stays out (`RevokedKeyStaysOut`).
- Servers that hold the same events need not agree: `OrderDecidesSoftFailure` has the same two events in two
  orders, one of them soft-failed. `RoomsAgreeExactly` has the exact condition, in terms of the check on arrival.
  It is enough that the check answered alike for every event (`ServersConverge`), but not needed: in
  `AgreementWithoutEqualAnswers` the rooms agree, although an event is live on one server only.
- `verify_auth_chain` returns an order by depth and id. `AuthAfterCiter` is a set that passes with an event
  before its auth event; auth events come first if and only if the sender's depths say so (`CausalOrder`).
- An enrollment with a key that is already enrolled spends its invite, and may rename the user, but adds no key
  and no credential. `KeyEnrolledTwice` is a run that gets there; `EnrollOutcome` says exactly when.
- The timestamp has the four-digit year of RFC 3339, section 5.6, exactly up to the end of 9999
  (`FourDigitYear`).

## Model

| member | source | states |
|---|---|---|
| AuthChain.AuthChainWith | crates/m4a-matrix-core/src/resolve.rs:22-35 | the worklist stops on any finite store, cyclic ones included, with exactly the least set that contains the ids and the auth events of every fetchable event in it; events not held are leaves |
| AuthChain.ChainAgrees | crates/m4a-matrix-core/src/resolve.rs:22-35 | two closed stores whose common events cite the same auth events give the same chain for ids both hold, inside both stores |
| Dag.ResolveOverLoop | crates/m4a-matrix-core/src/dag.rs:76-89 | the loop computes the merged state over the states after the ids; the first id without a state is the error |
| Receipt.ResolutionExactly | crates/m4a-matrix-core/src/resolve.rs:43-56 | over any ids that have a state: none give the empty state, one gives its own, and for two or more the resolver is handed exactly these states, the least closed auth chain of each and the stored events, and its answer is the result; also with an event not written yet |
| Receipt.ResolutionMisses | crates/m4a-matrix-core/src/dag.rs:76-89 | where some id has no state, the first such is the error |
| Receipt.ReadsExactly | crates/m4a-matrix-core/src/pdu.rs:25-51 | an event is read from a wire form exactly if every field is there, well formed and the same; a missing depth is zero; all else is malformed |
| Receipt.IdsExactly | crates/m4a-matrix-core/src/dag.rs:115-118 | the id of a wire form is its reference hash behind a dollar sign, if that is well formed |
| Receipt.NamedState | crates/m4a-matrix-core/src/dag.rs:162-169 | at each key the state named by auth events has the last of them with that key |
| Receipt.NotNamedState | crates/m4a-matrix-core/src/dag.rs:162-169 | and it has no other key |
| Receipt.AdmitsExactly | crates/m4a-matrix-core/src/dag.rs:150-183 | an event is admitted exactly if its auth events are held and the rules pass it against them, the state they name and the state before it; then with its own fields, the state before it and its own entry; else the first check that fails is the error |
| Dag.AuthStateLoop | crates/m4a-matrix-core/src/dag.rs:162-169 | the loop computes the state named by the auth events, later entries winning |
| Dag.AdmitLoop | crates/m4a-matrix-core/src/dag.rs:150-183 | the checks shared by live and historic events, in the order of the code, with the same error for the first failure |
| Dag.AdvanceLoop | crates/m4a-matrix-core/src/dag.rs:194-196 | the new extremities are the old ones without the previous events, plus the event, sorted |
| Dag.Accept | crates/m4a-matrix-core/src/dag.rs:146-200 | decides exactly as the specification `Acceptance`: duplicate, malformed, missing auth or previous event, refused, soft-failed or placed |
| Receipt.AcceptsExactly | crates/m4a-matrix-core/src/dag.rs:146-200 | for every store and readable event not held yet: refused by the first check it fails, or accepted with its own fields, and soft-failed exactly if it does not pass against the current state; otherwise it replaces the extremities it cites, in order, and the current state is resolved over the new ones with their full auth chains |
| Receipt.AcceptsNoOther | crates/m4a-matrix-core/src/dag.rs:146-152 | a held event is a duplicate, an unreadable one malformed |
| Dag.AcceptHistoric | crates/m4a-matrix-core/src/dag.rs:212-238 | decides exactly as `HistoricAcceptance`: the same checks, no extremities, no check against the current state |
| Receipt.AcceptsHistoryExactly | crates/m4a-matrix-core/src/dag.rs:212-238 | the same checks against the state before it and nothing else |
| Dag.ForksAfterWrite | crates/m4a-matrix-core/src/dag.rs:92-107 | reading an event through the overlay before the write is reading it from the store after the write |
| Dag.CurrentStateAfterWrite | crates/m4a-matrix-core/src/dag.rs:186-199 | for an event that is not soft-failed the reported current state is what a reader recomputes after the write, under any rules |
| Dag.ForkedExact | crates/m4a-matrix-core/src/dag.rs:186-199 | for every accepted event `forked` says whether more than one extremity is open, if and only if at most one was open before the call or the event passes against the current state |
| DagWitnesses.ForkedUnsetOnOpenBranches | crates/m4a-matrix-core/src/dag.rs:67-68 | a run of three accepted events to a room with two extremities, and a fourth it accepts with `forked` false |
| Dag.PlaceClosesForks | crates/m4a-matrix-core/src/dag.rs:185-200 | an event that cites all extremities and passes against the current state becomes the only extremity, with its own state as current state |
| Dag.LocalEventClosesForks | crates/m4a-matrix-core/src/dag.rs:282-316 | a successful local event is never soft-failed, cites all extremities, is deeper than each, becomes the only one, and the current state becomes the old resolved state plus the event, also when recomputed |
| Receipt.LocalEventIsDraft | crates/m4a-matrix-core/src/dag.rs:282-316 | a successful local event has the room, sender, kind, content, state key and time asked for, cites all extremities, has as auth events the current state's entries at the keys the rules select, in that order, is one deeper than the deepest stored extremity, is signed, and was accepted as such |
| Receipt.LocalEventRefused | crates/m4a-matrix-core/src/dag.rs:282-316 | why it fails: sender, current state, selection, signing, or the answer of `accept` for that very event |
| DagRuns.ExtremitiesOfRuns | crates/m4a-matrix-core/src/dag.rs:186-199 | after every run under any rules the extremities are sorted, duplicate-free and exactly the live events no live event cites |
| DagRuns.ReportedStateIsCurrent | crates/m4a-matrix-core/src/dag.rs:186-199 | in a sound store the reported current state is the recomputed one for normal and soft-failed events alike |
| DagRuns.RunsAreSound | crates/m4a-matrix-core/src/dag.rs:76-112 | after every run all cited events are stored before their citers, all state entries are stored, and every stored state is its event over the resolution of its predecessors in today's store |
| DagRuns.StoredIsBrought | crates/mail4agent-server/src/f3.rs:101-142 | over every run under any rules the store has exactly the events that received, historic and local steps brought, each as it was brought and with the state it was brought with |
| DagRuns.RunsReportCurrentState | crates/mail4agent-server/src/f3.rs:251-279 | whatever event is accepted after whatever run, what the store is told to write as current state is what it then recomputes |
| Convergence.StatesAgree | crates/m4a-matrix-core/tests/dag.rs:225-239 | two sound stores that hold the same events, erased or in full, have the same state after each common event |
| Convergence.RunsAlike | crates/m4a-matrix-core/src/dag.rs:132-141 | in any two runs with computed ids, what both servers hold under one id is the same event up to erased content |
| Convergence.RunsGiveSameStates | crates/m4a-matrix-core/tests/dag.rs:225-239 | in any two runs an event that both servers hold, live or as history, has the same state after it |
| Convergence.LiveIsPassed | crates/m4a-matrix-core/src/dag.rs:186-193 | over every run under any rules, an event extended the room if and only if some received or local step stored it while the room was empty or it passed against the current state found by that step |
| Convergence.AlikeIsSameLive | crates/m4a-matrix-core/src/dag.rs:186-193 | two runs have the same live events if and only if that check answered alike for every event |
| Convergence.RoomsAgreeExactly | crates/m4a-matrix-core/tests/dag.rs:144-163 | two servers have the same extremities and the same current state if and only if the same events passed that check, uncited by others that passed, whatever the runs and whichever copies are erased |
| Convergence.ServersConverge | crates/m4a-matrix-core/tests/dag.rs:144-163 | they do if the check answered alike for every event, and the current state then resolves |
| Convergence.StoresConverge | crates/m4a-matrix-core/tests/dag.rs:144-163 | where every stored event passed that check, the same stored events give the same extremities and current state |
| Erasure.ErasesExactly | crates/mail4agent-server/src/f3.rs:801-815 | the content of the stored event becomes what redaction keeps of it; its other fields and all other events stay |
| Erasure.ErasureKeepsRoom | crates/mail4agent-server/src/f3.rs:801-815 | erasing a stored event changes no state, no extremity and not the current state, and leaves the room sound |
| Erasure.ErasingRunsAreSound | crates/mail4agent-server/src/f3.rs:801-815 | after every run with erasures in between the stored states still solve the state equations, the extremities are exact and the cited events are stored |
| DagWitnesses.OrderDecidesSoftFailure | crates/m4a-matrix-core/tests/dag.rs:178-186 | two runs of the same two events in different orders, meeting every hypothesis of the agreement theorem, that store the same events and do not agree |
| DagWitnesses.AgreementWithoutEqualAnswers | crates/m4a-matrix-core/tests/dag.rs:144-163 | two runs that agree on extremities and current state although an event passed in one of them only |
| RoomBuilder.RoomBuilder.constructor | crates/m4a-matrix-core/src/builder.rs:46-49 | a fresh builder |
| RoomBuilder.RoomBuilder.Push | crates/m4a-matrix-core/src/builder.rs:52-96 | the six fields and the answer after a push, for every refusal and for success; clock and depth advance on late refusals |
| RoomBuilder.PushBuildsAsked | crates/m4a-matrix-core/src/builder.rs:52-96 | a push succeeds exactly if the event asked for (its fields, next time and depth, after the last event, with the selected auth events) can be signed, is well formed and passes; then exactly that event is appended and answered; else only clock and depth may move |
| RoomBuilder.PushRefusedFor | crates/m4a-matrix-core/src/builder.rs:52-96 | which error stands for which failure |
| RoomBuilder.PushIsAccepted | crates/m4a-matrix-core/src/builder.rs:52-96 | a store that mirrors the builder accepts what it just built, not soft-failed, as the only extremity, with the builder's new state |
| RoomBuilder.BuilderReplays | crates/m4a-matrix-core/src/builder.rs:52-96 | after any pushes the event list replays on an empty store: every event accepted, none soft-failed, one extremity throughout, ending in the builder's events and state |
| PeerChain.VerifyAuthChain | crates/m4a-matrix-core/src/dag.rs:243-271 | succeeds exactly when every event reads and stands against its own auth events, and then every event sent is genuine and the ids are listed once by depth and id; otherwise the error of the first spoilt event, else of the first flawed one in that order |
| PeerChain.ReadsExactly | crates/m4a-matrix-core/src/dag.rs:109-130 | an event is read exactly if its signatures are valid, its content hash too or it is in erased form, and its fields carry an event under its hashed id; a bad signature, a bad content hash and a malformed event are told apart |
| PeerChain.CollectsExactly | crates/m4a-matrix-core/src/dag.rs:244-250 | the last genuine form of each id is kept; the first spoilt one is the error |
| PeerChain.FlawsExactly | crates/m4a-matrix-core/src/dag.rs:253-265 | an event is flawed by its first auth event that is not among those sent, else exactly if the rules refuse it on its auth events |
| PeerChain.OrderIsByDepth | crates/m4a-matrix-core/src/dag.rs:251-252 | the listed ids have non-decreasing depths, and equal depths are by id |
| PeerChain.OrderUnique | crates/m4a-matrix-core/src/dag.rs:251-252 | the order is unique, so the answer does not depend on hash map order |
| PeerChain.SameEventsSameAnswer | crates/m4a-matrix-core/src/dag.rs:244-250 | order and repetition of the events sent do not matter when copies of one event read alike |
| PeerChain.VerifiedHoldsChains | crates/m4a-matrix-core/src/dag.rs:253-258 | a verified set holds the whole auth chain of each of its events |
| PeerChain.CausalOrder | crates/m4a-matrix-core/src/dag.rs:251-252 | every event comes after its auth events if and only if each auth event has a smaller depth, or the same depth and a smaller id |
| PeerChain.AuthAfterCiter | crates/m4a-matrix-core/src/dag.rs:251-252 | two events that pass the check, listed with one before the auth event it cites |
| PeerChain.RunsReverify | crates/m4a-matrix-core/tests/dag.rs:211-222 | all events a server accepted in any run stand when a peer repeats the checks on them together |
| MailApi.ParseDisplay | crates/mail4agent-api/src/lib.rs:542-580 | parsing the printed form of a valid address gives it back |
| MailApi.DisplayParse | crates/mail4agent-api/src/lib.rs:559-580 | printing what was parsed gives the text back, and what was parsed is valid |
| MailApi.DisplayInjective | crates/mail4agent-api/src/lib.rs:542-557 | valid addresses print differently |
| MailLaws.ParsesExactly | crates/mail4agent-api/src/lib.rs:559-580 | a text parses to an address exactly if the address is valid and written that way: account, account/session, #room |
| MailLaws.RequestsValidExactly | crates/mail4agent-api/src/lib.rs:193-298 | a send request is valid exactly if every part is within its length, alphabet and number |
| MessageIds.HashInput | crates/mail4agent-core/src/engine.rs:805-862 | the updates of the hasher feed exactly the bytes of `Preimage` |
| MessageIds.HashRefs | crates/mail4agent-core/src/engine.rs:838-847 | the loop over the refs appends each ref's three terminated fields in order |
| MessageIds.PreimageShape | crates/mail4agent-core/src/engine.rs:805-862 | the hash input is a list of NUL-terminated segments, eight raw timestamp bytes, a NUL and a tail |
| MessageIds.SegsNulFree | crates/mail4agent-api/src/lib.rs:193-298 | for a validated sender and request no segment contains a NUL |
| MessageIds.KeyedPreimageInjective | crates/mail4agent-core/src/engine.rs:805-862 | equal hash inputs of two validated keyed sends imply equal sender, request (destination, texts, refs, key) and timestamp |
| Mailbox.IdentityShape | crates/mail4agent-core/src/engine.rs:561-589 | a resolved reader is a valid direct or session address of a registered account |
| MailLaws.ResolvesExactly | crates/mail4agent-core/src/engine.rs:561-589 | an address acts as an account exactly if it is valid, the account is registered, and it is the account's own or that of a session on file for it |
| MailLaws.ResolvesNobody | crates/mail4agent-core/src/engine.rs:561-589 | and else the first reason is told |
| Mailbox.ListedIffReadable | crates/mail4agent-core/src/engine.rs:612-661 | for a reader that is no operator, the bulk index path lists a stored message if and only if the point predicate lets it be read |
| MailLaws.ReadableExactly | crates/mail4agent-core/src/engine.rs:591-661 | a message may be read exactly by operators and those it is for (the account and its sessions, that very session, the room's members); it is listed for exactly the latter from its time on, and unread exactly if moreover neither sent nor acked by that address |
| MailLaws.SentIsSeenExactly | crates/mail4agent-core/src/engine.rs:315-374 | a successful new send adds its message to the inbox of exactly those it is for, and to the unread of exactly these but the sending address |
| Mailbox.PageUnique | crates/mail4agent-core/src/engine.rs:663-675 | a page of given messages and limit is unique, so map iteration order cannot show |
| Mailbox.SortGivesPage | crates/mail4agent-core/src/engine.rs:663-675 | sorting by time and id and cutting at the limit gives that page |
| MailLaws.PageOldestFirst | crates/mail4agent-core/src/engine.rs:663-675 | a page is oldest first with equal times by id, has no repetitions, and leaves something out only when full, and then only what comes after all of it |
| Mailbox.AckLowersUnread | crates/mail4agent-core/src/engine.rs:437-451 | an ack lowers the reader's unread set by one if the message was in it, else not at all |
| Mailbox.AckLeavesOthers | crates/mail4agent-core/src/store.rs:400-402 | it changes no other address, sibling sessions included |
| Mailbox.AckIdempotent | crates/mail4agent-core/src/store.rs:400-402 | a second ack changes nothing and returns the first timestamp |
| MailLaws.AcksExactly | crates/mail4agent-core/src/engine.rs:437-451 | an ack succeeds exactly if the message is stored and its reader may read it (and id and time are well formed); the first one is on file and the answer from then on; refused, nothing changes |
| MailEngine.InMemoryStore.RegisterParticipant | crates/mail4agent-core/src/store.rs:282-286 | record stored under its id and its digest |
| MailEngine.InMemoryStore.DeregisterParticipant | crates/mail4agent-core/src/store.rs:288-293 | record and digest entry removed |
| MailEngine.InMemoryStore.SetSecretDigest | crates/mail4agent-core/src/store.rs:295-302 | the old digest entry goes, the new one names the participant; unknown ids change nothing |
| MailEngine.InMemoryStore.InsertMessage | crates/mail4agent-core/src/store.rs:348-364 | a filed key answers with its first id and stores nothing; otherwise message and key are stored |
| MailEngine.InMemoryStore.RecordAck | crates/mail4agent-core/src/store.rs:400-402 | the first ack of a message by an address is kept |
| MailEngine.InMemoryStore.MessagesToSince | crates/mail4agent-core/src/store.rs:370-377 | exactly the stored messages to that address at or after `since`, once each |
| MailEngine.InMemoryStore.RoomsContaining | crates/mail4agent-core/src/store.rs:391-398 | exactly the rooms with that member, once each |
| MailEngine.MailboxEngine.AuthenticateSecret | crates/mail4agent-core/src/engine.rs:77-91 | decides as `Authenticate` |
| MailEngine.MailboxEngine.RegisterParticipant | crates/mail4agent-core/src/engine.rs:96-121 | whole store and answer as `Register` says |
| MailEngine.MailboxEngine.DeregisterParticipant | crates/mail4agent-core/src/engine.rs:126-129 | whole store and answer as `Deregister` says |
| MailEngine.MailboxEngine.RotateSecret | crates/mail4agent-core/src/engine.rs:135-142 | whole store and answer as `Rotate` says |
| MailEngine.MailboxEngine.EnsureSessionCard | crates/mail4agent-core/src/engine.rs:237-266 | whole store and answer as `EnsureSession` says |
| MailEngine.MailboxEngine.DeclareSession | crates/mail4agent-core/src/engine.rs:273-290 | whole store and answer as `SetDeclared` says |
| MailEngine.MailboxEngine.SendMessage | crates/mail4agent-core/src/engine.rs:315-374 | whole store and answer as `Send` says, every refusal included |
| MailLaws.SendsExactly | crates/mail4agent-core/src/engine.rs:315-374 | in every mailbox: a send succeeds exactly if the request is valid, the sender acts as an account that may send, the destination exists, and id and time are well formed; then the message is stored under its id with every field as requested and its key filed, unless the key is on file, whose id is then the answer and nothing changes; refused, nothing changes |
| MailLaws.SendRefusedFor | crates/mail4agent-core/src/engine.rs:315-374 | the first reason to refuse is the error |
| MailEngine.MailboxEngine.AckMail | crates/mail4agent-core/src/engine.rs:437-451 | whole store and answer as `AckMessage` says |
| MailEngine.MailboxEngine.OwnMessages | crates/mail4agent-core/src/engine.rs:639-661 | lists each own-readable message at or after `since` exactly once |
| MailEngine.MailboxEngine.BuildPage | crates/mail4agent-core/src/engine.rs:663-675 | the unique page of those messages |
| MailEngine.MailboxEngine.CountUnread | crates/mail4agent-core/src/engine.rs:687-703 | the number of own-readable messages not sent and not acked by that exact address |
| MailEngine.MailboxEngine.Inbox | crates/mail4agent-core/src/engine.rs:391-395 | the reader's error, or the unique page and the unread count |
| MailRuns.UnkeyedInputsApart | crates/mail4agent-core/src/engine.rs:848-862 | 16 random bytes that no other unkeyed send has and no keyed input ends in make the hash input of an unkeyed send unlike any other |
| MailRuns.IdsOfRunApart | crates/mail4agent-core/src/engine.rs:805-862 | in a run without hash collisions two valid sends share an id only if they share sender and key |
| MailRuns.RunsAreFiled | crates/mail4agent-core/src/store.rs:348-364 | in every reachable mailbox, collisions or not, each message is filed under its own id |
| MailRuns.InboxOfRuns | crates/mail4agent-core/src/engine.rs:612-675 | in every reachable mailbox, for every reader that is no operator: the index queries list exactly the readable messages at or after `since`, and there is exactly one page of them for each limit |
| MailRuns.MessagesOnlyGrow | crates/mail4agent-core/src/store.rs:348-364 | over every run without collisions no stored message and no filed key is changed or lost |
| MailRuns.FirstKeyedSendInserts | crates/mail4agent-core/src/engine.rs:315-374 | the first successful send under a key adds exactly one message, under a new id, with every field as requested, and files the key |
| MailRuns.KeyedSendsAnswerOnce | crates/mail4agent-core/src/engine.rs:315-374 | every later successful send by that sender under that key returns the same id and changes nothing |
| MailRuns.AuthenticateExact | crates/mail4agent-core/src/engine.rs:77-151 | in every reachable store the digest index is the exact inverse of the digests, and a secret authenticates as a participant if and only if it is the one that participant holds |
| MailRuns.RetiredSecretsStayRefused | crates/mail4agent-core/src/engine.rs:126-151 | a secret of the run refused once is refused in every later state |
| MailRuns.ReplacedSecretsAreRefused | crates/mail4agent-core/src/engine.rs:126-151 | a successful registration, rotation, revocation or deregistration makes every earlier secret of that participant refused for good |
| MailLaws.RegistryReplies | crates/mail4agent-core/src/engine.rs:96-151 | when registering, rotating, revoking and deregistering succeed, and what they answer |
| MailLaws.RightsOfRuns | crates/mail4agent-core/src/engine.rs:96-151 | over every run a participant is on file exactly if registered and not taken out since, with the label and rights it was registered with |
| MailLaws.RoomReplies | crates/mail4agent-core/src/engine.rs:177-216 | when creating a room, adding and removing a member succeed |
| MailLaws.MembersOfRuns | crates/mail4agent-core/src/engine.rs:177-216 | over every run there are exactly the rooms created, with exactly the members added and not removed since |
| MailRuns.SessionsKeepIdentity | crates/mail4agent-core/src/engine.rs:237-290 | a session never changes accounts or disappears, and only `set_declared` for it changes what it declared |
| MailLaws.EnsuresExactly | crates/mail4agent-core/src/engine.rs:237-266 | when a session card is accepted; then it is on file with the attested and corroborated groups and the time given, and the declared group as before |
| MailLaws.DeclaresExactly | crates/mail4agent-core/src/engine.rs:273-290 | when a declaration is accepted; then that group of that session is changed and nothing else |
| MailLaws.CardsOfRuns | crates/mail4agent-core/src/engine.rs:237-290 | over every run all declared groups are valid, so that the two above hold in every reachable mailbox |
| LongPoll.InboxAnswers | src/service.rs:251-295 | a page is empty exactly when the limit is zero or there is nothing to list |
| LongPoll.CheckAnswersAsInbox | src/service.rs:270-284 | a check answers as the engine's inbox: its error, mail exactly if the page is not empty, else it goes on waiting |
| LongPoll.NothingOnlyAfterWait | src/service.rs:251-295 | in every state and whatever happens after a reader began to wait, it is answered "nothing" only after all the time it was ready to wait, and about what it asked |
| LongPoll.AnswerHasCause | src/service.rs:269-295 | an answer never changes; "nothing" is given only at the clock check past the deadline, the others only by the check |
| LongPoll.DeadlineAnswers | src/service.rs:285-295 | past its deadline a parked reader is answered by its own next steps |
| LongPoll.MailIsOfRun | src/service.rs:187-205 | however readers and senders interleave, the mailbox is that of a plain run of the engine, so that all results about runs hold of it |
| LongPoll.WakeUpsAreNeverLost | src/service.rs:251-295 | in every interleaving, for each message a parked un-notified reader could list (room mail while membership is unchanged and lookups succeed) the notification of that very message's send is still to come and will reach the reader; an empty answer comes only after the deadline |
| LongPoll.CommitKeeps | src/service.rs:187-205 | a commit keeps that: the message it stores has its own notification pending |
| LongPoll.LookUpKeeps | src/service.rs:303-326 | the lookup keeps that: every account that can list the message is among those to be notified |
| LongPoll.NotifyKeeps | src/service.rs:547-570 | the notification keeps that: the readers it covers are woken |
| LongPoll.PendingSendDelivers | src/service.rs:187-205 | from any such state the remaining steps of the send of that message and the reader's own lead to the reader answering with mail |
| Limiter.Limiter.Allow | crates/m4a-edge/src/lib.rs:51-70 | the whole bucket map and the answer as `Decide` says |
| Limiter.KeyDetermines | crates/m4a-edge/src/lib.rs:161-167 | the bucket key determines the address and the kind, so a bucket never mixes two rates |
| Limiter.EvictionUnobservable | crates/m4a-edge/src/lib.rs:53-70 | for every run with a non-decreasing clock each answer is that of a limiter that never evicts |
| Limiter.RateBound | crates/m4a-edge/src/lib.rs:53-70 | in every interval the requests allowed for one key are at most burst plus rate times its length, for both configured pairs |
| Limiter.AllowsExactly | crates/m4a-edge/src/lib.rs:51-70 | over every run with a non-decreasing clock a request is allowed if and only if, counted from every earlier moment, it is within 10 + 0.2 per second for registration and 200 + 50 per second for the rest |
| Limiter.FirstBurstAllowed | crates/m4a-edge/src/lib.rs:51-70 | the first 10 or 200 requests of a client are allowed |
| NodeRegistry.Registry.constructor | crates/m4a-product-kit/src/node_registry.rs:106-116 | the nodes on file, an empty replay book and empty queues; the rate is at least one |
| NodeRegistry.Registry.RegisterNode | crates/m4a-product-kit/src/node_registry.rs:140-157 | whole state and answer as `Register` says |
| NodeRegistry.Registry.RevokeNode | crates/m4a-product-kit/src/node_registry.rs:160-169 | whole state and answer as `Revoke` says |
| NodeRegistry.Registry.AuthorizeRequest | crates/m4a-product-kit/src/node_registry.rs:184-219 | whole state and answer as `Authorize` says |
| NodeRegistry.PopOld | crates/m4a-product-kit/src/node_registry.rs:211-213 | the pop-front loop drops exactly the leading entries older than an hour |
| NodeRegistry.NonceKeyDetermines | crates/m4a-product-kit/src/node_registry.rs:203 | for valid node ids the nonce key determines node and nonce |
| NodeRegistry.NoReplay | crates/m4a-product-kit/src/node_registry.rs:184-219 | over every run with a non-decreasing clock from any nodes on file, no node, nonce and timestamp are authorized twice, although nonces are evicted |
| NodeRegistry.ReplayHasCause | crates/m4a-product-kit/src/node_registry.rs:200-208 | a request is refused as a replay only if the same node and nonce was presented within the window |
| NodeRegistry.HourlyLimit | crates/m4a-product-kit/src/node_registry.rs:209-218 | no node gets more than the rate in any window of one hour |
| NodeRegistry.RevocationIsFinal | crates/m4a-product-kit/src/node_registry.rs:140-169 | a revoked node stays revoked, is never authorized again and cannot be registered again |
| NodeRegistry.AuthorizesExactly | crates/m4a-product-kit/src/node_registry.rs:184-219 | over every run with a non-decreasing clock, the answer to any request: granted exactly if well formed, by a registered and not revoked node, within five minutes, with a signature that verifies under its key, with a nonce the node has not spent in the last ten minutes, and after fewer grants than its rate in the last hour; else the first that fails |
| NodeRegistry.RegistersExactly | crates/m4a-product-kit/src/node_registry.rs:140-157 | when a registration succeeds, the error otherwise, and the record it leaves, with the nicks kept |
| NodeRegistry.RevokesExactly | crates/m4a-product-kit/src/node_registry.rs:160-232 | a revocation marks that node only and answers its nicks; recording an account adds that nick once |
| Outbox.DelayGrows | crates/m4a-product-kit/src/events.rs:219-263 | the retry delay never shrinks with attempts and is at most 300 s |
| Outbox.DelayDoubles | crates/m4a-product-kit/src/events.rs:219-263 | it begins at the base, doubles with each of the first sixteen attempts up to 300 s, then stays |
| Outbox.MemoryOutbox.Enqueue | crates/m4a-product-kit/src/events.rs:64-70 | appends under the next number |
| Outbox.MemoryOutbox.Head | crates/m4a-product-kit/src/events.rs:71-73 | the entry with the least number, or none exactly when empty |
| Outbox.MemoryOutbox.Ack | crates/m4a-product-kit/src/events.rs:74-79 | removes exactly that number and keeps the order |
| Outbox.MemoryOutbox.Retry | crates/m4a-product-kit/src/events.rs:80-88 | changes attempts and due time of exactly that number |
| Outbox.DeliveryIsSafe | crates/m4a-product-kit/src/events.rs:219-263 | whatever is answered, whatever bookkeeping fails, however often the process dies: each flushed event is in exactly one of pending, delivered, dead, with its cause among the posts; posts never go back in sequence |
| Outbox.NothingIsOvertaken | crates/m4a-product-kit/src/events.rs:219-263 | when an event is about to be posted every earlier one is delivered or dead |
| Outbox.FlushesExactly | crates/m4a-product-kit/src/events.rs:100-204 | in every reachable state writing makes the oldest buffered event the row of the next number, untried, due and pending; a crash loses the buffer and what the worker holds, and no row |
| Outbox.SettlesExactly | crates/m4a-product-kit/src/events.rs:243-259 | in every reachable state a written outcome is: delivered exactly for 200, dead exactly for 4xx but 429, otherwise pending with one more attempt and due after the delay; a failed write changes nothing |
| Outbox.TakesExactly | crates/m4a-product-kit/src/events.rs:223-242 | the worker takes exactly the oldest pending event, when due, and posts it |
| Outbox.FlushedOnlyGrows | crates/m4a-product-kit/src/events.rs:100-204 | flushed events are never lost or renumbered, delivered ones stay delivered |
| Outbox.NothingIsDropped | crates/m4a-product-kit/src/events.rs:100-204 | while the process lives, what is flushed and what is buffered is exactly what was enqueued, in order |
| KeyLogin.Users.Enroll | crates/m4a-product-kit/src/keylogin.rs:107-141 | all tables and the answer as `Enrolled` says |
| KeyLogin.Users.Finish | crates/m4a-product-kit/src/keylogin.rs:119-141 | all tables and the answer from the moment the invite is spent |
| KeyLogin.UpdateKeepsNicks | crates/m4a-product-example/src/store.rs:186-194 | changing a nick keeps nicks unique up to case with an exact index; it is refused exactly when the user is gone or another user has the nick, and then changes nothing |
| KeyLogin.InsertKeepsNicks | crates/m4a-product-example/src/store.rs:174-180 | a new user gets a new id and an unchanged nick exactly if no user has the nick up to case; else nothing changes |
| KeyLogin.NicksCheckedExactly | crates/m4a-product-kit/src/keylogin.rs:144-162 | a nick passes exactly if it is the user's own up to case, or its own is not reserved and the new one is valid, outside the cooldown and no other user's; else the first that fails |
| KeyLogin.RenameStartsCooldown | crates/m4a-product-kit/src/keylogin.rs:151-157 | a change of nick is counted and dated, and refuses another one until the cooldown is over, with the time left |
| KeyLogin.InviteRedeemsExactly | crates/m4a-product-example/src/store.rs:297-330 | an invite redeems for its user with its flag, for seven days, while the user exists, and once |
| KeyLogin.DeletesExactly | crates/m4a-product-example/src/store.rs:203-208 | deleting a user removes exactly what names it |
| KeyLogin.EnrollOutcome | crates/m4a-product-kit/src/keylogin.rs:107-162 | run alone, in every case: an unknown code redeems nothing; a nick refusal changes no table; otherwise exactly that invite is spent, the key is added exactly if it was not enrolled, and the answer is success exactly if moreover no other user has that credential; only the invited user is renamed, and only to a nick that differs in more than case, counted and dated |
| InviteRuns.AloneIsEnrolled | crates/m4a-product-kit/src/keylogin.rs:107-141 | the interleaved steps with nothing in between leave the tables of the sequential enrollment |
| InviteRuns.UninterruptedIsAlone | crates/m4a-product-kit/src/keylogin.rs:107-141 | after any run, uninterrupted steps of one enrollment do just that to the tables and to it |
| InviteRuns.InviteIsSpentEitherWay | crates/m4a-product-kit/src/keylogin.rs:119-141 | after any run, a new invite and an uninterrupted enrollment with it that asks for no nick: the invite is spent, and the enrollment ends refused with the keys unchanged if its key was already enrolled, else completed with the key added |
| InviteRuns.KeyEnrolledTwice | crates/m4a-product-kit/src/keylogin.rs:137-141 | a run in which a user enrolls a key twice: the second enrollment ends refused, its invite spent |
| InviteRuns.OneKeyPerInvite | crates/m4a-product-kit/src/keylogin.rs:107-141 | in every interleaving one code never gives two keys, although refused enrollments put invites back, and the key is for the invited user, also once the enrollment is complete |
| InviteRuns.RefusalGivesBack | crates/m4a-product-kit/src/keylogin.rs:119-135 | a nick refusal after the invite was spent leaves it redeemable for the same user with the same flag, exactly if the user still exists |
| InviteRuns.NicksOfRuns | crates/m4a-product-kit/src/keylogin.rs:144-162 | in every interleaving nicks are unique up to case with an exact index, although checking a nick and taking it are two steps |
| CredentialRuns.RunsAreBooked | crates/m4a-product-kit/src/service.rs:176-182 | in every interleaving each live credential row has its own serial number, and a pending deletion has listed all rows of its user but those issued since |
| CredentialRuns.AnnouncedUnlessOvertaken | crates/m4a-product-kit/src/service.rs:166-182 | in every state of a run every credential ever issued is live, or announced when its row was gone, if and only if no deletion finishes while its user holds an unlisted credential issued since the listing |
| CredentialRuns.OvertakenRun | crates/m4a-product-kit/src/service.rs:176-182 | a run of four steps after which a credential is neither live nor announced |
| CredentialRuns.LateAnnouncement | crates/m4a-product-kit/src/service.rs:176-182 | a run with an overtaken deletion whose last state is accounted for again |
| CredentialRuns.NamesLiveExactly | crates/m4a-product-kit/src/service.rs:166-182 | in any state, what an action announces as revoked includes a credential that is live afterwards if and only if it finishes a deletion with a listed reference that belongs to another user |
| CredentialRuns.NeverNamesLiveExactly | crates/m4a-product-kit/src/service.rs:166-182 | no announcement of a run names a live credential if and only if no deletion of the run finishes that way |
| CredentialRuns.MisnamedRun | crates/m4a-product-kit/src/service.rs:176-182 | a run in which a key is listed, revoked and enrolled by another user; finishing the deletion then announces its credential, which is live |
| CredentialRuns.CredentialComesBackExactly | crates/m4a-product-kit/src/keylogin.rs:165-211 | in any state and for any action but issuing a session of that very name, a key without a credential gets one exactly when a login that has read the key, or an enrollment that has added it, issues its session and its user still exists; that the key is still there is not part of it |
| CredentialRuns.RevokedKeyStaysOut | crates/m4a-product-kit/src/service.rs:166-173 | over every run a key revoked with its credential, while no login has read it and no enrollment is about to use it, has no credential until it is enrolled again or a session of that very name is issued |
| CredentialRuns.RevokedKeyComesBack | crates/m4a-product-kit/src/service.rs:166-173 | a run in which a login issues its session after the key was revoked: the key is gone and its credential live |
| Challenges.ChallengeBook.constructor | crates/m4a-product-kit/src/keylogin.rs:32-34 | an empty book |
| Challenges.ChallengeBook.IssueChallenge | crates/m4a-product-kit/src/keylogin.rs:42-52 | the whole book as `Issue` says: expired ones dropped when full, recorded if there is room |
| Challenges.ChallengeBook.TakeChallenge | crates/m4a-product-kit/src/keylogin.rs:55-58 | the whole book and the answer as `Take` says |
| Challenges.GrantedExactly | crates/m4a-product-kit/src/keylogin.rs:42-58 | over every run with a non-decreasing clock and distinct challenge ids an attempt is granted if and only if it is the first with a challenge that was recorded for the same key and has not expired |
| Challenges.GrantedOnce | crates/m4a-product-kit/src/keylogin.rs:55-58 | in such a run no challenge is granted twice |
| Challenges.BookIsBounded | crates/m4a-product-kit/src/keylogin.rs:42-52 | the book never holds more than 10000 challenges |
| Challenges.RefreshedOnce | crates/m4a-product-example/src/store.rs:277-285 | over every run in which no two tokens are made alike no refresh token is redeemed twice |
| Challenges.RenewalKeepsCredential | crates/m4a-product-kit/src/service.rs:115-121 | where no two credentials share a token, a refresh succeeds exactly if some credential has it unexpired, and replaces that credential's token and no other |
| CivilDate.YearOfEraFits | src/health.rs:98 | the division formula gives the March-based year the day falls in, with its 366th day exactly in leap years |
| CivilDate.FromDaysCounts | src/health.rs:95-104 | for every day number the fields are a valid Gregorian date whose simple count from 1970-01-01 is that number |
| CivilDate.Iso8601Denotes | src/health.rs:93-111 | for every count of seconds the fields are a valid date and time from which the count is recomputed |
| CivilDate.Iso8601Ordered | src/health.rs:93-111 | later seconds give lexicographically later fields and conversely; different seconds give different fields |
| CivilDate.FourDigitYear | src/health.rs:110 | the year has at most four digits exactly before second 253402300800 |

## Left out

- The bodies of the Matrix auth rules, state resolution v2, redaction, signing and hashing: not in the repository; parameters with named hypotheses.
- `accept` with a `state_before` override and outliers imported on join: modelled for one event, outside the run invariants.
- Storage failures: every store call succeeds, except failed bookkeeping in the outbox and failed member lookups in the waiting inbox.
- LongPoll: atomic actions on values, not an object with locks; fairness of the scheduler and the listener callbacks are not modelled.
- LongPoll.WakeUpsAreNeverLost: room mail is covered while membership is unchanged and the member lookup succeeds, because otherwise the code does not notify that reader.
- Limiter: real arithmetic instead of f64; a clock that goes back.
- NodeRegistry: a run is one life of the process; a restart forgets nonces and rates. Not modelled: an owner of non-ASCII white space only; i64 overflow; the registry file and the audit log; a corrupt file.
- Outbox.MemoryOutbox.Enqueue: volatile queue, so nothing about restarts; the durable queue is the state machine beside it.
- MailEngine.MailboxEngine.CountUnread: the u32 width of the count; likewise the u16 width of limits.
- InviteRuns: each store call is an atomic step on values; checking for a key's credential and adding it are one step of a login; access tokens and their expiry.
- Challenges: nonces, audiences and signatures of challenges; the interleaving of refreshes with other calls.
- Erasure: the queue check before erasing; a later event is checked against erased content, and nothing is said of its answer.
- KeyLogin: signature checks, labels, placeholder nicks; nick grammar is a parameter; lower-casing is ASCII as in the store.
- CivilDate: the digits of the text; u64 seconds are a special case of any natural number, and no intermediate value leaves i64.
- Listener URLs, directory, `inbox_of`, `unread_count_of`, `message_get`: easy members over the same state.
- HTTP routes, MCP, configuration, attestation, clients, relays and SQL text: plumbing or foreign calls.
