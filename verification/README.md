# Credo verification

Dafny models of the parts of Credo, an agent framework for verifiable credentials, whose behaviour spans several
functions or several concurrent calls, and proofs about them. Where the code is narrower than its documentation, the
code is modelled, a lemma gives an input that shows the difference, and another says exactly when they agree.

| file | what it models |
|---|---|
| `ActionMenu.dfy` | the Action Menu service of one agent: a class that updates its records, and the state of every record in every run |
| `ActionMenuProtocol.dfy` | two agents running the protocol over a channel that loses, reorders and possibly duplicates messages |
| `StoreManager.dfy` | opening, provisioning, shared initialisation and closing of the Askar store, in every interleaving |
| `FirstMessage.dfy` | the connection created for the first message of an unknown peer, alone and in every interleaving |
| `TransportSessions.dfy` | the table of transport sessions, whose objects are shared and changed in place |
| `Envelope.dfy` | DIDComm v1 envelopes under symbolic encryption, packing for mediators and opening hop by hop |
| `ServiceOrder.dfy`, `MessageSender.dfy` | the order in which services are tried and the delivery from session to services to queue |
| `RevocationRegistry.dfy`, `RevocationFill.dfy`, `TimestampVerifier.dfy` | the revocation pipeline: choosing a status list, fetching lists concurrently, looking them up, and the verifier's timestamp rule |
| `GreedyMatching.dfy`, `RequestEquality.dfy` | comparing two proof requests by greedy matching |
| `RestrictionQuery.dfy` | restrictions compiled to storage queries, and what the queries find |
| `PresentationRequest.dfy` | a presentation definition compiled to an AnonCreds proof request |
| `ProofEntries.dfy` | grouping selected credentials into proof entries |
| `Decimal.dfy`, `Encoding.dfy` | numerals, bytes as numbers, nonces and the encoding of credential values |
| `StorageMigrator.dfy` | copying a store in batches and freeing native handles |

Storage, key management, ledgers, transports and native libraries are parameters (what an operation answers, or whether
it succeeds) or nondeterministic steps. In the modules about interleavings a step runs one call from one `await` to the
next. Ids made by hashing names are kept as the names they are made from. `dafny verify dfyconfig.toml` checks the
project.

Results that differ from what the documentation or the surrounding code suggests:

- The search for legacy credentials asks for marker tags of the newer store: any legacy record with a requested
  attribute is missed (`RestrictionQuery.LegacyRecordIsNotFound`), and the search is right exactly when no attribute is
  requested or the credential does not qualify (`RestrictionQuery.LegacyQueryIsExactOnlyWithoutAttributes`).
- An envelope for several recipients is opened only by the holder of the last listed key, while RFC 0019 promises it to
  every recipient and the forward message names the first (`Envelope.FirstRecipientIsNamedButCannotOpen`,
  `Envelope.EveryHolderOpensExactlyWhen`).
- Restriction lists are compared by inclusion, so request equality is not symmetric and depends on the order of groups
  (`RequestEquality.CodedEqualityIsNotSymmetric`, `RequestEquality.CodedEqualityDependsOnGroupOrder`). A request is
  compared as documented with every request whose lists have its one length exactly when its lists have no duplicates
  (`RequestEquality.RequestsComparedExactlyWhenDistinct`).
- In non-strict mode, on either side, an Action Menu responder can accept a choice from a menu it does not hold
  (`ActionMenuProtocol.LenientRequesterBreaksAgreement`, `ActionMenuProtocol.AgreementExactlyWhenReliable`).
- A close does not check that the store it unregisters is its own: with two overlapping closes another store can be left
  open that nobody holds (`StoreManager.OverlappingClosesLeak`), exactly when some close succeeds while another store is
  registered (`StoreManager.LeaksExactlyWhenACloseUnregistersAnother`).
- If the storage fails after a first message rotated our DID, that DID is neither used nor handed to cleanup
  (`FirstMessage.MessageReceiver.CreateFirstMessageConnection`).
- Closures that fill one registry with two lists can lose one of them (`RevocationFill.LastWriterWins`,
  `RevocationFill.NoInterleavingLosesAListExactlyWhen`).
- The verifier judges a timestamp by the first restriction related to the credential, so an honest answer to one group
  can be refused because of another group's interval (`TimestampVerifier.HonestAnswerIsRefused`), exactly when a list
  was published in between (`TimestampVerifier.HonestTimestampPassesExactlyWhen`).
- The verifier accepts intervals against Aries RFC 0441 that the second implementation of its timestamp rule refuses
  (`TimestampVerifier.WideIntervalIsRefusedOnce`); otherwise the two agree (`TimestampVerifier.BothImplementationsAgree`).
- A predicate field of a presentation definition is compared at the first of its paths that is a claim path, not at the
  first that finds anything: a field that takes a date of birth or an age is asked of the date of birth even if the
  credential has only an age (`PresentationRequest.AbsentClaimIsAsked`), and a field without a claim path is dropped
  without an error (`PresentationRequest.IssuerAgeIsDropped`). The request means what the definition means exactly when
  every mapped predicate field is read well in the selected credentials (`PresentationRequest.RequestPreservesMeaning`).
- A descriptor that is mapped twice to credentials of two credential definitions leaves a prove entry whose restriction
  names the wrong one (`PresentationRequest.RepeatedDescriptorNamesAnotherDefinition`,
  `PresentationRequest.RestrictedToOwnExactlyWhenRepeatsAgree`).
- A batch handle whose release throws is released a second time, and the scan handle is not released if that throws
  too (`StorageMigrator.ThrowingReleaseIsRepeated`, `StorageMigrator.HandlesAreFreedOnceExactlyWhen`,
  `StorageMigrator.ScanIsFreedExactlyWhen`).

## Model

| member | source | states |
|---|---|---|
| ActionMenu.SlotIsMember | packages/action-menu/src/services/ActionMenuService.ts:352-358 | A lookup by connection and role finds a record of that pair if there is one, and none only if there is none. |
| ActionMenu.SaveKeepsOthers | packages/action-menu/src/services/ActionMenuService.ts:45-80 | Saving what a call produced keeps one record per connection and role, and what every other pair holds. |
| ActionMenu.OutcomeIsCoherent | packages/action-menu/src/services/ActionMenuService.ts:45-346 | Any accepted call on coherent records yields a record whose state fits its menu and its performed action. |
| ActionMenu.EveryRunIsCoherent | packages/action-menu/src/services/ActionMenuService.ts:45-346 | After any sequence of calls, each strict or not: at most one record per connection and role; Done implies that the performed action is an option of the current menu; Null, AwaitingRootMenu and PreparingRootMenu imply no menu. |
| ActionMenu.OnlyTheAnswerChanges | packages/action-menu/src/services/ActionMenuService.ts:45-346 | After a call the record of its connection and role is the one it answers with and every other pair has what it had; a call that throws changes nothing. |
| ActionMenu.SendingARequest | packages/action-menu/src/services/ActionMenuService.ts:45-81 | Sending a request puts the requester, whatever it had, into a new thread, awaiting a menu, without menu or performed action; it fails exactly if the connection is not ready. |
| ActionMenu.ReceivingARequest | packages/action-menu/src/services/ActionMenuService.ts:83-120 | Receiving one restarts the responder without menu or performed action, in the thread of the message if it had no record and under the message id if it had. |
| ActionMenu.SendingAMenu | packages/action-menu/src/services/ActionMenuService.ts:122-178 | A menu that is sent is kept and awaits a selection, in a new thread for a new or a cleared record and in the old one otherwise; it fails exactly for repeated option names, and in strict mode in the three states that are not allowed. |
| ActionMenu.ReceivingAMenu | packages/action-menu/src/services/ActionMenuService.ts:180-228 | A menu that is received is kept in every state with its thread, and the performed action is forgotten. |
| ActionMenu.SendingAChoice | packages/action-menu/src/services/ActionMenuService.ts:230-262 | A choice is kept as the performed action and everything else stays; it fails exactly for a responder, in strict mode outside of the one state, and for what the menu does not offer. |
| ActionMenu.ReceivingAChoice | packages/action-menu/src/services/ActionMenuService.ts:264-308 | The same for the responder, in the thread of its record; after a clear it is answered as cleared. |
| ActionMenu.ClearingARecord | packages/action-menu/src/services/ActionMenuService.ts:310-325 | Clearing leaves state Null, no menu and no performed action, in the thread it had. |
| ActionMenu.ReceivingAProblemReport | packages/action-menu/src/services/ActionMenuService.ts:327-346 | A problem report does that to the requester's record, and fails exactly if there is none. |
| ActionMenu.ActionMenuService.CreateRequest | packages/action-menu/src/services/ActionMenuService.ts:45-81 | The method that updates the records: its answer, its error and the new records are those of the step, and the invariant holds. |
| ActionMenu.ActionMenuService.ProcessRequest | packages/action-menu/src/services/ActionMenuService.ts:83-120 | As above for a received request, which restarts an existing record. |
| ActionMenu.ActionMenuService.CreateMenu | packages/action-menu/src/services/ActionMenuService.ts:122-178 | As above for sending a menu: duplicate option names and wrong states are refused, and the thread is kept or started as the code does. |
| ActionMenu.ActionMenuService.ProcessMenu | packages/action-menu/src/services/ActionMenuService.ts:180-228 | As above for a received menu, which is accepted in every state. |
| ActionMenu.ActionMenuService.CreatePerform | packages/action-menu/src/services/ActionMenuService.ts:230-262 | As above for choosing an option of the menu held. |
| ActionMenu.ActionMenuService.ProcessPerform | packages/action-menu/src/services/ActionMenuService.ts:264-308 | As above for a received choice: only in the record's thread, not after a clear, in strict mode only while awaiting, and only an option of the menu held. |
| ActionMenu.ActionMenuService.ClearMenu | packages/action-menu/src/services/ActionMenuService.ts:310-325 | As above for clearing a record. |
| ActionMenu.ActionMenuService.ProcessProblemReport | packages/action-menu/src/services/ActionMenuService.ts:327-346 | As above for a problem report, which clears the requester's record. |
| ActionMenuProtocol.RunKeepsInv | packages/action-menu/src/services/ActionMenuService.ts:122-308 | In every run of two strict parties without duplication, the menu of the responder's thread is a single token: one offer in transit, one preparing requester or one perform message in transit. |
| ActionMenuProtocol.AgreementExactlyWhenReliable | packages/action-menu/src/services/ActionMenuService.ts:122-308 | In every run of the two parties each choice the responder accepts was made by the requester from exactly the menu the responder holds, in the same thread, and none is accepted twice, if and only if both are strict and the channel does not duplicate. |
| ActionMenuProtocol.RoundCompletes | packages/action-menu/src/services/ActionMenuService.ts:45-308 | From any state, in any configuration and with fresh ids: if the channel delivers, a menu can be asked for and any choice from it is performed and accepted, with that menu and in the thread of the request. |
| ActionMenuProtocol.RefusedChoiceIsConsumed | packages/action-menu/src/services/ActionMenuService.ts:264-308 | A choice that is refused is consumed without an effect on either party, and only one that meets a cleared record is answered. |
| ActionMenuProtocol.ReportIsConsumed | packages/action-menu/src/services/ActionMenuService.ts:327-346 | A problem report, and nothing else, clears the requester's record. |
| ActionMenuProtocol.ClearingAndLosing | packages/action-menu/src/services/ActionMenuService.ts:310-325 | Clearing one's own record changes nothing else; a message that the channel loses is gone. |
| ActionMenuProtocol.ClearedAcceptsNothing | packages/action-menu/src/services/ActionMenuService.ts:264-325 | After the responder cleared its record it accepts no choice until it sends a menu again, in every run of every configuration. |
| ActionMenuProtocol.ClearedAnswersWithAReport | packages/action-menu/src/services/ActionMenuService.ts:273-308 | A choice that reaches it in the thread of the record before it sends a menu or receives a request is answered with a problem report and changes neither party. |
| ActionMenuProtocol.ReportedChoosesNothing | packages/action-menu/src/services/ActionMenuService.ts:327-346 | After a problem report reached the requester it performs nothing until it receives a menu again. |
| ActionMenuProtocol.LenientRequesterBreaksAgreement | packages/action-menu/src/services/ActionMenuService.ts:230-262 | A run in which a requester that may perform twice has its second choice accepted against the next menu. |
| ActionMenuProtocol.LenientResponderBreaksAgreement | packages/action-menu/src/services/ActionMenuService.ts:122-178 | A run in which a responder that may replace a menu it sent accepts a choice from the one it replaced. |
| ActionMenuProtocol.DuplicatingChannelBreaksAgreement | packages/action-menu/src/services/ActionMenuService.ts:264-308 | A run in which a perform message delivered twice is accepted against two menus. |
| StoreManager.SerialRunKeepsLeakInv | packages/askar/src/AskarStoreManager.ts:129-239 | In every interleaving in which closes do not overlap every open store is the registered one, held by one call in flight, or one whose discarding close failed, and every close unregisters the store it closed. |
| StoreManager.LeaksExactlyWhenACloseUnregistersAnother | packages/askar/src/AskarStoreManager.ts:426-449 | A run at no point has an open store that is neither registered, nor held by a call in flight, nor left open by a failed discarding close, if and only if no close in it succeeds while another store than its own is registered; then, once all calls settled, the open stores are the registered one and those whose discarding close failed. |
| StoreManager.OverlappingClosesLeak | packages/askar/src/AskarStoreManager.ts:426-449 | A run in which the second of two overlapping closes unregisters a store that was opened in between, and leaves it open. |
| StoreManager.NoLeakExactlyWhenClosesAreSerial | packages/askar/src/AskarStoreManager.ts:129-239 | Keeping closes from overlapping is enough to keep every interleaving from leaking a store, and without it some interleaving leaks one. |
| StoreManager.EveryCallGetsTheRegisteredStore | packages/askar/src/AskarStoreManager.ts:562-619 | From any moment at which all calls had settled, the start or after a close that overlapped no other call, until the next close: in every interleaving each call made since that successfully opened, provisioned or initialised returned the one registered store, which is open, and no caller of an initialisation is told that another store was registered first. |
| StoreManager.SharedInitializationOpensOnce | packages/askar/src/AskarStoreManager.ts:582-606 | However many callers initialise on demand at the same time, the store is opened or provisioned at most once. |
| StoreManager.InitializationOpensTheStore | packages/askar/src/AskarStoreManager.ts:562-619 | While no other call runs and nothing is registered, an initialisation on demand whose native steps succeed ends with its caller holding the store, which is registered and open. |
| StoreManager.InitializationProvisionsTheStore | packages/askar/src/AskarStoreManager.ts:582-619 | The same if the open finds no store and the agent context is initialised: one is provisioned. |
| StoreManager.OpenReturnsTheStore | packages/askar/src/AskarStoreManager.ts:192-239 | With nothing registered, an open whose steps succeed returns the store, registered and open. |
| StoreManager.ProvisionReturnsTheStore | packages/askar/src/AskarStoreManager.ts:129-185 | With nothing registered, provisioning whose steps succeed returns a new store, registered and open. |
| StoreManager.CloseClosesTheStore | packages/askar/src/AskarStoreManager.ts:426-449 | A close whose steps succeed closes the registered store and unregisters it. |
| StoreManager.CallsRefusedAtOnce | packages/askar/src/AskarStoreManager.ts:192-204 | An open while a store is registered, and a close while none is, fail at once and change nothing. |
| StoreManager.LaterCallerJoins | packages/askar/src/AskarStoreManager.ts:562-606 | A caller that needs a store gets the registered one, or waits for the initialisation that runs, and starts none. |
| StoreManager.LoserClosesItsOwn | packages/askar/src/AskarStoreManager.ts:496-512 | A call that opened a store after another was registered closes its own, or leaves it open if that fails, and reports that another was registered. |
| StoreManager.SharedLoserAnswersWithTheRegistered | packages/askar/src/AskarStoreManager.ts:588-600 | An initialisation that lost, or found the store to exist, answers with the registered store; any other error it passes on. |
| StoreManager.AnsweredExactlyWhen | packages/askar/src/AskarStoreManager.ts:129-239 | A step gives a call its answer, a store or an error, exactly when the operation it awaited ended in one of the listed ways or the initialisation it waited for failed. |
| StoreManager.ErrorsHaveCauses | packages/askar/src/AskarStoreManager.ts:129-619 | In every interleaving each error a call ends with was caused by a step of its own, or of the initialisation it waited for. |
| StoreManager.NotFoundOnlyWhenNotInitialized | packages/askar/src/AskarStoreManager.ts:608-619 | An initialisation on demand ends with not found only if its own open found no store while the agent context was not initialised. |
| FirstMessage.EquivalenceIsCanonicalEquality | packages/core/src/modules/dids/methods/peer/peerDidNumAlgo4.ts:45-50 | Two DIDs are equivalent forms exactly when they are equal or both are did:peer:4 with one hash, that is, when their short forms are equal; so equivalence is transitive. |
| FirstMessage.ChainIsTotal | packages/didcomm/src/DidCommMessageReceiver.ts:57-61 | Of two ids on the id chain of one pair, one comes before the other. |
| FirstMessage.FirstUsableIsOnTheChain | packages/didcomm/src/DidCommMessageReceiver.ts:547-578 | The first id of the chain that is free or on the pair exists, and all before it are taken by connections that moved off. |
| FirstMessage.MessageReceiver.CreateFirstMessageConnection | packages/didcomm/src/DidCommMessageReceiver.ts:547-602 | The loop ends on every store and for every pattern of storage failures. It returns the first connection on the chain that is on the pair or was not taken, changes no other, and either creates it with the rotated DID or discards that DID; it throws if and only if one of the storage operations up to there fails, and then changes nothing and discards nothing. |
| FirstMessage.RunKeepsInv | packages/didcomm/src/DidCommMessageReceiver.ts:547-628 | In every interleaving, with connections that move off a DID: each id before a taken or awaited one belongs to a connection that left the peer's DID for good. |
| FirstMessage.CallAloneEndsAtFirstUsable | packages/didcomm/src/DidCommMessageReceiver.ts:547-578 | A call that runs alone in the interleaving model, from any world, does what the method does: it ends with the connection under the first usable id, created with the rotated DID or found, with that DID handed to cleanup. |
| FirstMessage.FirstMessageIsAnswered | packages/didcomm/src/DidCommMessageReceiver.ts:547-602 | After any run, a first message that is not interrupted is answered in this way, from the first id of its pair on. |
| FirstMessage.FailureChangesNothingElse | packages/didcomm/src/DidCommMessageReceiver.ts:558-569 | A storage failure makes a call throw and changes nothing else. |
| FirstMessage.ConnectionMoves | packages/didcomm/src/DidCommMessageReceiver.ts:574-577 | In the interleaving model a connection can move to any DID it did not leave before, and leaves the one it had unless both are equivalent. |
| FirstMessage.OneConnectionPerPair | packages/didcomm/src/DidCommMessageReceiver.ts:547-578 | In every such interleaving at most one connection on the id chain of a pair is on that pair. |
| FirstMessage.CreatedOnceAndNoDidForgotten | packages/didcomm/src/DidCommMessageReceiver.ts:547-628 | No two calls report that they created one connection, and each returned call left its rotated DID on the record of the connection it created, as stored, or handed it to cleanup. |
| FirstMessage.DiscardedDidIsNotInUse | packages/didcomm/src/DidCommMessageReceiver.ts:547-628 | If each rotated DID was made for its call, no DID that was handed to cleanup is the DID of a connection created for a first message, and a returned call handed its rotated DID to cleanup if and only if it did not create a connection. |
| FirstMessage.RacingCallsShareOneConnection | packages/didcomm/src/DidCommMessageReceiver.ts:547-578 | While no connection moves, racing calls for equivalent DIDs return equal connections, which equal the one stored under their id, and at most one reports that it created it. |
| TransportSessions.SaveKeepsOne | packages/didcomm/src/DidCommTransportService.ts:22-39 | Saving keeps at most one session per connection and type. |
| TransportSessions.EveryRunKeepsOnePerConnection | packages/didcomm/src/DidCommTransportService.ts:22-73 | So does every sequence of saving, setting the connection, removing and the receiver's assign-then-save. |
| TransportSessions.StaysExactlyWhen | packages/didcomm/src/DidCommTransportService.ts:22-73 | An operation leaves a stored session as it is if and only if it does not remove it, save it as something else, or give its connection to another session of its type. |
| TransportSessions.SavedSessionIsTheOne | packages/didcomm/src/DidCommTransportService.ts:22-39 | After a save exactly the saved session serves that connection with that type. |
| TransportSessions.SaveKeepsTheFirstOfOthers | packages/didcomm/src/DidCommTransportService.ts:22-43 | Saving a session does not change which session is found for a connection that the session neither had nor gets. |
| TransportSessions.DidCommTransportService.SaveSession | packages/didcomm/src/DidCommTransportService.ts:22-39 | The method on shared objects: the table is the old one without the displaced sessions and with this one under its id, in the old order, a new id last. |
| TransportSessions.DidCommTransportService.SetConnectionIdForSession | packages/didcomm/src/DidCommTransportService.ts:45-52 | It fails exactly for unknown ids and otherwise changes the object and the table as one step, keeping the invariant. |
| TransportSessions.DidCommTransportService.RemoveSession | packages/didcomm/src/DidCommTransportService.ts:66-74 | The table loses exactly the entry under the session's id. |
| TransportSessions.DidCommTransportService.FindSessionByConnectionId | packages/didcomm/src/DidCommTransportService.ts:41-43 | It finds the session of the connection that was stored first, and none if and only if there is none. |
| TransportSessions.DidCommTransportService.AssignAndSave | packages/didcomm/src/DidCommMessageReceiver.ts:265-281 | The receiver's assignment to a session, stored or not, followed by a save keeps the invariant and saves the new state. |
| Envelope.EncryptDidcommV1Message | packages/didcomm/src/DidCommEnvelopeService.ts:42-150 | The loop seals content key and sender to every recipient, and seals the message under the header. |
| Envelope.DecryptDidcommV1Message | packages/didcomm/src/DidCommEnvelopeService.ts:152-252 | The scan, which goes on after a match, opens as the last listed recipient or fails, with the code's errors. |
| Envelope.HeaderDescribesTheEnvelope | packages/didcomm/src/DidCommEnvelopeService.ts:42-150 | The header lists the recipients in order, each with its sealed sender if there is one, and names the authenticated algorithm exactly if there is a sender. |
| Envelope.OpensExactlyWhen | packages/didcomm/src/DidCommEnvelopeService.ts:152-252 | Any envelope opens exactly if the algorithms are known, the last recipient key is held, its content key was sealed to it by the sender that is named, and the ciphertext was made with that content key under this very header. |
| Envelope.OpenFailsWith | packages/didcomm/src/DidCommEnvelopeService.ts:152-252 | Otherwise it fails with the first of the errors that applies. |
| Envelope.ChangedHeaderIsRefused | packages/didcomm/src/DidCommEnvelopeService.ts:223-246 | An envelope that opens no longer does, for anybody, once its header is changed in any way. |
| Envelope.OpenAfterEncrypt | packages/didcomm/src/DidCommEnvelopeService.ts:42-252 | Round trip: message and sender come back for the holder of the last listed key, and nothing for anybody else. |
| Envelope.UnpacksAsSpecifiedExactlyWhen | packages/didcomm/src/DidCommEnvelopeService.ts:175-185 | An agent can open what RFC 0019 promises it if and only if it holds the last listed key, or none. |
| Envelope.EveryHolderOpensExactlyWhen | packages/didcomm/src/DidCommEnvelopeService.ts:175-185 | Every holder of a listed key can open an envelope if and only if all listed keys are the same. |
| Envelope.PackMessage | packages/didcomm/src/DidCommEnvelopeService.ts:254-294 | The loop over the routing keys builds one anonymous forward layer for each, and fails without a recipient key. |
| Envelope.MediatorFindsTheNextHop | packages/didcomm/src/DidCommEnvelopeService.ts:269-287 | The holder of a layer's routing key, and nobody else, finds a forward message without a sender that names the next key and holds the next layer. |
| Envelope.NamedKeyOpensTheNextLayer | packages/didcomm/src/DidCommEnvelopeService.ts:269-287 | The key a forward message names opens what it holds; the innermost one names the first recipient, whose key does so if and only if it is also the last one. |
| Envelope.MessageArrivesExactlyWhen | packages/didcomm/src/DidCommEnvelopeService.ts:152-294 | For any routing keys, opened from the last one inward, the message arrives with its sender if and only if the last agent holds the last listed recipient key. |
| Envelope.MissingMediatorStopsTheJourney | packages/didcomm/src/DidCommEnvelopeService.ts:152-294 | The first agent without its routing key stops the message at its hop. |
| Envelope.FirstRecipientIsNamedButCannotOpen | packages/didcomm/src/DidCommEnvelopeService.ts:271-275 | With two recipient keys the last forward message names the first, whose holder cannot open what it gets. |
| ServiceOrder.StableOrderIsUnique | packages/didcomm/src/DidCommMessageSender.ts:844-854 | Two stable orders of the same services are equal. |
| ServiceOrder.RankIsLexicographic | packages/didcomm/src/DidCommMessageSender.ts:402-409 | A service comes strictly before another if and only if the connection needs v2 and only the first can take it, or they do not differ in that and the scheme of the first is listed before any mention of that of the second. |
| ServiceOrder.AllowedExactlyWhen | packages/didcomm/src/DidCommMessageSender.ts:835-842 | The services tried are, each as often as offered, those that are no queue and, for a restrictive preference, of a listed scheme. |
| ServiceOrder.OrderedIsTheStableOrder | packages/didcomm/src/DidCommMessageSender.ts:835-857 | Filtering, sorting and reordering give a permutation of the allowed services that is sorted by that rank and keeps the order of equals. |
| ServiceOrder.NoOtherOrder | packages/didcomm/src/DidCommMessageSender.ts:835-857 | It is the only such order. |
| MessageSender.FirstAccepting | packages/didcomm/src/DidCommMessageSender.ts:302-496 | The first channel in order that accepts, if any does. |
| MessageSender.DidCommMessageSender.SendOutboundMessage | packages/didcomm/src/DidCommMessageSender.ts:280-522 | A normal return means that exactly one channel, the first of those tried that accepts, accepted the message and exactly one success status names it; a throw means that all refused and no success status was emitted. |
| MessageSender.DidCommMessageSender.SendMessageToService | packages/didcomm/src/DidCommMessageSender.ts:524-562 | The same for a message with a given service. |
| MessageSender.DidCommMessageSender.Hand | packages/didcomm/src/DidCommMessageSender.ts:302-314 | Handing a message to a channel records it and emits its status together, so that over all sends the success statuses are, in order, exactly one for each accepted message, naming the kind of channel. |
| MessageSender.StatusTellsTheKind | packages/didcomm/src/DidCommMessageSender.ts:302-496 | Each kind of channel has its own success status, and none is the failure. |
| MessageSender.GivenServiceIsTried | packages/didcomm/src/DidCommMessageSender.ts:524-562 | A message with a given service goes over the session if it takes it, else to that service, and nowhere else. |
| MessageSender.FailureIsReportedExactlyWhen | packages/didcomm/src/DidCommMessageSender.ts:318-522 | A failed send over a connection is reported as undeliverable unless our key to send with is missing or the queue was tried last. |
| MessageSender.ServicesAreTriedInStableOrder | packages/didcomm/src/DidCommMessageSender.ts:399-496 | The channels tried are the session, the allowed services in their stable order, and the queue if the message may be queued. |
| MessageSender.OnlySuitableChannelsAreTried | packages/didcomm/src/DidCommMessageSender.ts:835-837 | Only services that are no queue are used as transports, and a queue only for messages that allow it. |
| MessageSender.StoppedSendsReachNoService | packages/didcomm/src/DidCommMessageSender.ts:292-397 | Without a connection or a sender key at most the session is tried, and without a sender key no status is emitted. |
| RevocationRegistry.AtIsLatest | packages/anoncreds/src/utils/getCredentialsForAnonCredsRequest.ts:35-76 | The registry answers with the latest list that is not newer than the time asked for. |
| RevocationRegistry.AtAnswersExactlyTheCurrentList | packages/anoncreds/src/anoncreds-rs/AnonCredsRsVerifierService.ts:116-137 | A later answer carries an earlier list's timestamp if and only if no list was published in between, and then it is that list. |
| RevocationRegistry.StatusNamesAPublishedList | packages/anoncreds/src/utils/getCredentialsForAnonCredsRequest.ts:35-76 | The timestamp chosen for a match names the list in force at the requested `to`, and the revocation reported is that list's. |
| RevocationFill.Launch | packages/anoncreds/src/utils/getRevocationRegistries.ts:46-141 | The loop awaits nothing, so no closure finds an entry of another when it starts: all are to fetch their definition, the state every interleaving starts in and the reason why two closures of one registry can both write its entry. |
| RevocationFill.EntersExactlyWhen | packages/anoncreds/src/utils/getRevocationRegistries.ts:76-114 | A closure that starts fetches the definition of its registry unless an entry is there, and its list unless that is there too. |
| RevocationFill.DefinitionGivesAnEmptyEntry | packages/anoncreds/src/utils/getRevocationRegistries.ts:76-101 | After the definition, and for a request the tails file, an empty entry is written over whatever is there, and the list is fetched. |
| RevocationFill.FetchedListIsAdded | packages/anoncreds/src/utils/getRevocationRegistries.ts:113-139 | The list is added to what the entry holds by then, for a request under its own timestamp, which a credential without one takes over, and for a proof under the requested time. |
| RevocationFill.FailedFetchEndsTheClosure | packages/anoncreds/src/utils/getRevocationRegistries.ts:80-121 | A fetch that fails or finds no list ends its closure and changes nothing else. |
| RevocationFill.RunKeepsInv | packages/anoncreds/src/utils/getRevocationRegistries.ts:46-141 | In every interleaving of the closures of one list per registry, each list is stored or some closure of its registry is still to store it. |
| RevocationFill.LastWriterWins | packages/anoncreds/src/utils/getRevocationRegistries.ts:80-101 | For any two closures of one registry with different lists, an interleaving that completes without one of the lists. |
| RevocationFill.NoInterleavingLosesAListExactlyWhen | packages/anoncreds/src/utils/getRevocationRegistries.ts:46-210 | For requests and for received proofs: every interleaving that completes holds the list that the holder or verifier looks up for each referent if and only if the referents of each registry use one list and each timestamp selected for a request is that of a list. |
| RevocationFill.OtherTimestampIsNotFound | packages/anoncreds/src/anoncreds-rs/AnonCredsRsHolderService.ts:148-173 | A selected timestamp that names no list is not found by the holder after any interleaving. |
| RevocationFill.ChosenTimestampsShareAList | packages/anoncreds/src/anoncreds-rs/AnonCredsRsHolderService.ts:148-173 | The timestamps chosen for referents that ask for one interval meet that condition, so the holder's lookup does not fail. |
| TimestampVerifier.CollectRequested | packages/anoncreds/src/anoncreds-rs/AnonCredsRsVerifierService.ts:77-102 | The nested loops collect every restriction of a group that asks for non-revocation, with the group's interval or the global one. |
| TimestampVerifier.RequestedAreTheAskingOnes | packages/anoncreds/src/anoncreds-rs/AnonCredsRsVerifierService.ts:77-102 | What is collected is, in the order of the groups and in each in the order of its restrictions, exactly each restriction of a group that asks for an interval, with the group's own interval if it has one and the global one otherwise. |
| TimestampVerifier.OwnIntervalsDecide | packages/anoncreds/src/anoncreds-rs/AnonCredsRsVerifierService.ts:88-88 | If every group has an interval of its own, the global one does not matter. |
| TimestampVerifier.FromOfTheFirstAsking | packages/anoncreds/src/anoncreds-rs/AnonCredsRsVerifierService.ts:108-115 | The `from` that is looked at is that of the first restriction, in this order, that names the identifier's registry, credential definition or schema; there is none if no restriction does. |
| TimestampVerifier.FirstRelatedFrom | packages/anoncreds/src/anoncreds-rs/AnonCredsRsVerifierService.ts:108-115 | The `from` of the first restriction that shares a registry, credential definition or schema with the identifier. |
| TimestampVerifier.CheckIdentifier | packages/anoncreds/src/anoncreds-rs/AnonCredsRsVerifierService.ts:104-139 | An identifier passes if and only if it is not older than the requested `from` or its list is still in force then; an override is made for exactly the older ones that pass. |
| TimestampVerifier.VerifyTimestamps | packages/anoncreds/src/anoncreds-rs/AnonCredsRsVerifierService.ts:70-145 | Verified if and only if for every identifier the first restriction that asks for it has a `from` that is not newer, or its list is still in force then; with one override for each older one, in order. Otherwise the first failing identifier decides between not verified and an exception. |
| TimestampVerifier.PassesExactlyWhenStillInForce | packages/anoncreds/src/anoncreds-rs/AnonCredsRsVerifierService.ts:104-139 | That condition on the groups is what the search through the collected restrictions decides. |
| TimestampVerifier.OutcomeIsUnique | packages/anoncreds/src/anoncreds-rs/AnonCredsRsVerifierService.ts:70-145 | What the method promises determines its outcome, overrides included. |
| TimestampVerifier.OverridesAreSound | packages/anoncreds/src/anoncreds-rs/AnonCredsRsVerifierService.ts:116-131 | The list an override substitutes is the one in force at the requested time, so revocation is the same at both. |
| TimestampVerifier.OverrideHasIdentifier | packages/anoncreds/src/anoncreds-rs/AnonCredsRsVerifierService.ts:116-131 | The overrides are exactly those of identifiers older than their `from`. |
| TimestampVerifier.BothImplementationsAgree | packages/anoncreds/src/anoncreds-rs/utils.ts:30-104 | For a given timestamp older than `from`, the second implementation succeeds if and only if the interval follows Aries RFC 0441 and the verifier accepts the timestamp, with the same override. |
| TimestampVerifier.UpToDateNeedsNoOverride | packages/anoncreds/src/anoncreds-rs/utils.ts:30-104 | For one that is not older, it makes no override and succeeds if and only if the interval follows that RFC and there is a list. |
| TimestampVerifier.MissingTimestampTakesTheLatest | packages/anoncreds/src/anoncreds-rs/utils.ts:36-64 | Without a timestamp it takes the list in force at the interval's `to`, unless a timestamp is demanded. |
| TimestampVerifier.WideIntervalIsRefusedOnce | packages/anoncreds/src/anoncreds-rs/utils.ts:42-43 | An interval of more than one moment: the verifier accepts the timestamp with an override, and the second implementation throws. |
| TimestampVerifier.HonestTimestampPassesExactlyWhen | packages/anoncreds/src/anoncreds-rs/AnonCredsRsVerifierService.ts:104-139 | A timestamp the holder chose for an interval passes the verifier if and only if no list was published after the end of that interval up to the `from` of the first restriction that asks for the identifier; it always passes if that restriction asks for the same interval. |
| TimestampVerifier.HonestProofVerifiesExactlyWhen | packages/anoncreds/src/anoncreds-rs/AnonCredsRsVerifierService.ts:70-145 | A proof all of whose timestamps were chosen so never makes the verifier throw, and for the groups of the request it is verified, with its overrides, if and only if that holds for each identifier; otherwise it is not verified. |
| TimestampVerifier.HonestAnswerIsRefused | packages/anoncreds/src/anoncreds-rs/AnonCredsRsVerifierService.ts:108-139 | Two groups with different intervals about one credential definition: the timestamp chosen for the second is judged by the `from` of the first, and the proof is not verified. |
| GreedyMatching.GreedyMatch | packages/anoncreds/src/utils/areRequestsEqual.ts:50-105 | The loop that finds and splices decides greedy matching. |
| GreedyMatching.GreedyExactlyWhenMatchable | packages/anoncreds/src/utils/areRequestsEqual.ts:50-105 | For every symmetric and transitive relation greedy matching succeeds if and only if a one-to-one pairing exists. |
| GreedyMatching.GreedyComparesKeys | packages/anoncreds/src/utils/areRequestsEqual.ts:50-105 | If elements are related exactly when they are proper and have the same key, greedy matching succeeds if and only if all are proper and both lists have the same multiset of keys. |
| GreedyMatching.MatchingIsSymmetricAndTransitive | packages/anoncreds/src/utils/areRequestsEqual.ts:50-105 | Matching is then symmetric and transitive. |
| GreedyMatching.ReplacingOneTellsApart | packages/anoncreds/src/utils/areRequestsEqual.ts:50-105 | If a wider relation holds between an element and a replacement, and a symmetric and transitive one does not, matching by the first accepts the list with the element replaced and matching by the second does not. |
| RequestEquality.ObjectsAreComparedByValue | packages/anoncreds/src/utils/areRequestsEqual.ts:5-24 | The two loops over keys decide equality of restrictions as maps. |
| RequestEquality.NamesAreComparedAsSets | packages/anoncreds/src/utils/areRequestsEqual.ts:26-41 | Names are equal if and only if neither list repeats a name and both are the same set; missing is empty. |
| RequestEquality.AreRestrictionsEqual | packages/anoncreds/src/utils/areRequestsEqual.ts:128-155 | As coded, the comparison of restriction lists decides inclusion. |
| RequestEquality.RestrictionsIncludedExactlyWhen | packages/anoncreds/src/utils/areRequestsEqual.ts:128-155 | That is: every restriction of the first list is in the second, and if one list is missing both are empty. |
| RequestEquality.RestrictionsComparedExactlyWhenDistinct | packages/anoncreds/src/utils/areRequestsEqual.ts:128-155 | It means equality with all lists that are no longer if and only if the first list has no duplicates, and it always accepts a longer list that starts with the first. |
| RequestEquality.AreAnonCredsProofRequestsEqual | packages/anoncreds/src/utils/areRequestsEqual.ts:43-114 | The comparison of requests is greedy matching of both kinds of groups, and the global interval. |
| RequestEquality.DocumentedEqualityIsMatching | packages/anoncreds/src/utils/areRequestsEqual.ts:43-114 | With the documented comparison of restrictions, requests are equal if and only if their groups can be paired, and equality is symmetric and transitive. |
| RequestEquality.DocumentedEqualityIsCanonical | packages/anoncreds/src/utils/areRequestsEqual.ts:43-126 | With the documented comparison, requests are equal if and only if no group names an attribute twice, the global intervals are equal, and both have the same multiset of groups, each taken as its name, set of names, interval and multiset of restrictions, or as name, type, value, interval and multiset. |
| RequestEquality.CodedEqualityIsInclusion | packages/anoncreds/src/utils/areRequestsEqual.ts:43-155 | As coded, requests that are equal have the same global interval, and their groups can be paired one to one with equal name, names, type, value and interval and with the restrictions of the first among those of the second. |
| RequestEquality.RequestsComparedExactlyWhenDistinct | packages/anoncreds/src/utils/areRequestsEqual.ts:43-155 | A request whose restriction lists have one length is compared as documented with all requests whose lists have that length, or at most that length, if and only if none of its lists has a duplicate or a group of it names an attribute twice, so that it equals no request either way. |
| RequestEquality.RequestsAlwaysComparedExactlyWhenUnrestricted | packages/anoncreds/src/utils/areRequestsEqual.ts:43-155 | A request is compared as documented with all requests whatsoever if and only if no group of it has a restriction list or one names an attribute twice. |
| RequestEquality.UniformRequestsComparedAsDocumented | packages/anoncreds/src/utils/areRequestsEqual.ts:43-155 | A request whose lists have one length and no duplicates is compared as documented with any request whose lists are no longer. |
| RequestEquality.CodedEqualityIsNotSymmetric | packages/anoncreds/src/utils/areRequestsEqual.ts:140-154 | Two requests that are equal one way and not the other. |
| RequestEquality.CodedEqualityDependsOnGroupOrder | packages/anoncreds/src/utils/areRequestsEqual.ts:140-154 | A request that differs from itself with its groups in another order. |
| RestrictionQuery.KeysAreRecognised | packages/anoncreds/src/models/AnonCredsRestriction.ts:135-143 | The expression recognises exactly the value and marker keys of non-empty names without colons, each as what it is. |
| RestrictionQuery.TransformToClass | packages/anoncreds/src/models/AnonCredsRestriction.ts:129-147 | The loop over the entries, in any order, collects exactly the attribute values and the markers set to 1. |
| RestrictionQuery.ParseAfterPrint | packages/anoncreds/src/models/AnonCredsRestriction.ts:109-152 | Round trip: parsing what was printed gives the values and markers back. |
| RestrictionQuery.AttributeTagsHaveOwnNames | packages/anoncreds/src/repository/AnonCredsCredentialRecord.ts:103-106 | Different attribute tags of either store have different names, and none has a property's name. |
| RestrictionQuery.GetTags | packages/anoncreds/src/repository/AnonCredsCredentialRecord.ts:91-109 | The loop tags the credential's properties, the raw value and the presence of each attribute, and nothing else. |
| RestrictionQuery.QueryFromRestrictions | packages/anoncreds/src/anoncreds-rs/AnonCredsRsHolderService.ts:689-783 | The loops compile each restriction to its elements, and several restrictions to alternatives. |
| RestrictionQuery.EmptyFieldsAreIgnored | packages/anoncreds/src/anoncreds-rs/AnonCredsRsHolderService.ts:689-721 | What is asked of each field, also of an empty one: that is ignored, except that an empty issuer id hides the DID given beside it. |
| RestrictionQuery.PropertyTagNames | packages/anoncreds/src/anoncreds-rs/AnonCredsRsHolderService.ts:694-779 | The names of the tags in either store. |
| RestrictionQuery.CompiledRestrictionIsExact | packages/anoncreds/src/anoncreds-rs/AnonCredsRsHolderService.ts:689-783 | In either store the compiled query matches the tags of a credential if and only if the credential satisfies the restriction. |
| RestrictionQuery.W3cQueryIsExact | packages/anoncreds/src/anoncreds-rs/AnonCredsRsHolderService.ts:629-665 | The whole query finds a record if and only if its credential has all requested attributes and satisfies at least one restriction. |
| RestrictionQuery.UnrestrictedQueryIsExact | packages/anoncreds/src/anoncreds-rs/AnonCredsRsHolderService.ts:592-665 | Without restrictions a record is found in the newer store if and only if its credential has all requested attributes, and in the legacy store if and only if none is requested. |
| RestrictionQuery.LegacyQueryIsExactOnlyWithoutAttributes | packages/anoncreds/src/anoncreds-rs/AnonCredsRsHolderService.ts:592-619 | The legacy query finds a record if and only if no attribute is requested and the credential qualifies; so it is right if and only if none is requested or the credential does not qualify. |
| RestrictionQuery.LegacyRecordIsNotFound | packages/anoncreds/src/anoncreds-rs/AnonCredsRsHolderService.ts:592-605 | Any credential with a requested attribute is found in the W3C store and not in the legacy store by a restriction that demands nothing. |
| RestrictionQuery.CompilersAgree | packages/anoncreds/src/anoncreds-rs/AnonCredsRsHolderService.ts:689-783 | The two compilers find the same credentials, each in its own store. |
| PresentationRequest.GetPredicateTypeAndValues | packages/anoncreds/src/anoncreds-rs/AnonCredsW3cCredentialService.ts:108-133 | The loop gives one bound for each numeric keyword, skips `type`, and fails at the first other keyword. |
| PresentationRequest.BoundsMeanTheFilter | packages/anoncreds/src/anoncreds-rs/AnonCredsW3cCredentialService.ts:108-133 | A number satisfies all bounds if and only if it is valid against every keyword of the filter. |
| PresentationRequest.ClaimName | packages/anoncreds/src/anoncreds-rs/AnonCredsW3cCredentialService.ts:135-148 | The claim is the rest of the first path under the credential subject, and there is none if and only if no path is. |
| PresentationRequest.PredicateReferentsDiffer | packages/anoncreds/src/anoncreds-rs/AnonCredsW3cCredentialService.ts:185-219 | Predicate referents are equal only for the same descriptor id and index, whatever characters ids contain. |
| PresentationRequest.ReferentsIdentify | packages/anoncreds/src/anoncreds-rs/AnonCredsW3cCredentialService.ts:184-239 | A referent tells its descriptor id, whether it is a predicate's, and which one. |
| PresentationRequest.ShapesAreNumbered | packages/anoncreds/src/anoncreds-rs/AnonCredsW3cCredentialService.ts:208-219 | The predicates of a descriptor, over all its fields, get different indexes. |
| PresentationRequest.PredicatesAreNumberedInOrder | packages/anoncreds/src/anoncreds-rs/AnonCredsW3cCredentialService.ts:208-219 | They are numbered from zero on, in their order and over all fields of the descriptor. |
| PresentationRequest.CreateAnonCredsProofRequestAndMetadata | packages/anoncreds/src/anoncreds-rs/AnonCredsW3cCredentialService.ts:150-246 | The nested loops write everything each mapping asks for, in order, collect each mapping's credential with the present moment if and only if its descriptor asks for an active status, and fail with the first error in the code's order. |
| PresentationRequest.IntervalsAreAsked | packages/anoncreds/src/anoncreds-rs/AnonCredsW3cCredentialService.ts:199-234 | What stands under the referent of every prove entry asks for the present moment if the descriptor asks for an active status, and for no interval otherwise. |
| PresentationRequest.ResolveFailsExactlyWhen | packages/anoncreds/src/anoncreds-rs/AnonCredsW3cCredentialService.ts:68-106 | The exact condition of each error of a mapping, in the code's order, for the first descriptor of its id: unknown, without fields, not extracted, not selected, a status that is not supported, or not revocable though it must be. |
| PresentationRequest.FieldsFailExactlyWhen | packages/anoncreds/src/anoncreds-rs/AnonCredsW3cCredentialService.ts:108-148 | The fields of a descriptor fail with what is wrong with the first wrong one: no path, or a predicate field with a claim that has no filter or whose filter has a keyword that is refused, the first of these. |
| PresentationRequest.SubmissionFailsExactlyWhen | packages/anoncreds/src/anoncreds-rs/AnonCredsW3cCredentialService.ts:173-243 | The whole submission fails with the error of the first mapping that fails. |
| PresentationRequest.PredicatesMeanTheClaimsAsked | packages/anoncreds/src/anoncreds-rs/AnonCredsW3cCredentialService.ts:150-246 | Every predicate to be proved is of a claim that is there and within its bound if and only if the claim of every mapped predicate field that the code reads one for is valid against the filter, and there if the filter has bounds; also when a descriptor is mapped twice. |
| PresentationRequest.RequestPreservesMeaning | packages/anoncreds/src/anoncreds-rs/AnonCredsW3cCredentialService.ts:150-246 | For given credentials, that is for any choice of which paths find something, and for all values: the predicates can be proved if and only if in every mapped predicate field the first path that finds anything finds a value that meets the filter, or none does and the field is optional. This is so if and only if every mapped predicate field is read well, or no values satisfy either. Read well means: for a filter that rejects some number, the claim compared is the first path that finds anything, or nothing is found and the field is not optional; if no claim is compared, nothing is found and the field is optional; for any other filter something is found or the field is optional. |
| PresentationRequest.RequestPreservesMeaningOfFullCredentials | packages/anoncreds/src/anoncreds-rs/AnonCredsW3cCredentialService.ts:135-246 | If every path finds something, the condition is that the first path of every mapped predicate field whose filter rejects some number is a claim path. |
| PresentationRequest.AbsentClaimIsAsked | packages/anoncreds/src/anoncreds-rs/AnonCredsW3cCredentialService.ts:135-148 | A field that takes a date of birth or an age, of at least 18, and a credential with an age of 20 only: the definition is met, and the predicate is asked of the missing date of birth. |
| PresentationRequest.LaterClaimIsRead | packages/anoncreds/src/anoncreds-rs/AnonCredsW3cCredentialService.ts:135-148 | A field that first names the place of the claim in another format is read well in a credential without that place. |
| PresentationRequest.IssuerAgeIsDropped | packages/anoncreds/src/anoncreds-rs/AnonCredsW3cCredentialService.ts:135-222 | A definition that asks for an issuer of at least 18 gives an empty request, which holds for an issuer of 17. |
| PresentationRequest.ProofsPointAtTheirCredentials | packages/anoncreds/src/anoncreds-rs/AnonCredsW3cCredentialService.ts:68-92 | Every prove entry is asked for by one mapping and its index is in range and points at the credential that the mapping's path extracts. |
| PresentationRequest.RestrictedToOwnExactlyWhenRepeatsAgree | packages/anoncreds/src/anoncreds-rs/AnonCredsW3cCredentialService.ts:208-239 | Every referent is restricted to the credential definition of the credential that proves it if and only if mappings that repeat a descriptor that asks for anything select credentials of one definition. |
| PresentationRequest.RepeatedDescriptorNamesAnotherDefinition | packages/anoncreds/src/anoncreds-rs/AnonCredsW3cCredentialService.ts:208-239 | One descriptor mapped to credentials of two definitions: the request is made, and a prove entry is restricted to the definition of the other credential. |
| PresentationRequest.NamesAreTheClaims | packages/anoncreds/src/anoncreds-rs/AnonCredsW3cCredentialService.ts:224-239 | Under a descriptor's attribute referent stand the claims its fields ask for, in order, once for each mapping of it. |
| ProofEntries.AddEntries | packages/anoncreds/src/anoncreds-rs/AnonCredsRsHolderService.ts:201-248 | The loops give one entry for each different pair, in order of appearance, and one prove item for each referent; they fail if and only if some pair cannot be looked up. |
| ProofEntries.CreateProofEntries | packages/anoncreds/src/anoncreds-rs/AnonCredsRsHolderService.ts:200-252 | Attributes before predicates; all entries share the link secret that is returned, and it fails for differing ones only if no one link secret fits all. |
| ProofEntries.EveryReferentIsProved | packages/anoncreds/src/anoncreds-rs/AnonCredsRsHolderService.ts:201-248 | There is a prove item for each attribute and then for each predicate, in order, for its referent; an attribute is disclosed if and only if it is to be revealed. |
| ProofEntries.KeysAreDistinctAndComplete | packages/anoncreds/src/anoncreds-rs/AnonCredsRsHolderService.ts:201-248 | The pairs that get an entry are distinct and exactly those selected. |
| ProofEntries.ProveItemsPointAtTheirOwn | packages/anoncreds/src/anoncreds-rs/AnonCredsRsHolderService.ts:201-248 | Each prove item points in range, at the entry for its own credential and timestamp. |
| ProofEntries.EntriesAreSharedExactlyWhen | packages/anoncreds/src/anoncreds-rs/AnonCredsRsHolderService.ts:201-248 | Two referents share an entry if and only if credential and timestamp are the same. |
| ProofEntries.EntriesAreDistinctAndUsed | packages/anoncreds/src/anoncreds-rs/AnonCredsRsHolderService.ts:201-248 | Entries are pairwise distinct and each is pointed at. |
| Decimal.ParseAfterPrint | packages/anoncreds/src/utils/credential.ts:60 | Reading a printed number gives it back, so numbers that print alike are equal. |
| Decimal.PrintAfterParse | packages/anoncreds/src/utils/credential.ts:60 | Printing what was read from a numeral without leading zeros gives it back. |
| Decimal.NumericExactlyWhen | packages/anoncreds/src/utils/credential.ts:17 | The numeric strings are those of digits, and those of digits after a minus. |
| Encoding.OrFillsShiftedZeros | packages/anoncreds/src/utils/bytesToBigint.ts:8 | Or-ing bits into the zeros of a shifted number adds them. |
| Encoding.BytesToBigint | packages/anoncreds/src/utils/bytesToBigint.ts:1-12 | Shift and or compute the big-endian base-256 value; the empty array is refused. |
| Encoding.ValueBound | packages/anoncreds/src/utils/bytesToBigint.ts:1-12 | The value of n bytes is below 256 to the n. |
| Encoding.ValueIsInjective | packages/anoncreds/src/utils/bytesToBigint.ts:1-12 | Byte strings of one length have different values. |
| Encoding.GenerateNonce | packages/anoncreds/src/anoncreds-rs/AnonCredsRsHolderService.ts:90-94 | The nonce of a holder is a numeral below 2 to the 80 whose value is that of the ten random bytes. |
| Encoding.NoncesDiffer | packages/anoncreds/src/anoncreds-rs/AnonCredsRsHolderService.ts:90-94 | Different random bytes give different nonces. |
| Encoding.NonceOfChallenge | packages/anoncreds/src/anoncreds-rs/AnonCredsW3cCredentialService.ts:162-163 | The nonce of a challenge is a numeral below 2 to the 80 that starts the numeral of the hash. |
| Encoding.EncodeCredentialValue | packages/anoncreds/src/utils/credential.ts:39-76 | The encoding is the numeral of the integer the value stands for, or else of its hash. |
| Encoding.EncodedAsSpecified | packages/anoncreds/src/utils/credential.ts:39-76 | Per Aries RFC 0036: true is 1 and false 0, an int32 or a string that spells one is itself, and anything else is the number of its hash, nothing at all being hashed as "None". |
| Encoding.EncodingIsIdempotentOnIntegers | packages/anoncreds/src/utils/credential.ts:53-61 | Encoding the encoding of a boolean, an int32 or an int32 string gives the same. |
| Encoding.EncodingsAgreeExactlyWhen | packages/anoncreds/src/utils/credential.ts:39-76 | Two values are encoded alike if and only if they stand for the same integer, or neither for one and their hashes are equal, or one stands for the number the other's hash is. |
| Encoding.EncodingReadsAsInt32ExactlyWhen | packages/anoncreds/src/utils/credential.ts:39-76 | An encoding reads as an int32 again if and only if the value was one or its hash is that small. |
| Encoding.SpellingsOfAnInteger | packages/anoncreds/src/utils/credential.ts:53-61 | A leading zero does not change the encoding of a decimal int32, and a leading minus negates it, so the sign of zero is lost. |
| StorageMigrator.AskarToDrizzleStorageMigrator.MigrateBatch | packages/askar-to-drizzle-storage-migration/src/AskarToDrizzleStorageMigrator.ts:268-311 | The loop writes or skips the records up to the first that makes it throw, because it cannot be read, has no adapter while that is not allowed, or cannot be written; in order, and counting both. |
| StorageMigrator.WrittenExactlyWhen | packages/askar-to-drizzle-storage-migration/src/AskarToDrizzleStorageMigrator.ts:293-306 | Of the records processed, the storage version record is updated, every other one with an adapter is inserted, and nothing else is written. |
| StorageMigrator.AskarToDrizzleStorageMigrator.MigrateForContext | packages/askar-to-drizzle-storage-migration/src/AskarToDrizzleStorageMigrator.ts:239-333 | What is written, counted and freed on every exit, for every scan and every failure. |
| StorageMigrator.MigrationConservesRecords | packages/askar-to-drizzle-storage-migration/src/AskarToDrizzleStorageMigrator.ts:250-325 | Migrated and skipped records add up to the records scanned on a normal return and to those processed otherwise; none is skipped unless that is allowed. |
| StorageMigrator.ScannedRecordsAreProcessed | packages/askar-to-drizzle-storage-migration/src/AskarToDrizzleStorageMigrator.ts:250-325 | The records processed are all scanned ones on a normal return, and always the first ones. |
| StorageMigrator.ReturnsNormallyExactlyWhen | packages/askar-to-drizzle-storage-migration/src/AskarToDrizzleStorageMigrator.ts:250-333 | A migration returns normally if and only if no fetch fails, every record can be read and written or skipped, and no free call throws. |
| StorageMigrator.HandlesAreFreedOnceExactlyWhen | packages/askar-to-drizzle-storage-migration/src/AskarToDrizzleStorageMigrator.ts:313-333 | On every exit each batch handle and then the scan handle is freed exactly once if and only if no free call made for a batch throws. |
| StorageMigrator.ScanIsFreedExactlyWhen | packages/askar-to-drizzle-storage-migration/src/AskarToDrizzleStorageMigrator.ts:326-333 | The scan handle is freed if and only if the free call on the way out for the batch still held, if there is one, does not throw; that call may answer otherwise than an earlier one for the same batch. |
| StorageMigrator.ThrowingReleaseIsRepeated | packages/askar-to-drizzle-storage-migration/src/AskarToDrizzleStorageMigrator.ts:313-333 | A batch whose release throws is released again, and if that throws too the scan handle is not released. |

## Left out

- Cryptography, key management, native handles and ledgers: encryption is symbolic, hashes and registries are parameters.
- Interleavings on objects: `StoreManager`, `FirstMessage` (but for one call alone) and `RevocationFill` model the shared objects as one value that each step replaces.
- Racing calls within one agent's Action Menu service, its events, forms and disabled options: a service call is one step.
- Deleting, exporting and importing a store, store files, tenants and their profiles; a delete that overlaps an open also unregisters whatever is registered.
- StoreManager.OverlappingClosesLeak: a native close of a store that another close already closed may succeed or fail, so the run that leaks relies on one that succeeds.
- FirstMessage.MessageReceiver.CreateFirstMessageConnection: that the rotation before the loop fails, which is the case without a rotated DID, and that cleanup fails, which is only logged.
- FirstMessage.OneConnectionPerPair: connections are not deleted and never move back onto a DID they left, as a deletion or a return would free or repeat an id on the chain.
- The search for an existing connection and for invitations before a first message.
- TransportSessions.DidCommTransportService.FindSessionByConnectionId: session ids that read as array indexes, which JavaScript would list first; ids are UUIDs.
- MessageSender.DidCommMessageSender.Hand: that a channel takes a message and that the status of it is emitted are one step, so a status that is lost after a delivery is not modelled.
- MessageSender.DidCommMessageSender.SendOutboundMessage: what a channel answers depends only on its service, so two services that are equal in every field answer alike.
- Events of the transport service, session keys, and closing of sessions.
- Looking up our own key for a recipient, in DIDs, mediation and invitation records: an agent is the set of keys it finds.
- DIDComm v2 envelopes and the fallback to v1 when packing fails: a channel accepts a message or not.
- ServiceOrder.OrderedIsTheStableOrder: sorting is modelled as an insertion sort, as the language promises only that its sort is stable.
- TimestampVerifier.VerifyTimestamps: as in the code only the `from` of the first related restriction counts, and registries that publish lists out of order or at time zero are not considered.
- RevocationFill.NoInterleavingLosesAListExactlyWhen: for every referent the registry has a list to fetch, as a missing one makes the whole call throw; downloads of tails files are steps without a result.
- RestrictionQuery.W3cQueryIsExact: restriction lists are not empty, fields are not empty strings (what those do is `EmptyFieldsAreIgnored`) and attribute names have no colon, and `rev_reg_id`, which the code ignores, is not a field; extra queries of a caller and the storage's own encoding of tags are not modelled.
- PresentationRequest.RequestPreservesMeaning: filter values and claims are integers; JSONPath evaluation is a parameter, which paths find something and what, and paths that are written differently are taken to find different values; no field lists the bare prefix `$.credentialSubject.`, which is no JSONPath; whether attributes that are only revealed meet a filter is not looked at, as in the code.
- Encoding.EncodeCredentialValue: floating-point numbers and objects are known by the string they convert to.
- Decorators, dependency injection, logging, module registration and repositories, which are thin wrappers.
