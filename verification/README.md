# Access, LLM and cognition cores in Dafny

A model of the stateful cores of the repository, with proofs about whole runs:

- **Access layer.** The result replay cache (`LruSpec`, `ReplayCache`), the admission controller
  (`AdmissionSpec`, `Signatures`, `Admission`), base64url, SHA-256, HMAC and ownership tokens (`Base64Url`, `Sha256`,
  `Sha256Facts`, `Hmac`, `OwnershipToken`), the asynchronous receipt registry (`AsyncRegistrySpec`, `AsyncRegistry`),
  the submit pipeline from validation to receipt (`RequestChecks`, `SubmitSpec`, `SubmitRepeats`, `SubmitExample`,
  `SubmitPipeline`) and its interleaved runs (`SubmitRuns`, `SubmitReceipts`, `SubmitRunExamples`), the knowledge
  payload (`KnowledgePayload`) and the gateway's lifecycle (`Gateway`).
- **LLM layer.** The concurrency permit (`Permit`), the retry loop and the fallback chain over routes
  (`LLMResults`, `CallExecutor`, `RouteChain`) and the token estimator (`Scanning`, `TokenEstimator`).
- **Cognition layer.** The decision pipeline (`DecisionSpec`, `DecisionFacts`, `DecisionPipeline`) and replay text
  (`ReplayText`).

`Wrappers`, `Widths`, `Threads`, `ByteText`, `Splitting`, `UniqueLists` and `AccessTypes` are shared.

## How it is built

Objects whose methods update fields are classes, and their methods are proved to step a state machine on values; the
theorems over runs are about that state machine. Loops stay loops, each proved against a recursive definition. A C++
string is a sequence of bytes; 32-bit and 64-bit counters wrap around where the code's do. Clock readings, adapters,
routers, validators, perception, planning, the policy gate and the runtime backend are parameters that may answer
anything. Concurrent parts (`Permit`, `Gateway`, `SubmitRuns`) are state machines over atomic steps of unboundedly
many threads.

Every method is tied to a specification function, and the lemmas say what that function means on the inputs alone:
when a candidate answers (`ResponseExactly`), when an attempt is repeated (`OneLast`), when the pipeline asks, decides
or fails (`DecisionFacts`), what a query finds (`QueryLives`), which requests share a signature (`SignatureExactly`).

`dafny verify dfyconfig.toml` checks everything.

## Where a natural property fails

Each has a lemma with the failing case, and the exact condition is proved beside it.

- A ticket may outlive its window, and then a second one of its signature is in flight with it
  (`LateTicketDoubles`). `SingleFlightExactly`: this happens exactly in the runs where a signature is asked for, with
  room for the request, while a live ticket of it is past its window.
- A release lets its signature in again inside the window (`ReleaseReopens`). `SpacingExactly`: a request inside the
  window is admitted exactly when there is room and a release in between found the record not completed. The submit
  pipeline never gets there (`NeverReleased`, `SubmitRuns.NoneGivesBack`).
- Two submissions can share a signature when a bar stands in their parts (`BarCollides`). `SignatureExactly`: without
  bars before the key they share one exactly when entry type, protocol, actor and key are equal; `UnsharedExactly` says
  for which requests no other submission at all can have theirs.
- The first caller and a repeat inside the window can be told different receipt ids (`EmptyReceiptDisagrees`) and
  different dispositions (`RejectedIsReplayedAccepted`, `KeylessIsReplayedAccepted`). `AgreementExactly`: the ids agree
  exactly when an accepted reply met a valid key and has a non-empty reference, or another reply has a reference; the
  dispositions agree exactly when the reply was accepted and met a valid key.
- A late completion of an older ticket puts its receipt into the record of a newer one (`LateReceipt`). `WindowAnswer`
  holds in windows no other ticket of the signature completes in, and `NoOlderTicket` says when there is none.
- Interleaved dispatches of one signature can come at once, when a thread is delayed between admission and dispatch
  (`DelayedDispatches`). `DelayedSpacing` and `DispatchesApart` give the bound that remains, and it is attained.
- Between completion and attachment a repeat is told an id the registry does not hold (`ReplayBeforeAttach`). It holds
  exactly the ids attached so far (`RegisteredExactly`), and `AttachedAsLeft` says when that is the id replayed.
- An execution result can be inconsistent (`BrokenReplyIsInconsistent`, `WrappedCounterIsInconsistent`), exactly when
  the reply of the adapter is, or the call counter of a success wrapped to zero (`ExecutionConsistent`).
- The 32-bit budget comparison can pass a sum over budget (`WrappedSumPasses`). `OverBudgetExactly` says when it is
  the true one.
- More permits than the bound can be live after an init that lowers it (`LoweredBound`), exactly while a thread that
  was passed the larger bound is still on its way (`BoundExactly`). An init with a permit live breaks the count
  (`ImproperInit`, `StepCounts`).
- A manager result can be inconsistent (`RejectedCallIsInconsistent`), exactly when the governed call request fails
  validation (`GenerateConsistent`).
- Two shutdown threads can move the gateway's status back (`TwoStoppersGoBack`). `ShutDownIsFinal` and
  `NeverBackExactly` state when no continuation can, `ForwardExactly` when none with one shutdown thread can.
- Counts of two parts of a text need not add up (`CutCharacter`). They do for every continuation exactly when the
  first part does not end inside a character (`CountsAddExactly`).
- The constant-time comparison takes a token followed by 256 zero bytes for the token, so that string validates too
  (`PaddedTokenHolds`). `SameExactly`: against a string without zero bytes it accepts exactly the extensions by
  multiples of 256 zero bytes, and `HoldsExactly` and `TokenLives` are stated for all strings with that.

## Model

| member | source | states |
|---|---|---|
| LruSpec.ApplyKeeps | access/src/ResultReplayCache.cpp:11-104 | every operation keeps the recency list free of repeated keys and within capacity |
| LruSpec.RunKeeps | access/src/ResultReplayCache.cpp:11-104 | so does every run from an empty cache |
| LruSpec.InclusionStep | access/src/ResultReplayCache.cpp:11-104 | one operation on capacities c and c+1 keeps the smaller list the larger one without at most one item, and every hit of the smaller is the same hit of the larger |
| LruSpec.Inclusion | access/src/ResultReplayCache.cpp:11-104 | the same over whole runs: the inclusion property of LRU between neighbouring capacities |
| LruSpec.FreshInclusion | access/src/ResultReplayCache.cpp:5-104 | the same from two fresh caches, including the capacity argument 0 that the constructor raises to 1 |
| LruSpec.MoreRoomKeepsHits | access/src/ResultReplayCache.cpp:11-104 | no hit is lost by giving the cache any larger capacity |
| LruSpec.CachedIsLastPut | access/src/ResultReplayCache.cpp:11-104 | after any run a cached item is the last put of its key, with the expiry of that put |
| LruSpec.HitIsLastPut | access/src/ResultReplayCache.cpp:35-51 | a lookup only ever returns the envelope last put and not erased since, before its expiry |
| LruSpec.Survival | access/src/ResultReplayCache.cpp:23-51 | an entry stays retrievable with its last envelope until its time to live or an erase, while fewer than capacity distinct other keys were put or hit since its own last put or hit |
| LruSpec.SweptOne | access/src/ResultReplayCache.cpp:66-82 | sweeping the map in any order, one key at a time, amounts to one more key of the list filter |
| ReplayCache.SameKeys | access/src/ResultReplayCache.cpp:11-104 | while list and map are in step the list holds exactly the keys of the map, and as many |
| ReplayCache.UnlinkKeeps | access/src/ResultReplayCache.cpp:43-46 | erasing the node an entry's iterator points to, and the entry, removes exactly that item and leaves every other iterator valid |
| ReplayCache.LinkKeeps | access/src/ResultReplayCache.cpp:23-30 | pushing a node in front with its entry adds one item in front and leaves every other iterator valid |
| ReplayCache.ResultReplayCache.TouchLru | access/src/ResultReplayCache.cpp:89-93 | in place: the item moves to the front unchanged |
| ReplayCache.ResultReplayCache.EvictIfNeeded | access/src/ResultReplayCache.cpp:95-104 | in place: the list is cut to the capacity; the loop runs once for each item over it |
| ReplayCache.ResultReplayCache.PutEnvelope | access/src/ResultReplayCache.cpp:11-33 | refines the list specification; the eviction loop runs at most once and the new key is in front afterwards |
| ReplayCache.ResultReplayCache.LookupEnvelope | access/src/ResultReplayCache.cpp:35-51 | refines the list specification, result included; an expired entry is dropped |
| ReplayCache.ResultReplayCache.EraseKey | access/src/ResultReplayCache.cpp:53-64 | refines the list specification; true exactly when the key was there |
| ReplayCache.ResultReplayCache.EvictExpired | access/src/ResultReplayCache.cpp:66-82 | refines the filter of the list with one clock reading per key; the count is the number of items gone |
| AdmissionSpec.Reachable | access/src/AdmissionController.cpp:14-81 | in every reachable state each record is exactly one of in flight on a live ticket of its signature or completed with a receipt; tickets in flight equal admits minus effective settlements and never exceed the maximum |
| AdmissionSpec.NoAnswerMeansNoLiveRecord | access/src/AdmissionController.cpp:101-133 | in sound states the idempotency check is silent exactly when there is no record or its window is over: its last return needs no live record |
| AdmissionSpec.TicketsNeverRepeat | access/src/AdmissionController.cpp:135-145 | two admits of one run never issue the same ticket name |
| AdmissionSpec.RecordStays | access/src/AdmissionController.cpp:38-49 | while no release finds its record open, the record of an admit guards its signature until the window is over, even when older tickets complete late |
| AdmissionSpec.Spacing | access/src/AdmissionController.cpp:14-55 | over whole runs with a clock that never goes back, two admits of one signature are more than the window apart when no release between them reopened the signature |
| AdmissionSpec.SpacingExactly | access/src/AdmissionController.cpp:14-55 | a request inside the window of the last admit of its signature is admitted exactly when there is room and a release in between found the record of the signature not completed |
| AdmissionSpec.ReleaseReopens | access/src/AdmissionController.cpp:147-161 | the failing case: a release before completion lets the same signature in again at once |
| AdmissionSpec.SingleFlightExactly | access/src/AdmissionController.cpp:14-81 | in a run every signature has at most one ticket in flight at all times exactly when no request of a signature that finds room comes while a live ticket of that signature is past its window |
| AdmissionSpec.SingleFlight | access/src/AdmissionController.cpp:14-81 | so it has when every ticket settles inside its window |
| AdmissionSpec.LateTicketDoubles | access/src/AdmissionController.cpp:14-55 | the failing case: a ticket that outlives its window lets a second one of the same signature in beside it |
| AdmissionSpec.WindowStable | access/src/AdmissionController.cpp:62-81 | inside its window, while nothing reopens its signature and no other ticket of that signature completes, the record of an admit stays fixed by that admit and the completion of its ticket |
| AdmissionSpec.WindowAnswer | access/src/AdmissionController.cpp:101-133 | so every later request of the signature inside the window gets the conflict or the same replay receipt, or the capacity refusal |
| AdmissionSpec.NoOlderTicket | access/src/AdmissionController.cpp:62-81 | a window is undisturbed in that sense when its admit found no older ticket of the signature in flight and nothing reopens the signature, whatever other signatures do |
| AdmissionSpec.LateReceipt | access/src/AdmissionController.cpp:62-81 | the failing case: an older ticket completing late puts its receipt into the newer record, and repeats are told it while the newer ticket is in flight |
| Admission.SignatureEmpty | access/src/AdmissionController.cpp:83-99 | the signature is empty exactly without an idempotency key and without packet id or actor |
| Admission.SignatureExactly | access/src/AdmissionController.cpp:83-99 | two requests with signatures share one exactly when entry type, protocol, actor and effective key are all equal, as long as no bar stands before the key in either |
| Admission.UnsharedExactly | access/src/AdmissionController.cpp:83-99 | of all requests only those with the same four parts share the signature of a request, exactly when no bar stands in its parts but perhaps as the last byte of the key |
| Admission.BarCollides | access/src/AdmissionController.cpp:83-99 | the failing case: with a bar in an actor's name two actors get one signature |
| Admission.TicketNamesDistinct | access/src/AdmissionController.cpp:135-145 | printed ticket names are distinct for distinct counters |
| Admission.AdmissionController.PruneExpiredRecords | access/src/AdmissionController.cpp:163-173 | erasing stale records one by one in any order leaves exactly those that are not stale |
| Admission.AdmissionController.AdmitRequest | access/src/AdmissionController.cpp:14-55 | steps the admission state machine, answer included |
| Admission.AdmissionController.ReleaseTicket | access/src/AdmissionController.cpp:147-161 | steps the state machine: the ticket goes, and the record of its signature unless completed |
| Admission.AdmissionController.RecordCompletion | access/src/AdmissionController.cpp:62-81 | steps the state machine: the record completes with the receipt of the result or the default one |
| Base64Url.DecodeEncode | access/src/AsyncTaskRegistry.cpp:161-213 | decoding an encoding gives the bytes back, for every byte sequence |
| Base64Url.DecodeDefined | access/src/AsyncTaskRegistry.cpp:184-213 | decoding succeeds exactly when every character is in the alphabet and the length modulo 4 is not 1 |
| Base64Url.EncodeDecode | access/src/AsyncTaskRegistry.cpp:161-213 | encoding a decoded text gives it back exactly when its leftover bits are zero |
| Base64Url.EncodeLength | access/src/AsyncTaskRegistry.cpp:161-182 | the length of unpadded base64url |
| Base64Url.EncodeInAlphabet | access/src/AsyncTaskRegistry.cpp:161-182 | encodings hold alphabet characters only, so no dot and no zero byte |
| Base64Url.EncodeLoop | access/src/AsyncTaskRegistry.cpp:161-182 | the three-byte loop computes the block encoding of section 5 of RFC 4648 without padding |
| Base64Url.BuildDecodeTable | access/src/AsyncTaskRegistry.cpp:186-190 | the filled table maps each alphabet character to its value and everything else to -1 |
| Base64Url.StreamDecodes | access/src/AsyncTaskRegistry.cpp:194-212 | a bit stream that keeps only the undelivered bits decodes like the four-character blocks |
| Base64Url.AccumulatorStep | access/src/AsyncTaskRegistry.cpp:201-207 | the accumulator that is never masked emits the same byte and keeps the same live bits as the masked one: its 32-bit wrap-around never matters |
| Base64Url.DecodeLoop | access/src/AsyncTaskRegistry.cpp:184-213 | the accumulator loop computes the block decoding, failures included |
| Sha256Spec.PaddedLength | access/src/AsyncTaskRegistry.cpp:85-93 | the padded length is the least multiple of 64 that is at least n+9 |
| Sha256Spec.PadInjective | access/src/AsyncTaskRegistry.cpp:85-93 | no two messages pad alike |
| Sha256Spec.LengthField | access/src/AsyncTaskRegistry.cpp:86-93 | below 2^61 bytes the last eight bytes are the exact bit length, big-endian |
| Sha256Spec.LoadStore | access/src/AsyncTaskRegistry.cpp:103-109 | storing a word big-endian and loading it gives it back |
| Sha256Facts.ChooseExactly | access/src/AsyncTaskRegistry.cpp:44-48 | where the first word has ones the second is chosen, where it has zeros the third, bit by bit |
| Sha256Facts.MajorityExactly | access/src/AsyncTaskRegistry.cpp:50-54 | where two words agree the majority agrees with them, bit by bit |
| Sha256Facts.SigmasRotate | access/src/AsyncTaskRegistry.cpp:39-74 | the sigmas are the sums of rotations and shifts of section 4.1.2 of FIPS 180-4 |
| Sha256Facts.ConstantsAreCubeRoots | access/src/AsyncTaskRegistry.cpp:23-37 | each round constant is the first 32 bits of the fractional part of the cube root of its prime |
| Sha256Facts.InitialIsSquareRoots | access/src/AsyncTaskRegistry.cpp:95-98 | the initial hash value likewise, of square roots |
| Sha256.PadLoop | access/src/AsyncTaskRegistry.cpp:85-93 | the two padding loops append exactly the padding of section 5.1.1 of FIPS 180-4 |
| Sha256.FillSchedule | access/src/AsyncTaskRegistry.cpp:100-114 | the schedule filled in place is the recursive message schedule |
| Sha256.Rotate | access/src/AsyncTaskRegistry.cpp:116-140 | the eight-variable rotation computes the recursive 64 rounds |
| Sha256.HashBlocks | access/src/AsyncTaskRegistry.cpp:95-149 | the block loop, adding into the hash value in place, computes the block recursion of section 6.2.2 of FIPS 180-4 |
| Sha256.WriteDigest | access/src/AsyncTaskRegistry.cpp:151-158 | the digest array holds the words of the hash value, most significant byte first |
| Sha256.Digest | access/src/AsyncTaskRegistry.cpp:84-159 | the whole function equals the recursive SHA-256 on every input |
| Hmac.Sign | access/src/AsyncTaskRegistry.cpp:227-259 | the three buffers filled in place compute HMAC of section 2 of RFC 2104 over SHA-256, in base64url |
| HmacSpec.ZeroExtendedKeys | access/src/AsyncTaskRegistry.cpp:229-240 | a key and the same key extended by zero bytes within a block sign alike |
| HmacSpec.SignatureShape | access/src/AsyncTaskRegistry.cpp:227-259 | a signature is 43 alphabet characters, without dot and zero byte |
| ByteText.SignedRoundTrip | access/src/AsyncTaskRegistry.cpp:261-270 | a printed 64-bit number parses back to itself |
| ByteText.SignedParse | access/src/AsyncTaskRegistry.cpp:261-270 | a parsed number prints as the text it came from exactly when the text has no leading zero and is not minus zero |
| OwnershipToken.TokenRoundTrip | access/src/AsyncTaskRegistry.cpp:284-338 | for all field values and 64-bit timestamps, a built payload plus a dot plus a dot-free signature parses to the fields, version, signature and exactly the signed payload |
| OwnershipToken.ReadableExactly | access/src/AsyncTaskRegistry.cpp:284-338 | what is appended to a payload makes a readable token exactly when it holds no dot |
| OwnershipToken.PayloadInjective | access/src/AsyncTaskRegistry.cpp:326-338 | different fields never print the same payload |
| OwnershipToken.ParsedCoversToken | access/src/AsyncTaskRegistry.cpp:284-324 | any readable token is its signed payload, a dot and its dot-free signature |
| OwnershipToken.ReprintsExactly | access/src/AsyncTaskRegistry.cpp:284-338 | printing the fields of a readable token gives its signed payload exactly when version, numbers and base64url parts are in printed form |
| OwnershipToken.SplitLoop | access/src/AsyncTaskRegistry.cpp:286-301 | the loop over eight slots returns the parts between dots exactly when there are eight |
| OwnershipToken.ParseToken | access/src/AsyncTaskRegistry.cpp:284-324 | the parser computes the parse of the specification |
| Splitting.SplitJoin | access/src/AsyncTaskRegistry.cpp:286-301 | splitting undoes joining on parts without the separator |
| Splitting.JoinSplit | access/src/AsyncTaskRegistry.cpp:286-301 | joining undoes splitting on every text |
| AsyncRegistrySpec.SameExactly | access/src/AsyncTaskRegistry.cpp:576-593 | against a string without zero bytes, the left one, exactly that string and its extensions by multiples of 256 zero bytes compare as the same |
| AsyncRegistrySpec.SameIsEqual | access/src/AsyncTaskRegistry.cpp:576-593 | the comparison is equality on strings without zero bytes and on strings shorter than 256 bytes |
| AsyncRegistry.ConstantTimeEquals | access/src/AsyncTaskRegistry.cpp:576-593 | the loop decides exactly: equal up to trailing zero bytes, with lengths equal modulo 256 |
| AsyncRegistrySpec.RunHonest | access/src/AsyncTaskRegistry.cpp:381-544 | every receipt any run stores is under its own id and carries a token some valid key signed for its receipt, actor and request |
| AsyncRegistrySpec.HoldsExactly | access/src/AsyncTaskRegistry.cpp:454-493 | of all strings, a token passes the checks exactly when it is the stored one up to a multiple of 256 zero bytes at its end, for the right actor, inside its printed time, with a key under its key id that signs as the issuing key did |
| AsyncRegistrySpec.PaddedTokenHolds | access/src/AsyncTaskRegistry.cpp:454-493 | the failing case of equality: a stored token followed by 256 zero bytes, or any multiple, passes the checks exactly when the stored token does |
| AsyncRegistrySpec.RunKeeps | access/src/AsyncTaskRegistry.cpp:421-516 | a receipt that is not registered again lives unchanged but for its status through every run that ends before its expiry |
| AsyncRegistrySpec.TokenLives | access/src/AsyncTaskRegistry.cpp:381-544 | over every run with rotations, queries and completions, the issued token validates exactly until either clock expires it or a rotation leaves no key that signs alike under its key id; of all other strings only the token with multiples of 256 zero bytes appended does |
| AsyncRegistrySpec.OneToken | access/src/AsyncTaskRegistry.cpp:439-493 | in every honest state all tokens that validate for a receipt are for one actor and are the stored token up to that padding, so at most one is free of zero bytes |
| AsyncRegistrySpec.QueryLives | access/src/AsyncTaskRegistry.cpp:421-437 | after a registration and any run that does not overwrite it a query finds the receipt exactly while its lifetime lasts, as issued, with the status of the last mark of the run; from then on it finds none and the state has forgotten the id |
| AsyncRegistrySpec.MarkLives | access/src/AsyncTaskRegistry.cpp:495-516 | a mark succeeds exactly while the lifetime lasts, and then stores its status and leaves the rest of the receipt as issued |
| AsyncRegistrySpec.Registered | access/src/AsyncTaskRegistry.cpp:381-419 | what a registration stores and returns, and that it changes no other receipt; without a valid key nothing |
| AsyncRegistry.AcceptExactly | access/src/AsyncTaskRegistry.cpp:381-419 | which ids, session and task an accepted result registers |
| AsyncRegistrySpec.GraceAfterRotation | access/src/AsyncTaskRegistry.cpp:472-484 | a rotation that keeps the old key as previous under a new key id ends no token; under the same id it does unless both keys sign alike |
| AsyncRegistry.HmacIsGood | access/src/AsyncTaskRegistry.cpp:486-492 | the signatures of the source meet what the registry theorems ask of a signer |
| AsyncRegistry.AsyncTaskRegistry.constructor | access/src/AsyncTaskRegistry.cpp:362-379 | invalid keys are dropped and a lifetime of zero or less becomes ten minutes; the state is honest |
| AsyncRegistry.AsyncTaskRegistry.RegisterAsyncAccept | access/src/AsyncTaskRegistry.cpp:381-419 | steps the registry: only accepted results with a valid key store a receipt |
| AsyncRegistry.AsyncTaskRegistry.PruneExpiredLocked | access/src/AsyncTaskRegistry.cpp:599-613 | erasing in any order leaves exactly the unexpired receipts; the count is how many went |
| AsyncRegistry.AsyncTaskRegistry.QueryReceipt | access/src/AsyncTaskRegistry.cpp:421-437 | steps the registry; an expired receipt is reported and erased |
| AsyncRegistry.AsyncTaskRegistry.ValidateOwnership | access/src/AsyncTaskRegistry.cpp:439-493 | steps the registry with its clock readings and answers as the specification does |
| AsyncRegistry.AsyncTaskRegistry.MarkCompleted | access/src/AsyncTaskRegistry.cpp:495-516 | steps the registry; only the status of a live receipt changes |
| AsyncRegistry.AsyncTaskRegistry.RotateOwnershipKeys | access/src/AsyncTaskRegistry.cpp:536-544 | steps the registry; invalid keys are dropped |
| AsyncRegistry.AsyncTaskRegistry.Size | access/src/AsyncTaskRegistry.cpp:523-529 | prunes first, then counts the receipts that are left |
| RequestChecks.Validate | access/src/RequestValidator.cpp:27-70 | no error exactly when every rule on ids, protocol, sizes and context holds at once |
| RequestChecks.ErrorsExactly | access/src/RequestValidator.cpp:27-70 | each error code, by the first rule that is broken |
| RequestChecks.ValidateHeaders | access/src/RequestValidator.cpp:100-143 | the loop over the context in any order accepts exactly the contexts whose entries are all well formed |
| RequestChecks.ValidatePacket | access/src/RequestValidator.cpp:27-70 | the checks in their order, with their loops, give the first error that applies |
| RequestChecks.ProjectHeaders | access/src/AccessGatewayFactory.cpp:278-285 | copying the headers in any order overrides the context by exactly the non-empty ones |
| RequestChecks.ReplyCarriesIds | access/src/RuntimeBridge.cpp:97-108 | a mapped reply carries the three ids of its request in its response context |
| RequestChecks.NormalExactly | access/src/RequestNormalizer.cpp:28-110 | a request normalizes exactly when it is identified; it gets the ids of its context or new ones and nothing else of it changes |
| RequestChecks.DispatchExactly | access/src/RuntimeBridge.cpp:42-118 | what the bridge makes of a normalized request, gate by gate; the backend's reply keeps disposition, error and reference |
| SubmitSpec.ValidatedHasSignature | access/src/AccessGatewayFactory.cpp:1457-1479 | a validated request always has a signature, so admission never refuses it for lack of one |
| SubmitSpec.NeverReleased | access/src/AccessGatewayFactory.cpp:1457-1490 | after the validator accepts, the normalizer rejection cannot fire and no ticket is ever released |
| SubmitSpec.NormalIsReady | access/src/RuntimeBridge.cpp:42-75 | the readiness gate of the bridge always passes a normalized request, whatever its headers; the other gates decide |
| SubmitSpec.SubmitConservesTickets | access/src/AccessGatewayFactory.cpp:1466-1501 | every submission leaves the tickets in flight as it found them |
| SubmitSpec.SoundSubmit | access/src/AccessGatewayFactory.cpp:1466-1501 | so it does in every state admission can reach, whatever else is in flight |
| SubmitSpec.SettledStays | access/src/AccessGatewayFactory.cpp:1457-1534 | while its window lasts a dispatched signature keeps its completed record through any submission and is not dispatched again |
| SubmitSpec.DispatchSpacing | access/src/AccessGatewayFactory.cpp:1457-1501 | in every sequential run two dispatches of one signature are more than the window apart |
| SubmitSpec.NothingInFlight | access/src/AccessGatewayFactory.cpp:1466-1501 | between the calls of a sequential run no ticket is in flight |
| SubmitSpec.RepeatIsReplayed | access/src/AccessGatewayFactory.cpp:1466-1479 | a repeat inside the window is answered with the receipt the dispatch left |
| SubmitRepeats.DispatchedExactly | access/src/AccessGatewayFactory.cpp:1457-1501 | in every sequential run a call that passes the validator is dispatched exactly when there is room at all and no dispatch of its signature lies inside the window before it |
| SubmitRepeats.OthersDoNotCount | access/src/AccessGatewayFactory.cpp:1457-1501 | without bars before the keys such a dispatch is one of the same entry type, protocol, actor and key, and no other |
| SubmitRepeats.ReplayedIsOwn | access/src/AccessGatewayFactory.cpp:1466-1479 | whoever is told a replayed receipt is told the one that an earlier dispatch of the same four parts left, inside its window |
| SubmitRepeats.ToldExactly | access/src/AccessGatewayFactory.cpp:1466-1479 | in any state, when a call is told the limit, a conflict or a replay, and when it is dispatched |
| SubmitSpec.RegisteredId | access/src/RuntimeBridge.cpp:110-115 | the id the registry derives is the reference in the reply exactly when that is not empty |
| SubmitSpec.FirstCallerId | access/src/AccessGatewayFactory.cpp:344-394 | the first caller is told the id under which the registry then holds the receipt |
| SubmitSpec.AgreementExactly | access/src/AccessGatewayFactory.cpp:1466-1534 | for every dispatch and every repeat in its window, whatever the reply: both callers are told the same receipt id exactly when an accepted reply met a valid key and has a non-empty reference, or a reply that is not accepted has a reference; and the same disposition exactly when the reply was accepted and met a valid key |
| SubmitSpec.ReceiptAgreement | access/src/AccessGatewayFactory.cpp:1466-1534 | for accepted replies that meet a valid key the id told first is the one registered, and is the one replayed exactly when the backend did not answer with an empty receipt reference |
| SubmitExample.EmptyReceiptDisagrees | access/src/RuntimeBridge.cpp:110-115 | the failing case: a run of two calls, the backend accepting with an empty receipt reference, where the second caller is told another id than the first |
| SubmitExample.RejectedIsReplayedAccepted | access/src/AccessGatewayFactory.cpp:1466-1534 | the failing case of dispositions: a dispatch the bridge rejects is replayed to a repeat as accepted, with the default receipt |
| SubmitExample.KeylessIsReplayedAccepted | access/src/AccessGatewayFactory.cpp:344-394 | the same without a valid registry key: the first caller gets an internal error, a repeat an accepted receipt nobody registered |
| SubmitPipeline.AttachAsyncReceipt | access/src/AccessGatewayFactory.cpp:344-394 | registers an accepted result and tells its id, or turns it into an internal error without a valid key |
| SubmitPipeline.SubmitPacket | access/src/AccessGatewayFactory.cpp:1439-1534 | one submission changes admission controller and registry, and answers, exactly as the specification says; the gateway pipeline (lines 1664-1763) takes the same steps |
| SubmitRuns.TicketsAreSubmissions | access/src/AccessGatewayFactory.cpp:1466-1501 | however the submissions of unboundedly many threads interleave, the tickets in flight are at all times exactly those of the submissions between admission and completion, one each |
| SubmitRuns.NoneGivesBack | access/src/AccessGatewayFactory.cpp:1482-1490 | in no interleaving is a ticket ever given back |
| SubmitRuns.AdmissionSpacing | access/src/AccessGatewayFactory.cpp:1466-1501 | in every interleaving two admissions of one signature are more than the window apart, with no proviso on releases or late completions |
| SubmitRuns.InterleavedSpacing | access/src/AccessGatewayFactory.cpp:1466-1501 | in every interleaving two dispatches of one signature go back to two admissions of it more than the window apart, whichever is dispatched first |
| SubmitRuns.DelayedSpacing | access/src/AccessGatewayFactory.cpp:1466-1501 | timed: the later of two dispatches of one signature comes more than the window after the earlier of their admissions |
| SubmitRuns.DispatchesApart | access/src/AccessGatewayFactory.cpp:1466-1501 | when no dispatch comes more than a delay after its admission, two dispatches of one signature are more than the window minus that delay apart |
| SubmitRunExamples.DelayedDispatches | access/src/AccessGatewayFactory.cpp:1466-1501 | the failing case of plain dispatch spacing, for every delay up to the window and one more: a delayed thread and a prompt one dispatch the same signature |
| SubmitRunExamples.DelayedClocked | access/src/AccessGatewayFactory.cpp:1466-1501 | in that run the clock never goes back and the dispatches are the window minus the delay and one more apart, so the bound is the best possible |
| SubmitReceipts.ReplayedWasLeft | access/src/AdmissionController.cpp:62-133 | in every interleaving a replayed id was left by an earlier completion of the same signature |
| SubmitReceipts.RegisteredExactly | access/src/AccessGatewayFactory.cpp:344-394 | in every interleaving the registry holds exactly the ids it started with and those attached so far |
| SubmitReceipts.AttachedAsLeft | access/src/AccessGatewayFactory.cpp:1497-1534 | whatever happens between completion and attachment of a submission, the id attached is the id left for replays exactly when the reply was accepted with a non-empty reference and the key is valid |
| SubmitRunExamples.ReplayBeforeAttach | access/src/AccessGatewayFactory.cpp:1497-1534 | the failing case between the two: a repeat is told an id while the registry is as it was before the first submission |
| Permit.CounterIsPermits | llm/src/LLMManager.cpp:1143-1194 | in all interleavings of loads, weak exchanges that may fail spuriously, and releases, the counter equals the live permits, when no init happens with a permit live |
| Permit.StepCounts | llm/src/LLMManager.cpp:1143-1194 | one step keeps that equality exactly unless it is an init with a permit live |
| Permit.ReleaseMeetsPermit | llm/src/LLMManager.cpp:1180-1191 | a release never meets a counter at zero, so the subtraction never wraps around |
| Permit.PermitsBounded | llm/src/LLMManager.cpp:1143-1156 | at most worker_threads permits are live, when every init also finds no thread inside the loop that would go over the new bound |
| Permit.BoundExactly | llm/src/LLMManager.cpp:1143-1156 | up to the next init the bound holds in every interleaving exactly when no thread that was passed a larger bound, before its first load or inside the loop, still sees room under it |
| Permit.LoweredBound | llm/src/LLMManager.cpp:1515-1524 | the failing case: an init lowers the bound between the call and the load of a thread, and two permits are live under a bound of one |
| Permit.ImproperInit | llm/src/LLMManager.cpp:1515-1524 | an init with a permit live lets the counter wrap around at the release |
| CallExecutor.CallsBounded | llm/src/LLMManager.cpp:1538-1673 | an execution makes at most budget+1 adapter calls, all on ready routes with a permit, all but the last of a kind that may be retried; the 32-bit counter holds their number modulo 2^32 |
| CallExecutor.AnswersExactly | llm/src/LLMManager.cpp:1538-1673 | it answers exactly when some attempt within the budget answers in time and all before it could be retried |
| CallExecutor.OneLast | llm/src/LLMManager.cpp:1538-1673 | read off the attempts alone: exactly one attempt is the last, all before it left a consistent reply, an open route, and a late reply or a retryable error |
| CallExecutor.ReasonsExactly | llm/src/LLMManager.cpp:1538-1673 | the reason of a failure, cause by cause on that last attempt, and that there is none in all other cases |
| CallExecutor.FailureCarries | llm/src/LLMManager.cpp:1538-1673 | the code, the domain and the retryable flag of a failure, by its reason and the last reply |
| CallExecutor.CallsExactly | llm/src/LLMManager.cpp:1538-1673 | the adapter is called at every attempt but perhaps the last, and the result carries the last reply |
| CallExecutor.TimeoutExactly | llm/src/LLMManager.cpp:1082-1097 | the timeout is the configured one, within 1 and 2^32-1, unless the request asks for less |
| CallExecutor.ExecutionConsistent | llm/src/LLMManager.cpp:1489-1513 | its result is consistent exactly unless the adapter's reply is not, or the call counter of a success wrapped to zero |
| CallExecutor.BrokenReplyIsInconsistent | llm/src/LLMManager.cpp:1489-1513 | the first failing case: a reply that is neither a response nor an error |
| CallExecutor.WrappedCounterIsInconsistent | llm/src/LLMManager.cpp:1538-1673 | the second: with the largest budget, an answer to the last attempt is reported with no attempt started |
| CallExecutor.ExecuteUnary | llm/src/LLMManager.cpp:1526-1673 | the retry loop computes this execution; the return after the loop is never reached |
| RouteChain.CandidatesClean | llm/src/LLMManager.cpp:823-830 | the candidates are the configured routes without blanks and repeats, primary first |
| RouteChain.GenerateConsistent | llm/src/LLMManager.cpp:2003-2345 | every result meets the consistency predicate exactly unless the governed call request fails its own validation |
| RouteChain.RejectedCallIsInconsistent | llm/src/LLMManager.cpp:2086-2098 | the failing case: a governed call request that its validation rejects ends in an inconsistent result |
| RouteChain.ChainFailureConsistent | llm/include/LLMManagerResult.h:33-103 | whatever a candidate left behind, the failure of the chain is consistent |
| RouteChain.AttemptedIsPrefix | llm/src/LLMManager.cpp:2138-2145 | the attempted routes are a duplicate-free prefix of the candidates in every result |
| RouteChain.FirstAnswerWins | llm/src/LLMManager.cpp:2138-2307 | a response comes from the first candidate that answers: it is resolved and last attempted, all before it failed, and a fallback is reported when there were any |
| RouteChain.ResponseExactly | llm/src/LLMManager.cpp:2003-2307 | read off the world alone: a response is returned exactly when nothing stops the request and the first candidate with a good execution, its route kept, its model known and a consistent normalization has that response |
| RouteChain.DeliveredFrom | llm/src/LLMManager.cpp:2240-2307 | the whole result in that case, with the routes attempted up to that candidate |
| RouteChain.GoodExecutionExactly | llm/src/LLMManager.cpp:1538-1673 | an execution is good exactly when its attempts end in an answer and the call counter has not wrapped to zero |
| RouteChain.FailureExactly | llm/src/LLMManager.cpp:2309-2345 | when no candidate delivers, the code, category and error of the failure, cause by cause at the last candidate |
| RouteChain.EarlyExactly | llm/src/LLMManager.cpp:2003-2137 | when nothing is attempted, the code, category, disposition and error, cause by cause |
| RouteChain.FailureTriesAll | llm/src/LLMManager.cpp:2309-2345 | a failure after routing means every candidate was attempted and failed; it is called exhausted fallback exactly when there were several |
| RouteChain.WalkRoutes | llm/src/LLMManager.cpp:2138-2307 | the route loop stops at the first answer or the last candidate, with the routes attempted and the adapter calls made so far |
| RouteChain.SuccessConsistent | llm/src/LLMManager.cpp:2257-2281 | a success with the routes attempted meets the consistency predicate, so the check on it never fails |
| RouteChain.GenerateUnary | llm/src/LLMManager.cpp:2003-2345 | computes the result of the specification with at most budget+1 adapter calls for every route attempted |
| UniqueLists.AppendAllClean | cognition/src/CognitionFacade.cpp:317-339 | appending once each keeps a list free of repeats and blanks and adds exactly the new values |
| DecisionSpec.DecidedIsVetted | cognition/src/CognitionFacade.cpp:2841-3272 | a decision that is no fallback was validated against a plan that was itself validated within the node and depth limits |
| DecisionFacts.ConflictExactly | cognition/src/CognitionFacade.cpp:2787-2813 | read off the stages alone: the pipeline asks about a conflict exactly when model and rules both perceive and disagree |
| DecisionFacts.AsksExactly | cognition/src/CognitionFacade.cpp:2760-2786 | it asks on behalf of the model exactly when the model's perception says so |
| DecisionFacts.MissingExactly | cognition/src/CognitionFacade.cpp:2539-2590 | it asks for lack of a perception exactly when there are only rules, they have none, and a fallback is allowed |
| DecisionFacts.PlanRejectedExactly | cognition/src/CognitionFacade.cpp:2960-3028 | it asks for lack of a plan exactly when the bridge has none and the local one is rejected |
| DecisionFacts.DecidedExactly | cognition/src/CognitionFacade.cpp:2439-3273 | a decision carries exactly the action, plan and perception the pipeline got to, each from the bridge when that delivers it and from the local rules otherwise |
| DecisionFacts.ConvergedExactly | cognition/src/CognitionFacade.cpp:3150-3272 | it converges exactly when the bridge has no action to offer and the local one is rejected |
| DecisionFacts.DegradedExactly | cognition/src/CognitionFacade.cpp:2439-3273 | it is degraded exactly when one of the three stages fell back |
| DecisionFacts.FailedExactly | cognition/src/CognitionFacade.cpp:2439-3273 | it fails with a code and a fault exactly when they are those of a cause: setup, timeouts, or the first failing check of a stage that may not fall back |
| DecisionSpec.NoFallbackNoDegrading | cognition/src/CognitionFacade.cpp:2439-3272 | with fallback disabled nothing is degraded and every decision is the action and the plan the bridge projected |
| DecisionSpec.FallbackFailures | cognition/src/CognitionFacade.cpp:2931-3213 | with fallback enabled and rule perception at hand only the timeouts of the local planner and reasoner end in an error |
| DecisionPipeline.RenderIsDistinct | cognition/src/CognitionFacade.cpp:411-432 | no other diagnostic the pipeline writes reads as its degraded mark |
| DecisionPipeline.FallbackOrFail | cognition/src/CognitionFacade.cpp:2053-2082 | a structured stage in trouble either marks the result degraded and goes on, or fails it with the code and error of the trouble |
| DecisionPipeline.ConsumeBridge | cognition/src/CognitionFacade.cpp:3495-3653 | a bridge call without an error is passed on, and any other falls back when allowed and fails otherwise |
| DecisionPipeline.ReadReply | cognition/src/CognitionFacade.cpp:2644-2735 | schema, parse, projection and invariants are checked in order and the first trouble decides |
| DecisionPipeline.RunPerception | cognition/src/CognitionFacade.cpp:2525-2800 | perception reaches the outcome of the specification; the return without a perception is unreachable |
| DecisionPipeline.RunPlanning | cognition/src/CognitionFacade.cpp:2841-3028 | planning reaches the outcome of the specification; the failure branch after a rejected local plan is unreachable |
| DecisionPipeline.RunExecution | cognition/src/CognitionFacade.cpp:3070-3272 | execution reaches the outcome of the specification; the failure branch after a rejected local action is unreachable |
| DecisionPipeline.RunDecisionPipeline | cognition/src/CognitionFacade.cpp:2439-3273 | for every combination of stage outcomes exactly one of action and error is set, as the specification says; diagnostics never repeat; the degraded mark stands exactly when a fallback was taken or a stage the pipeline listened to on the way wrote it |
| ReplayText.UnescapeEscape | cognition/src/CognitionFacade.cpp:616-636 | unescaping undoes escaping on every value |
| ReplayText.EscapeUnescape | cognition/src/CognitionFacade.cpp:616-636 | escaping undoes unescaping wherever it is defined |
| ReplayText.EscapeAvoids | cognition/src/CognitionFacade.cpp:616-636 | an escaped value holds no raw newline or carriage return |
| ReplayText.EscapeReplayValue | cognition/src/CognitionFacade.cpp:616-636 | the loop computes the escape |
| ReplayText.ReadsBackExactly | cognition/src/CognitionFacade.cpp:645-651 | a text of lines reads back to its key and value list exactly when no key holds an equals sign or newline |
| ReplayText.AppendReplaySortedValues | cognition/src/CognitionFacade.cpp:688-698 | appends the count line and one indexed line per sorted value |
| ReplayText.SortOrdered | cognition/src/CognitionFacade.cpp:690-691 | the sort is an ordered permutation under unsigned byte order |
| ReplayText.SerialiseAlike | cognition/src/CognitionFacade.cpp:688-698 | two lists serialise alike exactly when they are permutations of each other |
| ReplayText.ReplayAlike | cognition/src/CognitionFacade.cpp:688-698 | so they do with the suffix the source writes, under every prefix without an equals sign or newline |
| TokenEstimator.DecodeNext | llm/src/TokenEstimator.cpp:19-69 | decoding advances one to four bytes inside the text and yields the character at the head of what is left |
| TokenEstimator.HeadOfEncoded | llm/src/TokenEstimator.cpp:19-69 | each scalar value encoded as in section 3 of RFC 3629 decodes to itself with its exact length, whatever follows |
| TokenEstimator.ShortestForm | llm/src/TokenEstimator.cpp:19-69 | a decoded character is the encoding of its code point exactly when it is not written longer than needed |
| TokenEstimator.CountCharacters | llm/src/TokenEstimator.cpp:82-104 | the loop counts by kind, modulo 2^32 |
| TokenEstimator.EncodedCounts | llm/src/TokenEstimator.cpp:82-104 | the bytes of encoded scalar values are well formed and count as those values |
| TokenEstimator.CountsAddExactly | llm/src/TokenEstimator.cpp:82-104 | counts of a prefix and any continuation add up to the count of the whole exactly when the prefix does not end inside a character |
| TokenEstimator.CutCharacter | llm/src/TokenEstimator.cpp:82-104 | the failing case: a character of three bytes cut after its first counts as one together and as three apart |
| Scanning.AddsExactly | llm/src/TokenEstimator.cpp:82-104 | the same for any way of taking pieces off a text |
| TokenEstimator.EstimatePlus | llm/src/TokenEstimator.cpp:106-119 | over exact rationals counts taken together are never estimated higher than apart |
| TokenEstimator.EstimateOneKind | llm/src/TokenEstimator.cpp:106-119 | a text of one kind of character is estimated at their number over the weight of that kind, with the margin, rounded up |
| TokenEstimator.AsciiCounts | llm/src/TokenEstimator.cpp:82-104 | bytes below 0x80 count one by one as English |
| TokenEstimator.EstimateSubadditive | llm/src/TokenEstimator.cpp:106-119 | the estimate of a+b is at most the sum of the two when a, broken bytes or not, does not end inside a character |
| TokenEstimator.EstimateMessages | llm/src/TokenEstimator.cpp:148-158 | joining messages that do not end inside a character never raises the estimate above the sum over the messages |
| TokenEstimator.EstimateAll | llm/src/TokenEstimator.cpp:148-158 | the message loop computes the sum of the estimates modulo 2^32; they are those of the exact counts below 2^32 characters a message |
| TokenEstimator.OverBudgetExactly | llm/src/TokenEstimator.cpp:121-132 | the 32-bit budget comparison is the true one exactly when the sum does not wrap or its remainder is over budget too |
| TokenEstimator.WrappedSumPasses | llm/src/TokenEstimator.cpp:121-132 | the failing case: a sum that wraps to zero passes every budget |
| KnowledgePayload.DecodeFailsExactly | access/src/AccessGatewayFactory.cpp:566-588 | percent decoding fails exactly when a percent sign the scan meets lacks two hexadecimal digits |
| KnowledgePayload.DecodesExactly | access/src/AccessGatewayFactory.cpp:566-588 | the texts without semicolons that decode to a value are exactly its percent-encodings, whatever is left raw besides percent signs and semicolons |
| KnowledgePayload.DecodesCaseless | access/src/AccessGatewayFactory.cpp:552-588 | small and capital hexadecimal digits decode alike |
| KnowledgePayload.PercentDecodeValue | access/src/AccessGatewayFactory.cpp:566-588 | the loop computes the decoding |
| KnowledgePayload.CanonicalIsToken | access/src/AccessGatewayFactory.cpp:481-509 | a canonical keyword is words of lower-case letters and digits with single underscores between |
| KnowledgePayload.CanonicalIdempotent | access/src/AccessGatewayFactory.cpp:481-509 | canonicalisation is idempotent and leaves alone exactly the canonical keywords |
| KnowledgePayload.CanonicalKeepsLetters | access/src/AccessGatewayFactory.cpp:481-509 | it keeps exactly the letters and digits, lower-cased, and is empty for texts with any other byte |
| KnowledgePayload.CanonicalizeKeyword | access/src/AccessGatewayFactory.cpp:481-509 | the two loops compute it |
| KnowledgePayload.ParsePayload | access/src/AccessGatewayFactory.cpp:590-693 | the item loop computes the parse of the specification |
| KnowledgePayload.PayloadRoundTrip | access/src/AccessGatewayFactory.cpp:590-693 | every valid record, printed with any encoding of its values, parses back to itself |
| KnowledgePayload.ParseImage | access/src/AccessGatewayFactory.cpp:590-693 | the records parsing can return are exactly the valid ones |
| KnowledgePayload.WordsAreGood | access/src/AccessGatewayFactory.cpp:511-545 | the field, mode and kind names of the source are told apart by the parser, so the round trip holds for them |
| Gateway.CounterIsGuards | access/src/AccessGateway.cpp:108-121 | in every interleaving of any number of inits, submits and shutdowns the counter is the number of live guards |
| Gateway.DropMeetsCounter | access/src/AccessGateway.cpp:113-121 | a guard's destructor never meets a counter at zero |
| Gateway.Forward | access/src/AccessGateway.cpp:39-106 | after one finished init, with one shutdown thread that is not about to store Draining over ShutDown, the status never moves back, and once draining no submission enters that had not already read Ready |
| Gateway.ForwardExactly | access/src/AccessGateway.cpp:39-106 | that condition is exact: in any state, no run with this one shutdown thread moves the status back exactly when it holds |
| Gateway.InitSettles | access/src/AccessGateway.cpp:39-52 | a first init reaches a state in which it holds exactly when the gateway was built with a submit pipeline |
| Gateway.ShutDownIsFinal | access/src/AccessGateway.cpp:85-106 | with any number of threads, a gateway shut down stays shut down in every continuation exactly when no init is in progress and no shutdown still has its store of Draining to make |
| Gateway.NeverBackExactly | access/src/AccessGateway.cpp:39-106 | with any number of shutdown threads, no continuation of a state moves the status back exactly when it is shut down for good in that sense |
| Gateway.TwoStoppersGoBack | access/src/AccessGateway.cpp:85-91 | the failing case: from any state not shut down, two shutdown threads can move the status back from ShutDown to Draining |

## Left out

- Observability, telemetry, audit, metrics, trace emission and result publishing: their results do not change the path.
- Error texts and the publish envelope beyond its receipt id; an access error is its code.
- Tags appended to a response of the LLM manager, and usage records: a response is what the normalizer returned.
- `build_daemon_submit_pipeline` before the runtime request is built (health, queries, authentication, policy): each
  outcome is a parameter, with any registry operations it performs.
- Agent request fields that only the contract guard reads (channel, creation time, deadline, locale, hints): the guard
  is an arbitrary predicate of the request.
- `execute_stream` and `stream_generate`: the same loops as the unary ones around an unseen stream session registry.
- `CognitionFacade` reflection, response and perception fallbacks' texts, belief hints and context sufficiency.
- `run_stage_with_deadline`, detached threads and exceptions: a stage returns a value or times out.
- `parse_status_query_payload` and `parse_diag_payload`: simpler forms of the knowledge payload parser.
- Queries, rotations and expiry of receipts in interleaved submissions: `SubmitRuns` interleaves admission, dispatch,
  completion and attachment; other operations of the registry are in the runs of `AsyncRegistrySpec`.
- Capacity overflow of clocks: time points are unbounded integers; the wall-clock expiry must fit 64 bits.
- Floating point: estimates are over exact rationals; rounding of `double` is not modelled.
- The timing of the constant-time comparison and the strength of HMAC.
- TokenEstimator.EstimateAll: one estimate is not narrowed to 32 bits, because the source's conversion is undefined
  when it does not fit.
- AsyncRegistrySpec.TokenLives: for receipts that are not registered again; after a second registration the theorem
  applies to the new token, and `OneToken` excludes the old one unless both are the same up to that padding.
