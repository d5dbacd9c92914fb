# Marty verifier: models and proofs

This project models the parts of the Marty offline verifier whose correctness
rests on state, nesting or interleaving rather than on a single branch, and
proves what they are for. `dafny verify dfyconfig.toml` checks everything.

- **Canonical JSON and the strict parser** (`Unicode.dfy`, `Decimal.dfy`,
  `Json.dfy`, `JsonGrammar.dfy`, `JsonText.dfy`, `JsonRoundTrip.dfy`,
  `StrictJson.dfy`, `SignedPayload.dfy`).
  A value is a tree whose objects are maps; a written document is a tree whose
  objects are lists of members. Strings are sequences of Unicode scalar
  values, with every escape of section 3.2.2.2 of RFC 8785 written out. The
  printer and the deserializer are imperative, as in the source, and are tied to
  a printing function and a grammar; the theorems are about those. What counts as
  a text of a tree is stated without them, and both are proved against it.
- **Durable audit delivery** (`DurableAck.dfy`, `Reporter.dfy`,
  `Delivery.dfy`). One module checks acknowledgements, one runs a single
  upload with its retries, and one is the whole protocol as a step system: queue
  callers, any number of overlapping flushes, configuration changes, restarts,
  and a network that loses, delays and repeats messages. Every endpoint, an
  organization's route at a host, is a receiver in that system: it stores before
  it issues receipts and drops a second event with a known id. The queue is a stub
  with the contract that the storage tests show: acknowledging is all or nothing.
- **Network mode** (`NetworkMode.dfy`). Host events, operator clicks, the promise
  chain in front of the native command, replies and failures, in any interleaving.
- **Governed trust material** (`GovernedTrust.dfy`, `SigningKey.dfy`,
  `Base64.dfy`, `SyncLease.dfy`). The one-pass stores against order-independent
  specifications, the recursive key unwrapper, PEM text, and the sync lease.
- **Liveness challenges** (`Liveness.dfy`). The signed text, and the table that
  records, consumes and cleans up challenges.

Some tempting properties do not hold. For each of them the project gives an
input or run that fails and the exact condition under which it holds:

- Canonical text can nest deeper than the parser reads (`TooDeepToParse`). It
  parses back if its depth is below the limit and fails otherwise
  (`ParseUndoesPrint`). The code canonicalises only values that came out of the
  parser (`usb.rs:157` and `usb.rs:895`), and for those the text always parses back
  (`CanonicalFormIsStable`), so no signature check can meet this case.
- An insert that finds more than a hundred entries at or after a challenge's
  expiry drops it, even if a validation whose clock reads no later than the expiry
  is still to come (`CleanupCanLoseAChallenge`). Nothing else about an insert changes
  a verdict (`CleanupChangesVerdict`), and over whole runs nothing else but an
  attempt that reaches the entry does (`RecordedIsAccepted`).
- A sync writes back the trust clock that it read, so an import between its read
  and its write is undone (`ImportCanBeUndone`), visibly so exactly when the last
  such import carries another clock (`SyncRestoresTheClockItRead`).
- After a failed request the native and the displayed mode may differ
  (`LostReplyDisagrees`) or not (`FailureCanAgree`), and a command that takes effect
  after its call failed may set them apart later, with no error on display
  (`LateCommandDisagrees`). They agree exactly when the last applied and the last
  answered request asked for the mode asked for last (`AgreementAtRest`).
- An event can be stored at two endpoints (`TwoEndpointsCanHoldOne`), but never
  twice at one, and never twice while one endpoint is configured
  (`OneEndpointStoresOnce`).
- A presented challenge can share an issued one's signed text and differ in its
  steps (`StepsCanMerge`). The steps agree exactly when no presented step field
  holds a separator (`PresentedIsIssued`).

## Model

| member | source | states |
|---|---|---|
| Utf16.FirstDifferenceDecides | crates/marty-sync/src/usb.rs:850-852 | Behind whatever two keys have in common, the first differing character decides, and characters beyond the Basic Multilingual Plane rank below U+E000, unlike in code point order |
| Utf16.PrefixComesFirst | crates/marty-sync/src/usb.rs:850-852 | A member name comes before every name that it is a proper prefix of |
| Utf16.KeyBeforeExactly | crates/marty-sync/src/usb.rs:850-852 | One name comes before another exactly if, behind what they have in common, it has ended or has the character of lower rank |
| Utf16.KeyBeforeTotal | crates/marty-sync/src/usb.rs:850-852 | Any two distinct member names are ordered |
| Utf16.KeyBeforeAsymmetric | crates/marty-sync/src/usb.rs:850-852 | No two member names precede each other and none precedes itself |
| Utf16.BeforeTransitive | crates/marty-sync/src/usb.rs:850-852 | The code unit order is transitive |
| Utf8.EncodeInjective | crates/marty-sync/src/usb.rs:816-818 | Distinct canonical texts have distinct signed bytes |
| Utf8.DecodeEncode | crates/marty-sync/src/signing_key.rs:32 | Strict UTF-8 decoding gives back every text that was encoded |
| Utf8.EncodeDecode | crates/marty-sync/src/signing_key.rs:32 | Decoding is strict: only the encoding of a text, no overlong or surrogate form, decodes to it |
| Json.SortedListingUnique | crates/marty-sync/src/usb.rs:850-852 | A set of names has one ascending listing, so the order in which members were inserted cannot show |
| Json.CanonicalStandsForValue | crates/marty-sync/src/usb.rs:821-868 | The canonical tree of a value repeats no key at any depth and stands for that value |
| Json.NoMemberDropped | crates/marty-sync/src/usb.rs:326-341 | Inserting members one by one gives as many entries as members read exactly when no key repeats |
| JsonText.SpelledTextReads | crates/marty-sync/src/usb.rs:292-298 | Any spelling of a string reads as that string: every character as itself where allowed, as its two-character escape, or as escapes of its UTF-16 code units in hexadecimal digits of either case |
| JsonText.TextReads | crates/marty-sync/src/usb.rs:250-342 | Every text of a tree, with any space between its tokens and any spelling of its strings, is read as that tree and nothing more is consumed; it fails exactly when the tree nests too deep |
| JsonText.ValueRead | crates/marty-sync/src/usb.rs:250-342 | Conversely, whatever is read as a tree is a text of that tree |
| JsonText.DocumentExactly | crates/marty-sync/src/usb.rs:344-350 | The documents read are exactly those of the grammar below the nesting limit, each as the tree that it is a text of |
| JsonText.TreeIsUnique | crates/marty-sync/src/usb.rs:344-350 | A text is a text of one tree only |
| JsonRoundTrip.EscapeCharIsShortest | crates/marty-sync/src/usb.rs:838-839 | No spelling of a character is shorter than the one printed, and printed hexadecimal digits are lower case |
| JsonRoundTrip.PrintWrites | crates/marty-sync/src/usb.rs:821-868 | What is printed is a text of the tree |
| JsonRoundTrip.PrintIsShortest | crates/marty-sync/src/usb.rs:821-868 | No text of the tree is shorter than the printed one, which therefore holds no space between tokens and no needless escape |
| JsonRoundTrip.ValueReadsBack | crates/marty-sync/src/usb.rs:250-342 | In front of any continuation that does not extend a number, a printed tree reads back as itself and nothing more is consumed; it fails exactly when it nests too deep |
| JsonRoundTrip.PrintPrefixFree | crates/marty-sync/src/usb.rs:821-868 | No printed tree is a proper prefix of another, and distinct trees print differently |
| StrictJson.Deserializer.DeserializeAny | crates/marty-sync/src/usb.rs:252-258 | Of documents whose numbers are safe integers, reads what the grammar reads and returns its value, or fails if the grammar fails or some object in it repeats a decoded key |
| StrictJson.Deserializer.VisitSeq | crates/marty-sync/src/usb.rs:315-324 | The same for the rest of an array: all items, in order, none dropped |
| StrictJson.Deserializer.VisitMap | crates/marty-sync/src/usb.rs:326-341 | The same for the rest of an object: every member is kept, a repeated key at this or any deeper level fails |
| StrictJson.ParseStrict | crates/marty-sync/src/usb.rs:344-350 | Of the documents whose numbers are safe integers, accepts exactly the well-formed ones within the nesting limit in which no object at any depth repeats a key, and returns their value |
| StrictJson.MeaningExactly | crates/marty-sync/src/usb.rs:344-350 | The result of strict parsing without the parser: a document means a value exactly when it is a text of a tree below the nesting limit that repeats no key and stands for that value |
| StrictJson.RepeatedKeyMeansNothing | crates/marty-sync/src/usb.rs:331-335 | A text of a tree that repeats a key is rejected, however the key is spelled |
| StrictJson.TwoSpellingsOfOneName | crates/marty-sync/src/usb.rs:331-335 | An object with two spellings of one name, such as a character and its escape, is rejected |
| SignedPayload.SortKeys | crates/marty-sync/src/usb.rs:850-852 | From any order of distinct names, the ascending listing of the same names |
| SignedPayload.WriteJcsValue | crates/marty-sync/src/usb.rs:821-868 | Appends to the buffer exactly the canonical bytes of a value whose numbers are safe integers |
| SignedPayload.CanonicalSignedPayload | crates/marty-sync/src/usb.rs:806-819 | The signed bytes are the canonical bytes of the object without its own signature member; a non-object and a missing signature are errors |
| SignedPayload.SignedExactly | crates/marty-sync/src/usb.rs:806-815 | Bytes come out exactly for an object with a signature member; anything but an object is rejected as such |
| SignedPayload.CanonicalTextDetermines | crates/marty-sync/src/usb.rs:821-868 | Canonical text, whatever follows it, determines the value and where its text ends |
| SignedPayload.CanonicalBytesInjective | crates/marty-sync/src/usb.rs:821-868 | Two values whose numbers are safe integers have the same canonical bytes exactly when they are the same value |
| SignedPayload.ParseUndoesPrint | crates/marty-sync/src/usb.rs:344-350 | Strict parsing of canonical text gives the value back exactly when its depth is below the nesting limit, and fails otherwise |
| SignedPayload.TooDeepToParse | crates/marty-sync/src/usb.rs:344-350 | For every limit there is a value whose canonical text does not parse: arrays inside one another |
| SignedPayload.CanonicalDepth | crates/marty-sync/src/usb.rs:850-864 | Sorting the members of a parsed document never makes it nest deeper |
| SignedPayload.CanonicalFormIsStable | crates/marty-sync/src/usb.rs:344-354 | The canonical text of any accepted document is accepted again and means the same value |
| SignedPayload.SignatureCoverage | crates/marty-sync/src/usb.rs:806-819 | Two packages whose numbers are safe integers have the same signed bytes exactly when they agree on every member but the top-level signature |
| Base64.DecodeEncode | src-tauri/src/commands/verification/dtc.rs:205 | Every byte string survives base64 encoding and decoding (section 4 of RFC 4648) |
| Base64.EncodeDecode | crates/marty-sync/src/signing_key.rs:24-26 | Only the canonical encoding of a byte string decodes to it |
| Base64.AlphabetExactly | crates/marty-sync/src/signing_key.rs:24-26 | The symbols are those of the standard alphabet, in order |
| Base64.SameNumber | crates/marty-sync/src/signing_key.rs:24-26 | Three bytes and their four sextets are the same number in base 256 and in base 64 |
| Pem.CertificateDerToPem | src-tauri/src/commands/verification/dtc.rs:204-214 | The loop over 64-character slices produces the armoured lines of the whole encoding |
| Pem.LineLengths | src-tauri/src/commands/verification/dtc.rs:207-211 | Every line has exactly 64 characters but the last, which has 1 to 64, and no line is missing or extra |
| Pem.ArmourAround | src-tauri/src/commands/verification/dtc.rs:206-212 | The lines stand between the certificate armour lines |
| Pem.UnwrapText | src-tauri/src/commands/verification/dtc.rs:204-214 | Removing the armour and line ends and decoding returns the certificate |
| Pem.TextInjective | src-tauri/src/commands/verification/dtc.rs:204-214 | Distinct certificates have distinct PEM texts |
| SigningKey.CandidatesOfLines | crates/marty-sync/src/signing_key.rs:15-19 | The candidates of a key file are its lines without the white space around them, in order, with blank lines and comments passed over |
| SigningKey.EveryTextIsLines | crates/marty-sync/src/signing_key.rs:15-19 | Every text is such a sequence of blank lines, comments and candidates |
| SigningKey.CandidateDecidesExactly | crates/marty-sync/src/signing_key.rs:21-42 | 32 bytes are the key, 42 bytes that start with "Ed" hold it behind ten, other UTF-8 text is a key file of its own, and what is not base64 is an error |
| SigningKey.KeyFileDecidesExactly | crates/marty-sync/src/signing_key.rs:3-13 | The first candidate that holds a key or is not base64 decides, and no later one is looked at |
| SigningKey.CandidateUnwraps | crates/marty-sync/src/signing_key.rs:21-42 | However many layers, a wrapped key has one candidate and it decodes to the key |
| SigningKey.WrappedKeyDecodes | crates/marty-sync/src/signing_key.rs:3-42 | Any number of base64 layers, with any white space, blank lines and comments around their payloads, around a raw or minisign key decodes to the 32 key bytes |
| SigningKey.FoundKeyIsInFile | crates/marty-sync/src/signing_key.rs:3-42 | A key is only found at the end of a chain of base64 layers, each a candidate line of the text before it, whose last payload is the key or the key as minisign writes it |
| DurableAck.FromRequest | crates/marty-reporting/src/durable_ack.rs:203-246 | Builds the expectation for exactly the batches of 1 to 100 verification events with distinct event ids and distinct verification ids, none of which loses members in its native form |
| DurableAck.WellFormedExactly | crates/marty-reporting/src/durable_ack.rs:203-246 | Those batches, member by member |
| DurableAck.UuidV4Exactly | crates/marty-reporting/src/durable_ack.rs:324-331 | A version 4 UUID: lower-case hexadecimal digits between four hyphens, with the version and the variant in place |
| DurableAck.Expects | crates/marty-reporting/src/durable_ack.rs:234-242 | Every event of the batch is expected under its own id with its own content |
| DurableAck.ExpectationSize | crates/marty-reporting/src/durable_ack.rs:223-243 | The expectation has as many entries as the batch has events |
| DurableAck.ValidateAcknowledgement | crates/marty-reporting/src/durable_ack.rs:249-284 | Accepts exactly the acknowledgements with the right counts whose receipts all match and have distinct event ids and distinct audit ids |
| DurableAck.AcceptedIsBijection | crates/marty-reporting/src/durable_ack.rs:249-284 | An accepted acknowledgement names every expected event by exactly one receipt with that event's content, and names nothing else |
| DurableAck.HonestReplyAccepted | crates/marty-reporting/src/durable_ack.rs:249-284 | The reply of a receiver that stored the batch, with a time of its own on every receipt, in any order and with any split into accepted and duplicate events, is accepted exactly when each of those times is within the clock allowance |
| DurableAck.AcceptedExactly | crates/marty-reporting/src/durable_ack.rs:249-284 | Only honest replies are accepted: an acknowledgement is exact if and only if it is, with its kind, organization, producer, digests and audit ids, the reply of a receiver that stored exactly this batch, within the clock allowance |
| ReportQueue.Storage.Acknowledge | crates/marty-app-storage/src/database.rs:1013-1024 | Deletes all the given rows, or none if one of them is missing |
| ReportQueue.WithoutPrefix | crates/marty-reporting/src/reporter.rs:233 | Acknowledging the rows at the head of the queue leaves exactly the rows behind them, in order |
| Reporting.FlushIsBounded | crates/marty-reporting/src/reporter.rs:159-226 | Whatever the network does, at most min(max_retries, 10) + 1 attempts and at most 11,100 ms of waiting |
| Reporting.AuthorityIsReused | crates/marty-reporting/src/reporter.rs:162-172 | Once an authority is held, no later authorization reply changes the run |
| Reporting.DeliveredMeansExact | crates/marty-reporting/src/reporter.rs:160-215 | A durable run succeeds only on an exact acknowledgement of the whole batch under an authority valid for the configured organization |
| Reporting.ValidAuthorityExactly | crates/marty-reporting/src/durable_ack.rs:175-184 | One kind of authority is valid for an organization, whatever version 4 producer it names |
| Reporting.DestinationExactly | crates/marty-reporting/src/durable_ack.rs:102-156 | Asking for durable delivery or naming the known route never leads to delivery on the HTTP status alone: it takes a deployed endpoint of an organization, or nothing is sent |
| Reporting.RunIsObserved | crates/marty-reporting/src/reporter.rs:158-226 | Said from the replies alone: the run ends with the first attempt that does not fail for now or with the last allowed, delivers exactly if that attempt succeeds, and waits the doubling back-off times in between |
| Reporting.FlushDeletesExactly | crates/marty-reporting/src/reporter.rs:85-241 | Said from configuration and replies alone: a flush deletes exactly if something may be sent, nothing local fails, and some attempt within the bound succeeds after all before it failed for now; it made that many attempts |
| Reporting.FlushFailsExactly | crates/marty-reporting/src/reporter.rs:85-153 | When a flush has nothing to do, has no endpoint, has no client or gives up a batch that may not be sent |
| Reporting.FlushDeletesSubmittedOrNothing | crates/marty-reporting/src/reporter.rs:85-241 | A flush deletes exactly the submitted head of the queue, towards a durable destination only after an exact acknowledgement of it, or deletes nothing and counts one failure per submitted row, or leaves the queue alone, as it does whenever the storage fails or the HTTP client cannot be set up |
| Reporting.Reporter.QueueEvent | crates/marty-reporting/src/reporter.rs:48-80 | Appends the event behind the others, or refuses when disabled or full or when the storage fails, and changes nothing |
| Reporting.Reporter.Flush | crates/marty-reporting/src/reporter.rs:85-241 | Result, number of attempts, waiting time and remaining queue are those of the specified flush |
| Reporting.Reporter.Deliver | crates/marty-reporting/src/reporter.rs:154-226 | The retry loop computes the specified run, carrying the authority from one attempt to the next |
| Delivery.AcceptedEventsSurvive | crates/marty-reporting/src/reporter.rs:48-241 | In every state of every run an accepted event is either pending or deleted, and a deleted one was sent to a destination whose contract is the HTTP status alone or is stored at the endpoint whose flush deleted it; no endpoint stores an event twice or one that was not accepted |
| Delivery.DurableDelivery | crates/marty-reporting/src/reporter.rs:48-241 | If no configuration that sends anything names such a destination, every accepted event is either pending locally or stored exactly once at the endpoint whose flush deleted it, through lost requests and replies, restarts, overlapping flushes, changing endpoints and concurrent queueing |
| Delivery.OneEndpointStoresOnce | crates/marty-reporting/src/durable_ack.rs:102-156 | If all configurations that send anything name one endpoint, host and organization, no event is stored twice anywhere |
| Delivery.TwoEndpointsCanHoldOne | crates/marty-reporting/src/reporter.rs:43-45 | With two endpoints one event can be stored at both: the reply of the first is lost and the configuration changes before the next flush |
| Delivery.ReplyKeepsTask | crates/marty-reporting/src/reporter.rs:186-203 | A flush reaches its acknowledge step only when the receiver has stored every event of the batch |
| Delivery.RepliesFollowRun | crates/marty-reporting/src/reporter.rs:159-226 | The replies bring a flush of the step system to its acknowledgement or failure exactly as the retry loop does |
| Delivery.TakeExactly | crates/marty-reporting/src/reporter.rs:86-136 | A flush of the step system takes the oldest hundred events to where the configuration sends them, and gives up what may not be sent |
| Delivery.QueueIsBounded | crates/marty-reporting/src/reporter.rs:60-73 | With at most N callers past the size check at once and a fixed limit, the queue holds at most the limit plus N - 1 events |
| NetworkMode.CallsFollowRequests | ui/src/store/app-store.ts:119-137 | In every interleaving the native commands go out in request order, none skipped or repeated, and at rest all have gone out |
| NetworkMode.BusyWhileUnfinished | ui/src/store/app-store.ts:119-137 | The busy flag is set exactly while a request is unfinished |
| NetworkMode.FlagsFollowRequests | src-tauri/src/state.rs:248-254 | In every state of every run the native flag is the mode of the last request whose command took effect, in time or after its call had failed, and the displayed mode that of the last request that got its reply |
| NetworkMode.SwitchesAreLast | ui/src/store/app-store.ts:100-108 | The switches stand where the last host event and the last click left them |
| NetworkMode.RequestsAreIntended | ui/src/store/app-store.ts:119-120 | Host events and clicks, and nothing else, make requests, each for the mode intended at that moment: the host is online and the operator has not switched that off |
| NetworkMode.ErrorIsShown | ui/src/store/app-store.ts:110-136 | An error is on display exactly if one was reported and neither a new request nor a good reply has come since |
| NetworkMode.AgreementAtRest | ui/src/store/app-store.ts:100-138 | At rest the native flag, the displayed mode and the intended mode, that of the last host event and the last click, agree exactly when the last request applied and the last one replied to both asked for it; unless a command took effect after its call had failed, so they do if the last request got its reply or no error is shown |
| NetworkMode.LostReplyDisagrees | ui/src/store/app-store.ts:130-132 | A run that ends in disagreement: the reply is lost after the native flag changed, and an error is shown |
| NetworkMode.FailureCanAgree | ui/src/store/app-store.ts:130-132 | A run whose last request failed and that ends in agreement all the same |
| NetworkMode.LateCommandDisagrees | ui/src/store/app-store.ts:130-132 | A run that ends in disagreement with no error shown: a command takes effect after its call failed and a later request was answered |
| NetworkMode.StepKeeps | ui/src/store/app-store.ts:100-138 | Every step keeps the invariant behind the three properties |
| NetworkMode.AppStore.SetOnlineStatus | ui/src/store/app-store.ts:100-103 | A host event takes exactly its step and keeps the invariant |
| NetworkMode.AppStore.SetOfflineMode | ui/src/store/app-store.ts:105-108 | An operator click takes exactly its step and keeps the invariant |
| NetworkMode.AppStore.SetNetworkStatus | src-tauri/src/commands/sync.rs:22-57 | The native command leaves the flag at the requested mode, whether or not it was there before |
| LivenessPayload.PayloadDecodesUniquely | src-tauri/src/commands/verification/liveness.rs:54-82 | Two challenges with separators in no field but the session id have the same signed text exactly when they agree up to absent-versus-default step fields; the session ids may contain anything, even the separator |
| LivenessPayload.PayloadIsJoined | src-tauri/src/commands/verification/liveness.rs:54-82 | The signed text is nine fields joined by bars, the last of them the steps joined by semicolons, each of five fields joined by colons |
| LivenessPayload.CodesExactly | src-tauri/src/commands/verification/mod.rs:82-109 | The texts of step types and modes |
| LivenessPayload.PresentedIsIssued | src-tauri/src/commands/verification/liveness.rs:54-82 | A presented challenge with the signed text, id, nonce and session of an issued one, and timestamps that could parse, agrees with it outside the steps and has the same text of steps; the steps agree exactly when no presented step field holds a separator |
| LivenessPayload.StepsCanMerge | src-tauri/src/commands/verification/liveness.rs:54-82 | Every challenge with two steps or more shares its signed text with one that differs in its steps alone, so that the condition on the presented steps is needed |
| LivenessPayload.BuildLivenessSteps | src-tauri/src/commands/verification/liveness.rs:10-52 | The steps come in the fixed order with their prompts, directions and time limits, the phrase only without accessibility mode, and none of their fields holds a separator |
| LivenessPayload.Issue | src-tauri/src/commands/verification/mod.rs:214-242 | Every issued challenge is one to which unique decoding applies, for any caller-supplied session id; it carries the requested or default modes and lives as long as asked within 15 to 120 seconds, a minute by default |
| LivenessTable.AppState.RecordLivenessChallenge | src-tauri/src/state.rs:257-266 | The new entry is in, every unexpired entry is unchanged, no other entry appears or changes, and the table holds at most 101 entries or the live ones and one more |
| LivenessTable.AppState.ConsumeLivenessChallenge | src-tauri/src/state.rs:268-281 | Hands out an entry exactly when it was there and unused; the same id is never handed out again, no entry disappears and no other entry changes |
| LivenessTable.AppState.ValidateLivenessChallenge | src-tauri/src/commands/verification/liveness.rs:96-162 | Acceptance needs a matching signature and a recorded entry within its expiry; an attempt that reaches the entry spends it, so that no attempt under that id is ever accepted afterwards, and changes no other entry |
| LivenessTable.AttemptSpendsTheEntry | src-tauri/src/state.rs:268-281 | An attempt that finds an unused entry spends it even when it is then rejected: nothing else in the table changes, and no later attempt under that id is accepted |
| LivenessTable.RejectedBecause | src-tauri/src/commands/verification/liveness.rs:96-162 | Every reason for a rejection applies to the challenge that is rejected for it |
| LivenessTable.CleanupChangesVerdict | src-tauri/src/state.rs:257-266 | An insert changes the verdict on another challenge exactly when it found more than a hundred entries at or after that challenge's expiry; with an insert clock no later than the validation clock, only at the instant of expiry |
| LivenessTable.CleanupCanLoseAChallenge | src-tauri/src/state.rs:257-266 | A run in which that happens: the challenge is recorded, a hundred others follow, and one more insert at or after the expiry turns its acceptance into a rejection |
| LivenessTable.RecordedIsAccepted | src-tauri/src/state.rs:257-281 | Over any run, a recorded challenge is accepted when presented exactly up to its recorded expiry, and exactly if no attempt has reached it and no insert has found more than a hundred entries at or after its expiry |
| LivenessTable.TableIsBounded | src-tauri/src/state.rs:257-266 | After an insert the table holds at most 101 entries or the live ones and one more |
| LivenessTable.AcceptedAtMostOnce | src-tauri/src/state.rs:257-281 | Over any run with fresh ids each challenge is accepted at most once |
| LivenessTable.AcceptedBeforeExpiry | src-tauri/src/commands/verification/liveness.rs:96-162 | Over any run an accepted challenge was recorded, and is accepted no later than its recorded expiry |
| OpenBadgeStore.PrivateMaterialIsReachable | src-tauri/src/commands/verification/open_badges.rs:265-286 | A document counts as containing private key material exactly when some path through its objects and arrays, not through a public JWK, ends at an offending member |
| OpenBadgeStore.OffendsExactly | src-tauri/src/commands/verification/open_badges.rs:268-280 | The private members: names of private keys, and public JWKs that are no objects, of no or of a symmetric type, or hold one of the eight private parameters |
| OpenBadgeStore.UsableDuring | src-tauri/src/commands/verification/open_badges.rs:173-252 | A record is usable during one interval, from its import and validity on until it expires or is older than the configured hours or 48, and only if it is active, consistent and free of private material |
| OpenBadgeStore.BuildGovernedStore | src-tauri/src/commands/verification/open_badges.rs:134-171 | The one-pass store holds an id exactly when exactly one usable record carries it, with that record's document and provenance; held ids and rejected records add up to the records |
| OpenBadgeStore.OrderDoesNotMatter | src-tauri/src/commands/verification/open_badges.rs:134-171 | Any permutation of the records gives the same store and the same count |
| OpenBadgeStore.BeforeFragment | src-tauri/src/commands/verification/open_badges.rs:635 | The part of a method id before its first fragment mark, if it has one |
| OpenBadgeStore.TrustHasProvenance | src-tauri/src/commands/verification/mod.rs:771-789 | On every method id the trust test and the provenance lookup agree, and the documents of the provenance found alone make the method trusted |
| OpenBadgeStore.AuthorityDocuments | src-tauri/src/commands/verification/mod.rs:782-788 | Exactly the held documents of one provenance |
| OpenBadgeStore.TrustComesFromARecord | src-tauri/src/commands/verification/open_badges.rs:630-642 | A trusted method has a usable record for its id or its id before the fragment, and the provenance found is that record's |
| DtcTrust.BuildGovernedCscaStore | src-tauri/src/commands/verification/dtc.rs:158-183 | The PEM texts of the first usable record of every certificate hash, in order, and the number of unusable records; an unreadable certificate among them fails the whole store |
| DtcTrust.UsableDuring | src-tauri/src/commands/verification/dtc.rs:185-202 | A record is usable exactly with a provenance of its own sync and at the moments that all its times allow |
| DtcTrust.LeadersRepresent | src-tauri/src/commands/verification/dtc.rs:172-174 | Every hash of a usable record is represented exactly once |
| DtcTrust.RejectedExactly | src-tauri/src/commands/verification/dtc.rs:168-174 | As many records are rejected as are unusable; a repeated certificate is not |
| DtcTrust.ExactlyOnePassedMeans | src-tauri/src/commands/verification/dtc.rs:288-294 | The verdict needs exactly one check of the name in the list, and that one passed |
| SyncLease.LeaseIsExclusive | crates/marty-sync/src/engine.rs:93-101 | In every interleaving of forced and unforced syncs, errors, cancellations and imports at most one sync is active, and the flag is set exactly while one is |
| SyncLease.ClockComesFromPackages | crates/marty-sync/src/engine.rs:213-309 | Every trust clock ever stored was there at the start or came with an applied package |
| SyncLease.SyncLeavesAnError | crates/marty-sync/src/engine.rs:239-309 | A sync keeps the stored clock and leaves an error that says whether any source is configured, and which |
| SyncLease.SyncRestoresTheClockItRead | crates/marty-sync/src/engine.rs:239-266 | A sync writes back the clock it read: imports between its read and its write are undone, visibly so exactly when the last of them carries another clock |
| SyncLease.ImportCanBeUndone | crates/marty-sync/src/engine.rs:239-266 | That happens: from rest, four events lead to a state in which the next write replaces any other imported clock by the old one |

## Left out

- Numbers with a fraction or exponent, integers beyond 2^53 - 1 and the float printer: the grammar of this model refuses them. Negative zero reads as zero.
- The schema step behind strict parsing, package validators, the certificate and key loops of a USB import, and the signature check.
- Error texts and error kinds, except where the two outcomes of a call differ.
- The nesting limit of the JSON library is a parameter; its own value is not used.
- StrictJson.ParseStrict: refuses the numbers just named, which the code accepts; a failed parse tells nothing about where or why it failed.
- StrictJson.Deserializer.DeserializeAny: refuses the numbers just named, which the code accepts.
- SignedPayload.WriteJcsValue: covers safe integers only, because the printer of other numbers is an external library.
- SignedPayload.CanonicalBytesInjective: for safe integers only; 1 and 1.0, or two integers that round to one double, are distinct values of the code with the same bytes.
- SignedPayload.SignatureCoverage: for safe integers only, for the same reason.
- SHA-256, BLAKE3, HMAC, Ed25519 and X.509 are parameters: any digest, signing or certificate-reading function.
- DurableAck.FromRequest: a queued event is its native form and the members that form discards, so the comparison with its native re-serialization asks whether any are discarded; UUIDs are canonical text.
- Reporting.DestinationFor: URL parsing is summarized by what the destination check learns of the endpoint.
- HTTP clients, TLS, redirects, response streaming and size limits; a reply is a status code with a body that is an acknowledgement or unreadable.
- Reporting.Reporter.Flush: its contract is for a flush with nothing else running; the interleavings are those of the Delivery module.
- Reporting.Reporter.QueueEvent: device and organization context, which are added to the event before it is stored, are part of the event given.
- Delivery.AcceptedEventsSurvive: what a generic endpoint does with a posted batch is not modelled.
- Delivery.DurableDelivery: nothing is said about eventual delivery; a batch that is refused locally stays at the head of the queue.
- Delivery.QueueIsBounded: no bound is claimed for a limit that changes during the run.
- NetworkMode.AppStore.SetNetworkStatus: draining the queue on going online belongs to the Delivery module.
- LivenessTable.AcceptedBeforeExpiry: clocks are whole seconds, and each step reads any time; no clock is assumed to be monotonic.
- LivenessPayload.Issue: the clock, the time format, the identifiers and the two random draws are parameters.
- OpenBadgeStore.BuildGovernedStore: timestamps are whole seconds.
- SyncLease.ClockComesFromPackages: applying a package inside the storage crate is a step that stores any record; signer rotation and the cache freshness test are not part of this model.
- The freshness warnings shown beside a trusted Open Badge method, and its warning thresholds.
- React pages, hardware detection, biometrics, policy and profile synchronization, OID4VP and eMRTD adapters, and the release scripts.
