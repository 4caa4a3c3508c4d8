# Verified model of hhm-api

A Dafny model of the parts of the HHM API server whose correctness is not visible from any one function: the
presence admission ledger (`src/presence.rs`), the visitor QR service (`src/visitor.rs`) and the route-map gate
(`scripts/check-route-sync.py`). `dafny verify dfyconfig.toml` checks everything.

## Presence admission

`PresenceLedger.dfy` holds the ledger as a value and each lock section of `issue_nonce` and `submit` as a function on it;
`PresenceAdmission.dfy` is the engine itself, a class whose methods update the five collections in place and are proved
against those functions. `PresenceProtocol.dfy` is the concurrent system: any number of calls, each with its own program
counter and timestamp, whose steps (validation, first lock, authorizer, verifier, second lock) interleave freely. The
theorem there is linearizability. `PresenceHistory.dfy` proves what holds after any sequence of lock sections, and
`PresenceSafety.dfy` projects every interleaving onto such a sequence and states the promises to callers.
`PresencePurging.dfy` compares the ledger with one that never purges. `PresenceAnswers.dfy` says from the history alone what
every lock section answers, hence which submissions are admitted; `PresenceReplies.dfy` says what every call is told in
every interleaving, retries above all.

What a call gets from outside is part of the call: the answers of `validate_shape`, of the authorizer and of the verifier
(each call asks each of them at most once), the drawn nonce or event id, and the time. `observation_digest` and
`direction_requires_confirmation` are functions of the observation, so their values are fields of it. Fresh nonces and
distinct digests are hypotheses of exactly the theorems that name them (`FreshNonces`, `FreshDraws`,
`DigestsDistinguish`), and speak of the run at hand only.

## Visitor QR service

`Text.dfy` and `Base64Url.dfy` are text, trimming, splitting, decimal numbers and unpadded base64url (RFC 4648 section 5,
canonical as in section 3.5). `VisitorClaims.dfy` prints the claims and reads the door list, `VisitorToken.dfy` issues and
verifies tokens for every text. HMAC-SHA-256 is any function to 32 bytes; the JSON reader is any function that reads back
the claims the service prints, whose minutes have 64 bits (a concrete one is given, which refuses other minutes). `VisitorLedger.dfy` and
`VisitorService.dfy` are visits and redemption counters, as a value and as the class that updates them in place.
`VisitorRuns.dfy` is about all sequences of check-ins and check-outs in lock order, with timestamps in any order, and
`VisitorAnswers.dfy` says from the history alone what each of them is told: when a code is used up, when the house is full,
how long a closed visit is remembered.

`RedemptionLimit.dfy` and `RedemptionTightness.dfy` hold the one finding here. The repository's README promises at most 128
successful redemptions per code. Counters are discarded by whoever holds the lock, using a timestamp taken before the lock.
The promise is kept exactly as long as no lock holder's whole second is more than 104 behind an earlier holder's; at 105
there is a run with 129 redemptions. No collision is assumed of the MAC beyond the codes of the run (`NoCollisions`).
In the same way, purging expired nonces is invisible exactly when timestamps never go back.

## Route-map gate

`Scanner.dfy` proves the two balanced-delimiter loops against a grammar in which quoted strings are opaque.
`RouterSpans.dfy` is the blanking of nested router spans: who owns a position of the source text. `JoinPath.dfy` is
`join_path`. `NestGraph.dfy` is which router a nest means and the walk over a possibly cyclic nest graph against the repeat-free chains of nests it must
enumerate, `NestIndex.dfy` the class whose dictionaries the walk fills, and `NestAcyclic.dfy` says when no route is lost.
Two properties one might expect are false and are stated exactly instead: spans with the same extent and different names
own a registration twice (`OwnedByTheInnermostExactly`, `SameExtentIsOwnedTwice`), and routers that only nest each other
are never mounted (`RouteIsMountedExactly`, `CycleLosesItsRoutes`).

## Model

| member | source | states |
|---|---|---|
| PresenceAdmission.Admission.constructor | src/presence.rs:132-138 | the engine starts with an empty ledger |
| PresenceAdmission.Admission.IssueLocked | src/presence.rs:160-180 | the lock section of `issue_nonce`: purge, cap, insert; the purge stays when the cap refuses |
| PresenceAdmission.Admission.FindRecorded | src/presence.rs:194-203 | the idempotency look-up, by observation id and digest and not by principal |
| PresenceAdmission.Admission.CheckCommit | src/presence.rs:232-263 | the refusals between the second look-up and the commit, in their order |
| PresenceAdmission.Admission.CommitLocked | src/presence.rs:224-303 | the second lock section of `submit`: all five collections change together, or none does |
| PresenceAdmission.Admission.Call | src/presence.rs:140-303 | a whole uninterrupted call does what the atomic specification says |
| PresenceProtocol.StepIsAtomicOrSilent | src/presence.rs:183-303 | each action of each call either is the whole atomic call or changes neither the ledger nor any response |
| PresenceProtocol.EffectIsInsideCall | src/presence.rs:183-303 | every call takes effect after its invocation and before its return |
| PresenceProtocol.Linearizability | src/presence.rs:183-303 | every interleaving gives the ledger and the responses of the same calls run atomically, each at a point inside its own interval |
| PresenceProtocol.RealTimeOrder | src/presence.rs:183-303 | a call that returned before another was invoked precedes it in the atomic order |
| PresenceHistory.Conservation | src/presence.rs:232-301 | decisions, used challenges, used evidence and the sum of all sequences equal the number of commits, at most 100,000 |
| PresenceHistory.OverflowIsUnreachable | src/presence.rs:261-263 | no sequence exceeds 100,000, so the overflow refusal never happens |
| PresenceHistory.SequenceIsCommitOrder | src/presence.rs:256-263 | a decision's sequence is its place in the commit order of its principal and house, one more than the observation claimed |
| PresenceHistory.EverySequenceIsCarried | src/presence.rs:256-294 | each number from 1 to the counter is carried by a decision of that principal and house |
| PresenceHistory.SequenceIsCarriedOnce | src/presence.rs:256-294 | at most one observation is recorded per principal, house and previous sequence |
| PresenceHistory.DecisionsAreKept | src/presence.rs:295-301 | recorded decisions are never changed or removed |
| PresenceHistory.DecisionHasItsCommit | src/presence.rs:225-231 | every recorded decision comes from exactly one lock section |
| PresenceHistory.PendingExactly | src/presence.rs:160-174 | whatever the clocks, the pending nonces are the grants not consumed and not outlived by a later issue's timestamp |
| PresenceHistory.NonceIsBound | src/presence.rs:236-245 | a commit's nonce was granted before to the same principal and house, less than 60 seconds earlier by the calls' timestamps |
| PresenceHistory.NonceIsSingleUse | src/presence.rs:236-287 | a nonce admits at most one decision over a whole run |
| PresencePurging.CapCountsOutstanding | src/presence.rs:160-180 | with timestamps in lock order an issue finds exactly the issued, unconsumed, unexpired nonces; it is refused exactly when 10,000 of them exist and else hands out the drawn nonce for 60 seconds |
| PresencePurging.PurgeIsInvisible | src/presence.rs:160-174 | with timestamps in lock order every answer equals that of a ledger that never purges, except that replayed may stand for expired |
| PresencePurging.PurgeIsInvisibleExactlyInOrder | src/presence.rs:236-242 | that holds for all runs of a given clock lag if and only if the lag is zero |
| PresenceAnswers.RetryAnswersExactly | src/presence.rs:224-231 | a commit for an observation that has a decision gets that decision when the digests agree, is a replay otherwise, and changes nothing |
| PresenceAnswers.CommitAnswersExactly | src/presence.rs:232-303 | whatever the clocks, the answer to a new observation, error by error and field by field, from the grants and commits before it |
| PresenceAnswers.AdmittedExactly | src/presence.rs:232-263 | with timestamps in lock order a submission is admitted if and only if it is new, follows its key's last decision, has an unspent grant of its own less than 60 seconds old, and fewer than 100,000 decisions exist |
| PresenceReplies.RecordedObservationIsAnswered | src/presence.rs:194-231 | in either lock section a submission whose observation is on record returns at once, with the recorded decision or as a replay |
| PresenceReplies.RetryGetsTheDecision | src/presence.rs:194-231 | once a decision was given, every later well-formed submission of that observation gets the same decision, or is a replay under another digest, without asking the oracles |
| PresenceReplies.EveryReplyFits | src/presence.rs:140-303 | every reply in every interleaving is the first refusal that applies to the call, or what the record, the issue or the commit gives |
| PresenceSafety.InterleavingIsARun | src/presence.rs:162-303 | every interleaving is, for the ledger, a sequence of lock sections |
| PresenceSafety.ReachableLedgerIsBalanced | src/presence.rs:232-301 | the conservation law in every reachable state of the concurrent system |
| PresenceSafety.SequencesAreGapFree | src/presence.rs:256-294 | in every reachable state the decisions of a principal and house carry exactly 1 to the counter, in the order of the committing actions, and the counter is at most 100,000 |
| PresenceSafety.OneDecisionPerObservation | src/presence.rs:194-231 | all successful responses for one observation id are the same decision, given for the same digest |
| PresenceSafety.DecisionHasItsCall | src/presence.rs:205-231 | each decision was committed by exactly one call, itself valid in shape, authorized and verified |
| PresenceSafety.RefusedSubmissionChangesNothing | src/presence.rs:194-260 | none of the steps of a refused submission changed the ledger |
| PresenceSafety.NonceAdmitsOneCall | src/presence.rs:236-287 | single use and binding of nonces, for calls in any interleaving |
| PresenceSafety.SuccessIsForCommittedObservation | src/presence.rs:196-200 | a submission succeeds only for the very observation that was committed, with that commit's event id and time, when digests tell observations apart |
| PresenceSafety.DecisionDescribesTheObservation | src/presence.rs:264-285 | a decision repeats its observation's identifiers and is accepted outright exactly when the direction was not ambiguous |
| Text.TrimIsTight | src/visitor.rs:213 | trimming removes all whitespace at both ends and nothing else |
| Base64Url.DecodeEncode | src/visitor.rs:328 | decoding inverts encoding |
| Base64Url.EncodeDecode | src/visitor.rs:357-369 | only the encoder's own text decodes |
| Base64Url.EncodedCharacter | src/visitor.rs:328-333 | each character is the entry of its six bits in the table of RFC 4648 section 5 |
| VisitorClaims.DoorIdExactly | src/visitor.rs:469-473 | door ids are 1 to 64 characters from 38 |
| VisitorClaims.ParseDoorIds | src/visitor.rs:462-482 | exactly the listed non-empty trimmed names, refused when one has the wrong shape or none is listed |
| VisitorClaims.CompactReaderReadsOwnClaims | src/visitor.rs:125-133 | the printed claims of every door, action and 64-bit minute can be read back, by a reader that returns no other minutes |
| VisitorToken.VerifyAcceptsExactly | src/visitor.rs:336-395 | a text is accepted if and only if it is the canonical signed encoding of a payload with matching claims, within its 76 seconds |
| VisitorToken.VerifyRefusesExactly | src/visitor.rs:343-394 | which error a refused text gets: unknown door, expired, or invalid |
| VisitorToken.IssuedTextIs | src/visitor.rs:180-333 | the text of an issued code, character by character, for the door and action asked for |
| VisitorToken.FreshTokenWorks | src/visitor.rs:173-395 | a code verifies from the moment it is issued, and for 15 to 75 seconds more |
| VisitorToken.IssueSucceedsExactly | src/visitor.rs:173-197 | issuing succeeds for configured doors as long as the expiry can be represented |
| VisitorToken.TokenRoundTrip | src/visitor.rs:173-395 | an issued token verifies for its door and action in exactly the seconds from its minute to its advertised expiry; what is answered elsewhere |
| VisitorToken.AcceptedTokenHasKey | src/visitor.rs:490-496 | an authentic token always has a redemption key, the 43 characters of its signature |
| VisitorToken.AcceptedTokensAreCanonical | src/visitor.rs:347-365 | two authentic tokens with the same payload segment are the same text |
| VisitorService.Service.CheckIn | src/visitor.rs:199-269 | `check_in` updates counters and visits in place as the specification says, refusals in order |
| VisitorService.Service.CheckInUnderLock | src/visitor.rs:218-268 | the lock section of `check_in`: what is discarded is discarded also when the request is then refused |
| VisitorService.Service.CheckOut | src/visitor.rs:271-302 | `check_out` closes the visit and erases the name, or changes nothing |
| VisitorService.Service.ActiveVisitCount | src/visitor.rs:304-312 | the number of open visits |
| VisitorRuns.VisitConservation | src/visitor.rs:232-312 | open visits are check-ins less check-outs, at most 4,096, and a name is kept exactly while its visit is open |
| VisitorRuns.CheckedOutOnce | src/visitor.rs:286-296 | no visit is checked out twice, also after its record is discarded |
| VisitorRuns.OpenVisitCanBeClosed | src/visitor.rs:252-302 | whatever happened since, an open visit's receipt with any valid exit code closes it |
| VisitorRuns.OnlyItsReceiptCloses | src/visitor.rs:413-423 | a visit closes only with a valid exit code and a receipt whose tag is that of the receipt handed out |
| VisitorRuns.CheckInKeepsBoundedName | src/visitor.rs:204-216 | a check-in needs a verified code and the current notice, and keeps a trimmed name of 1 to 120 characters without controls |
| VisitorAnswers.ClosedVisitIsKeptExactly | src/visitor.rs:232-237 | a closed visit is on record until a check-in that passes the redemption limit comes more than 24 hours after the closing |
| VisitorAnswers.RepeatedCheckOutAnswersExactly | src/visitor.rs:286-293 | checking out again answers "already checked out" until then and "not found" afterwards |
| VisitorAnswers.EarlyCheckOutRefusal | src/visitor.rs:276-285 | a check-out refused by its code or the length of its receipt |
| VisitorAnswers.CheckOutAnswersExactly | src/visitor.rs:286-301 | what a check-out with a verified code answers, from the check-ins and check-outs before it |
| VisitorAnswers.CounterExactly | src/visitor.rs:220-251 | whatever the clocks, a counter holds the minute of the redemption that started it and counts the redemptions since, until it is discarded |
| VisitorAnswers.CheckInAnswersExactly | src/visitor.rs:199-269 | up to 104 seconds of lag, what every check-in answers, error by error: its code is used up exactly after 128 redemptions, the house full exactly at 4,096 open visits |
| RedemptionLimit.DiscardingIsInvisible | src/visitor.rs:220-251 | up to 104 seconds of lag every answer equals that of a service that never discards counters or visits; only a repeated check-out of a discarded visit is named differently |
| RedemptionLimit.RedemptionLimitHolds | src/visitor.rs:218-251 | up to 104 seconds of lag no token is redeemed more than 128 times over a whole run |
| RedemptionTightness.OneRedemptionTooMany | src/visitor.rs:218-251 | at 105 seconds of lag a run with 129 redemptions of one token exists, with distinct visit ids and UUID texts for receipts |
| RedemptionTightness.RedemptionLimitExactly | src/visitor.rs:218-251 | the limit holds over all runs of a given lag if and only if the lag is at most 104 seconds |
| Scanner.ScanParentheses | scripts/check-route-sync.py:100-128 | from an opening parenthesis, the balanced text up to its closer and the index after it, or the rest when nothing closes it |
| Scanner.ScanBraces | scripts/check-route-sync.py:159-184 | the same for braces; unclosed text comes back with its brace |
| Scanner.ScanOverBalanced | scripts/check-route-sync.py:108-127 | the scan passes over every balanced text, with strings and escapes opaque |
| Scanner.ScannedIsBalanced | scripts/check-route-sync.py:108-127 | whatever the scan closes is balanced text |
| Scanner.ScanFindsTheCloser | scripts/check-route-sync.py:108-128 | the scan returns at an index if and only if the grammar closes the delimiter there |
| RouterSpans.BlankNested | scripts/check-route-sync.py:326-336 | the blanking loops leave exactly the surviving positions of a span |
| RouterSpans.ScanRouterFns | scripts/check-route-sync.py:325-346 | the bodies of all spans, and the text outside all of them in order |
| RouterSpans.EveryPositionHasOnePlace | scripts/check-route-sync.py:326-346 | with nested-or-disjoint distinct spans each position is left in the innermost body only, or in the top-level text only |
| RouterSpans.OwnedByTheInnermostExactly | scripts/check-route-sync.py:326-337 | the innermost span's name owns a position, alone if and only if all innermost spans there share it |
| RouterSpans.SameExtentIsOwnedTwice | scripts/check-route-sync.py:331-336 | two spans of one extent with different names both own their text |
| JoinPath.JoinExactly | scripts/check-route-sync.py:247-252 | an empty or "/" prefix leaves the path, a "/" path leaves the prefix, and all else meets in exactly one slash |
| JoinPath.JoinRegroupsExactly | scripts/check-route-sync.py:247-252 | joining regroups around a middle segment, for all ends, if and only if it is "/" or contains a non-slash |
| NestGraph.TargetExactly | scripts/check-route-sync.py:402-410 | a callee is the router of that name, else the one in its caller's module, else the only one whose name ends in it |
| NestGraph.TargetIsRecorded | scripts/check-route-sync.py:402-410 | a nest leads to a recorded router or nowhere |
| NestGraph.WalkIsSound | scripts/check-route-sync.py:412-421 | whatever the walk registers is mounted by a repeat-free chain of nests |
| NestGraph.WalkIsComplete | scripts/check-route-sync.py:412-421 | whatever a repeat-free chain mounts, the walk registers |
| NestGraph.ResolutionIsExact | scripts/check-route-sync.py:423-434 | resolution registers exactly what chains from un-nested routers mount |
| NestGraph.AccumulatedPrefixRegroups | scripts/check-route-sync.py:412-421 | the prefix accumulated along a chain gives the path of mounting outwards |
| NestIndex.SourceIndex.AddRoute | scripts/check-route-sync.py:239-244 | `add_route` adds the methods to the path and the named handlers to each path and method |
| NestIndex.SourceIndex.WalkFrom | scripts/check-route-sync.py:412-421 | the recursive walk adds exactly its registrations, and ends on cyclic graphs |
| NestIndex.SourceIndex.NestedNames | scripts/check-route-sync.py:423-428 | the routers that some router nests |
| NestIndex.SourceIndex.ResolveNesting | scripts/check-route-sync.py:394-434 | the walks from all un-nested routers |
| NestIndex.TablesHoldTheMounts | scripts/check-route-sync.py:239-244 | the tables hold what they held and the methods and named handlers of each mount, and nothing else |
| NestIndex.ResolvedRoutesExactly | scripts/check-route-sync.py:394-434 | a method is at a path if and only if a repeat-free chain from an un-nested router mounts it there; the handler keys are the same pairs, with exactly the named handlers of those mounts |
| NestAcyclic.NoRouteIsLostWhenAcyclic | scripts/check-route-sync.py:423-434 | on an acyclic nest graph every registered route is mounted under at least one full path |
| NestAcyclic.RouteIsMountedExactly | scripts/check-route-sync.py:412-434 | a registered route is mounted through its router if and only if some chain of nests from an un-nested router leads there, and then resolution registers it |
| NestAcyclic.RootRoutesKeepTheirPath | scripts/check-route-sync.py:430-434 | what an un-nested router registers is mounted at exactly the path it was given |
| NestAcyclic.CycleLosesItsRoutes | scripts/check-route-sync.py:430-434 | routers that nest each other have no root and nothing of theirs is mounted |

## Left out

- Cryptographic strength of HMAC-SHA-256 and SHA-256, constant-time comparison and the randomness of UUIDs: they appear as arbitrary functions and as stated hypotheses.
- `validate_shape`, `direction_requires_confirmation` and the field types of hhm-interfaces are not part of this model; observations carry only the fields that `submit` reads.
- The whole of serde_json: what the reader accepts beyond the service's own claims is open, and `VerifyAcceptsExactly` holds whatever it is.
- Reading the environment and the length check on the signing key: flat input checks.
- Overflow of calendar arithmetic at the ends of chrono's range (`now + 60 s`, `now - 24 h`), which panics; the largest expiry that can be represented is a parameter of the configuration.
- Cancellation of a call between its locks, and lock fairness: every prefix of an interleaving is covered, liveness is not.
- `_collect`, the regular expressions, `_statement_end` and `strip_cfg_test`: router spans, routes and nests are inputs of the model. Merging same-named spans into one router is seen through the set of owner names.
- `compare`, `_compare_signatures`, `normalize_path`, file walking and configuration of the gate: flat set differences and input handling.
- `from_verified_identity` and its component checks: flat input checks; principals are compared only.
- `src/main.rs`, `src/auth.rs`, `src/observability.rs` and the reservation store: transport, a remote guard, and a capped insert.
