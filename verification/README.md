# A verified model of the key management service

The repository is a key management service written in TypeScript for the CCF platform. This project models
its state machines in Dafny and proves what they keep over whole runs:

- **Keys.** `refresh` appends keys under dense ids; public-key clients see the newest key that has the grace
  age, or the newest of all while none has, private-key clients the newest key; `unwrapKey` refuses keys past
  their rotation interval. `KeyLifecycle` is the machine over a clock that never goes back; `Exposure`,
  `PublicPicks` and `Schedule` say what public-key clients see, when that is too young or an older key than
  before, and when it can be an expired key; `KeyEndpoints` gives the answers of the endpoints, `PublicAnswers` and
  `UnwrapAnswers` say which key and what status they amount to, `ExpiryGate` when an expired key is served, and
  `Escapes` what becomes of line breaks in wrapping keys; `KeyService` holds the stores and handlers as objects that
  are updated in place.
- **Proposals.** A post is compared with the retained proposals only, and deletes one proposal of every creation
  time outside the newest five. `Proposals` states what this still guarantees about everything ever accepted,
  `ProposalWindow` what exactly is left after any run, `ProposalActions` what the actions of a proposal do;
  `ProposalLog` is the table with its two endpoints.
- **Key release policy.** `ReleasePolicy`, `PolicyAlgebra` and `BoundsAlgebra` are the edits and their laws,
  `ReleasePolicyStore` the in-place editing of the table, `Validator` the verdict on an attestation, `PolicyOrder`
  when one policy lets in nothing that another refuses, and `AttestedRelease` ties the stored policy, its edits and
  the caller's choice of attestation provider to what `unwrapKey` serves.
- **Governance tables** of the constitution: `Recovery` and `MemberEffects` (members, recovery threshold,
  configuration), `Nodes` and `NodeEffects` (admission, retirement, certificates), `JsApp` and `ServedBundle`
  (modules and endpoints), `Hex` (`hexStrToBuf` against the printers), `Kids` (key identifiers) and `KeyRotation`
  (expiry arithmetic).

Each part has a value-level machine, with theorems over all its runs, and, where the source updates state in
place, a class whose methods are proved to take exactly the steps of that machine.

## Assumptions

- A handler or action that throws or answers with an error status commits none of its writes; every request is
  one transaction. The one step that is not the service's own but needed for meaningful runs is in the machines
  as well: time passing, a member acknowledging, a node asking to join.
- Numbers are mathematical integers, or reals in policy values.
- Reading a store parses serialised JSON, so what a handler holds is a fresh object; stored values are values.
- Digests of proposals and of action arguments are injective. Everything else the platform computes (digests of
  wrapping keys, the PEM check, sealing, receipts, the outcome of authentication, the verified report, creation
  times, upper case, number printing and reading) is a parameter, and every theorem holds for all values of it.

## Where the code differs from what it says, or from what one would expect

- The expiry check reports a key as "deprecated" before it expires, but adds the grace period after the expiry
  time; that state exists only when the grace period is negative (`KeyRotation.DeprecatedAloneIffNegativeGrace`).
- The comments of the proposal endpoint ask for a proposal signed more recently than the last accepted one. Equal
  times are accepted: a past proposal can be posted again exactly when it has the newest creation time
  (`Proposals.ReplayAcceptedIff`).
- The same comments promise the last five proposals. The time index names one proposal per creation time, so a
  post deletes one proposal of every time outside the newest five, and ties outlive the window
  (`ProposalWindow.RetainedCountIs`, `Proposals.TiesOverflowWindow`). For different proposals the promise is kept
  exactly when their times strictly increase, once more than five are accepted (`ProposalWindow.AlwaysWindowIff`).
- The caller chooses the attestation provider in the request body, and the GCP provider stops after the signature
  of the report: the stored release policy binds a request exactly when its provider is not `gcp`
  (`AttestedRelease.PolicyBindsIff`, `AttestedRelease.RefusedReportIsServedViaGcp`).
- A recorded `gt` operator replaces the verdict of `gte`; the validator is the conjunction exactly when at most
  one operator is recorded (`Validator.ConjunctionIffOneOperator`, `Validator.GtReplacesGte`).
- The exposure rule is to give private-key clients the grace period to fetch a key before public-key clients see
  it. While no key has the grace age the fallback hands out the newest key at once, so a key younger than the grace
  period is public exactly while the first key is younger than it (`PublicPicks.PickIsYoungIff`,
  `PublicPicks.NewKeyIsPublicIff`, `PublicPicks.FirstKeyIsPublicAtOnce`).
- For the same reason the public pick can go back to an older key along a run: it never does exactly when the first
  key has the grace age (`PublicPicks.PickNeverDecreasesIff`). It also goes back when governance lengthens the
  grace period; the exact condition is in `Exposure.PolicyStepsBackIff`.
- The published expiry of a key counts from the first clock reading of its refresh and the policy then in force, the
  expiry gate from the second reading and the policy now in force (`ExpiryGate.GateAgainstPublishedExpiry`).
- A stored claim list can be empty, after adding a new name with an empty array; it then refuses every attestation
  (`PolicyAlgebra.AddKeepsWellFormedIff`, `Validator.EmptyListRefusesAll`).
- The test that a claim name is allowed is a lookup in an object, which finds inherited names as well: a bound can be
  stored under a name like `constructor` (`PolicyAlgebra.InheritedBoundIsStored`,
  `PolicyAlgebra.EditKeepsBoundsNamedIff`), where it refuses everything (`PolicyOrder.InheritedBoundRefusesAll`).
- Taking back a `gt` bound does not undo adding it: the operator stays recorded without bounds and still replaces
  `gte`, so the claims alone decide (`BoundsAlgebra.TakenBackGtDisablesGte`, `BoundsAlgebra.AddThenRemoveBoundsIff`).
- Twelve of the names a policy may use are never read off a report, and a policy with one of them lets nobody in by
  the default route (`AttestedRelease.ClaimNamesAre`, `AttestedRelease.NeverReportedLocksOut`).
- Adding a bound can let in what was refused before (`PolicyOrder.AddingGtLetsIn`); the exact condition is in
  `PolicyOrder.AddingBoundsKeepsRefusingIff`.
- `set_member` on an active recovery member skips the check `remove_member` makes
  (`Recovery.SetMemberKeepsIff`), and `set_recovery_threshold` passes on a proposals window it does not check
  (`Recovery.StepKeepsBoundsIff`, `Recovery.WindowOfZeroIsCommitted`).
- Only `unwrapKey` has an expiry gate (`ExpiryGate.ExpiryGateIsUnwrapKeyOnly`); `unwrapKeyGcp` serves an expired key
  exactly when the newest key is past its interval (`ExpiryGate.SealsExpiredIff`), which a refresh schedule rules
  out exactly when its gap fits in the interval (`ExpiryGate.GcpScheduleIsSafeIff`).
- A method name with a blank can make two endpoints of a bundle share a table key (`JsApp.KeyDeterminesEndpoint`).

## Model

| member | source | states |
|---|---|---|
| Schedule.ScheduleIsSafeIff | src/policies/KeyRotationPolicy.ts:111-220 | For every refresh gap and every rotation policy: no reachable state on that schedule gives public-key clients a key the expiry check refuses, if and only if the worst age (gap plus grace period less one millisecond, or the gap alone without a grace period) fits in the rotation interval |
| Schedule.GapAndGraceWithinIntervalIsSafe | src/endpoints/publickeyEndpoint.ts:31-38 | Gap plus a nonnegative grace period within the rotation interval is always safe, by scan or by fallback |
| Schedule.WorstRunPicksExpired | src/endpoints/refreshEndpoint.ts:36-64 | A run for every gap and policy beyond the bound, on schedule throughout, at whose end the picked key is expired |
| Exposure.ScanRefinesCount | src/policies/KeyRotationPolicy.ts:187-220 | In every reachable state no id lacks a kid, item or timestamp, the ids of at least the grace age are exactly 1..m, and the countdown returns m, or nothing when m is zero |
| Exposure.ScanStopsAtLargest | src/policies/KeyRotationPolicy.ts:204-219 | In any state, reachable or not, the countdown answers the largest id whose kid has no item, no timestamp, or the grace age, and skips ids without a kid |
| Exposure.ExposedFromGraceAgeOn | src/policies/KeyRotationPolicy.ts:200-219 | From the moment key k has the grace age, key k or a later one is exposed, over every run with this policy |
| PublicPicks.PickNeverDecreasesIff | src/policies/KeyRotationPolicy.ts:200-219 | Along no run with this policy is an older key picked after a newer one, if and only if the first key has the grace age |
| PublicPicks.PickIsYoungIff | src/policies/KeyRotationPolicy.ts:174-220 | In every reachable state with keys, the key given to public-key clients is younger than the grace period if and only if the first key is |
| PublicPicks.NewKeyIsPublicIff | src/endpoints/publickeyEndpoint.ts:31-38 | Right after a refresh public-key clients are given the new key, by scan or by fallback, if and only if there is no grace period or even the first key is younger than it |
| PublicPicks.FirstKeyIsPublicAtOnce | src/endpoints/publickeyEndpoint.ts:89-100 | A run with a grace period of a minute at whose end the key just made is public |
| PublicAnswers.ListPubKeysAnswers | src/endpoints/publickeyEndpoint.ts:18-69 | In every reachable state `listpubkeys` answers 400 if and only if there is no key, and else the number and public part of the newest key of the grace age, or of the newest while no key has it |
| PublicAnswers.PubKeyAnswers | src/endpoints/publickeyEndpoint.ts:80-156 | In every reachable state, for the kid named or that of the same number: 400 if and only if the format is unknown, 404 if and only if no number has the kid, 202 if and only if the receipt is not there, and else the stored key of that number in either format, with its receipt and without its private part |
| PublicAnswers.PubKeyWithoutKeys | src/endpoints/publickeyEndpoint.ts:101-108 | Without a kid and without a key `pubkey` answers 400 |
| PublicAnswers.PublicNumberIsPicked | src/policies/KeyRotationPolicy.ts:200-219 | There is such a number whenever there is a key, and the pick is the only one |
| Exposure.NeverStepsBackIff | src/endpoints/publickeyEndpoint.ts:89-100 | No key older than the one picked now is picked over any run with this policy, if and only if the first key has the grace age or all keys were made at one instant |
| Exposure.PolicyStepsBackIff | src/policies/KeyRotationPolicy.ts:196-219 | A new policy makes the pick go back to an older key, if and only if its grace period is more than the age of the picked key and at most the age of the first |
| Exposure.TimelineRun | src/endpoints/refreshEndpoint.ts:36-64 | After any run the stores carry the creation times of a bare timeline, in order and none in the future |
| Exposure.OldEnoughIsPrefix | src/policies/KeyRotationPolicy.ts:204-218 | On an ordered timeline the keys of a given age are the first so many |
| Exposure.PickIsPickNumber | src/endpoints/publickeyEndpoint.ts:89-100 | The key a public-key client gets is determined by the count of old-enough keys alone, and carries the creation time of that number |
| KeyLifecycle.NewKidIsFresh | src/endpoints/refreshEndpoint.ts:53-64 | No refresh overwrites a key: whatever the digest text, the new kid is not in the store |
| KeyLifecycle.StepKeepsInv | src/endpoints/refreshEndpoint.ts:36-64 | Every step keeps ids dense, the two stores linked one to one, creation times in order, and everything stored before |
| KeyLifecycle.RunKeepsInv | src/repositories/LastestItemStore.ts:22-45 | The same over every run |
| KeyLifecycle.StoresStayInStep | src/repositories/LastestItemStore.ts:26-34 | From the empty service on: ids are exactly 1..n, both stores have n entries, ids have different kids, each kid leads to its own key, and every key keeps its private part |
| KeyLifecycle.RefreshAppends | src/endpoints/refreshEndpoint.ts:53-64 | In every reachable state a refresh makes both stores one larger, under an id and kid that were free |
| KeyLifecycle.KidResolvesForever | src/repositories/KeyStore.ts:26-33 | A kid once handed out names the same key after any further run |
| Kids.KidDeterminesParts | src/endpoints/refreshEndpoint.ts:59-61 | Two kids are equal if and only if digest text and number are, although the digest alphabet contains the separator |
| Kids.DecimalStandsFor | src/endpoints/refreshEndpoint.ts:59-61 | The number of a kid is written in decimal digits that stand for it, without a zero in front |
| KeyRotation.DeprecatedAloneIffNegativeGrace | src/policies/KeyRotationPolicy.ts:151-172 | Some key is ever deprecated and not expired if and only if the grace period is negative |
| KeyEndpoints.HalvesBelongTogether | src/endpoints/publickeyEndpoint.ts:72-162 | What `pubkey` hands out and what `unwrapKey` seals for its kid at any later time, in either format, are the two halves of one pair some refresh stored |
| KeyEndpoints.UnwrapSucceedsIff | src/endpoints/keyEndpoint.ts:233-449 | In every reachable state `unwrapKey` succeeds if and only if the request is in order, attestation holds, the report data begins with the digest bytes of the wrapping key, the kid names a key within its interval, and the wrapping key can be used |
| KeyEndpoints.NamesCurrentKeyIff | src/endpoints/keyEndpoint.ts:383-409 | A kid passes the lookup and the expiry gate if and only if it is the kid of a numbered key no older than the rotation interval |
| KeyEndpoints.ExposedKeyCanBeUnwrapped | src/policies/KeyRotationPolicy.ts:174-220 | On a safe schedule, whatever key a public-key client is given can be unwrapped at that moment by any request in order |
| KeyEndpoints.PublicAnswersIgnorePrivateParts | src/endpoints/publickeyEndpoint.ts:18-162 | Two states that differ only in private parts give equal answers to every public-key request; a returned key has no private part |
| KeyEndpoints.StoredKeysArePrivate | src/endpoints/refreshEndpoint.ts:57-69 | Every stored key keeps its private part, carries its own kid and never a receipt |
| KeyEndpoints.SamePayload | src/endpoints/keyEndpoint.ts:543-552 | For one kid both unwrap endpoints seal the same payload: the stored key with its private part and no receipt |
| KeyEndpoints.NewKeyIsPrivateFirst | src/endpoints/keyEndpoint.ts:135-149 | Right after a refresh private-key clients get the new key; public-key clients get it too, by scan or by fallback, if and only if there is no grace period or even the first key is younger than it, and an older key else |
| KeyEndpoints.KeySucceedsIff | src/endpoints/keyEndpoint.ts:135-219 | In every reachable state `key` answers for exactly the kids handed out, or the newest, whatever their age, once attestation holds and the format is known; the answer carries no key material |
| KeyEndpoints.KeyAnswers | src/endpoints/keyEndpoint.ts:135-219 | The receipt in the answer of `key`, and its statuses: 400 without a key or a known format, that of a failed attestation, 404 for a kid no number has |
| UnwrapAnswers.UnwrapServedIff | src/endpoints/keyEndpoint.ts:233-449 | In every reachable state `unwrapKey` succeeds if and only if the caller is authenticated and sent an attestation, a kid, a PEM wrapping key and a known format, the report begins with the digest of the wrapping key, the kid names a key within its interval, and the wrapping key can be used |
| UnwrapAnswers.UnwrapSeals | src/endpoints/keyEndpoint.ts:411-436 | It then seals the stored key without receipt, or its private part alone, for that wrapping key, and answers the receipt or nothing |
| UnwrapAnswers.UnwrapRefuses | src/endpoints/keyEndpoint.ts:252-409 | The status of every refusal; for a complete and bound request 404 if and only if no number has the kid, and 410 if and only if its key is past its interval |
| UnwrapAnswers.GcpServedIff | src/endpoints/keyEndpoint.ts:451-572 | In every reachable state `unwrapKeyGcp` succeeds if and only if the caller is authenticated and sent a PEM wrapping key, the only or first nonce of the token is lower-case hex that reads as the digest of the unescaped wrapping key, there is a key, and the wrapping key can be used |
| UnwrapAnswers.GcpSeals | src/endpoints/keyEndpoint.ts:527-556 | It then seals the newest key without receipt for the unescaped wrapping key, and answers its kid and the receipt or nothing |
| UnwrapAnswers.GcpRefuses | src/endpoints/keyEndpoint.ts:460-539 | The status of every refusal: 401 without identity, 400 for a missing or malformed key, a missing nonce, a token issued for another wrapping key, or no key to serve, 500 for an empty list of nonces or an unusable wrapping key |
| Escapes.UnescapeAtPair | src/endpoints/keyEndpoint.ts:501-502 | Every backslash before an n becomes, with it, one line break, wherever the two stand |
| Escapes.UnescapeLeaves | src/endpoints/keyEndpoint.ts:501-502 | A text without such a pair is left as it is |
| Escapes.UnescapeHasNoEscape | src/endpoints/keyEndpoint.ts:501-502 | No such pair is left |
| Escapes.UnescapeUndoesEscapeIff | src/endpoints/keyEndpoint.ts:484-503 | The server recovers the text a client escaped, if and only if that text had no backslash before an n |
| ExpiryGate.ExpiryGateIsUnwrapKeyOnly | src/endpoints/keyEndpoint.ts:397-409 | For the newest key and requests in order, `unwrapKeyGcp` always serves it, while `unwrapKey` answers 410 if and only if the key is past its interval, and serves it otherwise |
| ExpiryGate.GcpSucceedsIff | src/endpoints/keyEndpoint.ts:451-572 | In every reachable state `unwrapKeyGcp` succeeds if and only if the request is in order, a key exists and the wrapping key can be used; it serves the newest key |
| ExpiryGate.SealsExpiredIff | src/endpoints/keyEndpoint.ts:527-556 | What it serves is a key the expiry check refuses, if and only if it succeeds after the newest key's interval |
| ExpiryGate.GcpScheduleIsSafeIff | src/endpoints/keyEndpoint.ts:527-541 | For every refresh gap and policy: no reachable state on that schedule has an expired newest key, if and only if the gap fits in the rotation interval |
| ExpiryGate.LateRunExpiresNewest | src/endpoints/refreshEndpoint.ts:36-64 | A run for every gap and policy beyond that bound, on schedule, at whose end the newest key is expired |
| ExpiryGate.PublishedExpiryIs | src/endpoints/publickeyEndpoint.ts:120-156 | After any further run `pubkey` publishes as expiry of a key its first clock reading plus the interval then in force, or nothing when that is zero or there was no policy |
| ExpiryGate.GateAgainstPublishedExpiry | src/policies/KeyRotationPolicy.ts:151-172 | After any further run a key passes the gate, if and only if there is no policy or the time since its published expiry is at most what the refresh took plus what the interval was lengthened by |
| ExpiryGate.ServedAtPublishedExpiryIff | src/endpoints/keyEndpoint.ts:397-409 | At its published expiry a key still passes the gate, if and only if there is no policy or the interval was shortened by no more than the refresh took |
| KeyService.KeyItem.Parse | src/repositories/KeyStore.ts:14-18 | An item read from the store is a new object holding the stored value |
| KeyService.LastestItemStore.StoreItem | src/repositories/LastestItemStore.ts:37-45 | Sets one entry and nothing else |
| KeyService.LastestItemStore.LatestItem | src/repositories/LastestItemStore.ts:27-34 | The size doubles as the newest id; nothing for an empty store |
| KeyService.KeyStore.StoreItem | src/repositories/KeyStore.ts:26-33 | Stores the serialised value, so later changes to the object do not reach the store |
| KeyService.KeyStore.Get | src/repositories/KeyStore.ts:22-24 | A fresh object with the stored value, or none |
| KeyService.GenerateKeyItem | src/endpoints/KeyGeneration.ts:31-49 | A fresh item with the generated pair, timestamp and id; an expiry of zero is left out |
| KeyService.WrapKeyJwt | src/endpoints/KeyWrapper.ts:217-250 | Removes the receipt from the caller's object and seals the rest; without a wrapping key nothing is sealed |
| KeyService.CreateWrappedPrivateTinkKey | src/endpoints/KeyWrapper.ts:112-163 | Seals the private part, or throws without one; without a wrapping key nothing is sealed |
| KeyService.Service.SetKeyRotationPolicy | src/actions/set_key_rotation_policy.js:32-43 | Takes the policy step of the machine |
| KeyService.Service.Refresh | src/endpoints/refreshEndpoint.ts:23-75 | Takes the refresh step of the machine between its two clock readings; the answer is the stored key without its private part, whose deletion does not reach the store; a caller without identity changes nothing |
| KeyService.Service.GetLatestExposableKey | src/policies/KeyRotationPolicy.ts:187-220 | The loop computes the countdown from the store size |
| KeyService.Service.CurrentPublicKid | src/endpoints/publickeyEndpoint.ts:89-100 | The exposable kid, else the newest one |
| KeyService.Service.ListPubKeys | src/endpoints/publickeyEndpoint.ts:18-69 | Answers as the machine does and changes no store, though it deletes the private part of its copy |
| KeyService.Service.PubKey | src/endpoints/publickeyEndpoint.ts:72-162 | The same for one kid or the current one, in both formats, accepted while the receipt is not ready |
| KeyService.Service.Key | src/endpoints/keyEndpoint.ts:110-225 | Answers as the machine does, with every error status in order, and leaves the stores as they are although it edits its copy |
| KeyService.Service.UnwrapKey | src/endpoints/keyEndpoint.ts:233-449 | Answers as the machine does, with every error status in order, and leaves the stores as they are although it edits its copy |
| KeyService.Service.UnwrapKeyGcp | src/endpoints/keyEndpoint.ts:451-572 | The same for the GCP endpoint |
| Proposals.WindowRemembersNewest | src/endpoints/proposals.ts:205-217 | Over every run, ties included: the newest accepted proposal is retained, nothing accepted is newer, and a dropped proposal has at least five later accepted times |
| Proposals.ReplayAcceptedIff | src/endpoints/proposals.ts:162-173 | A proposal accepted at any time in the past is accepted again if and only if it has the newest creation time |
| Proposals.DroppedStaysRejected | src/endpoints/proposals.ts:162-173 | A dropped proposal is refused, and stays out of the table, in every later state |
| Proposals.PostKeepsInv | src/endpoints/proposals.ts:153-217 | Every accepted post keeps what the window remembers of the whole past |
| Proposals.RunKeepsInv | src/endpoints/proposals.ts:153-217 | The same over every run |
| Proposals.RunGrows | src/endpoints/proposals.ts:205-217 | One accepted post makes a run one step longer, so the theorems reach every state of the service |
| Proposals.TableIsWindow | src/endpoints/proposals.ts:205-217 | With strictly increasing times the table is exactly the last five accepted proposals, or all while there are fewer |
| Proposals.ListingIsAcceptanceOrder | src/endpoints/proposals.ts:228-245 | With strictly increasing times the listing is that window in order of acceptance |
| Proposals.TiesOverflowWindow | src/endpoints/proposals.ts:211-217 | Different proposals of one creation time are all kept, however many, while no other time is accepted |
| ProposalWindow.PostDropsOnePerOutdatedTime | src/endpoints/proposals.ts:153-217 | For any table, post and time index: one retained proposal goes of every creation time with five newer ones, and none of any other time |
| ProposalWindow.RetainedCountIs | src/endpoints/proposals.ts:205-217 | Over every run and for every creation time, ties included: as many proposals are retained as were accepted with it, less one for every post since five later times were accepted |
| ProposalWindow.NewestLoseNothing | src/endpoints/proposals.ts:205-217 | Of a time with fewer than five accepted later ones, everything accepted is retained |
| ProposalWindow.FiveLaterRetained | src/endpoints/proposals.ts:213-217 | If five times after a given one were ever accepted, five of them are retained |
| ProposalWindow.AlwaysWindowIff | src/endpoints/proposals.ts:205-217 | For every run of pairwise different proposals: the table is the last five accepted ones, or all while there are fewer, in every state, if and only if at most five were accepted or their times strictly increase |
| ProposalWindow.TieBreaksWindow | src/endpoints/proposals.ts:211-217 | A tie among six neighbours makes the table differ from the last five after the last of them |
| ProposalLog.Service.PostProposals | src/endpoints/proposals.ts:88-220 | The status of every outcome; a refused or failing request changes nothing; an accepted one runs its actions in order, answers with the digest of each one's arguments and the proposer, and takes one step of the log |
| ProposalActions.DoneIff | src/endpoints/proposals.ts:184-203 | The actions leave given tables, if and only if a chain of tables leads there from the old ones, each action known by its name and taking one to the next |
| ProposalActions.NotFoundIff | src/endpoints/proposals.ts:187-194 | The request ends with 404, if and only if a chain leads to an action that is unknown |
| ProposalActions.ThrewIff | src/endpoints/proposals.ts:196-197 | It ends with an exception, if and only if a chain leads to a known action that throws |
| ProposalActions.ResultsAt | src/endpoints/proposals.ts:199-202 | Each action is answered for, in order, by the digest of its own arguments and the proposer |
| ProposalActions.ResultsDetermineArgs | src/endpoints/proposals.ts:199-202 | Two answers are equal, if and only if the arguments are, action by action, and the proposer |
| ProposalLog.Service.IndexByTime | src/endpoints/proposals.ts:153-160 | One retained proposal for every retained creation time, in whatever order the table is read |
| ProposalLog.Service.Evict | src/endpoints/proposals.ts:213-217 | Deletes exactly the proposals indexed for times outside the newest five |
| ProposalLog.EvictedByPlace | src/endpoints/proposals.ts:213-217 | Cutting the sorted times five from the end is the same as asking for at least five newer times |
| ProposalLog.Service.GetProposals | src/endpoints/proposals.ts:222-248 | Every retained proposal once, oldest first, in hex |
| ProposalLog.ListedInAcceptanceOrder | src/endpoints/proposals.ts:222-248 | What `getProposals` prints after a run with strictly increasing times is the last five accepted proposals, in order |
| ProposalLog.SortedEntriesList | src/endpoints/proposals.ts:236-245 | Sorting the entries, in whatever order they were read, lists the table |
| ProposalLog.SortByTimeSorts | src/endpoints/proposals.ts:236 | Sorting orders by time and keeps every entry as often as it was there |
| ReleasePolicy.RemoveMeaning | src/actions/set_key_release_policy.js:208-246 | A removal succeeds if and only if every name is allowed and present, inherited names with no item to remove included, and no item follows the one that empties its list; then every named list is its ordered difference, emptied ones are gone, others untouched |
| BoundsAlgebra.AddMeaning | src/actions/set_key_release_policy.js:76-102 | An addition succeeds if and only if every name is a claim, or inherited and recorded or without items; then each named list has what it had and what it was given, others are untouched |
| BoundsAlgebra.SingleCountsAsArray | src/actions/set_key_release_policy.js:83-102 | A value given alone is added and removed like an array of that value, and is in the list once added |
| BoundsAlgebra.AddBoundsMeaning | src/actions/set_key_release_policy.js:146-160 | An addition of bounds succeeds if and only if every name is a claim or inherited and carries no array; then named bounds are replaced, others untouched |
| BoundsAlgebra.RemoveBoundsMeaning | src/actions/set_key_release_policy.js:284-308 | A removal of bounds succeeds if and only if every name is a claim or inherited, carries no array, and is bound or inherited; then exactly the bounds not named are left, unchanged |
| BoundsAlgebra.EditSucceedsIff | src/actions/set_key_release_policy.js:320-345 | A whole edit succeeds if and only if it adds or removes and every part of it does, to remove from only what is recorded; else nothing changes |
| BoundsAlgebra.AddThenRemoveBoundsIff | src/actions/set_key_release_policy.js:114-318 | Removing the bounds just added restores the whole table, if and only if claims and every named operator were recorded before and no name was bound |
| BoundsAlgebra.TakenBackGtDisablesGte | src/policies/KeyReleasePolicy.ts:225-246 | After `gt` bounds were added to a policy without `gt` and taken back, its `gte` bounds count no more |
| BoundsAlgebra.RemovingBoundsKeepsAccepting | src/actions/set_key_release_policy.js:249-318 | A removal of bounds refuses no attestation that was accepted |
| BoundsAlgebra.TextCountsAsNumber | src/policies/KeyReleasePolicy.ts:131-160 | Text counts as the number it reads as, on either side of a bound; a truth value is no bound |
| ReleasePolicy.RemoveItemsMeaning | src/actions/set_key_release_policy.js:220-240 | The item-by-item filter of one list in terms of the ordered difference, with the exact condition for throwing |
| ReleasePolicy.MergeAppends | src/actions/set_key_release_policy.js:87-101 | Items not in the list are appended in order, each once |
| PolicyAlgebra.AddKeepsWellFormedIff | src/actions/set_key_release_policy.js:76-111 | An addition keeps lists nonempty, duplicate-free and under the names of claims, if and only if no new claim comes with an empty array |
| PolicyAlgebra.RemoveKeepsWellFormed | src/actions/set_key_release_policy.js:208-246 | A removal always keeps this |
| PolicyAlgebra.RunKeepsWellFormed | src/actions/set_key_release_policy.js:320-345 | Over every run of edits, failing ones included, whose additions carry no empty array |
| PolicyAlgebra.EditKeepsBoundsNamedIff | src/actions/set_key_release_policy.js:146-160 | An operator edit keeps bounds to the names of claims, if and only if it adds none under an inherited name other than the prototype's |
| PolicyAlgebra.RunKeepsBoundsNamed | src/actions/set_key_release_policy.js:320-345 | Over every run of edits without such additions |
| PolicyAlgebra.InheritedBoundIsStored | src/actions/set_key_release_policy.js:146-160 | On any table one edit without claims stores a bound under `constructor` |
| PolicyAlgebra.AddThenRemoveIff | src/actions/set_key_release_policy.js:76-246 | Removing what was just added restores the record, if and only if no item was in its list before and the last item of a new name is no repetition |
| PolicyAlgebra.AddThenRemoveIsIdentity | src/actions/set_key_release_policy.js:320-345 | So fresh, nonempty, duplicate-free additions are undone by their removal, as whole edits of the table |
| ReleasePolicyStore.PushNew | src/actions/set_key_release_policy.js:87-98 | The inner loop of an addition is the ordered merge |
| ReleasePolicyStore.FilterOut | src/actions/set_key_release_policy.js:220-240 | The inner loop of a removal, with the delete of an emptied list and the throw of the next item |
| ReleasePolicyStore.PolicyTable.Add | src/actions/set_key_release_policy.js:44-112 | The claims record becomes the merged record, or stays; the order in which names are visited does not matter |
| ReleasePolicyStore.PolicyTable.Remove | src/actions/set_key_release_policy.js:173-247 | The same for a removal |
| ReleasePolicyStore.PolicyTable.AddOperator | src/actions/set_key_release_policy.js:114-170 | The bounds of one operator are replaced name by name, inherited names included, the other operator untouched |
| ReleasePolicyStore.PolicyTable.RemoveOperator | src/actions/set_key_release_policy.js:249-318 | The named bounds go, if all are there |
| ReleasePolicyStore.PolicyTable.ApplyEdit | src/actions/set_gcp_key_release_policy.js:240-269 | A whole edit is one step of the algebra, or changes nothing; the Azure and the GCP table are two objects of this class |
| Validator.ValidateKeyReleasePolicyClaims | src/policies/KeyReleasePolicy.ts:42-75 | Succeeds if and only if every policy claim is attested with the text of some policy value |
| Validator.ValidateKeyReleasePolicyOperators | src/policies/KeyReleasePolicy.ts:101-192 | Succeeds if and only if every bound reads as a number that the attested number meets |
| Validator.ValidateKeyReleasePolicy | src/policies/KeyReleasePolicy.ts:195-288 | The exact verdict and status: 500 without a claims entry, else success exactly when claims are recorded and hold and the deciding operator holds, else 400 |
| Validator.ConjunctionIffOneOperator | src/policies/KeyReleasePolicy.ts:225-246 | The verdict is the conjunction of everything recorded, for all contents, if and only if not both operators are recorded |
| Validator.GtReplacesGte | src/policies/KeyReleasePolicy.ts:235-244 | With a privilege level below its recorded `gte` bound and a guest version above its `gt` bound, any attestation of a machine that cannot be debugged is accepted |
| Validator.MatchesAsText | src/policies/KeyReleasePolicy.ts:60-65 | An attested text matches the same text, a number shown so, and the word for a truth value |
| Validator.TypesDifferInStoreOnly | src/policies/KeyReleasePolicy.ts:60-65 | A number and its text are kept apart in the store and accept the same attestations |
| Validator.EmptyListRefusesAll | src/policies/KeyReleasePolicy.ts:60-73 | A name recorded with an empty list refuses every attestation |
| Validator.AddingValuesKeepsAccepting | src/actions/set_key_release_policy.js:76-111 | An addition under recorded names rejects no attestation that was accepted |
| Validator.AddingNamesKeepsRefusing | src/actions/set_key_release_policy.js:99-102 | An addition of new names only accepts no attestation that was refused, when claims were recorded |
| Validator.RemovingValuesKeepsRefusing | src/actions/set_key_release_policy.js:208-246 | A removal that empties no list accepts no attestation that was refused |
| PolicyOrder.KeepsRefusingIff | src/policies/KeyReleasePolicy.ts:195-247 | For any two policies: one refuses all that the other refuses, if and only if it accepts nothing or, under every name of the other, asks for at least as much |
| PolicyOrder.AddingBoundsKeepsRefusingIff | src/actions/set_key_release_policy.js:114-170 | Adding bounds accepts no attestation that was refused, if and only if nothing is accepted afterwards or, under every name the deciding operator had, what is let in meets the old bound |
| PolicyOrder.AddingBoundsTightensIff | src/policies/KeyReleasePolicy.ts:225-246 | When no bound of before is on a name with a claim list: if and only if every such bound is still decided on, by one at least as tight |
| PolicyOrder.IsAsTightIff | src/policies/KeyReleasePolicy.ts:131-190 | Every value that meets one bound meets another, if and only if its number is larger, or equal under no weaker operator, or it reads as no number |
| PolicyOrder.AcceptsNameByName | src/policies/KeyReleasePolicy.ts:195-247 | The verdict is one condition for each name in the claims or the deciding bounds |
| PolicyOrder.SatisfiableIff | src/policies/KeyReleasePolicy.ts:195-247 | Some attestation is accepted, if and only if something can be attested under every name |
| PolicyOrder.AddingGtLetsIn | src/policies/KeyReleasePolicy.ts:235-244 | An edit that adds a `gt` bound next to a `gte` bound turns refused attestations into accepted ones |
| PolicyOrder.InheritedBoundRefusesAll | src/actions/set_key_release_policy.js:146-160 | A `gt` bound added under an inherited name refuses every attestation without that name |
| AttestedRelease.ReleasedIff | src/endpoints/keyEndpoint.ts:309-436 | `unwrapKey` serves a caller with a given report, if and only if the request is in order, the report is bound to the wrapping key, and the stored policy accepts the report or the caller named the GCP provider |
| AttestedRelease.PolicyBindsIff | src/attestation/AttestationValidation.ts:28-30 | No report is served that the stored policy refuses, whatever the policy, if and only if the provider is not GCP or the request cannot be served at all |
| AttestedRelease.RefusedReportIsServedViaGcp | src/attestation/GcpAttestationValidation.ts:117-126 | The report of a debuggable machine under a policy against debugging: 400 on the default route, a key through GCP |
| AttestedRelease.PolicyMattersIff | src/attestation/AttestationValidation.ts:135-149 | For some report one policy serves a key and another does not, if and only if the request can be served and its provider is not GCP |
| AttestedRelease.RefusalsAre | src/attestation/AttestationValidation.ts:135-156 | On the default route a missing policy is answered with 500 and a refused report with 400 |
| AttestedRelease.ClaimsShowReport | src/attestation/SnpAttestationClaims.ts:59-62 | The report data appears as hex that reads as it, or not at all, and other claims as they are |
| AttestedRelease.ClaimNamesAre | src/attestation/SnpAttestationClaims.ts:16-112 | The names a policy may use are those read off a report, but for five, and twelve that never are |
| AttestedRelease.NeverReportedLocksOut | src/attestation/SnpAttestationClaims.ts:16-112 | A policy with one of those twelve names accepts no report |
| AttestedRelease.AddingValuesKeepsReleasing | src/endpoints/keyEndpoint.ts:331-436 | More values under recorded names change no successful answer, whatever the provider |
| AttestedRelease.RemovingValuesKeepsRefusing | src/endpoints/keyEndpoint.ts:331-436 | A removal that empties no list gives no key to a caller who had none, whatever the provider |
| Hex.ReadingUndoesPrinting | src/utils/Tooling.ts:26-30 | Reading printed bytes gives the bytes, for every byte string |
| Hex.PrintingUndoesReadingIff | src/actions/default_ccf.js:29-41 | Printing what was read gives the text, if and only if it is an even number of lower-case hex digits |
| Hex.PrefixIffPrintedPrefix | src/endpoints/keyEndpoint.ts:364-366 | `startsWith` on printed bytes decides the prefix relation of the bytes, both ways |
| Hex.HexStrToBuf | src/actions/default_ccf.js:29-41 | The loop over octets, with its throws and with what `parseInt` makes of odd characters |
| Hex.OddOctetReadsAs | src/actions/default_ccf.js:29-41 | Two characters that are not both digits read as a leading digit, a signed digit modulo 256, or zero |
| Hex.ThrowsIff | src/actions/default_ccf.js:29-41 | Reading throws if and only if the text has odd length, or a letter from g on or white space in it |
| Recovery.RunKeepsRecoverable | src/actions/default_ccf.js:254-339 | An open service with threshold at most its active recovery members stays so over every run that registers no active recovery member anew, and counting members never throws |
| Recovery.StepKeepsRecoverable | src/actions/default_ccf.js:254-281 | The same for one step |
| Recovery.SetMemberKeepsIff | src/actions/default_ccf.js:372-398 | Registering a member keeps the service recoverable if and only if it was not an active recovery member or one more than the threshold are there |
| Recovery.RemoveKeepsRecoverable | src/actions/default_ccf.js:422-465 | Removing a member always keeps it |
| Recovery.StepKeepsBoundsIff | src/actions/default_ccf.js:562-573 | Threshold and proposals window stay in bounds, if and only if the step is no `set_recovery_threshold` that carries a window out of bounds and passes its own guards: a configuration, a threshold in 1..254, an allowed reconfiguration type, and a threshold the members allow |
| Recovery.WindowOfZeroIsCommitted | src/actions/default_ccf.js:300-339 | A request for threshold 1 with a window of 0 proposals is committed by `set_recovery_threshold` and refused by `set_service_configuration` |
| Recovery.RunKeepsBounds | src/actions/default_ccf.js:1397-1432 | Over every run without such requests |
| MemberEffects.SetMemberIs | src/actions/default_ccf.js:372-398 | `set_member` always leaves the member accepted, with the encryption key given or none, and nothing else changed |
| MemberEffects.RemoveMemberIs | src/actions/default_ccf.js:422-465 | `remove_member` succeeds if and only if the member is no active recovery member or more of them than the threshold are there, all known; then nothing is left of the member, and nothing else changes |
| MemberEffects.SetRecoveryThresholdIs | src/actions/default_ccf.js:562-573 | It succeeds if and only if a threshold in 1..254 is given that service and members allow, with an allowed type; then all fields given are recorded, others kept |
| MemberEffects.SetServiceConfigurationIs | src/actions/default_ccf.js:1397-1432 | The same, the threshold being optional and the window checked as well |
| Recovery.Tables.GetActiveRecoveryMembersCount | src/actions/default_ccf.js:114-128 | The loop counts the active members with an encryption key, or throws exactly when some key belongs to nobody known |
| Recovery.Tables.CheckRecoveryThreshold | src/actions/default_ccf.js:254-281 | Passes exactly the thresholds the service status and member count allow |
| Recovery.Tables.UpdateConfig | src/actions/default_ccf.js:300-339 | All checks first, then all updates, or none |
| Recovery.Tables.SetRecoveryThresholdAction | src/actions/default_ccf.js:562-573 | Takes its step of the machine |
| Recovery.Tables.SetServiceConfigurationAction | src/actions/default_ccf.js:1397-1432 | Takes its step of the machine |
| Recovery.Tables.SetMemberAction | src/actions/default_ccf.js:372-398 | Takes its step of the machine |
| Recovery.Tables.RemoveMemberAction | src/actions/default_ccf.js:422-465 | Takes its step of the machine |
| Nodes.StepKeepsInv | src/actions/default_ccf.js:1181-1231 | Certificates exist exactly for trusted and retired nodes with a signing request, for that request and within the maximum validity; a node only moves from pending to trusted, from trusted to retired, or away while pending |
| Nodes.StepAdvances | src/actions/default_ccf.js:1265-1290 | No step undoes a trusted or retired status or takes a certificate away |
| Nodes.RunKeepsInv | src/actions/default_ccf.js:1160-1368 | Both over every run |
| Nodes.GenesisInvIff | src/actions/default_ccf.js:212-252 | A new service with one trusted node meets the invariant, if and only if its certificate is within the maximum |
| Nodes.ServiceKeepsInv | src/actions/default_ccf.js:1160-1368 | So every run from a new service meets it |
| Nodes.RenewAllIsAllOrNothing | src/actions/default_ccf.js:1353-1365 | Renewal for all nodes gives every trusted node a certificate of the same validity, or changes nothing |
| NodeEffects.RemoveNodeIs | src/actions/default_ccf.js:1265-1290 | It succeeds if and only if the service is configured: a pending node is gone, any other is retired with its signing request, and nothing else changes |
| NodeEffects.RemovedIsRetiredForever | src/actions/default_ccf.js:1265-1290 | A node removed after it was trusted is retired in every later state |
| NodeEffects.RetiredStays | src/actions/default_ccf.js:1160-1368 | A retired node stays so over every run |
| NodeEffects.TrustedAfterIff | src/actions/default_ccf.js:1161-1231 | A node is trusted afterwards if and only if it was or is pending in a configured service with an allowed validity where it has a signing request; it then has its certificate, and nothing else changes |
| NodeEffects.RenewOneIs | src/actions/default_ccf.js:1293-1330 | It succeeds if and only if the node is trusted with a signing request, the service configured and the validity allowed; then its certificate is new, and nothing else |
| NodeEffects.RenewAllIs | src/actions/default_ccf.js:1334-1365 | It succeeds if and only if every trusted node could be renewed; then all are, with the validity asked for or the maximum, and nothing else changes |
| Nodes.Tables.TransitionNodeToTrusted | src/actions/default_ccf.js:1161-1234 | Takes its step of the machine, discarding the status change when the validity is refused |
| Nodes.Tables.RemoveNodeAction | src/actions/default_ccf.js:1259-1292 | Takes its step of the machine |
| Nodes.Tables.SetNodeCertificateValidity | src/actions/default_ccf.js:1293-1333 | Takes its step of the machine |
| Nodes.Tables.SetAllNodesCertificateValidity | src/actions/default_ccf.js:1334-1368 | The loop over all nodes, in any order, takes its step of the machine |
| JsApp.RunStaysIntact | src/actions/default_ccf.js:652-811 | After any run from empty tables every stored endpoint's module is in the modules table, and its mode, forwarding and redirection have one of their values |
| ServedBundle.EndpointsServed | src/actions/default_ccf.js:777-788 | The endpoints table holds, for every method and URL of the bundle, what its last entry records, with a slash before its module, and nothing else |
| ServedBundle.ModulesServed | src/actions/default_ccf.js:758-763 | The modules table holds the last module of every name under a slash and the name, and nothing else |
| ServedBundle.IsValidIff | src/actions/default_ccf.js:670-737 | A bundle validates if and only if every method of every URL has one of the fixed values in its three checked fields and names a module of the bundle |
| JsApp.TablesHoldLastBundle | src/actions/default_ccf.js:746-789 | The tables hold exactly what the last valid bundle or removal wrote, whatever came before |
| JsApp.HoldingIsIntact | src/actions/default_ccf.js:679-784 | Tables that hold a valid bundle are intact in this sense |
| JsApp.LastWriteUnique | src/actions/default_ccf.js:777-788 | The last value written under each key determines the table |
| JsApp.KeyDeterminesEndpoint | src/actions/default_ccf.js:780-782 | Two endpoints share a key if and only if they agree on URL and upper-case method, or a method with a blank takes in the beginning of the other's URL |
| JsApp.WriteModules | src/actions/default_ccf.js:758-763 | The loop over modules leaves the last text of every path |
| JsApp.WriteMethods | src/actions/default_ccf.js:780-787 | The loop over the methods of one URL, with module paths completed |
| JsApp.WriteEndpoints | src/actions/default_ccf.js:777-788 | The last writer wins for every method and URL |
| JsApp.Tables.SetJsAppAction | src/actions/default_ccf.js:652-791 | A bundle naming an absent module or an unknown mode, forwarding or redirection changes nothing; a valid one replaces both tables |
| JsApp.Tables.RemoveJsAppAction | src/actions/default_ccf.js:792-811 | Both tables are empty afterwards |

## Left out

- Cryptography: key generation, RSA-OAEP (a sealed box here), SNP report verification, and the digest apart from being a function (injective for proposals).
- Decoding of CBOR and COSE; a proposal's creation time and actions are given with it, and the creation time is always present.
- The protobuf encoding of tink keysets; a keyset is the id, the public part or the private part it carries, without re-encoding.
- Receipts and historical states: which kids have a receipt ready is a parameter; the version arithmetic of the receipt lookup and claims digests are not modelled.
- Logging, request ids, diagnostic headers, error texts, the settings and policy-reading endpoints.
- Authentication validators and access control roles: an outcome given to the endpoint.
- KeyService.Service.Key: the branch for a pending attestation is left out, since the validators never answer 202; what stands in the answer without a wrapping key (an empty text, or zero bytes among fixed metadata) is one placeholder.
- KeyService.CreateWrappedPrivateTinkKey: the constant fields of the keyset (version, status, output prefix, type URL) are not modelled.
- Hex.HexStrToBuf: a text is a sequence of Unicode characters, where JavaScript counts UTF-16 code units, so texts with characters outside the basic plane are grouped differently and not modelled.
- Exposure, Schedule: the clock does not go back, and a refresh reads it twice in order.
- Key ids are unbounded, where the platform's table has 32-bit keys.
- Validator: `parseFloat` and number printing are arbitrary functions; infinities, JSON null and nested values in claim lists are not modelled, nor a claim list stored under a name a JavaScript object inherits, which no edit can store.
- JsApp.Tables.SetJsAppAction: the checks of JSON types in a bundle, authentication policies included, are not modelled; a bundle has the right types here.
- Governance arguments given as JSON null, and the other checks of their form (entity ids, certificates).
- The order of names in a parsed object: the loops visit them in any order, and the results are shown not to depend on it.
- The side effects of the governance actions outside their tables: rekeying, share refresh, acknowledgement, certificate and history tables of members, bytecode cache, interpreter flush.
- Other governance actions: users, JWT issuers, code and host data identities, snapshots, certificate bundles, opening of the service, and the JWT and settings policies.
