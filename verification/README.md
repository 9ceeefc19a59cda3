# WhatGate: a verified model of its stateful logic

This project models the parts of WhatGate that keep state against an adversary, and proves what they
promise over every run. There are four groups.

* **Credentials and discovery.** The signed envelope, the chain from the offline root through an issuer and
  a member certificate to a node record, the equivocation guard, the pinned client with its rollback floors,
  and the resolver that composes them. Signatures are ideal: a log holds every (key, text) pair ever signed,
  a signature verifies only if its pair is in the log, and an adversary may log anything under its own keys.
* **Admission.** The invite store, the coordinator's guarded steps (join, invite creation, certificate issue,
  directory and relay signing), the replay table and the Sybil window.
* **Exit resources.** The two lazily refilled token buckets, the exit guard with its slot ledger and once-only
  releases, and the UDP relay that takes and returns slots on every path.
* **Selection and wire.** Merging and the two rankings, and the datagram frames on one stream.

Code that changes state in place is a class (`RateLimit.Limiter`, `Bandwidth.Limiter`,
`Equivocation.EquivocationGuard`, `Anomaly.Detector`, `Invite.InviteStore`, `Coordinator.Server`,
`Client.PinnedClient`, `ExitGuard.Guard`, `DatagramCodec.Stream`) or a method with the source's loop. Each method
is proved equal to one step of a function on values; the results about runs are lemmas about those step
functions, so they hold of every sequence of calls. A region that the source runs under one lock is one step,
and interleavings are sequences of such steps. Clock readings, random draws, name resolution and the network's
answers are parameters. Buckets use `real` seconds and tokens; all other times are integer nanoseconds, and what
is signed or persisted in whole seconds is divided accordingly.

The modules build on each other as follows: `TokenBucket` under `RateLimit` and `Bandwidth`; `Invite` under
`Admission` under `Lifetimes`; `SignedText` under `Discovery` under `Authn`, `Membership`, `CredentialRuns` and `ClientRuns`; `Authn`
under `Replay`; `Coordinator` over all of these; `Client` over `ClientRuns`; `SlotLedger` under `ExitGuard` and
`UdpRelay`; `StableSort` under `Routing`; `Equivocation` and `CredentialRuns` under `Resolve`.

## What the proofs found

In each of these places the code and its stated purpose part ways. The model follows the code; a lemma gives a
concrete run that fails, and another says for all runs when the purpose is met.

* **Replay.** What is remembered is the text of a signature, until its acceptance plus the skew, and in memory only;
  what is fresh is the request, until its timestamp plus the skew. Within one lifetime of the coordinator, some
  continuation after an acceptance accepts the same request again if and only if its timestamp was not before the
  acceptance, or some other text that decodes to the same signature is not remembered to the end of its freshness
  (`Replay.ReplayPossibleExactly`). A restart is the third cause: after it the very same text is accepted again at any
  moment while the request is fresh (`Replay.RestartAcceptsAgain`), and there is no fourth (`Replay.RepeatHasCause`).
  Under a strict decoder and without a restart only the timestamp is left (`Replay.StrictReplayExactly`,
  `Replay.AcceptedOnce`); the base64 decoder used by internal/authn/authn.go:83 skips line breaks, and with such a
  decoder a repeat is always possible (`Replay.LineBreaksDefeatTheTable`). Runs for each cause:
  `Replay.AcceptedAgainAtTheEdge`, `Replay.AcceptedAgainRewritten`, `Replay.AcceptedAgainRestarted`.
* **Sybil window.** The sweep that bounds the detector's table also deletes the empty set just inserted for a new
  key, so the observation that triggers it is lost (`Anomaly.SweepLosesAnObservation`); it is kept if and only if
  the sweep does not fire on a new key (`Anomaly.ObservationKeptExactly`). While 1023 other keys stay active, a key that
  is not in the table never gets in and is never flagged at a positive threshold, however many identities it produces
  (`Anomaly.OutsiderIsNeverFlagged`, with runs in `Anomaly.CrowdStarves`).
* **Idle keys.** The sweep that is to keep the limiters' tables from growing without bound (internal/ratelimit/limiter.go:63)
  compares the tokens stored at a key's last call with the burst, without refilling them first. A request limiter that
  admits anybody stores every bucket below its burst, so it deletes nothing, however long its keys are idle; some run
  loses a key if and only if the burst is below one (`RateLimit.SweepDeletesExactly`). The byte limiter never deletes a
  key whose last operation charged it anything (`Bandwidth.ChargedIsKept`).
* **Restarts from an older snapshot.** A failed save is only logged and without a state file nothing is saved, so a
  restart can bring back an earlier store. A code for one peer then admits two (`Lifetimes.RevertedCodeAdmitsTwo`). From
  any moment on, and with no further loss, a code can come to admit more peers over its whole life than were asked for if
  and only if somebody it admitted is forgotten at that moment (`Lifetimes.OverAdmitsExactly`), which can be checked
  when the coordinator restarts.
* **Revocation epoch.** The coordinator signs every member certificate with epoch 0 (internal/coordinator/api.go:264), while
  the checkpoint's epoch is meant to be the consumers' floor (internal/membership/revocation.go:30). A joined peer's chain
  verifies if and only if it is unexpired, the root granted membership, and the floor is still 0
  (`CredentialRuns.JoinedPeerIsCertified`); once the floor is raised no certificate by the coordinator verifies again, in
  any run (`CredentialRuns.NoEscalationThroughCoordinator`).
* **Bootstrap refresh.** The floor is raised under one lock and the endpoints are replaced under another, with no
  second look at the floor. `ClientRuns.OverlappingRefreshesCanRegress` is a whole run of two refreshes that ends
  with the older list in use below the floor. A replacement puts the newest accepted list in use if and only if its
  serial is still the floor at that moment, which is to say that nothing higher has been committed by then
  (`ClientRuns.ReplaceIsCurrentExactly`, `ClientRuns.StillCurrentExactly`); at the end of a run in which every
  refresh has finished, the newest accepted list is in use if and only if the latest replacement passed that check
  (`ClientRuns.SettledRefreshesExactly`). The directory's cache file is written in the same way: a late writer of an
  older body leaves a file that no longer passes (`ClientRuns.SettledCachePassesExactly`), until the client restarts and
  forgets its floor (`ClientRuns.RestartedCachePassesExactly`).
* **Vouching.** An operator who seeds an invite in a peer's own name lets that peer vouch for itself
  (`Admission.SeededPeerVouchesForItself`). After any run nobody but the founder is reached again by climbing from
  itself if and only if no join was by a code whose issuer already climbed to the joiner's own ID
  (`Admission.VouchingIsAcyclicExactly`).

The comment above `RankExits` (internal/routing/rank.go:19) says "not yet implemented"; the function is implemented, and
that is what is modelled.

## Model

| member | source | states |
|---|---|---|
| `TokenBucket.RefillComposes` | internal/bandwidth/limiter.go:44-50 | Refilling a bucket at any time in between changes nothing about its tokens later on. |
| `TokenBucket.TouchAgrees` | internal/ratelimit/limiter.go:44-49 | Looking a key up with and without the sweep keeps a pruned and a never-pruned table agreeing, and gives that key the same bucket in both: what is deleted was full and idle, what is recreated is full, and the bucket just inserted is never deleted. |
| `RateLimit.Limiter.Allow` | internal/ratelimit/limiter.go:39-61 | One call is one step on the table: the answer and the whole new table. What the answers are worth is `RateLimit.AdmittedExactly`. |
| `RateLimit.Limiter.Prune` | internal/ratelimit/limiter.go:65-74 | Exactly the buckets that hold a full burst and were untouched for more than a minute go, and only from 1024 entries on. |
| `RateLimit.SweepInvisible` | internal/ratelimit/limiter.go:63-74 | On every chronological call sequence the answers equal those of a limiter that never deletes. |
| `RateLimit.AdmissionsArePaidFor` | internal/ratelimit/limiter.go:50-60 | Admissions of a key plus the tokens left are at most the tokens it started with plus what dripped in. |
| `RateLimit.AdmissionBound` | internal/ratelimit/limiter.go:27-61 | Over any stretch of any run of the pruning limiter a key is admitted at most burst + rate x elapsed times. |
| `RateLimit.Progress` | internal/ratelimit/limiter.go:38-61 | With burst at least 1, a key whose calls are at least one refill period apart is never refused. |
| `RateLimit.AdmittedExactly` | internal/ratelimit/limiter.go:38-61 | In any chronological run, sweeps included, a call is admitted if and only if with it the key stays within burst + rate x elapsed over every stretch from one of its calls up to this one: the bound is kept, and nothing that keeps it is refused. |
| `RateLimit.PauseAdmitsExactly` | internal/ratelimit/limiter.go:50-60 | After any run, if a key's last call left x tokens at t0 and others then call as they like, k calls of the key at one later moment are all admitted if and only if k is at most the burst and at most x + rate x (now - t0). |
| `RateLimit.PauseRefillsToBurst` | internal/ratelimit/limiter.go:50-54 | Once a whole burst has dripped in, k calls at one moment are all admitted if and only if k is at most the burst. |
| `RateLimit.SweepDeletesExactly` | internal/ratelimit/limiter.go:63-74 | Some chronological run of the limiter loses a key that called if and only if the burst is below one, in which case the limiter admits nobody. |
| `Bandwidth.Limiter.RefillBucket` | internal/bandwidth/limiter.go:45-50 | One bucket is advanced in place, the others are untouched; how far is pinned by `Bandwidth.TripsExactly`. |
| `Bandwidth.Limiter.Charge` | internal/bandwidth/limiter.go:54-68 | One charge is one step: whether it tripped, and the whole new table. |
| `Bandwidth.Limiter.Over` | internal/bandwidth/limiter.go:72-83 | One query is one step, which refills only the key it asks about. |
| `Bandwidth.Limiter.Prune` | internal/bandwidth/limiter.go:87-96 | Exactly the buckets that hold a full burst and were untouched for more than a minute go, and only from 1024 entries on. |
| `Bandwidth.SweepInvisible` | internal/bandwidth/limiter.go:85-96 | Pruning changes no answer, of charges or queries, on any chronological sequence of both. |
| `Bandwidth.StepLevel` | internal/bandwidth/limiter.go:65-67 | A charge takes its bytes from its own key and a query takes nothing from anyone. |
| `Bandwidth.BytesArePaidFor` | internal/bandwidth/limiter.go:45-67 | Bytes charged to a key plus its level afterwards are at most its level before plus what dripped in. |
| `Bandwidth.BreakerBound` | internal/bandwidth/limiter.go:54-68 | Over any stretch of any run in which only the last charge of a key may trip, the key moved at most burst + rate x elapsed + the last chunk. |
| `Bandwidth.Recovery` | internal/bandwidth/limiter.go:70-83 | After a charge and until the next one, the key is over budget exactly while what dripped in is less than what it owed, however often and whenever it is asked in between. |
| `Bandwidth.TripsExactly` | internal/bandwidth/limiter.go:44-83 | In any chronological run, sweeps included, a charge trips and a query answers yes if and only if over some stretch from one of the key's charges up to now the key moved more than burst + rate x elapsed. |
| `Bandwidth.PauseTripsExactly` | internal/bandwidth/limiter.go:44-68 | After any run, if a key's last charge left x bytes at t0, its next charge of n trips if and only if n is more than the burst or more than x + rate x (now - t0), whatever happened in between. |
| `Bandwidth.ChargedIsKept` | internal/bandwidth/limiter.go:85-96 | A key whose last operation charged it anything is never deleted, whatever others do and however long it is idle. |
| `Equivocation.EquivocationGuard.Observe` | internal/membership/equivocation.go:57-99 | One observation is one step: the verdict, the remembered generations and the isolated subjects. |
| `Equivocation.Newest` | internal/membership/equivocation.go:84-89 | The loop finds the largest generation of the set. |
| `Equivocation.Drop` | internal/membership/equivocation.go:90-97 | The loop forgets exactly the generations below the floor. |
| `Equivocation.StepRefines` | internal/membership/equivocation.go:57-99 | The pruned guard and one that keeps every accepted record give the same verdict and stay in step. |
| `Equivocation.RunRefines` | internal/membership/equivocation.go:13-22 | They stay in step over every run: the guard remembers exactly the part of the accepted history that lies within the window. |
| `Equivocation.ObserveFailsExactly` | internal/membership/equivocation.go:53-80 | After any run a record is refused exactly when its subject is isolated or the accepted history holds another payload at that generation within [M - window, M]. |
| `Equivocation.BoundedMemory` | internal/membership/equivocation.go:20-21 | At most window + 1 generations are remembered per subject. |
| `Equivocation.IsolationIsPermanent` | internal/membership/equivocation.go:66-68 | An isolated subject stays isolated and every later record of it is refused. |
| `Equivocation.HonestIsNeverIsolated` | internal/membership/equivocation.go:13-18 | A subject with one payload per generation is never isolated and all its records are accepted, in whatever order. |
| `Equivocation.IsolatedExactly` | internal/membership/equivocation.go:57-99 | Said of the observations alone: after any run a subject is isolated if and only if at some moment it showed a second payload at a generation not more than the window below the highest it had shown. |
| `Equivocation.AcceptedExactly` | internal/membership/equivocation.go:57-80 | Bytes that are no envelope are refused as such; a record is accepted if and only if with it its subject has not equivocated in that sense; and a conflict is reported exactly for the record that makes it so. |
| `Anomaly.Detector.Observe` | internal/anomaly/detector.go:44-58 | One observation is one step, including the write that is lost when the sweep has just removed its target. |
| `Anomaly.Detector.Count` | internal/anomaly/detector.go:61-66 | The count is the number of identities left once the key has been pruned, and only that key is pruned. |
| `Anomaly.Detector.PruneIdentities` | internal/anomaly/detector.go:70-80 | Exactly the expired identities of one key go, and the key with the last of them. |
| `Anomaly.Detector.PruneKeys` | internal/anomaly/detector.go:84-91 | From 1024 keys on, every key is pruned that way. |
| `Anomaly.SweptExactly` | internal/anomaly/detector.go:82-91 | From 1024 keys on the sweep keeps exactly the sightings within the window, and no key without one; below that it keeps everything. |
| `Anomaly.CountIsDistinct` | internal/anomaly/detector.go:60-66 | A table that represents a log counts exactly the log's distinct identities in the window. |
| `Anomaly.StepRepresents` | internal/anomaly/detector.go:41-58 | One observation answers for, and goes on representing, the log of the observations kept. |
| `Anomaly.ObserveIsExact` | internal/anomaly/detector.go:41-58 | After any run, sweeps included, the answer is true exactly when the key's distinct identities within the window, among those kept, reach the threshold. |
| `Anomaly.ObserveRefinesFullLog` | internal/anomaly/detector.go:41-58 | On runs where no sweep meets a new key the answer is that of the full observation log. |
| `Anomaly.ObservationKeptExactly` | internal/anomaly/detector.go:50-56 | The table represents the full log after an observation if and only if the sweep did not fire on a new key. |
| `Anomaly.SweepLosesAnObservation` | internal/anomaly/detector.go:50-57 | A concrete run: the 1024th source is not flagged at threshold one. |
| `Anomaly.RunKeepsLatest` | internal/anomaly/detector.go:68-80 | After any run, a key in the table has its latest sighting there. |
| `Anomaly.OutsiderIsNeverFlagged` | internal/anomaly/detector.go:50-57 | Once 1023 other keys are in the table, and as long as each has produced something within the window, a key that is not in it never gets in and is never flagged at a positive threshold. |
| `Anomaly.CrowdStarves` | internal/anomaly/detector.go:50-57 | Runs of that kind, for any window, positive threshold and identities. |
| `Invite.InviteStore.CreateInvite` | internal/coordinator/invite.go:60-64 | A code is registered for the issuer and the number of uses given, unused, and nothing else changes. |
| `Invite.InviteStore.RedeemInvite` | internal/coordinator/invite.go:68-90 | One redemption is one step: the issuer or the error, the use and the admission. |
| `Invite.InviteStore.BootstrapFounder` | internal/coordinator/invite.go:95-110 | Only into an empty admission table, idempotent for the founder. |
| `Invite.InviteStore.Export` | internal/coordinator/invite.go:129-141 | Everything is exported, admission times as whole seconds. |
| `Invite.InviteStore.ImportRecords` | internal/coordinator/invite.go:144-153 | The imported records are merged over what is there. |
| `Invite.ReloadIsFaithful` | internal/coordinator/invite.go:128-153 | Export then import into an empty store gives the same state up to whole seconds, and doing it twice changes nothing more. |
| `Admission.InvitesAreConserved` | internal/coordinator/invite.go:60-153 | Along every run, restarts included, each code's uses equals the number of admissions recorded with it and stays within its maximum, and each admission names the issuer of its code. |
| `Admission.CreateKeepsBooksExactly` | internal/coordinator/invite.go:58-64 | Registering a code, looked up first or not, keeps the books exactly when nobody was admitted with it. |
| `Admission.CodeAdmitsAtMost` | internal/coordinator/invite.go:79-88 | In the present table, a code with a non-negative maximum has admitted at most that many distinct peers. |
| `Admission.KnownExactly` | internal/coordinator/api.go:548-565 | After any run a code is known if and only if some event registered it: an operator's seed, or a request by an admitted caller for 1 to 1000 uses, under a non-empty name not yet taken. |
| `Admission.AdmitsAtMostAsked` | internal/coordinator/invite.go:58-89 | However a run goes on after an event registered a code for n peers in an issuer's name, the code admits at most n peers (none for a negative n), and each of them names that issuer. |
| `Admission.JoinIsAnsweredAsAsked` | internal/coordinator/invite.go:66-90 | A peer not yet admitted that joins with a code registered for n peers is let in if and only if fewer than n have been; recorded are the peer, the code, who asked for it and the moment, and nothing else changes. |
| `Admission.JoinIsRefusedUnasked` | internal/coordinator/invite.go:75-78 | With a code that no event registered nobody gets in by an invite, and nothing changes. |
| `Admission.FounderIsAdmittedExactly` | internal/coordinator/invite.go:92-110 | The founder's door lets a newcomer in if and only if nobody was admitted before, by any door. |
| `Admission.RejoinIsFree` | internal/coordinator/invite.go:71-73 | A second join, by whichever door, changes nothing and names the same issuer. |
| `Admission.VouchingIsWellFounded` | internal/coordinator/api.go:764-785 | In every reachable state, following the issuers from any admitted peer meets strictly earlier-admitted peers and ends at the founder or at a peer invited by an operator-seeded code. |
| `Admission.SingleFounder` | internal/coordinator/invite.go:92-110 | An admission without a code is the founder's and was the first of all. |
| `Admission.JoinClosesCycleExactly` | internal/coordinator/invite.go:75-89 | A join by code lets the joiner reach itself by climbing exactly when the code's issuer climbed to the joiner's ID before, which as many steps as there are admitted peers decide. |
| `Admission.VouchingIsAcyclicExactly` | internal/coordinator/api.go:764-785 | After any run, restarts included, nobody but the founder is reached again by climbing from itself if and only if no join of the run met that guard. |
| `Admission.VouchingIsAcyclic` | internal/coordinator/api.go:548-565 | A simple sufficient premise: no seeded issuer is a joining peer's ID. |
| `Admission.FounderMayBeSeeded` | cmd/coordinator/main.go:201-203 | A run that breaks the simple premise and still has no cycle. |
| `Admission.SeededPeerVouchesForItself` | cmd/coordinator/main.go:201-203 | A concrete run that meets the guard: a peer that is not the founder vouches for itself. |
| `Lifetimes.StoreIsTimelineRun` | internal/coordinator/api.go:334-354 | Whatever earlier snapshots were reloaded, the present store is that of a run that never went back, so every result about runs holds of it. |
| `Lifetimes.PresentIsVouchedFor` | internal/coordinator/api.go:334-344 | Under such restarts too, whoever is admitted at present is linked by earlier and earlier admissions to the founder or an operator. |
| `Lifetimes.PresentIsAcyclicExactly` | internal/coordinator/api.go:334-344 | Under such restarts too, the present store is acyclic exactly when no join it remembers met the guard. |
| `Lifetimes.OverAdmitsExactly` | internal/coordinator/api.go:346-354 | From any moment on, with no further loss, a code can come to admit more peers over its whole life than the event that registered it asked for if and only if somebody it admitted is forgotten at that moment. |
| `Lifetimes.HistorySplits` | internal/coordinator/invite.go:79-88 | Whoever was ever admitted with a code is counted in its uses or forgotten. |
| `Lifetimes.WholeLifeWithoutLoss` | internal/coordinator/api.go:346-354 | When no restart lost a peer admitted with it, the number asked for holds over the whole life of the code. |
| `Lifetimes.RevertedCodeAdmitsTwo` | internal/coordinator/api.go:346-354 | A run in which a code for one peer admits two. |
| `SignedText.SignedDecimalIsInjective` | internal/authn/authn.go:28-30 | Equal decimal texts mean equal numbers. |
| `SignedText.DiscoveryTextIsUnambiguous` | internal/discovery/signed.go:75-79 | Equal discovery texts have equal type, serial, issue, expiry, epoch and payload hash, even if the type contains the separator. |
| `SignedText.AuthnTextIsUnambiguous` | internal/authn/authn.go:28-30 | Equal request texts have equal action, peer ID and timestamp, for peer IDs without the separator. |
| `SignedText.PurposesAreDisjoint` | internal/discovery/signed.go:77-78 | No text signs both a discovery object and a request. |
| `SignedText.SeparatorInPeerIDConfuses` | internal/authn/authn.go:29 | The premise on peer IDs is needed for the text alone; verification takes only derived IDs (internal/authn/authn.go:67-73), which have no separator. |
| `Discovery.SignThenVerify` | internal/discovery/signed.go:82-147 | What is signed verifies exactly under its own type, down to its serial, until its whole-second expiry, and yields its payload. |
| `Discovery.OneSignatureOneObject` | internal/discovery/signed.go:109-147 | Two envelopes that verify with one signature are the same object, under the same key and type. |
| `Authn.SignThenVerify` | internal/authn/authn.go:33-95 | An honest request verifies exactly while the clock is within the skew of its whole-second timestamp. |
| `Authn.OneSignatureOneRequest` | internal/authn/authn.go:55-95 | One signature, however its text is written, authenticates one key, action, peer and timestamp. |
| `Authn.OwnerSigned` | internal/authn/authn.go:67-73 | An accepted request was signed, for this action and timestamp, by the owner of its peer ID. |
| `Authn.RequestIsNotAnObject` | internal/discovery/signed.go:138-146 | A signature that authenticates a request never verifies in a discovery object. |
| `Membership.RolesSubsetOf` | internal/membership/cert.go:188-199 | The loop decides role inclusion, both ways. |
| `Membership.SignedChainVerifies` | internal/membership/cert.go:65-170 | A chain as root and issuer sign it verifies exactly when unexpired, at the epoch floor, with matching issuer IDs and no role beyond the issuer's, and yields the certificate. |
| `Membership.SignedRecordVerifies` | internal/membership/noderecord.go:34-94 | A record as its node signs it verifies, under a chain that does, exactly when unexpired, at or above the floor, about its signer and within the certified roles. |
| `CredentialRuns.VerifiedChainIsLogged` | internal/membership/cert.go:120-170 | A chain that verifies rests on two logged signatures, by the root and by the certified key, and on every binding the code checks. |
| `Membership.RecordIsLogged` | internal/membership/noderecord.go:63-84 | A record that verifies was signed, with its generation and payload, by its subject's own key. |
| `CredentialRuns.NoEscalationThroughCoordinator` | internal/coordinator/api.go:253-270 | In every run against an adversary, restarts from any snapshot included, a member certificate that verifies through the coordinator's key names a peer it admitted at some moment, grants exactly member, and verifies at revocation floor 0 only. |
| `CredentialRuns.ChainTracesToRoot` | internal/membership/cert.go:114-170 | In every run, the issuer certificate of a chain that verifies is one the root made for the very key that signed the member certificate, listing every certified role. |
| `CredentialRuns.ExitTracesToOtherIssuer` | internal/membership/noderecord.go:56-94 | In every run, a record that verifies with the exit role rests on the root's certificate for the very key that signed the chain's member certificate, with its issuer ID and all its roles, exit among them, and that key is not the coordinator's, even if the root granted exit to that one too. |
| `CredentialRuns.JoinedPeerIsCertified` | internal/coordinator/api.go:785-793 | A joined peer's chain, with any certificate the root has made for the coordinator, verifies exactly while neither has expired, the root's grants membership and the revocation floor is 0. |
| `CredentialRuns.StoreIsAdmissionLife` | internal/coordinator/api.go:764-785 | The store of a credential run, at every moment of it, is that of its admission acts, so the admission results hold there. |
| `CredentialRuns.CertifiedMemberIsVouchedFor` | internal/coordinator/api.go:744-795 | At some moment of the run the subject of a chain that verifies through the coordinator was linked by earlier and earlier admissions to the founder or an operator. |
| `Replay.ReplayWindow` | internal/coordinator/api.go:371-392 | In any run, two acceptances of one signature are of the same request while it is fresh; under one text and without a restart in between they are at least the skew apart. |
| `Replay.ReplayPossibleExactly` | internal/coordinator/api.go:358-392 | After any run that accepts a request, some continuation without a restart accepts it again if and only if its timestamp was not before the acceptance or another text of its signature is not remembered to the end of its freshness. |
| `Replay.RestartAcceptsAgain` | internal/coordinator/api.go:279-289 | After a restart the same text is accepted again at every moment while the request is fresh. |
| `Replay.RepeatHasCause` | internal/coordinator/api.go:358-392 | Whatever continuation accepts a request again, it restarted or one of the two other causes was there. |
| `Replay.StrictReplayExactly` | internal/coordinator/api.go:358-392 | When no two texts decode alike and without a restart, if and only if its timestamp was not before the acceptance. |
| `Replay.AcceptedOnce` | internal/coordinator/api.go:356-369 | When no two texts decode alike, a request whose timestamp lies strictly before an acceptance is never accepted again before the coordinator restarts. |
| `Replay.LineBreaksDefeatTheTable` | internal/authn/authn.go:83-86 | When the decoder skips line breaks, every accepted request can be accepted again without a restart, since the table is finite. |
| `Replay.AcceptedAgainAtTheEdge` | internal/coordinator/api.go:378-383 | A run of two acceptances of one text, at the timestamp and at the end of its freshness. |
| `Replay.AcceptedAgainRewritten` | internal/authn/authn.go:83-86 | A run of two acceptances at one moment, the second with a line break added to the text. |
| `Replay.AcceptedAgainRestarted` | internal/coordinator/api.go:279-289 | A run of two acceptances of one text at one moment, with a restart in between. |
| `Replay.PruningIsInvisible` | internal/coordinator/api.go:384-390 | In every run, restarts included, every request is answered as by a table that forgets nothing in its lifetime. |
| `Replay.AcceptedExactly` | internal/coordinator/api.go:356-392 | In any chronological run, restarts included, a request is accepted if and only if it is genuine (its peer, that peer's key, within two minutes of its timestamp, signed for this action and moment) and its text was not accepted less than two minutes before in the same lifetime. |
| `Coordinator.Server.constructor` | internal/coordinator/api.go:279-289 | A new server remembers no signature and starts every serial at zero. |
| `Coordinator.Server.SeenSignature` | internal/coordinator/api.go:374-392 | One lookup is one step of the replay table, its pruning loop included. |
| `Coordinator.Server.CheckAuth` | internal/coordinator/api.go:358-369 | The whole check is one step of the replay runs; a request that fails earlier leaves no trace. |
| `Coordinator.Server.IssueMemberCert` | internal/coordinator/api.go:255-270 | The next serial, exactly the member role, and one logged signature, or nothing without an issuer. |
| `Coordinator.Server.Enter` | internal/coordinator/api.go:764-785 | Joining is one step of the admission run, by the founder's door or by an invite. |
| `Coordinator.Server.Admit` | internal/coordinator/api.go:764-794 | An admission is exactly one join step of the admission run and of the credential run, with or without an issuer configured, answered with the recorded issuer and the fresh certificate. |
| `Coordinator.Server.HandleJoin` | internal/coordinator/api.go:744-795 | A request that fails authentication or is flagged admits nobody and signs nothing; any other is exactly one join step of both runs. |
| `Coordinator.Server.DrawCode` | internal/coordinator/api.go:553-564 | The code is the first drawn that is not in use, and drawing fails only if every draw is. |
| `Coordinator.Server.HandleCreateInvite` | internal/coordinator/api.go:530-568 | Each refusal exactly when its guard fails; success is exactly one mint step that registers an unused code for the admitted caller and the number of uses it signed. |
| `Coordinator.Server.SignDirectory` | internal/coordinator/api.go:192-213 | Each directory is the next publication of its serial counter. |
| `Coordinator.Server.SignRelay` | internal/coordinator/api.go:218-237 | Each relay object is the next publication of a counter of its own. |
| `ClientRuns.FloorIsHighestCommitted` | internal/coordinator/client.go:327-350 | Under every interleaving of fetches, split into reading the floor, verifying and raising it, the floor is the highest serial committed since the client started. |
| `ClientRuns.FloorNeverDrops` | internal/coordinator/client.go:344-348 | While the client runs the floor never drops and commits are never forgotten. |
| `ClientRuns.LaterFetchIsNotOlder` | internal/coordinator/client.go:335-348 | A fetch that begins after another has committed commits a serial at least as high, wherever the bytes came from. |
| `ClientRuns.UninterruptedFetch` | internal/coordinator/client.go:330-350 | A fetch that nothing interrupts commits exactly what passes at the floor it finds. |
| `ClientRuns.NextPublicationIsAccepted` | internal/coordinator/api.go:190-213 | Within one lifetime of the publisher's counter, whatever was replayed, forged or interleaved before, its next publication passes every fetch until it expires. |
| `ClientRuns.ReplaceIsCurrentExactly` | internal/coordinator/bootstrap.go:119-128 | After any run, a replacement puts the newest accepted list in use if and only if nothing higher has been committed by then. |
| `ClientRuns.StillCurrentExactly` | internal/coordinator/bootstrap.go:119-128 | That is what comparing its serial with the floor once more would tell. |
| `ClientRuns.ListIsCurrentExactly` | internal/coordinator/bootstrap.go:80-87 | At every moment of every run, client restarts included, nothing newer than what is in use has been committed exactly when the latest replacement passed that check and no fetch has overtaken it since. |
| `ClientRuns.CurrentIsAtFloor` | internal/coordinator/bootstrap.go:119-128 | A list in use is never ahead of the floor. |
| `ClientRuns.SettledListIsCurrentExactly` | internal/coordinator/bootstrap.go:80-87 | Once every writer has finished, exactly when the latest replacement passed that check and no fetch that writes nothing has overtaken it since. |
| `ClientRuns.SettledRefreshesExactly` | internal/coordinator/bootstrap.go:80-87 | For bootstrap refreshes, which all write: once all have finished, the list at the floor is in use exactly when the latest replacement passed that check. |
| `ClientRuns.KeptPassesExactly` | internal/coordinator/client.go:289-325 | Under any interleaving of writers and readers and over client restarts, what is in the cache file passes exactly when nothing newer has been committed since the client started and it has not expired. |
| `ClientRuns.SettledCachePassesExactly` | internal/coordinator/client.go:289-325 | With no writer left to run, exactly when the latest writer found its serial still the floor, no fetch raised the floor above the file without writing it, and the body has not expired. |
| `ClientRuns.CacheFetchKeepsServing` | internal/coordinator/client.go:306-325 | A fetch served from the file leaves the file serving. |
| `ClientRuns.RestartedCachePassesExactly` | internal/coordinator/client.go:302-325 | After a client restart the file passes exactly until it expires, whatever the floor was before. |
| `ClientRuns.OverlappingRefreshesCanRegress` | internal/coordinator/bootstrap.go:119-128 | A whole run from the start, of two publications and two refreshes, that ends with the older list in use below the floor. |
| `Client.NoReplyExactly` | internal/coordinator/client.go:105-132 | Failover gives up exactly when every endpoint is unreachable, wherever around the ring it starts. |
| `Client.FirstExactly` | internal/coordinator/client.go:105-132 | Failover yields an endpoint's reply if and only if that endpoint answers and every one before it around the ring is unreachable. |
| `Client.AcceptsExactly` | internal/coordinator/client.go:330-350 | A body passes if and only if the client pins a key and that key signed it as an object of the type, no older than the floor and not expired; it then commits its serial. |
| `Client.UsableAreNonEmpty` | internal/coordinator/client.go:95-104 | The usable endpoints of a list are its non-empty names. |
| `Client.GenuineBelow` | internal/coordinator/client.go:339-341 | What passes above a floor passes above any lower one. |
| `Client.PinnedClient.Attempt` | internal/coordinator/client.go:110-132 | The first endpoint that answers is used and remembered, and an error status counts as an answer. |
| `Client.PinnedClient.VerifyDirectory` | internal/coordinator/client.go:330-350 | One call is exactly an uninterrupted fetch of the runs. |
| `Client.PinnedClient.VerifyRelay` | internal/coordinator/client.go:493-513 | The same for the relay, under a floor of its own. |
| `Client.PinnedClient.DirectoryFromCache` | internal/coordinator/client.go:306-325 | The cache serves exactly what still verifies above the floor, flagged stale, and never lowers the floor. |
| `Client.PinnedClient.ApplyBootstrap` | internal/coordinator/bootstrap.go:88-130 | A list is accepted exactly when it verifies and names a usable endpoint; it then replaces all endpoints, and a refused list changes nothing. |
| `Client.PinnedClient.RefreshFromBootstrap` | internal/coordinator/bootstrap.go:57-71 | Only a complete, successful reply is applied. |
| `Client.PinnedClient.FromReply` | internal/coordinator/client.go:237-269 | Entries are served from a received response if and only if: with status 200 a pinned client reads them in an accepted directory and an unpinned one in the bare text, with any other status the cache says them. A body that fails verification is not replaced by the cache; an accepted one is cached. |
| `Client.PinnedClient.Heal` | internal/coordinator/client.go:227-235 | Endpoints are refreshed only from an accepted list, and then tried once more. |
| `Client.PinnedClient.Retry` | internal/coordinator/client.go:227-269 | With a cache that serves nothing: exactly what the first answering endpoint of an accepted new list gets, or else an error, never flagged stale. |
| `Client.PinnedClient.Unreached` | internal/coordinator/client.go:222-236 | With no endpoint reachable: the verified cache if it serves, else exactly what healing gets, else an error. |
| `Client.PinnedClient.DirectoryFor` | internal/coordinator/client.go:214-269 | For every case what is served, flagged stale, cached and used next: the first endpoint around the ring that answers decides, served exactly when what it says is signed by the pinned key, of the type, at or above the floor, unexpired and readable; if none answers the cache decides on the same terms; if it serves nothing the first of an accepted new list that answers decides; else nothing is served. A pinned client serves only what is genuine, and the floor ends at the serial served. |
| `SlotLedger.RunIsBalanced` | internal/exit/guard.go:254-276 | Under any interleaving of authorisations and releases, each release called any number of times: active equals the live grants and the sum of the entries, each entry is positive and its requester's live grants, and no cap is exceeded. |
| `SlotLedger.AllReleasedIsEmpty` | internal/exit/guard.go:267-276 | Once everything granted is released the ledger is empty. |
| `SlotLedger.ReleaseIsOnce` | internal/exit/guard.go:266-268 | Releasing again, at once or after anything else, changes nothing. |
| `SlotLedger.RefusedExactly` | internal/exit/guard.go:254-265 | A slot is refused exactly when a configured cap is already reached by live slots, the overall cap first; a slot granted is one more live slot of the requester. |
| `ExitGuard.BlocksSubdomainsOnly` | internal/exit/guard.go:203-216 | A blocked domain blocks itself and the names under it, and no other. |
| `ExitGuard.ParseBlockSet` | internal/exit/guard.go:120-139 | The entries are split into ranges and normalised names, none lost. |
| `ExitGuard.ListBlocksExactly` | internal/exit/guard.go:120-217 | A host is blocked by a list if and only if one of its entries blocks it: a range its addresses, an address itself, and any other entry the name it stands for (lower case, less one trailing dot) and the names under it. |
| `ExitGuard.Guard.SetBlockedDomains` | internal/exit/guard.go:179-185 | Both block sets are replaced by the new parse, and nothing else changes. |
| `ExitGuard.Guard.constructor` | internal/exit/guard.go:97-115 | An empty ledger, the parsed block set, and a limiter exactly where a positive rate is configured, with the default burst. |
| `ExitGuard.Guard.IsHostBlocked` | internal/exit/guard.go:190-217 | The shrinking loop finds exactly the blocked parents of a name; an address is matched against the ranges. |
| `ExitGuard.Guard.CheckPolicy` | internal/exit/guard.go:222-241 | The first gate that fails, in the code's order. |
| `ExitGuard.Guard.PolicyAdmitsExactly` | internal/exit/guard.go:222-241 | Policy admits a request if and only if its tier is in scope, its reputation is not too low, its port is not blocked, its host is not listed and its target is not private; each denial is given exactly when its gate is the first that fails. |
| `ExitGuard.Guard.CheckLimits` | internal/exit/guard.go:243-252 | The two limiters in order: their answers and their new tables, the second untouched when the first refuses. |
| `ExitGuard.Guard.AcquireSlot` | internal/exit/guard.go:254-265 | The locked region is one acquisition step of the ledger and hands out a fresh slot. |
| `ExitGuard.Guard.Authorize` | internal/exit/guard.go:221-277 | Granted exactly when policy, both limiters and the caps agree; a refusal names its reason and leaves the ledger unchanged; a request that policy denies costs no token. |
| `ExitGuard.Guard.Release` | internal/exit/guard.go:266-276 | The release function is one release step of the ledger, whether first call or not. |
| `ExitGuard.Guard.Charge` | internal/exit/guard.go:159-164 | One charge of the byte limiter, or nothing without one. |
| `UdpRelay.ServeDatagram` | internal/node/udp.go:94-159 | The loop body, with a release on each of its three failing paths, is one step of the relay. |
| `UdpRelay.ForwardedExactly` | internal/node/udp.go:94-159 | A datagram is sent exactly when its target is live, or is authorised, resolved, not disallowed and dialled now; live targets are not authorised again; the loop is stopped exactly by a datagram sent that spends a metered budget. |
| `UdpRelay.ServeKeeps` | internal/node/udp.go:88-160 | For any datagrams, any outcomes and any other tunnels on the same ledger: every slot granted is released once or held by a live target, and nothing is sent to a disallowed address or without a slot. |
| `UdpRelay.SentIsJustified` | internal/node/udp.go:94-154 | In every run, each payload sent came in a datagram for that very target, and that one or an earlier one for the same target passed the guard, took the slot the target holds and resolved to the address sent to, which was allowed. |
| `UdpRelay.ServeAll` | internal/node/udp.go:88-160 | The inputs read are a prefix, which ends at the first datagram that was sent and spent the byte budget, or else is everything; each datagram read is sent if and only if an earlier one opened its target or it is authorised, resolved, not disallowed and dialled now, and takes a slot if and only if it is not for a live target and the guard and the ledger give one; nothing else is sent or taken. |
| `UdpRelay.HeldIsLiveTargets` | internal/node/udp.go:76-77 | The number of slots held is the number of live targets. |
| `UdpRelay.TearDown` | internal/node/udp.go:77-86 | Closing releases every remaining slot exactly once. |
| `UdpRelay.RelayUDP` | internal/node/udp.go:65-161 | The same of the whole relay; and when it ends, each granted slot has been released exactly once, the shared ledger balances, and every payload sent was justified in that sense. |
| `StableSort.SortedIsUnique` | internal/routing/rank.go:38-49 | Under a strict weak order two stable sorted arrangements of the same elements are equal. |
| `StableSort.SortIsStable` | internal/routing/rank.go:38-49 | The reference sort is a stable sorted arrangement. |
| `StableSort.StablySortedPermutes` | internal/routing/rank.go:38-49 | A stable sorted arrangement is a permutation. |
| `StableSort.SortInPlace` | internal/routing/rank.go:38-49 | The in-place sort by adjacent swaps leaves the array as that one arrangement. |
| `Routing.EligibleMembers` | internal/routing/rank.go:27-36 | Eligible are exactly the nodes of the region, other than ourselves, that offer to be an exit, strangers only under the open scope. |
| `Routing.EligibleInOrder` | internal/routing/rank.go:27-36 | Filtering keeps the order and judges each node by itself. |
| `Routing.LexicographicIsStrictWeak` | internal/routing/rank.go:38-49 | The comparator is a strict weak order. |
| `Routing.WeightedIsStrictWeak` | internal/routing/weighted.go:48-65 | So is the weighted one, for all real weights. |
| `Routing.RankExits` | internal/routing/rank.go:20-51 | The result is the unique stable sorted arrangement of the eligible nodes. |
| `Routing.RankExitsWeighted` | internal/routing/weighted.go:29-67 | The same for the weighted order. |
| `Routing.RankedIsOrdered` | internal/routing/rank.go:38-49 | Of any two exits in the ranking the first is more trusted, or as trusted and faster, or as fast and no more loaded; the ranking is a permutation of the eligible nodes. |
| `Routing.RankedByScore` | internal/routing/weighted.go:40-65 | Of any two exits in the weighted ranking the first has the higher score (weighted trust less weighted latency and load), or the same and may stand first in the plain one. |
| `Routing.WeightedRefinesToLexicographic` | internal/routing/weighted.go:19-28 | When trust outweighs all latency and load, and latency all load, the weighted ranking returns the lexicographic one. |
| `Routing.MergeExits` | internal/routing/merge.go:27-58 | The list is the coordinator's followed by exactly the DHT's exits that neither the coordinator nor an earlier entry names, in order, with their own addresses and region; the look-up is the coordinator's for whom it names and stranger for anybody else. |
| `Routing.MergeIsUnion` | internal/routing/merge.go:20-26 | The coordinator's entries come first and untouched, the IDs are the union of both sides, and no duplicate is added. |
| `Routing.MergeInvisibleToConservative` | internal/routing/merge.go:24-26 | Under conservative scope either ranking of the merged list is the ranking of the coordinator's list alone. |
| `Routing.TrustedPrecedeDHTOnly` | internal/routing/merge.go:51-56 | Every ranked coordinator exit above stranger tier precedes every exit only the DHT knows. |
| `DatagramCodec.WriteDatagram` | pkg/protocol/datagram.go:19-41 | A valid datagram appends exactly its frame, or as much of it as there was room for and fails; an invalid one writes nothing and is refused for the right reason. |
| `DatagramCodec.ReadDatagram` | pkg/protocol/datagram.go:44-70 | The result and what is left on the stream, on every path. |
| `DatagramCodec.FrameReads` | pkg/protocol/datagram.go:19-70 | A written frame reads back as its datagram and leaves exactly what follows. |
| `DatagramCodec.FramesRead` | pkg/protocol/datagram.go:15-18 | Any sequence of frames reads back as exactly those datagrams, to the end of the stream. |
| `DatagramCodec.ReadIsCanonical` | pkg/protocol/datagram.go:44-70 | Whatever the reader accepts is valid and re-encodes to the very bytes consumed. |
| `DatagramCodec.CutFrameFails` | pkg/protocol/datagram.go:44-70 | A frame cut short is never taken for a datagram. |
| `DatagramCodec.PrefixYieldsWholeDatagrams` | pkg/protocol/datagram.go:43-70 | A stream cut anywhere yields exactly the datagrams that lie wholly before the cut, and then an error. |
| `DatagramCodec.FrameLayout` | pkg/protocol/datagram.go:10-41 | A frame is a two-byte count of the target, the target, a four-byte count of the payload and the payload, both counts most significant byte first. |
| `DatagramCodec.ReadByPosition` | pkg/protocol/datagram.go:44-70 | For any bytes, by position and announced lengths: which datagram is read, or which error, and what is left. |
| `Resolve.ResolveExits` | internal/node/resolve.go:34-65 | The results report, in order, exactly the candidates that are not ourselves, signed the nonce, verify, keep an address that is safe to dial, are not revoked, and are accepted by the guard if there is one; each with only its safe addresses. The guard has then seen exactly the candidates that qualify. |
| `Resolve.ResultsAreVerified` | internal/node/resolve.go:39-62 | Every result reports such a candidate's verified record with its safe addresses, at or above the floor, is never recommended, and is eligible exactly when the revocation data is fresh. |
| `Resolve.ResolvedExactly` | internal/node/resolve.go:39-63 | For all candidates and any guard state, that is what the specification selects. |
| `Resolve.GuardRun` | internal/node/resolve.go:50-54 | One call is a run of the equivocation guard, so its results hold across calls. |
| `Resolve.IsolatedNeverResolved` | internal/node/resolve.go:50-54 | A subject isolated before a call is in none of its results, nor in later ones. |
| `Resolve.HonestNodeIsNeverIsolated` | internal/node/resolve.go:38-54 | Over any sequence of calls, whatever candidates answer, a node whose key signs one payload per generation is never isolated. |
| `Resolve.HonestNodeIsResolved` | internal/node/resolve.go:38-63 | After any such calls, each candidate of the next call that bears its ID, is live, verifies unrevoked and has an address that is safe to dial is among the results, with its safe addresses. |
| `Resolve.ResolvedExitIsRootAuthorised` | internal/node/resolve.go:38-63 | In every credential run, a resolved exit that advertises exit comes from a candidate whose own chain goes through a key other than the coordinator's, which the root certified with every role certified there, exit among them. |

## Left out

- Cryptography, SHA-256, base64 and JSON: keys, digests and codecs are parameters, taken to round-trip, and the digest to be separator-free and collision-free, only where a lemma says so. Signing itself does not fail.
- The nonce-challenge responders sign raw bytes chosen by a peer and are outside the signature log; a candidate's live answer to the challenge is an input of the resolver.
- Integer widths: serials, generations and epochs are naturals and times are integers, so neither 64-bit wrap-around nor the saturation of `time.Sub` is modelled.
- Float64 rounding: seconds, tokens and scores are reals.
- The coordinator's two clock readings per authenticated request are taken as one.
- RateLimit.AdmissionBound: needs a non-negative rate and burst; `RateLimit.SweepInvisible` and `RateLimit.Progress` need only a non-negative rate (and a burst of at least 1 for progress).
- Bandwidth.BreakerBound: needs a non-negative rate and burst, as do the other byte-limiter results; a charge is a non-negative number of bytes, as every caller's is.
- Coordinator.Server.HandleCreateInvite: the look-up of a drawn code and its creation are one step, so two handlers that draw the same code at once are not interleaved; `Admission.CreateKeepsBooksExactly` says what the second creation would keep. The handlers' stores are taken one request at a time.
- Client.PinnedClient.DirectoryFor: one call at a time; concurrent fetches are covered by `ClientRuns` for the floors, the list in use and the cache file, not for the stale flag or the endpoint last reached. A write of the cache file is one step.
- ClientRuns.NextPublicationIsAccepted: within one lifetime of the publisher's counter, which the coordinator keeps only in memory; after its restart clients refuse what it signs until the counter catches up.
- Replay.AcceptedOnce: within one lifetime of the replay table, which the coordinator keeps only in memory; `Replay.RestartAcceptsAgain` says what a restart does.
- Admission.CodeAdmitsAtMost: about the present table; `Lifetimes.OverAdmitsExactly` is about every peer ever admitted with the code. A snapshot holds the whole store of one earlier moment.
- ExitGuard.Guard.IsHostBlocked: lower-casing, address and CIDR syntax and the disallowed ranges are parameters.
- UdpRelay.RelayUDP: the reader goroutines appear as the end of the stream or a tripped budget, and idle timeouts and failed socket writes do not stop the loop in the source either; replies written back are not modelled. It works on a relay value rather than on shared objects, so aliasing of sockets is not captured.
- StableSort.SortInPlace: the library's stable sort is another algorithm; the uniqueness lemma makes the result the same.
- Resolve.ResolveExits: does not check that a result advertises the role or region asked for, as the source does not; finding candidates on the DHT is an input.
- The member set, and signing and verifying revocation checkpoints: the resolver takes a checkpoint's contents as given.
- Trust graph, reputation, endorsements and groups, latency averaging, the metrics registry, the directory's TTL filter, scope and outcome parsing: they are single look-ups, averages and filters whose results enter the model as parameters (a peer's tier, reputation and metrics).
- libp2p hosts, the DHT, relaying, NAT, HTTP, TLS, SOCKS5, TUN routes, files, command lines and user interfaces: input and output through foreign libraries.
