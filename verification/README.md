# BlindVault, verified

A Dafny model of BlindVault's credential service and its proofs. BlindVault signs blinded messages, so that it cannot
recognise the credential later, and redeems each credential once. The model covers the cryptographic protocol, the
redemption path as a concurrent system, both kinds of store, the rate limiter, the client and the configuration.

`dafny verify dfyconfig.toml` checks everything.

## Main results

1. **Redemption, over every interleaving** (`Redemption`, `RedemptionRuns`, `Replay`, `Contention`). Any number of
   calls, revocations, lost messages, retries, commands that arrive late, and clock ticks. In memory each nullifier is
   accepted at most once; with Redis two acceptances are more than one expiration apart, whatever is lost, retried or
   late. Every stored nullifier belongs to a signature `sk(epoch, class) * witness` in a supported epoch. Whose
   insertion a "duplicate" is told of is exact. A valid call that meets no failure has three possible answers, and
   exactly one when it is not revoked and is either undisputed or begun after an insertion of its nullifier.
2. **Revocation in real time** (`RevocationOrder`, `Races`). A revocation that has taken effect and stands, renewed or
   not, keeps out every later call, unless it is class-wide and an entry for the epoch hides it by expiring; only a
   revocation keeps a call out; and when the separate steps of a Redis check let a revoked call past is exact.
3. **Blindness and proofs** (`Groups`, `Bls`, `Dleq`), for any prime-order groups with a pairing: exactly one blinding
   factor explains any issued signature by any credential; the equality proof is complete, has special soundness with
   an exact bound, and is simulatable.
4. **Rate limiting, over every history** (`RateLimiterTraces`): the bounded limiter never admits fewer requests than
   the one that forgets nothing, never more than burst and rate allow; a client that was never dropped is admitted if
   and only if every window stays within burst and rate; cleanup is invisible if and only if
   `burst <= 10 * rpm`; and the capacity is kept if and only if no newcomer overflows it.
5. **Stores, encodings, client** (`Revocation`, `Names`, `Codec`, `Client`): both revocation stores against one timed
   specification, with the exact states in which each departs from it; injective keys and hash inputs, round trips, and
   the client's blinding factors whichever file writes fail.
6. **End to end** (`EndToEnd`, `SoloRuns`), with either store: an honest credential is accepted on its first
   redemption and, for one expiration, refused on every later one; after that it is accepted again.

## Findings

- With Redis a revocation check is several steps: the epoch's key is read, an entry is compared with the server's clock,
  and without one the class-wide key is read. In two ways a call is accepted although its class and epoch are revoked
  at every instant of it: the revocation is moved from the class to the epoch between the two reads
  (`NoSingleInstantInRedis`), or an entry for the epoch expires between its read and the comparison, in front of a
  class-wide revocation (`ExpiredBetween`). `BothReadsRevokedExact` and `ExpiredReadRevokedExact` say exactly when each
  happens at the two instants of a check, and by `ClearInstantInRedis` there is no third way.
- A Redis key lives for what was left until the deadline when the server computed it, counted from when Redis executes
  the command. One that took time therefore outlives its deadline, and then the epoch's key hides a class-wide
  revocation and the class-wide key is still believed (`LateKeysStray`), and nothing else goes wrong
  (`RedisRefinesExact`).
- In memory an expired revocation of one epoch hides a live one of the whole class (`StoresDiverge`);
  `MemoryRefinesExact` says this is the only difference. `docs/api_reference.md` promises rejection until the
  revocation is lifted.
- A retry after a lost reply can turn the only redemption into a "duplicate" (`LostAcceptance`). This happens if and
  only if an insertion by the call itself, unheard because its reply was lost or because it arrived after the call had
  given the command up, has not expired at the attempt that is answered (`DuplicateExact`).
- The limiter can exceed its capacity, when two newcomers share a clock reading (`SameInstantExceeds`) or when the
  stalest entry has the empty key (`EmptyKeyExceeds`), and in no other way (`CapacityExact`).
- A blinding factor that was used comes back if and only if the file had it, could not be written when it was deleted,
  and the client is restarted before the next write (`UsedFactorExact`).
- The configuration comments call the nullifier expiration seconds; `internal/api/server.go:43` passes the number as a
  duration in nanoseconds. The model keeps `expiration` symbolic, in ticks of the clock.

## What is assumed of the surroundings

- Points are elements of prime-order groups with a bilinear, non-degenerate pairing (`PairingLaws`). The laws are met
  by the integers modulo any prime (`ZrPairing`). Compressed encodings have fixed widths and identify the point.
- The hashes are arbitrary deterministic functions. What needs two hash values to differ says so of these two:
  `OneContext` of the keys of its two contexts; `NullifiersSeparate` and `DuplicateMeansPresented` name the digest
  collision as the other possibility.
- golang.org/x/time/rate: a refused request changes nothing, a new bucket is full. Its floating-point amounts are exact
  integers here: time in nanoseconds, one token is 60 * 10^9 parts.
- The curve library of the browser client rejects multiplication by the zero scalar. The two libraries' hashes to a
  scalar are two functions; `VerifyProofJs` says what follows where they agree and where they do not.
- Redis executes commands one at a time and shares the server's clock; a key is there up to and including its deadline.
  The client library may resend a command whose request or reply was lost, up to `retries` times (3 as configured), and
  a command it stopped waiting for may be executed at any later time.
- Randomness, clock readings, cancellation, the success of file writes and of library calls are parameters.

## Model

| member | source | states |
|---|---|---|
| Redemption.Reachable | internal/service/credentials.go:133-218 | Every state of every run keeps the invariant: what a call's position says about its request, and how the store, the log of insertions, the commands on their way, the calls and the counter hang together |
| Redemption.LocalProgress | internal/service/credentials.go:137-205 | A call reaches the store only with a validated class, a supported epoch and a credential that verified |
| Redemption.FailureExact | internal/service/credentials.go:148-209 | What a failure does at each position: the answer it leads to, and nothing stored |
| Redemption.ExecutedLog | internal/storage/nullifier_redis.go:42-56 | Whatever is lost, retried or late, an insertion happens only when every earlier one of the same nullifier has expired, and is of a valid credential |
| RedemptionRuns.AtMostOnce | internal/storage/nullifier_memory.go:21-36 | In memory, in every interleaving, two accepted calls present different nullifiers |
| RedemptionRuns.AcceptancesSpaced | internal/storage/nullifier_redis.go:42-56 | With an expiring store and retries, two acceptances of one nullifier are more than one expiration apart |
| RedemptionRuns.ReplayWindow | internal/storage/nullifier_redis.go:45-55 | A nullifier is refused exactly while an insertion of it has not expired |
| RedemptionRuns.StoredIsGenuine | internal/service/credentials.go:145-205 | Every stored nullifier was presented as a valid credential in a supported epoch, in memory by a call that won it |
| RedemptionRuns.RejectedStoresNothing | internal/service/credentials.go:145-201 | A call that ends revoked, unsupported, undecodable or unverified changed the store at no step of its own and by no command |
| RedemptionRuns.QuiescentStore | internal/storage/nullifier_memory.go:31-35 | In memory, with no call in flight, the stored nullifiers are exactly the accepted ones |
| RedemptionRuns.SuccessCounter | internal/api/handlers.go:72-106 | In memory the success counter never exceeds the number of stored nullifiers and equals it when all calls are done |
| Replay.DuplicateExact | internal/service/credentials.go:203-214 | With either store, at the attempt answered "already redeemed" exactly one insertion of the nullifier stood, made for a valid presentation of the same credential; it was the call's own if and only if an unheard command of the call had inserted it |
| Replay.NobodyElse | internal/storage/redis.go:10-18 | If no other call presents the credential, only an unheard insertion of its own makes a call a duplicate |
| Replay.CommandsBounded | internal/storage/redis.go:15 | A call sends at most one command and the configured retries, and none before its check is over |
| Replay.DuplicateMeansRedeemed | internal/service/credentials.go:203-214 | In memory, only because another call won: with the same signature for the same class and epoch, or as a nullifier collision |
| Replay.InsertionStays | internal/storage/nullifier_redis.go:45-55 | An insertion keeps its nullifier in the store on every continuation within one expiration |
| Replay.LaterWin | internal/storage/nullifier_redis.go:42-56 | A call that begins after an insertion can win the same nullifier only with an expiring store and more than one expiration later |
| RedemptionRuns.ReadInstant | internal/service/credentials.go:148-160 | In memory every accepted call has an instant of its own at which class and epoch read as not revoked |
| RedemptionRuns.ReadInstants | internal/storage/revocation_redis.go:74-107 | With Redis the epoch's key and then the class's key were each absent at an instant of the call, or the epoch's was there at one and its entry expired at a later one |
| RedemptionRuns.RevokedInstant | internal/service/credentials.go:149-159 | With either store a call told "revoked" read a revocation at one instant of its own |
| RevocationOrder.RevokedStaysOut | internal/service/credentials.go:148-160 | A call invoked after a revocation took effect is not let past as long as that revocation, renewed or not, stands while the call is being checked and no entry for the epoch hides it, by having expired or by expiring between its read and the comparison |
| RevocationOrder.StillRevokedStaysOut | internal/service/credentials.go:148-160 | So no later call at all is let past while every decision about it is a revocation still in force |
| RevocationOrder.RevokedSince | internal/service/credentials.go:148-160 | A call invoked when neither its epoch nor its class was revoked is answered "revoked" only if one of them has been revoked before the end of its check |
| RevocationOrder.PastDeadlineIsRefused | internal/storage/revocation_redis.go:57-63 | With Redis a revocation whose deadline had passed changes nothing |
| RevocationOrder.LiftedLetsIn | internal/storage/revocation_memory.go:81-87 | After a revocation is lifted, with nothing else in force, no later call is answered "revoked" until the next revocation |
| Races.NoSingleInstantInRedis | internal/storage/revocation_redis.go:75-104 | For any Redis deployment and valid credential, a run in which the revocation is moved and the call accepted although revoked at each of its instants |
| Races.ExpiredBetween | internal/storage/revocation_redis.go:77-88 | Another, in which nobody decides anything during the call and an entry expires between read and comparison |
| RevocationOrder.BothReadsRevokedExact | internal/storage/revocation_redis.go:75-104 | Both reads of a call let past meet a revocation exactly when the class-wide key is there at the first and an entry for the epoch in force at the second, and then the epoch was revoked in between |
| RevocationOrder.NoClearInstant | internal/storage/revocation_redis.go:75-104 | With no clear instant between the two missing reads, the epoch was revoked between them while the class-wide key was there |
| RevocationOrder.ExpiredReadRevokedExact | internal/storage/revocation_redis.go:77-88 | A call let past by an expired entry is revoked at both its instants exactly when the entry was in force when read, and at the comparison the epoch has been revoked anew or the class-wide key is there |
| RevocationOrder.ClearInstantInRedis | internal/storage/revocation_redis.go:75-104 | Unless its epoch is revoked during the check, or an entry for it runs out between read and comparison in front of a class-wide key, every call let past has an instant of its check that is clear |
| Races.LostAcceptance | internal/storage/redis.go:10-18 | For any Redis deployment with retries and any valid credential, a run in which a retry answers "duplicate" to the only redemption |
| SoloRuns.AnswerExact | internal/service/credentials.go:133-218 | Which answer a request gets, by its fields, its revocation, its points, its key and its signature; only an acceptance changes the table |
| SoloRuns.MemoryService.Consume | internal/service/credentials.go:133-218 | The sequential code gives the answer and the store contents of the specification, for every request, and the interrupted answer exactly where an interruption comes first |
| SoloRuns.MemoryService.HandleConsume | internal/api/handlers.go:54-107 | Malformed requests are answered before anything else, the rest as above; exactly the acceptances are counted |
| SoloRuns.SoloAgrees | internal/service/credentials.go:133-218 | An undisturbed call of the concurrent system does what the sequential specification says, for every request and either store |
| SoloRuns.CheckExact | internal/service/credentials.go:137-201 | The checks let through exactly the validated, supported, unrevoked, valid credentials |
| Contention.ThreeAnswers | internal/service/credentials.go:133-218 | In every interleaving, with either store, a valid call that meets no failure is accepted, told "duplicate" or told "revoked" |
| Contention.LostToAnother | internal/service/credentials.go:203-214 | Told "duplicate", it lost to an unexpired insertion by another call |
| Contention.SomebodyWins | internal/service/credentials.go:203-214 | Once one of the contending valid calls is answered and not revoked, one of them has won; with Redis, if none of them meets a failure |
| Contention.UndisputedIsAccepted | internal/service/credentials.go:133-218 | One that nobody else disputes is accepted or told "revoked" |
| Contention.OnlyAccepted | internal/service/credentials.go:133-218 | and, not being revoked, can only be accepted |
| Contention.OnlyDuplicate | internal/service/credentials.go:211-214 | One that begins after an insertion of its nullifier can, within one expiration and not being revoked, only be told "duplicate" |
| Nullifiers.InMemoryNullifierStore.CheckAndStore | internal/storage/nullifier_memory.go:21-36 | Set-if-absent on the contents; a cancelled request changes nothing |
| Nullifiers.RedisNullifierStore.CheckAndStore | internal/storage/nullifier_redis.go:42-56 | One attempt: executed or not, and answered or not, as the network decides |
| Groups.MultMul | pkg/crypto/bls.go:39-51 | (a b) P = a (b P), from repeated addition |
| Groups.MultDistribute | pkg/crypto/bls.go:39-51 | k (P + Q) = k P + k Q |
| Groups.MultCancel | pkg/crypto/bls.go:39-51 | A multiple of a non-identity point determines the scalar modulo the order |
| Groups.MultInverse | pkg/crypto/bls.go:53-63 | Multiplying by a non-zero scalar and by its inverse is the identity, both ways |
| Groups.ZrPairing | pkg/crypto/bls.go:80-90 | The laws assumed of the pairing are consistent for every prime order |
| Modular.InverseCorrect | pkg/crypto/bls.go:55-57 | The extended Euclidean inverse of a non-zero scalar is its inverse |
| Modular.InverseUnique | pkg/crypto/bls.go:55-57 | and the only one |
| Bls.ScalarActions | pkg/crypto/bls.go:39-51 | Blinding, signing and key derivation add the point once more for each unit of the scalar |
| Bls.UnblindExact | pkg/crypto/bls.go:53-63 | Unblinding gives the one point that blinds to the signature |
| Bls.VerifyPointExact | pkg/crypto/bls.go:80-90 | The pairing check accepts exactly sk * message |
| Bls.UnblindRecovers | pkg/crypto/bls.go:39-63 | Blind, sign, unblind is signing, and the result verifies |
| Bls.PerfectBlindness | pkg/crypto/bls.go:39-63 | For any issuance view and any credential there is exactly one non-zero blinding factor, and unblinding with it gives that credential |
| Bls.TwoKeysExact | pkg/crypto/bls.go:80-90 | One signature verifies under two keys if and only if it is the signature and the keys agree or the witness is the identity |
| Bls.SignatureIsTheWitness | pkg/crypto/nullifier.go:7-28 | Under one key, redeemed signatures are equal exactly when their witnesses are |
| Dleq.ComputeChallenge | pkg/crypto/dleq.go:99-133 | The hashed buffer is R1, R2, public key, blinded point and signature, in this order |
| Dleq.FillAtOffsets | js_client/src/bls_blind.ts:82-95 | Filling at a moving offset gives the same bytes |
| Dleq.ComputeChallengeJs | js_client/src/bls_blind.ts:75-97 | The browser hashes the bytes the server hashes |
| Dleq.TranscriptInjective | pkg/crypto/dleq.go:121-126 | The transcript determines all five points |
| Dleq.Completeness | pkg/crypto/dleq.go:11-97 | Whatever proof the server produces, the client accepts |
| Dleq.ResponseReduced | pkg/crypto/dleq.go:39-54 | The response of every produced proof is below the order |
| Dleq.SpecialSoundness | pkg/crypto/dleq.go:72-96 | Two answers to one commitment give away the scalar behind key and signature |
| Dleq.SoundnessExact | pkg/crypto/dleq.go:72-96 | Two challenges can be answered if and only if the claim is true |
| Dleq.FalseClaimNeedsLuck | pkg/crypto/dleq.go:57-97 | A verified proof of a false claim means the transcript hashed to the only answerable challenge |
| Dleq.ProofIsUnique | pkg/crypto/dleq.go:67-84 | The commitments of a verified proof determine its challenge and its response |
| Dleq.Simulated | pkg/crypto/dleq.go:16-54 | Any challenge and response come from exactly one random scalar, so transcripts can be simulated without the key |
| Dleq.ClaimUnblinds | pkg/client/client.go:84-107 | A true claim gives the client a signature that passes the redemption check |
| Dleq.VerifyProofJs | js_client/src/bls_blind.ts:99-128 | The browser's verifier accepts exactly what the server's accepts with both scalars non-zero, where the two hashes agree on the transcript; elsewhere they accept nothing in common |
| RateLimiter.Limiter.constructor | internal/api/rate_limiter.go:31-44 | No limits configured means disabled; a negative burst becomes the rate |
| RateLimiter.Limiter.OldestKey | internal/api/rate_limiter.go:61-68 | The scan finds a least recently used client, or that nobody is older than now |
| RateLimiter.Limiter.Allow | internal/api/rate_limiter.go:47-82 | Decision and new state, with an eviction as the code may choose it |
| RateLimiterTraces.TrackedExact | internal/api/rate_limiter.go:57-94 | Who is tracked after each event: a tracked client's request drops nobody, a newcomer's at most one and only at a full map, a cleanup those not seen for over ten minutes |
| RateLimiterTraces.AdmissionExact | internal/api/rate_limiter.go:57-81 | A client without windfalls is admitted if and only if admitting it keeps every window of its history within burst + rpm T / 60 s |
| RateLimiterTraces.NothingForNothing | internal/api/rate_limiter.go:57-81 | Without a burst nobody is admitted, and a clock that goes back refills nothing |
| RateLimiter.Limiter.Cleanup | internal/api/rate_limiter.go:86-94 | Exactly the clients idle for more than ten minutes are dropped |
| RateLimiterTraces.NeverStricter | internal/api/rate_limiter.go:47-94 | On every history each client has been admitted at least as often as by the limiter that never forgets |
| RateLimiterTraces.SingleDecisionsDiffer | internal/api/rate_limiter.go:60-81 | although a single decision can go the other way |
| RateLimiterTraces.WindowBound | internal/api/rate_limiter.go:57-94 | In any window: one burst, one more per eviction (and per cleanup only if idle entries may not have refilled), and the refill |
| RateLimiterTraces.TrackedConforms | internal/api/rate_limiter.go:57-94 | A client never evicted, nor dropped by a cleanup that comes too early, is admitted at most burst + rpm T / 60 s times |
| RateLimiterTraces.CleanupInvisibleExact | internal/api/rate_limiter.go:84-94 | Without evictions, cleanup changes no answer on any history if and only if an idle entry has refilled |
| RateLimiterTraces.TenMinutes | internal/api/rate_limiter.go:90 | that is, burst at most ten times the requests per minute |
| RateLimiterTraces.CapacityExact | internal/api/rate_limiter.go:58-79 | On every history the map and all its prefixes are within the capacity if and only if no newcomer meets a full map with nobody staler than now, or with the empty key as the stalest |
| RateLimiterTraces.Bounded | internal/api/rate_limiter.go:58-79 | With a strictly advancing clock and non-empty keys, never more clients than configured |
| RateLimiterTraces.SameInstantExceeds | internal/api/rate_limiter.go:61-68 | and the strict clock is needed |
| RateLimiterTraces.EmptyKeyExceeds | internal/api/rate_limiter.go:69-71 | and so are the non-empty keys |
| RateLimiterTraces.EvictsLeastRecentlyUsed | internal/api/rate_limiter.go:60-71 | An eviction takes a client whose latest request is no later than any other's |
| Revocation.InMemoryRevocationStore.IsRevoked | internal/storage/revocation_memory.go:45-69 | The entry that decides, read from the map |
| Revocation.RedisRevocationStore.RevokeClass | internal/storage/revocation_redis.go:44-71 | A past deadline is refused without a write; otherwise the key lives for the time that was left, counted from when the command is executed |
| Revocation.RedisRevocationStore.IsRevoked | internal/storage/revocation_redis.go:74-107 | The answer of the reads at their three instants while nobody writes |
| Revocation.MemoryRefinesExact | internal/storage/revocation_memory.go:45-69 | On every history the in-memory store meets the timed specification exactly while no expired epoch entry hides a class-wide one |
| Revocation.RedisRefinesExact | internal/storage/revocation_redis.go:44-107 | On every history, read undisturbed, the Redis store meets it exactly while no key that outlives its deadline hides or is believed |
| Revocation.RedisRefines | internal/storage/revocation_redis.go:44-107 | hence always when commands are executed at once |
| Revocation.LateKeysStray | internal/storage/revocation_redis.go:57-104 | Two histories in which a late key departs from the specification |
| Revocation.AnswersAreInForce | internal/storage/store.go:36-38 | The entry returned is the latest for its scope and in force, but for a class-wide Redis key that outlives its deadline |
| Revocation.StoresDiverge | internal/storage/revocation_memory.go:51-57 | The state in which the two stores differ |
| Names.MemoryKeyInjective | internal/storage/revocation_memory.go:96-101 | The in-memory key determines class and scope |
| Names.RedisKeyInjective | internal/storage/revocation_redis.go:150-155 | The Redis key does too, but for the epoch spelled "all" |
| Names.ClassExact | internal/validation/validate.go:9 | The classes are all texts of 1 to 64 of the 64 characters written out |
| Names.EpochExact | internal/validation/validate.go:8 | The epochs are all texts of four digits, a hyphen and two digits |
| Names.KeyLayouts | pkg/crypto/derive.go:59 | The revocation keys and the key-derivation info, field by field |
| Names.InfoInjective | pkg/crypto/derive.go:57-59 | Different epochs or classes derive from different info strings |
| Names.ComputeNullifier | pkg/crypto/nullifier.go:13-28 | The successive writes hash the preimage |
| Names.PreimageInjective | pkg/crypto/nullifier.go:7-28 | The preimage determines epoch, class and signature |
| Names.PreimageLayout | pkg/crypto/nullifier.go:13-28 | The nullifier preimage, field by field |
| Codec.ScalarCodec | pkg/crypto/scalar.go:24-65 | The decoder accepts exactly the 32-byte encodings of scalars below the order and is inverse to the encoder |
| Codec.OrderOfTheCurve | pkg/crypto/scalar.go:55-56 | The order is x^4 - x^2 + 1 for the parameter x of the curve |
| Codec.LeadingByte | pkg/crypto/scalar.go:24-28 | The first byte is the most significant |
| Codec.IsZero | pkg/crypto/scalar.go:31-38 | The byte scan recognises zero |
| Codec.HexToBytes | js_client/src/utils.ts:5-13 | The loop parses the normalised text pair by pair |
| Codec.HexTextExact | js_client/src/utils.ts:6-10 | Only a leading "0x" is skipped, and an odd length refused |
| Codec.ReadsPair | js_client/src/utils.ts:10 | Two digits, in either case, are read high one first |
| Codec.PrintsPair | js_client/src/utils.ts:16 | A byte is printed as two lower-case digits, high one first |
| Codec.LenientByte | js_client/src/utils.ts:10 | What parseInt makes of pairs that are not two digits |
| Codec.HexRoundTrip | js_client/src/utils.ts:5-17 | hexToBytes inverts bytesToHex on every byte array |
| Codec.HexTextRoundTrip | js_client/src/utils.ts:5-17 | and bytesToHex inverts hexToBytes on exactly the canonical lower-case texts |
| Client.State.Store | pkg/client/state.go:83-97 | The request is kept in memory, and in the file if the write succeeds |
| Client.Blind | pkg/client/client.go:56-82 | The blinded point, and the factor stored under the identifier |
| Client.Unblind | pkg/client/client.go:90-107 | Unblinds with the stored factor and deletes the request; otherwise changes nothing |
| Client.FactorExact | pkg/client/state.go:83-116 | On every history, whichever writes fail, each identifier finds exactly its outstanding request, factor, message and point, and after a restart exactly the one on record |
| Client.FileEqualsMap | pkg/client/state.go:72-80 | While every write succeeds the file equals the map |
| Client.UsedFactorExact | pkg/client/client.go:104-105 | A used factor comes back if and only if the file had it, its deletion was not written and a restart comes before the next write |
| Client.BlindThenUnblind | pkg/client/client.go:56-107 | The right factor, once, and nothing else removed, whatever other writes fail |
| Config.Config.Validate | internal/service/config.go:189-303 | Succeeds on exactly the acceptable configurations and leaves well-formed distinct epochs, the active one among them, and positive limits |
| Config.AcceptableExact | internal/service/config.go:189-303 | What validation asks for in each mode, item by item |
| Config.Config.IsEpochSupported | internal/service/config.go:330-337 | Membership in the list |
| EndToEnd.IssuedVerifies | internal/service/credentials.go:68-130 | What is issued decodes to sk * blinded under the key of the epoch it names, carries the public key, and a proof that verifies and survives its encoding |
| EndToEnd.IssueExact | internal/service/credentials.go:68-130 | Issuance succeeds exactly when the text decodes, class and epoch are named and have a key, and neither cancellation nor a library failure intervenes |
| EndToEnd.CredentialExact | internal/service/credentials.go:162-204 | A request passes verification exactly when it presents the signature of its witness for its own epoch and class |
| EndToEnd.StoredSignature | internal/service/credentials.go:199-205 | In every state of every run a stored nullifier is that of sk(epoch, class) * witness in a supported epoch |
| EndToEnd.OneContext | pkg/crypto/derive.go:37-72 | A signature on a non-identity witness is a credential in at most one of two epochs and classes whose keys differ |
| EndToEnd.NullifiersSeparate | pkg/crypto/nullifier.go:7-28 | Two nullifiers are equal exactly for one epoch, class and signature, or by a collision of the digest on the two preimages |
| EndToEnd.DuplicateMeansPresented | internal/service/credentials.go:203-214 | In memory "duplicate" means another call won with the same signature, class and epoch, or their preimages collide |
| EndToEnd.HonestCredential | pkg/client/client.go:56-107 | Blind with any non-zero scalar, issue, verify, unblind with the stored factor gives a valid credential for the epoch the answer names |
| EndToEnd.HonestRun | internal/service/credentials.go:68-218 | and its first redemption is accepted, from any state in which it is unrevoked and unredeemed |
| EndToEnd.NeverAgain | internal/storage/nullifier_redis.go:42-56 | After an acceptance no call for the credential that begins later is accepted within one expiration; in memory no other call ever |
| EndToEnd.LaterIsDuplicate | internal/service/credentials.go:211-214 | and an unrevoked, undisturbed one is told "duplicate" |
| EndToEnd.OnceOnly | internal/service/credentials.go:68-218 | Both together, with either store and in every interleaving: an honest credential is accepted first and spent for one expiration on every continuation |
| EndToEnd.PresentationExact | internal/storage/nullifier_redis.go:42-56 | An undisturbed, unrevoked valid presentation is accepted if and only if every insertion of its nullifier has expired |

## Left out

- The internals of the curve libraries, SHA-256, HKDF and hash-to-curve, and computational security claims.
- JWT authentication, roles, middleware, HTTP and JSON, file and environment reading, the command line, the demo page.
- Metrics other than the success counter, logging, the texts and status codes of error answers, secure memory.
- `ListRevocations` of both stores, `Ping`, and `Close` of the Redis store.
- SoloRuns.MemoryService.HandleConsume: of the outcome counter only the "success" label is kept.
- Revocation.RedisRevocationStore.IsRevoked: network errors and writes by others between its steps appear in the step system only, and entries that are not readable JSON, which the code skips, do not occur.
- Client.State.Save: a failed write leaves the file as it was; a file left half-written is not modelled.
- Client.Blind: the random scalar and the identifier are parameters, so their distribution and freshness are not modelled.
- RateLimiter.Limiter.Allow: the host part of the address is its argument, and its clock readings within one call are one reading.
- SoloRuns.MemoryService.Consume: written for the in-memory stores; a Redis deployment is covered by the step system only.
- Nullifiers.RedisNullifierStore.CheckAndStore: one attempt; retries are in the step system, and the rounding of lifetimes to milliseconds by the Redis client is not modelled.
- Revocation.RedisRevocationStore.RevokeClass: that rounding too, which may end a key up to a millisecond early; a failed command is one that does not occur in a run.
- Which errors the list of `Config.Validate` names, beyond whether there are any.
- Changing the nullifier expiration while the server runs: runs have one expiration.
- `blind` and `unblind` of the browser client: the same group expressions as the server's, failing on a zero scalar.
- A server without a revocation store: `NewServer` always provides one.
