# Dify API: verified models of its algorithms and protocols

A Dafny model of the self-contained algorithms of the Dify API server, with
proofs of what they promise. `dafny verify dfyconfig.toml` checks everything.

| modules | what they model |
|---|---|
| `NumberTheory`, `Bits`, `Bytes`, `Oaep` | the hand-written RSAES-OAEP cipher (section 7.1 of RFC 8017), down to Fermat's little theorem |
| `HybridEnvelope` | the AES-EAX envelope whose key travels under that cipher |
| `LockTiming`, `MigrationLock` | the database migration lock: a timed protocol of any number of clients, and the wrapper class with its heartbeat |
| `LoadBalancer` | round-robin choice among model credentials and the retry loop on top of it |
| `RateLimiter`, `TokenManager`, `LikePattern` | the sliding-window limiter, the one-time tokens and the LIKE escape of `helper.py` |
| `Indexing` | the document indexing state machine with its hash buckets |
| `UuidV7` | UUID version 7 packing (section 5.7 of RFC 9562) |
| `SignContent` | the running-offset splice of signed links |
| `JsonMarkdown` | the search for JSON in a model's answer |
| `ContextVar` | context variables that die when a thread is recycled |

Objects whose methods update fields are classes, loops are loops with
invariants, and each such method is proved against a function of its inputs or
of the old state; the lemmas are about those functions. Redis, clocks,
randomness and services appear as parameters: time and failures are arguments
of each call, and other callers of a shared counter are an arbitrary function.

## Where the code and its promise differ

Each of these is stated as an exact condition and proved in both directions.

- The cipher takes any hash, but the label hash is always SHA-1: only 20-octet
  digests ever encrypt or decrypt (`Oaep.EncryptSucceeds`, `Oaep.AcceptedKeyLength`).
- Ciphertext integers at or above the modulus are reduced, not rejected
  (`Oaep.ReencryptsExactly`).
- The load balancer's counter wraps at 10,000,000; a search across the wrap can
  miss a usable configuration (`LoadBalancer.ExhaustionIsExact`). An empty list
  divides by zero (`LoadBalancer.LBModelManager.FetchNext`).
- The retry loop over credentials has no bound of its own: n unreachable
  configurations are tried in turn, until the shared counter wraps, if n-1 calls
  take the ten seconds of the cooldown, and once each if they take less
  (`LoadBalancer.SlowCallsNeverEnd`, `LoadBalancer.UnreachableEndsExactly`).
- A limit of zero or less does not limit an address without attempts
  (`RateLimiter.Limited`, the meaning of every answer). Callers that check at the
  same time can exceed the limit, by one attempt each
  (`RateLimiter.InterleavedIsBounded`, `RateLimiter.InterleavedBoundIsMet`). Times
  are cut to whole seconds, so that an interval of the configured length holds up
  to twice as many attempts on the clock (`RateLimiter.LimiterBoundsEveryInterval`,
  `RateLimiter.IntervalBoundIsMet`).
- Token generation is not atomic: of calls at the same time, each whose token none
  of the others has found on record leaves a live one (`TokenManager.RaceOutcome`),
  all of them if they alternate (`TokenManager.AlternatingLeavesAll`).
- A document run over old segments can be marked completed with segments
  unfinished (`Indexing.RunIsSafeIffNoSegments`,
  `Indexing.ResumeIsSafeExactly`). Asking for a retry sets the status back before
  the retry task deletes the segments, and a resume task goes by the status it
  finds, so a resume in between gets there, whether it was asked for after the
  retry or before (`Indexing.ResumeBeforeRetryMisses`,
  `Indexing.RetryBeforeResumeMisses`); so does one that overtakes the first run
  (`Indexing.ResumeBeforeStartMisses`).
- Signed links are spliced pattern by pattern; when an earlier pattern's link
  stands to the right of a later pattern's, the text is spoilt
  (`SignContent.RightExactlyWhenPassesFollow`, `SignContent.ToolBeforeImageIsSpoilt`).
- A bare JSON array that contains a brace, as one of objects does, is not
  recovered (`JsonMarkdown.BareArray`).
- A context value set before the very first increment survives that increment
  (`ContextVar.LeaksExactlyAcrossFirstIncrement`).

## Model

| member | source | states |
|---|---|---|
| `NumberTheory.PrimesAre` | dify-main/dify-main/api/libs/gmpy2_pkcs10aep_cipher.py:139 | primes are the numbers from two on that are no product of two such numbers |
| `NumberTheory.SmallKey` | dify-main/dify-main/api/libs/gmpy2_pkcs10aep_cipher.py:139 | the conditions on a key can be met: 15 = 3 * 5 with both exponents 3 |
| `NumberTheory.Euclid` | dify-main/dify-main/api/libs/gmpy2_pkcs10aep_cipher.py:139 | a prime that divides a product divides a factor; the primality facts behind RSA are proved here, not assumed |
| `NumberTheory.BinomialTheorem` | dify-main/dify-main/api/libs/gmpy2_pkcs10aep_cipher.py:139 | (1+x)^n is the sum of its binomial terms, the step from Pascal's rule to Fermat |
| `NumberTheory.Fermat` | dify-main/dify-main/api/libs/gmpy2_pkcs10aep_cipher.py:139 | x^p and x are congruent modulo a prime p, for every x |
| `NumberTheory.RsaInverse` | dify-main/dify-main/api/libs/gmpy2_pkcs10aep_cipher.py:172 | for distinct primes p, q and exponents inverse modulo p-1 and q-1, raising to e and then to d modulo pq gives back every residue, also those that share a factor with n |
| `NumberTheory.PowModIsPower` | dify-main/dify-main/api/libs/gmpy2_pkcs10aep_cipher.py:139-172 | powmod is the one residue congruent to the power |
| `Bytes.OctetsRoundTrip` | dify-main/dify-main/api/libs/gmpy2_pkcs10aep_cipher.py:137-141 | I2OSP of OS2IP of an octet string, at its own length, is the string |
| `Bytes.OctetsToIntConcat` | dify-main/dify-main/api/libs/gmpy2_pkcs10aep_cipher.py:137 | octet strings are read with the most significant octet first |
| `Bytes.IntRoundTrip` | dify-main/dify-main/api/libs/gmpy2_pkcs10aep_cipher.py:141 | OS2IP of the k-octet I2OSP of x is x for every x below 256^k |
| `Bytes.ModulusBytesBounds` | dify-main/dify-main/api/libs/gmpy2_pkcs10aep_cipher.py:109-110 | k, computed from the bit length, is the number of octets of the modulus: 256^(k-1) <= n < 256^k |
| `Bytes.XorBytesInvolution` | dify-main/dify-main/api/libs/gmpy2_pkcs10aep_cipher.py:128-133 | masking twice with the same mask is the identity |
| `Bytes.XorBytesDigits` | dify-main/dify-main/api/libs/gmpy2_pkcs10aep_cipher.py:128-133 | strxor works on every octet and every binary digit for itself |
| `Bits.DigitOfQuotient` | dify-main/dify-main/api/libs/gmpy2_pkcs10aep_cipher.py:128-133 | the k-th digit is the last one of the quotient by 2^k |
| `Bits.OrDigits` | dify-main/dify-main/api/libs/uuid_utils.py:64-72 | bitwise or on every digit |
| `Bits.AndDigits` | dify-main/dify-main/api/libs/uuid_utils.py:62-72 | bitwise and on every digit |
| `Oaep.CheckBlock` | dify-main/dify-main/api/libs/gmpy2_pkcs10aep_cipher.py:192-203 | the two accumulator loops and the early separator search accept exactly the blocks of the form (zero octet), label hash, zeros, 0x01, message, and return that message; every other block gives the same error |
| `Oaep.Decrypt` | dify-main/dify-main/api/libs/gmpy2_pkcs10aep_cipher.py:161-203 | the whole decryption refines the declarative reading of section 7.1.2 of RFC 8017, with its two error kinds |
| `Oaep.StripPaddingIsFind` | dify-main/dify-main/api/libs/gmpy2_pkcs10aep_cipher.py:192-199 | the first-0x01 search followed by the all-zeros test parses the same language as a left-to-right reading of zeros, one, message |
| `Oaep.EncryptSucceeds` | dify-main/dify-main/api/libs/gmpy2_pkcs10aep_cipher.py:109-142 | encryption succeeds if and only if the digest has 20 octets and the message at most k-42; the ciphertext is a k-octet residue; "too long" is raised if and only if the length bound fails |
| `Oaep.CiphertextIsPower` | dify-main/dify-main/api/libs/gmpy2_pkcs10aep_cipher.py:108-142 | every ciphertext is, modulo n, the power with the public exponent of the encoded block: a zero octet, the seed and the data block (label hash, zeros, 0x01, message), each masked with what is generated from the other |
| `Oaep.DecryptsExactly` | dify-main/dify-main/api/libs/gmpy2_pkcs10aep_cipher.py:161-203 | decryption returns a message if and only if the ciphertext has k octets and its power with the private exponent, modulo n, is such a block for that message, under some seed |
| `Oaep.DecryptErrors` | dify-main/dify-main/api/libs/gmpy2_pkcs10aep_cipher.py:164-203 | "wrong length" if and only if the length is not k or k is below hLen+2; a length error of strxor if and only if not 20 octets are compared with the label hash; everything else is the one error of an incorrect decryption |
| `Oaep.LeadingZeroFits` | dify-main/dify-main/api/libs/gmpy2_pkcs10aep_cipher.py:135-139 | any k-octet block with a leading zero is below the modulus, so exponentiation loses nothing |
| `Oaep.KeyInverse` | dify-main/dify-main/api/libs/gmpy2_pkcs10aep_cipher.py:139-172 | public and private exponentiation undo each other on every residue, in both orders |
| `Oaep.RoundTrip` | dify-main/dify-main/api/libs/gmpy2_pkcs10aep_cipher.py:108-203 | for every RSA key, seed and message of at most k-42 octets, encryption succeeds and decryption returns the message |
| `Oaep.AcceptedKeyLength` | dify-main/dify-main/api/libs/gmpy2_pkcs10aep_cipher.py:166 | although the guard only asks k >= hLen+2, nothing is accepted unless k >= 2*hLen+2 plus the message length, and hLen is 20 |
| `Oaep.ReexponentiateDecoded` | dify-main/dify-main/api/libs/gmpy2_pkcs10aep_cipher.py:169-174 | re-exponentiating the decoded block gives the ciphertext integer reduced modulo n, whatever the ciphertext |
| `Oaep.AcceptedIsEncryption` | dify-main/dify-main/api/libs/gmpy2_pkcs10aep_cipher.py:161-203 | every accepted ciphertext, reduced modulo n, is the encryption of the returned message under the recovered seed: nothing but encryptions is accepted |
| `Oaep.ReencryptsExactly` | dify-main/dify-main/api/libs/gmpy2_pkcs10aep_cipher.py:169-172 | re-encryption gives the ciphertext itself if and only if its integer is below n, since larger representatives are reduced silently |
| `Oaep.NextRepresentativeIsAccepted` | dify-main/dify-main/api/libs/gmpy2_pkcs10aep_cipher.py:169-174 | such representatives exist: adding n to an accepted ciphertext gives another accepted one for the same message, if it fits into k octets |
| `HybridEnvelope.SizeInBytesIsModulusBytes` | dify-main/dify-main/api/libs/rsa.py:72-75 | the size used to slice equals the k of the cipher |
| `HybridEnvelope.CutConcatenation` | dify-main/dify-main/api/libs/rsa.py:44-75 | the slices at size, +16 and +32 are exactly the four concatenated fields |
| `HybridEnvelope.EnvelopeLayout` | dify-main/dify-main/api/libs/rsa.py:27-51 | an envelope is "HYBRID:", the encrypted AES key in as many octets as the modulus, 16 octets of nonce, 16 of tag, and the ciphertext |
| `HybridEnvelope.AesKeyLengths` | dify-main/dify-main/api/libs/rsa.py:68-84 | an envelope opens to its text if and only if the AES key it carries has 16, 24 or 32 octets |
| `HybridEnvelope.ShortEnvelopes` | dify-main/dify-main/api/libs/rsa.py:69-80 | an envelope without room for its RSA part fails for its length; AES cannot be set up if and only if the decrypted key has another length than 16, 24 or 32 or no octet of a nonce follows |
| `HybridEnvelope.EnvelopeRoundTrip` | dify-main/dify-main/api/libs/rsa.py:30-84 | an envelope is produced if and only if the text encodes and the modulus has at least 58 octets, and opening it gives the text |
| `HybridEnvelope.AcceptedEnvelope` | dify-main/dify-main/api/libs/rsa.py:68-84 | an accepted envelope is the envelope of what it opens to, under the key, nonce and seed it carries, if and only if its RSA part is below the modulus |
| `HybridEnvelope.LegacyToken` | dify-main/dify-main/api/libs/rsa.py:69-84 | an unprefixed ciphertext opens to its text unless it begins with the prefix; then it is rejected for its length |
| `LockTiming.StepPreservesInv` | dify-main/dify-main/api/libs/db_migration_lock.py:83-193 | every step of any client, of Redis or of a late command keeps the timed invariant (distinct tokens, every holder's lease reaching past its next renewals) |
| `LockTiming.MutualExclusion` | dify-main/dify-main/api/libs/db_migration_lock.py:83-193 | in every run of any number of clients under the timing condition, the key of every holder is live and its own from the grant until release, so at most one client holds the lock |
| `LockTiming.LateCalls` | dify-main/dify-main/api/libs/db_migration_lock.py:83-193 | a call left behind by giving up, by a failed renewal or by a release may still reach Redis, at any later time |
| `LockTiming.TimeMayPass` | dify-main/dify-main/api/libs/db_migration_lock.py:130-152 | only calls on their way and heartbeats that are due bound how long time may go by |
| `LockTiming.HandOver` | dify-main/dify-main/api/libs/db_migration_lock.py:83-193 | from any state with a holder whose key is live, a release frees the key and another client acquires it, without time going by |
| `LockTiming.UntimelyBreaks` | dify-main/dify-main/api/libs/db_migration_lock.py:130-152 | when the timing condition fails, a run with two holders exists; it is built step by step |
| `LockTiming.ExclusiveIffTimely` | dify-main/dify-main/api/libs/db_migration_lock.py:83-193 | the lock excludes in all runs if and only if interval + 2 latencies + the time lost to failed renewals is below the lifetime: the bound is exact |
| `LockTiming.TimelyClosedForm` | dify-main/dify-main/api/libs/db_migration_lock.py:130-152 | the condition in closed form for m tolerated failures: (m+1) intervals + (m+2) latencies below the lifetime |
| `LockTiming.DefaultTimely` | dify-main/dify-main/api/libs/db_migration_lock.py:66-70 | for the default interval and single failures, the condition is 9 latencies below the time to live, up to three times the rounding to whole milliseconds; below 0.3 s it is 3 latencies and 0.2 s |
| `MigrationLock.DbMigrationAutoRenewLock.Acquire` | dify-main/dify-main/api/libs/db_migration_lock.py:83-104 | refuses when already acquired; otherwise the key and the answer are those of the tries, one or as many as a blocking call makes, with other clients in between; a lock object is reused; acquired, stop event, thread and lock stay consistent, also after a Redis failure |
| `MigrationLock.RedisKey.Run` | dify-main/dify-main/api/libs/db_migration_lock.py:100-176 | the three commands: set if there is no live key, extend and delete only a live key under the given token |
| `MigrationLock.RedisKey.TryToSet` | dify-main/dify-main/api/libs/db_migration_lock.py:100 | the loop of tries has the effect and the answer of the function that TryAllMeans and TryAllExactly are about |
| `MigrationLock.TryAllMeans` | dify-main/dify-main/api/libs/db_migration_lock.py:100 | an acquire that succeeds leaves the key under its own token with the lifetime counted from one of its tries, and without lost replies there is an answer |
| `MigrationLock.TryAllExactly` | dify-main/dify-main/api/libs/db_migration_lock.py:100 | an acquire is decided by its first try that is not refused: one that gets through takes the key and answers yes, one that fails raises, perhaps with the key taken; if all are refused the answer is no and the key is what the others made of it |
| `MigrationLock.FreeKeyIsGranted` | dify-main/dify-main/api/libs/db_migration_lock.py:83-113 | whoever comes next to a free key has it |
| `MigrationLock.DbMigrationAutoRenewLock.StartHeartbeat` | dify-main/dify-main/api/libs/db_migration_lock.py:115-128 | nothing happens without a lock or with a heartbeat already there; otherwise the new heartbeat has the current lock and a fresh, unset stop event |
| `MigrationLock.DbMigrationAutoRenewLock.StopHeartbeat` | dify-main/dify-main/api/libs/db_migration_lock.py:195-213 | the event is set before it is forgotten; without one nothing changes |
| `MigrationLock.DbMigrationAutoRenewLock.ReleaseSafely` | dify-main/dify-main/api/libs/db_migration_lock.py:154-193 | a release that reaches Redis frees the key if it is live under this lock's own token, also when the reply is lost, and leaves an expired key or another's as it was; no heartbeat of the wrapper may renew any more, and the wrapper is free again |
| `MigrationLock.HeartbeatLoop` | dify-main/dify-main/api/libs/db_migration_lock.py:130-152 | the loop reads its stop event and the lock's token on every wakeup, while others run commands, set the event or withdraw the token; it renews only while the event is unset, ends when it is set or on learning that the key is lost, and goes on after errors |
| `MigrationLock.StaleHeartbeatIsHarmless` | dify-main/dify-main/api/libs/db_migration_lock.py:130-152 | whatever others do meanwhile, a heartbeat whose token does not hold the key leaves the key exactly as if it were not there |
| `MigrationLock.StoppedHeartbeatIsSilent` | dify-main/dify-main/api/libs/db_migration_lock.py:131 | so does a heartbeat whose stop event is set |
| `MigrationLock.HeartbeatKeepsToken` | dify-main/dify-main/api/libs/db_migration_lock.py:130-152 | no heartbeat touches the token of its lock, which only a release withdraws |
| `MigrationLock.HeartbeatEndsExactly` | dify-main/dify-main/api/libs/db_migration_lock.py:130-152 | the loop goes on, whatever fails, if and only if its event has not been set and no reply has told it that the key is lost |
| `MigrationLock.HeartbeatKeepsHolder` | dify-main/dify-main/api/libs/db_migration_lock.py:130-152 | whatever others do in between, short of deleting the key under the heartbeat's own token, a heartbeat never frees a key or changes its holder, and the lease only grows longer, unless some wakeup comes after the lease that the one before it left has lapsed, and others have been there |
| `MigrationLock.TimelyHeartbeatHolds` | dify-main/dify-main/api/libs/db_migration_lock.py:130-152 | a heartbeat whose renewals arrive, each while the lease before it is live, holds the key against all of them; the lease then lasts from the last renewal for the lifetime |
| `LoadBalancer.SlotIsRoundRobin` | dify-main/dify-main/api/core/model_manager.py:610-617 | for every counter value the index arithmetic, index -1 included, is (v-1) mod n, and the guard against an index beyond the list never fires |
| `LoadBalancer.ScanSound` | dify-main/dify-main/api/core/model_manager.py:602-662 | however other callers move the counter, a search of n draws ends, on a usable configuration or on none; with none usable it returns none, with all usable it finds one |
| `LoadBalancer.ExhaustionIsExact` | dify-main/dify-main/api/core/model_manager.py:602-643 | run alone, "none left" is returned exactly when no configuration is usable, if and only if the counter does not wrap within n draws, wraps at once, or wraps where a round ends |
| `LoadBalancer.WrapMissesUsable` | dify-main/dify-main/api/core/model_manager.py:603-609 | such a search: with two configurations and the counter at 9,999,998 both draws fall on the first one |
| `LoadBalancer.Fairness` | dify-main/dify-main/api/core/model_manager.py:603-617 | however callers interleave, over m successive counter values below the wrap every slot is drawn floor(m/n) or ceiling(m/n) times |
| `LoadBalancer.PicksClosedForm` | dify-main/dify-main/api/core/model_manager.py:603-617 | the exact number of draws a slot gets, as a difference of two quotients |
| `LoadBalancer.LBModelManager.constructor` | dify-main/dify-main/api/core/model_manager.py:579-587 | removing from the shared list while iterating over a copy leaves in it, in order, what one filtering pass keeps, and the entries it refers to, whoever else holds them, get the managed credentials; no other entry changes |
| `LoadBalancer.PreparedTwice` | dify-main/dify-main/api/core/model_manager.py:579-587 | the list is shared: an inherited entry that one manager drops is gone for every later one, and later credentials replace earlier ones |
| `LoadBalancer.PreparedHasCredentials` | dify-main/dify-main/api/core/model_manager.py:581-587 | no inherited entry is left without managed credentials, and no other entry is lost |
| `LoadBalancer.RemoveFirstAfter` | dify-main/dify-main/api/core/model_manager.py:585 | removal by equality hits the entry of the current round, not an earlier one |
| `LoadBalancer.LBModelManager.FetchNext` | dify-main/dify-main/api/core/model_manager.py:589-662 | the loop over the shared counter, with the reset as a step of its own, is the search that ScanSound and ExhaustionIsExact are about; an empty list divides by zero |
| `LoadBalancer.PickedIsAllowed` | dify-main/dify-main/api/core/model_manager.py:619-643 | a picked configuration does not cool down and has no credential id, an empty one, or one that the policy accepts in that round |
| `LoadBalancer.NothingPickedExactly` | dify-main/dify-main/api/core/model_manager.py:602-643 | alone and away from the wrap, a search finds nothing if and only if every configuration cools down or has a credential id that the policy refuses in that round |
| `LoadBalancer.LBModelManager.Cooldown` | dify-main/dify-main/api/core/model_manager.py:664-675 | one identifier cools down until now plus the given seconds; nothing else changes |
| `LoadBalancer.CalledOnlyIfAllowed` | dify-main/dify-main/api/core/model_manager.py:431-450 | the provider is called for a configuration if and only if the policy, which let it through at the search, accepts it when asked again |
| `LoadBalancer.CooldownsLeft` | dify-main/dify-main/api/core/model_manager.py:445-461 | an attempt leaves a cooldown of sixty seconds after a rate limit or a refusal by policy, of ten after an authorization or connection error, and none after an answer or any other error |
| `LoadBalancer.CooledExactly` | dify-main/dify-main/api/core/model_manager.py:664-688 | what cools down after some attempts, at any time, is what did so from the start and what they tried, each for its own time: no attempt cuts a cooldown short |
| `LoadBalancer.NeverTriedWhileCooling` | dify-main/dify-main/api/core/model_manager.py:419-463 | no configuration is tried while it cools down, be it from the start or from an earlier attempt of the same invocation |
| `LoadBalancer.AttemptsAreBounded` | dify-main/dify-main/api/core/model_manager.py:453-461 | every ten seconds allow at most one attempt more on each configuration available by the end, since the shortest cooldown lasts ten |
| `LoadBalancer.BriefTriesOnce` | dify-main/dify-main/api/core/model_manager.py:419-463 | within ten seconds no configuration is tried twice, and there are at most as many attempts as configurations available |
| `LoadBalancer.PassesTakeTime` | dify-main/dify-main/api/core/model_manager.py:423-463 | a loop over n configurations that is still running after more than n*d passes has taken 10*d seconds: with quick calls it ends |
| `LoadBalancer.SlowCallsNeverEnd` | dify-main/dify-main/api/core/model_manager.py:423-461 | when n providers are all found unreachable after the same delay, and n-1 such calls take the ten seconds of the cooldown, the loop is still running after every number of passes below the counter's wrap |
| `LoadBalancer.UnreachableEndsExactly` | dify-main/dify-main/api/core/model_manager.py:423-461 | that is the exact condition: it gives up after one pass over the n configurations if and only if n-1 such calls take less than ten seconds |
| `LoadBalancer.ModelInstance.RoundRobinInvoke` | dify-main/dify-main/api/core/model_manager.py:419-463 | with the clock moving from round to round: every attempt is on what the search of its round found at its time, all but the last are retried, and it gives up exactly with a search that finds nothing under the cooldowns then; it ends with the value or error of the last attempt, else the most recent remembered error, else "not initialized", and leaves the cooldowns of its attempts, each from the end of its round; watched for any number of rounds, it may still be running |
| `LoadBalancer.OutcomeMeans` | dify-main/dify-main/api/core/model_manager.py:424-463 | an invocation ends with the answer or the error of its last attempt; given up, all attempts were rate limited, unreachable or refused, and the outcome is the latest error among them, or "not initialized" if there was none |
| `LoadBalancer.ModelInstance.Round` | dify-main/dify-main/api/core/model_manager.py:423-463 | one pass of the loop either ends it that way or adds one retried attempt, its cooldown and its error |
| `LoadBalancer.GivesUpExactly` | dify-main/dify-main/api/core/model_manager.py:424-429 | alone and away from the wrap, the loop gives up after some attempts if and only if every configuration then cools down, from the start or from an attempt, or is refused by policy in that round |
| `LoadBalancer.GivingUpLeavesNothing` | dify-main/dify-main/api/core/model_manager.py:424-429 | with draws enough left before the wrap for the time it took, an invocation that is given up has left no configuration out that it could have tried |
| `LoadBalancer.AllUsableIsTried` | dify-main/dify-main/api/core/model_manager.py:424-429 | however others move the counter, an invocation with every configuration usable makes an attempt, and none gives up while all are usable |
| `LoadBalancer.OneSeriesOnly` | dify-main/dify-main/api/core/model_manager.py:419-463 | what the contract of the loop says determines the attempts, the outcome and the cooldowns |
| `RateLimiter.RateLimiter.IsRateLimited` | dify-main/dify-main/api/libs/helper.py:468-478 | the pruned, expiring set answers as the complete history of attempts would; it loses exactly the members that are too old |
| `RateLimiter.RateLimiter.IncrementRateLimit` | dify-main/dify-main/api/libs/helper.py:480-486 | keeps the set faithful to the history although its key expires, after two windows from now; with a window of zero or less the key is deleted |
| `RateLimiter.PruneIsFaithful` | dify-main/dify-main/api/libs/helper.py:473 | pruning at one time loses nothing that any later answer needs |
| `RateLimiter.IncrementIsFaithful` | dify-main/dify-main/api/libs/helper.py:485-486 | nothing an expired key held was still in the window |
| `RateLimiter.OneAddressChanges` | dify-main/dify-main/api/libs/helper.py:465-486 | calls for one address do not disturb another |
| `RateLimiter.KeysApart` | dify-main/dify-main/api/libs/helper.py:465-466 | neither addresses nor limiters share a key, for prefixes without a colon |
| `RateLimiter.LimitedExactly` | dify-main/dify-main/api/libs/helper.py:476-478 | an address is limited if and only if it has max attempts in the window, or one where max is zero or less |
| `RateLimiter.DistinctMembersCountAttempts` | dify-main/dify-main/api/libs/helper.py:445-447 | with distinct members the set's size in the window is the number of attempts in it |
| `RateLimiter.GuardedRunIsBounded` | dify-main/dify-main/api/libs/helper.py:468-486 | if every attempt was preceded by a check that saw fewer than max, any window of the run holds at most max |
| `RateLimiter.LimiterBoundsEveryWindow` | dify-main/dify-main/api/libs/helper.py:468-486 | every run that attempts only when not limited has at most max attempts recorded in every window of the configured number of whole seconds, the seconds that int(time.time()) gives them |
| `RateLimiter.InterleavedIsBounded` | dify-main/dify-main/api/libs/helper.py:468-486 | with c callers whose checks and attempts interleave in any way, a window holds at most max + c - 1 attempts |
| `RateLimiter.InterleavedBoundIsMet` | dify-main/dify-main/api/libs/helper.py:468-486 | that bound is met: a run with exactly max + c - 1 attempts in a window, for every max and c |
| `RateLimiter.LimiterBoundsInterleavedCallers` | dify-main/dify-main/api/libs/helper.py:468-486 | with c callers that interleave, max + c - 1 in the same sense, in terms of the limiter's own answers over the history |
| `RateLimiter.LimiterBoundsEveryInterval` | dify-main/dify-main/api/libs/helper.py:468-486 | on the clock itself, an interval of the configured length holds at most twice max attempts of such a run, and one a second shorter at most max |
| `RateLimiter.LimiterBoundsInterleavedIntervals` | dify-main/dify-main/api/libs/helper.py:468-486 | on the clock, for c callers that interleave: at most 2*(max + c - 1), and max + c - 1 in an interval a second shorter |
| `RateLimiter.IntervalBoundIsMet` | dify-main/dify-main/api/libs/helper.py:470 | both are exact: for every max, window and c, and every length beyond the window less a second, there is a run with 2*(max + c - 1) attempts in an interval of that length; with one caller it is an ordinary run with twice max |
| `TokenManager.TokenManager.GenerateToken` | dify-main/dify-main/api/libs/helper.py:359-395 | the whole new store in every case, each error included; keeps the invariant that a live token of an account is the one its account entry names, and that the store answers as the history does |
| `TokenManager.SecondsAreMinutes` | dify-main/dify-main/api/libs/helper.py:389 | a lifetime is sixty seconds a minute, cut to whole seconds, and invalid if and only if that is less than one |
| `TokenManager.DataMeans` | dify-main/dify-main/api/libs/helper.py:369-383 | a token carries the account's own id and email, or the given email without an account, and its type; additional data overrides all three |
| `TokenManager.AccountEntries` | dify-main/dify-main/api/libs/helper.py:373-393 | a generation changes no account entry but that of its account, and none if the account id is empty |
| `TokenManager.TokenManager.RevokeCurrent` | dify-main/dify-main/api/libs/helper.py:373-378 | the account is left without its current token |
| `TokenManager.TokenManager.RevokeToken` | dify-main/dify-main/api/libs/helper.py:401-404 | removes that token and nothing else, keeping both invariants |
| `TokenManager.TokenManager.GetTokenData` | dify-main/dify-main/api/libs/helper.py:406-414 | while token ids do not repeat, the answer is what the history of generations and revocations grants |
| `TokenManager.GrantedMeans` | dify-main/dify-main/api/libs/helper.py:359-414 | what the history grants: a token is good for the data of the generation that made it if and only if that has not expired and nothing since has revoked the token or replaced it for the account |
| `TokenManager.ClearRemembers` | dify-main/dify-main/api/libs/helper.py:373-378 | revoking through the account entry ends exactly the tokens that the history says are replaced |
| `TokenManager.WriteRemembers` | dify-main/dify-main/api/libs/helper.py:390-393 | after the writes the store answers as the longer history does |
| `TokenManager.KeyStringInjective` | dify-main/dify-main/api/libs/helper.py:397-432 | token and account entries never share a Redis key, whatever tokens and account ids contain, for token types without a colon |
| `TokenManager.RevokingClears` | dify-main/dify-main/api/libs/helper.py:373-378 | after the revocation the account has no live token of that type |
| `TokenManager.WritingKeeps` | dify-main/dify-main/api/libs/helper.py:390-393 | writing the token and then the account entry keeps that entry at least as long-lived as the token |
| `TokenManager.AtMostOneLive` | dify-main/dify-main/api/libs/helper.py:358-432 | under the invariant an account has at most one live token of a type, the one its account entry names |
| `TokenManager.RaceInvariant` | dify-main/dify-main/api/libs/helper.py:373-393 | what any number of interleaved generations can see of each other, after every timed schedule of their Redis commands, with entries expiring meanwhile |
| `TokenManager.RaceOutcome` | dify-main/dify-main/api/libs/helper.py:373-393 | when any number of interleaved generations are through, the token of each is live until it expires if and only if none of them began while that one was the last to have finished; the token from before is gone |
| `TokenManager.AlternatingLeavesAll` | dify-main/dify-main/api/libs/helper.py:373-393 | calls that run their commands in turn leave a live token each |
| `TokenManager.OneByOneLeavesLast` | dify-main/dify-main/api/libs/helper.py:373-393 | calls that run one after another leave the token of the last one only |
| `LikePattern.EscapeIsOnePass` | dify-main/dify-main/api/libs/helper.py:61-64 | the three chained replacements are one character-wise pass |
| `LikePattern.EscapedMatchesPrefix` | dify-main/dify-main/api/libs/helper.py:61-64 | an escaped text inside a larger pattern consumes exactly that text |
| `LikePattern.EscapedMatchesExactly` | dify-main/dify-main/api/libs/helper.py:61-64 | under LIKE with ESCAPE the escaped pattern matches s if and only if s is the text |
| `LikePattern.EscapedMatchesSubstring` | dify-main/dify-main/api/libs/helper.py:61-64 | between two percent signs it matches s if and only if the text occurs in s |
| `LikePattern.UnescapedIsSafeExactly` | dify-main/dify-main/api/libs/helper.py:61-64 | without escaping, a text matches itself and nothing else if and only if it has no percent sign, underscore or backslash |
| `Indexing.Distribute` | dify-main/dify-main/api/core/indexing_runner.py:604-608 | the bucket loop puts the documents of each hash, in order, into one list each |
| `Indexing.BucketsPartition` | dify-main/dify-main/api/core/indexing_runner.py:604-625 | the ten buckets together are the documents as a multiset, and the tokens summed per bucket are those of all documents |
| `Indexing.DocumentRow.ProcessChunk` | dify-main/dify-main/api/core/indexing_runner.py:671-715 | marks exactly the segments of the bucket that are being indexed; stopped or failed it changes nothing |
| `Indexing.DocumentRow.SubmitChunks` | dify-main/dify-main/api/core/indexing_runner.py:609-622 | every non-empty bucket is worked on, also after another has failed |
| `Indexing.DocumentRow.Load` | dify-main/dify-main/api/core/indexing_runner.py:561-644 | futures collected in order, the first failure decides; otherwise "completed" with the token total |
| `Indexing.DocumentRow.LoadSegments` | dify-main/dify-main/api/core/indexing_runner.py:789-820 | segments added, document switched, all segments switched, with every point of failure between |
| `Indexing.DocumentRow.Run` | dify-main/dify-main/api/core/indexing_runner.py:64-122 | the whole run, each exception ending in the error status or a pause |
| `Indexing.DocumentRow.RunInSplittingStatus` | dify-main/dify-main/api/core/indexing_runner.py:124-192 | old segments are deleted first |
| `Indexing.DocumentRow.RunInIndexingStatus` | dify-main/dify-main/api/core/indexing_runner.py:194-262 | only unfinished segments are given to the load |
| `Indexing.UnfinishedExactly` | dify-main/dify-main/api/core/indexing_runner.py:217-224 | the documents given to the load are those of the segments not completed, each in its place with its own node id and text |
| `Indexing.ResumeFinishes` | dify-main/dify-main/api/core/indexing_runner.py:194-262 | a completed resume without waiting segments has finished every segment with its text as it was, and recorded the tokens of the texts that were left |
| `Indexing.RunEndsExactly` | dify-main/dify-main/api/core/indexing_runner.py:64-122 | a run completes if and only if everything goes through; otherwise the first obstacle, in the order of the steps and of the buckets, decides whether it ends paused where it was or in an error; a paused document is left alone |
| `Indexing.ResumeEndsExactly` | dify-main/dify-main/api/tasks/recover_document_indexing_task.py:33-40 | so does a resume from every status; it starts over what was being split and goes on with what was being indexed |
| `Indexing.RetryEndsExactly` | dify-main/dify-main/api/tasks/retry_document_indexing_task.py:76-104 | the retry task completes the document if and only if the cleaning and the whole run go through and it is not paused; otherwise it leaves it in an error |
| `Indexing.RunLeavesPieces` | dify-main/dify-main/api/core/indexing_runner.py:64-122 | a completed run over a document without segments has made one completed segment of each piece, in order, with the text of the piece, and recorded the tokens of them all |
| `Indexing.FailedAddLeaves` | dify-main/dify-main/api/core/indexing_runner.py:789-798 | a run that fails while it adds the segments leaves exactly those added so far, waiting |
| `Indexing.ResumeStartsOver` | dify-main/dify-main/api/core/indexing_runner.py:124-192 | a completed resume of a document that was being split is such a run, whatever segments it had |
| `Indexing.AddOneReplaces` | dify-main/dify-main/api/core/rag/docstore/dataset_docstore.py:96-150 | a known node id is given the new text in its place and keeps its status |
| `Indexing.SegmentAfter` | dify-main/dify-main/api/core/indexing_runner.py:700-711 | a segment's status after the buckets depends on membership and on its status before, and on nothing else |
| `Indexing.LoadCompletesAll` | dify-main/dify-main/api/core/indexing_runner.py:561-644 | a load that ends in "completed" has completed all segments if and only if each was completed before, or was being indexed and among the given documents; the recorded tokens are the documents' total |
| `Indexing.RunCompletesUnlessOldSegments` | dify-main/dify-main/api/core/indexing_runner.py:64-122 | a completed run has completed everything if and only if no old segment was outside the new documents |
| `Indexing.ResumeIsCompleteUnlessTorn` | dify-main/dify-main/api/core/indexing_runner.py:194-262 | a completed resume has completed everything if and only if no segment still waited |
| `Indexing.OpKeepsInv` | dify-main/dify-main/api/core/indexing_runner.py:64-262 | the first run, a pause, asking for a resume, the resume task in whatever status it finds, asking for a retry from any status but completed, and the retry task with each of its failures keep the document invariant, in orderly runs |
| `Indexing.CompletedMeansComplete` | dify-main/dify-main/api/core/indexing_runner.py:64-262 | over every sequence of these, when the document is marked completed all its segments are completed, if no other task runs before the first run and no resume task finds the document waiting while a retry task is queued |
| `Indexing.RunIsSafeIffNoSegments` | dify-main/dify-main/api/core/indexing_runner.py:64-122 | a whole run can mark an incomplete document completed if and only if the document has segments when the run starts; one new piece with a node id of its own is enough |
| `Indexing.ResumeIsSafeExactly` | dify-main/dify-main/api/tasks/recover_document_indexing_task.py:33-40 | the resume task can mark an incomplete document completed if and only if it finds it unpaused and fresh with segments, or unpaused and indexing with a segment that waits, or so marked already |
| `Indexing.ResumeBeforeRetryMisses` | dify-main/dify-main/api/tasks/retry_document_indexing_task.py:76-104 | out of order it happens: a failed first run, a retry asked for, a pause and a resume before the retry task leave a completed document with an unfinished segment |
| `Indexing.RetryBeforeResumeMisses` | dify-main/dify-main/api/services/dataset_service.py:1771-1805 | and when nobody resumes it after the retry was asked: the resume was asked before, and its task finds the document waiting |
| `Indexing.ResumeBeforeStartMisses` | dify-main/dify-main/api/tasks/document_indexing_task.py:92-108 | and when a resume task overtakes the first run |
| `UuidV7.CreateUuidV7Bytes` | dify-main/dify-main/api/libs/uuid_utils.py:51-74 | the slices and masks written in place give the field layout of section 5.7 of RFC 9562; timestamps outside 64 unsigned bits are refused |
| `UuidV7.PackableFitsEightOctets` | dify-main/dify-main/api/libs/uuid_utils.py:55 | a timestamp is refused if and only if eight octets do not hold it |
| `UuidV7.WriteSlice` | dify-main/dify-main/api/libs/uuid_utils.py:55-69 | assigning an equally long slice of a byte array changes that slice alone |
| `UuidV7.MaskRandA` | dify-main/dify-main/api/libs/uuid_utils.py:62-64 | the two masks keep 12 bits and put version 7 above them |
| `UuidV7.MaskVariant` | dify-main/dify-main/api/libs/uuid_utils.py:72 | the two masks keep 6 bits and put variant 10 above them |
| `UuidV7.TimestampReadsBack` | dify-main/dify-main/api/libs/uuid_utils.py:115-150 | every created UUID has version 7 and variant 10, and its timestamp reads back modulo 2^48 |
| `UuidV7.ReadExactly` | dify-main/dify-main/api/libs/uuid_utils.py:115-150 | a timestamp is read, from the first six octets, if and only if the version is 7 and the variant the standard one |
| `UuidV7.RandomBitsReadBack` | dify-main/dify-main/api/libs/uuid_utils.py:62-72 | the 74 random bits are kept, each at its place |
| `UuidV7.EveryVersion7IsMade` | dify-main/dify-main/api/libs/uuid_utils.py:51-150 | and every UUID of version 7 is made of its timestamp and these bits |
| `UuidV7.TimeOrdered` | dify-main/dify-main/api/libs/uuid_utils.py:51-74 | one timestamp gives smaller UUIDs than another, whatever the random octets, if and only if it is smaller modulo 2^48 |
| `UuidV7.BoundaryIsLeast` | dify-main/dify-main/api/libs/uuid_utils.py:153-164 | the boundary is the least UUID of its timestamp and above every UUID of an earlier one below 2^48 |
| `SignContent.SpliceAll` | dify-main/dify-main/api/models/dataset.py:871-877 | the running-offset loop, Python slice clamping included, computes the fold that the other lemmas are about |
| `SignContent.SlicesJoin` | dify-main/dify-main/api/models/dataset.py:874 | the two slices at any index, counted from the end below zero, make up the text |
| `SignContent.AscendingIsRight` | dify-main/dify-main/api/models/dataset.py:871-877 | on disjoint spans from left to right the loop gives gaps and replacements in turn, for replacements of any length |
| `SignContent.BalancedIsRight` | dify-main/dify-main/api/models/dataset.py:871-877 | for disjoint spans in any order and replacements of any length, longer or shorter, the loop is right whenever the growths of the spans already spliced to the right of the next one cancel out |
| `SignContent.RightExactlyWhenBalanced` | dify-main/dify-main/api/models/dataset.py:871-877 | on any one text, for non-empty replacements that drive no start index below zero, it is right for all replacements of the given sizes if and only if they cancel out |
| `SignContent.WrappingCanBeRight` | dify-main/dify-main/api/models/dataset.py:874 | below zero Python counts from the end, and there an unbalanced list can come out right |
| `SignContent.RightExactlyInOrder` | dify-main/dify-main/api/models/dataset.py:871-877 | on any one text, for replacements that never shrink a link: right for all of them if and only if no link that grows is listed before one to its left |
| `SignContent.RightExactlyWhenPassesFollow` | dify-main/dify-main/api/models/dataset.py:818-877 | over the three passes and any one text, when every replacement is longer: right for all of them if and only if all links of each pass lie to the left of those of the later passes |
| `SignContent.ToolBeforeImageIsSpoilt` | dify-main/dify-main/api/models/dataset.py:819-877 | a text that the code receives, a tool link before an image preview, is spoilt by every signature of 18 characters or more |
| `SignContent.UnbalancedShows` | dify-main/dify-main/api/models/dataset.py:871-877 | an unbalanced list has, on every text, a place where two replacements should differ and the loop's output does not |
| `JsonMarkdown.ParseJsonMarkdown` | dify-main/dify-main/api/libs/json_in_md_parser.py:6-33 | the parser hands the extracted block to json.loads, passes its error on, and raises when there is no block |
| `JsonMarkdown.SearchStart` | dify-main/dify-main/api/libs/json_in_md_parser.py:14-19 | the first search loop |
| `JsonMarkdown.SearchEnd` | dify-main/dify-main/api/libs/json_in_md_parser.py:20-26 | the second search loop |
| `JsonMarkdown.FirstFence` | dify-main/dify-main/api/libs/json_in_md_parser.py:14-19 | an opening fence overlaps no other, so the first one found is the given one if and only if none precedes it |
| `JsonMarkdown.LastClose` | dify-main/dify-main/api/libs/json_in_md_parser.py:21-22 | the last closing fence is the given one if and only if no backtick follows it directly and no fence later |
| `JsonMarkdown.FencedJsonIsRecovered` | dify-main/dify-main/api/libs/json_in_md_parser.py:6-33 | a trimmed body in a json fence, between any prefix and suffix, is recovered verbatim if and only if the prefix has no json fence, the suffix does not begin with a backtick and has no fence; its own backticks never matter |
| `JsonMarkdown.TickedJsonIsRecovered` | dify-main/dify-main/api/libs/json_in_md_parser.py:6-33 | in a text without a longer fence, a trimmed body between two runs of one, two or three backticks is recovered verbatim if and only if neither side has another such run or adds a backtick to the fence |
| `JsonMarkdown.TouchingFencesHoldNothing` | dify-main/dify-main/api/libs/json_in_md_parser.py:27-31 | a fence closed at once holds no block, not even an empty one |
| `JsonMarkdown.SpacesAre` | dify-main/dify-main/api/libs/json_in_md_parser.py:8 | what strip takes off: the characters that Python calls spaces |
| `JsonMarkdown.BareJson` | dify-main/dify-main/api/libs/json_in_md_parser.py:6-33 | in a text without backticks the block runs from the first opening brace (else bracket) to the last closing brace after it (else bracket), and is missing if and only if there are none |
| `JsonMarkdown.BareArray` | dify-main/dify-main/api/libs/json_in_md_parser.py:6-33 | a bare JSON array is recovered whole if and only if it contains no brace |
| `ContextVar.ThreadRecycles.IncrementThreadRecycles` | dify-main/dify-main/api/contexts/wrapper.py:25-30 | adds an increment to the history, the first one setting zero; every variable that shares the counter stays what the history makes of it |
| `ContextVar.RecyclableContextVar.Get` | dify-main/dify-main/api/contexts/wrapper.py:36-50 | answers the value that the history makes live, else the default or LookupError; other variables stay as they are |
| `ContextVar.GetCatchesUp` | dify-main/dify-main/api/contexts/wrapper.py:38-41 | a read never leaves the companion behind the counter, and touches no value |
| `ContextVar.RecyclableContextVar.Set` | dify-main/dify-main/api/contexts/wrapper.py:52-65 | adds the value to the history and keeps the fields what the history makes of them |
| `ContextVar.UpdatesTrackGenerations` | dify-main/dify-main/api/contexts/wrapper.py:24-65 | in every run, for every variable sharing the counter: updates is at most one ahead of it, and ahead exactly while a value is live, which is the stored one |
| `ContextVar.ReadsThisGeneration` | dify-main/dify-main/api/contexts/wrapper.py:36-65 | in every run that begins with an increment, get answers the last value set since the latest increment, else the default |
| `ContextVar.LeaksExactlyAcrossFirstIncrement` | dify-main/dify-main/api/contexts/wrapper.py:24-50 | in any run a value of an earlier generation is read if and only if the only increment so far came after it |
| `ContextVar.OthersKeep` | dify-main/dify-main/api/contexts/wrapper.py:24-65 | increments and events of other variables leave a variable's fields alone |

## Left out

- SHA-1, MGF1, AES-EAX and UTF-8 are abstract, known by lengths and inverses only; keys with more than two primes, and the inside of the big-number libraries, are not modelled. Cryptographic strength is not a subject.
- Key generation, the private key cache and storage, and the legacy capability checks of the cipher.
- LockTiming.MutualExclusion: thread start-up and scheduling delay count as part of a call's latency, and a restart of Redis that loses the key is not a step.
- The ownership query of the lock wrapper, and the bounded join when a heartbeat is stopped; a heartbeat left alive by that join is covered as a late command. How the arguments of a blocking acquire settle the number and times of its tries is not modelled; the tries are.
- LoadBalancer.ModelInstance.RoundRobinInvoke: a round has one time for its search and one for its end; cooldowns that other callers set while it runs are not modelled. The loop is watched for a number of rounds, since it need not end.
- LoadBalancer.LBModelManager.FetchNext: the counter's own expiry is one of the things other callers do to it.
- The choice of configurations by the provider manager: database assembly.
- RateLimiter.LimiterBoundsEveryWindow: about one caller at a time, and about whole seconds; callers that check at the same time are RateLimiter.LimiterBoundsInterleavedCallers, and the clock itself is RateLimiter.LimiterBoundsEveryInterval.
- TokenManager.TokenManager.GenerateToken: the call is one step; what interleaved calls do is TokenManager.RaceOutcome. That the store answers as the history does asks that token ids do not repeat, which random ids promise only with overwhelming probability.
- Collations of LIKE: characters are compared one by one.
- The economy technique of indexing, child chunks, keyword indexes, summaries and attachments; parent-child documents behave as their parents.
- Indexing.CompletedMeansComplete: one worker handles a document at a time; of what the services do, only a pause takes effect while a task runs, the rest between tasks; a process that dies between two commits is not a step (Indexing.ResumeIsCompleteUnlessTorn says what it would cost).
- Extraction and transformation of documents, and SHA-256 of their contents: arbitrary results.
- The regular expressions that find links, and the signatures put into them; spans and replacements are arbitrary.
- SignContent.RightExactlyWhenBalanced: about replacements that drive no start index below zero, as a tool link with a long query that shrinks could; below zero only the direction of SignContent.BalancedIsRight holds (SignContent.WrappingCanBeRight).
- Links that overlap across passes, such as an image link inside the query of a tool link: what the right text would be is not defined.
- The JSON syntax itself, and the check of expected keys on top of the parser.
- Web routes, mail, storage back ends, logging, serializers, time zones and the rest of the server: wiring over libraries.
