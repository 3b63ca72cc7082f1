# AfroPay-Stellar: verified models of the algorithmic core

A Dafny model of the parts of AfroPay-Stellar that compute or protect something: path
ranking, the compliance range proof, RPC routing, the lease lock, fees and amounts, the
event-stream parser, the FX quote service, the offline queue and the circuit comparator.
`dafny verify dfyconfig.toml` checks everything.

One module per source file, with the mathematics it needs beside it:

| module | models |
|---|---|
| `Walks`, `PathRouting` | Bellman-Ford ranking of payment paths (`path_routing.rs`) |
| `StableSort` | Rust's stable `sort_by`, used by the two rankings and the offline queue |
| `Arithmetic`, `ModularGroup`, `Fermat`, `Transcript`, `ZkpCompliance`, `ZkpSoundness`, `ZkpBinding` | Pedersen commitments and CDS range proofs (`zkp_compliance.py`) |
| `RoundRobin`, `RpcPool` | smooth weighted round robin, endpoint health, failover (`rpc_pool.rs`) |
| `LeaseLock` | the Redis lease lock (`lock_manager.rs`) |
| `FeePrimitives` | fee and conversion arithmetic (`fee-primitives`) |
| `StellarAmount` | `parse_stellar_amount` (`stellar.rs`) |
| `SseParser`, `SseStandard`, `Utf8Chunks` | the incremental event-stream parser, the standard it follows, and its byte chunks (`sse.rs`) |
| `FxRates` | quote cache and circuit breaker (`anchor.service.ts`) |
| `OfflineQueue` | draft store and drain loop (`offlineQueue.ts`, `syncEngine.ts`) |
| `Comparator` | the bit comparator of the arkworks circuit (`zkp-compliance`) |

## How to read it

- Floating-point numbers are exact reals; `-ln` is an arbitrary function; infinity is a
  datatype case. HashMap iteration order is a nondeterministic choice, so every result
  holds for every order.
- The range proof is over any group (p, q, g, h) with q an odd prime and g^q = h^q = 1
  modulo p; extraction is over those with p = 2q + 1 prime, as the source's is. The hash is
  an arbitrary function of the preimage bytes; random draws are parameters. RFC 3526
  section 3 is where the source takes its p from.
- Exceptions and panics are results (`None`, `Err`, `NotAnInteger`, ...), never excluded by
  a precondition.
- Objects that the source updates in place are classes whose methods are specified by
  functions on values; the laws are then proved about those functions, over all runs where
  a protocol is concerned.

## What the code does, where its comments say otherwise

- `rank_paths_bellman_ford` says that it filters suspicious paths. It filters nothing:
  the result is always a permutation of the input (`PathRouting.RankPaths`). It also says
  that the result is sorted from best to worst. The key is the distance of the destination
  asset, so paths with one destination come back in input order, whatever their rates
  (`PathRouting.OneDestinationKeepsOrder`).
- The fee fallback comment says that an overflowing product can only mean a fee far above
  `max_fee`. The fee is the exact one for every amount precisely under
  `FeePrimitives.FallbackSound`. Without it the fee still never falls as the amount grows
  (`FeeMonotone`), but it can jump where the product first overflows: then a larger payment
  leaves the payee less (`NetMonotoneIff`) and splitting off one unit pays
  (`UnitSplitPaysIff`). `SubadditiveIff` says exactly when no split ever pays.
- An expired rate-limit cooldown never re-admits an endpoint: the last check of
  `is_routable` excludes it whatever the clock says (`RpcPool.RoutableIgnoresClock`).
- The circuit's loop is annotated as running from the most to the least significant bit.
  The last index visited dominates, so it compares bit-reversed numbers
  (`Comparator.CompareAsWritten`, `Comparator.AgreesIff`). It decides amount <= limit for
  every amount only when the limit is 0 or 2^n - 1 (`Comparator.DecidesLimitIff`).
- The module comment says that binding and soundness of the range proof reduce to the
  discrete-logarithm problem. They do for an h of unknown exponent
  (`ZkpSoundness.DoubleOpening`, `ZkpSoundness.ComplianceExtraction`), but h is computed as
  g^e from a public e, so the logarithm is the inverse of e (`ZkpBinding.LogIsPublic`).
  Commitments are binding if and only if q divides e (`ZkpBinding.BindingIff`), which is not
  so here (`ZkpBinding.SourceIsNotBinding`), and an accepted proof says nothing about the
  amount committed to (`ZkpBinding.AcceptanceBoundsNothing`). An h from a public setup, as
  the same comment recommends for production, has no known e.
- `-w.f` is parsed as `-w + f`, and a sign inside the fraction is accepted
  (`StellarAmount.NegativeAmounts`, `StellarAmount.SignedFractionAccepted`).
  `StellarAmount.FaithfulIff` says exactly which accepted texts are read as written.
- Health marks go to the first endpoint with an id. A URL that is listed twice gives a copy
  that is never marked and is routed to for ever (`RpcPool.CopiesAreAlwaysRanked`); what
  the pool promises of its rankings holds exactly without repeated ids
  (`RpcPool.AlwaysSoundIff`).
- `_verify_bit` does not check that a commitment lies in the subgroup of order q. The
  extractor then opens it up to sign (`ZkpSoundness.BitExtraction`), and elements outside
  the subgroup are indeed accepted (`ZkpSoundness.NegationIsAccepted`).
- Of the event streams that sections 9.2.5 and 9.2.6 of the WHATWG HTML standard define, the
  parser reads those with LF line ends correctly if and only if every block with data has
  one data line, with a space behind the colon and a value, and its last event line is read
  too (`SseStandard.StreamAgreesIff`). With CR LF
  line ends it never produces an event (`SseParser.CrLfStreamsAreSilent`,
  `SseStandard.CrLfAgreesIff`). A character cut by a chunk boundary is lost
  (`Utf8Chunks.TextArrivesIff`).
- `claimDraft`, `markDraftFailed` and `requeueDraft` never write. They set `onsuccess` on
  their get request and return it to `withStore`, which assigns `onsuccess` again before
  the event fires (offlineQueue.ts:73-74), so the put is lost. No draft ever becomes
  syncing or failed, `attemptCount` stays 0 (`OfflineQueue.StoredDraftsNeverChange`), and a
  draft rejected with a 4xx status is posted again by every later drain
  (`OfflineQueue.EveryStoredDraftIsListed`, `OfflineQueue.RejectedForever`). The module has
  a parameter for this: `AsWritten` is the code, `Intended` the variant in which the
  updates run. A result that names neither holds for both; only
  `OfflineQueue.IntendedAttemptCountIsExact` is about `Intended` alone.
- A draft discarded while a drain has it in its backlog can still be posted
  (`OfflineQueue.RemovalIsFinalIff`, `OfflineQueue.DiscardIsFinalIff`).
- `drainQueue` awaits its first two store calls outside the try, so that an error in one of
  them leaves `isSyncingNow` set and the tab never drains again
  (`OfflineQueue.SetupErrorBlocksDrains`).

## Model

| member | source | states |
|---|---|---|
| `PathRouting.BuildGraph` | services/rust-worker/src/path_routing.rs:370-400 | the built graph holds, per source asset and in insertion order, exactly the direct arcs and the zero-weight hop arcs of the paths |
| `PathRouting.RepresentsArcs` | services/rust-worker/src/path_routing.rs:370-400 | an arc is in the graph if and only if some path contributes it |
| `PathRouting.GraphIsOfPaths` | services/rust-worker/src/path_routing.rs:370-400 | read off the paths: an arc is in the graph if and only if it is the direct arc of a path, at -ln of the rate or of 1e-12 if that is more, or a free arc along its hops |
| `PathRouting.CollectAssets` | services/rust-worker/src/path_routing.rs:416-427 | the asset set is exactly the sources, destinations and hops mentioned |
| `PathRouting.RelaxEdge` | services/rust-worker/src/path_routing.rs:446-453 | relaxing one edge never raises a distance, keeps every distance the weight of a walk, and bounds the target |
| `PathRouting.RelaxVertex` | services/rust-worker/src/path_routing.rs:441-454 | all edges of a vertex are relaxed against its distance read before the loop; reports whether anything changed |
| `PathRouting.RelaxRound` | services/rust-worker/src/path_routing.rs:439-458 | one round in any vertex order relaxes every arc of the graph against the distances before the round |
| `PathRouting.RoundExtendsBound` | services/rust-worker/src/path_routing.rs:439-458 | a round turns a bound for walks of k arcs into one for walks of k+1 arcs |
| `PathRouting.Relax` | services/rust-worker/src/path_routing.rs:429-458 | after at most n-1 rounds with early exit, no walk of up to n-1 arcs beats the distances, and every finite distance is the weight of a walk |
| `Walks.Pigeonhole` | services/rust-worker/src/path_routing.rs:438-439 | more visited vertices than assets means a repetition: why n-1 rounds suffice |
| `Walks.SimpleWalk` | services/rust-worker/src/path_routing.rs:438-439 | without reachable negative cycles every walk has a walk of fewer than n arcs that is no heavier |
| `Walks.SettledAlongWalk` | services/rust-worker/src/path_routing.rs:455-457 | if no arc can be relaxed, distances grow at most by the weight of any walk |
| `Walks.SettledExcludesNegativeCycles` | services/rust-worker/src/path_routing.rs:460-467 | a settled distance map excludes reachable negative cycles, by summing around the cycle |
| `PathRouting.CanRelax` | services/rust-worker/src/path_routing.rs:461-467 | the flag is true if and only if some arc can still be relaxed |
| `PathRouting.RelaxableIffNegativeCycle` | services/rust-worker/src/path_routing.rs:438-467 | some arc is relaxable after the loop if and only if a negative cycle is reachable from the source |
| `PathRouting.DistancesAreShortest` | services/rust-worker/src/path_routing.rs:429-458 | without one, each distance is the minimum weight over all walks, infinite exactly when there is none |
| `Walks.ShortestUnique` | services/rust-worker/src/path_routing.rs:429-458 | the shortest distance of an asset is unique |
| `PathRouting.RankPaths` | services/rust-worker/src/path_routing.rs:409-482 | the whole function: the output is a permutation of the input in every case, nearest destination first, equal distances in input order; the flag means a reachable negative cycle; without one the order is by shortest distance in the graph |
| `PathRouting.SortedByDistance` | services/rust-worker/src/path_routing.rs:473-479 | the sort puts smaller destination distances first and keeps the order of equal ones |
| `PathRouting.RankedByShortest` | services/rust-worker/src/path_routing.rs:429-479 | without a negative cycle the same holds of the least walk weights, whatever the distance map |
| `PathRouting.OneDestinationKeepsOrder` | services/rust-worker/src/path_routing.rs:402-482 | paths that share one destination come back exactly as they were, whatever the distances |
| `PathRouting.RankingIsOrderIndependent` | services/rust-worker/src/path_routing.rs:439-482 | without a negative cycle two runs with different HashMap orders return the same list |
| `StableSort.SortBy` | services/rust-worker/src/path_routing.rs:473-479 | the library sort: sorted by key, equal keys in input order, a permutation |
| `StableSort.StablySortedUnique` | services/rust-worker/src/path_routing.rs:473-479 | these facts determine the result, so the sorting algorithm is immaterial |
| `ModularGroup.ModPowIsExp` | services/python-analytics/app/zkp_compliance.py:173-174 | Python's pow with any integer exponent, inverses included, is exponentiation modulo the group order |
| `ModularGroup.InverseIs` | services/python-analytics/app/zkp_compliance.py:122-122 | a modular inverse, once it exists, is the one pow(b, -1, m) returns |
| `ModularGroup.PrimeInverse` | services/python-analytics/app/zkp_compliance.py:122-122 | every non-zero residue modulo a prime has the computed inverse |
| `Fermat.FermatLittle` | services/python-analytics/app/zkp_compliance.py:46-46 | x^(p-1) = 1 modulo a prime p that does not divide x: every other residue has order dividing 2q |
| `Fermat.RootsUpToSign` | services/python-analytics/app/zkp_compliance.py:46-46 | a square root modulo a prime is unique up to sign |
| `Transcript.IntBytesRoundTrip` | services/python-analytics/app/zkp_compliance.py:91-92 | decoding inverts `_int_bytes`, whose length is minimal |
| `Transcript.BigEndian` | services/python-analytics/app/zkp_compliance.py:86-92 | in both encodings the byte k places from the end is v / 256^k modulo 256 |
| `Transcript.IntBytesInjective` | services/python-analytics/app/zkp_compliance.py:91-92 | `_int_bytes` is injective on naturals |
| `Transcript.FrameInjective` | services/python-analytics/app/zkp_compliance.py:81-88 | the length-prefixed concatenation is uniquely decodable, for any number of parts |
| `Transcript.BitPreimageInjective` | services/python-analytics/app/zkp_compliance.py:178-178 | equal preimages have equal context, bit index, commitment and announcements, across "amount" and "upper" |
| `ZkpCompliance.ChallengesAreIndependent` | services/python-analytics/app/zkp_compliance.py:81-88 | at two different inputs, be it in context, index, commitment or an announcement, some hash gives any two challenges |
| `ZkpCompliance.AcceptedChallenge` | services/python-analytics/app/zkp_compliance.py:189-195 | an accepted bit proof has challenges that add up to the hash of tag, label, index, commitment and both announcements, framing written out |
| `ZkpCompliance.BitLengthBounds` | services/python-analytics/app/zkp_compliance.py:305-305 | 2^(k-1) <= limit < 2^k for the bit length k |
| `ZkpCompliance.DecomposeReconstructs` | services/python-analytics/app/zkp_compliance.py:106-110 | the k bits of a value below 2^k sum back to it |
| `ZkpCompliance.SplitSaltReconstructs` | services/python-analytics/app/zkp_compliance.py:113-125 | shares always exist and their weighted sum is the salt modulo q, for every random draw |
| `ZkpCompliance.PedersenIsRep` | services/python-analytics/app/zkp_compliance.py:95-103 | a commitment depends on amount and salt only modulo q |
| `ZkpCompliance.RepMul` | services/python-analytics/app/zkp_compliance.py:336-337 | commitments multiply by adding amounts and blindings |
| `ZkpCompliance.RepPow` | services/python-analytics/app/zkp_compliance.py:249-251 | raising a commitment to any integer power scales both exponents |
| `ZkpCompliance.AnnouncementsFit` | services/python-analytics/app/zkp_compliance.py:161-186 | real and simulated announcements both have the form their verification equation needs, and the challenges add up to the hash |
| `ZkpCompliance.BitCompleteness` | services/python-analytics/app/zkp_compliance.py:161-203 | the OR proof of either bit is accepted, for every draw and hash |
| `ZkpCompliance.ProveLtPow2` | services/python-analytics/app/zkp_compliance.py:227-237 | the proving loop yields exactly the bitwise proof, or the exception |
| `ZkpCompliance.VerifyLtPow2` | services/python-analytics/app/zkp_compliance.py:240-252 | the verifying loops compute exactly the bitwise verdict and product check |
| `ZkpCompliance.AllBitsVerify` | services/python-analytics/app/zkp_compliance.py:244-247 | the bit loop accepts if and only if every bit proof is accepted |
| `ZkpCompliance.ReconstructOpening` | services/python-analytics/app/zkp_compliance.py:248-252 | the product of the bit commitments opens to the weighted sums of the bit openings |
| `ZkpCompliance.RangeCompleteness` | services/python-analytics/app/zkp_compliance.py:227-252 | an honest range proof of any value below 2^k is accepted |
| `ZkpCompliance.ComplianceCompleteness` | services/python-analytics/app/zkp_compliance.py:290-341 | for every amount up to the limit, salt, draw and hash, the honest proof exists and `verify_compliance` accepts it |
| `ZkpCompliance.AcceptedIsBound` | services/python-analytics/app/zkp_compliance.py:321-341 | an accepted proof names this limit and this commitment, and has as many bits as the limit |
| `ZkpCompliance.AcceptedBitsAreBound` | services/python-analytics/app/zkp_compliance.py:240-247 | every bit of its two ranges is bound to its index and to "amount" or "upper" |
| `ZkpCompliance.ProverRefusal` | services/python-analytics/app/zkp_compliance.py:296-303 | the prover raises exactly on inputs outside 0 <= amount <= limit with positive limit and non-negative salt |
| `ZkpSoundness.SchnorrExtraction` | services/python-analytics/app/zkp_compliance.py:196-202 | two answers to one announcement give the exponent (s-s')(c-c')^-1 |
| `ZkpSoundness.VerifyBitIff` | services/python-analytics/app/zkp_compliance.py:189-203 | a bit proof is accepted if and only if its challenges add up to the hash and both equations hold |
| `ZkpSoundness.SourceGroupIsSound` | services/python-analytics/app/zkp_compliance.py:46-69 | the generators 4 and a power of 4 have order dividing q whenever p = 2q + 1 and q are prime |
| `ZkpSoundness.SquaredEquation` | services/python-analytics/app/zkp_compliance.py:196-202 | squaring an accepted equation gives one in the subgroup of order q |
| `ZkpSoundness.ForkedIsNonZero` | services/python-analytics/app/zkp_compliance.py:189-203 | a commitment that p divides is accepted with zero challenges alone, so it never forks |
| `ZkpSoundness.OpensBySquare` | services/python-analytics/app/zkp_compliance.py:189-203 | a commitment opens up to sign, and exactly if in the subgroup, if and only if its square opens to the doubled values |
| `ZkpSoundness.BitExtraction` | services/python-analytics/app/zkp_compliance.py:189-203 | a fork of an accepted bit proof, for any commitment, opens it as h^r or g h^r with the extracted r: up to sign, and exactly if it lies in the subgroup |
| `ZkpSoundness.ExactIffInSubgroup` | services/python-analytics/app/zkp_compliance.py:189-203 | an opened commitment is exactly its opening, sign included, if and only if its order divides q |
| `ZkpSoundness.NegationIsAccepted` | services/python-analytics/app/zkp_compliance.py:189-203 | for every hash, r and draw the verifier accepts the negation of h^r, which lies outside the subgroup |
| `ZkpSoundness.ExtractionRecoversWitness` | services/python-analytics/app/zkp_compliance.py:161-203 | rewinding the honest prover under two hashes that differ on the one preimage asked gives a fork from which the extractor returns the prover's own bit and blinding modulo q |
| `ZkpSoundness.SmallGroupIsSound` | services/python-analytics/app/zkp_compliance.py:44-63 | the group hypotheses are met by a concrete safe-prime group |
| `ZkpSoundness.ReconstructOpens` | services/python-analytics/app/zkp_compliance.py:248-252 | the product of bit commitments opened up to sign opens up to sign to the weighted sums |
| `ZkpSoundness.RangeExtraction` | services/python-analytics/app/zkp_compliance.py:240-252 | a forked range proof opens any commitment to a value below 2^k: up to sign, and exactly if it lies in the subgroup |
| `ZkpSoundness.LimitArithmetic` | services/python-analytics/app/zkp_compliance.py:311-312 | the borrow-free subtraction: u = v + 2^k - 1 - limit modulo q, both below 2^k and 2^(k+1) <= q, bounds v by the limit |
| `ZkpSoundness.DoubleOpening` | services/python-analytics/app/zkp_compliance.py:29-30 | the reduction claimed: two openings of one commitment with different amounts give the discrete logarithm of g to base h |
| `ZkpSoundness.ComplianceExtraction` | services/python-analytics/app/zkp_compliance.py:321-341 | from a forked accepted proof, for any commitments and any h: the commitment opens to an amount of at most the limit, or the extractor has computed the discrete logarithm of g to base h; the rows below say what that leaves when h is a known power of g |
| `ZkpBinding.LogIsPublic` | services/python-analytics/app/zkp_compliance.py:65-69 | with h = g^e and q not dividing e, that logarithm is the inverse of e |
| `ZkpBinding.OpensToEverything` | services/python-analytics/app/zkp_compliance.py:65-69 | with h = g^e and q not dividing e, every commitment opens to every amount, with the blinding given |
| `ZkpBinding.BindingIff` | services/python-analytics/app/zkp_compliance.py:65-103 | with h = g^e, commitments are binding if and only if q divides e, and if and only if the blinding has no effect |
| `ZkpBinding.AcceptanceBoundsNothing` | services/python-analytics/app/zkp_compliance.py:321-341 | with h = g^e and q not dividing e, for every amount, salt, limit, hash and draw: the verifier accepts the commitment to that amount with an honest proof for any amount within the limit |
| `ZkpBinding.SourceIsNotBinding` | services/python-analytics/app/zkp_compliance.py:62-69 | for g = 4, h = 4^e, p = 2q + 1 and q prime and 0 < e < q: not binding, and 4 is the stated power of h |
| `RoundRobin.StepConserves` | services/rust-worker/src/rpc_pool.rs:271-289 | one selection keeps the sum of the balances |
| `RoundRobin.RunAccount` | services/rust-worker/src/rpc_pool.rs:271-289 | after n calls balance_i = n w_i - W led_i, every balance is above -W and they sum to zero |
| `RoundRobin.FairShare` | services/rust-worker/src/rpc_pool.rs:271-289 | each candidate has led between its exact share minus (count - 1) and its share plus 1, strictly |
| `RoundRobin.ExactPeriod` | services/rust-worker/src/rpc_pool.rs:271-289 | with weights m_i u, after sum m_i calls each has led exactly m_i times and all balances are zero |
| `RpcPool.WeightLaw` | services/rust-worker/src/rpc_pool.rs:428-431 | the effective weight is inversely proportional to latency and positive for positive weights |
| `RpcPool.CandidatesMembers` | services/rust-worker/src/rpc_pool.rs:250-262 | the candidates are exactly the routable endpoints of the kind, each once, in vector order |
| `RpcPool.CandidateIff` | services/rust-worker/src/rpc_pool.rs:250-262 | read off the vector: an endpoint is a candidate if and only if its kind matches, it is Healthy or Degraded, and no known height of the kind is more than 3 above its own |
| `RpcPool.TopKeepsUp` | services/rust-worker/src/rpc_pool.rs:419-423 | the endpoint at the greatest known height is never excluded for lag |
| `RpcPool.RoutableIgnoresClock` | services/rust-worker/src/rpc_pool.rs:406-426 | routable means Healthy or Degraded and not lagging; the clock never decides |
| `RpcPool.RankIsRoundRobin` | services/rust-worker/src/rpc_pool.rs:271-289 | on the candidates, ranked_healthy is one step of smooth weighted round robin |
| `RpcPool.RankKeepsCandidates` | services/rust-worker/src/rpc_pool.rs:248-307 | ranking changes neither candidates nor weights of any kind, at any instant |
| `RpcPool.PoolRun` | services/rust-worker/src/rpc_pool.rs:248-307 | repeated ranking of an unchanged pool follows the round robin schedule, balances and leaders alike |
| `RpcPool.PoolFairness` | services/rust-worker/src/rpc_pool.rs:248-307 | the fairness bounds and the exact account hold for the pool's endpoints, for any call instants |
| `RpcPool.PoolPeriod` | services/rust-worker/src/rpc_pool.rs:248-307 | exact periodicity holds for the pool's endpoints |
| `RpcPool.RankingLedBySelected` | services/rust-worker/src/rpc_pool.rs:291-306 | the selected endpoint comes first, the rest by descending weight, every candidate exactly once |
| `RpcPool.BalancesSumToZero` | services/rust-worker/src/rpc_pool.rs:248-397 | under every interleaving of rankings and health marks, the balances of each kind sum to zero |
| `RpcPool.HealthInvariant` | services/rust-worker/src/rpc_pool.rs:366-397 | in every reachable state the counter of the first endpoint with an id is the number of failures since the last success, and the status fits it: 0, at most 1, at least 1, at least 2; a later copy of the id keeps its initial health |
| `RpcPool.HealthIsRemembered` | services/rust-worker/src/rpc_pool.rs:366-397 | in every reachable state the first endpoint with an id has the latency of its last success, the height of the last success that carried one, and the status, error and cooldown that its last marks determine |
| `RpcPool.RankedAreSound` | services/rust-worker/src/rpc_pool.rs:248-262 | every ranked endpoint lags by at most 3 and, if first with its id, has at most one failure since its last success |
| `RpcPool.CopiesAreAlwaysRanked` | services/rust-worker/src/rpc_pool.rs:366-397 | a later copy of an id is a candidate in every reachable state, whatever fails |
| `RpcPool.AlwaysSoundIff` | services/rust-worker/src/rpc_pool.rs:248-262 | in every run every ranked endpoint has at most one failure since its last success, if and only if no id is listed twice |
| `RpcPool.NoReadmissionWithoutSuccess` | services/rust-worker/src/rpc_pool.rs:406-426 | an Unhealthy or RateLimited endpoint is in no ranking, at any instant, until a success mark of it |
| `RpcPool.Pool.RankedHealthy` | services/rust-worker/src/rpc_pool.rs:248-307 | the loop version credits, selects the last maximum, charges and sorts as specified, and returns the updated endpoints in that order |
| `RpcPool.Pool.MarkSuccess` | services/rust-worker/src/rpc_pool.rs:366-378 | updates the first endpoint with the id and no other |
| `RpcPool.Pool.MarkFailure` | services/rust-worker/src/rpc_pool.rs:380-397 | updates the first endpoint with the id and no other |
| `RpcPool.AttemptOutcome` | services/rust-worker/src/rpc_pool.rs:224-240 | an attempt makes its endpoint Healthy with the measured latency, or RateLimited if and only if the error text holds "rate limited", else Degraded or from the second failure in a row Unhealthy |
| `RpcPool.Pool.WithEndpoint` | services/rust-worker/src/rpc_pool.rs:212-246 | tries exactly the ranked prefix up to the first success, marks each tried endpoint once, fails only when all candidates failed or there is none; any steps of other callers may fall between its own |
| `LeaseLock.Redis.Set` | services/rust-worker/src/lock_manager.rs:46-56 | SET NX PX succeeds exactly when no live entry exists |
| `LeaseLock.Redis.Extend` | services/rust-worker/src/lock_manager.rs:11-12 | the script renews only an entry with the caller's token |
| `LeaseLock.Redis.Release` | services/rust-worker/src/lock_manager.rs:9-10 | the script deletes only an entry with the caller's token |
| `LeaseLock.ScriptsSucceedIff` | services/rust-worker/src/lock_manager.rs:9-12 | after any run both scripts report success exactly for a guard that was not released and is within its TTL |
| `LeaseLock.ReleaseFrees` | services/rust-worker/src/lock_manager.rs:90-107 | a holder's release reports success, deletes its key's entry and no other, and the next acquire with a fresh token succeeds at once |
| `LeaseLock.StepKeepsConsistent` | services/rust-worker/src/lock_manager.rs:39-117 | every protocol step keeps holders and entries in agreement |
| `LeaseLock.MutualExclusion` | services/rust-worker/src/lock_manager.rs:39-117 | after any interleaving, two guards within their TTL of one key are the same guard |
| `LeaseLock.ForeignCommandsAreHarmless` | services/rust-worker/src/lock_manager.rs:82-107 | another guard's extend, release or drop changes neither a holder's lease nor its expiry |
| `LeaseLock.AcquireIffFree` | services/rust-worker/src/lock_manager.rs:54-56 | an acquire succeeds if and only if no live entry exists, and then nobody holds the key |
| `LeaseLock.AcquireIffUnoccupied` | services/rust-worker/src/lock_manager.rs:46-56 | in terms of guards: an acquire succeeds if and only if every guard of the key was released or is past its TTL; a dropped one counts until then |
| `LeaseLock.TimelyHeartbeatsKeepTheLock` | services/rust-worker/src/lock_manager.rs:61-72 | while heartbeats arrive within the TTL the guard keeps the key and nobody else acquires it |
| `FeePrimitives.FeePanics` | contracts/fee-primitives/src/lib.rs:63-118 | exactly the invalid inputs panic, each with the first check it violates; an accepted fee lies between 0 and the amount |
| `FeePrimitives.FeeIsDetermined` | contracts/fee-primitives/src/lib.rs:77-111 | the fee as the one number that meets the bounds and, within them, the rate rounded up; on overflow the upper bound |
| `FeePrimitives.FeeByCases` | contracts/fee-primitives/src/lib.rs:77-111 | the 128-bit fee is the exact one without overflow and min(amount, maxFee) on overflow |
| `FeePrimitives.BoundedFeeIsExactIff` | contracts/fee-primitives/src/lib.rs:47-55 | for a config the bounded fee is exact for every amount if and only if `FallbackSound` holds |
| `FeePrimitives.SmallMaxFeeIsSound` | contracts/fee-primitives/src/lib.rs:47-55 | every max fee up to floor((2^127-1)/10000) is sound |
| `FeePrimitives.ExactFeeSubadditive` | contracts/fee-primitives/src/lib.rs:39-62 | splitting a payment never lowers the total exact fee |
| `FeePrimitives.ExactFeeMonotone` | contracts/fee-primitives/src/lib.rs:39-62 | fee and net amount both grow with the amount |
| `FeePrimitives.FeeMonotone` | contracts/fee-primitives/src/lib.rs:63-118 | for every valid config the fee never falls as the amount grows, and never exceeds it |
| `FeePrimitives.NetMonotoneIff` | contracts/fee-primitives/src/lib.rs:77-111 | amount minus fee never falls, for all amounts, if and only if the fee rises by at most one at the first overflowing amount |
| `FeePrimitives.UnitSplitPaysIff` | contracts/fee-primitives/src/lib.rs:77-111 | splitting one unit off some payment lowers the total fee if and only if it rises by more than one there |
| `FeePrimitives.SubadditiveIff` | contracts/fee-primitives/src/lib.rs:77-111 | no split of any payment lowers the total fee, if and only if the config passes `SplitSound`, a test on the first overflowing amount with at most 9,999 candidates |
| `FeePrimitives.FallbackSoundSuffices` | contracts/fee-primitives/src/lib.rs:47-55 | a sound fallback has both laws |
| `FeePrimitives.SmallMinFeeIff` | contracts/fee-primitives/src/lib.rs:47-55 | unless minFee is near half the rounded fee at the first overflow, subadditivity is equivalent to a sound fallback |
| `FeePrimitives.FeeLaws` | contracts/fee-primitives/src/lib.rs:63-118 | the three laws on two payments and their sum, each under its exact condition |
| `FeePrimitives.SplittingCanPay` | contracts/fee-primitives/src/lib.rs:92-92 | a concrete config that fails every one of these tests, with a payment where splitting off one unit lowers the fee |
| `FeePrimitives.ConversionOutcome` | contracts/fee-primitives/src/lib.rs:120-150 | which conversions panic, with the first check violated, and the floor of the others |
| `FeePrimitives.ConversionRoundTrip` | contracts/fee-primitives/src/lib.rs:120-150 | converting there and back at rates multiplying to at most one never gains |
| `FeePrimitives.ConvertedFee` | contracts/fee-primitives/src/lib.rs:179-198 | exactly when the combined call succeeds, valid config included, the floor it converts to, and the fee on it |
| `StellarAmount.ParseStellarAmount` | services/rust-worker/src/stellar.rs:222-236 | the padding loop and checks compute the outcome specified by the two parts of the text |
| `StellarAmount.ExactOnUnsigned` | services/rust-worker/src/stellar.rs:222-236 | on unsigned decimals the result is the exact stroop count if and only if it fits in i64 |
| `StellarAmount.ExactOnText` | services/rust-worker/src/stellar.rs:222-236 | the same for the text itself, with and without a decimal point |
| `StellarAmount.TrailingZeroIrrelevant` | services/rust-worker/src/stellar.rs:231-234 | for any text, a trailing zero of the fraction changes nothing below seven digits and is too many decimals from there on |
| `StellarAmount.AcceptedTexts` | services/rust-worker/src/stellar.rs:222-236 | every text: accepted if and only if both parts are an optional sign and digits and the whole part and the sum fit; the result is the sum of the signed parts; and exactly when each of the errors, and the overflow of the unchecked addition, occurs |
| `StellarAmount.FaithfulIff` | services/rust-worker/src/stellar.rs:222-236 | an accepted text is read as the decimal it writes if and only if it has no sign after the point, and no minus before it unless the fraction is zero |
| `StellarAmount.NegativeAmounts` | services/rust-worker/src/stellar.rs:227-235 | -w.f is accepted if and only if w fits and yields -w + f, which is the negated amount if and only if f is zero |
| `StellarAmount.SignedFractionAccepted` | services/rust-worker/src/stellar.rs:235-235 | for every w and digits, w.-d and w.+d are accepted if and only if w and the sum fit, and yield w minus or plus d one decimal place down |
| `StellarAmount.PrintThenParse` | services/rust-worker/src/stellar.rs:222-236 | parsing inverts seven-decimal printing of every stroop count up to i64::MAX |
| `SseParser.Parser.Feed` | services/rust-worker/src/sse.rs:124-160 | one chunk leaves the residue of the text and emits the events of its complete blocks |
| `SseParser.Parser.ParseBlock` | services/rust-worker/src/sse.rs:134-143 | the last data and event lines of the block win |
| `SseParser.Parser.FeedAll` | services/rust-worker/src/sse.rs:119-161 | a stream fed chunk by chunk leaves and emits what its whole text does |
| `SseParser.CutConcat` | services/rust-worker/src/sse.rs:129-132 | cutting a text and then more text equals cutting the concatenation |
| `SseParser.ResidueHasNoSeparator` | services/rust-worker/src/sse.rs:130-130 | the residual buffer never contains a blank line |
| `SseParser.CutIsUnique` | services/rust-worker/src/sse.rs:129-132 | every text has exactly one decomposition into minimal blocks and a residue, and the parser finds it |
| `SseParser.ChunkingInvariance` | services/rust-worker/src/sse.rs:119-161 | events and residue depend only on the concatenated text |
| `SseParser.SameTextSameEvents` | services/rust-worker/src/sse.rs:119-161 | two chunkings of one text are indistinguishable |
| `SseParser.StreamRoundTrip` | services/rust-worker/src/sse.rs:119-161 | encoded events, chunked in any way, are decoded to exactly those events |
| `SseParser.CrLfStreamsAreSilent` | services/rust-worker/src/sse.rs:130-130 | a stream with CR LF line ends never yields an event |
| `SseStandard.StdEventsByBlock` | services/rust-worker/src/sse.rs:129-132 | without carriage returns the standard's events are those of the parser's blocks, each on its own |
| `SseStandard.BlockAgreesIff` | services/rust-worker/src/sse.rs:134-145 | a block yields what the standard says if and only if it has no data line, or one with a space and a value, and the last event line is read |
| `SseStandard.StreamAgreesIff` | services/rust-worker/src/sse.rs:119-161 | for every stream without carriage returns, in any chunks, the parser emits the standard's events if and only if every complete block conforms |
| `SseStandard.CrLfAgreesIff` | services/rust-worker/src/sse.rs:130-130 | the same stream with CR LF line ends has the same events by the standard and none by the parser: they agree if and only if it has no data |
| `SseStandard.LinesIgnoreCrLf` | services/rust-worker/src/sse.rs:137-137 | within a block CR LF ends a line as LF does |
| `Utf8Chunks.EncodeRoundTrip` | services/rust-worker/src/sse.rs:126-126 | every text has a well-formed UTF-8 encoding, which lossy decoding inverts |
| `Utf8Chunks.ReceivedIff` | services/rust-worker/src/sse.rs:124-127 | for a well-formed byte stream, decoding chunk by chunk gives the decoding of the whole if and only if no chunk starts with a continuation byte |
| `Utf8Chunks.TextArrivesIff` | services/rust-worker/src/sse.rs:124-127 | the text arrives as sent if and only if no chunk starts inside a character |
| `Utf8Chunks.CutIsReplaced` | services/rust-worker/src/sse.rs:126-126 | a character cut in two leaves U+FFFD at the end of one chunk and at the start of the next |
| `Utf8Chunks.ByteChunkingInvariance` | services/rust-worker/src/sse.rs:119-161 | then buffer and events depend on the bytes sent alone |
| `Utf8Chunks.AsciiIsNeverCut` | services/rust-worker/src/sse.rs:124-127 | ASCII streams may be cut anywhere |
| `FxRates.AnchorService.CacheGet` | apps/api/src/anchor/anchor.service.ts:28-36 | an expired entry reads as absent and is deleted; everything else is untouched |
| `FxRates.AnchorService.GetFxRate` | apps/api/src/anchor/anchor.service.ts:303-371 | the new cache, the new breakers and the answer are those of `Serve` on the old state |
| `FxRates.ServeActsOnSlot` | apps/api/src/anchor/anchor.service.ts:303-371 | a call on the two maps is one step of its own pair's entry and breaker, and leaves every other pair's alone |
| `FxRates.CacheKeyInjective` | apps/api/src/anchor/anchor.service.ts:304-306 | for codes without a colon, keys agree exactly on equal normalised pairs |
| `FxRates.PairsShareKeyIff` | apps/api/src/anchor/anchor.service.ts:304-306 | for codes without a colon, pairs share a key if and only if both codes are the same currency, where USDC is USD |
| `FxRates.CacheKeyCollision` | apps/api/src/anchor/anchor.service.ts:304-306 | for all codes, two pairs share a key if and only if they are one normalised pair or a colon shifts from one code to the other |
| `FxRates.LastCall` | apps/api/src/anchor/anchor.service.ts:303-371 | in a run of the whole service a call advances the history of its own pair and no other's, and its answer is that step's |
| `FxRates.PairsAreIsolated` | apps/api/src/anchor/anchor.service.ts:303-371 | in a run of the whole service, dropping all calls for other pairs changes nothing about a pair's entry, breaker, fetches or answers |
| `FxRates.KeptIsNear` | apps/api/src/anchor/anchor.service.ts:337-342 | for positive quotes the cached rate is kept if and only if it is within 0.5% of the quote |
| `FxRates.ServedRatesAreSound` | apps/api/src/anchor/anchor.service.ts:303-371 | every rate served in a run of the service is within 0.5% of a quote given for the pair at the recorded time, no older than the retention at the read, and stale exactly past the freshness bound |
| `FxRates.AnswersAreExact` | apps/api/src/anchor/anchor.service.ts:303-371 | every field of every answer in a run, from the pair's earlier fetches alone: whether the anchor is asked, the rate kept for a quote, the last quote served without one, its expiry and staleness, and circuitOpen |
| `FxRates.ServedWithoutQuoteIff` | apps/api/src/anchor/anchor.service.ts:368-370 | a call that gets no quote serves a rate if and only if the pair was quoted before and the last quote is within its retention; the expiry is counted from that quote |
| `FxRates.KeepsIff` | apps/api/src/anchor/anchor.service.ts:337-342 | for every quote the cached rate is kept if and only if the quote is negative, or positive and within 0.5% |
| `FxRates.RunKeepsBreaker` | apps/api/src/anchor/anchor.service.ts:383-397 | in a run of the service each pair's breaker counts trailing failures, opens at the threshold at the last failure, and fetches from then on are spaced by the reset time |
| `FxRates.FailingStreakBound` | apps/api/src/anchor/anchor.service.ts:311-330 | in a run of the service a failing streak of a pair makes at most threshold + floor(span / reset) fetches |
| `OfflineQueue.Queue.EnqueueDraft` | apps/frontend/lib/offlineQueue.ts:81-91 | adds the payload as a pending draft created now, without attempts, under a new id |
| `OfflineQueue.Queue.WithStoreGet` | apps/frontend/lib/offlineQueue.ts:65-78 | the handler set by the caller is replaced before the event, so a get followed by a put has the effect of the get |
| `OfflineQueue.Queue.ClaimDraft` | apps/frontend/lib/offlineQueue.ts:120-132 | leaves the store as it is |
| `OfflineQueue.Queue.ReleaseExpiredLocks` | apps/frontend/lib/offlineQueue.ts:135-164 | exactly the drafts with an expired lock return to pending, and the result counts them |
| `OfflineQueue.Queue.MarkDraftFailed` | apps/frontend/lib/offlineQueue.ts:167-181 | leaves the store as it is |
| `OfflineQueue.Queue.RequeueDraft` | apps/frontend/lib/offlineQueue.ts:184-198 | leaves the store as it is |
| `OfflineQueue.Queue.RemoveDraft` | apps/frontend/lib/offlineQueue.ts:201-203 | removes the draft and nothing else |
| `OfflineQueue.Queue.GetQueuedDrafts` | apps/frontend/lib/offlineQueue.ts:94-110 | lists every draft once, by creation time with ties by id |
| `OfflineQueue.StableSortOrders` | apps/frontend/lib/offlineQueue.ts:102-104 | sorting key-ordered records stably by creation time orders ties by id |
| `OfflineQueue.Queue.DrainQueue` | apps/frontend/lib/syncEngine.ts:40-97 | an uninterrupted drain: which drafts it takes, that it removes exactly the accepted ones, and its counters |
| `OfflineQueue.DrainOnlyRemoves` | apps/frontend/lib/syncEngine.ts:56-96 | claiming, posting and settling any list of drafts changes the store only by removing the accepted ones |
| `OfflineQueue.TallyCounts` | apps/frontend/lib/syncEngine.ts:52-85 | the counters are the numbers of accepted and of rejected replies |
| `OfflineQueue.DrainStepsRun` | apps/frontend/lib/syncEngine.ts:56-96 | that drain is a run of the state machine with the same effect, for every clock that does not run backwards |
| `OfflineQueue.RunKeepsInvariant` | apps/frontend/lib/syncEngine.ts:40-97 | every step, crashes and store errors included, keeps the combined invariant: ids, accounts, posting order, and that no stored draft is ever touched |
| `OfflineQueue.NoDraftIsLost` | apps/frontend/lib/syncEngine.ts:40-97 | after any run a draft is stored, or a POST of it was accepted, or it was discarded |
| `OfflineQueue.StoredDraftsNeverChange` | apps/frontend/lib/offlineQueue.ts:65-198 | after any run every stored draft is pending, unlocked, without error and with attemptCount 0 |
| `OfflineQueue.AttemptCountIsExactIff` | apps/frontend/lib/offlineQueue.ts:166-198 | attemptCount equals the failed deliveries of a stored draft if and only if there were none |
| `OfflineQueue.EveryStoredDraftIsListed` | apps/frontend/lib/syncEngine.ts:48-51 | every stored draft, rejected or not, is in every listing of a drain |
| `OfflineQueue.NextDrainPostsAgain` | apps/frontend/lib/syncEngine.ts:40-97 | from every idle state the next drain can post any stored draft again |
| `OfflineQueue.RejectedForever` | apps/frontend/lib/syncEngine.ts:76-85 | for every n there is a run that posts one draft n times, each time rejected, and still stores it pending |
| `OfflineQueue.IntendedAttemptCountIsExact` | apps/frontend/lib/offlineQueue.ts:166-198 | in the intended variant attemptCount is the number of failed deliveries |
| `OfflineQueue.DrainsPostInOrder` | apps/frontend/lib/syncEngine.ts:34-40 | each drain posts in creation order and no draft twice, with the backlog still behind |
| `OfflineQueue.DormantIsNeverPosted` | apps/frontend/lib/syncEngine.ts:48-51 | a removed draft outside the backlog is never posted again, in any run; nor is a failed one, which only the intended variant has |
| `OfflineQueue.SettlingRetiresIff` | apps/frontend/lib/syncEngine.ts:76-85 | settling an accepted or rejected POST retires the draft if and only if it was accepted, is gone already, or the update of the rejection runs |
| `OfflineQueue.RemovalIsFinalIff` | apps/frontend/lib/offlineQueue.ts:119-132 | a removed draft is never posted again if and only if the running drain does not have it in its backlog |
| `OfflineQueue.DiscardIsFinalIff` | apps/frontend/lib/offlineQueue.ts:200-206 | discarding or clearing takes a draft out at once, and for good if and only if the running drain does not have it in its backlog |
| `OfflineQueue.SetupErrorBlocksDrains` | apps/frontend/lib/syncEngine.ts:40-49 | an error in releaseExpiredLocks or getQueuedDrafts leaves the flag set: until a reload nothing is posted again, in any run |
| `OfflineQueue.StoreErrors` | apps/frontend/lib/syncEngine.ts:60-96 | what an error while claiming, recording a failure or removing a delivered draft does to the drain |
| `OfflineQueue.ReloadRecovers` | apps/frontend/lib/syncEngine.ts:40-97 | from any state a reload lets a stored draft be posted |
| `OfflineQueue.NoDoubleAcceptanceWithoutFaults` | apps/frontend/lib/syncEngine.ts:60-92 | without crashes and store errors each draft gets at most one accepting reply |
| `Comparator.CompareAsWritten` | contracts/zkp-compliance/src/lib.rs:105-112 | for every width the loop decides <= of the numbers with index 0 most significant |
| `Comparator.CompareUpward` | contracts/zkp-compliance/src/lib.rs:99-112 | the recurrence run upward decides the intended amount <= limit |
| `Comparator.AgreesIff` | contracts/zkp-compliance/src/lib.rs:99-112 | both agree if and only if the bits are equal or the lowest and highest differing bit point the same way |
| `Comparator.DecidesLimitIff` | contracts/zkp-compliance/src/lib.rs:99-112 | for a limit the circuit decides amount <= limit for all amounts if and only if all its bits are equal, that is for 0 and 2^n - 1 |
| `Comparator.FlippedIsWrong` | contracts/zkp-compliance/src/lib.rs:99-112 | for any other limit, flipping two of its differing bits gives an amount decided wrongly |
| `Comparator.OneVersusTwo` | contracts/zkp-compliance/src/lib.rs:99-112 | at every width from two bits the circuit accepts 2 against limit 1 and rejects 1 against limit 2 |

## Left out

- Floating-point rounding, NaN, and the infinite weight of an infinite rate in path ranking and routing: arithmetic is exact.
- `estimate_fee_stroops`, `check_slippage`, `compute_dest_min`, `find_optimal_paths`: one-line formulas and a plain sort, which would only add easy members.
- Primality of the RFC 3526 modulus p and of (p - 1) / 2: hypotheses of the range proof.
- Hiding and zero knowledge, and hardness of discrete logarithms for an h whose exponent is not known.
- Serialisation of proofs to dictionaries of hexadecimal text.
- RpcPool.HealthInvariant: the failure counter is unbounded; the 32-bit overflow after 2^32 failures in a row is not modelled.
- HTTP, health polling, environment parsing and logging of the RPC pool.
- LeaseLock.MutualExclusion: assumes that no token is used twice, which the source gets from process id and time.
- Clock skew between clients and Redis, and Redis failover: leases are stated on the clock of one Redis server.
- Storage of conversion rates in the contract, and the escrow contract: field writes behind guards.
- Streams that mix LF with lone carriage returns or CR LF, byte streams that are not UTF-8, a leading byte order mark, and the id and retry fields.
- Reconnection and back-off of the event stream, and JSON decoding of event data.
- FxRates.ServedRatesAreSound: quotes are positive, as the provider's are; `FxRates.AnswersAreExact` covers the others.
- Concurrent getFxRate calls, and the Redis backend instead of the in-memory cache.
- StellarAmount.ParseStellarAmount: text is a sequence of characters; the source counts fraction bytes, which changes only which error a non-ASCII fraction gets.
- Several browser tabs on one offline queue: claimDraft writes nothing and so excludes nobody; only one tab is modelled.
- Poseidon, Groth16, transaction building and signing: foreign libraries.
- The web interface, authentication, SEP flows, audit log, fraud scoring and metrics.
