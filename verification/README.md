# go-hotstuff node core in Dafny

A model of the sequential logic at the core of a HotStuff BFT consensus node written in Go. The
model covers three parts.

- **The `uint64` codec** (`encoding.go`). `EncodeUint64` writes a fixed-width big-endian integer,
  and `DecodeUint64` reads it back (module `Encoding`).
- **The BLS12-381 threshold verifier** (`crypto/verifier.go`). This part covers the range checks
  on replica indices, the quorum threshold gate, voter de-duplication in `Merge`, the append-only
  voter list of an aggregated signature (a quorum certificate), and the cut or zero-padding of
  the message to a 32-byte digest (module `Crypto`). The curve operations are uninterpreted
  functions, collected in a `Bls<P, K>` record that each operation takes as a parameter:
  - signature decompression and compression;
  - point addition;
  - single and common-message aggregate verification.

  Module `Aggregation` proves that certificates can be built in any order, provided every
  partial signature decompresses and no voter appears twice. Otherwise order matters (see
  `Aggregation.MalformedPartialMakesOrderMatter`). That proof assumes algebraic laws of these
  operations, written as the explicit hypothesis `Lawful`.
- **Node setup and the event loop** (`node.go`). `NewNode` computes the replica ids, the
  public-key table, the local replica index and the threshold `2n/3 + 1` (module `NodeSetup`).
  The `run` loop is modelled as a transition system (module `Reactor`):
  - Its state is the engine's progress accumulator, the staged batches, the four "armed" offer
    flags, the start flag, an exit flag, the batch held in each outbound channel, and logs of
    the engine calls made and of the batches consumers have received.
  - There is one transition per `select` case. The environment chooses which case fires.
  - The four outbound channels are made with a buffer of one (node.go:68-71). The loop's send
    case puts the staged batch into the buffer as soon as it is free. A consumer reading a
    channel is a separate environment step, which stays possible after the loop has returned.
  - An event that calls the engine carries the accumulator that the engine leaves behind, and
    that accumulator may hold anything.

The types `P` and `K` are abstract. They stand for the signature points and the public keys of
the curve library.

## Model

| member | source | states |
|---|---|---|
| Encoding.EncodeUint64 | encoding.go:6-10 | the result has exactly 8 bytes; byte `i` is digit `7-i` of `u` in base 256, so the most significant byte comes first; read as a big-endian number, the bytes give back `u` |
| Encoding.DecodeUint64 | encoding.go:13-15 | needs at least 8 bytes, because a shorter slice makes Go panic; the result is the big-endian value of the first 8 bytes and is below 2^64 |
| Encoding.DecodeEncode | encoding.go:6-15 | decoding the encoding of any `u` gives back `u` |
| Encoding.EncodeDecode | encoding.go:6-15 | for an 8-byte string, encoding its decoding gives back the string |
| Encoding.DecodeReadsPrefix | encoding.go:13-15 | two inputs that agree on their first 8 bytes decode to the same integer, whatever follows |
| Encoding.EncodeInjective | encoding.go:6-10 | two different integers never share an encoding |
| Encoding.EncodeOrder | encoding.go:6-10 | `u < v` exactly when the encoding of `u` is lexicographically less than the encoding of `v` |
| Encoding.ValueOrder | encoding.go:8 | for byte strings of equal length, big-endian numeric order is the same as lexicographic order |
| Crypto.ToDigest | crypto/verifier.go:32-33 | the digest has 32 bytes; byte `i` is message byte `i` when the message has one, and 0 otherwise |
| Crypto.Verify | crypto/verifier.go:21-36 | returns false for an index outside the key table, whatever the signature; returns false when the signature does not decompress; otherwise the verdict is the curve check of the digest under that replica's key and the shared domain |
| Crypto.ResolveKeys | crypto/verifier.go:44-50 | fails exactly when some voter is not a known replica; otherwise it returns one key per voter, in voter order, with entry `k` being `pubkeys[Voters[k]]` |
| Crypto.ResolveKeysIsKeysOf | crypto/verifier.go:44-50 | the key loop's result equals the key list that a verifying party rebuilds from the certificate |
| Crypto.VerifyAggregated | crypto/verifier.go:39-58 | false below the threshold, false when any voter is out of range, and false when the aggregate does not decompress; otherwise the verdict is the common-message check over the voters' keys in voter order |
| Crypto.Merge | crypto/verifier.go:61-85 | no change when the voter is out of range or has already voted; otherwise the certificate is unchanged or has the voter appended at the end; the certificate invariant (no duplicate voter, every voter known) is kept; a first partial signature is stored as given, without decoding; with an aggregate present, a decoding failure leaves everything unchanged; otherwise the new aggregate is the compressed sum of the two points |
| Crypto.DigestIgnoresZeroPadding | crypto/verifier.go:32-33 | appending zero bytes to a message never changes its digest |
| Crypto.DigestIgnoresTail | crypto/verifier.go:32-33 | bytes after the 32nd never reach the digest |
| Crypto.DigestOfDigest | crypto/verifier.go:32-33 | a 32-byte message is its own digest |
| Crypto.VerdictsIgnoreBytesPastDigest | crypto/verifier.go:32-57 | for a message of at least 32 bytes, neither `Verify` nor `VerifyAggregated` changes when bytes are appended |
| Crypto.ShortMessageActsZeroPadded | crypto/verifier.go:32-57 | a message shorter than 32 bytes gets the same verdicts as its zero-padded 32-byte form |
| Crypto.DistinctVoterCount | crypto/verifier.go:65-69 | a voter list without duplicates names as many distinct replicas as it has entries |
| Crypto.DuplicateVotersPassThresholdGate | crypto/verifier.go:41-50 | with 4 replicas, the certificate `[0, 0, 0]` breaks the certificate invariant and names only one replica, yet it passes the gate; its verdict is the curve check over replica 0's key three times |
| Crypto.VerifyQuorum | crypto/verifier.go:39-58 | corrected check: it rejects repeated voters; when it accepts, the certificate is valid and names at least `threshold` distinct replicas; on valid certificates it agrees with `VerifyAggregated` |
| Crypto.MergeIdempotent | crypto/verifier.go:65-69 | merging the same voter and signature twice equals merging once; once a voter has been added, later signatures for it are ignored |
| Crypto.MergeAll | crypto/verifier.go:61-85 | over any sequence of merges, the old voter list stays a prefix, the list grows by at most one entry per merge, every new voter was merged, and the invariant is kept |
| Crypto.MalformedFirstPartialFreezesCertificate | crypto/verifier.go:70-84 | a first partial signature that does not decompress is stored and counts its voter; from then on every merge leaves the certificate unchanged |
| Crypto.NilPartialCountsVoterWithoutSignature | crypto/verifier.go:81-84 | a nil partial signature merged into a certificate with no aggregate counts its voter but leaves the aggregate nil; the next partial is then stored as if it were the first |
| Aggregation.MergeKeepsDecodable | crypto/verifier.go:70-83 | under the curve laws, merging a good partial signature keeps the aggregate decodable |
| Aggregation.MergeRespectsEquiv | crypto/verifier.go:61-85 | `Merge` gives equivalent results (same voters in some order, same aggregate bytes) on equivalent certificates |
| Aggregation.MergeSwap | crypto/verifier.go:70-84 | under the curve laws, good partial signatures from two different voters give equivalent certificates in either merge order |
| Aggregation.KeysOfPermutation | crypto/verifier.go:44-50 | reordering the voters keeps them all known and reorders the rebuilt keys as a multiset |
| Aggregation.VerifyAggregatedRespectsEquiv | crypto/verifier.go:39-58 | under the curve laws, equivalent certificates get the same verdict |
| Aggregation.MergeOrderIrrelevant | crypto/verifier.go:61-85 | merging the same good partial signatures from distinct voters in any order gives equivalent certificates |
| Aggregation.MergeOrderExample | crypto/verifier.go:39-85 | merging `{a, b}` then `{d}` gives the same verdict as merging `{d}`, then `a`, then `b`, both with and without the duplicate check |
| Aggregation.MalformedPartialMakesOrderMatter | crypto/verifier.go:70-84 | with a malformed partial signature, order matters: merged first it freezes the certificate; merged second it is refused |
| NodeSetup.NewNode | node.go:43-57 | ids are `0..n-1`; key `i` is replica `i`'s identity; the local index is the last replica whose key equals the configured identity, or 0 if none does; the threshold is `2n/3 + 1` |
| NodeSetup.FourReplicasNeedThree | node.go:57 | with 4 replicas the threshold is 3 |
| NodeSetup.ThresholdIsTwoThirdsMajority | node.go:57 | three thresholds exceed `2n`, and for `n >= 1` the threshold is at most `n` |
| NodeSetup.QuorumsIntersect | node.go:57 | two sets of at least threshold replicas out of `n` share at least `n/3 + 1` replicas, more than the `(n-1)/3` faulty ones tolerated |
| NodeSetup.AcceptedCertificatesIntersect | node.go:57 | two certificates accepted by the corrected check under the `NewNode` threshold share more than `(n-1)/3` voters |
| NodeSetup.RepeatedVoterCertificatesNeedNotIntersect | crypto/verifier.go:41-50 | without the duplicate check, `[0,0,0]` and `[1,1,1]` both pass the gate and the range check for 4 replicas, yet share no voter |
| Reactor.Init | node.go:159-171 | the loop starts with every channel variable nil, every channel empty, the start case open and the engine's accumulator as built; the invariant holds |
| Reactor.Prepare | node.go:176-196 | the progress is read only when all four staged batches have been sent into their channels, and otherwise nothing changes; after a snapshot each offer is armed exactly when its part of the progress is non-empty (for the ready offer, when `WaitingData` is set), it stages exactly that part, and the accumulator is reset even if it was empty |
| Reactor.Service | node.go:198-223 | the start case sets the start flag to closed and calls `Start`; the message, data and tick cases each make one engine call; a send case puts its offer's staged batch into that offer's channel and disarms only that offer; quit exits; no other case changes the offers or the channels, and no case hands anything to a consumer |
| Reactor.HandOver | node.go:208-217 | the loop sends the staged batch into the offer's channel buffer; only that offer is disarmed; the other offers, the accumulator, the engine calls and the receipts are untouched |
| Reactor.Receive | node.go:130-145 | a consumer reading a channel returned by `Ready`, `Missing`, `Messages` or `Blocks` (created with a one-slot buffer at node.go:68-71) takes the one buffered batch and leaves the channel empty; the loop's own state is unchanged |
| Reactor.Next | node.go:173-224 | a consumer's receive can happen exactly when the channel holds a batch; a loop iteration can happen exactly when the loop has not returned and the `select` can pick the case after the snapshot; each step appends at most one engine call and at most one receipt; after return, no engine call is added |
| Reactor.Run | node.go:173-224 | over any sequence of steps, the engine call log and the receipt log only grow at the end, and once the loop has returned it stays returned and calls the engine no more |
| Reactor.HandDisarmsOnlyThatOffer | node.go:208-217 | a send case can fire exactly when its offer is armed and its channel is empty; it puts the staged batch in the channel, disarms only that offer, and leaves the accumulator, the engine calls, the receipts and every other offer and channel unchanged |
| Reactor.ConsumerGetsChannelBatch | node.go:68-71 | a consumer can receive exactly when the channel holds a batch, also after the loop has returned; it gets that batch and nothing else changes |
| Reactor.EffectsKeptWhileArmed | node.go:176-207 | while some offer is armed, an engine call's effects stay in the accumulator, and the offers, staged batches, channels and receipts are unchanged |
| Reactor.ArmedOnlyBySnapshot | node.go:176-196 | an offer becomes armed only in an iteration that began with all offers drained, and its batch is the content of the accumulator at that point |
| Reactor.SnapshotKeepsEverything | node.go:178-195 | a snapshot stages and arms every non-empty part of the accumulator and then resets it, so nothing is dropped |
| Reactor.ArmedOfferHeldUntilHanded | node.go:173-224 | while the send case of an armed offer does not fire, the offer stays armed with the same batch through any run; the batches of that offer that consumers receive meanwhile, followed by what is still in its channel, are exactly what its channel held at the start, so at most the one buffered batch is received |
| Reactor.TwoBatchesInFlight | node.go:68-71 | with buffered channels, a second snapshot can stage a new message batch while the previous one is still unread in the channel: two batches of one offer are outstanding at once |
| Reactor.NextKeepsInv | node.go:173-224 | one step keeps the invariant: at most one `Start` call, none while the start case is open, every armed, buffered or received batch non-empty, and each channel holds only its own offer's batches |
| Reactor.StartRunsAtMostOnce | node.go:199-201 | in any run from the initial state, `Start` is called at most once and no consumer receives an empty batch |
| Reactor.NoEngineCallAfterQuit | node.go:218-222 | after the quit case only consumers reading what is left in the channels can act; quit marks the loop as exited and no engine call follows it |

## Left out

- BLS12-381 arithmetic is left out because it is a foreign library. This covers decompression, compression, point addition, `Verify` and `VerifyAggregateCommon`. They are uninterpreted functions. The laws in `Aggregation.Lawful` are hypotheses, not proved facts.
- `crypto/signer.go` is not part of this model because it is a thin wrapper over the library's `Sign`. The panic on a digest that is not 32 bytes long is not modelled. The domain tag `{1, 1, 1}` padded to 8 bytes is modelled as `Crypto.Domain`.
- `crypto/utils.go` (key generation), `types/hash.go` (BLAKE2s over protobuf output) and `db.go` (LevelDB) are not part of this model because they are randomness, foreign hashing and I/O.
- The consensus engine (`newConsensus` and its `Start`, `Step`, `Send`, `Tick`) is not part of this model. Each call is recorded in the loop's call log, and it may leave the progress accumulator in any state.
- Concurrency in node.go is left out because the model keeps only the loop's sequential arm/drain state machine. This covers:
  - the goroutine and `select` fairness;
  - the one-slot buffers of the inbound `received` and `send` channels (each inbound message is one event);
  - ticker timing;
  - the cancellation and `ErrStopped` results of `Node.Step` and `Node.Send`;
  - `Close` blocking on `done`;
  - the panic when `Start` is called twice.
- The content of messages and data handed to the engine is left out, because only the fact that the engine was called matters to the loop.
- Logging is left out because it has no effect on behaviour.
- NodeSetup.NewNode: the construction of the signer, the engine and the channels, and the launch of `run`, are left out because they are foreign or concurrent. Replica ids are unbounded naturals. `uint64(i)` never wraps for a slice index.
- Security properties are left out because they cannot be derived from the code: rogue-key resistance (the source marks it as an open item) and domain separation between message kinds.
- Crypto.Merge: a partial signature is decoded only once an aggregate exists (crypto/verifier.go:70-83), so the first one is stored without decoding (see `Crypto.MalformedFirstPartialFreezesCertificate`).
- Crypto.VerifyAggregated, Crypto.Merge: Go passes the certificate by pointer, so a nil certificate panics at crypto/verifier.go:41 and, for an in-range voter, at crypto/verifier.go:65. The model takes the certificate by value and does not represent that panic.
- Reactor.HandOver: the missing-blocks send case clears only the channel variable, not `toSync` (node.go:210-211).
- Reactor.Prepare: the staged batches are taken as independent copies of the progress lists. The code stages the slices by reference and then calls `Progress.Reset()`, which is not part of this model. The model assumes that `Reset` does not reuse the staged slices' storage.
- NodeSetup.NewNode: the local replica is found with Go's `==` on `blssig.PublicKey` values (node.go:52). The model uses equality on the abstract key type `K`.
- The bound of two batches per offer (one in the channel, one armed) is a consequence of the state shape. `Reactor.TwoBatchesInFlight` shows that it is reached. No lemma restates the bound itself.

## Findings

| source | as written | input that shows it | evidently intended | confidence | as-written member | corrected member |
|---|---|---|---|---|---|---|
| crypto/verifier.go:41-50 | the threshold gate counts voter entries, and the key loop accepts a repeated voter index | 4 replicas (threshold 3) and `Voters = [0, 0, 0]`, with the aggregate of replica 0's own signature added three times | a certificate must name at least `threshold` distinct replicas, as `Merge` ensures for the certificates it builds | medium, not executed; the engine that calls the verifier is not part of this model and might filter duplicates | Crypto.VerifyAggregated, Crypto.DuplicateVotersPassThresholdGate | Crypto.VerifyQuorum, NodeSetup.AcceptedCertificatesIntersect |
