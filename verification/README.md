# ChainGuard verification

A Dafny model of the vault's cryptographic services, its relayer and its Stellar contract, with proofs of what
they promise.

- Secret sharing: Feldman shares over a safe-prime group (`Vss`, `Reconstruct`), their proactive refresh
  (`Refresh`), Shamir shares over GF(2^127 - 1) (`ShamirField`), on a common base of modular arithmetic,
  interpolation and number texts (`Numbers`, `Polynomials`, `Radix`, `Text`).
- Homomorphic key release: key pairs and ciphertexts (`Fhe`), threshold and additive shares (`FheShares`,
  `FheWire`, `FheAdditive`), and the contract's limb adder on the same bytes (`FheOnChain`).
- Time locks: the delay function with its Wesolowski and Pietrzak proofs (`Vdf`).
- Field arithmetic of the on-chain proof verifier: Montgomery limbs, the quadratic extension and the degree-12
  tower (`Limbs`, `Fp`, `Fq2`, `Fq12`), and 256-bit numbers as text (`Decimal`).
- Streaming encryption and hashing (`Chunks`, `Streaming`, `StreamTransforms`,
  `GenuineStreams`, `Sha256`).
- The relayer: its durable queue (`RelayQueue`, `RelayRuns`, `RelayTimes`) and its event listeners (`Listener`).
- The contract's state machines: access tokens (`Tokens`), emergency unlock (`Emergency`), vaults, requests and
  approvals (`Approvals`, `ApprovalLaws`, `ApprovalRuns`, `ApprovalStorage`, `Ledger`), their whole histories
  (`AccessHistory`), revocations from the EVM side (`CrossChain`), and requests with unlocks (`ReleaseRuns`).

Pure code is modelled by functions; loops and objects that change state are methods and classes, each proved
against a function or an outright property. Run `dafny verify dfyconfig.toml`.

Where the code and its comments disagree, the model follows the code, and the exact condition is proved: the
VSS round trip needs lower case and at most 255 characters (`Reconstruct.RoundTrip`); an honest Pietrzak proof
with a zero midpoint is rejected (`Vdf.PietrzakCompleteExactly`); the decoder reads a length field from one
piece only (`Streaming.DecryptEncrypted`); negating 0 leaves the limbs of 2p (`Fp.Neg`); the on-chain addition
reduces only sums below 2q (`FheOnChain.WordSumExact`).

## Model

| member | source | states |
|---|---|---|
| Numbers.PowMod | src/core/crypto/vdf.ts:442-453 | binary exponentiation with a non-negative start gives the remainder of the power for every base, exponent and positive modulus, and 1 for exponent 0 even modulo 1 |
| Numbers.FermatInverse | src/core/crypto/secrets.service.ts:126-129 | raising to p - 2 inverts every element that is not 0 modulo a prime, which is how each of the services inverts |
| Polynomials.Interpolation | src/core/crypto/secrets.service.ts:314-349 | as many points as coefficients, or more, pairwise different modulo a prime and in any order, together with any list of Lagrange weights at 0, sum the values to the constant term; the weights are characterized by an equation, not by a formula |
| Vss.ModPow | src/core/crypto/secrets.service.ts:112-124 | the service's own exponentiation, whose remainders keep the sign of the dividend: congruent to the power, strictly between -m and m, non-negative for a non-negative base |
| Vss.VerifiesExactly | src/core/crypto/secrets.service.ts:225-259 | the verification equation holds for a share (x, y) if and only if y is the committed polynomial's value at x modulo Q: honest shares are accepted and every other value is rejected |
| Vss.VerifyShare | src/core/crypto/secrets.service.ts:225-259 | the loop over the commitments accepts exactly the texts that can be read and satisfy the equation; whatever throws is a rejection |
| Vss.AcceptedExactly | src/core/crypto/secrets.service.ts:225-259 | a share text is accepted if and only if it spells an index, a dash, the kind, two characters of length and a value whose point satisfies the equation under the commitments the texts spell |
| Vss.SplitSecretVSS | src/core/crypto/secrets.service.ts:135-212 | fails exactly for k > n, k < 1, odd-length or non-hexadecimal text and secrets from Q on; otherwise share i is the text of the polynomial's value at i and the commitments are those of its coefficients |
| Reconstruct.ModInverse | src/core/crypto/secrets.service.ts:126-129 | throws exactly for multiples of the modulus; otherwise the power m - 2, within the range of the sign-keeping remainder |
| Reconstruct.InterpolateAtZero | src/core/crypto/secrets.service.ts:314-342 | the two nested loops fail exactly when two points agree modulo Q and otherwise give a value congruent to the constant term of every polynomial of that many coefficients through the points, negative values of forged points included |
| Reconstruct.ReconstructSecret | src/core/crypto/secrets.service.ts:265-349 | for every list of share texts: rejection of malformed texts and colliding points, and otherwise the hexadecimal text of the intercept, padded to the stored length |
| Reconstruct.RoundTrip | src/core/crypto/secrets.service.ts:265-349 | reconstructing any k or more different shares of a split, in any order, gives the hexadecimal secret back if and only if it is lower case and at most 255 characters long |
| Reconstruct.ReconstructionShort | src/core/crypto/secrets.service.ts:265-349 | no list of shares whatsoever reconstructs to more than 255 characters, which is why longer secrets cannot come back |
| Refresh.GenerateZeroPolynomial | src/core/crypto/proactiveSecretSharing.ts:113-156 | fails exactly for thresholds below 1 or above n; otherwise the constant coefficient is 0, subshare j is the value at j, and the commitments commit to the coefficients |
| Refresh.VerifyZeroShare | src/core/crypto/proactiveSecretSharing.ts:162-187 | accepts exactly the contributions that satisfy the verification equation for readable commitments |
| Refresh.ZeroShareExact | src/core/crypto/proactiveSecretSharing.ts:162-187 | against published zero-commitments a contribution is accepted if and only if it is the committed polynomial's value at the point |
| Refresh.UpdateShare | src/core/crypto/proactiveSecretSharing.ts:193-218 | a share text becomes the text of its value plus all contributions modulo Q, at the same point and with the same stored length |
| Refresh.UpdateCommitments | src/core/crypto/proactiveSecretSharing.ts:225-252 | honest commitments become exactly the commitments of the refreshed polynomial; on any inputs, success leaves the first commitment's value unchanged |
| Refresh.RefreshedShare | src/core/crypto/proactiveSecretSharing.ts:193-218 | adding every guardian's contribution moves each share onto the refreshed polynomial |
| Refresh.RefreshedSecret | src/core/crypto/proactiveSecretSharing.ts:258-326 | zero-polynomials leave the shared constant term alone |
| Refresh.ProactiveRefresh | src/core/crypto/proactiveSecretSharing.ts:258-326 | on any input, success means every new share verifies against the new commitments and old and new shares reconstruct to the same secret; on honest input it always succeeds and returns an honest sharing of the same secret, so that refreshes compose |
| ShamirField.EvaluatePolynomial | src/core/crypto/proactiveSecretSharing.ts:378-384 | Horner evaluation gives the canonical residue of the value, for every integer coefficient and point |
| ShamirField.SplitSecret | src/core/crypto/proactiveSecretSharing.ts:390-401 | fails exactly for thresholds outside 1..numShares; otherwise shares 1, 2, ... lie on one polynomial of at most threshold coefficients whose constant term is the reduced secret |
| ShamirField.CombineShares | src/core/crypto/proactiveSecretSharing.ts:430-449 | refuses exactly too few shares; distinct points give the constant term of every polynomial of at most threshold coefficients through the used shares |
| ShamirField.GenerateZeroShares | src/core/crypto/proactiveSecretSharing.ts:407-417 | every listed point gets the value of one polynomial that vanishes at 0 |
| ShamirField.ProactiveRefresh | src/core/crypto/proactiveSecretSharing.ts:475-504 | whatever polynomial the shares lie on, the refreshed shares lie on another of the same size with the same constant term, and that is the recovered secret |
| ShamirField.SplitRefreshCombine | src/core/crypto/proactiveSecretSharing.ts:390-504 | split, any number of refresh rounds, combine any threshold or more different shares in any order: the secret modulo 2^127 - 1 |
| Fhe.KeyGen | src/core/crypto/fheEngine.ts:106-131 | row i of the public key satisfies b[i] = a[i] . s modulo q for every randomness |
| Fhe.Encrypt | src/core/crypto/fheEngine.ts:165-203 | the vector entries are each draw modulo 7 plus 1, and each component is congruent to the column sum for that vector, everything reduced modulo q; a key without rows is the only failure |
| Fhe.DecryptEncrypt | src/core/crypto/fheEngine.ts:205-225 | decryption inverts encryption for every key pair, plaintext and randomness |
| Fhe.PlainOfSum | src/core/crypto/fheEngine.ts:238-255 | the sum of two ciphertexts decrypts to the sum of the plaintexts, under every key |
| Fhe.PlainOfScaled | src/core/crypto/fheEngine.ts:257-273 | a scaled ciphertext decrypts to the scaled plaintext, under every key |
| FheShares.LagrangeCoefficients | src/core/crypto/fheEngine.ts:275-296 | throws exactly when two indices agree modulo q; otherwise the results are Lagrange weights at 0 |
| FheShares.ThresholdAggregate | src/core/crypto/fheEngine.ts:310-334 | fails exactly for a threshold out of range, colliding indices or mixed dimensions among the first threshold shares; otherwise their weighted sum |
| FheShares.ThresholdReconstruction | src/core/crypto/fheEngine.ts:310-334 | the aggregate of shares with different indices decrypts to the constant term of the shared polynomial |
| FheShares.AdditiveAggregate | src/core/crypto/fheEngine.ts:336-353 | the aggregate exists exactly for a non-empty list of one dimension and decrypts, under every key, to the sum of the plaintexts |
| FheWire.Deserialize | src/core/crypto/fheEngine.ts:368-382 | reading a serialized reduced ciphertext gives it back, except dimension 0, which is refused as too short |
| FheWire.CreateThresholdShares | src/core/crypto/fhe.service.ts:73-111 | fails exactly for a bad threshold or unreadable secret; otherwise share j is an encryption, under the small vector of its own draws, of the value at j of the polynomial of the secret and the drawn coefficients |
| FheWire.AggregateRecovers | src/core/crypto/fhe.service.ts:117-134 | any threshold or more different shares, in any order, can be aggregated, and every aggregate decrypts to the secret modulo q |
| FheAdditive.CreateAdditiveShares | src/core/crypto/fhe.service.ts:36-67 | fails exactly for no guardians or an unreadable secret; otherwise all plain shares but the last are the draws modulo q, together they add up to the secret modulo q, and each payload encrypts its share under the small vector of its own draws |
| FheAdditive.CreateAggregateDecrypt | src/core/crypto/fhe.service.ts:36-142 | creating, aggregating and decrypting end to end gives the hexadecimal form of the secret modulo q, for every key pair and all randomness |
| FheOnChain.AddModQ256 | contracts-stellar/src/lib.rs:2669-2737 | the limb adder returns x + y with one conditional subtraction of q, in 256 bits, for all pairs of 32-byte words |
| FheOnChain.WordSumExact | contracts-stellar/src/lib.rs:2669-2737 | that is the sum modulo q if and only if x + y < 2q |
| FheOnChain.FheAddLaw | contracts-stellar/src/lib.rs:2739-2775 | an empty operand gives the other back, operands under 96 bytes or of different lengths panic, and otherwise each whole word but the first is the sum of the operands' words |
| FheOnChain.PayloadIsSerialized | contracts-stellar/src/lib.rs:2739-2775 | the bytes of the hexadecimal client encoding are the words the contract adds |
| FheOnChain.AdditionsAgree | contracts-stellar/src/lib.rs:2739-2775 | on-chain addition of two serialized ciphertexts is the serialization of the client-side sum |
| FheOnChain.AccumulatorDecryptsToSum | contracts-stellar/src/lib.rs:1413-1532 | over any run of submissions of one dimension nothing panics, the counter is the number of non-empty shares and the accumulator decrypts to the sum of all plaintexts |
| Vdf.EvaluateVdf | src/core/crypto/vdf.ts:86-101 | refuses exactly non-positive x or N and T below 1; otherwise T squarings are x to the power 2^T modulo N |
| Vdf.ProveWesolowski | src/core/crypto/vdf.ts:134-168 | the one-pass long division yields x^(2^T div l) and 2^T mod l without computing 2^T |
| Vdf.WesolowskiComplete | src/core/crypto/vdf.ts:134-193 | the prover's output is accepted for every x, N and T and every challenge hash |
| Vdf.WesolowskiRoot | src/core/crypto/vdf.ts:170-193 | for x coprime to N a proof is accepted if and only if its challenge and remainder are the recomputed ones and pi^l * x^e = y * (x^(e div l))^l for e = 2^T: a wrong y needs an l-th root of the factor it is wrong by |
| Vdf.WesolowskiAcceptsOnlyTruth | src/core/crypto/vdf.ts:134-193 | with the honest quotient power, acceptance is the truth of y = x^(2^T) modulo N, for every x and N |
| Vdf.BitTest | src/core/crypto/vdf.ts:195-202 | T & (T - 1) is 0 exactly for the powers of two |
| Vdf.ProvePietrzak | src/core/crypto/vdf.ts:195-223 | the output is the honest one, and it exists whenever every midpoint is nonzero |
| Vdf.VerifyPietrzak | src/core/crypto/vdf.ts:225-252 | for arbitrary proofs the verdict is that of the halving check, and acceptance means the claim folded along the proof ends in curX * curX = curY modulo N |
| Vdf.AcceptsExactly | src/core/crypto/vdf.ts:225-252 | acceptance holds if and only if T is a power of two with that many midpoints, y and the midpoints are in range, and the folded pair, defined apart from the check, satisfies the last equation |
| Vdf.PietrzakAcceptsOnlyTruth | src/core/crypto/vdf.ts:195-252 | for x coprime to N and honest midpoints, a claimed y is accepted if and only if it is x^(2^T) modulo N |
| Vdf.TwoChallenges | src/core/crypto/vdf.ts:236-248 | one midpoint folds a false claim to true ones under two different challenges r1 < r2 only if the midpoint is wrong as well and its power r2 - r1 is that of the right one |
| Vdf.PietrzakCompleteExactly | src/core/crypto/vdf.ts:195-252 | the honest proof is accepted if and only if no midpoint is 0 modulo N: completeness fails on the rest |
| Vdf.PietrzakCompleteForUnits | src/core/crypto/vdf.ts:195-252 | for x coprime to N every midpoint is nonzero, so the honest proof exists and is accepted for every challenge hash |
| Fp.Mul | contracts-stellar/src/zk_verifier.rs:253-295 | the interleaved-limb product and Montgomery reduction of operands up to 2p is the canonical representative of a * b / R |
| Fp.Sub | contracts-stellar/src/zk_verifier.rs:237-247 | the borrow-driven correction in exact 256-bit terms, for all limb values |
| Fp.Add | contracts-stellar/src/zk_verifier.rs:205-219 | the canonical sum modulo p for canonical operands |
| Fp.Neg | contracts-stellar/src/zk_verifier.rs:249-251 | congruent to -a for every operand, and canonical if and only if a is not 0: the negation of 0 is the limbs of 2p |
| Fp.SubModulus | contracts-stellar/src/zk_verifier.rs:320-336 | subtracting p reduces values in [p, 2p) and leaves every value from 2p on unchanged, so the decoder's loop ends exactly below 2p |
| Fp.InverseTimes | contracts-stellar/src/zk_verifier.rs:303-318 | for every element that is not 0, the element times its computed inverse is the limbs of 1 |
| Fp.FromBeBytes | contracts-stellar/src/zk_verifier.rs:320-336 | 32 bytes become the Montgomery form of their big-endian value |
| Fp.ToBeBytes | contracts-stellar/src/zk_verifier.rs:338-350 | the Montgomery form of x becomes the 32 bytes of x |
| Fp.BytesRoundTrip | contracts-stellar/src/zk_verifier.rs:320-350 | decode then encode gives the value modulo p, and the same bytes for canonical input |
| Fp.ExpBytes | contracts-stellar/src/zk_verifier.rs:357-370 | square and multiply over big-endian bytes is the power by their value |
| Fq2.Mul2 | contracts-stellar/src/zk_verifier.rs:430-434 | multiplication is that of Gaussian integers modulo p, in canonical form |
| Fq2.InverseTimes2 | contracts-stellar/src/zk_verifier.rs:442-446 | every nonzero element times its inverse is 1, limb for limb, because -1 is not a square modulo p |
| Fq2.ExpBytes2 | contracts-stellar/src/zk_verifier.rs:448-460 | square and multiply is the Gaussian power |
| Fq12.PartialAt | contracts-stellar/src/zk_verifier.rs:504-519 | folding the eleven convolution sums by w^6 = 9 + i gives the coefficients of the product defined by shifts |
| Fq12.Mul12 | contracts-stellar/src/zk_verifier.rs:504-519 | the convolution and fold on elements is multiplication of polynomials modulo w^6 - (9 + i), every coefficient canonical |
| Fq12.Times12Associative | contracts-stellar/src/zk_verifier.rs:504-519 | that multiplication is associative |
| Fq12.ExpBytes12 | contracts-stellar/src/zk_verifier.rs:525-537 | square and multiply is the power in that ring |
| Decimal.FormatDecimal | contracts-stellar/patches/ethnum/src/fmt.rs:90-153 | four digits per division and a two-digit table print every 256-bit number as its canonical decimal text of at most 78 characters |
| Decimal.FormatRadix | contracts-stellar/patches/ethnum/src/fmt.rs:15-60 | one digit per division prints the canonical text in base 2, 8 or 16 |
| Decimal.ScanIsValue | contracts-stellar/patches/ethnum/src/parse.rs:30-128 | a digit string parses if and only if all characters are digits of the radix and the value fits in 256 bits, and then to that value |
| Decimal.ParseUnchecked | contracts-stellar/patches/ethnum/src/parse.rs:26-28 | under the length guard the loop without overflow checks never leaves 256 bits and agrees with the checked one |
| Decimal.FromStrRadix | contracts-stellar/patches/ethnum/src/parse.rs:30-128 | sign, prefix and digits are taken apart and the outcome, errors included, is that of the digit scan |
| Decimal.FromStrRadixLaw | contracts-stellar/patches/ethnum/src/parse.rs:30-128 | exactly the texts of an optional plus sign, the prefix and digits of a number below 2^256 parse, to that number, and exactly the empty text is reported as empty |
| Decimal.FirstFault | contracts-stellar/patches/ethnum/src/parse.rs:30-128 | an invalid digit is reported exactly when the first fault from the left is a character that is no digit |
| Decimal.ParsePrinted | contracts-stellar/patches/ethnum/src/parse.rs:30-128 | every 256-bit number printed in base 2 to 16 parses back to itself |
| RelayQueue.NextKeeps | relayer/queue.ts:98-166 | through enqueues, attempts, settlements, failed journal writes and crashes in any order, ids stay distinct across pending, completed and dead jobs and the captured index keeps denoting the captured job |
| RelayRuns.RunAccounts | relayer/queue.ts:74-166 | over every run without failed writes or without crashes: accepted = pending + completed + dead-lettered, and no job is attempted more often than the limit plus the number of crashes |
| RelayRuns.CrashLosesNothingExactly | relayer/queue.ts:74-95 | a crash keeps that account if and only if the journal holds the pending ids and the two lists |
| RelayRuns.DurableRelayQueue.Add | relayer/queue.ts:98-108 | the new queue and journal are those of the enqueue step; accepted exactly for an unknown id |
| RelayRuns.DurableRelayQueue.PumpStart | relayer/queue.ts:129-135 | a job is handed over exactly when none is in flight and one is due |
| RelayRuns.DurableRelayQueue.PumpResolved | relayer/queue.ts:136-143 | completion removes the job at the captured index and the invariant holds again |
| RelayRuns.DurableRelayQueue.PumpRejected | relayer/queue.ts:144-160 | rejection retries with capped doubling or dead-letters, and the invariant holds again |
| RelayQueue.BackoffDoubles | relayer/queue.ts:152-156 | the first wait is the configured one and each further wait is twice the one before, up to the maximum |
| RelayTimes.AttemptsWait | relayer/queue.ts:98-166 | over every run, failed writes and crashes included, an attempt starts for an accepted job with the payload it was accepted with, not before that time, and not before the wait after the rejection on record is over |
| RelayTimes.DeadLettersExhausted | relayer/queue.ts:144-151 | over every run a dead letter is an accepted job whose attempt number, at least the limit, was rejected with the recorded error |
| Listener.IdInjective | relayer/listeners.ts:103 | different logs have different deduplication ids |
| Listener.ExactlyOnce | relayer/listeners.ts:63-115 | however polls fail and sources interleave, every log from the configured start block, or else from the block after the head at start, up to the cursor has been handed over exactly once |
| Listener.EventuallyDelivered | relayer/listeners.ts:63-115 | after enough completed polls at heads from h on, whatever failed in between, every log in scope up to h has been handed over exactly once |
| Listener.NothingElse | relayer/listeners.ts:293-297 | no event is handed over twice, and none that is not on the chain between the start and the largest head seen |
| Listener.CursorMoves | relayer/listeners.ts:89-115 | the cursor moves in completed polls only, to the head or by 5000 blocks where the head is further off, and never passes the largest head seen |
| Listener.EvmAccessRequestListener.Poll | relayer/listeners.ts:89-115 | the loop with its early exits leaves cursor and sink as the poll step says |
| Streaming.HeaderRoundTrip | src/core/crypto/streamingCrypto.service.ts:168-192 | parsing a built header gives the chunk size back exactly for sizes 1 to 16 MiB |
| Streaming.HeaderExactly | src/core/crypto/streamingCrypto.service.ts:168-192 | sixteen bytes are a header if and only if they start with the four letters, version 1 and a big-endian size of 1 to 16 MiB in bytes 6 to 9 |
| Streaming.DecryptEncrypted | src/core/crypto/streamingCrypto.service.ts:293-408 | for every plaintext, chunk size and way of cutting the ciphertext: decryption gives the plaintext if and only if no piece ends inside a frame's length field (or is empty where a frame starts), and is rejected otherwise |
| Streaming.OnlyWholeStreams | src/core/crypto/streamingCrypto.service.ts:293-408 | a stream that is cut short or continued is rejected however it is cut into pieces |
| GenuineStreams.OnlyGenuineStreams | src/core/crypto/streamingCrypto.service.ts:293-408 | for arbitrary bytes in arbitrary pieces: whatever decrypts was a header and frames of length, iv and sealed bytes that each open under their own index, only the last one short, and the output is their texts in order |
| GenuineStreams.EncryptedIsGenuine | src/core/crypto/streamingCrypto.service.ts:197-291 | an encrypted text is such a stream, each part sealed under an iv and an index of its own |
| StreamTransforms.DrainChunks | src/core/crypto/streamingCrypto.service.ts:94-109 | the loop returns the first count bytes and leaves the rest of the chunk list |
| StreamTransforms.EncryptTransform.Flush | src/core/crypto/streamingCrypto.service.ts:197-291 | what was sent is the encrypted form of all that was received, however it arrived |
| StreamTransforms.DecryptTransform.Transform | src/core/crypto/streamingCrypto.service.ts:314-395 | buffer, counters and output are those of the decoder step for one arriving piece |
| Sha256.Sha256.Finish | src/core/crypto/streamingCrypto.service.ts:732-871 | updates in any pieces digest the whole message with its padding |
| Sha256.Sha256.DigestHex | src/core/crypto/streamingCrypto.service.ts:732-871 | 64 lower-case digits whose number is that of the eight digest words in base 2^32; the padded message is whole blocks and its length field is the 64-bit bit length |
| Sha256.LengthBytesExact | src/core/crypto/streamingCrypto.service.ts:732-871 | the two length words, one by division and one by a 32-bit shift, are the length in bits for every length a number can hold |
| Sha256.PaddedShape | src/core/crypto/streamingCrypto.service.ts:732-871 | the padded message is the message, 0x80, the fewest zero bytes that make whole blocks, and the eight length bytes (section 5.1.1 of FIPS 180-4) |
| Sha256.InitialWords | src/core/crypto/streamingCrypto.service.ts:732-871 | the initial words are the first 32 fractional bits of the square roots of the first eight primes (section 5.3.3 of FIPS 180-4) |
| Tokens.BalancesAddUp | contracts-stellar/src/lib.rs:2304-2426 | over every run of mint, burn and transfer all balances add up to mints minus burns |
| Tokens.RunKeeps | contracts-stellar/src/lib.rs:2637-2667 | in every reachable state each balance is the number of live tokens it stands for |
| Tokens.NeverSaturates | contracts-stellar/src/lib.rs:2644-2667 | where a token leaves its owner the saturating subtraction really subtracts |
| Tokens.SelfTransfer | contracts-stellar/src/lib.rs:2393-2426 | transferring a live token of one's own to oneself changes nothing and never reverts |
| Tokens.HasVaultToken | contracts-stellar/src/lib.rs:2453-2463 | a positive vault count means a live token of that vault, and the other way round |
| Tokens.MintLaw | contracts-stellar/src/lib.rs:2304-2351 | minting succeeds exactly for a guardian of an active vault while numbers and the receiver's balance have room; the token is new, bound to the vault and in the receiver's hands, and nothing else moves |
| Tokens.BurnLaw | contracts-stellar/src/lib.rs:2356-2391 | exactly the owner burns a token, and nothing else moves |
| Tokens.TransferLaw | contracts-stellar/src/lib.rs:2393-2426 | exactly the owner hands a token on, to a receiver with room or to itself, and nothing else moves |
| Tokens.OwnerWasGiven | contracts-stellar/src/lib.rs:2304-2426 | over every run whoever owns a token was the receiver of its mint or of a transfer by the owner before |
| Tokens.TokenWasMinted | contracts-stellar/src/lib.rs:2304-2351 | over every run each live token was minted for its vault by one of its guardians while it was active |
| Tokens.NumbersAreSpent | contracts-stellar/src/lib.rs:2304-2426 | a burned token's number never comes back |
| Tokens.TokenStorage.TransferToken | contracts-stellar/src/lib.rs:2393-2426 | the storage after a transfer is that of the transfer step, unchanged where it reverts |
| Emergency.RunKeeps | contracts-stellar/src/lib.rs:1828-1978 | in every reachable state emergency mode is on exactly when a schedule exists, the schedule belongs to the stored cycle, and the cycle is the number of enablings, until its counter is full |
| Emergency.EmergencyDelay | contracts-stellar/src/lib.rs:2169-2199 | while the owner is not dead, an emergency document is released only after confirmations, base delay, sequence delta and jitter since the enabling in force, in ledgers and in seconds |
| Emergency.PostDeathDelay | contracts-stellar/src/lib.rs:2169-2199 | over whole runs, post-mortem release waits for the inactivity period last configured, never under a day, after the moment the last proof of life stands for, and 256 ledgers after it was recorded; live documents are released only before |
| Emergency.ReleasedExactly | contracts-stellar/src/lib.rs:2169-2199 | in every reachable state each condition releases exactly when what happened says so: proofs of life, the configured period and the enabling in force; it panics exactly where the sums leave their width |
| Emergency.WhoActs | contracts-stellar/src/lib.rs:1583-1888 | only the creator switches, configures, proves in person, grants or withdraws; a keeper proves only under its unexpired grant, and a heartbeat only if newer than the last proof and at most five minutes ahead |
| Emergency.SwitchesExactly | contracts-stellar/src/lib.rs:1828-1888 | switching the mode fails only for others than the creator, on an inactive vault, or while a delay is pending |
| Emergency.SettingsExactly | contracts-stellar/src/lib.rs:1803-1915 | windows from five minutes to a week, inactivity periods from a day to 365 days, grants that end in the future, and each setting changes only itself |
| Emergency.DrawsExactly | contracts-stellar/src/lib.rs:1917-1978 | anyone draws the delay, once, three ledgers after the enabling; it is the random word modulo the window |
| Emergency.KeeperWasAuthorized | contracts-stellar/src/lib.rs:1612-1703 | over whole runs a keeper's proof of life completes only under the creator's latest grant, which names it, was not withdrawn and has not expired |
| Emergency.DrawnDelayStands | contracts-stellar/src/lib.rs:1917-1978 | a drawn delay changes only by switching the mode |
| Emergency.UnlockStorage.FulfillEmergencyUnlockDelay | contracts-stellar/src/lib.rs:1917-1978 | the storage of the vault is that of the fulfil step, no other vault changes |
| Emergency.UnlockStorage.SetEmergencyMode | contracts-stellar/src/lib.rs:1828-1888 | the storage of the vault is that of the mode step, no other vault changes |
| Emergency.UnlockStorage.RecordProofOfLife | contracts-stellar/src/lib.rs:1583-1610 | the storage of the vault is that of the proof of life, no other vault changes |
| Emergency.UnlockStorage.ProveLifeByKeeper | contracts-stellar/src/lib.rs:1671-1703 | the same for a keeper's proof |
| ApprovalRuns.StepSound | contracts-stellar/src/lib.rs:723-1532 | every entry point keeps: approvals are distinct guardians of the vault, flags equal approvals, levels sit exactly where access is granted, and whoever has access uploaded the document or has an approved request |
| ApprovalRuns.AccessNeedsQuorum | contracts-stellar/src/lib.rs:1011-1093 | over every run, whoever has access uploaded the document or has a request approved by at least the threshold of distinct guardians or by a threshold signature |
| ApprovalRuns.RunGrows | contracts-stellar/src/lib.rs:1011-1532 | between any two moments of a run no request disappears, loses an approval or, once approved, changes |
| ApprovalRuns.AccumulatorDecrypts | contracts-stellar/src/lib.rs:1413-1532 | over every run the stored accumulator of a request decrypts to the sum of the plaintexts submitted for it and the counter is the number of non-empty shares |
| ApprovalLaws.CreateVaultWhen | contracts-stellar/src/lib.rs:723-825 | a vault is created exactly for distinct guardians, one of them besides the creator, a threshold from 1 to the number of the others plus one, and counters with room |
| ApprovalLaws.CreateVaultLaw | contracts-stellar/src/lib.rs:723-825 | a new vault has its creator as only guardian, and everyone else listed gets one open invitation for seven days after those they had |
| ApprovalLaws.AcceptInviteLaw | contracts-stellar/src/lib.rs:827-866 | exactly those outside an active vault whose first open invitation to it has not expired join; the invitation is used up |
| ApprovalLaws.AddDocumentLaw | contracts-stellar/src/lib.rs:869-940 | a guardian of an active vault adds a new document and is the only one with access to it |
| ApprovalLaws.RequestAccessLaw | contracts-stellar/src/lib.rs:943-1008 | anyone without access may ask for a released document of an active vault; the request is new, pending, without approvals and stands for three days |
| ApprovalLaws.ApproveLaw | contracts-stellar/src/lib.rs:1011-1093 | exactly a guardian not yet on record approves a pending unexpired request; the grant happens exactly when the threshold is reached |
| ApprovalLaws.ApproveThresholdLaw | contracts-stellar/src/lib.rs:1118-1198 | a verified threshold signature decides a pending unexpired request at once |
| ApprovalLaws.ApproveBlsLaw | contracts-stellar/src/lib.rs:1253-1368 | a valid aggregate of at least the threshold of listed guardians with registered keys, none of them the requester, adds each one not yet on record once |
| ApprovalLaws.ApproveFheLaw | contracts-stellar/src/lib.rs:1413-1532 | the same as a plain approval for a share that fits the accumulator, and never by the requester |
| ApprovalLaws.DeactivateLaw | contracts-stellar/src/lib.rs:2014-2029 | exactly the creator deactivates an active vault, and nothing else moves |
| ApprovalLaws.RevokeLaw | contracts-stellar/src/lib.rs:2031-2054 | a revocation by any guardian of the vault takes access and level away and moves the version of vault and user on by one, leaving every other key alone; it fails exactly for others, unknown documents and full versions |
| ApprovalLaws.RelayRevokeLaw | contracts-stellar/src/lib.rs:2104-2163 | the same for an authentic broadcast for the linked vault |
| AccessHistory.AccessAfterRevocation | contracts-stellar/src/lib.rs:943-2163 | over every run, whoever has access to a document after a completed revocation of it had a request for it decided after that revocation |
| AccessHistory.AccessLasts | contracts-stellar/src/lib.rs:943-2163 | over every run, access once held lasts until a completed revocation that names document and user |
| AccessHistory.DeactivationIsFinal | contracts-stellar/src/lib.rs:2014-2029 | from a deactivation on a vault keeps its guardians and stays inactive, no document joins it, and no request for its documents is made, approved or changed |
| AccessHistory.ApprovalWasGiven | contracts-stellar/src/lib.rs:1011-1532 | over every run each approval on record was given by a completed call that speaks for that guardian, a guardian of the vault then, on a pending unexpired request |
| AccessHistory.KeyWasProved | contracts-stellar/src/lib.rs:1204-1236 | over every run each registered key was registered by its guardian with a proof of possession |
| AccessHistory.GuardianWasInvited | contracts-stellar/src/lib.rs:723-866 | over every run each guardian besides the creator was listed when the vault was created and accepted within seven days |
| CrossChain.PayloadBinds | contracts-stellar/src/lib.rs:2554-2599 | the signed payload determines vault, document, both users and nonce: a signature is good for one broadcast only |
| CrossChain.RelayWhen | contracts-stellar/src/lib.rs:2104-2163 | a broadcast takes effect exactly if its global id is linked to the document's vault, its nonce is above the last one for its subject and the linked revoker signed it |
| CrossChain.NoReplay | contracts-stellar/src/lib.rs:2104-2163 | over every run of two completed broadcasts on one subject the later has the larger nonce, so none takes effect twice |
| CrossChain.RelayWasAuthorized | contracts-stellar/src/lib.rs:2056-2163 | over every run a broadcast that took effect was signed, over its contents, by a revoker the vault's creator had linked |
| CrossChain.RelayedRevocationHolds | contracts-stellar/src/lib.rs:2104-2163 | over every run, after a broadcast took effect its user has access to the document only by a later decision |
| ApprovalStorage.VaultStorage.CreateVault | contracts-stellar/src/lib.rs:723-825 | the storage is that of the creation step: distinct guardians, threshold bounds, invitations to everyone but the creator |
| ApprovalStorage.VaultStorage.ApproveAccess | contracts-stellar/src/lib.rs:1011-1093 | the storage is that of the approval step, unchanged where it reverts |
| ApprovalStorage.VaultStorage.ApproveAccessBls | contracts-stellar/src/lib.rs:1253-1368 | the loop over the listed guardians leaves the storage of the step that endorses each not yet on record |
| ApprovalStorage.VaultStorage.ApproveAccessFhe | contracts-stellar/src/lib.rs:1413-1532 | share, accumulator, counter, flag and grant are those of the step |
| ApprovalStorage.VaultStorage.RevokeAccess | contracts-stellar/src/lib.rs:2031-2054 | the storage is that of the revocation step, whose law is above, unchanged where it reverts |
| ApprovalStorage.VaultStorage.RelayRevokeAccess | contracts-stellar/src/lib.rs:2104-2163 | storage, links and nonces are those of the relay step, unchanged where it reverts |
| ReleaseRuns.RequestWasMade | contracts-stellar/src/lib.rs:943-1008 | over every run of requests and unlocks together, each stored request was made by a call at a moment when its document's release condition held |
| ReleaseRuns.EmergencyAccessWaits | contracts-stellar/src/lib.rs:943-1093 | whoever has access to an emergency-only document uploaded it, or a request of theirs was approved by a quorum or threshold signature and had been made when the owner counted as dead or after the full emergency delay |

## Left out

- Reconstruct.ReconstructSecret: primality of Q is a hypothesis here, as are IsPrime(FHE_PRIME), IsPrime(P), IsPrime(2^127 - 1) and the safe-prime pair in Vss, Refresh, Fhe, Fp, Fq2 and ShamirField; the numbers are too large for the verifier to factor. A share list that starts with a legacy share is reported as Legacy: the GF(256) tables of secrets.service.ts:18-80 are not part of this model.
- Reconstruct.InterpolateAtZero: assumes Q is prime, as above.
- Vss.BigIntDecimal: BigInt also accepts surrounding white space, a sign and a 0x, 0o or 0b prefix; a point written that way counts as unreadable here.
- Text.Parse: reads plain digit strings; white space inside BigInt("0x" + text) is not modelled.
- Refresh.UpdateShare: only shares with a two-character hexadecimal length and a value below Q are described; white space or a sign in front of a point, which parseInt skips, is not modelled.
- Vss.SplitSecretVSS: the random bytes are parameters, without rejection sampling or statements about their distribution; n and k are integers.
- Vdf.ProvePietrzak: requires T below 2^31, where the source's 32-bit T & (T - 1) is the bitwise and of numbers; from 2^31 on the operator works on the truncated number.
- Vdf.VerifyPietrzak: requires T below 2^31 for the same reason.
- Vdf.WesolowskiRoot: that such roots are hard to find is an assumption outside the model; the challenge hash is an arbitrary function.
- Fhe.KeyGen: the modulus is the fixed FHE_PRIME, not an argument; the random elements are arguments.
- Fp.FromBeBytes: requires a value below 2p, because the source's loop does not end above (Fp.SubModulus states why).
- Fp.Mul: limbs and 128-bit products are value sequences with explicit carries, not fixed-size arrays updated in place.
- Fq12.Mul12: curve points, line functions, Miller loop, pairing and proof verification above it are not part of this model.
- Decimal.FromStrRadix: the unsigned 256-bit type only; the signed instance, the upper-case hexadecimal digits and the padding of the formatter are left out.
- RelayRuns.RunAccounts: job objects are values, the clock is read once per pump, a handler that throws synchronously and a corrupt journal are left out, and a failed write is one event choice per call.
- RelayRuns.DurableRelayQueue.PumpStart: timers and stop are left out.
- Listener.ExactlyOnce: an id counts as seen before the consumer is called, so an event whose consumer throws was handed over once and is not offered again; the Soroban source's own polling and a restart of a listener are left out.
- Streaming.DecryptEncrypted: AES-GCM is a parameter whose only property is that opening undoes sealing; each arriving piece owns its buffer; encoder chunk sizes are 1 to 16 MiB; progress callbacks and memory statistics are left out.
- Sha256.Sha256.DigestHex: the compression function is a parameter.
- Tokens.BalancesAddUp: authorization of the caller, time-to-live bumps and events are left out.
- Emergency.EmergencyDelay: the random word is an arbitrary 64-bit number; that a cross-chain heartbeat comes from the bound relayer and is signed by the bound owner is a boolean chosen by the environment.
- ApprovalRuns.AccessNeedsQuorum: signature checks (threshold, BLS) are booleans chosen by the environment; the source ties the keys of a threshold signature to no vault, so that way to access bounds nothing about guardians. Storage hashes and encrypted metadata are abstract, and the registry callback and contract upgrades are left out.
- CrossChain.PayloadBinds: address encoding and signature recovery are functions of the host, and the message hashes are part of the latter; integers and byte strings are taken at the contract's widths.
- ApprovalStorage.VaultStorage.ApproveAccessFhe: requires that the stored accumulator and the share consist of bytes, which the source's Bytes type guarantees.
- ShamirField.CombineShares: shares with equal points give some number without an error, and nothing is said about it.
- ReleaseRuns.EmergencyAccessWaits: a document added without a stored condition counts as released at any time, as in the source; the emergency machine's deactivation happens only together with the vault's.
- The passphrase encryption, cross-chain identity, key registry, admin and upgrade entry points, zero-knowledge access proofs and the EVM contracts are left out: they add booleans and maps but no harder property.
