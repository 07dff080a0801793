# Proofs about an offline wallet's keys and wires

This project models, in Dafny, the parts of the wallet where a mistake would be silent: the Bulletproof+ range proof
and its verifier, the CLSAG ring signature, the assembly of a Monero transaction from a set of unsigned inputs, the
fountain-coded QR wire with its peeling decoder, and the codecs and checksums around them. What is proved is functional:
an honest proof verifies, a signed transaction balances and can be found and spent by whoever it was sent to, a decoder
never holds anything but what was sent and has all of it once enough frames were seen, a checksum notices every small
change at every length, decoding undoes encoding and encoding undoes decoding; and an accepted proof or signature is bound to what it is about.
Nothing is claimed about cryptographic soundness, zero knowledge or unforgeability.

`dafny verify dfyconfig.toml` checks everything.

## How things are modelled

**Group and hash.** A curve point is a pair of residues, one modulo the prime order L and one modulo the cofactor 8, so
torsion is visible. L is any prime above 2^64. `H`, the `Gi` and `Hi` and the points `hash_to_ec` yields are arbitrary
torsion-free points and every hash is an arbitrary function, so each theorem holds for the repository's own choices.
Fermat's theorem, which the repository's inverse loop rests on, is proved from the binomial theorem (`Primes`), and
`Curve.SomeGroup` shows that the assumptions on the group can be met.

**Methods and their specifications.** Where the source updates variables, arrays or fields, the model is a method or a
class with loops, in the source's order and with its early exits, proved against a closed form; the theorems are then
about the closed form. The verifier of range proofs is proved equal to one predicate, `BulletproofPlusSpec.Accepts`, whose
coefficients are written out as sums and products; the prover is proved to satisfy it.

**Binding.** That a verifier refuses is stated in two ways. What no hash protects is refused outright: another d1 is another
verdict (`BulletproofPlusBinding.ResponseIsBound`). What a hash protects is refused for some hash: if a proof or a signature is
accepted, the group that differs in its hash alone, answering this verifier's own questions as before and zero to all others,
still accepts it, and accepts nothing with another message, ring, commitment or transcript (`ClsagBinding.SignatureIsBound`,
`BulletproofPlusBinding.CommitmentsAreBound`, `LegacySignature.SignatureIsBound`). `MoneroCrypto.ScalarsAreFree` and its like say
the same of single hashes: two that differ in anything hashed can be any two values.

**Errors.** Exceptions and null results are values of `Result`, `Option` or `Outcome`. For each refusal the contracts say
when it fires, and for the refusals that guard the code's own work, that they never do.

**Randomness and zeros.** Draws are a sequence handed in, as in the source. A scalar that comes out zero makes the source
throw, because `multiply` refuses it. Which scalars those are is fixed by the inputs, so it is stated as a predicate on them
and not on the outcome: `BulletproofPlusHonest.NoZero` on the range proof's run in closed form, `Clsag.SignerIsClear` and
`Clsag.SignatureIsClear` on a ring signature's, `MoneroSpend.NothingIsZero` on a whole spend. Each method succeeds if and only
if its predicate holds.

**Ghost sources.** `UrCollecting.UrCollector.Offer` and `Envelope.Collector.Offer` take a ghost argument that may name the
message a frame comes from. Without one, the frame is arbitrary; with one, the contract says more.

The files come in four groups.

1. `Sums`, `Primes`, `Scalars`, `Curve`, `InnerProduct` and the `BulletproofPlus*` files: the range proof.
2. `Clsag`, `ClsagBinding`, `LegacySignature`, `Bytes`, `Orders` and the `Monero*` files: signatures and the assembly of a spend. `MoneroSpend`
   ends in one theorem about `signMoneroSpend`, `MoneroRecovery` in what the recipient can do with the result.
3. `Alias`, `Fountain`, `Pieces`, `UrEncoder`, `Peeling`, `UrCollector`: the fountain code.
4. `Utf8`, `Bits`, `Crc`, `Base32`, `Envelope`, `Descriptor`, `FinalScriptSig`, `SeedPhrase`, `Radix`, `Base58`, `Base43`, `Cbor`:
   codecs and checksums.

## Where the code and its words differ

- `sumOfScalarPowers` (src/keys/bulletproofplus.ts:163-178) is described as the sum from the zeroth power; the code
  returns x + ... + x^n, which is what its one use needs, and x for n = 0. The model follows the code.
- An honest CLSAG is not always accepted. The signer never multiplies by the response or the challenge at the real
  index, the verifier does, and `multiply` rejects zero. `Clsag.ClsagSign` states the exact condition and
  `Clsag.HonestSignatureRefused` exhibits a refused signature. Its hash is constantly one, which the code's is not: it shows that
  the condition cannot be dropped for an arbitrary hash, not that a wallet gets there. The same holds of the ring of one.
- `chooseDegree` (src/airgap/fountain.ts:126-128) is said to make degree 1 as likely as all other degrees together. It never
  is (`Fountain.DegreeOneIsNeverHalf`): more likely up to three fragments, less likely from four on.
- The payment id is encrypted under the secret shared with the main transaction key (src/keys/monerobuild.ts:439-453). A subaddress
  that is paid together with change has an additional key and shares another secret with the main one, so it cannot read the
  zeros meant for it. `MoneroRecovery.IdIsReadable` says exactly when the secret is the shared one.
- `UrEncoder` counts frames in 32 bits; after 2^32 frames of a message of several fragments the call throws.
- The encoder sets no ceiling on size or fragment count and the reader does; `UrCollecting.ReadableExactly` says when they meet,
  `UrCollecting.PassesExactly` when a message cut some other way would.
- `withEmptyFinalScriptSig` (src/keys/finalscriptsig.ts:145-147) relies on output maps never holding the keys 0x07 and 0x08. The
  code does not check; `FinalScriptSig.RewrittenMaps` says what it does to every map, output maps included.
- Three words of a seed phrase can write numbers past 32 bits (`SeedPhrase.SomeTriplesOverflow`), so the reader's last refusal
  is needed even when the checksum word matches.

## Model

| member | source | states |
|---|---|---|
| BulletproofPlusComplete.ProveBulletproofPlus | src/keys/bulletproofplus.ts:431-650 | Completeness: for 1 to 16 amounts below 2^64 and any masks, whatever is returned satisfies the verifier's closed-form equation over 8·V, where 8·V[i] is masks[i]·G + amounts[i]·H, padding included; each bad argument gets its own refusal, and past those it succeeds if and only if no draw and no challenge of the honest run is zero, and then every point and response is that run's |
| BulletproofPlusComplete.EndsWhenClear | src/keys/bulletproofplus.ts:451-649 | Followed round by round, the run ends with a proof exactly when no draw, y, z, round challenge or last challenge is zero |
| BulletproofPlusComplete.TracksNext | src/keys/bulletproofplus.ts:552-608 | A pass of the loop adds the points and the challenge the closed form has next, and stops exactly at a zero one |
| BulletproofPlusHonest.IsEighth | src/keys/bulletproofplus.ts:459-464 | Eight times a point fixes it within the prime-order subgroup |
| BulletproofPlusHonest.IsFolded | src/keys/bulletproofplus.ts:586-604 | The folding law, with everything reduced, leaves one possible next vector |
| BulletproofPlusHonest.IsStart | src/keys/bulletproofplus.ts:507-541 | So do the equations of the starting vectors |
| BulletproofPlusVerifier.VerifyBulletproofPlus | src/keys/bulletproofplus.ts:217-372 | True exactly for proofs of the right shape with no zero challenge whose multiscalar sum, with every coefficient in closed form, is the identity; false for everything malformed. What it refuses is in the rows that follow |
| BulletproofPlusBinding.ResponseIsBound | src/keys/bulletproofplus.ts:282-368 | Rejection: from one accepted proof, the same proof with another d1 is accepted if and only if the two are congruent modulo L |
| BulletproofPlusBinding.CommitmentsAreBound | src/keys/bulletproofplus.ts:240-249 | For other torsion-free commitments, or another A, some hash under which the proof is still accepted makes the verifier refuse every proof over them |
| BulletproofPlusBinding.PointsAreBound | src/keys/bulletproofplus.ts:260-268 | Unless a challenge repeats, a hash that answers this proof's questions only accepts no proof with another L, R, A1 or B |
| BulletproofPlusBinding.QuestionIsOwn | src/keys/bulletproofplus.ts:260-268 | Under that hash a round is answered with something other than zero only when it is the proof's own |
| BulletproofPlusBinding.SameVerdict | src/keys/bulletproofplus.ts:217-372 | The verdict depends on the hash through the proof's own questions alone |
| BulletproofPlusBinding.ZFollowsY | src/keys/bulletproofplus.ts:245-249 | Two values of y can lead to any two values of z |
| BulletproofPlusBinding.YFollowsDomain | src/keys/bulletproofplus.ts:240-243 | y depends on where the transcript starts |
| BulletproofPlusVerifier.EvaluateEquation | src/keys/bulletproofplus.ts:270-368 | The point tested against the identity is the total of the closed-form terms |
| BulletproofPlusVerifier.ReplayRounds | src/keys/bulletproofplus.ts:260-266 | The challenges are the transcript's, round by round, and the loop stops exactly when one of them is zero |
| BulletproofPlusVerifier.GeneratorScalars | src/keys/bulletproofplus.ts:329-346 | Every Gi and Hi coefficient, filled in place, is congruent to its closed form in the challenge products, the window and powers of the inverse of y |
| BulletproofPlusVerifier.HCoefficient | src/keys/bulletproofplus.ts:308-315 | The H coefficient is congruent to its closed form; this is where the sum must start at y and not at 1 |
| BulletproofPlusVerifier.CommitmentPart | src/keys/bulletproofplus.ts:284-289 | Commitment j carries -e²·z^(2(j+1))·y^(MN+1) |
| BulletproofPlusVerifier.RoundPart | src/keys/bulletproofplus.ts:348-352 | The cross terms carry the squared challenges and the squared inverses times -e² |
| BulletproofPlusVerifier.PadLogOf | src/keys/bulletproofplus.ts:252-257 | The number of doublings that pads the commitments to a power of two |
| BulletproofPlusTables.ChallengeProducts | src/keys/bulletproofplus.ts:317-327 | The table grown in place holds at i the product, over the rounds, of the challenge or its inverse as the bits of i say, first round on the top bit |
| BulletproofPlusTables.GrowRow | src/keys/bulletproofplus.ts:321-327 | One downward pass turns row j into row j + 1 without reading an entry it has overwritten |
| BulletproofPlusTables.SumOfScalarPowers | src/keys/bulletproofplus.ts:164-178 | x + x² + ... + x^n for n of at least 1, on both branches, and x for n = 0 |
| BulletproofPlusTables.SumOfEvenPowers | src/keys/bulletproofplus.ts:181-187 | x² + x⁴ + ... + x^n for n a power of two |
| BulletproofPlusTables.TwoTo64MinusOne | src/keys/bulletproofplus.ts:190-194 | The squaring loop yields 2^64 - 1 |
| BulletproofPlusTables.PowerByDoubling | src/keys/bulletproofplus.ts:277-279 | The squaring loop yields y^MN |
| BulletproofPlusTables.WindowByAddition | src/keys/bulletproofplus.ts:302-306 | The verifier's d holds z^(2(j+1))·2^i at 64j + i |
| BulletproofPlusTables.WindowByMultiplication | src/keys/bulletproofplus.ts:507-511 | So does the prover's, which doubles another way |
| BulletproofPlusTables.WindowTotal | src/keys/bulletproofplus.ts:302-309 | The window adds up to (2^64 - 1)·(z² + z⁴ + ... + z^(2M)), which is what sumD stands for |
| InnerProduct.FoldRound | src/keys/bulletproofplus.ts:542-604 | Conservation: folding the four vectors by c changes what they commit to by exactly c²·L + c⁻²·R |
| BulletproofPlusAlgebra.Conserve | src/keys/bulletproofplus.ts:552-608 | The same over all rounds so far, with the blinds: the vectors open the first commitment plus the sum of c²·8L + c⁻²·8R |
| BulletproofPlusAlgebra.GeneratorsFold | src/keys/bulletproofplus.ts:586-594 | A round keeps the folded generators equal to the original ones weighted by challenge products and powers of y⁻¹ |
| BulletproofPlusProver.RoundKeeps | src/keys/bulletproofplus.ts:553-608 | Conservation and the closed form of the generators survive a pass of the halving loop |
| BulletproofPlusProver.ProveRound | src/keys/bulletproofplus.ts:553-608 | One pass in code: the challenge is the hash of the transcript and the two cross points, and unless it is zero the loop's invariant holds again at half the length |
| BulletproofPlusProver.CrossPoint | src/keys/bulletproofplus.ts:566-577 | Eight times a cross point is the two half-sums over the opposite generators, the inner product on H and the blind on G |
| BulletproofPlusProver.EighthTotal | src/keys/bulletproofplus.ts:562-577 | A sum carried at 8⁻¹ lands where the equation wants it once multiplied by 8 |
| BulletproofPlusProver.WeightedInnerProduct | src/keys/bulletproofplus.ts:541-550 | The sum of a[i]·b[i]·y^(i+1) |
| BulletproofPlusComplete.ProveRounds | src/keys/bulletproofplus.ts:552-608 | The halving loop ends at length one with the accumulated commitment opened, the challenges all nonzero and exactly 2·(logM + 6) draws used |
| BulletproofPlusComplete.BppRandomCount | src/keys/bulletproofplus.ts:399-403 | The draws the prover asks for: one, two a round, four at the end |
| BulletproofPlusComplete.BitVectors | src/keys/bulletproofplus.ts:467-485 | aL holds the bits of the padded amounts, aR one less, and both copies the same at 8⁻¹ |
| BulletproofPlusComplete.StartB | src/keys/bulletproofplus.ts:520 | The starting vector is aR + z + d times the reversed powers of y |
| BulletproofPlusComplete.LastCommitments | src/keys/bulletproofplus.ts:616-626 | What A1 and B commit to, in terms of the folded generators |
| BulletproofPlusComplete.TranscriptMatches | src/keys/bulletproofplus.ts:217-268 | The verifier, replaying an honest proof, derives the prover's own challenges and points |
| BulletproofPlusComplete.HonestProofAccepted | src/keys/bulletproofplus.ts:610-649 | From the prover's last state to acceptance |
| BulletproofPlusOpening.OpeningCommitment | src/keys/bulletproofplus.ts:487-528 | What the argument starts from is 8A, the commitments weighted by y^(n+1)·z^(2(j+1)), and what z, y and the window put on the generators and on H |
| BulletproofPlusOpening.BitAlgebra | src/keys/bulletproofplus.ts:467-485 | For a bit, the weighted product is linear in the bit; this is aL∘aR = 0 and aR = aL - 1 |
| BulletproofPlusOpening.WindowBitsTotal | src/keys/bulletproofplus.ts:467-511 | The windowed bits add up to the amounts weighted by powers of z² |
| BulletproofPlusClosing.LastRoundIdentity | src/keys/bulletproofplus.ts:610-635 | (ae + r)·y·(be + s) spread over the three commitments of the last round |
| BulletproofPlusClosing.EquationTotal | src/keys/bulletproofplus.ts:282-368 | The verifier's terms, added up section by section |
| BulletproofPlusClosing.EquationVanishes | src/keys/bulletproofplus.ts:282-368 | Completeness as algebra: if the last round opens the accumulated commitment, the multiscalar sum is zero |
| Scalars.Inv | src/keys/bulletproofplus.ts:74-85 | Square and multiply computes a^(L-2), and that inverts every scalar that is not zero |
| Primes.FermatInverse | src/keys/bulletproofplus.ts:74-85 | Fermat's theorem, from the binomial theorem |
| Curve.MultiscalarSum | src/keys/bulletproofplus.ts:379-387 | Skipping zero scalars changes nothing: the total of all terms |
| Curve.SomeGroup | src/keys/bulletproofplus.ts:91-92 | A group and a modulus as assumed throughout exist |
| Clsag.ClsagVerify | src/keys/monerosign.ts:326-378 | True exactly when everything decodes, nothing multiplied by is zero and the walk from c1 around the ring comes back to c1 |
| ClsagBinding.SignatureIsBound | src/keys/monerosign.ts:326-378 | If a signature is accepted, a hash that answers its own questions only still accepts it, and accepts nothing with another message, ring key, ring commitment, pseudo-output, key image or D |
| ClsagBinding.LastResponseIsBound | src/keys/monerosign.ts:362-372 | There, unless a challenge repeats the first, another last response is accepted if and only if it is the same scalar; the closing comparison decides |
| ClsagBinding.RoundsAreFree | src/keys/monerosign.ts:358-360 | Rounds that differ in message, ring, pseudo-output, L or R can have any two challenges |
| ClsagBinding.AggregatesAreFree | src/keys/monerosign.ts:350-355 | So can aggregation hashes that differ in domain, ring, key image, D or pseudo-output |
| ClsagBinding.CoefficientsAreFree | src/keys/monerosign.ts:354-356 | The coefficients of the key and of the commitment are independent |
| Clsag.ClsagSign | src/keys/monerosign.ts:192-311 | For every ring size, real index and nonces, an owner's signature is accepted if and only if neither the closing response nor the challenge at the real index is zero; the signature is determined, c1 and every response included, each decoy's response being its own draw; every refusal and when it fires, a zero exactly when a secret, nonce, aggregation hash, challenge or decoy response is zero |
| Clsag.SignWalk | src/keys/monerosign.ts:282-298 | The walk from past the real index, wrapped, links every member to the next, or stops at a zero |
| Clsag.WalkOfClosed | src/keys/monerosign.ts:362-372 | A ring closed from the real index visits the same challenges when walked from index 0, and returns |
| Clsag.RealMember | src/keys/monerosign.ts:300-303 | The closing response turns the real member's L and R into the nonce's own commitments |
| Clsag.SignatureFacts | src/keys/monerosign.ts:260-311 | What the signer hashed is what the verifier hashes, and what it then decides |
| Clsag.HonestSignatureRefused | src/keys/monerosign.ts:300-311 | A concrete owner, nonce and hash whose honest signature the verifier refuses |
| LegacySignature.GenerateSignature | src/keys/monerosign.ts:426-453 | Returned signatures are canonical, nonzero and accepted under the secret's own key; refused exactly for a zero nonce, a zero challenge, or a nonce equal to challenge times secret |
| LegacySignature.CheckSignature | src/keys/monerosign.ts:510-546 | True exactly when canonical, nonzero, decodable and the challenge is reproduced |
| LegacySignature.SignatureIsBound | src/keys/monerosign.ts:510-546 | With a hash that answers only its own question, an accepted signature is the only one, for one message and one key |
| LegacySignature.GenerateRingSignatureOfOne | src/keys/monerosign.ts:580-603 | Over a key and its own image, accepted if and only if neither half came out zero |
| LegacySignature.CheckRingSignatureOfOne | src/keys/monerosign.ts:654-689 | True exactly when both commitments reproduce the challenge |
| LegacySignature.RingOfOneIsBound | src/keys/monerosign.ts:654-689 | So is a ring of one for its key image and challenge and, over its key, its response |
| LegacySignature.Closes | src/keys/monerosign.ts:426-453 | The response cancels the secret over any torsion-free base |
| MoneroSpend.SignMoneroSpend | src/keys/monerobuild.ts:306-600 | Wrong network, wrong draw count and imbalance are refused exactly then; a result used every draw, is determined by the set, the wallet and the draws, pays what was asked to whom it was asked, says in its prefix what was built, carries a payment id and additional keys exactly where the set calls for them, and passes the money equation, the range proof and one ring signature per input; the refusals that guard its own work never fire, and from a set the caller can check it succeeds if and only if none of the scalars named by `NothingIsZero`, a predicate on the inputs, is zero |
| MoneroSpend.StepsTell | src/keys/monerobuild.ts:369-594 | The zeros each step stops at are together the zeros that stop the spend |
| MoneroSpend.Assemble | src/keys/monerobuild.ts:496-594 | From proved inputs and built outputs to a transaction that verifies; with sorted rings, exactly when the range proof and every ring signature meet no zero |
| MoneroSpend.MakeOutputs | src/keys/monerobuild.ts:369-458 | The outputs built are a rearrangement of those requested, each addressed under the secret its destination's kind calls for; a zero refusal means that a named scalar is zero |
| MoneroSpend.BuiltIs | src/keys/monerobuild.ts:402-458 | Outputs and extra field are determined by the set, the order and the draws |
| MoneroSpend.SpendGives | src/keys/monerobuild.ts:369-600 | Put together, the parts determine the transaction |
| MoneroExtra.EncryptedIsDue | src/keys/monerobuild.ts:444-453 | From outputs and addresses alone: an encrypted id is there exactly when one output is neither change nor dummy and is integrated or one of at most two; it is eight bytes, that address's id or zeros, under the secret shared with that address's view key |
| MoneroExtra.AdditionalIsDue | src/keys/monerobuild.ts:360-364 | Additional keys, one an output, exactly when some output of several goes to a subaddress |
| MoneroExtra.PlanRefuses | src/keys/monerobuild.ts:444-450 | Refused exactly when an integrated address is paid and another output is neither change nor dummy |
| MoneroExtra.EncryptId | src/keys/monerobuild.ts:444-453 | The plan carried out; why each refusal can happen |
| MoneroRecovery.EveryPaymentIsFound | src/keys/monerobuild.ts:358-553 | From the set and the published transaction alone: up to the order of positions every output asked for is there, and whoever holds its address finds it, key, view tag, amount and commitment, with the key published for it |
| MoneroRecovery.FoundIsOpened | src/keys/monerocrypto.ts:349-375 | And whoever opens the address's spend key opens the output |
| MoneroRecovery.IdIsReadable | src/keys/monerobuild.ts:439-453 | The recipient shares the id's secret with the main key exactly when its address is no subaddress, or its output the only one, or its spend key G |
| MoneroRecovery.IdIsRead | src/keys/monerobuild.ts:444-458 | And then reads its id, or zeros if it has none |
| MoneroSpend.BuiltAreSent | src/keys/monerobuild.ts:402-437 | From positions in the shuffled order to what each output says about itself |
| MoneroRecovery.RecipientRecovers | src/keys/monerobuild.ts:358-437 | For every mix of standard, integrated and subaddress destinations, the recipient's view secret applied to the key published for that position finds its own spend key, the view tag, the exact amount and a commitment that rebuilds |
| MoneroRecovery.RecoveredIsSpendable | src/keys/monerobuild.ts:468-494 | And listed as an input, the output passes every check the recipient's own signer makes |
| MoneroRecovery.PaymentIdRecovered | src/keys/monerobuild.ts:444-458 | The sole recipient of an integrated address reads its payment id back |
| MoneroRecovery.SameDerivation | src/keys/monerocrypto.ts:281-287 | Sender and recipient hold one shared secret, whatever base the address and the published key are multiples of |
| MoneroRecovery.PublishedIsMultiple | src/keys/monerobuild.ts:376-416 | Main or additional, the published key of an output is its secret times its destination's base |
| MoneroInputs.ProveInput | src/keys/monerobuild.ts:469-494 | An input that passes has the one-time secret and mask difference that CLSAG needs; one that is the wallet's own is refused only when its view secret, shared scalar or one-time secret is zero |
| MoneroBuild.CommitInputs | src/keys/monerobuild.ts:500-520 | The pseudo-outputs sum to the output commitments plus fee·H, so the check on the curve never refuses |
| MoneroBuild.ProveRange | src/keys/monerobuild.ts:523-531 | The range proof over the published commitments is accepted and the self-check never refuses; it is made exactly when no draw and no challenge of its run is zero |
| MoneroBuild.SignInput | src/keys/monerobuild.ts:556-574 | An input's ring signature is accepted under its pseudo-output and carries its key image; made and accepted exactly when the ring decodes and nothing multiplied by in signing or checking is zero |
| MoneroBuild.SignInputs | src/keys/monerobuild.ts:554-575 | One accepted signature per input, ringSize + 1 draws each; all are made exactly when each input's own draws meet no zero, and each is the one those draws determine |
| MoneroBuild.NoncesAreOwn | src/keys/monerobuild.ts:556-560 | The nonces of an input are its own draws, and no draw is a nonce twice |
| MoneroBuild.MaskDifference | src/keys/monerobuild.ts:556-565 | z = inputMask - pseudoMask is what separates the two commitments, times G |
| MoneroBuild.AbsoluteToRelative | src/keys/monerowire.ts:94-103 | Refuses exactly the indexes that do not ascend, and the offsets add back up to the indexes |
| MoneroBuild.PrefixInputs | src/keys/monerobuild.ts:534-543 | Every wire input is its source's offsets and key image; refused only when some ring is unsorted |
| MoneroBuild.BalanceSurvives | src/keys/monerobuild.ts:321-326 | Shuffling outputs and sorting inputs leaves the integer balance |
| MoneroBalance.PseudoMasks | src/keys/monerobuild.ts:500-508 | The masks are the draws and one last mask that closes the sum |
| MoneroBalance.BalanceOnCurve | src/keys/monerobuild.ts:510-520 | Integers that balance and masks that close make both sides of the money equation the same point |
| MoneroBalance.CurveSeesTheIntegers | src/keys/monerobuild.ts:510-520 | With the masks closed, the check on the curve passes if and only if the integers balance modulo L |
| MoneroOutputs.ParseDestinations | src/keys/monerobuild.ts:340-356 | Every address is read and is of the set's network, or the refusal says which fails |
| MoneroOutputs.BuildOutput | src/keys/monerobuild.ts:425-436 | One output: its one-time key, view tag, encrypted amount and commitment all come from one derivation |
| MoneroOutputs.BuildOutputs | src/keys/monerobuild.ts:402-437 | All of them, in the shuffled order, with their published keys; a zero refusal exactly when one of the scalars they multiply by is zero |
| MoneroOutputs.IntegratedGetsItsId | src/keys/monerobuild.ts:444-453 | A payment id is refused exactly when its destination is not the only one besides change, and otherwise goes to that one |
| MoneroSet.ShuffledIndices | src/keys/monerobuild.ts:278-295 | Always a permutation, and the one that swapping each position with the first acceptable byte of the Keccak stream gives |
| MoneroSet.OneFirst | src/keys/monerobuild.ts:288-291 | There is one first acceptable byte, so the order is determined by the seed |
| MoneroSet.EveryOrderComesUp | src/keys/monerobuild.ts:278-295 | Nothing but the seed fixes the order: any two orders of two different seeds come of some Keccak, up to 33 outputs |
| MoneroSet.Draw | src/keys/monerobuild.ts:288-291 | Rejection sampling takes the first byte of the stream below the bound, modulo n |
| MoneroSet.DrawIsUniform | src/keys/monerobuild.ts:288-291 | Every remainder comes from equally many of the bytes let through |
| MoneroSet.NextByte | src/keys/monerobuild.ts:280-285 | The pool yields the chained Keccak stream byte by byte |
| MoneroSet.CompareBytes | src/keys/monerobuild.ts:270-275 | Byte order is the order of the big-endian numbers |
| MoneroSet.SortInputs | src/keys/monerobuild.ts:497 | The same inputs, key images descending, those with one key image in the order they came in |
| MoneroSet.InsertedAt | src/keys/monerobuild.ts:497 | Inserting behind every key image that is not smaller is what a stable sort does |
| MoneroCrypto.AmountRoundTrip | src/keys/monerobuild.ts:261-267 | Decrypting an encrypted amount gives the amount |
| MoneroCrypto.EncryptAmount | src/keys/monerobuild.ts:261-267 | The eight little-endian bytes under the shared mask |
| MoneroCrypto.DecryptAmount | wallet/src/core/moneroscan.ts:537-546 | The recipient's loop, highest byte first, computes the number those bytes write |
| MoneroCrypto.EncryptPaymentId | src/keys/monerocrypto.ts:483-493 | Refuses any length but 8 and an underivable key; otherwise the id under the pad |
| MoneroCrypto.PaymentIdRoundTrip | src/keys/monerocrypto.ts:483-493 | The same pad a second time gives the id back |
| MoneroCrypto.SharedSecret | src/keys/monerocrypto.ts:281-287 | 8·a·(r·P) = 8·r·(a·P) for any point, torsion and all |
| MoneroCrypto.DerivedPair | src/keys/monerocrypto.ts:349-375 | The derived secret key opens the derived public key |
| MoneroCrypto.DerivedUndone | src/keys/monerocrypto.ts:349-470 | deriveSubaddressPublicKey takes back exactly what derivePublicKey added |
| MoneroCrypto.ScalarsAreFree | src/keys/monerocrypto.ts:311-407 | Shared scalars, subaddress scalars and commitment masks that differ in kind, derivation, index, view secret or shared scalar can be any two scalars |
| MoneroCrypto.BytesAreFree | src/keys/monerocrypto.ts:333-601 | Nor are view tags, amount masks and payment id pads tied to one another |
| MoneroCrypto.SubaddressIsOwned | src/keys/monerocrypto.ts:387-452 | The wallet's spend secret plus the index's opens a subaddress's spend key, and its view secret relates the two keys |
| MoneroCrypto.SubaddressesDiffer | src/keys/monerocrypto.ts:437-452 | No two spend keys share a subaddress |
| Orders.PickPermutes | src/keys/monerobuild.ts:402-411 | Following a permutation of positions rearranges the entries and loses none |
| Alias.AliasConserves | src/airgap/fountain.ts:98-122 | Vose's law: for any positive weights no small bucket is left over and, for every bucket, its probability and what the others hand it add up to n times its share |
| Alias.NoneLeftOver | src/airgap/fountain.ts:118-119 | When the draining stops only large buckets remain, each holding exactly one |
| Alias.StepUnfilled | src/airgap/fountain.ts:110-117 | A step fills exactly the popped small bucket |
| Fountain.BuildAlias | src/airgap/fountain.ts:98-122 | The two-stack loop over three arrays, in place, computes the tables of the law |
| Fountain.PairUp | src/airgap/fountain.ts:110-117 | One of each stack popped: the arrays and stacks after are one step of the law |
| Fountain.DegreeMass | src/airgap/fountain.ts:131-139 | Degree d has mass proportional to 1/d |
| Fountain.DegreeComesOf | src/airgap/fountain.ts:131-139 | Which buckets and draws yield degree d: exactly those its mass counts |
| Fountain.DegreeOneIsNeverHalf | src/airgap/fountain.ts:126-139 | Degree 1 outweighs the rest up to three fragments, and is outweighed from four on |
| Fountain.ChooseDegree | src/airgap/fountain.ts:131-139 | Two draws, and the degree they determine |
| Fountain.Shuffle | src/airgap/fountain.ts:141-150 | One draw an item, each taking one of those that remain |
| Fountain.ChosenIsSound | src/airgap/fountain.ts:165-177 | Whatever the draws, a frame names between one and seqLength different fragments |
| Fountain.ChosenInTurn | src/airgap/fountain.ts:141-177 | A mixed frame names as many fragments as its degree, and its k-th is the one the scaled draw k + 2 counts to, in ascending order, among those not named yet |
| Fountain.FirstChosen | src/airgap/fountain.ts:176 | The first is where the third draw falls |
| Fountain.FiveDegrees | src/airgap/fountain.ts:98-139 | With five fragments the degree of every pair of draws, worked out, the order of the stacks included |
| Fountain.ChooseFragments | src/airgap/fountain.ts:165-177 | The first seqLength frames in order, then degree and shuffle from one seeded generator |
| Pieces.MixPlus | src/airgap/fountain.ts:180-184 | Mixing one more fragment in |
| Pieces.ReduceFacts | src/airgap/ur.ts:422-429 | Subtraction removes exactly the subset's indexes, or changes nothing |
| Pieces.ReduceCarries | src/airgap/ur.ts:422-429 | What is left still carries exactly the exclusive-or of what it names |
| UrEncoding.NominalFragmentLength | src/airgap/ur.ts:80-92 | The length for the first count whose fragments fit, or for the last count tried |
| UrEncoding.NominalFits | src/airgap/ur.ts:80-92 | A limit of at least the smallest fragment is always met |
| UrEncoding.Partition | src/airgap/ur.ts:94-105 | Fragment i is the message from i times the length on, zeros past its end |
| UrEncoding.FragmentsCover | src/airgap/ur.ts:94-105 | At any fragment length the fragments are the message and then fewer zeros than one fragment |
| UrEncoding.FrameNamesInTurn | src/airgap/fountain.ts:159-177 | The fragments of frame n, from the generator that n and the checksum seed as 32-bit words |
| UrEncoding.TypeCharacters | src/airgap/ur.ts:65-68 | A type name is made of lower-case letters, digits and hyphens, and of nothing else |
| UrEncoding.UrEncoder.NextPart | src/airgap/ur.ts:138-153 | Frame n is the frame of n; none exactly when the 32-bit counter wraps on a message of several fragments |
| UrEncoding.MixFragments | src/airgap/ur.ts:146-149 | The loop yields the exclusive-or of the set of fragments named |
| Peeling.ReducedCounts | src/airgap/ur.ts:410-418 | Feeding a piece back never raises the piece count, and each single it frees takes an index off the total |
| Peeling.ReducedCovers | src/airgap/ur.ts:410-418 | Every index of a mixture is in the piece, or still in something left of the mixture |
| Peeling.NewFragment | src/airgap/ur.ts:373-386 | A new fragment keeps the collector well-formed, forgets nothing and makes progress |
| Peeling.PeeledBy | src/airgap/ur.ts:388-407 | Taking out all known fragments and then every mixture that fits is what peeling means |
| Peeling.PeeledCovers | src/airgap/ur.ts:388-407 | What a peeled mixture lost is known, or sits in a mixture inside it |
| Peeling.NoLoneUnknown | src/airgap/ur.ts:364-418 | With the queue dry no mixture ever offered is down to one unknown fragment |
| UrCollecting.UrCollector.Offer | src/airgap/ur.ts:305-362 | What every frame does: junk changes nothing, a single frame is the message, another message's frame starts again, and pieces from one message stay genuine, so the result can only be its encoding |
| UrCollecting.UrCollector.Step | src/airgap/ur.ts:364-371 | A turn keeps soundness and memory, and takes pieces, then indexes, then queue down lexicographically |
| UrCollecting.UrCollector.Peel | src/airgap/ur.ts:345 | The loop ends, with the message or a dry queue |
| UrCollecting.UrCollector.TakeSimple | src/airgap/ur.ts:373-386 | A single fragment taken soundly, with progress |
| UrCollecting.UrCollector.TakeMixed | src/airgap/ur.ts:388-407 | A mixture reduced and kept, queued or dropped soundly, with progress |
| UrCollecting.UrCollector.ReduceMixedBy | src/airgap/ur.ts:410-418 | Mixed keeps what is left, the queue gains what came down to one |
| UrCollecting.UrCollector.Admit | src/airgap/ur.ts:326-341 | The same header changes nothing, another one starts the collector again on it |
| UrCollecting.PeelingIsExhaustive | src/airgap/ur.ts:364-418 | At rest, as soon as all but one fragment of an offered frame are known, so is the last |
| UrCollecting.FirstPassCompletes | src/airgap/ur.ts:305-371 | Once every first-pass frame was offered, whatever came between, the message is there |
| UrCollecting.WholeMessage | src/airgap/ur.ts:376-384 | A message's own fragments, all of them, come back as the message with its checksum |
| UrCollecting.ReadableExactly | src/airgap/ur.ts:190-241 | Of a message cut as the encoder cuts it, the reader lets every frame through or none: exactly when type, size and fragment count are within its ceilings |
| UrCollecting.PassesExactly | src/airgap/ur.ts:190-241 | However a message is cut, a frame passes exactly when these hold and its own body is within the ceiling on a component |
| UrCollecting.BodyTakes | src/airgap/ur.ts:151 | How many bytes a frame's array takes, and that it is at most 26 more than its fragment |
| UrCollecting.NominalHalves | src/airgap/ur.ts:80-92 | A message cut in several fragments has none longer than half of it |
| UrCollecting.Scan | src/airgap/ur.ts:305-371 | End to end: any run of one animation's frames, any order and repeats, never yields anything but the encoded CBOR, and yields it once the first seqLength frames were seen |
| Utf8.EncodeUTF8 | src/encoding.js:36-73 | The buffer, filled and trimmed, is the encoding of the text's code points |
| Utf8.EncodedBytes | src/encoding.js:56-70 | Length, ranges and bits of every encoded code point, as section 4 of RFC 3629 tables them |
| Utf8.DecodeUTF8 | src/encoding.js:99-162 | The loop that steps its index back terminates and computes the state machine's text |
| Utf8.DecodeOfEncode | src/encoding.js:36-162 | Decoding what was encoded is the text with each lone surrogate replaced by U+FFFD |
| Utf8.EncodedIsValid | src/encoding.js:36-73 | The encoder writes only valid UTF-8 |
| Utf8.EncodeOfDecode | src/encoding.js:36-162 | Valid bytes come back from decoding and encoding |
| Utf8.DecodedIsWellFormed | src/encoding.js:99-162 | Any bytes at all decode to well-formed UTF-16, which survives a second round |
| Crc.TableIsBitwise | src/airgap/envelope.ts:207-221 | One table step is eight steps of bit-at-a-time division |
| Crc.Crc32.Compute | src/airgap/envelope.ts:207-221 | The lazily filled table's loop computes the division of the whole payload |
| Crc.BurstShows | src/airgap/envelope.ts:207-221 | Payloads of one length, any length, that differ only inside four consecutive bytes never share a CRC |
| Crc.RegisterStartsAtOnes | src/airgap/envelope.ts:207-221 | Which CRC it is: the polynomial, the start at all ones and the inversion at the end |
| Base32.RoundTrip | src/airgap/envelope.ts:158-190 | Decoding gives every byte string back |
| Base32.Base32Encode | src/airgap/envelope.ts:158-172 | The overflowing 32-bit register writes the right digits all the same |
| Base32.Base32Decode | src/airgap/envelope.ts:174-190 | And reads the right bytes |
| Base32.Pushed | src/airgap/envelope.ts:161-165 | Shifting into the register and cutting to 32 bits loses no bit still to be written |
| Base32.NumberIsKept | src/airgap/envelope.ts:158-172 | Highest first on both sides: the digits write the number of the bytes followed by fewer than five zero bits |
| Envelope.EncodeParts | src/airgap/envelope.ts:237-255 | The frames of a payload, none exactly when more than 2048 are needed |
| Envelope.FramesFit | src/airgap/envelope.ts:237-282 | Every frame written is one the reader lets through |
| Envelope.Collector.Offer | src/airgap/envelope.ts:334-392 | Over any run of offers a payload handed over has the announced digest and is parts 1 to total gathered since the last reset; from one payload's frames it appears exactly when none is missing, and is that payload |
| Envelope.WholePayload | src/airgap/envelope.ts:237-374 | A payload's own parts, all of them, are the payload |
| Envelope.NoSmallCorruption | src/airgap/envelope.ts:361-376 | A digest that matches rules out any change inside four consecutive bytes |
| Envelope.Scan | src/airgap/envelope.ts:302-393 | All frames of one payload in any order: the payload, and nothing else before |
| Descriptor.ChecksumCatches | src/keys/descriptor.ts:68-120 | At every length, descriptors that differ only within four consecutive characters have different checksums |
| Descriptor.ChangedIsRefused | src/keys/descriptor.ts:136-143 | A descriptor changed so and still carrying its old checksum is refused |
| Descriptor.ChecksumIsValid | src/keys/descriptor.ts:136-143 | True exactly for descriptors some body's checksum was appended to |
| Descriptor.DescriptorChecksum | src/keys/descriptor.ts:111-120 | The method computes the remainder's eight characters, none exactly outside the alphabet |
| Descriptor.Expand | src/keys/descriptor.ts:92-108 | The accumulator with its groups of three computes the expansion |
| Descriptor.Polymod | src/keys/descriptor.ts:68-78 | The loop computes the run of the register |
| Descriptor.ExpandedInjective | src/keys/descriptor.ts:92-108 | Equal symbols mean equal characters, and the length alone fixes how many there are |
| Descriptor.StepKeepsNonzero | src/keys/descriptor.ts:68-78 | A step of the register is injective: a difference never vanishes |
| Descriptor.WindowShows | src/keys/descriptor.ts:68-78 | Symbols that differ only inside eight consecutive ones never share a remainder |
| Descriptor.GeneratorsInTheOpen | src/keys/descriptor.ts:66-78 | What each of the five bits shifted out feeds back |
| FinalScriptSig.WithEmptyFinalScriptSig | src/keys/finalscriptsig.ts:127-167 | For every byte string, the bytes unchanged or the rewrite |
| FinalScriptSig.RewrittenMaps | src/keys/finalscriptsig.ts:127-167 | The maps of the result are the maps of the input, one empty 0x07 record appended to exactly the non-global maps holding 0x08 without 0x07 |
| FinalScriptSig.RewrittenTwice | src/keys/finalscriptsig.ts:127-167 | A second rewrite changes nothing |
| FinalScriptSig.ScanMap | src/keys/finalscriptsig.ts:87-116 | The shared cursor ends where the map ends, or the map does not parse, and the two flags say what keys it held |
| FinalScriptSig.Splice | src/keys/finalscriptsig.ts:150-167 | The copy loop puts the record at every offset and every other byte in order |
| FinalScriptSig.SerializedParse | src/keys/finalscriptsig.ts:87-148 | Serializing what parsed gives the same bytes |
| SeedPhrase.SeedComesBack | src/keys/monero.ts:410-468 | Every 32-byte seed comes back from its phrase |
| SeedPhrase.WordsComeBack | src/keys/monero.ts:410-468 | Any 25 words that are accepted are written again |
| SeedPhrase.SeedFromMnemonic | src/keys/monero.ts:430-468 | Words are read exactly when they are some seed's phrase, and then as that seed; what each refusal means |
| SeedPhrase.MnemonicFromSeed | src/keys/monero.ts:410-422 | The 25 words spell the seed, three for four bytes, and repeat the checksum word |
| SeedPhrase.JoinOfSplit | src/keys/monero.ts:414-460 | Three words keep any 32-bit number |
| SeedPhrase.SplitOfJoin | src/keys/monero.ts:415-460 | Any three words are the words of the number they make |
| SeedPhrase.SomeTriplesOverflow | src/keys/monero.ts:460-461 | There are three words whose number needs more than 32 bits |
| SeedPhrase.PhraseHasOneSeed | src/keys/monero.ts:410-468 | No two seeds share a phrase |
| SeedPhrase.PhraseInTheOpen | src/keys/monero.ts:410-422 | Word by word: lowest byte first, each digit of base 1626 the difference from the word before, the last word the one the checksum picks |
| Base58.BytesComeBack | src/keys/monero.ts:209-234 | Any bytes come back from their text |
| Base58.TextComesBack | src/keys/monero.ts:209-234 | Any text that is read is written again |
| Base58.Decode | src/keys/monero.ts:219-234 | A text is read exactly when it spells some bytes block by block, and then as those |
| Base58.DecodeBlock | src/keys/monero.ts:191-207 | A block is refused for its length, a stranger's character or overflow, and otherwise is the bytes it spells |
| Base58.EncodeBlock | src/keys/monero.ts:178-189 | A block of up to eight bytes spelt in exactly as many characters as the table says |
| Base58.BlockHasRoom | src/keys/monero.ts:176 | The table always leaves room: 256^n is at most 58^chars |
| Base58.BlockIsTight | src/keys/monero.ts:176 | And one character fewer would not: the table's entry is the least k with 58^k at least 256^n, for every n |
| Base58.TextHasOneMeaning | src/keys/monero.ts:209-234 | No text spells two byte strings, although blocks are not delimited |
| Base43.BytesComeBack | src/airgap/base43.ts:62-106 | Any bytes come back from their text, leading zeros included |
| Base43.TextComesBack | src/airgap/base43.ts:62-106 | Any text over the alphabet is written again, and no other text is read |
| Base43.Encode | src/airgap/base43.ts:62-77 | The text starts with as many zeros as the bytes and writes the same number |
| Base43.Decode | src/airgap/base43.ts:86-106 | Null exactly for a character outside the alphabet |
| Radix.ZerosThenMinimal | src/airgap/base43.ts:62-106 | Any numeral is its leading zeros and then the shortest numeral of its number |
| Cbor.ValueComesBack | src/airgap/cbor.ts:65-207 | A value comes back if and only if its numbers and lengths fit 32 bits and it is at most five levels deep |
| Cbor.BytesComeBack | src/airgap/cbor.ts:65-207 | Bytes that are read are written again, so every value has one encoding |
| Cbor.Decode | src/airgap/cbor.ts:199-207 | Null exactly for bytes that are no readable value's encoding, trailing bytes among them |
| Cbor.Read | src/airgap/cbor.ts:172-197 | The shared cursor moves past exactly the encoding of the value read; none when no readable value stands there |
| Cbor.ReadHead | src/airgap/cbor.ts:147-170 | A head in its shortest form, or none stands there |
| Cbor.Write | src/airgap/cbor.ts:65-84 | The encoding appended to the shared output, failing exactly for a number past 32 bits |
| Cbor.OneValue | src/airgap/cbor.ts:46-84 | No encoding is the beginning of another |
| Cbor.PublishedExamples | src/airgap/cbor.ts:46-84 | The examples of appendix A of RFC 8949 within this subset |

## Left out

- Soundness, zero knowledge, unforgeability, and that the hashes behave like random functions.
- The arithmetic of ed25519, Keccak, SHA-256, the Elligator map and scalar decoding from bytes: points are pairs of residues, hashes arbitrary functions, scalars natural numbers.
- Non-canonical point encodings: a 32-byte string either decodes to one point or does not decode.
- Hexadecimal text, object shapes and type checks at the entry of `verifyBulletproofPlus` and `clsagVerify`.
- The byte layout of transactions (`serializePrefix` and the other writers of src/keys/monerowire.ts): the signed hash is an arbitrary function of prefix, base and proof.
- Reading address strings: an arbitrary function from strings to addresses or failure.
- MoneroSpend.SignMoneroSpend: does not cover `parseUnsignedSet` itself or the wiping of secrets; it starts from a set that was let through.
- MoneroSet.EveryOrderComesUp: is stated for up to 33 entries, which one pool of bytes serves; a set that was let through has at most 16.
- MoneroSet.ShuffledIndices: assumes that from no point on the Keccak stream holds only rejected bytes, without which the loop need not end; it is stated for up to 256 entries, past which no byte could be accepted.
- Floating point in src/airgap/fountain.ts: weights, probabilities and draws are reals, with draws from 0 up to but not including 1. `Number(roll) / 2^64` rounding up to 1 is outside the model.
- The xoshiro generator and its seeding: an arbitrary stream of draws for each frame number and checksum.
- The text of UR frames: bytewords, the CBOR array inside a frame and the `ur:` syntax. A frame is the record they carry, its body as long as the shortest encoding of that record, or noise.
- UrCollecting.Scan: assumes the collector is not already holding pieces of another message with the same type, length, fragment count, fragment length and checksum; such a message could not be told apart by the code either.
- The text of LV1 frames: matching by regular expression, kinds by letter, case folding and trimming. A body is the digits it spells, so a body with a character outside the alphabet never reaches the collector.
- Base32.Base32Decode: does not cover the null result for a character outside the alphabet, because its input is digits.
- The order in which a JavaScript map yields its entries: arbitrary in the model.
- The word list of the seed phrase, its prefix lengths and CRC: any 1626 distinct words and any checksum function; words arrive trimmed and in lower case.
- The alphabets of base58 and base43: any 58 and 43 distinct characters.
- Cbor.Write: does not model maps, tags and booleans, which are written by `writeRich` only and never read.
- Non-integers and negative numbers in CBOR: numbers are naturals.
- src/airgap/bbqr.ts, src/airgap/bytewords.ts, src/keys/account.ts, src/keys/keyimages.ts, src/keys/moneroexport.ts, src/keys/binaryarchive.ts and src/keys/bitcoin.ts, which would add easier members; the user interface, the store, the site and the native parts.
