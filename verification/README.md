# Verified models of the ghos cryptography and mix program

Three parts of the repository are modelled and proved here.

**The CLI's group and cipher** (`cli/ghos_cli/crypto/elgamal.py`), from the integers up. `Numbers`, `Fermat` and
`Field25519` are the base field: divisibility, Fermat's little theorem, and the square-root-of-a-ratio routine.
`EdwardsLaw`, `EdwardsAssociativity` and `EdwardsGroup` prove that the curve -x^2 + y^2 = 1 + d x^2 y^2 is an abelian
group; `EdwardsPoint` that the extended-coordinate formulas and the double-and-add loop compute in it; `Ristretto`,
`RistrettoEncode`, `RistrettoFlag`, `RistrettoGroup`, `RistrettoBytes` and `RistrettoElements` that encoding and
decoding are a bijection between accepted 32-byte strings and cosets, and that the accepted strings form a group.
`CliElGamal`, `CliLedger` and `CliExact` are the cipher `(r*G, m*G + r*pk)` on byte strings, down to decryption by
linear scan. The field is a parameter record `Params` (a prime p = 5 mod 8, a non-square d, a root of -1, and
1/sqrt(-1-d)); `Constants` checks the written-out constants and the base point against it and gives a small instance.

**The SDK's cipher and proofs** (`sdk/src/crypto/`), over any group of prime order with a 32-byte encoding (`Groups`,
`Scalars`, `SdkGroup`; the CLI's strings and the integers modulo a prime are instances of the laws). `ModularInverse`,
`DiscreteLog`, `BabyStepGiantStep`, `ScalarCodec`, `TwistedElGamal` and `ExactCipher` are the cipher `(m*H + r*G, r*P)`;
`Sigma`, `PubkeyValidity`, `ZeroBalance` and `EqualityProof` the three sigma protocols; `Transcript`,
`TranscriptBinding`, `Sums`, `InnerProduct`, `InnerProductProver`, `InnerProductLengths`, `InnerProductLoop`,
`RangeWitness`, `RangeProof`, `RangeHeader`, `RangeBinding`, `RangeFields` and `Aggregation` the range proof. The
library's point multiplication throws outside 1..q-1, as the library does; the hash is an arbitrary function on byte
strings; random values are arguments. `ByteTools`, `AmountText` and `AmountMeaning` are helpers of `sdk/src/utils.ts`.

**The on-chain mix rounds, configuration and auditor registry** (`programs/ghos/src/instructions/`). `ProgramState`
holds the accounts as maps keyed by the seeds of their addresses; `Program` the handlers, updating them in place;
`ProgramSteps` the functions they are proved against; `MixInvariant`, `MixHistory`, `MixProvenance`, `MixConfluence`,
`AdminHistory` and `AuditorRate` the properties of whole runs.

## Where code and comments differ

The model follows the code.

- `_ristretto_encode` ignores the square-root flag because "u1*u2^2 is always square for valid points"
  (elgamal.py:161). The flag is set exactly for points with 1 - y^2 a square and x*y not 0 (`RistrettoFlag.IgnoredFlag`):
  not for the neutral element, nor for all points of the curve (`Constants.OddPoint`). Decoding yields only points with
  1 - y^2 a square and addition keeps them (`RistrettoGroup.EvenPlus`); for those the encoder is right in both cases.
- `decrypt_exhaustive` is announced as a baby-step giant-step search (elgamal.py:16-17); it is a linear scan.
- `proveEquality` is described with three commitments (sigma.ts:71-73); there are four.
- The multipliers t1, t2, t3, rS, rD, z and c of the sigma protocols are not guarded against zero. An honest proof whose
  challenge or answer is zero is rejected; the completeness theorems say exactly when, and `HonestRejected` in each of the
  three modules that it happens.
- A round is documented as open before it collects commitments; no handler stores `MixPhase::Open`. A round leaves
  `Commit` only by filling up, so one that does not fill is stuck from the end of its commit window on, and from no earlier
  time (`MixHistory.LapsedExactly`).
- The reveal deadline saturates at the last moment of the clock. A round with that deadline is never aborted, and settled
  only if every participant reveals (`MixHistory.SaturatedDeadline`). `MixHistory.SampleRun` reaches rounds of both kinds.
- Folding vectors of a length that is not a power of two drops elements. The prover accepts every length from 1 to 128; the
  identity holds for all vectors of a length exactly when that length is a power of two (`InnerProductLengths.LengthExact`).
- T1 and T2 carry t on G and tau on H, but the commitment carries the value on H and the randomness on G. So t_hat and tau_x
  open x*T1 + x^2*T2 + z^2*V for the commitment V in every honest run exactly when the value is the blinding factor modulo
  the order, or G = H (`RangeHeader.OpensExactly`); `RangeHeader.HeaderFails` is a run in which they do not.
- `aggregate` checks only that there is a proof, that the bit lengths agree, and that the commitments are points. `verify`
  rejects its output if it accepts the proofs one by one (`Aggregation.AggregateRejected`), but not always: the exact
  condition is `Aggregation.AggregateVerifies`, and `Aggregation.SevenPointsAccepted` is an input whose aggregate it accepts
  whenever the linking scalar is the encoding of a point, as it always is in `Aggregation.AggregateAccepted`.

## Model

| member | source | states |
|---|---|---|
| Field25519.AbsSpec | cli/ghos_cli/crypto/elgamal.py:61-68 | the sign-normalised value is a non-negative residue, equal to the argument or to its opposite |
| Field25519.SqrtRatioSpec | cli/ghos_cli/crypto/elgamal.py:76-97 | for all u and v: the flag is set exactly when some r has v*r^2 = u; the root is non-negative with v*r^2 = u, or v*r^2 = i*u without the flag when v is not 0, and is 0 when u or v is 0 (section 4.2 of RFC 9496) |
| Constants.CurveParameter | cli/ghos_cli/crypto/elgamal.py:38-41 | the written-out d is the quotient -121665/121666 that the Fermat inverse gives |
| Constants.CurveParameterNonSquare | cli/ghos_cli/crypto/elgamal.py:38-41 | d is not a square modulo p, given only that p is prime: 2d is one, and 2 is not |
| Constants.ConstantsValid | cli/ghos_cli/crypto/elgamal.py:38-46 | the constants satisfy every law asked of the field parameters, given only that p is prime |
| Constants.ComputedConstantsValid | cli/ghos_cli/crypto/elgamal.py:42-43 | so do they with the root of -1 computed as 2^((p-1)/4), which is the written-out root or its opposite |
| Field25519.ComputedRoot | cli/ghos_cli/crypto/elgamal.py:42-43 | for every prime p = 5 mod 8, 2^((p-1)/4) is a square root of -1 |
| Constants.BaseDecodes | cli/ghos_cli/crypto/elgamal.py:50-53 | the written-out base point decodes, to the written-out point; so the CLI's constants are an instance of the parameters of its cipher |
| Constants.WrittenOut | cli/ghos_cli/crypto/elgamal.py:38-39 | p = 2^255 - 19 and L is 2^252 plus the written-out number; the latter meets the bound that the derived keys need |
| EdwardsLaw.Complete | cli/ghos_cli/crypto/elgamal.py:116-126 | the denominators 1 +- d*x1*x2*y1*y2 never vanish on the curve, so addition has no exceptional case |
| EdwardsLaw.Closed | cli/ghos_cli/crypto/elgamal.py:116-126 | the sum of two points of -x^2 + y^2 = 1 + d*x^2*y^2 satisfies the curve equation |
| EdwardsGroup.PlusAssociates | cli/ghos_cli/crypto/elgamal.py:116-126 | affine addition is associative, for all three points of the curve |
| EdwardsGroup.PlusNeg | cli/ghos_cli/crypto/elgamal.py:131-132 | negation is the inverse of addition |
| EdwardsPoint.AddRepresents | cli/ghos_cli/crypto/elgamal.py:116-126 | addition in extended coordinates, with its reductions, represents the affine sum for all pairs of points, equal ones and the identity included |
| EdwardsPoint.NegateRepresents | cli/ghos_cli/crypto/elgamal.py:131-132 | negation in extended coordinates represents the affine opposite |
| EdwardsPoint.OperationsKeepCurve | cli/ghos_cli/crypto/elgamal.py:116-132 | add, double and negate keep both projective equations T*Z = X*Y and Y^2 - X^2 = Z^2 + d*T^2 (section 5.1.4 of RFC 8032) |
| EdwardsPoint.ScalarMulLoop | cli/ghos_cli/crypto/elgamal.py:134-143 | the double-and-add loop computes its recursive specification, for every integer scalar |
| EdwardsPoint.ScalarMulSpec | cli/ghos_cli/crypto/elgamal.py:134-143 | double-and-add is (k mod L)-fold addition, for every integer k and every point |
| EdwardsPoint.ScalarMulUnreduced | cli/ghos_cli/crypto/elgamal.py:134-143 | on points killed by L it is k-fold addition without reduction |
| Ristretto.DecodeAccepts | cli/ghos_cli/crypto/elgamal.py:179-202 | every accepted string decodes to a point of the curve with T*Z = X*Y, non-negative x and x*y, y not 0, and 1 - y^2 a square |
| Ristretto.DecodeOfParameter | cli/ghos_cli/crypto/elgamal.py:179-202 | decoding accepts the parameter of every canonical point and returns that point: together with the row above, exactly which strings are accepted |
| RistrettoEncode.EncodeSpec | cli/ghos_cli/crypto/elgamal.py:156-176 | the encoding of any representative of a point with 1 - y^2 a square is the parameter of the canonical member of its coset, in both branches and with inverse root 0 |
| RistrettoFlag.IgnoredFlag | cli/ghos_cli/crypto/elgamal.py:159-162 | the flag that the encoder ignores is set exactly for points with 1 - y^2 a square and x*y not 0, in every representation |
| Constants.OddPoint | cli/ghos_cli/crypto/elgamal.py:161-162 | a point of a curve at which the flag is not set |
| RistrettoEncode.EncodeOfDecode | cli/ghos_cli/crypto/elgamal.py:156-202 | encoding what was decoded returns the same field element, s = 0 included |
| RistrettoEncode.DecodeOfEncode | cli/ghos_cli/crypto/elgamal.py:156-202 | decoding what was encoded returns the canonical member of the coset |
| RistrettoGroup.RistrettoEqualSpec | cli/ghos_cli/crypto/elgamal.py:146-153 | the equality test holds exactly when the points differ by a point of order dividing four |
| RistrettoGroup.PlusCosets | cli/ghos_cli/crypto/elgamal.py:116-126 | addition respects these cosets |
| RistrettoGroup.EvenPlus | cli/ghos_cli/crypto/elgamal.py:116-126 | the points with 1 - y^2 a square, for which the encoder's square root exists, are closed under addition |
| RistrettoBytes.EncodeOfAccepted | cli/ghos_cli/crypto/elgamal.py:156-202 | for every byte string that decoding accepts, encoding the result gives exactly that string |
| RistrettoBytes.DecodeErrors | cli/ghos_cli/crypto/elgamal.py:179-202 | which error every rejected string meets |
| RistrettoBytes.DecodeInjective | cli/ghos_cli/crypto/elgamal.py:179-202 | decoding is injective on accepted strings |
| RistrettoBytes.AcceptEncoded | cli/ghos_cli/crypto/elgamal.py:156-202 | every encoding is accepted and decodes to the canonical representative |
| RistrettoBytes.DenotesEqual | cli/ghos_cli/crypto/elgamal.py:146-153 | two representatives pass the equality test exactly when they stand for the same group element |
| RistrettoElements.ElementsLaws | cli/ghos_cli/crypto/elgamal.py:116-202 | the accepted 32-byte strings form an abelian group under decode, add and encode |
| RistrettoElements.DenotesScalarMul | cli/ghos_cli/crypto/elgamal.py:134-143 | double-and-add computes the (k mod L)-fold multiple in that group |
| CliElGamal.DecryptExhaustive | cli/ghos_cli/crypto/elgamal.py:337-358 | the scan with its cursor, early return and errors computes its specification |
| CliLedger.PublicKeySpec | cli/ghos_cli/crypto/elgamal.py:303-309 | the public key is the encoding of sk*G and decodes to it |
| CliLedger.KeygenSpec | cli/ghos_cli/crypto/elgamal.py:289-309 | generated keys match, and the secret is 0 only when the seed and the second draw both reduce to 0 |
| CliExact.EncryptExact | cli/ghos_cli/crypto/elgamal.py:312-334 | under every key that decodes, every 64-bit amount encrypts to exactly (k*G, amount*G + k*P), with k the given randomness modulo L, or the drawn scalar where there is none or it reduces to 0 |
| CliExact.EncryptErrors | cli/ghos_cli/crypto/elgamal.py:318-327 | which error an amount out of range or a key that does not decode meets |
| CliExact.EncryptionsAgree | cli/ghos_cli/crypto/elgamal.py:312-334 | if G has prime order, two encryptions of one amount are equal exactly when their scalars are |
| CliLedger.EncryptRejects | cli/ghos_cli/crypto/elgamal.py:318-327 | encryption fails exactly on amounts outside 64 bits and on keys that do not decode |
| CliExact.AddExact | cli/ghos_cli/crypto/elgamal.py:381-395 | the sum of the encryptions of m under mask k and m' under k' is, byte for byte, that of m + m' under k + k' |
| CliExact.SubExact | cli/ghos_cli/crypto/elgamal.py:398-412 | the difference is that of m - m' under k - k' |
| CliExact.RandomizeExact | cli/ghos_cli/crypto/elgamal.py:361-378 | re-randomising adds the drawn scalar to the mask and keeps the amount |
| CliLedger.HomomorphicAddSpec | cli/ghos_cli/crypto/elgamal.py:381-395 | adding ciphertexts adds plaintexts |
| CliLedger.HomomorphicSubSpec | cli/ghos_cli/crypto/elgamal.py:398-412 | subtracting ciphertexts subtracts plaintexts |
| CliLedger.RandomizeSpec | cli/ghos_cli/crypto/elgamal.py:361-378 | re-randomising keeps the plaintext |
| CliLedger.UnmaskedSpec | cli/ghos_cli/crypto/elgamal.py:346-349 | removing sk times the first component leaves exactly the plaintext element |
| CliLedger.ScanSpec | cli/ghos_cli/crypto/elgamal.py:350-357 | the scan returns the least amount whose multiple of G is the target, and fails exactly when there is none in range |
| CliLedger.DecryptSpec | cli/ghos_cli/crypto/elgamal.py:337-358 | decryption of any ciphertext with a known plaintext element: the least amount in range, or the error |
| CliLedger.EveryCiphertext | cli/ghos_cli/crypto/elgamal.py:337-358 | every two strings that decode are the encryption of some element, so the row above covers them all |
| CliLedger.DecryptErrors | cli/ghos_cli/crypto/elgamal.py:337-346 | the errors for a negative bound and for strings that do not decode |
| CliLedger.DecryptOfEncrypt | cli/ghos_cli/crypto/elgamal.py:312-358 | encrypt then decrypt, for all keys, amounts and randomness and without any assumption on the order of G |
| CliLedger.EvaluateHolds | cli/ghos_cli/crypto/elgamal.py:312-412 | a history of encryptions, additions, subtractions and re-randomisations succeeds exactly when its amounts are in range, and then encrypts its plain balance; nothing is assumed of the order of G |
| CliExact.EvaluateExact | cli/ghos_cli/crypto/elgamal.py:312-412 | every history under every key that decodes yields, byte for byte, the encryption of its balance under the masks it accumulates |
| CliExact.CipherInjective | cli/ghos_cli/crypto/elgamal.py:312-334 | if G has prime order, a ciphertext determines amount and mask modulo that order |
| CliLedger.LedgerScans | cli/ghos_cli/crypto/elgamal.py:312-412 | decryption after any such history: the least amount in range with the multiple of G of the balance, or the error |
| CliLedger.LedgerDecrypts | cli/ghos_cli/crypto/elgamal.py:312-412 | when G has prime order L, every such history decrypts to its balance mod L if that is in range, and to the error otherwise |
| SdkGroup.ResiduesPrimeOrder | sdk/src/crypto/elgamal.ts:29-33 | the laws assumed of the group library have a model: the integers modulo a prime with a 32-byte encoding |
| ModularInverse.InvMod | sdk/src/crypto/elgamal.ts:362-375 | the extended Euclidean loop terminates with a*x congruent to gcd(a, n) for every modulus, rejects 0, and for a prime modulus returns the Fermat inverse |
| ModularInverse.InvScalar | sdk/src/crypto/bulletproof.ts:336-352 | square-and-multiply returns s^(q-2) mod q and rejects 0; for a prime q the same value as InvMod |
| ModularInverse.InverseIs | sdk/src/crypto/elgamal.ts:362-375 | the inverse modulo a prime is unique, so the two loops agree |
| DiscreteLog.ScanIsLeastLog | cli/ghos_cli/crypto/elgamal.py:350-357 | the linear scan is the only search that returns the least multiplier in range and nothing exactly when there is none |
| DiscreteLog.LeastLogOfScalar | sdk/src/crypto/elgamal.ts:313-316 | in a group of prime order the least logarithm of m*H is m mod q, if in range |
| BabyStepGiantStep.BabySteps | sdk/src/crypto/elgamal.ts:329-339 | the table maps every encoding of 0*H..step*H to the first index that gives it, collisions and the inclusive end included |
| BabyStepGiantStep.RoundAdvances | sdk/src/crypto/elgamal.ts:345-355 | a giant step either finds the least logarithm or rules out the next step multipliers |
| BabyStepGiantStep.DiscreteLogOnH | sdk/src/crypto/elgamal.ts:317-357 | for every target, bound and step: null for a negative bound, an error for a step outside 1..q-1, and otherwise exactly what the linear scan returns |
| ScalarCodec.ReadScalarLE32 | sdk/src/crypto/elgamal.ts:109-121 | the loop from the last byte computes the little-endian value mod q, for 32-byte inputs only |
| ScalarCodec.WriteScalarLE32 | sdk/src/crypto/elgamal.ts:126-135 | the buffer is filled with the 32 little-endian bytes of the residue |
| ScalarCodec.ReadScalarUniform64 | sdk/src/crypto/elgamal.ts:92-104 | short inputs are padded, which does not change the scalar |
| ScalarCodec.ScalarRoundTrip | sdk/src/crypto/elgamal.ts:109-135 | reading back a written scalar gives its residue |
| ScalarCodec.CanonicalScalar | sdk/src/crypto/elgamal.ts:109-135 | a 32-byte string is written back unchanged exactly when its value is below the order |
| ScalarCodec.MultBaseIsScalar | sdk/src/crypto/elgamal.ts:162-179 | the guarded multiplication is the scalar multiple, zero included |
| ScalarCodec.ClampRange | sdk/src/crypto/elgamal.ts:221-225 | a clamped string is a multiple of 8 in [2^254, 2^255) |
| ScalarCodec.ClampDetermines | sdk/src/crypto/elgamal.ts:221-225 | two digests clamp to the same scalar exactly when they agree outside the five fixed bits |
| ScalarCodec.ClampNonzero | sdk/src/crypto/elgamal.ts:221-226 | no clamped scalar is 0 modulo an odd prime q with 16*q above 2^256 |
| ScalarCodec.KeyPairInvertible | sdk/src/crypto/elgamal.ts:214-232 | every 32-byte seed, whatever its digest, gives a key pair with an invertible secret and a public key that is its multiple of G and not neutral |
| ExactCipher.EncryptExact | sdk/src/crypto/elgamal.ts:263-287 | encryption under any point P fails exactly when the randomness is 0 mod q, and otherwise is exactly (m*H + r*G, r*P) |
| ExactCipher.EncryptEntry | sdk/src/crypto/elgamal.ts:248-257 | the public entry rejects negative amounts, and otherwise uses and returns the drawn scalar |
| TwistedElGamal.EncryptAmount | sdk/src/crypto/elgamal.ts:248-257 | under a key x*G what it returns encrypts the amount |
| TwistedElGamal.AddSpec | sdk/src/crypto/elgamal.ts:403-415 | adding ciphertexts adds plaintexts |
| ExactCipher.AddExact | sdk/src/crypto/elgamal.ts:403-415 | the sum of the encryptions of (m, r) and (m', r') is, byte for byte, that of (m + m', r + r') |
| TwistedElGamal.SubSpec | sdk/src/crypto/elgamal.ts:420-432 | subtracting ciphertexts subtracts plaintexts |
| ExactCipher.SubExact | sdk/src/crypto/elgamal.ts:420-432 | the difference is that of (m - m', r - r') |
| TwistedElGamal.ScaleSpec | sdk/src/crypto/elgamal.ts:438-455 | scaling by any integer, 0 mod q included, scales the plaintext |
| ExactCipher.ScaleExact | sdk/src/crypto/elgamal.ts:438-455 | scaling by any integer k gives that of (k*m, k*r) |
| ExactCipher.RandomizeAdds | sdk/src/crypto/elgamal.ts:383-397 | re-randomising any two points under any key is adding an encryption of zero with the drawn scalar, and fails outside 1..q-1 |
| ExactCipher.RandomizeInjective | sdk/src/crypto/elgamal.ts:383-397 | it always changes the ciphertext, and two scalars give the same result exactly when they are equal |
| TwistedElGamal.Unmasked | sdk/src/crypto/elgamal.ts:305-307 | subtracting 1/x times the second component leaves m*H |
| TwistedElGamal.Decrypt | sdk/src/crypto/elgamal.ts:297-311 | the calls of decrypt, with their errors, compute its specification |
| TwistedElGamal.DecryptSpec | sdk/src/crypto/elgamal.ts:297-311 | under an invertible key decryption gives m mod q if it is within the bound, and null otherwise |
| TwistedElGamal.EvaluateEncrypts | sdk/src/crypto/elgamal.ts:263-455 | a history of encrypt, zero, add, sub, scale and randomize succeeds exactly when no random scalar it uses is 0, and then encrypts its plain balance |
| ExactCipher.EvaluateExact | sdk/src/crypto/elgamal.ts:263-455 | every history under any key yields, byte for byte, the encryption of its balance with the randomness it accumulates |
| ExactCipher.HistoriesAgree | sdk/src/crypto/elgamal.ts:263-455 | two histories yield the same ciphertext exactly when balance and accumulated randomness agree modulo q |
| TwistedElGamal.LedgerRefines | sdk/src/crypto/elgamal.ts:263-455 | the encrypted ledger refines the plain one: after any history of encrypt, zero, add, sub, scale and randomize, decryption gives the balance mod q within the bound or null, hence the balance itself when 0 <= balance <= maxBalance < q |
| TwistedElGamal.SeededLedger | sdk/src/crypto/elgamal.ts:214-311 | the same for a key derived from any 32-byte seed: decryption never meets a secret without inverse |
| ByteTools.ConcatBytes | sdk/src/utils.ts:252-264 | the two passes produce the concatenation of the parts |
| ByteTools.ConstantTimeEqual | sdk/src/utils.ts:235-246 | the accumulating comparison decides equality |
| AmountText.FormatParse | sdk/src/utils.ts:350-388 | formatting succeeds exactly for 0 to 20 decimals, and the text parses back to the amount exactly when the amount is not negative |
| AmountMeaning.ParseExactly | sdk/src/utils.ts:370-388 | a text is read exactly if, trimmed, it is digits or digits, a dot and at most as many digits as decimals; and then as the number they mean |
| AmountMeaning.TrimSpec | sdk/src/utils.ts:374 | trimming removes white space at both ends, and all of it |
| AmountMeaning.FormatExactly | sdk/src/utils.ts:350-365 | amounts that are not negative are written as the digits that mean them, none of which could be left out |
| Sigma.Responds | sdk/src/crypto/sigma.ts:123-125 | the honest response t + c*w satisfies z*P = t*P + c*(w*P) |
| Sigma.ChallengeString | sdk/src/crypto/sigma.ts:57-63 | a challenge is the digest, modulo q, of one string: the domain and behind it the messages, each in its 32-byte field, in order |
| Sigma.ChallengeBinds | sdk/src/crypto/sigma.ts:57-63 | two lists of messages draw the same challenge under every hash exactly when they are equal |
| Sigma.DomainsSeparate | sdk/src/crypto/sigma.ts:44-54 | no string hashed for one protocol is hashed for another |
| Sigma.ExtractOne | sdk/src/crypto/sigma.ts:201-212 | two answers to different challenges reveal the witness (z - z')/(c - c') of an equation over one point |
| Sigma.ExtractTwo | sdk/src/crypto/sigma.ts:189-200 | the same for an equation over two generators |
| PubkeyValidity.VerifyMeaning | sdk/src/crypto/sigma.ts:249-268 | the verifier accepts exactly the proofs that parse, have non-zero challenge and answer, and satisfy the equation |
| PubkeyValidity.ChallengeInputs | sdk/src/crypto/sigma.ts:234-262 | the challenge hashes key and commitment, in this order, and is the same under every hash exactly when both agree |
| PubkeyValidity.Completeness | sdk/src/crypto/sigma.ts:223-268 | the prover fails exactly on malformed and zero keys; its bytes hold the commitment and the answer, and are accepted unless the challenge or the answer is 0 |
| PubkeyValidity.HonestRejected | sdk/src/crypto/sigma.ts:223-268 | for every secret there is a random scalar whose honest proof is rejected under a challenge of 1 |
| PubkeyValidity.SpecialSoundness | sdk/src/crypto/sigma.ts:249-268 | two accepted proofs with one commitment and different challenges reveal the secret of the key |
| ZeroBalance.VerifyMeaning | sdk/src/crypto/sigma.ts:303-340 | the verifier accepts exactly the proofs that parse, have non-zero challenge and answer, and satisfy both equations |
| ZeroBalance.ChallengeInputs | sdk/src/crypto/sigma.ts:289-324 | the challenge hashes key, ciphertext and both commitments, in this order, and is the same under every hash exactly when all agree |
| ZeroBalance.Completeness | sdk/src/crypto/sigma.ts:277-340 | for all keys, randomness and nonces: the prover succeeds exactly for nonces in range, its bytes parse back to the honest answer, and they are accepted unless the challenge or the answer is 0 |
| ZeroBalance.HonestRejected | sdk/src/crypto/sigma.ts:277-340 | for every key and every randomness that is not 0 there is a nonce whose honest proof is rejected under a challenge of 1 |
| ZeroBalance.SpecialSoundness | sdk/src/crypto/sigma.ts:324-336 | two accepted proofs with the same commitments and different challenges show that the ciphertext encrypts 0 under its key |
| EqualityProof.ProveResult | sdk/src/crypto/sigma.ts:76-142 | the prover succeeds exactly when the multipliers it does not guard are non-zero, and what bytes it returns |
| EqualityProof.ParseHonest | sdk/src/crypto/sigma.ts:161-174 | parsing the concatenated bytes recovers every point and scalar |
| EqualityProof.VerifyMeaning | sdk/src/crypto/sigma.ts:148-217 | the verifier accepts exactly the proofs that parse, have non-zero challenge and answers, and satisfy the four equations |
| EqualityProof.ChallengeInputs | sdk/src/crypto/sigma.ts:110-188 | the challenge hashes both keys, both ciphertexts and the four commitments, in this order, and is the same under every hash exactly when all agree |
| EqualityProof.HonestFields | sdk/src/crypto/sigma.ts:127-135 | the proof bytes hold A1..A4 and z1..z3, in this order |
| EqualityProof.Completeness | sdk/src/crypto/sigma.ts:76-217 | for all witnesses and nonces the honest bytes parse back, and are accepted for the two ciphertexts of v exactly when the challenge and the three answers are non-zero |
| EqualityProof.HonestRejected | sdk/src/crypto/sigma.ts:76-217 | for every value that is not 0 there is a nonce whose honest proof is rejected under a challenge of 1 |
| EqualityProof.Extracted | sdk/src/crypto/sigma.ts:189-212 | two solutions of the four equations for the same A1..A4 reveal v, rS and rD with both ciphertexts made from them |
| EqualityProof.SpecialSoundness | sdk/src/crypto/sigma.ts:189-213 | two accepted proofs with the same four commitments and different challenges: both ciphertexts encrypt one value, each under its own key |
| EqualityProof.SoundnessDecrypts | sdk/src/crypto/elgamal.ts:302-310 | so the holders of the two keys decrypt the same |
| Transcript.Transcript.Append | sdk/src/crypto/bulletproof.ts:63-68 | the state becomes the hash of state, label, 32-bit length and bytes |
| Transcript.Transcript.ChallengeScalar | sdk/src/crypto/bulletproof.ts:70-75 | the digest becomes the state and, reduced, the challenge |
| TranscriptBinding.AbsorbedString | sdk/src/crypto/bulletproof.ts:63-68 | absorbing hashes one string: the state, the letters of the label, the length in four bytes, and the bytes |
| TranscriptBinding.DrawnString | sdk/src/crypto/bulletproof.ts:70-75 | drawing hashes the state and the letters of the label; the digest is the state and, modulo q, the challenge |
| TranscriptBinding.PlayBinds | sdk/src/crypto/bulletproof.ts:55-80 | a challenge drawn after any list of operations is the same under every hash exactly when every string absorbed is the same |
| InnerProduct.FoldedTerm | sdk/src/crypto/bulletproof.ts:312-317 | one index of the folded vectors is two terms of the original plus u^2 and u^-2 times the cross terms |
| InnerProduct.RoundIdentity | sdk/src/crypto/bulletproof.ts:275-321 | one round, any length: the folded commitment plus the term an odd length loses is the original commitment plus u^2*L + u^-2*R |
| InnerProductProver.RunShape | sdk/src/crypto/bulletproof.ts:272-329 | a run emits floor(log2 n) pairs, and ends with vectors of length one |
| InnerProductProver.FoldingIdentity | sdk/src/crypto/bulletproof.ts:266-329 | all rounds, any length: the final commitment plus the lost terms is the original commitment plus the sum of u_j^2*L_j + u_j^-2*R_j |
| InnerProductLengths.LengthExact | sdk/src/crypto/bulletproof.ts:266-329 | in every group and for every transcript: the plain identity holds for all vectors of length n, all hashes and all successful runs exactly when n is a power of two |
| InnerProductLengths.OtherLengthsFail | sdk/src/crypto/bulletproof.ts:276-312 | for every other length, vectors and a hash whose run succeeds without the identity |
| InnerProductProver.PowerOfTwoIdentity | sdk/src/crypto/bulletproof.ts:266-329 | for length 2^k: exactly k pairs, and a*g + b*h = <a,G> + <b,H> + the sum over all rounds |
| InnerProductProver.GeneratorsOnly | sdk/src/crypto/bulletproof.ts:315-316 | the final generators depend on the challenges alone |
| InnerProductProver.OpeningEquation | sdk/src/crypto/bulletproof.ts:248-329 | hence the equation a verifier can recompute from the generators, the challenges and the pairs |
| InnerProductProver.ThreeElements | sdk/src/crypto/bulletproof.ts:276-312 | with three elements the identity holds exactly when the third term is neutral |
| InnerProductLoop.CrossPoints | sdk/src/crypto/bulletproof.ts:285-300 | the loop with its four zero guards computes L and R |
| InnerProductLoop.FoldVectors | sdk/src/crypto/bulletproof.ts:307-317 | the loop computes the folded vectors, and no multiplication in it throws |
| InnerProductLoop.InnerProductProve | sdk/src/crypto/bulletproof.ts:248-330 | the whole loop computes the run from the s-mixed vectors, fails exactly when a challenge has no inverse, and leaves the transcript where the run ends |
| RangeBinding.RoundBinds | sdk/src/crypto/bulletproof.ts:302-305 | behind any transcript, the challenge of a round is the same under every hash exactly when L and R are |
| RangeWitness.BitsLE | sdk/src/crypto/bulletproof.ts:106-114 | the loop emits the n low bits |
| RangeWitness.WitnessRelation | sdk/src/crypto/bulletproof.ts:143-144 | the bits recompose to the value exactly when it is below 2^n; aR = aL - 1 and aL*aR = 0 at every index |
| RangeWitness.CommitBits | sdk/src/crypto/bulletproof.ts:149-158 | the branching loop computes alpha*G + <aL, gVec> + <aR, hVec>, and throws exactly for alpha outside 1..q-1 |
| RangeWitness.CommitBlinding | sdk/src/crypto/bulletproof.ts:166-171 | the loop for S computes rho*G + <sL, gVec> + <sR, hVec>, and throws exactly when a scalar is out of range |
| RangeProof.Prove | sdk/src/crypto/bulletproof.ts:122-240 | the input errors, when the prover throws, and otherwise that the bytes are the layout of A, S, T1, T2, the three scalars with their congruences, and the run of the inner-product argument on the bits of the value, under the challenges that the transcript gives from its domain on |
| RangeHeader.HeaderOpens | sdk/src/crypto/bulletproof.ts:178-207 | t_hat*G + tau_x*H = x*T1 + x^2*T2 + z^2*(value*G + r*H) |
| RangeHeader.OpensExactly | sdk/src/crypto/bulletproof.ts:122-207 | with the transmitted commitment value*H + r*G in that place, the equation holds in all honest runs about value and r, for every hash and all other randomness, exactly when value and r agree modulo the order or G = H |
| RangeHeader.HeaderFails | sdk/src/crypto/bulletproof.ts:122-216 | for all other values and blinding factors, an honest run that goes through to the end and in which the equation fails |
| RangeHeader.OpensCommitment | sdk/src/crypto/bulletproof.ts:178-207 | in one run, under given challenges, it holds exactly in those cases and when z is 0 |
| RangeProof.CommitmentIsCipherHalf | sdk/src/crypto/elgamal.ts:508-519 | the commitment of a range proof is the first half of a ciphertext of the same value and randomness |
| RangeFields.ProofReads | sdk/src/crypto/bulletproof.ts:218-236 | every emitted proof reads back, field by field: A, S, T1, T2, tau_x, mu, t_hat, the points L_j, the points R_j, a and b; and its commitment as value*H + r*G |
| RangeFields.ReadsUnique | sdk/src/crypto/bulletproof.ts:218-230 | the bytes determine what is read |
| RangeFields.WitnessOpens | sdk/src/crypto/bulletproof.ts:143-216 | the folded witness commits to A and S without their blinding and z times the sum of the h_i |
| RangeFields.RunReplays | sdk/src/crypto/bulletproof.ts:302-305 | the challenges of the rounds can be recomputed from the transcript and the pairs of points |
| RangeFields.VerifierEquation | sdk/src/crypto/bulletproof.ts:122-240 | for 2^k bits, what is read from the bytes satisfies a*g + b*h + (alpha + rho)*G = A + S + z*(h_1 + .. + h_n) + sum of u_j^2*L_j + u_j^-2*R_j, with all challenges and folded generators recomputed |
| RangeBinding.HeaderBinds | sdk/src/crypto/bulletproof.ts:146-188 | z is the same under every hash exactly when commitment, A and S are, and x exactly when T1 and T2 are as well |
| RangeFields.VerifyAccepts | sdk/src/crypto/bulletproof.ts:362-391 | the structural check accepts exactly the strings of the right length that begin with four encodings of points, with the encoding of a point as commitment, for bit lengths that are powers of two up to 128 |
| RangeProof.ProofSizes | sdk/src/crypto/bulletproof.ts:366-375 | every emitted proof has the size of floor(log2 n) rounds, and verify accepts it exactly when n is a power of two; the size is then proofSize(n) |
| RangeProof.PowersOfTwo | sdk/src/crypto/bulletproof.ts:453-459 | the test by logarithm is the test for powers of two |
| Aggregation.Aggregate | sdk/src/crypto/bulletproof.ts:393-430 | the loops over the transcript and the points compute the aggregate, or the error |
| Aggregation.AggregateSucceeds | sdk/src/crypto/bulletproof.ts:394-424 | aggregation succeeds exactly when there is a proof, the bit lengths agree and the commitments are points; otherwise the first bad commitment decides the error |
| Aggregation.AggregateLayout | sdk/src/crypto/bulletproof.ts:415-429 | link scalar, commitments and proof bytes are found again in the aggregate, one behind the other, under the sum of the commitments |
| Aggregation.AggregateCommits | sdk/src/crypto/bulletproof.ts:418-424 | the commitment of an aggregate is that to the sum of the values with the sum of the blinding factors |
| Aggregation.LinkBinds | sdk/src/crypto/bulletproof.ts:405-414 | the link is the same under every hash exactly when all commitments and all proof bytes are |
| Aggregation.AggregateVerifies | sdk/src/crypto/bulletproof.ts:362-430 | verify accepts an aggregate exactly when the bit length is a power of two up to 128, the sizes of all parts add up to that of one proof, the link is a point, and so are the first two fields of the body of one proof, or the first one of two |
| Aggregation.AggregateRejected | sdk/src/crypto/bulletproof.ts:373-420 | proofs of one bit length that verify accepts can be aggregated, and verify rejects the aggregate, because of its length |
| Aggregation.SevenPointsAccepted | sdk/src/crypto/bulletproof.ts:362-430 | one proof of seven points, itself rejected, whose aggregate is accepted exactly when the link is a point |
| Aggregation.AggregateAccepted | sdk/src/crypto/bulletproof.ts:362-430 | over the integers modulo any odd prime, and for every hash, that aggregate is accepted |
| Program.Program.Initialize | programs/ghos/src/instructions/initialize.rs:31-62 | creates the config with the compiled-in constants, once |
| Program.Program.ConfigUpdate | programs/ghos/src/instructions/config_update.rs:50-105 | the admin check, every field with its bound, and the timestamp; nothing else changes |
| Program.Program.MixInit | programs/ghos/src/instructions/mix_init.rs:35-73 | the checks in order and every field of the new round, with saturating deadlines |
| Program.Program.MixCommit | programs/ghos/src/instructions/mix_commit.rs:34-70 | the checks in order, the new entry with the next index, the count and the phase |
| Program.Program.MixReveal | programs/ghos/src/instructions/mix_reveal.rs:31-69 | the checks in order, the opened entry, the count and the phase |
| Program.Program.MixSettle | programs/ghos/src/instructions/mix_settle.rs:27-63 | the decision by phase, window and current minimum |
| Program.Program.AuditorRegister | programs/ghos/src/instructions/auditor_register.rs:46-81 | the checks in order and the new entry |
| Program.Program.AuditorRotate | programs/ghos/src/instructions/auditor_rotate.rs:43-78 | the cooldown by saturating subtraction, the proof verdict, and the two fields that change |
| Program.Program.ExecuteAll | programs/ghos/src/lib.rs:27-162 | any sequence of instructions leaves the accounts of the run of steps |
| MixInvariant.CommitKeeps | programs/ghos/src/instructions/mix_commit.rs:40-61 | a commit keeps the invariant of every round and entry |
| MixInvariant.RevealKeeps | programs/ghos/src/instructions/mix_reveal.rs:38-61 | so does a reveal |
| MixInvariant.SettleKeeps | programs/ghos/src/instructions/mix_settle.rs:33-55 | so does a settlement |
| MixInvariant.ReachableOk | programs/ghos/src/instructions/mix_commit.rs:40-61 | in every reachable state, for every round: committed is the number of its entries and their indices are exactly 0..committed-1, revealed is the number of opened entries, revealed <= committed <= capacity, 4 <= capacity <= 16, the counters fit the phase, and every opened entry's signal opens its commitment |
| MixProvenance.CommitProvenance | programs/ghos/src/instructions/mix_commit.rs:46-57 | an entry exists exactly if its participant has committed, once; and holds the bytes and the time of that instruction, and the count before it as index |
| MixProvenance.RevealProvenance | programs/ghos/src/instructions/mix_reveal.rs:48-58 | it is revealed exactly if its participant has revealed, once; and holds the signal and the time of that instruction, whose preimage opens the commitment |
| MixProvenance.RoundProvenance | programs/ghos/src/instructions/mix_init.rs:45-66 | a round exists exactly if it was opened, once; and keeps host, denomination, capacity and the deadlines of that instruction for ever |
| MixProvenance.CommitExactly | programs/ghos/src/instructions/mix_commit.rs:34-45 | in every reachable state a commit succeeds exactly in the commit phase, within its window, by somebody who has not committed, while not paused |
| MixProvenance.RevealExactly | programs/ghos/src/instructions/mix_reveal.rs:31-52 | a reveal succeeds exactly if the committed bytes are its hash, its participant has not revealed, the phase is reveal, the window has not passed, while not paused |
| MixProvenance.HonestReveal | programs/ghos/src/instructions/mix_reveal.rs:31-52 | so an honest participant can reveal exactly as long as the phase and the window last, while not paused |
| MixProvenance.SettleExactly | programs/ghos/src/instructions/mix_settle.rs:27-55 | only the host who opened a round can settle it: full with enough reveals, or after the reveal window |
| MixProvenance.InitExactly | programs/ghos/src/instructions/mix_init.rs:35-44 | exactly which rounds can be opened |
| MixProvenance.CommitErrors | programs/ghos/src/instructions/mix_commit.rs:34-45 | what each error says; a round in its commit phase is never full |
| MixProvenance.RevealErrors | programs/ghos/src/instructions/mix_reveal.rs:31-52 | what each error says; an entry never belongs to somebody else |
| MixHistory.FinishedForever | programs/ghos/src/instructions/mix_settle.rs:33-55 | settled and aborted rounds and their entries never change again |
| MixHistory.FinishedHistory | programs/ghos/src/instructions/mix_settle.rs:33-55 | every settled round had at least the minimum in force when it settled; every aborted round was below the minimum in force, after its reveal window; and the host did it |
| MixHistory.SettledAboveFloor | programs/ghos/src/instructions/config_update.rs:73-76 | settled rounds have revealed at least every lower bound on the requested minima, four if the minimum was never changed, and two in any case |
| MixHistory.CountersCount | programs/ghos/src/instructions/mix_reveal.rs:54-61 | the counters of a round are the numbers of commits and reveals that ever succeeded on it, and one settlement succeeded exactly if it is finished |
| MixHistory.BoundedWork | programs/ghos/src/instructions/mix_commit.rs:58-61 | at most 2*capacity + 1 instructions ever succeed on a round, reached exactly by rounds settled with every reveal |
| MixHistory.LapsedRoundIsStuck | programs/ghos/src/instructions/mix_commit.rs:42-44 | a round that is not full when its commit window closes never changes again, and neither do its entries |
| MixHistory.LapsedExactly | programs/ghos/src/instructions/mix_commit.rs:40-61 | it is stuck from a time on exactly when the window has closed by then: before, somebody new can still commit |
| MixHistory.TimeoutExactly | programs/ghos/src/instructions/mix_settle.rs:37-47 | a round in its reveal phase can be settled or aborted at some time exactly when its deadline is below the end of the clock |
| MixHistory.SaturatedDeadline | programs/ghos/src/instructions/mix_settle.rs:33-55 | in every reachable state a round with the saturated deadline is not aborted, and if settled has every reveal |
| MixHistory.SampleRun | programs/ghos/src/instructions/mix_init.rs:35-73 | runs that end in rounds of both kinds |
| MixHistory.PauseFreezes | programs/ghos/src/utils/validation.rs:13-16 | while paused only the admin's config updates change anything |
| AdminHistory.UpdateStores | programs/ghos/src/instructions/config_update.rs:54-94 | an accepted update stores the requested value and leaves every other one as it is |
| AdminHistory.UpdateExactly | programs/ghos/src/instructions/config_update.rs:50-94 | in every reachable state an update succeeds exactly if the admin signs it and the configuration it asks for is in order |
| AdminHistory.ConfigProvenance | programs/ghos/src/instructions/initialize.rs:31-62 | every value of the configuration is the one last requested for it, or the compiled-in one; and its time is that of the last change |
| AdminHistory.AuditorProvenance | programs/ghos/src/instructions/auditor_rotate.rs:60-69 | an auditor entry has the terms of its registration, and the key and time of the last successful registration or rotation |
| AdminHistory.RegisterExactly | programs/ghos/src/instructions/auditor_register.rs:46-66 | exactly when an auditor can be registered |
| AdminHistory.RotateExactly | programs/ghos/src/instructions/auditor_rotate.rs:43-59 | exactly when it can be rotated: by the admin who registered it, after the cooldown, with an accepted proof, while not paused |
| MixConfluence.StillReady | programs/ghos/src/instructions/mix_reveal.rs:38-61 | after a reveal by somebody else a reveal succeeds exactly if it would have before |
| MixConfluence.AllSucceed | programs/ghos/src/instructions/mix_reveal.rs:38-61 | a list of reveals succeeds exactly when nobody reveals twice and each would succeed on its own |
| MixConfluence.RevealAllOutcome | programs/ghos/src/instructions/mix_reveal.rs:54-61 | the count, the phase and every entry after a list of reveals |
| MixConfluence.RevealsConfluent | programs/ghos/src/instructions/mix_reveal.rs:54-61 | every order of the same reveals, at any times within the window, succeeds if one does, and reaches the same state up to the recorded times |
| AuditorRate.SaturationSafe | programs/ghos/src/instructions/auditor_rotate.rs:53-57 | saturating subtraction lets no rotation through early |
| AuditorRate.RotationsSpaced | programs/ghos/src/instructions/auditor_rotate.rs:51-69 | the successful rotations of an entry are spaced by its cooldown, counted from the registration, under any clock |
| AuditorRate.RotationRate | programs/ghos/src/instructions/auditor_rotate.rs:51-69 | k rotations with cooldown c satisfy k*c <= last_rotated_at - registered_at |
| AuditorRate.RotationWindow | programs/ghos/src/instructions/auditor_rotate.rs:51-69 | a window of length w holds at most w/c + 1 of them |
| AuditorRate.NoCooldownNoLimit | programs/ghos/src/instructions/auditor_register.rs:67-69 | every cooldown up to zero, negative ones included, which registration accepts, allows any number of rotations in one second |

## Left out

- CliLedger.LedgerDecrypts: takes the primality of L and the order of the base point as a hypothesis (`PrimeBase`); `CliLedger.LedgerScans`, `CliLedger.DecryptOfEncrypt` and the per-operation results need neither.
- Constants.ConstantsValid: takes the primality of p as a hypothesis; `Constants.ComputedConstantsValid` covers the computed root of -1 without deciding which of the two roots it is.
- RangeProof.Verify: the full range-proof verification of the on-chain proof program is not part of this model.
- EqualityProof.SpecialSoundness: two hashes with different challenges stand for rewinding, here and in the other two protocols; zero knowledge, hiding and hash collision resistance are not modelled.
- TwistedElGamal.Randomize: the sampler of a non-zero scalar, with its sixteen attempts, is an argument known to be in 1..q-1.
- BabyStepGiantStep.DiscreteLogOnH: the table is keyed by the 32 bytes of an encoding, not by their hex text; the step is an integer.
- InnerProductLoop.CrossPoints: the low and high halves are indices into one vector instead of slices; one round is split over several methods.
- ScalarCodec.Clamp: the masks are written as arithmetic; `ScalarCodec.MaskBits` shows on one byte that they are the same.
- RangeWitness.CommitBits: the generator vectors are arguments; their derivation by hashing labels is not modelled.
- Program.Program: events, rent, bump seeds, reserved bytes and address hashing are not modelled; keys are natural numbers, and the clock, the hash and the verdict of the proof program are arguments.
- ProgramSteps.ConfigUpdate: mix_min <= mix_max is not an invariant of the code, so it is not one of the model.
- The two ciphers are not related to each other: (rG, mG + rP) and (mH + rG, rP) do not decrypt under each other.
- Parsing of secret and public key objects from bytes, serialization of ciphertexts to 64 bytes, and the hash of a seed.
- That H is independent of G: no property here needs it, and the SDK's default H is a known multiple of G.
- `shield`, `withdraw`, `apply_pending`, `confidential_transfer` and the burner instructions: calls into programs whose code is not here, or single checks.
- RPC client, retries, subscriptions, command line, configuration files, instruction builders, migrations and scripts: input/output.
- Error texts and numeric error codes: errors are named by what went wrong.
