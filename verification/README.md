# BlindAge in Dafny

This project models the parts of BlindAge where correctness is hard to see from
the code, and proves what they promise:

- **RSA blind signatures** (`rsabssa.py` and its JavaScript port): EMSA-PSS with
  SHA-384, blinding, signing and unblinding. RSA is not assumed: Fermat's little
  theorem and the Chinese remainder step are proved (`Primes`, `Arithmetic`), and
  completeness and perfect blinding are derived from n = p q.
- **BBS selective disclosure** (`bbs.py`): signatures, proofs, octet formats.
  G1, G2 and GT are groups of one prime exponent r with a bilinear, non-degenerate
  pairing and nothing more, except that hiding takes G1 to be cyclic;
  hash-to-scalar, the generators and the point encodings are parameters of a
  `Suite`. `BbsExamples` builds one over the integers modulo 3, so the assumptions
  have an instance, and shows the BBS deviations below on it.
- **Redemption**: the verifier with its one-time challenges and replay cache,
  first as the sequential code runs it, then as a state machine in which any
  number of calls interleave; then together with enrolment and issuance, for
  tokens and for credentials.
- **The registry anchor**: the Solidity contract, the publisher's precheck and
  the auditor, with UTF-8 order against code-point order.
- **Canonical JSON**: the recursive printer whose output is signed, a reader for
  its grammar, and JavaScript's key order against Python's.
- **The trust registry, the issuer's key store and gates, the wallet stores, and
  the credential** from issuance to redemption.

Code that computes by loops or changes fields in place is a method or a class
proved against a specification function; the properties are lemmas about those
functions. What the functions compute is stated again without them: octet strings
at literal offsets, verdicts flag by flag, refusals as exact conditions. Nothing is
assumed of SHA-384 or of hash-to-scalar: where a value can be shared only by a
collision, the lemma names the two octet strings that collide.

Random values, clocks, the SHA-384 function, the curve and base64 are parameters.
Dafny's `string` is a sequence of Unicode scalar values, which is what a Python
`str` that can be encoded is; JavaScript strings are sequences of 16-bit units
(`Utf16.Text`).

`dafny verify dfyconfig.toml` checks everything.

## Modules

| module | models |
|---|---|
| Arithmetic, Primes, Bits, Octets | number theory, bitwise operations, OS2IP and I2OSP |
| EmsaPss, BlindRsa, PssBinding, RsaJs | sections 8.1 and 9.1 of RFC 8017, section 4 of RFC 9474, what encodings and signatures bind, and the JavaScript loops |
| Groups, Sums, Bbs, BbsAlgebra, BbsEncoding, BbsProtocol, BbsHiding, BbsLoops, BbsExamples | BBS: correctness, extraction and hiding, and a small instance |
| BbsLayout, BbsWire | the octets that BBS hashes and exchanges, at their offsets, and what they bind |
| Utf8, Utf16, Anchor | text encodings and orders, the contract, the publisher's precheck, the auditor |
| CanonicalJson, JsonText, JsonReader, JsonMembers, JsonMeaning, JsonOrders | the printer, its text, the reader, what printed text identifies, JavaScript against Python |
| Schemas, Registry, Eligibility, Issuer | records, registry acceptance, ages, key store and issuance gate |
| Verifier, Verdicts, Redemption, Issuance, CredentialIssuance | the verifier and its verdicts, concurrent redemption, the whole system for tokens and for credentials |
| Mint, Wallet, MessageVector, Credential, CredentialSoundness | batches of tokens, token stores, credentials end to end, what an allowed presentation proves |
| CredentialExamples, RunExamples, CredentialRunExamples | the verifier and the whole system at concrete inputs |

## What the code does not do as documented

- `bbs_proof_verify` says that non-ascending indexes yield False. It checks their
  range only. An honest transcript over any list in range, descending or with
  repetitions, verifies exactly when none of its scalars is 0
  (`BbsProtocol.AnyListVerifies`, `BbsProtocol.NonAscendingAccepted`,
  `BbsExamples.DescendingAccepted`). A repeated index certifies only the sum of
  the messages listed under it (`BbsProtocol.Extraction`,
  `BbsExamples.RepeatedIndexAccepted`); every listed message agrees with the
  signed vector exactly when the list is distinct (`Sums.AgreesIffDistinct`).
- `verify_vc_presentation` says that its shape check stops index games. An honest
  transcript over [0, 1, 2, k] is allowed exactly when none of its scalars is 0,
  whatever k within range (`CredentialSoundness.HonestAllowedExact`), so also for
  k <= 2, where the list is not distinct (`CredentialSoundness.ShapeDistinct`) and
  the signed vector holds the sum of the claim and the metadata at k
  (`CredentialSoundness.AllowedExtracts`). `CredentialExamples.FourthIndexAllowed`
  gives such presentations for k = 0, 1, 2, 3 and 4.
- `bbs.py` says that proofs are zero-knowledge and unlinkable. For draws over all
  residues a proof does not tell signatures or hidden messages apart: an accepted
  proof comes from exactly one choice of draws for every signature under the key
  on a vector that agrees with what is disclosed (`BbsHiding.OneDraw`,
  `BbsHiding.Unlinkable`). The source never draws 0, so a
  proof rules out exactly the signatures of `BbsHiding.RulesOut`, among them those
  with a hidden scalar equal to its response divided by the challenge
  (`BbsExamples.DrawsTellApart` is an input).
- `bbs_sign` announces BbsError for SK + e = 0, but the modular inverse before
  that check raises ValueError in exactly this case; the announced branch is
  reached only for B = identity (`BbsProtocol.SignOutcome`,
  `BbsExamples.SignRaisesValueError`).
- `bbs_sign` can return a signature with e = 0, which `bbs_verify` rejects, and
  an honest proof with a zero scalar does not parse. Both conditions are exact
  (`BbsProtocol.SignVerifies`, `BbsProtocol.ProofCompleteness`); inputs are in
  `BbsExamples.SignedButRejected` and `BbsExamples.ZeroScalarRefused`.
- `bbs_verify` accepts one point for each scalar e, but every point when
  SK + e = 0 and B is the identity (`BbsProtocol.SignatureUnique`,
  `BbsProtocol.AnyPointVerifies`, `BbsExamples.TwoPointsVerify`).
- `blind_sign` refuses the blinded value 1, which an honest blinding can produce
  (`BlindRsa.Completeness` says exactly when). Every unit message has exactly one
  factor that does (`BlindRsa.RefusedDraw`).
- `canonicalString` sorts keys by UTF-16 unit, Python by code point. The two
  agree exactly when no object has two keys whose first difference is between a
  supplementary code point and one in U+E000..U+FFFF
  (`JsonOrders.EncodersAgree`, `JsonOrders.EncodersDisagree`).

## Model

| member | source | states |
|---|---|---|
| Octets.Os2ipOfI2osp | blindage/crypto/rsabssa.py:70-75 | reading back the octets of a value that fits gives the value |
| Octets.I2ospOfOs2ip | blindage/crypto/rsabssa.py:70-75 | writing the value of any octet string in its own length gives the string |
| EmsaPss.Mgf1Loop | blindage/crypto/rsabssa.py:78-82 | the loop returns the first maskLen octets of the counter-block stream, and fails only past 2^32 blocks |
| EmsaPss.KeepLowIsAnd | blindage/crypto/rsabssa.py:98-100 | masking the first octet is the bitwise AND with 0xFF >> topBits |
| EmsaPss.EncodingBound | blindage/crypto/rsabssa.py:85-101 | for every emBits that the encoding fits, multiples of 8 or not, the encoded integer is below 2^emBits |
| EmsaPss.EncodingVerifies | blindage/crypto/rsabssa.py:85-101 | EMSA-PSS-VERIFY of section 9.1.2 of RFC 8017, which recomputes the hash of eight zero octets, the message hash and the salt it finds, accepts every encoding for its message |
| EmsaPss.VerifiedIsEncoding | blindage/crypto/rsabssa.py:85-101 | conversely, whatever that verification accepts with the given salt length is the encoding of the message under some salt of that length |
| PssBinding.FirstOctetWeighsMost | blindage/crypto/rsabssa.py:74-75 | the first octet of a string weighs 256 to the number of octets after it |
| PssBinding.OctetLengthLeast | blindage/crypto/rsabssa.py:109 | the modulus length is the least number of octets that hold the modulus |
| PssBinding.BitwiseOperations | blindage/crypto/rsabssa.py:97-100 | the operations that mask the block are exclusive or and AND, bit by bit |
| PssBinding.MaskOctets | blindage/crypto/rsabssa.py:78-82 | octet i of the mask is octet i mod 48 of the hash of the seed and the four-octet counter i / 48; no mask exists exactly past 2^32 blocks |
| PssBinding.EncodedOctets | blindage/crypto/rsabssa.py:85-101 | when the encoding exists, and every octet of it: the masked zeros, 01 and salt, the hash of eight zero octets, message hash and salt, and 0xbc |
| PssBinding.OneMessage | blindage/crypto/rsabssa.py:85-101 | an encoding that verifies for two messages: they are equal, or they collide, or the salted octets of the two collide under the salt found |
| BlindRsa.RsaIdentity | blindage/crypto/rsabssa.py:135-136 | x^(ed) = x mod pq for every x, coprime or not, when ed = 1 mod lcm(p-1, q-1); proved from Fermat and the coprimality of p and q |
| BlindRsa.RsaInverse | blindage/crypto/rsabssa.py:135-136 | signing and raising to e are inverse to each other on residues, in both orders |
| BlindRsa.KeyPairExample | blindage/crypto/rsabssa.py:127-130 | the assumptions made of a key pair hold of p = 3, q = 11, e = 3, d = 7 |
| BlindRsa.Blind | blindage/crypto/rsabssa.py:104-121 | the redraw loop blinds with the first factor drawn that is coprime to n, and fails exactly on an encoding error, a message sharing a factor with n, or when the draws given run out |
| PssBinding.FirstCoprimeExact | blindage/crypto/rsabssa.py:115-118 | the factor settled on is the first draw in [1, n-1] coprime to n |
| PssBinding.BlindExact | blindage/crypto/rsabssa.py:109-121 | for a coprime encoding blind returns the one octet string of the modulus length whose value is below n and congruent to m r^e, and the one inverse of r below n; otherwise nothing |
| PssBinding.BlindSignExact | blindage/crypto/rsabssa.py:131-138 | with a matching key pair blind_sign refuses exactly the values outside [2, n-1] and otherwise returns the one octet string of the modulus length whose value is below n and has the blinded value as e-th power |
| PssBinding.FinalizeExact | blindage/crypto/rsabssa.py:147-162 | finalize returns a signature if and only if the length is right and the octets of the product with the inverse are a PSS signature on the message |
| PssBinding.PssVerifyExact | blindage/crypto/rsabssa.py:154-159 | the signatures on a message are exactly the octet strings of the modulus length whose value is below n and has as e-th power the encoding of the message under the salt found, of 48 octets |
| PssBinding.SignatureBindsMessage | blindage/crypto/rsabssa.py:154-162 | a signature that verifies for two different messages exhibits two octet strings with one SHA-384 value |
| PssBinding.TokenBindsNonce | blindage/schemas/token.py:8-14 | a token signature that verifies for two different nonces exhibits two octet strings with one SHA-384 value |
| BlindRsa.BlindedIsUnit | blindage/crypto/rsabssa.py:117-121 | the blinded value of a unit under a unit factor is a unit, so never 0 |
| BlindRsa.UnblindedSignature | blindage/crypto/rsabssa.py:115-151 | unblinding the signature on m r^e leaves exactly m^d |
| BlindRsa.RawSignatureVerifies | blindage/crypto/rsabssa.py:135-160 | m^d of an encoded message is a residue whose e-th power is m and which PSS verification accepts |
| BlindRsa.EncodedBelowModulus | blindage/crypto/rsabssa.py:111-112 | the encoded message read as an integer is below n, for every modulus length |
| BlindRsa.Completeness | blindage/crypto/rsabssa.py:104-162 | blind succeeds; blind_sign never reaches its signing-failure error and refuses exactly the blinded value 1; finalize returns s with s^e mod n equal to the encoded message, accepted by PSS verification |
| BlindRsa.PerfectBlinding | blindage/crypto/rsabssa.py:115-121 | for units m and z exactly one r in [1, n-1] blinds m to z: a factor is coprime to n and gives z if and only if it is BlindingFactor(m, z) |
| BlindRsa.BlindingFactorInRange | blindage/crypto/rsabssa.py:116-120 | that factor lies in [1, n-1], so it can be drawn |
| BlindRsa.RefusedDraw | blindage/crypto/rsabssa.py:124-133 | for every unit message exactly one factor in [1, n-1] blinds it to 1, and blind_sign refuses what that factor gives |
| RsaJs.Os2ipLoop | extension/core/rsabssa.js:15-19 | the shift loop reads the big-endian value |
| RsaJs.I2ospLoop | extension/core/rsabssa.js:20-26 | the octet loop returns the big-endian form if and only if the value is in range, and throws otherwise |
| RsaJs.ModPow | extension/core/rsabssa.js:30-40 | square-and-multiply is exponentiation modulo mod, for bases of either sign under the truncating remainder; for exponent 0 it returns 1 unreduced |
| RsaJs.ModInverse | extension/core/rsabssa.js:41-51 | extended Euclid terminates, throws exactly when a and m share a factor, and otherwise returns the inverse in [0, m) |
| RsaJs.InverseResidue | extension/core/rsabssa.js:41-51 | the residue of a Bezout cofactor is the inverse in [0, m) |
| Arithmetic.InverseUnique | extension/core/rsabssa.js:41-51 | there is only one inverse in [0, m) |
| RsaJs.GcdLoop | extension/core/rsabssa.js:52 | the remainder loop returns a common divisor that every common divisor divides |
| RsaJs.Concat | extension/core/rsabssa.js:73-79 | copying the parts into one buffer at running offsets concatenates them |
| RsaJs.Mgf1Stream | extension/core/rsabssa.js:58-72 | streaming MGF1 into a buffer, with a short last block, gives the same mask as the Python loop |
| RsaJs.EncodeJs | extension/core/rsabssa.js:81-96 | emsaPssEncode returns what the Python encoder returns, errors included, so the octets of PssBinding.EncodedOctets |
| RsaJs.MaskInPlace | extension/core/rsabssa.js:91-94 | the xor loop and the in-place AND of the first octet give the masked data block |
| RsaJs.BlindWithJs | extension/core/rsabssa.js:114-122 | blindWith returns the blinded octets and the inverse that the Python blind returns for the same salt and factor, and fails on the same inputs |
| RsaJs.FinalizeJs | extension/core/rsabssa.js:138-148 | finalize returns what the Python finalize returns |
| Bbs.CreateGenerators | blindage/crypto/bbs.py:145-152 | generator i is the curve hash of the i-th value of the seed chain |
| BbsLayout.GeneratorsOfChain | blindage/crypto/bbs.py:145-152 | Q_1 and H_1, H_2, ... are the curve hashes of any sequence that starts with the expanded seed and expands each value with its index in eight octets |
| BbsLayout.DomainHashed | blindage/crypto/bbs.py:159-168 | the domain is the scalar of any octets that hold the key at 0, the count at 96, the generators from 104 on, 48 octets each, the API id, the header length and the header |
| BbsLayout.DomainInputExists | blindage/crypto/bbs.py:159-168 | such octets exist |
| BbsLayout.DomainBinds | blindage/crypto/bbs.py:159-168 | equal domains come from one key, one count and one header, or two given inputs have one scalar |
| BbsLayout.BValueGrows | blindage/crypto/bbs.py:171-176 | B starts with P1 plus the domain times Q_1 and gains, for every message, its scalar times its own generator |
| BbsLayout.SignScalarHashed | blindage/crypto/bbs.py:202-219 | e is the scalar of any octets that read, 32 at a time, as SK, each message scalar in order and the domain |
| BbsLayout.TraceExists | blindage/crypto/bbs.py:202-219 | such octets exist for every call |
| BbsLayout.SignScalarBinds | blindage/crypto/bbs.py:202-219 | equal e come from one key, one header and one message list, or two given inputs, of e, of the domain or of a message, have one scalar |
| BbsLayout.SignedOctets | blindage/crypto/bbs.py:221-228 | a signature is 80 octets: a nonidentity point A with (SK + e) A = B, then this e in 32 |
| BbsLoops.CalculateDomain | blindage/crypto/bbs.py:159-168 | the loop hashes the key, the number of generators, Q_1, every H_i, the API id, the header length and the header, in this order |
| BbsLoops.AddProducts | blindage/crypto/bbs.py:171-176 | the zip loop adds every weighted point to the accumulator, in order |
| BbsLoops.BbsSign | blindage/crypto/bbs.py:202-228 | the sequential code computes Sign, of which SignOutcome and SignedOctets say what it is, with the same error for every input |
| BbsLoops.CheckIndexes | blindage/crypto/bbs.py:395-408 | the index loop passes exactly the strictly increasing lists within range |
| BbsLoops.BbsProofGen | blindage/crypto/bbs.py:370-445 | the sequential prover computes ProofGen, of which BbsWire.ProofGenOctets says what it is, for the scalars drawn |
| BbsLoops.BbsProofVerify | blindage/crypto/bbs.py:448-514 | the sequential verifier computes ProofVerify, of which BbsWire.ProofVerifyHashes says what it accepts |
| BbsAlgebra.PairingCheckExact | blindage/crypto/bbs.py:256-259 | the pairing product is the identity if and only if (SK + e) A = B |
| BbsProtocol.SignOutcome | blindage/crypto/bbs.py:202-228 | bbs_sign succeeds, raises BbsError or raises ValueError exactly under the stated conditions on SK, SK + e and B |
| BbsProtocol.SignVerifies | blindage/crypto/bbs.py:202-259 | bbs_verify accepts a signature that bbs_sign returns if and only if its scalar e is not 0 |
| BbsProtocol.VerifyExact | blindage/crypto/bbs.py:231-259 | bbs_verify accepts exactly the octets that parse to (A, e) with (SK + e) A = B |
| BbsWire.VerifyRaises | blindage/crypto/bbs.py:231-240 | bbs_verify raises if and only if the key is not 96 octets of a nonidentity point |
| BbsWire.AcceptedSignatures | blindage/crypto/bbs.py:231-259 | bbs_verify accepts exactly 80 octets of a nonidentity point A and a scalar e in [1, r-1] with (SK + e) A = B |
| BbsProtocol.SignatureUnique | blindage/crypto/bbs.py:231-259 | for one scalar e there is only one accepted signature on a message vector, unless SK + e = 0 and B is the identity |
| BbsProtocol.AnyPointVerifies | blindage/crypto/bbs.py:231-259 | in that case every point but the identity is accepted with this e |
| BbsProtocol.ProofCompleteness | blindage/crypto/bbs.py:370-514 | an honest proof over a strictly increasing index set is made, has no identity point, and is accepted exactly when none of its scalars is 0 |
| BbsProtocol.AnyListVerifies | blindage/crypto/bbs.py:448-514 | for any list of indexes within range, in any order and with any repetitions, the honest transcript over a signature on the vector listed is accepted exactly when none of its scalars is 0 |
| BbsProtocol.NonAscendingAccepted | blindage/crypto/bbs.py:448-514 | against its documentation the verifier treats a proof over distinct, non-ascending indexes, which the prover refuses to make, as any other: it is accepted exactly when none of its scalars is 0 |
| Sums.AgreesIffDistinct | blindage/crypto/bbs.py:476-497 | every choice of scalars listed at the indexes agrees, at every index, with the vector they stand for if and only if no index is listed twice |
| BbsProtocol.Extraction | blindage/crypto/bbs.py:482-512 | from two accepted proofs with the same points, commitments, disclosed messages and indexes but different challenges A, e and a full vector are computed on which (A, e) passes the signature test, unless the r1 or r3 computed is 0; the vector holds at every index the sum of the messages listed there, so each of them when the list is distinct; the octets of (A, e) parse as a signature if and only if e is not 0 |
| BbsProtocol.ExtractionExceptions | blindage/crypto/bbs.py:482-512 | what the exceptions mean: r3 = 0 forces B to be the identity, r1 = 0 forces e = -SK |
| BbsHiding.DrawsExact | blindage/crypto/bbs.py:419-445 | a draw gives an accepted proof if and only if it blinds A and B to the points of the proof and its other scalars are the responses less the challenge times the witness |
| BbsHiding.OneDraw | blindage/crypto/bbs.py:265-276 | for cyclic G1 and any signature on a vector that agrees with what is disclosed, an accepted proof comes from exactly one choice of draws modulo r, and that choice has no 0 among them if and only if the proof does not rule the signature out |
| BbsHiding.Unlinkable | blindage/crypto/bbs.py:265-276 | the proof made from one signature for some draws is made from any other signature under the key that agrees with what is disclosed by exactly one choice of draws |
| BbsExamples.TriSuiteValid | blindage/crypto/bbs.py:62-72 | every suite over the group of order 3, whatever its hash, satisfies every assumption made of the curve, the pairing, the encodings and the hashes |
| BbsExamples.SignRaisesValueError | blindage/crypto/bbs.py:221-227 | an input with SK + e = 0: bbs_sign raises ValueError |
| BbsExamples.SignedButRejected | blindage/crypto/bbs.py:202-259 | an input with e = 0: bbs_sign returns a signature that bbs_verify rejects |
| BbsExamples.SignedAndVerified | blindage/crypto/bbs.py:202-259 | an input that is signed and verifies |
| BbsExamples.TwoPointsVerify | blindage/crypto/bbs.py:231-259 | an input with SK + e = 0 and B the identity: two different points are accepted with one e |
| BbsExamples.ZeroScalarRefused | blindage/crypto/bbs.py:320-327 | one proof request whose honest proof is accepted for one draw and rejected for another, whose first response is 0 |
| BbsExamples.DescendingAccepted | blindage/crypto/bbs.py:476-481 | a proof over the indexes 1, 0 that verifies |
| BbsExamples.RepeatedIndexAccepted | blindage/crypto/bbs.py:476-497 | a proof over the indexes 0, 0 that verifies although the signed vector holds neither of the two disclosed scalars |
| BbsExamples.TriCyclic | blindage/crypto/bbs.py:66 | G1 of these suites is cyclic |
| BbsExamples.DrawsTellApart | blindage/crypto/bbs.py:419-421 | an accepted proof, made with draws that the source can make, that cannot come from another signature which agrees with what is disclosed |
| BbsEncoding.SignatureRoundTrip | blindage/crypto/bbs.py:278-288 | a nonidentity point and a nonzero scalar below r parse back from their 80 octets |
| BbsEncoding.ProofToOctetsLoop | blindage/crypto/bbs.py:333-348 | the loop serializes the points and all scalars in order |
| BbsEncoding.OctetsToProofLoop | blindage/crypto/bbs.py:295-330 | the parser slices three points and reads the scalar section 32 octets at a time |
| BbsEncoding.ParseScalarsLoop | blindage/crypto/bbs.py:320-327 | the scalar loop rejects at the first scalar that is 0 or at least r and otherwise returns all of them |
| BbsEncoding.ProofRoundTrip | blindage/crypto/bbs.py:295-348 | for any number of hidden messages parsing inverts serialization, and fails exactly when a scalar is 0 |
| BbsEncoding.ParsedWellFormed | blindage/crypto/bbs.py:295-330 | the parser returns only proofs with nonidentity points and scalars in [1, r-1] |
| BbsEncoding.DomainOctetsInjective | blindage/crypto/bbs.py:159-168 | the domain octets determine the key, all generators and the header |
| BbsEncoding.ChallengeOctetsInjective | blindage/crypto/bbs.py:351-367 | the challenge octets determine all points, the domain, every disclosed index and scalar, and the presentation header |
| BbsLayout.ChallengeHashed | blindage/crypto/bbs.py:351-367 | the challenge is the scalar of any octets that hold the number of pairs, each index in 8 and its scalar in 32 octets, then Abar, Bbar, D, T1 and T2 in 48 each, the domain, the header length and the header |
| BbsLayout.ChallengeInputExists | blindage/crypto/bbs.py:351-367 | such octets exist |
| BbsLayout.ChallengeBinds | blindage/crypto/bbs.py:351-367 | equal challenges come from one transcript, T1 and T2 included, one list of disclosed pairs and one header, or two given inputs have one scalar |
| BbsWire.ProofOctets | blindage/crypto/bbs.py:333-348 | the octets of a proof hold its points at 0, 48 and 96, three responses from 144 on, those of the hidden messages from 240 on, and the challenge |
| BbsWire.ProofParses | blindage/crypto/bbs.py:295-330 | octets parse to a proof if and only if they hold its points and scalars there and the proof is well formed |
| BbsWire.ProofGenOctets | blindage/crypto/bbs.py:370-445 | bbs_proof_gen refuses exactly a malformed key, a malformed signature and an index list that is too long, out of range or not ascending; its octets hold the points that the challenge input holds, and the scalar of that input |
| BbsWire.ProofVerifyHashes | blindage/crypto/bbs.py:448-514 | a parsed proof with indexes in range is accepted if and only if the key is well formed, its challenge is the scalar of the input over the points shown, T1, T2 and the disclosed scalars, and its points pair |
| Sums.ComplementAscends | blindage/crypto/bbs.py:407 | the undisclosed indexes are those not listed, in ascending order |
| Anchor.RegistryAnchor.constructor | registry/contracts/src/RegistryAnchor.sol:24-26 | a new contract has empty fields, version 0 and an empty log |
| Anchor.RegistryAnchor.SetAnchor | registry/contracts/src/RegistryAnchor.sol:30-45 | a call reverts with the first failing check and changes nothing, or updates all four fields and emits one event |
| Anchor.LexGt | registry/contracts/src/RegistryAnchor.sol:52-58 | the byte loop decides strict lexicographic order |
| Utf8.LexExact | registry/contracts/src/RegistryAnchor.sol:52-58 | one octet string is below another if and only if it is a proper prefix or is smaller at the first difference |
| Utf8.ScalarOctets | blindage/canonical.py:7-13 | the octets of a code point are those of the table of RFC 3629 |
| Utf8.EncodingConcat | blindage/canonical.py:7-13 | encodings are concatenated code point by code point |
| Anchor.RefusalExact | registry/contracts/src/RegistryAnchor.sol:30-37 | setAnchor accepts exactly the calls of the timelock that raise the version and the instant, and the sender is checked first |
| Anchor.StorageIsLastAccepted | registry/contracts/src/RegistryAnchor.sol:30-45 | after any calls the storage holds what the last accepted call wrote, the time modulo 2^64 included, and every accepted call is the timelock's |
| Utf8.EncodingOrder | registry/contracts/src/RegistryAnchor.sol:52-58 | comparing UTF-8 encodings octet by octet is comparing code point by code point |
| Utf8.EncodingInjective | registry/contracts/src/RegistryAnchor.sol:51-58 | different texts have different encodings |
| Anchor.OrderAgreement | blindage/registry_chain/publish.py:43 | the contract orders texts exactly as Python orders them |
| Anchor.TextOrderTotal | blindage/transparency/auditor.py:21 | that order is a strict total order |
| Anchor.PublisherAgrees | blindage/registry_chain/publish.py:43-47 | the publisher refuses exactly the updates that the contract would revert |
| Anchor.RunKeepsInvariant | registry/contracts/src/RegistryAnchor.sol:30-45 | after any calls whatever, reverted ones and arbitrary bytes included, the storage mirrors the last event and version and generatedAt strictly increase along the log |
| Anchor.LogIsAccepted | registry/contracts/src/RegistryAnchor.sol:30-45 | the log lists exactly the calls that were not refused, in their order |
| Anchor.RevertsLeaveNoTrace | registry/contracts/src/RegistryAnchor.sol:30-45 | running only the accepted calls of a run gives the same storage and log |
| Anchor.CheckHistory | blindage/transparency/auditor.py:14-26 | the loop over adjacent pairs lists their problems in order |
| Anchor.HistoryCleanIffIncreasing | blindage/transparency/auditor.py:14-26 | no problem over adjacent pairs if and only if both fields strictly increase between every two entries |
| Anchor.RollbacksExact | blindage/transparency/auditor.py:14-26 | a rollback is reported, with its two values, if and only if two adjacent entries do not increase in that field |
| Anchor.AuditExact | blindage/transparency/auditor.py:64-71 | the chain part reports nothing if and only if there is no event, or all events increase and the last one has the version and the hash of the head |
| Anchor.HeadMismatchExact | blindage/transparency/auditor.py:67-71 | a head mismatch is reported if and only if there is an event and the last one differs in version or in hash |
| Anchor.SortRestoresLog | blindage/transparency/auditor.py:39-40 | sorting fetched events by block and log index gives the order of emission, however the node returned them |
| Anchor.EveryRunPassesAudit | blindage/transparency/auditor.py:53-76 | for any calls, of which the accepted ones carry UTF-8 and emit in the order of the chain, and for any order in which the node returns the events, the auditor reports nothing and the last event matches the head |
| CanonicalJson.SortMaps | extension/core/registry.js:24 | sorting members by key does not depend on what they hold |
| CanonicalJson.PrintIsFlat | extension/core/registry.js:14-27 | the recursive printer writes the value with the members of every object in sorted order |
| JsonMembers.SortedFromDistinct | extension/core/registry.js:23-25 | sorting members with different keys puts their keys in strictly ascending order and keeps what they hold |
| JsonText.NumberDigits | extension/core/registry.js:15-18 | an integer is written in decimal, without leading zeros, with a minus sign exactly when it is negative |
| JsonText.ArrayGrows | extension/core/registry.js:19-21 | an array is its items between brackets, separated by commas |
| JsonText.ObjectGrows | extension/core/registry.js:22-26 | an object is its members between braces, separated by commas, each a quoted key, a colon and a value |
| JsonText.PlainText | extension/core/registry.js:15-18 | text without quote, backslash, control character or lone surrogate is written as itself |
| JsonText.QuoteParts | extension/core/registry.js:15-18 | a string is written part by part unless the cut parts a surrogate pair |
| JsonText.ShortEscapes | extension/core/registry.js:15-18 | the seven two-character escapes |
| JsonText.LongEscapes | extension/core/registry.js:15-18 | every other control character and every lone surrogate is a four-digit lower-case escape |
| JsonReader.ReadBack | extension/core/registry.js:14-27 | reading the text of a value, followed by anything that does not continue a number, gives the value and leaves the rest |
| JsonReader.PrintedReadsBack | extension/core/registry.js:14-27 | reading canonical text consumes it and gives the value with its members in canonical order |
| JsonMeaning.MeaningOfCanon | extension/core/registry.js:24-25 | canonical order keeps the value |
| JsonMeaning.SameTextIffSameValue | extension/core/registry.js:14-27 | two values share canonical text if and only if they are equal up to member order |
| JsonMeaning.PrintWellFormed | extension/core/registry.js:14-31 | canonical text never holds a lone surrogate, so encoding it as UTF-8 loses nothing |
| JsonMeaning.SameBytesIffSameValue | extension/core/registry.js:14-31 | two values share signed bytes if and only if they are equal up to member order |
| JsonOrders.EncodersAgree | blindage/canonical.py:7-13 | the JavaScript and Python encoders print the same text if and only if no two keys of an object cross |
| JsonOrders.EncodersDisagree | extension/core/registry.js:10-13 | a value on which the two encoders differ |
| JsonOrders.AsciiKeysSameBytes | extension/core/registry.js:10-13 | with ASCII keys the two encoders give the same bytes |
| Utf16.UnitOrderExact | extension/core/registry.js:12-13 | UTF-16 order and code-point order differ exactly on crossing texts |
| Registry.FromDict | blindage/registry/store.py:31-75 | accepts if and only if the keys are valid, issuer ids, key ids and token bindings are unique, no token or vc keys share material and no registry key reuses it; every error names a true violation and the id at fault |
| Registry.AcceptableExact | blindage/registry/store.py:31-75 | acceptance key by key: valid entries, unique issuer ids, key ids and token bindings, no material shared by two token or vc keys of any issuers, and none between these and a registry key |
| Registry.CheckKeys | blindage/registry/store.py:41-68 | the loop over one issuer accepts exactly when its ids and bindings are unique and its material is new, and extends the shared set by its material |
| Registry.CheckPurposes | blindage/registry/store.py:69-74 | the second pass fails exactly on a registry key with token or vc material |
| Registry.GetKey | blindage/registry/store.py:150-166 | the scan returns the first key with the id and purpose, or none |
| Registry.LookupExact | blindage/registry/store.py:150-166 | in an accepted registry a lookup finds a key if and only if it is listed under that issuer, id and purpose |
| Registry.LookupsIgnoreOrder | blindage/registry/store.py:150-166 | accepted registries listing the same keys answer every lookup alike |
| Registry.MaterialDetermines | blindage/registry/store.py:44-74 | in an accepted registry public key material determines the issuer and the whole key entry |
| Credential.ClaimNamesItsAge | blindage/schemas/enums.py:4-16 | a claim is named AGE_OVER_ and its minimum age |
| Credential.LevelsOrderedByName | blindage/schemas/enums.py:19-36 | assurance levels are ordered as their names are, and the table of the extension agrees |
| Eligibility.AgeReached | blindage/issuer/eligibility.py:6-11 | the age is at least n exactly from the n-th birthday on, 1 March for someone born on 29 February in a common year |
| Eligibility.EligibleExact | blindage/issuer/eligibility.py:14-16 | eligibility starts on the birthday, covers every younger claim, and is never lost |
| Issuer.Load | blindage/issuer/keys.py:41-64 | accepts exactly the configurations with supported algorithms, unique vc key ids and unique tuples, and the tables then hold exactly the configured keys; an error names what is wrong with some entry |
| Issuer.EntryValidExact | blindage/issuer/keys.py:45-59 | a vc entry declares the BBS suite; a token entry names a claim and a level and declares one of three algorithms, or none, which stands for the mock one |
| Issuer.PartitionExact | blindage/issuer/keys.py:70-105 | a tuple has the one key configured for it, which signs blindly if and only if it is an RSA key and otherwise in the open |
| Issuer.VcSignerIsBbs | blindage/issuer/keys.py:107-122 | a credential signer exists exactly when a vc key is configured, and is a configured BBS key |
| Issuer.GrantIsEligible | blindage/issuer/app.py:102-154 | every grant is for an unexpired enrollment old enough for the claim, under the key bound to the requested tuple, for 1 to 100 signatures |
| Issuer.GrantExact | blindage/issuer/app.py:102-154 | a request is granted if and only if these conditions hold and it carries only the payload its key signs |
| Issuer.RefusalExact | blindage/issuer/app.py:102-148 | 404 exactly for an unknown enrollment, 403 for an expired or too young one, 409 when no key is bound to the tuple, 422 when its key does not take the payload |
| Issuer.GrantServes | blindage/issuer/app.py:115-154 | a grant is made by a key that can serve the request, and its whole payload is signed |
| Issuance.RequestSigned | blindage/issuer/app.py:102-154 | a request is signed item by item by a configured key that serves it, and changes nothing when there is none |
| Verifier.ChallengeManager.constructor | blindage/verifier/challenge.py:10-13 | starts with nothing pending |
| Verifier.ChallengeManager.Create | blindage/verifier/challenge.py:15-29 | adds the new challenge to the pending ones |
| Verifier.ChallengeManager.Consume | blindage/verifier/challenge.py:31-52 | the id is gone whatever happens; the challenge is returned exactly when it was pending, matches and has not expired |
| Verifier.ReplayCache.constructor | blindage/verifier/replay_cache.py:8-13 | starts empty |
| Verifier.ReplayCache.CheckAndInsert | blindage/verifier/replay_cache.py:15-21 | true exactly for a new hash, which is then in the table |
| Verifier.BlindAgeVerifier.Verify | blindage/verifier/verify.py:48-155 | decision, claim, level, flags and both stores after the call are those that Verdicts.TokenVerdict states |
| Verifier.AllowExact | blindage/verifier/verify.py:48-155 | ALLOW if and only if issuer, key, algorithm, signature, binding, claim, assurance, validity, audience, challenge and nonce all pass |
| Verdicts.TokenVerdict | blindage/verifier/verify.py:48-155 | the exact condition of each of the nine flags and of ALLOW; claim and level are the key's from the signature check on and absent before it; a challenge is consumed and a nonce hash stored exactly under the stated conditions |
| Verdicts.AllowedToken | blindage/verifier/verify.py:149-155 | an allowed token is reported with the policy's claim, the level of its key and the flags of a passed call |
| Verifier.VerifyVcPresentation | blindage/verifier/verify.py:158-284 | decision, claim, level, flags and the challenge store after the call are those that Verdicts.VcVerdict states |
| Verifier.VcAllowExact | blindage/verifier/verify.py:158-284 | ALLOW if and only if issuer, key, index shape, binding, validity, audience, challenge, assurance and proof all pass |
| Verdicts.VcVerdict | blindage/verifier/verify.py:158-284 | the exact condition of each flag and of ALLOW, when claim and level are reported, and when the challenge is consumed |
| Verdicts.AllowedCredential | blindage/verifier/verify.py:278-284 | an allowed credential is reported with the claim shown, the level of its key and the flags of a passed call |
| Redemption.TokenCallAlone | blindage/verifier/verify.py:48-155 | the steps of one call run back to back decide what the sequential verifier decides |
| Redemption.VcCallAlone | blindage/verifier/verify.py:158-284 | the same for credential presentations |
| Redemption.RunKeepsInv | blindage/verifier/verify.py:125-155 | the invariant of every interleaving of challenge, token and credential steps, under every policy |
| Redemption.SingleUse | blindage/verifier/verify.py:125-155 | in every interleaving and under every policy no challenge serves two allowed calls that consume one, and with single use on no nonce hash is allowed twice |
| Redemption.SpentIsAllowed | blindage/verifier/replay_cache.py:15-21 | in every interleaving the replay cache holds exactly the hashes of the allowed tokens, and nothing when single use is off |
| Redemption.OnlyAllowBurns | blindage/verifier/verify.py:140-147 | the cache changes only by a step that ends a token call with ALLOW, and then gains that token's hash |
| Redemption.FreshChallengeRedeems | blindage/verifier/verify.py:125-155 | whatever went before, a valid presentation of an unspent nonce, or of any nonce when single use is off, for a newly created challenge is allowed |
| Issuance.PlayKeepsInv | blindage/issuer/app.py:102-154 | the invariant of every run of enrolment, issuance, minting and redemption |
| Issuance.SourceOf | blindage/verifier/verify.py:104-147 | every redeemed token was made from a signature issued for its claim to an eligible enrollment |
| Issuance.RedemptionsBounded | blindage/issuer/app.py:102-154 | tokens redeemed for a claim never outnumber the signatures issued under its keys, each to an unexpired enrollment old enough at signing |
| Mint.PrepareBlindBatch | extension/core/mint.js:29-41 | position i of the batch holds nonce i, its blinded message and its inverse; it fails exactly when a message cannot be blinded, with the reason of the first |
| Mint.AssembleTokens | extension/core/mint.js:43-64 | succeeds if and only if the counts match and every signature finalizes, fails with a count mismatch exactly when they do not match and otherwise with the reason of the first that does not finalize, and token i then has nonce i |
| Mint.AssembledVerify | blindage/wallet/client.py:96-119 | whatever the issuer answers, an assembled token verifies for its own nonce |
| Mint.HonestBatchAssembles | blindage/wallet/client.py:66-119 | a batch signed honestly position by position meets the success condition of assembly as a whole, and every token verifies for the nonce it was blinded from |
| Wallet.MergeTokens | extension/core/store.js:3-18 | the Map and the counters hold what merging one token after another gives |
| Wallet.PutExact | extension/core/store.js:4 | a repeated nonce keeps its first place in the Map and gets the later token |
| Wallet.AbsorbExact | extension/core/store.js:3-18 | the store keeps every token in place and grows at its end by exactly the valid tokens with new nonces, which are the ones counted |
| Wallet.AbsorbContents | extension/core/store.js:7-17 | what is appended is, in order, the first valid offer of every new nonce as it came, an absent spent flag read as false; what is rejected is what is invalid |
| Wallet.SelectToken | extension/core/protocol.js:57-65 | returns the first unspent token for the claim with sufficient assurance |
| Wallet.ApproveExact | extension/core/store.js:20-26 | refused exactly when no token is usable; otherwise the first usable one is shown with the claim, audience, challenge and id of the request and the given time, and every token of its nonce, it alone when nonces are unique, is marked spent |
| Wallet.NextImport | extension/core/store.js:3-18 | in every run one more import shows nothing and appends the first offers of new nonces |
| Wallet.NextApproval | extension/core/store.js:20-26 | in every run one more approval shows the first usable token after all shown before, or does nothing when there is none |
| Wallet.RunKeepsInv | extension/core/store.js:3-26 | the invariant of every run of imports, mints and approvals |
| Wallet.SpendsOnce | extension/core/store.js:3-26 | nonces stay unique and no nonce is ever shown twice |
| Wallet.SpentNeverReverts | extension/core/store.js:3-26 | no token is lost or altered and a spent flag never reverts, even on re-import |
| Wallet.CountIsAdded | extension/core/store.js:3-18 | the token count is the sum of all reported additions |
| Wallet.TopUpPlan | extension/core/registry.js:96-107 | counting once and filtering once gives the issuers below the threshold |
| Wallet.ShortExact | extension/core/registry.js:96-107 | an issuer is in the plan if and only if it is enrolled and has fewer unspent tokens than the threshold |
| Wallet.UnspentCounts | extension/core/registry.js:97-101 | the count is the number of unspent tokens for the claim from the issuer |
| Wallet.PlanKeepsOrder | extension/core/registry.js:102-106 | the plan lists the issuers below the threshold position by position, in the order of enrolment |
| Credential.ValidTokenExact | extension/core/protocol.js:91-100 | a token is valid if and only if its claim and level are in the tables and its five other fields are not empty |
| Credential.AtLeastExact | extension/core/protocol.js:10-12 | a level reaches a minimum if and only if both are in the table and it is at least the minimum: the default ranks admit no other |
| Credential.UsableExact | extension/core/protocol.js:57-65 | a token can be shown if and only if it is unspent, for the claim asked for and of a level that reaches the minimum |
| Wallet.BuildPresentation | blindage/wallet/client.py:147-173 | the first unspent fitting token is presented and it alone is marked in place; a refusal marks nothing |
| MessageVector.SortIgnoresOrder | blindage/schemas/vc.py:38-50 | sorting gives the same list for every order of the same claims |
| MessageVector.VectorIgnoresOrder | blindage/schemas/vc.py:38-50 | the message vector does not depend on the order of the claims |
| MessageVector.VectorOfSorted | blindage/wallet/client.py:218-226 | sorting before building the vector, as the wallet does, changes nothing |
| MessageVector.VectorExact | blindage/schemas/vc.py:38-50 | the vector holds issuer, level and epoch at 0, 1 and 2 and then the claims given, each as often as given, in ascending order |
| Credential.MessagesExact | blindage/schemas/vc.py:38-50 | the messages of a credential whose claims ascend are the octets of issuer, level, epoch and each claim in the order listed |
| MessageVector.BindingProper | blindage/schemas/vc.py:27-35 | the header is the object with the four fields of the binding under their names |
| MessageVector.HeaderBindsDomain | blindage/schemas/vc.py:27-35 | two domain bindings share a presentation header if and only if all their fields agree |
| Credential.ListedIsSorted | blindage/issuer/app.py:168 | the issued claims are the eligible ones, each once, in order of their values |
| Credential.IssuedCarriesEligible | blindage/issuer/app.py:157-199 | a credential goes to an unexpired enrollment and carries every eligible claim and no other |
| Credential.CredentialRefused | blindage/issuer/app.py:157-173 | 404, 403 and 409 exactly for an unknown enrollment, an expired one or no eligible claim, and no vc key |
| Credential.IssuedFields | blindage/issuer/app.py:157-199 | a credential holds the issuer, the id, material, level and epoch of the first vc entry and the eligible claims in ascending order, signed under blindage-vc-v1; 500 exactly for an entry without a level or a failed signature |
| Credential.IssuedIsSigned | blindage/issuer/app.py:171-199 | it carries a bbs_sign signature on its own message vector under the vc key it names |
| Credential.ProveRefuses | blindage/wallet/client.py:200-213 | the wallet refuses exactly an expired challenge, a claim it does not carry and a level below the minimum, in this order |
| Credential.PresentedFields | blindage/wallet/client.py:200-256 | a presentation is made exactly when the challenge is live, the claim carried, the level sufficient and key and signature parse; it carries the credential's metadata, the challenge's audience, value and id, and indexes 0, 1, 2 and the position of the claim |
| Credential.SameMessages | blindage/verifier/verify.py:255-262 | the four messages the verifier rebuilds are those signed at the disclosed positions, the claim at 3 plus its sorted position |
| Credential.EndToEnd | blindage/verifier/verify.py:197-284 | a presentation by vc_prove for a live challenge is allowed exactly when no scalar of its proof is 0, and never again |
| CredentialSoundness.HonestAllowedExact | blindage/verifier/verify.py:197-284 | at a ready site an honest transcript over [0, 1, 2, k], whatever k within range, is allowed if and only if none of its scalars is 0 |
| CredentialSoundness.ShapeDistinct | blindage/verifier/verify.py:213-218 | the index shape that is accepted is free of repetitions if and only if its last index is above 2 |
| CredentialSoundness.AllowedExtracts | blindage/verifier/verify.py:213-284 | what the extractor computes from two allowed presentations that reopen one transcript passes the signature test of the registry key, on a vector holding issuer, level and epoch at 0, 1, 2 and the claim at the last index, or their sum where that index is 2 or less, unless r1 or r3 computes to 0 |
| CredentialExamples.FourthIndexAllowed | blindage/verifier/verify.py:213-284 | for every k < 5 two presentations over [0, 1, 2, k] that are allowed for different challenges and reopen one transcript with r1 and r3 nonzero |
| CredentialIssuance.BackedOrForged | blindage/verifier/verify.py:255-284 | two proofs that verify and reopen one transcript: a credential issued covers what is shown, or what the extractor computes from the two passes the signature test on a vector signed for no credential |
| CredentialIssuance.PlayKeepsInv | blindage/issuer/app.py:157-199 | the invariant of every run of enrolment, credential issuance and redemption |
| CredentialIssuance.AllowedOrForged | blindage/verifier/verify.py:158-284 | in every run, with the check of bbs_proof_verify: an allowed credential call whose transcript a second proof reopens is covered by a credential issued under its key to an enrollment unexpired at signing and, past the metadata, eligible for the claim shown, or the two proofs compute a forgery |
| CredentialIssuance.AllowedIsEligible | blindage/issuer/app.py:157-199 | in every run in which proofs moreover verify only for what was signed, each allowed credential call has a proof that verifies and is covered by a credential issued under its key to an enrollment unexpired at signing, and past the metadata eligible for the claim shown |
| RunExamples.OneTokenRedeemed | blindage/verifier/verify.py:48-155 | a run of a sound system that signs blindly, unblinds and redeems a token |
| CredentialRunExamples.OneCredentialShown | blindage/verifier/verify.py:158-284 | a run, ideal or not, in which a credential is issued, vc_prove makes a proof that verifies and the call is allowed; a second proof of the wallet reopens its transcript |

## Left out

- HTTP routes, pages, popup and content script, chrome.storage, the CLI, files and SQLite: stored tables are maps and sets.
- SHA-384, SHA-256, the curve, the pairing, hash-to-curve, Ed25519, ML-DSA, PyJWT, Argon2 and ChaCha20: parameters or not modelled.
- Key parsing (DER, JWK) and base64url: keys are records, and where a key is a string its decoding is a parameter. The subgroup checks of point decoding belong to the decoder parameter.
- Randomness and clocks: every draw and every reading is an argument or part of a step.
- RsaJs.EncodeJs: stated for masks of at most 2^32 blocks, since beyond that the JavaScript counter wraps where Python raises.
- RsaJs.BlindWithJs: the same bound on the modulus length.
- RsaJs.Mgf1Stream: the same bound on the mask length.
- BbsEncoding.DomainOctetsInjective: lengths are below 2^64, where the 8-octet length fields overflow and Python raises.
- BbsEncoding.ChallengeOctetsInjective: the same bound, and scalars that fit their 32 octets.
- BbsLayout.DomainHashed: the same bound, and a key of 96 octets, the only ones that parse.
- BbsLayout.SignScalarHashed: the same bound.
- BbsLayout.ChallengeHashed: the same bounds.
- BbsWire.ProofGenOctets: the challenge field is stated under the same bounds.
- BbsWire.ProofVerifyHashes: the same bounds.
- Anchor.EveryRunPassesAudit: the generatedAt of accepted calls is valid UTF-8, since the client cannot decode any other event; the mirror's hash and signature checks of the audit are not modelled.
- JsonReader.ReadBack: the reader covers integers up to 2^53 - 1, and no whitespace, fractions or exponents, which canonical text of these values never contains.
- JsonOrders.EncodersAgree: for text that Python can encode; Python raises on lone surrogates.
- Registry loading: the signature, the hybrid policy table and the anchor comparison before from_dict.
- CredentialIssuance.AllowedIsEligible: for ideal runs, in which the proof check also demands that a credential issued covers what is shown; AllowedOrForged holds of all runs, but speaks only of calls whose transcript a second proof reopens. Eligibility is concluded where no other claim has the scalar of the one shown. Token calls are answered freely.
- PssBinding.BlindSignExact: for a matching key pair; without one the raw signature check can fail.
- Issuance.RedemptionsBounded: for policies with single use on, without which a token can be redeemed again; signatures are ideal (one nonce per signature, none forged), and the registry binds shared material as the key store does. Registry entries of other issuers verify nothing in this system.
- Wallet.SpendsOnce: message handlers are atomic; awaits interleaving inside background.js are not modelled. Absent token fields read as empty strings, and names inherited from Object.prototype are neither assurance levels nor issuer ids here.
- The maximum token age (refused by the verifier's constructor), ProofingSessionStore, developer identity-provider codes, AnchorClient and log-server caches, the vault file, vector fetching and the demo.
- OpenZeppelin's TimelockController is not part of this model: the timelock is the address that may call setAnchor.
