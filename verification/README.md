# A verified model of the threshold-share, bulletin-board and tracing core

The repository lets an identity holder split a 32-byte recovery seed among
guardians, keeps a Merkle tree of identities on a bulletin board, rotates shares
between committee nodes, and traces guardians whose shares turn up in a
reconstruction box. This project models the part of it that carries the hard
guarantees and proves those guarantees, for all inputs, all runs and all reachable
states.

| file | what it models |
|---|---|
| `NumberTheory.dfy`, `ShareField.dfy`, `Polynomials.dfy`, `Interpolation.dfy` | the prime field of the shares: machine arithmetic, Fermat inverses, evaluation and interpolation loops, and the mathematics under them |
| `Hex.dfy`, `FieldText.dfy`, `Packing.dfy`, `Numerals.dfy` | hexadecimal text, field values as text, the 17-bit packing, the seed's chunks, and the numbers all these texts spell |
| `Envelope.dfy`, `Attestation.dfy` | share envelopes with payload, attestation and JSON form, and what an attestation binds |
| `Sharing.dfy`, `KeySet.dfy`, `Recovery.dfy`, `NitsShamir.dfy`, `Secrecy.dfy` | the sharing and recovery routines, what they promise together, and what fewer than t guardians learn |
| `PirateBox.dfy` | the second, JavaScript implementation of recovery |
| `Sha256.dfy`, `ShaConstants.dfy`, `ShaBits.dfy`, `Keccak.dfy`, `KeccakBits.dfy`, `KeccakCube.dfy`, `Octets.dfy` | the two hand-written hashes against FIPS 180-4 and FIPS 202, and their word operations bit by bit |
| `DenseTree.dfy`, `SparseNodes.dfy`, `Slots.dfy`, `MerkleTree.dfy`, `MerklePath.dfy`, `MerkleRuns.dfy` | the sparse Merkle tree with its slot allocator and rebuilds, the native and circuit forms of the path check, and two runs that go wrong |
| `Membership.dfy` | the authentication circuit, and what a satisfied circuit says about the records of the tree |
| `Committee.dfy`, `Rotation.dfy` | one committee node with its two indexes, and the rotation of all nodes as a transition system |
| `AddrLock.dfy`, `NonceOrder.dfy`, `RebuildWorker.dfy`, `EventMirror.dfy` | the promise-chain lock, nonce handling under it, the rebuild worker, and the replay of chain events |
| `Trace.dfy`, `TracedSharing.dfy` | from extracted roots to accused guardians, the check of an accusation, and both applied to what sharing issues |
| `Outcomes.dfy` | values or thrown errors |

## How the model is built

- Code that changes things step by step is imperative here too: loops are methods
  with invariants, in-place arrays are arrays, and objects with changing fields are
  classes. Each such method is proved equal to a function of its inputs or of the
  old state, and the lemmas are about that function.
- An exception is the `Throw` case of `Outcome`; the text it carries is the source's
  message, without its variable part where that is only a number.
- C++ integer widths are subset types (`U32`, `U64`), and every sum and product of
  the field code is shown not to wrap. Only `+`, `^`, `&` and shifts of the two
  hashes are bit-vector operations. Each has a named function, which keeps the
  bit-level reasoning out of the loop proofs; `hide` does the rest.
- The hash of a text in sharing, signing and tracing is a parameter `h`, any function
  from texts to 32 bytes, and the Poseidon hash is a parameter of the tree. No
  hash is assumed to be injective: binding results end in equality or in an explicit
  collision on the texts, folds or trees they compare. Secrecy is stated over `h`
  too: another seed is as possible as the real one, with other coefficients.
- Concurrency is modelled by transition systems. Between two awaits, and under the
  node's mutex, code is one atomic step.

## Where documentation or expectation and code differ

- A share's storage key is made from the raw digest text, its lookup key from the
  normalised one (`cpp/share_envelope.cpp:155-159`, `cpp/committee_node.cpp:165-174`).
  `Committee.LookupIsNormalised` says exactly which shares a lookup by guardian
  reaches; issued envelopes are among them (`Rotation.PlanForIsPlanned`), a share
  attested under an unpadded digest is not (`Committee.ShortDigestUnreachable`).
- JSON output pads xi to 32 bytes, the signed payload only to whole bytes. The round
  trip keeps a verifying envelope valid for 63 or 64 digits of xi
  (`Envelope.VerifiedRoundTrip`); for fewer digits, which do verify before it
  (`Envelope.ShortXiVerifies`), it does not (`Envelope.ShortXiIsRejected`).
- The signed payload joins its fields with a separator that four free texts may
  contain. It binds every field of envelopes whose free texts are the same or without
  the separator (`Attestation.PayloadBinds`); in general it does not
  (`Attestation.FreeTextsMayShift`).
- Incremental update and full rebuild may end with different roots for one mirror
  (`MerkleRuns.HistoryMatters`). A rebuild keeps the root exactly when the slots held
  before it are already those of probing in sorted order
  (`MerkleTree.RebuildKeepsRootIff`).
- Cached paths of other identities get a new root label without new siblings
  (`hardhat/bb_service_zk.js:661-664`, `hardhat/bb_service_zk.js:1182-1186`). Such a
  path verifies exactly if no leaf has changed since it was taken
  (`MerkleTree.TreeCache.RelabelledPathValidIff`); `MerkleRuns.StalePath` is a run
  where it does not.
- Events are applied grouped by kind. `EventMirror.GroupedIsReplay` has the exact
  condition under which that equals in-order replay, and
  `EventMirror.UpdateAfterRecoveryLost` the ranges of two events that violate it.
- A failed event query counts as an empty answer, and its block range as
  synchronised. `EventMirror.FailedQueriesHarmlessIff` says exactly when nothing is
  lost by that; `EventMirror.FailedQueryLosesEvents` is a log where it is.
- A rebuild pass that throws loses what it had taken, except for what was asked for
  again while it ran (`RebuildWorker.ThrownPassDropsIds`).
- The C++ trace result pairs sorted guardians with unsorted roots, so its self-check
  depends on the order of the roots (`Trace.TraceSucceedsIff`).

## Model

| member | source | states |
|---|---|---|
| `NitsShamir.ShareThenRecover` | cpp/ttss_nits_shamir.cpp:217-415 | Whenever sharing succeeds, any list of issued envelopes, in any order, whose first t are different recovers exactly the normalised seed from those t; nothing throws, in particular no inverse of zero |
| `PirateBox.ShareThenReconstruct` | hardhat/pirate_box.js:160-188 | The JavaScript recovery returns the same seed on every list of issued envelopes with at least t different ones among them, repeats allowed |
| `NitsShamir.IssuedRoundTrip` | cpp/ttss_nits_shamir.cpp:274-304 | Every issued envelope verifies and is equal to itself after JSON output and parsing |
| `NitsShamir.TooFewSharesFitAnySeed` | cpp/ttss_nits_shamir.cpp:232-304 | For any t-1 issued envelopes and any 32-byte seed exactly one choice of sixteen polynomials has that seed and issues these envelopes' values |
| `Secrecy.TooFewSharesHideTheSeed` | cpp/ttss_nits_shamir.cpp:217-306 | For any t-1 envelopes of a sharing and any other 32-byte seed there is a hash, different from h on texts of coefficients only, under which sharing that seed succeeds with the same keys, set hash and commitment and issues these guardians the very same envelopes |
| `Secrecy.OneChoicePerSeed` | cpp/ttss_nits_shamir.cpp:232-306 | Two hashes under which one request issues the same t-1 envelopes give it the same polynomials, so every seed is left with exactly one choice of coefficients |
| `Secrecy.PolynomialsAre` | cpp/ttss_nits_shamir.cpp:66-80 | Every polynomial of a sharing consists of its chunk and of the hashes of the coefficient texts modulo 65537 |
| `Secrecy.CoefficientTextsDiffer` | cpp/ttss_nits_shamir.cpp:70-80 | No two coefficients of a sharing are hashes of one text |
| `NitsShamir.ShareSucceedsIff` | cpp/ttss_nits_shamir.cpp:232-306 | Sharing succeeds exactly when 2 <= t <= n, the guardian names are none or n, the digests are hexadecimal and short enough, and no guardian finds all its 4096 candidates used |
| `NitsShamir.IssuedFields` | cpp/ttss_nits_shamir.cpp:247-304 | Envelope k names guardian k+1, its x and its values, carries the request's identity, version and times, and the two bindings hashed from that x |
| `Secrecy.IssuedDigests` | cpp/ttss_nits_shamir.cpp:274-297 | The digests in an issued envelope are those of the request, with the dealer key in place of a missing public key and a hashed guardian set in place of a missing one |
| `KeySet.SetHashIgnoresOrder` | cpp/ttss_nits_shamir.cpp:207-215 | Entries in any order have one set hash |
| `KeySet.SetHashBinds` | cpp/ttss_nits_shamir.cpp:207-215 | Two sets with one set hash have the same guardian numbers with the same bindings, or the hash collides on the two joined lists |
| `KeySet.SortKeeps` | cpp/ttss_nits_shamir.cpp:213 | Sorting returns the same texts in lexicographic order |
| `NitsShamir.IssuedIsShare` | cpp/ttss_nits_shamir.cpp:247-304 | Envelope k carries the header of the sharing, the k-th x, and the packed values of all sixteen polynomials at that x |
| `NitsShamir.ShareIngredients` | cpp/ttss_nits_shamir.cpp:232-272 | A successful sharing has sixteen polynomials with t coefficients whose constant terms are the seed's chunks, n distinct non-zero x values and canonical common fields |
| `NitsShamir.RecNitsShamir` | cpp/ttss_nits_shamir.cpp:328-415 | The recovery loop on real envelopes equals the recursive specification Recover with real verification, field reading and unpacking |
| `Sharing.ShareNitsShamir` | cpp/ttss_nits_shamir.cpp:217-306 | The sharing routine with its loops equals the specification Share: same checks in the same order, same thrown errors, same envelopes and keys |
| `Sharing.DeriveDistinctX` | cpp/ttss_nits_shamir.cpp:82-98 | The retry loop returns the first candidate not used yet, or throws after 4096 of them |
| `Sharing.FirstFree` | cpp/ttss_nits_shamir.cpp:82-98 | A derived x is the first candidate that no earlier guardian uses; a throw means all remaining candidates were used |
| `Sharing.XsAre` | cpp/ttss_nits_shamir.cpp:247-251 | Guardian i has the first of its own candidates that none of the guardians before it has |
| `Sharing.EvalRows` | cpp/ttss_nits_shamir.cpp:253-262 | All sixteen polynomials are evaluated at one x |
| `Sharing.BuildRows` | cpp/ttss_nits_shamir.cpp:238-245 | Row c has t entries: the c-th chunk, and above it the coefficient derived for c and each degree |
| `Recovery.RecoverLoop` | cpp/ttss_nits_shamir.cpp:328-415 | The recovery control flow equals Recover for any verification, x-reading and unpacking operations |
| `Recovery.GatherLoop` | cpp/ttss_nits_shamir.cpp:351-387 | The collecting loop with its set of normalised x texts equals Collect, which compares the x values themselves |
| `Recovery.FinishLoop` | cpp/ttss_nits_shamir.cpp:389-415 | Chunk by chunk interpolation with the 16-bit range check equals Finish |
| `Recovery.RecoverIssued` | cpp/ttss_nits_shamir.cpp:328-415 | Any t different shares of the same polynomials recover the joined constant terms |
| `Recovery.RecoveredMeansAccepted` | cpp/ttss_nits_shamir.cpp:355-387 | Success implies that each of the first t shares verified, had the header of the first, was active, and had its own x |
| `Recovery.MixedVersionsRejected` | cpp/ttss_nits_shamir.cpp:361-367 | A list whose first t shares mix versions or epochs is never recovered |
| `PirateBox.ReconstructSeedFromShares` | hardhat/pirate_box.js:160-188 | The JavaScript loop equals Reconstruct: header checks in order, repeats skipped, t points, range check |
| `PirateBox.ReconstructedMeansAccepted` | hardhat/pirate_box.js:164-180 | If the JavaScript recovery succeeds, every share up to the t-th different point has the scheme, the first share's version, epoch, n, t, secret type and lower-case identity digest, and is active |
| `PirateBox.MixedVersionsThrow` | hardhat/pirate_box.js:167-170 | A list that mixes versions or epochs before that point is never reconstructed |
| `PirateBox.LagrangeAtZero` | hardhat/pirate_box.js:143-159 | On field points it returns the Lagrange sum at zero, or throws exactly when two x values coincide |
| `PirateBox.BigPow` | hardhat/pirate_box.js:98-108 | Square and multiply over BigInt is exponentiation modulo 65537 |
| `PirateBox.BigInv` | hardhat/pirate_box.js:109-113 | It throws exactly on multiples of the modulus and otherwise returns the Fermat inverse |
| `PirateBox.BigBasis` | hardhat/pirate_box.js:147-154 | Numerator and denominator products of one Lagrange basis value at zero |
| `ShareField.PowMod` | cpp/ttss_nits_shamir.cpp:32-41 | The 64-bit loop is exponentiation modulo 65537 for every base and exponent; no intermediate product wraps |
| `ShareField.InvMod` | cpp/ttss_nits_shamir.cpp:42-45 | Throws exactly on zero; otherwise returns a value whose product with x is 1 modulo 65537 unless x is a multiple of it |
| `ShareField.InverseCorrect` | cpp/ttss_nits_shamir.cpp:42-45 | x to the power p-2 is an inverse of every x that is not a multiple of p |
| `ShareField.InverseUnique` | cpp/ttss_nits_shamir.cpp:42-45 | ... and the only field value with that property |
| `ShareField.AddMod` | cpp/ttss_nits_shamir.cpp:18-23 | The widened sum of any two 32-bit values is reduced to their field sum |
| `ShareField.SubMod` | cpp/ttss_nits_shamir.cpp:24-27 | The widened difference is the field difference whenever the subtrahend exceeds the minuend by at most the modulus |
| `ShareField.MulMod` | cpp/ttss_nits_shamir.cpp:28-31 | The 64-bit product never wraps and its remainder is the field product |
| `NumberTheory.FermatPrime` | cpp/ttss_nits_shamir.cpp:12-16 | 65537 is prime |
| `NumberTheory.Fermat` | cpp/ttss_nits_shamir.cpp:42-45 | Fermat's little theorem for every prime |
| `Interpolation.PolyEval` | cpp/ttss_nits_shamir.cpp:100-108 | The running-power loop evaluates the polynomial modulo 65537 |
| `Interpolation.LagrangeInterpolateAtZero` | cpp/ttss_nits_shamir.cpp:308-326 | The double loop returns the Lagrange sum at zero, throws no_points on the empty list and inverse_of_zero exactly on coinciding x values |
| `Interpolation.RecoversConstantTerm` | cpp/ttss_nits_shamir.cpp:308-326 | For points with pairwise different x on a polynomial with no more coefficients than points the result is the constant term |
| `Interpolation.DegenerateIffRepeated` | cpp/ttss_nits_shamir.cpp:316-322 | A denominator vanishes exactly when two points share their x |
| `Interpolation.ThresholdExists` | cpp/ttss_nits_shamir.cpp:238-262 | For any t-1 points with distinct non-zero x and any secret some coefficient vector of length t explains both |
| `Interpolation.ThresholdUnique` | cpp/ttss_nits_shamir.cpp:238-262 | ... and only one does, so t-1 shares fix nothing about the chunk |
| `Polynomials.TooManyRoots` | cpp/ttss_nits_shamir.cpp:308-326 | A polynomial with at least as many distinct roots as coefficients is zero modulo 65537 |
| `Polynomials.InterpolationAgrees` | cpp/ttss_nits_shamir.cpp:308-326 | Every polynomial through the points with no more coefficients than points agrees with the Lagrange sum everywhere |
| `Packing.UnpackPack` | cpp/ttss_nits_shamir.cpp:130-163 | Unpacking the 34 bytes of sixteen packed field values returns them |
| `Packing.PackUnpack` | cpp/ttss_nits_shamir.cpp:130-163 | Packing after unpacking is the identity on byte strings all of whose 17-bit groups are below 65537 |
| `Packing.PackYChunksHex` | cpp/ttss_nits_shamir.cpp:130-144 | The in-place bit writing produces the big-endian bit stream of all groups, every index in bounds, exactly 34 bytes |
| `Packing.UnpackYChunksHex` | cpp/ttss_nits_shamir.cpp:146-163 | The bit reading loop returns the 17-bit groups of the byte stream, or throws on a wrong length or bad hexadecimal text |
| `Packing.ReadGroup` | cpp/ttss_nits_shamir.cpp:150-160 | Seventeen shift-and-or steps read the group at a bit position |
| `Packing.WriteBit` | cpp/ttss_nits_shamir.cpp:133-142 | Or-ing one bit into a byte completes that bit of the stream and disturbs no other |
| `Packing.UnpackPackHex` | cpp/ttss_nits_shamir.cpp:130-163 | The same round trip through hexadecimal text |
| `Packing.PackUnpackHex` | cpp/ttss_nits_shamir.cpp:130-163 | ... and back for text that unpacks to field values; other text makes packing throw |
| `Packing.SplitSeedHex` | cpp/ttss_nits_shamir.cpp:110-118 | The seed's 32 bytes as sixteen big-endian 16-bit chunks |
| `Packing.ChunksToSeedHex` | cpp/ttss_nits_shamir.cpp:120-128 | The chunks as 32 bytes of hexadecimal text, or a throw when one exceeds 16 bits |
| `Packing.JoinSplit` | cpp/ttss_nits_shamir.cpp:110-128 | Joining the chunks of a seed gives its normalised text |
| `Packing.SplitJoin` | cpp/ttss_nits_shamir.cpp:110-128 | Splitting joined chunks returns them |
| `Numerals.DecimalDigits` | cpp/ttss_nits_shamir.cpp:47-49 | Decimal text spells its number, with no leading zero unless it is 0 |
| `Numerals.SeedDigits` | cpp/ttss_nits_shamir.cpp:110-118 | The sixteen chunks are the base-65536 digits, most significant first, of the number the seed text spells |
| `Numerals.PackedDigits` | cpp/ttss_nits_shamir.cpp:130-144 | Packed text spells the number whose base-131072 digits are the sixteen values, most significant first |
| `Numerals.UnpackedDigits` | cpp/ttss_nits_shamir.cpp:146-163 | Unpacking reads the sixteen base-131072 digits of the number any text of 34 bytes spells |
| `Hex.HexToBytes` | cpp/hex_utils.cpp:61-76 | The loop equals ParseHex: prefixed lower-case digits read in pairs, with the same errors for bad text and odd length |
| `Hex.BytesToHex` | cpp/hex_utils.cpp:78-93 | The loop writes the prefix and two lower-case digits for each byte |
| `Hex.ParseOfHex` | cpp/hex_utils.cpp:61-93 | Parsing what was written returns the bytes |
| `Hex.HexOfParse` | cpp/hex_utils.cpp:61-93 | Writing what was parsed returns the prefixed lower-case text |
| `Hex.EnsureShape` | cpp/hex_utils.cpp:36-43 | Prefixing, when it does not throw, returns the prefix and a non-empty body of lower-case digits |
| `Hex.NormalizeShape` | cpp/hex_utils.cpp:45-55 | Normalisation to n bytes returns exactly 2n lower-case digits after the prefix |
| `Hex.NormalizeIdempotent` | cpp/hex_utils.cpp:45-59 | Normalising twice is normalising once, and normal text is a fixed point of prefixing |
| `Hex.DigestParses` | cpp/hex_utils.cpp:57-76 | A normalised digest parses to 32 bytes that spell it |
| `Hex.TrimKeeps` | cpp/text_utils.cpp:11-21 | Trimming drops white space at both ends and nothing else |
| `Hex.EnsureKeepsDigits` | cpp/hex_utils.cpp:20-43 | Prefixing succeeds exactly on hexadecimal text, and every digit keeps its value, in either case of the letters |
| `FieldText.NormalizeKeepsNumber` | cpp/hex_utils.cpp:45-55 | Normalisation to n bytes succeeds exactly on hexadecimal text of at most 2n digits, and keeps the number it spells |
| `FieldText.FieldOfText` | cpp/ttss_nits_shamir.cpp:51-64 | Reading a text modulo 65537 succeeds exactly on hexadecimal text, and reads the number it spells |
| `FieldText.HexModSmallField` | cpp/ttss_nits_shamir.cpp:51-64 | The digit loop reads a hexadecimal number of any length modulo 65537 without overflow |
| `FieldText.FieldTextRoundTrip` | cpp/ttss_nits_shamir.cpp:175-191 | A field value written as 32 bytes reads back as itself |
| `FieldText.FieldToHexInjective` | cpp/ttss_nits_shamir.cpp:179-191 | Different field values have different normalised texts |
| `Envelope.ValidFields` | cpp/share_envelope.cpp:161-191 | Validation passes exactly when the plain fields and the shapes of all hexadecimal fields are right |
| `Envelope.SigningKeepsPayload` | cpp/share_envelope.cpp:193-243 | Signing changes nothing that the attestation covers |
| `Envelope.SignedVerifies` | cpp/share_envelope.cpp:239-259 | An envelope with valid fields signed with its own dealer key verifies |
| `Envelope.SignedAgain` | cpp/share_envelope.cpp:239-259 | Any valid text in place of the identity digest and of xi verifies once the dealer's key signs it |
| `Attestation.PayloadBinds` | cpp/share_envelope.cpp:193-227 | For envelopes whose free texts are the same or without the separator, one payload is equivalent to agreement of all signed fields after normalisation |
| `Attestation.AttestationBinds` | cpp/share_envelope.cpp:246-259 | Two such envelopes that verify with one attestation agree in every signed field, or the hash collides on their payloads or on their attestation texts |
| `Attestation.FreeTextIsBound` | cpp/share_envelope.cpp:246-259 | Replacing one free text, with any other text, is refused or exhibits such a collision |
| `Attestation.ReplacedYiIsNoticed` | cpp/share_envelope.cpp:215-216 | Replacing yi by another value is refused or exhibits such a collision |
| `Attestation.FreeTextsMayShift` | cpp/share_envelope.cpp:205-209 | Without that condition the payload does not bind: from any envelope two with different guardian numbers and one payload arise when the separator stands inside the free texts |
| `Envelope.SigmaOfPayload` | cpp/share_envelope.cpp:233-237 | The attestation depends only on payload and key, and is canonical text |
| `Envelope.NormalizeAnyOfHex` | cpp/share_envelope.cpp:194-202 | For hexadecimal text the payload form is its lower-case digits after the prefix, with a zero in front if their number is odd |
| `Envelope.DocShows` | cpp/share_envelope.cpp:261-287 | Each field of the document shows its own field of the envelope, digests normalised, absent optional ones empty |
| `Envelope.CanonIdempotent` | cpp/share_envelope.cpp:193-227 | Canonical normalisation of the signed digests is idempotent |
| `Envelope.PayloadRoundTrip` | cpp/share_envelope.cpp:193-339 | JSON output and parsing keep the signed payload exactly when xi has at least 63 digits |
| `Envelope.VerifiedRoundTrip` | cpp/share_envelope.cpp:246-339 | Every verifying envelope with 63 or 64 digits of xi still verifies after the round trip |
| `Envelope.ShortXiIsRejected` | cpp/share_envelope.cpp:193-339 | With fewer digits the payload changes and the parsed envelope is rejected unless the hash collides |
| `Envelope.ShortXiVerifies` | cpp/share_envelope.cpp:193-287 | There are verifying envelopes with fewer than 63 digits of xi: any verifying one signed again with xi 0x1 |
| `Envelope.VerifyingHasDoc` | cpp/share_envelope.cpp:246-287 | A verifying envelope can be written as JSON exactly when xi has at most 64 digits |
| `Envelope.ValidRoundTrip` | cpp/share_envelope.cpp:261-339 | Validity survives the round trip |
| `Sha256.Sha256Bytes` | cpp/share_envelope.cpp:96-128 | For every byte string the buffered loop with its one-or-two-block finish is padding, parsing and folding of FIPS 180-4 (the length field modulo 2^64) |
| `Sha256.LengthFieldExact` | cpp/share_envelope.cpp:106-119 | Below 2^61 bytes the eight length bytes are the digits of the exact bit length |
| `Sha256.Context.Transform` | cpp/share_envelope.cpp:45-94 | Schedule, 64 rounds on eight locals and accumulation are the compression function of section 6.2.2 |
| `Sha256.Context.FillSchedule` | cpp/share_envelope.cpp:46-57 | Word t of the array is W_t of the standard for all 64 t |
| `Sha256.Finish` | cpp/share_envelope.cpp:106-120 | Marker, zeros, length and one or two transforms hash the padded message |
| `Sha256.OneLastBlock` | cpp/share_envelope.cpp:106-120 | With at most 55 bytes left one block ends the padded message |
| `Sha256.TwoLastBlocks` | cpp/share_envelope.cpp:106-120 | With 56 bytes or more left the marker and the length fall in two blocks |
| `Sha256.Context.WriteLength` | cpp/share_envelope.cpp:116-118 | The shifts write the 64-bit count most significant byte first |
| `Sha256.Spell` | cpp/share_envelope.cpp:122-128 | The output is the final hash value, word by word, high byte first |
| `Sha256.DigestWords` | cpp/share_envelope.cpp:122-128 | Each output word reads back as the hash word it spells |
| `Sha256.FillIsLeast` | cpp/share_envelope.cpp:106-115 | The padding uses the fewest zero bytes possible |
| `Sha256.AbsorbPrefix` | cpp/share_envelope.cpp:96-104 | Equal prefixes of whole blocks give equal hash values |
| `ShaBits.BitRotr` | cpp/share_envelope.cpp:41-43 | Bit z of a word rotated by n is bit z+n of the word, modulo 32 |
| `ShaBits.BigSigma0Bits` | cpp/share_envelope.cpp:72 | Bit z is the sum of bits z+2, z+13 and z+22, modulo 32 |
| `ShaBits.BigSigma1Bits` | cpp/share_envelope.cpp:69 | Bit z is the sum of bits z+6, z+11 and z+25, modulo 32 |
| `ShaBits.SmallSigma0Bits` | cpp/share_envelope.cpp:54 | Bit z is the sum of bits z+7 and z+18, modulo 32, and of bit z+3 while that is below 32 |
| `ShaBits.SmallSigma1Bits` | cpp/share_envelope.cpp:55 | Bit z is the sum of bits z+17 and z+19, modulo 32, and of bit z+10 while that is below 32 |
| `ShaBits.ChBits` | cpp/share_envelope.cpp:70 | Bit by bit the first word chooses between the other two |
| `ShaBits.MajBits` | cpp/share_envelope.cpp:73 | Bit by bit the majority of the three words |
| `ShaConstants.RoundConstantsAreCubeRoots` | cpp/share_envelope.cpp:23-39 | All 64 round constants are the first 32 fractional bits of the cube roots of the first primes |
| `ShaConstants.InitialValueIsSquareRoots` | cpp/share_envelope.cpp:15-18 | The initial hash value has those of the square roots of the first eight |
| `Keccak.Keccak256` | cpp/app_crypto.cpp:100-126 | For every byte string the absorb loop, the two padding XORs and the squeeze are the sponge with pad10*1 at rate 136 |
| `KeccakCube.DigestBits` | cpp/app_crypto.cpp:100-126 | Every bit of the digest is that bit of the sponge of FIPS 202 computed on single bits A[x,y,z] alone, for every message |
| `KeccakCube.PermutationBits` | cpp/app_crypto.cpp:43-98 | Any number of rounds on the lanes are those rounds on the bits |
| `KeccakCube.ThetaBits` | cpp/app_crypto.cpp:69-77 | Bit (x,y,z) after theta is A[x,y,z] plus the parities of the columns (x-1,z) and (x+1,z-1), as in section 3.2.1 |
| `KeccakCube.RhoBits` | cpp/app_crypto.cpp:78-84 | Bit z of a lane after rho is bit z minus the lane's offset, modulo 64, as in section 3.2.2 |
| `KeccakCube.PiBits` | cpp/app_crypto.cpp:78-84 | Bit (x,y,z) after pi is A[x+3y,x,z], as in section 3.2.3 |
| `KeccakCube.ChiBits` | cpp/app_crypto.cpp:86-93 | Bit (x,y,z) after chi is A[x,y,z] plus the product of A[x+2,y,z] and the complement of A[x+1,y,z], as in section 3.2.4 |
| `KeccakCube.IotaBits` | cpp/app_crypto.cpp:96 | Iota adds the bits of the round constant to lane (0,0) only |
| `KeccakBits.BitRotL` | cpp/app_crypto.cpp:39-41 | Bit z of a lane rotated by n is bit z-n of the lane, modulo 64 |
| `Keccak.RhoPi` | cpp/app_crypto.cpp:78-84 | For every state the in-place lane-chasing loop is rho then pi of sections 3.2.2 and 3.2.3 |
| `Keccak.KeccakF` | cpp/app_crypto.cpp:43-98 | The 24 rounds on the array are the permutation of section 3.3 |
| `Keccak.ThetaInPlace` | cpp/app_crypto.cpp:69-77 | The column loops are theta |
| `Keccak.ChiInPlace` | cpp/app_crypto.cpp:86-93 | The row loops are chi |
| `Keccak.Tables` | cpp/app_crypto.cpp:58-65 | The two tables are the walk over the lanes and the triangular rotation offsets of the standard |
| `Keccak.Covered` | cpp/app_crypto.cpp:62-65 | The walk visits every lane but the centre |
| `Keccak.RoundConstants` | cpp/app_crypto.cpp:44-57 | The 24 round constants are the output of the standard's shift register (algorithm 5) |
| `Keccak.LastBlock` | cpp/app_crypto.cpp:111-117 | The two XORs absorb the padded last block, also when both padding bits meet in one byte |
| `Keccak.PaddingIsPad101` | cpp/app_crypto.cpp:115-117 | Bit for bit the appended bytes are pad10*1 for a message of whole bytes, with no domain suffix |
| `Keccak.XorBytesIsBlock` | cpp/app_crypto.cpp:104-107 | XOR byte by byte is XOR of little-endian lanes |
| `Keccak.Squeeze` | cpp/app_crypto.cpp:120-123 | The 32 output bytes are the first four lanes, low byte first |
| `MerkleTree.TreeCache.UpdateSparseLeafAtIndex` | hardhat/merkle_tree.js:103-118 | One leaf write keeps every stored node, and the root, equal to the dense tree over the new leaves; other leaves stay |
| `MerkleTree.TreeCache.InitSparseTreeCache` | hardhat/merkle_tree.js:56-69 | The initial store is the empty dense tree |
| `MerkleTree.TreeCache.BuildZeroes` | hardhat/merkle_tree.js:31-36 | Entry l is the root of an empty subtree of height l |
| `SparseNodes.ClimbTurn` | hardhat/merkle_tree.js:108-115 | One turn of the leaf-to-root loop makes one more level that of the new leaves |
| `SparseNodes.StorageBound` | hardhat/merkle_tree.js:70-80 | No level stores more nodes than there are non-zero leaves |
| `DenseTree.SameRootIffSameLeaves` | hardhat/merkle_tree.js:103-118 | Two sets of leaves have the same root exactly when they are equal, unless the trees meet an explicit collision |
| `MerkleTree.TreeCache.AssignIndexForIdHash` | hardhat/merkle_tree.js:81-95 | Keeps the two slot maps mutually inverse, takes the first free slot from the preferred one, and throws exactly when all slots are taken |
| `MerkleTree.TreeCache.ReleaseIndexForIdHash` | hardhat/merkle_tree.js:96-102 | Removes exactly the identity's entry from both maps |
| `Slots.OrderIndependence` | hardhat/merkle_tree.js:81-95 | Without releases the set of occupied slots does not depend on the insertion order |
| `MerkleTree.OccupiedSlotsUnique` | hardhat/merkle_tree.js:81-95 | The same for identities with their preferred slots |
| `Slots.FirstFreeMeaning` | hardhat/merkle_tree.js:84-93 | The slot found is the nearest free one above the preferred slot, counted modulo the capacity |
| `Slots.ProbeExhausted` | hardhat/merkle_tree.js:85-94 | A search that finds nothing has seen every slot taken |
| `MerkleTree.TreeCache.RecomputePathCacheForId` | hardhat/merkle_tree.js:139-169 | The recorded path is the one of the identity's slot in the current tree |
| `MerkleTree.TreeCache.FreshPathAccepted` | hardhat/merkle_tree.js:139-169 | Such a path passes the local check and satisfies the circuit; another leaf that passes meets it in an explicit collision |
| `MerkleTree.TreeCache.RelabelPathCache` | hardhat/bb_service_zk.js:1182-1186 | Every cached path but the excepted one gets the current root as its label; leaf and siblings stay |
| `MerkleTree.TreeCache.RelabelledPathValidIff` | hardhat/bb_service_zk.js:661-664 | A path of an earlier tree relabelled with the current root verifies exactly if no leaf has changed since, unless the two trees meet an explicit collision |
| `MerkleTree.TreeCache.UpdateAndRelabel` | hardhat/bb_service_zk.js:640-664 | After an incremental update every cached path is fresh or is the old one with the new root as its label |
| `MerkleRuns.StalePath` | hardhat/bb_service_zk.js:661-664 | A run of two identities: after an update of one the relabelled path of the other does not verify |
| `MerkleTree.TreeCache.FullRebuildSparseTreeFromMirror` | hardhat/merkle_tree.js:175-207 | After a rebuild each active identity, in sorted order, sits in the first slot free by probing after those before it, its leaf there, every other slot empty and every cached path fresh; it throws exactly on too many identities |
| `MerkleTree.TreeCache.IncrementalUpdateTreeCacheFromMirror` | hardhat/merkle_tree.js:208-238 | If the affected ids cover every change of the mirror since the tree was in sync, it is in sync again; kept identities keep their slots, preheated paths are fresh and the others unchanged |
| `Membership.RootCommits` | hardhat/merkle_tree.js:37-45 | Two trees in sync with two mirrors and with one root: at every slot the same record values, or the trees or the leaf hash exhibit an explicit collision |
| `Membership.NativeLeafIsCircuitLeaf` | circuits/common/poseidon_merkle.circom:53-76 | The leaf written for an active record is the one leaf the circuit accepts for its values, provided the version is below 2^64 |
| `Membership.RangeCheckMeaning` | circuits/common/poseidon_merkle.circom:19-24 | Over a prime field above 2^64 the bit decomposition exists exactly for numbers below 2^64 |
| `Membership.MembershipMeaning` | circuits/auth_membership.circom:31-90 | The authentication circuit is satisfied exactly when version and epoch are below 2^64, the path leads from the leaf of the opened commitment to the root, and the two session hashes are right |
| `Membership.ProofOpensRecord` | circuits/auth_membership.circom:31-90 | A satisfied circuit over the tree's root opens the active record at the slot of its path, every field, or exhibits an explicit collision |
| `Membership.RecordHasProof` | circuits/auth_membership.circom:31-90 | The holder of an active record's opening satisfies the circuit with the path of its slot exactly if version and epoch are below 2^64 |
| `Membership.CachedPathProves` | hardhat/merkle_tree.js:139-170 | A cache in sync with the mirror and a fresh cached path are such a tree and such a path |
| `Membership.OneNullifier` | circuits/auth_membership.circom:82-89 | Two proofs from one slot for one context and epoch carry one nullifier, or one of them exhibits a collision |
| `MerkleTree.PreferredSlotsSameRoot` | hardhat/merkle_tree.js:175-238 | When every active identity sits at its preferred slot, incremental update and full rebuild have the same root |
| `MerkleTree.SameRootIffSameSlots` | hardhat/merkle_tree.js:175-238 | Two trees in sync with one mirror of distinct leaves have the same root exactly when every identity has the same slot, unless they meet an explicit collision |
| `MerkleTree.RebuildKeepsRootIff` | hardhat/merkle_tree.js:175-238 | A full rebuild keeps the root exactly when the current slots already are those of probing in sorted order, with the same proviso |
| `MerkleRuns.HistoryMatters` | hardhat/merkle_tree.js:81-238 | Two runs to one mirror, with and without a displaced identity, end with different roots |
| `MerklePath.ComputeRootFromPath` | cpp/merkle_poseidon.cpp:706-716 | The native loop is the fold of the path, or throws on a malformed path |
| `MerklePath.CircuitEquivalence` | circuits/common/poseidon_merkle.circom:167-211 | The circuit's constraints are satisfiable for a leaf, root and path exactly when the native check accepts them |
| `MerklePath.SelectorMeaning` | circuits/common/poseidon_merkle.circom:200-205 | The delta selector orders current node and sibling by the path bit |
| `MerklePath.ForceBoolMeaning` | circuits/common/poseidon_merkle.circom:10-13 | Over a prime field the boolean constraint admits exactly 0 and 1 |
| `MerklePath.SignalsAreFold` | circuits/common/poseidon_merkle.circom:180-208 | In every satisfying assignment each hash signal is the fold of the levels below |
| `MerklePath.PathBinding` | cpp/merkle_poseidon.cpp:699-722 | Two proofs for one root and index have the same leaf and siblings, or their folds meet in an explicit collision |
| `MerklePath.TreePathCorrect` | cpp/merkle_poseidon.cpp:699-722 | The path of a leaf in the dense tree leads to the root, and a proof of another leaf there meets it in a collision |
| `Committee.CommitteeStore.SetShareEnvelope` | cpp/committee_node.cpp:254-296 | Storing keeps the index invariant, replaces exactly one share and appends its key under its normalised version; what does not verify changes nothing |
| `Committee.CommitteeStore.InvalidateShares` | cpp/committee_node.cpp:412-449 | Afterwards the version has no active share, and the reported count is the number of shares that were active |
| `Committee.CommitteeStore.Sweep` | cpp/committee_node.cpp:433-446 | The loop over index entries switches off every listed active share and counts each once despite repeats |
| `Committee.CommitteeStore.FindRequestedEnvelope` | cpp/committee_node.cpp:326-371 | What is served is as requested: by guardian the share under the lookup key if active, without index some active share of the version, none only if there is none |
| `Committee.CommitteeStore.FirstActive` | cpp/committee_node.cpp:349-363 | The scan of index entries finds an active share exactly when the version has one |
| `Committee.CommitteeStore.ShareMeta` | cpp/committee_node.cpp:298-324 | The answer names the stored share of the normalised digest, version, epoch and guardian, none exactly if there is none; errors on missing arguments and bad digests |
| `Committee.WithShareIndexed` | cpp/committee_node.cpp:288-292 | Storing keeps the invariant: every stored share is listed under its normalised version, and nothing else is |
| `Committee.InvalidatedRecord` | cpp/committee_node.cpp:433-446 | An active share of the version is switched off, keeps everything else, and notes time and reason; an inactive one stays as it is |
| `Committee.NothingActiveLeft` | cpp/committee_node.cpp:433-446 | Invalidation leaves nothing active in the version and touches no other share |
| `Committee.ListedIsActive` | cpp/committee_node.cpp:435-437 | The active listed keys of a version are its active shares |
| `Committee.RevivedExactlyBySet` | cpp/committee_node.cpp:254-449 | A version without active shares gets one exactly through a set of an active share of it |
| `Committee.StaysInvalidated` | cpp/committee_node.cpp:254-449 | Over every run of requests without such a set an invalidated version stays empty |
| `Committee.SetChangesOneShare` | cpp/committee_node.cpp:288-292 | A set makes exactly its own share active or inactive |
| `Committee.InvalidatedServesNothing` | cpp/committee_node.cpp:326-371 | A version without active shares serves nothing, by guardian or without |
| `Committee.ServedIsActive` | cpp/committee_node.cpp:326-371 | Whatever is served is an active share of the requested version, and of the requested guardian |
| `Committee.ShareKeyInjective` | cpp/share_envelope.cpp:155-159 | A share key determines raw digest text, version, epoch and guardian |
| `Committee.LookupIsNormalised` | cpp/committee_node.cpp:169-174 | The lookup by guardian reaches exactly the shares whose raw digest text is the normalised one |
| `Committee.LookupFinds` | cpp/committee_node.cpp:165-174 | In a node with consistent indexes the lookup key is stored exactly with the share of that digest, version, epoch and guardian |
| `Committee.ShortDigestUnreachable` | cpp/committee_node.cpp:254-296 | A share attested under an unpadded digest is admitted and becomes active, and no lookup by guardian reaches it |
| `Rotation.OldVersionNotServed` | cpp/ttss_rotate_flow.cpp:443-448 | After every completed rotation, over all interleavings, no node behind a committee address serves a share of the old version |
| `Rotation.NewShareServed` | cpp/ttss_rotate_flow.cpp:447-453 | ... and the i-th address serves exactly the i-th new envelope |
| `Rotation.RotatedSharesRecover` | cpp/ttss_rotate_flow.cpp:126-150 | ... so any t shares fetched from different addresses, through JSON, recover the new seed |
| `Rotation.MixedSharesRefused` | cpp/ttss_nits_shamir.cpp:355-387 | Recovery refuses every list whose first t shares contain both versions |
| `Rotation.MoveKeepsSafe` | cpp/ttss_rotate_flow.cpp:443-453 | Every request of the rotation and every allowed request of others keeps the invariant of the phases |
| `Rotation.VerifyNeverAborts` | cpp/ttss_flow.cpp:144-164 | Once all shares are distributed the closing check of each node succeeds |
| `Rotation.DistributeStep` | cpp/ttss_flow.cpp:126-142 | Distributing one envelope keeps the others, also on a shared node, and the old version stays gone |
| `Rotation.InvalidateStep` | cpp/ttss_flow.cpp:166-182 | Invalidating one node keeps the invariant |
| `Rotation.PlanForIsPlanned` | cpp/ttss_rotate_flow.cpp:371-434 | The envelopes of a successful sharing are admitted by every node and stored where the lookup by guardian looks |
| `Rotation.CanComplete` | cpp/ttss_rotate_flow.cpp:443-453 | From every start the rotation has a run that completes, provided both epochs are ones the nodes accept |
| `AddrLock.AtMostOneHolder` | hardhat/bb_service_zk.js:332-362 | In every run at most one caller holds the lock of an address |
| `AddrLock.ArrivalOrder` | hardhat/bb_service_zk.js:332-362 | A caller that has acquired the lock did so after every earlier caller released it, whether its body returned or threw |
| `AddrLock.CountersExact` | hardhat/bb_service_zk.js:335-360 | queued and active are the true numbers of waiting and holding callers |
| `AddrLock.ClampsNeverAct` | hardhat/bb_service_zk.js:346-358 | The guards against negative counters never act |
| `AddrLock.NeverStuck` | hardhat/bb_service_zk.js:332-362 | The first waiting caller can always go on once the earlier ones finished, possibly after a promise settles |
| `AddrLock.StepKeepsInv` | hardhat/bb_service_zk.js:332-362 | Every step keeps the promise chain: caller c waits for the link of caller c-1 |
| `AddrLock.Lock.DoEnter` | hardhat/bb_service_zk.js:332-342 | The code up to the first await keeps the chain: the new caller waits for the link of the caller before it, and one more caller is counted as waiting |
| `AddrLock.Lock.DoAcquire` | hardhat/bb_service_zk.js:343-349 | Whoever starts its body is the only holder, and all earlier callers have finished |
| `AddrLock.Lock.DoRelease` | hardhat/bb_service_zk.js:351-360 | The finally block settles the caller's own promise, uncounts exactly one holder and leaves nobody holding the lock |
| `NonceOrder.AcceptedNoncesConsecutive` | hardhat/bb_service_zk.js:363-400 | If all sends of a wallet take the lock, the accepted transactions carry consecutive nonces and returned sends different ones |
| `NonceOrder.UnlockedMayRepeat` | hardhat/bb_service_zk.js:363-400 | Without the lock two sends can be accepted with the same nonce |
| `NonceOrder.BodyMoveKeeps` | hardhat/bb_service_zk.js:373-394 | Reading, sending, losing, refusing and retrying keep the nonce of the holder equal to the pending one |
| `RebuildWorker.EveryIdIsTaken` | hardhat/bb_service_zk.js:679-719 | If no pass throws, every id given to a call is taken by a pass that starts no earlier than the call and no later than the next end of a pass |
| `RebuildWorker.EveryFullSyncIsTaken` | hardhat/bb_service_zk.js:686-713 | The same for a requested full synchronisation |
| `RebuildWorker.IdleMeansEmpty` | hardhat/bb_service_zk.js:699-719 | If no pass throws, an idle worker has empty queues and clear flags |
| `RebuildWorker.PassesDoNotOverlap` | hardhat/bb_service_zk.js:699-719 | Passes started minus passes ended is one while the worker is in flight and zero otherwise |
| `RebuildWorker.PassesBounded` | hardhat/bb_service_zk.js:706-713 | Passes in one worker run are at most one plus the calls made during it |
| `RebuildWorker.TakenOrWaiting` | hardhat/bb_service_zk.js:686-713 | An id asked for stays queued until a pass takes it, also when passes throw |
| `RebuildWorker.ThrownPassDropsIds` | hardhat/bb_service_zk.js:708-715 | When a pass throws, the queues and the flag hold exactly what was asked for while it ran; the rest of what it took is gone |
| `RebuildWorker.TakenAgainOnlyIfAsked` | hardhat/bb_service_zk.js:699-719 | After a pass has started, a later pass takes only what some call has asked for since |
| `RebuildWorker.OneThrownPass` | hardhat/bb_service_zk.js:708-715 | The run of one call and one throwing pass: the id was taken, and nothing is left of it |
| `RebuildWorker.LeftoversTakenNext` | hardhat/bb_service_zk.js:686-715 | What was queued while a pass failed is taken by the next call |
| `RebuildWorker.Worker.ScheduleRebuild` | hardhat/bb_service_zk.js:686-698 | One call appends, and either sets the dirty flag or starts a pass with everything queued |
| `RebuildWorker.Worker.FinishPass` | hardhat/bb_service_zk.js:706-718 | A returned pass starts another one exactly if the dirty flag is set |
| `RebuildWorker.AppendUnique` | hardhat/bb_service_zk.js:679-685 | The loop with its set appends each cleaned non-empty item once |
| `RebuildWorker.Appended` | hardhat/bb_service_zk.js:679-685 | The old queue stays as a prefix, nothing repeats, and exactly the cleaned non-empty items are added |
| `EventMirror.GroupedIsReplay` | hardhat/bb_service_zk.js:494-500 | Applying a range kind by kind equals in-order replay exactly when each identity with a recovery in the range ends it with a recovery |
| `EventMirror.SyncsReplayTheLog` | hardhat/bb_service_zk.js:480-511 | Consecutive ranges that meet this compose to replay of the whole log |
| `EventMirror.FullSyncReplays` | hardhat/bb_service_zk.js:480-511 | The same equivalence for a forced full synchronisation, whatever the mirror was |
| `EventMirror.MirrorSync.SyncFromEvents` | hardhat/bb_service_zk.js:480-511 | The method equals the specification of one synchronisation, block range and count included |
| `EventMirror.MirrorSync.ApplyEvent` | hardhat/bb_service_zk.js:442-478 | One event makes or changes exactly the record of its identity; an update keeps the owners |
| `EventMirror.UpdateAfterRecoveryLost` | hardhat/bb_service_zk.js:498-500 | A recovery followed by an update in one range: the grouped mirror ends with the recovery's content, replay with the update's |
| `EventMirror.FailedQueriesHarmlessIff` | hardhat/bb_service_zk.js:433-511 | A synchronisation with failed queries leaves the mirror of one with all answers exactly when every recovery is answered and each identity with another unanswered event has a recovery in the range (ordered range, older mirror) |
| `EventMirror.FailedQueryLosesEvents` | hardhat/bb_service_zk.js:433-441 | One log where this fails: a registration behind a failed query never reaches the mirror, the range counting as synchronised |
| `EventMirror.GroupedOwners` | hardhat/bb_service_zk.js:442-500 | Grouping never changes whom the events make owner |
| `EventMirror.RecordFields` | hardhat/bb_service_zk.js:442-478 | After replay the record shows the four values of the identity's last event, version 0 after a registration |
| `EventMirror.RecordAddresses` | hardhat/bb_service_zk.js:442-478 | ... and owner and recovery address of the last registration or recovery |
| `EventMirror.UpdatesKeepAddresses` | hardhat/bb_service_zk.js:442-478 | Updates alone leave the addresses as they were |
| `EventMirror.ReplayFor` | hardhat/bb_service_zk.js:442-478 | Replay leaves the content of an identity's last event and the last owners named |
| `Trace.TraceSucceedsIff` | cpp/ttss_trace.cpp:75-114 | For tables with distinct indexes and digests tracing succeeds exactly when there are roots, every root matches, and the matched indexes ascend strictly in list order |
| `Trace.TraceOfTextsSucceedsIff` | cpp/ttss_trace.cpp:75-114 | The same on key entries and root texts as given |
| `Trace.AccusedExactly` | cpp/ttss_trace.cpp:26-45 | The accused are exactly the guardians whose digest some root has, ascending, the same in both languages |
| `Trace.BuiltAcceptedIff` | hardhat/tracer_client.js:185-257 | The JavaScript result passes verifyTrace exactly when somebody is accused and was found in ascending order |
| `TracedSharing.IssuedRootsTrace` | cpp/ttss_trace.cpp:75-114 | When digests do not collide, the x texts of any issued envelopes in guardian order trace successfully, to exactly their guardians |
| `TracedSharing.IssuedTraceable` | cpp/ttss_nits_shamir.cpp:263-288 | Key entry and envelope of each guardian carry the digest of that guardian's own x, in canonical text |
| `Trace.FindHits` | hardhat/tracer_client.js:185-202 | The nested loop with its set records each found guardian once, with the root that found it |
| `Trace.BuildTraceResult` | hardhat/tracer_client.js:185-224 | The JavaScript result: sorted accused, roots in order of finding |
| `Trace.VerifyTrace` | cpp/ttss_trace.cpp:49-73 | The check loop with its map and set equals Check: arity, emptiness, repeats, missing indexes, digest of each root, in that order |
| `Trace.CheckMeans` | hardhat/tracer_client.js:226-257 | The check accepts exactly when no index repeats and each root has the digest of its accused guardian |
| `Trace.TraceFromExtractedRoots` | cpp/ttss_trace.cpp:75-114 | Normalisation, matching, sorting and self-check on texts, with the same thrown errors |
| `Trace.SortIsIdentity` | cpp/ttss_trace.cpp:43-44 | Sorting leaves a list without repeats alone exactly when it ascends strictly |

## Left out

- HTTP, JSON text syntax, command lines, files, process spawning, timeouts and token checks: plumbing around the modelled functions.
- Ed25519 and libsodium calls, Groth16 proving, snarkjs and GMP: foreign code.
- Poseidon's rounds and constants: they come from files that are not part of this model.
- The Solidity contract: its source is not part of this model; the chain is an event log and a pending-nonce counter.
- The leaf check circuit (`circuits/state_leaf_check.circom`): it is the leaf template already in `Membership.StateLeafHash`, for debugging.
- SHA-256 inside sharing and signing: the hash of a text is a parameter there, while `Sha256.dfy` proves the hash code itself.
- Text encodings: texts are sequences of characters, and the conversion of a text to the bytes that are hashed belongs to the parameter `h`.
- Hex.BytesToHex: always with the prefix; the digests of the two hash functions are byte sequences, and this conversion is the step after them.
- Clocks: `now` is a parameter of the committee requests, and wait and hold times of the lock are not kept.
- Error order inside JSON output: when several fields are malformed the model reports one of them, not necessarily the one the C++ code meets first.
- Messages of the envelope checks: each is a constructor of `Reason` instead of a text.
- The client's own parsing of a served share beyond the JSON round trip, and the recovery stage before a rotation: both use the routines proved in `NitsShamir.dfy`.
- Rotation.Allowed: the other clients of a rotation leave the new version alone and do not set shares of the old version on a node that has been invalidated; without that no order of requests could give the result.
- AddrLock.Lock: the entries of one address in the two maps; other addresses have entries of their own, and no step touches two addresses.
- Trace.BuildTraceResult: works on digests that are already normalised; the JavaScript text helpers do what the C++ ones modelled in `Hex.dfy` and `FieldText.dfy` do.
- MerkleTree.TreeCache.FullRebuildSparseTreeFromMirror: the sorted list of active identities is a parameter, because the collation order of the source is the runtime's; raw ids and their hashes are one name, and leaf texts are not cached. The rebuild awaits between identities and between preheated paths (`hardhat/merkle_tree.js:192`, `hardhat/merkle_tree.js:199`) and is one step here; a request may recompute a path then (`hardhat/bb_service_zk.js:1114`), so that every cached path is fresh afterwards holds without such requests.
- Trace rates, deltas, transcripts, timing fields, logging and experiment runners: no deep property.
- The query loop of the tracer, which only gathers the roots: its network oracle is not part of this model.
- Operation status labels, TTSS metadata scheduling, snapshot repair and the debounced state flush: ad hoc branches without a lasting invariant.
- The inline rebuild pass of one request path (`hardhat/bb_service_zk.js:741`): it runs outside the worker, and the worker's guarantees are about its own passes.
- Field caches and statistics of the Poseidon bridge: memoisation and counters around the hash parameter.
