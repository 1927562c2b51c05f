# Verification of scrypt

This project models the scrypt key derivation stack of the repository and the encrypted files built on it, and proves
that the fast forms equal the published specifications and that the streaming forms do not depend on how the data is
cut up. `dafny verify dfyconfig.toml` checks all of it, with the option that `dfyconfig.toml` sets.

## What is modelled

**scrypt.** `Salsa` and `Rfc7914` state sections 3 to 5 of RFC 7914 on octets. Three implementations are written in
the form of the C code, on arrays that they overwrite: `Smix` (words, two steps per iteration between X and Y),
`SmixSse2` (vectors on a layout permuted by `i * 5 mod 16`) and `SmixRef` (octets, with a separate reordering pass).
Each is proved to leave its slice of B equal to `Rfc7914.ROMix` of what it held and everything else in B as it was,
whatever V and XY held, so the three are the same function. `MixWords` carries the octet specification to words,
`MixMemory` is the algebra of the X/Y buffer for an even number of steps, and `ShuffledMix` carries the word form to
the permuted layout. The specification is parametric in the 64-octet core, so the mixing proofs never look inside
Salsa20/8; `Salsa` proves that the scalar and the vector code compute it, and `SalsaExample` that the specification
gives the example of section 8 of RFC 7914.

**SHA-256, HMAC, PBKDF2.** `Sha256Spec` states sections 5.1.1 and 6.2 of FIPS 180-4, and `Sha256Roots` proves that its
constants are bits of the roots of the first primes. `Sha256Transform` (rotating
register indices, schedule extended in place) and `Sha256Sse2` (schedule four words at a time) are both proved equal to
the compression function for every state and block. `Sha256Ctx` is the buffered context: a class whose abstract value is
the string of octets put in, whatever the cutting. `Hmac` and `Pbkdf2` follow section 2 of RFC 2104 and section 5.2 of
RFC 8018, including the restart from copied contexts.

**crypto_scrypt.** `Scrypt` models the parameter checks for 32-bit and 64-bit `size_t` and the pipeline
PBKDF2, smix, PBKDF2, for the platform code and the reference. `Collisions` shows that scryptROMix is not injective:
inverting the top bits of the first 64-octet block never changes its result.

**AES-CTR.** `AesCtr` models the stream with its lazily re-encoded counter, the software path, the AESNI path that never
writes the block buffer, and any interleaving of the two, in place or not. AES under an expanded key is an arbitrary
function on 16-octet blocks.

**Encrypted data.** `ContainerSpec` states the format (file `FORMAT`) and what decryption makes of any string of octets,
with its return codes. `Container` models `scryptenc_setup`, `scryptdec_setup`, and the buffer and file forms of
encryption and decryption on arrays, contexts and the streams of `Files`, whose reads deliver any positive number of
octets up to the request and whose writes fail exactly when they exceed the capacity of the file. `PickParams` models
`pickparams` and `checkparams`, with doubles taken as reals.

**HMAC_DRBG.** `Drbg` models the generator as a class with a ghost history of what it has done; the history stays legal
and determines the working state, the reseed counter and every octet put out. The operating system may answer or refuse
each request for entropy.

**Sizes.** `HumanSize` models the printer and the fall-through automaton of the parser.

`Bytes`, `Mem`, `Bits`, `Sse2` and `Wrappers` hold the integers, buffers and instructions that the others share.

## Where the code and its documentation differ

- `&B[i * 128 * r]` in both `crypto_scrypt` functions multiplies a 32-bit `i` by 128 in 32 bits. With a 64-bit `size_t`
  the checks accept more than 2^25 slices (`Scrypt.WrapIsReachable`), and from slice 2^25 on the offsets wrap.
  `Scrypt.MixingExact` proves, for every r and N, that the loop mixes every string as section 6 of RFC 7914 does if and
  only if `p <= 2^25`; beyond it `Scrypt.WrongMixing` gives a string that is mixed wrongly. `Scrypt.AsCodedIsScrypt`
  proves that up to that bound the key is scrypt, and `Scrypt.NoWrap32` that a 32-bit `size_t` never passes it.
- RFC 7914 asks for `N < 2^(128 * r / 8)`; the checks do not. For a given r every accepted N meets the bound if and only
  if `r >= 4`, or `r >= 2` with a 32-bit `size_t` (`Scrypt.RfcBoundExact`); below that every `N = 2^k` with `k >= 16 * r`
  that passes the size test is accepted (`Scrypt.ExcludedAccepted`), for example `N = 65536` and `r = 1`.
- `PBKDF2_SHA256` never ends with the iteration count 2^64 - 1 (`Pbkdf2.RoundsEnd`). Its loop over blocks cannot end
  with an output length within 31 of the end of `size_t` (`Pbkdf2.BlocksEnd`). Only a 32-bit `size_t` reaches that: with
  64 bits an assertion stops before the loop every length above 32 * (2^32 - 1), which the checks of `crypto_scrypt`
  also refuse (`Scrypt.LengthEnds64`).
- `checkparams` does not raise the CPU limit to 32768 as `pickparams` does, so parameters just picked are refused as too
  slow exactly when `opps * maxtime < 32768` (`PickParams.PickedIsAccepted`).
- With a 32-bit `size_t` `pickparams` can choose parameters that `crypto_scrypt` refuses, so that encryption fails with
  `SCRYPT_EKEY`. That happens if and only if the CPU limit is at least 2^27 times the largest power of two up to
  `memlimit / 1024` (`ContainerSpec.PickedPassesExactly`); `ContainerSpec.PickedCanBeRefused` is an instance.
- The buffer and file forms of decryption accept the same inputs, but the file form derives the keys before it knows
  that the authenticator is incomplete. Their codes differ exactly for inputs of 96 to 127 octets with the magic and
  version whose header is refused for another reason than being invalid (`ContainerSpec.SameAcceptance`), for example
  because it asks for too much memory (`ContainerSpec.CodesDiffer`).
- The comment on `generate` says "less than" for both of its limits; the assertions, and the model, say "at most".

## Model

| member | source | states |
|---|---|---|
| Salsa.Quarter | lib/crypto/crypto_scrypt_smix.c:70-92 | four add-rotate-xor lines on four places of the array are one quarterround of the Salsa20 specification |
| Salsa.DoubleRoundInPlace | lib/crypto/crypto_scrypt_smix.c:69-93 | the 32 lines of an iteration, with their fixed places, are a columnround and then a rowround |
| Salsa.SalsaInPlace | lib/crypto/crypto_scrypt_smix.c:62-100 | four iterations and the final addition replace exactly 16 words by their Salsa20/8 |
| Salsa.ShuffleInverse | lib/crypto/crypto_scrypt_smix_sse2.c:201-207 | loading by i * 5 mod 16 is a bijection, inverted by reading at j * 13 mod 16 |
| Salsa.XorShiftedLanes | lib/crypto/crypto_scrypt_smix_sse2.c:81-114 | xoring a sum shifted left and then shifted right is, lane by lane, xoring its rotation |
| Salsa.VecColumnRound | lib/crypto/crypto_scrypt_smix_sse2.c:81-99 | vector operations and lane rotations on the four diagonals are a columnround, leaving the lanes by rows |
| Salsa.VecRowRound | lib/crypto/crypto_scrypt_smix_sse2.c:101-119 | the second half is a rowround and restores the diagonals |
| Salsa.DiagonalsShuffled | lib/crypto/crypto_scrypt_smix_sse2.c:69-78 | four vectors hold the diagonals of a block if and only if the 16 words are its permuted layout |
| Salsa.SalsaSse2 | lib/crypto/crypto_scrypt_smix_sse2.c:69-125 | on a permuted block the vector code gives the permuted Salsa20/8, and changes nothing else |
| SalsaExample.ExampleOutput | lib/crypto/crypto_scrypt-ref.c:69-120 | Salsa20/8 of the input published in section 8 of RFC 7914 is the output published there |
| MixWords.SalsaSimulates | lib/crypto/crypto_scrypt-ref.c:69-120 | little-endian decoding carries the octet core to the word core |
| MixWords.BlockMixWords | lib/crypto/crypto_scrypt-ref.c:122-151 | decoding commutes with BlockMix for every r |
| MixWords.IntegerifyMod | lib/crypto/crypto_scrypt_smix.c:140-146 | reducing the low 64 bits is reducing the whole 512-bit integer of RFC 7914, for every accepted N |
| MixWords.MixSteps | lib/crypto/crypto_scrypt_smix.c:156-206 | decoding carries every prefix of the second loop of ROMix from octets to words |
| MixMemory.MixStateEnd | lib/crypto/crypto_scrypt_smix.c:105-134 | after 2r blocks the output buffer holds BlockMix, although X was overwritten at every step |
| MixMemory.MaskIsModulo | lib/crypto/crypto_scrypt_smix.c:188-195 | masking with N - 1 is reduction modulo N for every loop size accepted |
| Smix.BlockMixSalsa8 | lib/crypto/crypto_scrypt_smix.c:108-134 | out-of-place BlockMix writes the even blocks to the first half and the odd ones to the second, and only there |
| Smix.IntegerifyAt | lib/crypto/crypto_scrypt_smix.c:140-146 | words 0 and 1 of the last block as a 64-bit integer |
| Smix.FirstLoop | lib/crypto/crypto_scrypt_smix.c:171-184 | V holds BlockMix applied 0 to N - 1 times and X holds it applied N times: two steps per iteration are exact because N is even |
| Smix.SecondLoop | lib/crypto/crypto_scrypt_smix.c:186-201 | X becomes the word form of ROMix |
| Smix.CryptoScryptSmix | lib/crypto/crypto_scrypt_smix.c:156-206 | the slice of B becomes scryptROMix of itself, nothing else in B changes, whatever V and XY held |
| ShuffledMix.ShuffledBlockMix | lib/crypto/crypto_scrypt_smix_sse2.c:133-159 | the permuted layout commutes with BlockMix |
| ShuffledMix.ShuffledIntegerify | lib/crypto/crypto_scrypt_smix_sse2.c:166-179 | slots 0 and 13 of the last permuted block are words 0 and 1 |
| SmixSse2.LoadWords | lib/crypto/crypto_scrypt_smix_sse2.c:201-207 | B decoded and permuted block by block |
| SmixSse2.StoreWords | lib/crypto/crypto_scrypt_smix_sse2.c:242-248 | storing inverts the permuted load |
| SmixSse2.CryptoScryptSmixSse2 | lib/crypto/crypto_scrypt_smix_sse2.c:191-249 | the same contract as the generic smix, hence the same octets |
| SmixRef.BlockMixSalsa8 | lib/crypto/crypto_scrypt-ref.c:127-151 | in-place BlockMix with a separate even/odd pass equals BlockMix of RFC 7914 |
| SmixRef.MaskedIntegerify | lib/crypto/crypto_scrypt-ref.c:157-163 | le64dec of the last block, masked, is Integerify mod N |
| SmixRef.SMix | lib/crypto/crypto_scrypt-ref.c:172-204 | the same contract as the generic smix, on octets |
| Sha256Transform.ChMajAgree | libcperciva/alg/sha256.c:200-201 | the rewritten Ch and Maj equal those of FIPS 180-4 for all words |
| Sha256Transform.SigmasAgree | libcperciva/alg/sha256.c:202-207 | shift-and-or rotations give the four sigma functions |
| Sha256Transform.UpdateMovesOn | libcperciva/alg/sha256.c:216-221 | replacing two registers and starting one place earlier is shifting all eight working variables |
| Sha256Transform.RndR | libcperciva/alg/sha256.c:210-221 | one RNDr with indices (64 - i) mod 8 is one round of section 6.2.2 |
| Sha256Transform.SixteenWords | libcperciva/alg/sha256.c:224-225 | the schedule extended in place satisfies the 64-word recurrence |
| Sha256Transform.Transform | libcperciva/alg/sha256.c:232-321 | the state becomes the compression function of the old state and the block |
| Sha256Sse2.BswapIsBigEndian | libcperciva/alg/sha256_sse2.c:19-31 | 16-bit shifts and half swaps turn a little-endian load into a big-endian word |
| Sha256Sse2.SmallSigma1Lanes | libcperciva/alg/sha256_sse2.c:80-118 | 64-bit shifts of duplicated lanes give the lower sigma-1 of both lanes |
| Sha256Sse2.Msg4IsSchedule | libcperciva/alg/sha256_sse2.c:135-167 | four new schedule words, although the upper two depend on the lower two |
| Sha256Sse2.TransformSse2 | libcperciva/alg/sha256_sse2.c:182-238 | the same contract as the scalar transform |
| Bytes.BeUnwordsAt | libcperciva/alg/sha256.c:46-60 | octets 4k to 4k + 3 of encoded words are, read most significant first, the value of word k |
| Bytes.BeWordsUnwords | libcperciva/alg/sha256.c:46-79 | be32dec_vect inverts be32enc_vect |
| Sha256Spec.DigestWord | libcperciva/alg/sha256.c:450 | octets 4k to 4k + 3 of the digest are, most significant first, word k of the final hash value, for every message |
| Sha256Spec.PaddingIs | libcperciva/alg/sha256.c:330-356 | the padded message octet by octet: the message, 0x80, zeros, the number of bits in the last eight octets, and no block more than needed |
| Sha256Spec.PaddedInjective | libcperciva/alg/sha256.c:330-356 | different messages below 2^61 octets have different padded forms |
| Sha256Roots.FirstPrimes | libcperciva/alg/sha256.c:80-97 | the 64 numbers whose cube roots are used are all the primes up to 311 |
| Sha256Roots.RoundConstants0 | libcperciva/alg/sha256.c:81-84 | Krnd[0] to Krnd[15] are the first 32 bits of the fractional parts of the cube roots of the first 16 primes |
| Sha256Roots.RoundConstants16 | libcperciva/alg/sha256.c:85-88 | the same of the next 16 |
| Sha256Roots.RoundConstants32 | libcperciva/alg/sha256.c:89-92 | the same of the next 16 |
| Sha256Roots.RoundConstants48 | libcperciva/alg/sha256.c:93-96 | the same of the last 16 |
| Sha256Roots.InitialValue | libcperciva/alg/sha256.c:100-103 | the initial state is such bits of the square roots of the first eight primes |
| Sha256Ctx.CountIs | libcperciva/alg/sha256.c:395-396 | the bit count modulo 2^64 still gives the number of octets buffered |
| Sha256Ctx.PadShort | libcperciva/alg/sha256.c:339-356 | when r < 56 the last buffer is the last block of the padded message |
| Sha256Ctx.PadLong | libcperciva/alg/sha256.c:342-356 | when r >= 56 the two buffers are the last two blocks |
| Sha256Ctx.Sha256Context.Transform | libcperciva/alg/sha256.c:232-275 | both transforms give the same state |
| Sha256Ctx.Sha256Context.Init | libcperciva/alg/sha256.c:363-377 | nothing has been absorbed |
| Sha256Ctx.Sha256Context.Update | libcperciva/alg/sha256.c:383-421 | a context that has absorbed m has absorbed m and the new octets: state is the fold over all full blocks and buf the rest, for any length |
| Sha256Ctx.Sha256Context.Final | libcperciva/alg/sha256.c:330-451 | the digest is SHA-256 of everything absorbed, however it was cut up; `Sha256Spec.DigestWord` says in which order its octets are those of the hash value |
| Sha256Ctx.Sha256Buf | libcperciva/alg/sha256.c:473-486 | SHA-256 of a buffer, which may also receive the digest |
| Hmac.FillPad | libcperciva/alg/sha256.c:510-520 | the pad is the zero-extended key xored with the repeated octet |
| Hmac.HmacContext.Init | libcperciva/alg/sha256.c:493-523 | keys longer than a block are hashed first, in the inner context itself |
| Hmac.HmacContext.Update | libcperciva/alg/sha256.c:546-553 | the inner context absorbs the data |
| Hmac.HmacContext.Final | libcperciva/alg/sha256.c:573-586 | the digest is HMAC of the key and everything absorbed |
| Hmac.HmacContext.CopyFrom | libcperciva/alg/sha256.c:662-679 | a copied context has absorbed what the original has |
| Hmac.HmacSha256Buf | libcperciva/alg/sha256.c:611-627 | HMAC of a buffer, also in place |
| Pbkdf2.Block | libcperciva/alg/sha256.c:665-684 | restarting from copied contexts gives U_1 and every U_j, and T is their exclusive or |
| Pbkdf2.KeyPrefix | libcperciva/alg/sha256.c:686-690 | a shorter key is the start of a longer one |
| Pbkdf2.RoundsEnd | libcperciva/alg/sha256.c:675 | the loop over the iterations can end if and only if the count is not 2^64 - 1 |
| Pbkdf2.BlocksEnd | libcperciva/alg/sha256.c:663 | the loop over the blocks can end if and only if dkLen is at most SIZE_MAX - 31 |
| Pbkdf2.Pbkdf2Sha256 | libcperciva/alg/sha256.c:634-701 | whenever its loops can end, exactly dkLen octets are written: section 5.2 of RFC 8018 with the last block cut short |
| Bits.PowerOfTwoTest | lib-platform/crypto/crypto_scrypt.c:84 | N & (N - 1) == 0 holds of exactly the powers of two |
| Scrypt.GateIsExact | lib-platform/crypto/crypto_scrypt.c:69-95 | the checks accept if and only if r, p and N are as documented and 128rp, 256r + 64 and 128rN fit in size_t; every error code exactly when due |
| Scrypt.OffsetFits | lib-platform/crypto/crypto_scrypt.c:139-142 | every slice given to smix lies inside B |
| Scrypt.OffsetsExact | lib-platform/crypto/crypto_scrypt.c:139-142 | every slice gets its own offset if and only if p <= 2^25 |
| Scrypt.NoWrap32 | lib-platform/crypto/crypto_scrypt.c:88-95 | with a 32-bit size_t the checks imply p <= 2^25 |
| Scrypt.LateSlicesUnmixed | lib-platform/crypto/crypto_scrypt.c:139-142 | from slice 2^25 on no slice is ever changed |
| Scrypt.WrapBreaksMixing | lib-platform/crypto/crypto_scrypt.c:139-142 | beyond 2^25 slices the mixed string is that of RFC 7914 only at fixed points of ROMix |
| Scrypt.WrapIsReachable | lib-platform/crypto/crypto_scrypt.c:69-95 | accepted parameters for which slice 2^25 lands on slice 0 |
| Scrypt.WrongMixing | lib-platform/crypto/crypto_scrypt.c:139-142 | beyond 2^25 slices, for every r and N, some string is mixed wrongly |
| Scrypt.MixingExact | lib-platform/crypto/crypto_scrypt.c:138-142 | every string is mixed as RFC 7914 asks if and only if p <= 2^25 |
| Collisions.SalsaIgnoresTops | lib/crypto/crypto_scrypt_smix.c:62-100 | inverting the top bit of all 16 words leaves Salsa20/8 unchanged |
| Collisions.ROMixCollides | lib/crypto/crypto_scrypt_smix.c:156-206 | inverting those bits in the first block leaves ROMix unchanged, so ROMix is not injective |
| Collisions.ROMixMoves | lib/crypto/crypto_scrypt_smix.c:156-206 | for every r and N some string is not a fixed point of ROMix |
| Scrypt.RfcBoundExact | lib-platform/crypto/crypto_scrypt.c:69-95 | for a given r every accepted N is below 2^(128r / 8) if and only if r >= 4, or r >= 2 with a 32-bit size_t |
| Scrypt.ExcludedAccepted | lib-platform/crypto/crypto_scrypt.c:84-95 | for smaller r every N = 2^k with k >= 16r that passes the size test is accepted |
| Scrypt.LargeNAccepted | lib-platform/crypto/crypto_scrypt.c:84-87 | an instance of accepted parameters that RFC 7914 excludes |
| Scrypt.LengthEnds64 | lib-platform/crypto/crypto_scrypt.c:74-79 | with 64 bits the checks refuse every length with which PBKDF2 would not end |
| Scrypt.SlicesAreBlocks | lib-platform/crypto/crypto_scrypt.c:138-142 | up to 2^25 slices, each is mixed once as PBKDF2 left it and nothing else changes |
| Scrypt.AsCodedIsScrypt | lib-platform/crypto/crypto_scrypt.c:135-145 | up to 2^25 slices the key is scrypt of section 6 of RFC 7914 |
| Scrypt.CryptoScryptInternal | lib-platform/crypto/crypto_scrypt.c:56-172 | success exactly on acceptable parameters, then the key is scrypt; on failure the output is untouched |
| Scrypt.CryptoScryptRef | lib/crypto/crypto_scrypt-ref.c:215-294 | the reference computes the same key under its own checks |
| AesCtr.CtrConcat | libcperciva/crypto/crypto_aesctr.c:162-166 | the output does not depend on how the data is cut up |
| AesCtr.CtrTwice | libcperciva/crypto/crypto_aesctr.c:162-166 | applying the stream twice from one position restores the data |
| AesCtr.CtrIsCtrMode | libcperciva/crypto/crypto_aesctr.c:185-203 | the per-octet stream is counter mode of NIST SP 800-38A, block by block with a short last block |
| AesCtr.CountersDiffer | libcperciva/crypto/crypto_aesctr_shared.c:24-31 | no counter block repeats below 2^64 |
| AesCtr.Increment | libcperciva/crypto/crypto_aesctr_shared.c:24-31 | incrementing the low octet is re-encoding the counter, unless it wraps |
| AesCtr.Stream.Init2 | libcperciva/crypto/crypto_aesctr.c:104-129 | the invariant holds at position 0, with the 0xff start; the key is kept if none is given |
| AesCtr.Stream.Generate | libcperciva/crypto/crypto_aesctr_shared.c:16-35 | pblk and buf hold the counter block and key stream block for bytectr / 16 |
| AesCtr.Stream.Use | libcperciva/crypto/crypto_aesctr_shared.c:37-56 | nbytes of stream are applied, in place or not, and the invariant holds again |
| AesCtr.Stream.PreWholeBlock | libcperciva/crypto/crypto_aesctr_shared.c:58-86 | the rest of the current block is used up, or the request is complete |
| AesCtr.Stream.SoftwareBlocks | libcperciva/crypto/crypto_aesctr.c:190-200 | all whole blocks by the software path |
| AesCtr.Stream.VectorBlocks | libcperciva/crypto/crypto_aesctr_aesni.c:54-109 | all whole blocks by the AESNI path, re-establishing the invariant without writing buf |
| AesCtr.Stream.VectorStream | libcperciva/crypto/crypto_aesctr_aesni.c:117-134 | the whole call by the AESNI path |
| AesCtr.Stream.CryptStream | libcperciva/crypto/crypto_aesctr.c:167-204 | either path gives octet n of output as input xor octet n mod 16 of AES(nonce, be64(n / 16)), so calls may interleave |
| AesCtr.AesCtrBuf | libcperciva/crypto/crypto_aesctr.c:229-247 | a one-shot call from position 0 |
| PickParams.LargestPower | lib/scryptenc/scryptenc.c:181-190 | the loop finds the largest power of two up to the bound |
| PickParams.PickByCpu | lib/scryptenc/scryptenc.c:177-191 | CPU-bound: both limits hold and doubling N breaks the CPU limit |
| PickParams.PickByMemory | lib/scryptenc/scryptenc.c:192-208 | memory-bound: both limits hold, doubling N breaks the memory limit, raising p the CPU limit or r * p < 2^30 |
| PickParams.Pick | lib/scryptenc/scryptenc.c:145-219 | under the CPU limit opps * maxtime, or 32768 if that is more: the parameters are valid and fit both limits, neither N nor p can be raised, and which limit binds N, with p = 1 when the CPU limit does; every code exactly when due |
| PickParams.CheckIsExact | lib/scryptenc/scryptenc.c:221-277 | for every input: out of range is EINVAL even when forced; forced and in range is accepted whatever was measured; a failed measurement is reported; otherwise the chains of divisions compare 128Nr and 4Nrp with the limits, and each code is returned exactly when due |
| PickParams.PickedIsAccepted | lib/scryptenc/scryptenc.c:153-259 | under the same limits picked parameters are accepted if and only if opps * maxtime >= 32768, otherwise too slow |
| ContainerSpec.PickedPassesGate | lib/scryptenc/scryptenc.c:311-328 | picked parameters pass crypto_scrypt if and only if 128rp fits in size_t |
| ContainerSpec.PickedPassesExactly | lib/scryptenc/scryptenc.c:145-219 | told from the limits alone: picked parameters pass crypto_scrypt always with 64 bits, and with 32 bits if and only if the CPU limit is below 2^27 times the largest N the memory limit allows |
| ContainerSpec.PickedCanBeRefused | lib/scryptenc/scryptenc.c:311-328 | an instance with a 32-bit size_t that is refused |
| ContainerSpec.PreambleLayout | FORMAT:5-10 | octets 0 to 47 of the table: "scrypt", 0, log2(N), r and p as big-endian integers, the salt |
| ContainerSpec.SealedLayout | FORMAT:11-18 | the rest of the table: which octets are hashed, with which half of the keys |
| ContainerSpec.DataLayout | FORMAT:13-16 | octet i of the data is xored with octet i mod 16 of AES of the nonce 0 and the counter i / 16, under the first half of the keys |
| ContainerSpec.KeysAreScrypt | FORMAT:16-18 | up to 2^25 slices the keys are scrypt(password, salt, N, r, p, 64) of RFC 7914 |
| ContainerSpec.PreambleParses | lib/scryptenc/scryptenc.c:444-448 | the header fields written are the fields read |
| ContainerSpec.ParsedPreamble | lib/scryptenc/scryptenc.c:330-336 | the fields read determine the octets |
| ContainerSpec.SignedSetup | lib/scryptenc/scryptenc.c:432-482 | a header made with the password fails only by the limits or by crypto_scrypt |
| ContainerSpec.SealedOpens | lib/scryptenc/scryptenc.c:610-633 | data sealed with the derived keys is opened with them |
| ContainerSpec.RoundTrip | lib/scryptenc/scryptenc.c:565-644 | decrypting encrypted data gives the data, unless the limits or crypto_scrypt refuse the parameters, in both forms |
| ContainerSpec.VerdictUnder | lib/scryptenc/scryptenc.c:463-466 | the verdict on the parameters of a header under the limits in force, for every header and all limits, known or not |
| ContainerSpec.ScryptGateIs | lib/scryptenc/scryptenc.c:468-471 | of parameters in range crypto_scrypt accepts those for which 128rp, 256r + 64 and 128rN fit in size_t |
| ContainerSpec.ForcedRoundTrip | lib/scryptenc/scryptenc.c:239-276 | forced decryption gives the data for all parameters in range whose sizes fit in size_t, whatever the limits are and even if they could not be measured, in both forms |
| ContainerSpec.WrongPassword | lib/scryptenc/scryptenc.c:473-478 | another password is reported as wrong, in both forms, if and only if it gives the header another signature |
| ContainerSpec.AcceptedIsEncrypted | lib/scryptenc/scryptenc.c:565-644 | whatever is accepted is exactly what encrypting the result gives |
| ContainerSpec.SameAcceptance | lib/scryptenc/scryptenc.c:565-928 | both decryptors accept the same inputs with the same data, and return the same code unless the input is long enough for the header but not for the authenticator and the header is refused, not as invalid |
| ContainerSpec.CodesDiffer | lib/scryptenc/scryptenc.c:600-608 | an input for which the buffer form reports invalid data and the file form too much memory |
| Container.VerifyBytes | libcperciva/crypto/crypto_verify_bytes.c:11-21 | zero if and only if the octets are identical |
| Container.ExplicitParams | lib/scryptenc/scryptenc.c:297-319 | explicit parameters in range are accepted whatever the known limits are, or if forced; out of range they have their own code; unknown limits are reported |
| Container.ChooseParams | lib/scryptenc/scryptenc.c:295-328 | explicit parameters are checked with limit warnings suppressed, otherwise the best are picked |
| Container.BuildHeader | lib/scryptenc/scryptenc.c:330-352 | the header stores of scryptenc_setup give the format's header |
| Container.EncSetup | lib/scryptenc/scryptenc.c:283-363 | every code when due; on success the header and keys of the parameters in use |
| Container.DecSetup | lib/scryptenc/scryptenc.c:432-482 | accepts or refuses any header as the specification says, and reports its parameters |
| Container.EncBuf | lib/scryptenc/scryptenc.c:495-553 | the output is the encrypted form of the input, inbuflen + 128 octets |
| Container.DecBuf | lib/scryptenc/scryptenc.c:565-644 | the outcome of the specification for every input; nothing is written on failure |
| Container.EncryptAll | lib/scryptenc/scryptenc.c:703-718 | for reads of any length the file and the HMAC receive the whole encrypted message, and it fails exactly when the file has no room for it |
| Container.EncFile | lib/scryptenc/scryptenc.c:656-742 | the file form writes the same octets as the buffer form, as far as there is room, without the authenticator after a read error; every code exactly when due |
| Container.LoadHeader | lib/scryptenc/scryptenc.c:770-819 | every code of the two-step header read |
| Container.SpoolAll | lib/scryptenc/scryptenc.c:866-888 | for reads of any length, octets spooled and hashed followed by at most 32 retained octets are the octets read; it fails exactly when the spool has no room for them |
| Container.TailIs | lib/scryptenc/scryptenc.c:890-908 | at the end the retained octets are the authenticator and the spool is the ciphertext |
| Container.DecFilePrep | lib/scryptenc/scryptenc.c:828-928 | the outcome of the specification for every file, with the ciphertext spooled, and a spool error exactly when an accepted header is followed by more than the spool holds |
| Container.DecFileCopy | lib/scryptenc/scryptenc.c:935-995 | any number of copies each write the decrypted spool as far as it can be read and there is room, with each code exactly when due |
| Container.DecFile | lib/scryptenc/scryptenc.c:1005-1036 | nothing is written unless the complete input authenticates, and then the data as far as the spool can be read and there is room; every code exactly when due |
| Drbg.MixStage | libcperciva/crypto/crypto_entropy.c:107-130 | one stage of the update function of section 10.1.2.2, through two HMAC updates and in-place HMAC |
| Drbg.Generator.Update | libcperciva/crypto/crypto_entropy.c:96-137 | the update function, with its second stage only for non-empty data |
| Drbg.Generator.InstantiateIt | libcperciva/crypto/crypto_entropy.c:62-90 | instantiation, with optional extra entropy; it fails exactly when its request for entropy does, and is then uninstantiated |
| Drbg.Generator.ReseedIt | libcperciva/crypto/crypto_entropy.c:143-169 | reseeding resets the counter; it fails exactly when its request for entropy does, and then changes nothing |
| Drbg.Generator.GenerateInto | libcperciva/crypto/crypto_entropy.c:178-200 | the output and next state of section 10.1.2.5 |
| Drbg.Generator.Read | libcperciva/crypto/crypto_entropy.c:206-245 | on success the buffer is the concatenation of the outputs of this call's generate steps, on failure its start is; it fails exactly when a request for entropy does, and makes none but to instantiate or at counter 257: never if the counter plus the number of pieces of 65536 octets is at most 257 |
| Drbg.EveryGenerate | libcperciva/crypto/crypto_entropy.c:183-184 | in every history each generate has a counter from 1 to 256 and at most 65536 octets |
| Drbg.Generator.NextChunk | libcperciva/crypto/crypto_entropy.c:219-240 | a pass of the loop reseeds if and only if the counter is above 256, then generates the rest of the request or 65536 octets of it |
| Drbg.EveryReseed | libcperciva/crypto/crypto_entropy.c:224-226 | in every history each reseed comes at counter 257 exactly, with 32 octets, and the instantiation is first and only once, with 48 |
| Drbg.GeneratesBetweenReseeds | libcperciva/crypto/crypto_entropy.c:221-226 | no stretch without a reseed has more than 256 generates |
| HumanSize.NestedFloor | libcperciva/util/humansize.c:26-28 | repeated division by 1000 is one division by the unit |
| HumanSize.PrefixExists | libcperciva/util/humansize.c:30-36 | a 64-bit size never needs more than six prefixes |
| HumanSize.HumanSize | libcperciva/util/humansize.c:15-58 | the string shows the largest value of the documented forms not above the size |
| HumanSize.WholeReads | libcperciva/util/humansize.c:11-14 | a size shown without decimal point is a numeral without leading zero, a space, the prefix if any and B; numeral times prefix is the value |
| HumanSize.TenthsRead | libcperciva/util/humansize.c:40-42 | a size shown with a decimal point is two digits around it, a space, a prefix and B; ten times the number they show, times the prefix, is ten times the value |
| HumanSize.Step | libcperciva/util/humansize.c:71-149 | one pass through the fall-through switch consumes one character of the language, or rejects for good |
| HumanSize.Parse | libcperciva/util/humansize.c:64-165 | success if and only if the string is a size below 2^64, with its value |
| HumanSize.FormIsSize | libcperciva/util/humansize.c:60-63 | every string of the form [0-9]+ ?[kMGTPE]?B? is a size, with the value of its parts |
| HumanSize.SizeHasForm | libcperciva/util/humansize.c:60-63 | every size has that form |
| HumanSize.PrintedParses | libcperciva/util/humansize.c:15-165 | a printed string parses if and only if it has no decimal point, to the value shown |

## Left out

- Pbkdf2.Pbkdf2Sha256: requires an iteration count below 2^64 - 1 and an output length up to SIZE_MAX - 31, because otherwise its loops never end (`Pbkdf2.RoundsEnd`, `Pbkdf2.BlocksEnd`).
- Pbkdf2.Block: requires an iteration count below 2^64 - 1, for the same reason.
- Scrypt.CryptoScryptInternal: requires, of parameters that pass the checks, an output length up to SIZE_MAX - 31, for the same reason; with 64 bits that is no restriction.
- Scrypt.CryptoScryptRef: requires the same.
- AesCtr.Stream.CryptStream: requires the stream to stay below 2^64 octets, the range of bytectr.
- Container.EncFile: requires less than 2^64 octets of input, for the same reason.
- Scrypt.MixingExact: speaks of the mixed string; that the final keys differ too would need PBKDF2 to be free of collisions.
- PickParams.Pick: takes doubles as reals; rounding is not modelled, and limits are inputs.
- AES itself and AES key expansion, the ARM and SHANI variants and crypto_aesctr_arm.c.
- Detection of processor features, the self-test that selects an implementation, alignment, mapping and clearing of memory; allocations and key expansion do not fail.
- memtouse, the clock and scryptenc_cpuperf: what they report is an input, at least 1 MiB for memory; that the speed is not known has one of the two codes scryptenc_cpuperf returns.
- The operating system's entropy: each request is answered with any octets or refused; RDRAND gives any octets or none.
- stdio: a file is a string of octets whose reads stop at its end or, with an error, anywhere, and whose writes fail when it is full; fseek and tmpfile do not fail.
- scryptdec_file_printparams, display_params and messages; warnings have no effect.
- The command line, passphrase input and file checks of main.c.
- Timing, secrecy and cryptographic strength.
