# A verified model of the arithmetic, cryptographic and container core of the el library

The project models, in Dafny, the parts of the library whose correctness is not visible from reading one
function, and proves what each of them is for. Code that changes state in the source is imperative here too
(arrays, classes with fields, loops with invariants), and every such method is proved against a specification
function; the theorems are lemmas about those functions.

- **BigInteger** (`Positional`, `Words`, `WordArithmetic`, `BigIntegers`, `BigShifts`, `LongDivision`, `BigDivision`):
  arbitrary-precision two's-complement numbers over machine words of 32 or 64 bits (`Words.WB` is a constant
  left open between 4 and 8 bytes). Every operation equals the integer operation; division is Knuth's
  Algorithm D with its trial digit and single add-back; the square root is Newton's iteration.
- **Merkle trees** (`MerkleLevels`, `MerkleTrees`, `PartialMerkle`, `MerkleExamples`): the flat tree, branches, and the partial
  tree's encoder and decoder over any hash type and node function. Round trip, completeness and soundness.
- **AES** (`SBox`, `GaloisField`, `GaloisTables`, `AesRounds`, `AesKeys`, `AesCipher`) and the **block modes**
  (`BlockModes`, `ModeEquations`): the tables, the circular key schedule, the equivalent inverse cipher, and the modes as
  equations between blocks. `AesStandard` ties every transformation to the field arithmetic of FIPS 197,
  `AesExample` evaluates its example vector.
- **SHA-256, HMAC, PBKDF2, BLAKE2s, FastKDF** (`Sha256Compression`, `Sha256Stream`, `Pbkdf2`,
  `Blake2sCompression`, `Blake2s`, `FastKdf`; helpers in `Words32`, `ByteBuffers`, `XorBytes`, `Numbers`, `Sequences`):
  streaming forms, saved states and ring buffers against the definitions of the standards. The definitions themselves are
  tied down by laws (`WordValues`, `Sha256Constants`, `Sha256Bytes`, `Blake2sBytes`, `Pbkdf2Laws`, `FastKdfByIndex`) and by
  evaluating the standards' examples, a few rounds to a lemma (`Sha256Example`, `Blake2sRounds`, `Blake2sExamples`).
- **The P2P address manager** (`PeerBuckets`, `PeerManagers`): a state machine with eviction and demotion whose
  invariants hold over every run.
- **Containers** (`RingQueues`, `MTQueues`, `IntrusiveLists`): a lock-free queue as interleaved atomic steps and as
  an object, and a circular list as a heap structure.
- **Kernels in two forms** (`Groestl`, `Salsa20`, `ScryptMix`): tables against bytes, transposition against
  indices, a stored table against recomputation; `Salsa20Example` and `ScryptExamples` evaluate examples.

## Where the code does not do what its name promises

- `PeerManager::Good` demotes the oldest peer of a full tried bucket but does not insert the promoted one, which
  then is in no bucket. `PeerManagers.PeerManager.Good` states exactly when the peer ends up tried,
  `PeerManagers.GoodLosesPeer` builds the failing state from an empty manager. A peer that was evicted while a link
  still held it is filed although the index does not know it; the invariants survive exactly if the peer is indexed
  or the bucket full, and `PeerManagers.GoodFilesStranger` is a case where they do not.
- OFB feeds back the ciphertext and decrypts by encrypting. `BlockModes.OfbRoundTripIff` says for every padding mode
  which data comes back, `AesCipher.OfbFails` gives two blocks and an IV for every AES key.
- The PKCS7 check accepts a count of zero, and reads before the block when the count exceeds the block and all bytes
  agree. `BlockModes.UnpadMeetsStandardIff` says that these are the only departures from the standard,
  `AesCipher.PaddingFails` gives both inputs for every AES key.
- PBKDF2 counts its rounds in 32 bits against a 64-bit bound: it ends exactly for 1 <= N <= 2^32
  (`Pbkdf2.CounterEndsIff`), and N = 2^32 + 1 runs forever (`Pbkdf2.CounterFails`).
- BLAKE2s counts bytes in one word where the standard has two: the results agree below 2^32 bytes
  (`Blake2s.HashWithinLimit`).

## Model

| member | source | states |
|---|---|---|
| WordArithmetic.ImpAddBignums | bignum/x86x64/bignum-x86x64.asm:19-42 | adding two signed word sequences gives one a word longer whose signed value is the exact sum: no input overflows |
| WordArithmetic.ImpSubBignums | bignum/x86x64/bignum-x86x64.asm:64-87 | the same for the difference, with the borrow chain carried into the sign word |
| WordArithmetic.ImpNegBignum | bignum/x86x64/bignum-x86x64.asm:90-112 | negation into one more word is exact for every operand, also in place |
| WordArithmetic.ImpAddBignumsEx | bignum/x86x64/bignum-x86x64.asm:44-62 | adds v to n + 1 words of u modulo the base to the power n + 1 and touches nothing else |
| WordArithmetic.ImpMulBignums | libext/bignum.cpp:769-785 | the schoolbook loops leave exactly the product, whatever the scratch buffer held before |
| WordArithmetic.ImpMulSubBignums | bignum/x86x64/bignum-x86x64.asm:350-384 | u - v * q modulo the base to the power n + 1, and the returned flag says exactly when the difference was negative |
| WordArithmetic.ImpShortDiv | bignum/x86x64/bignum-x86x64.asm:387-411 | quotient words and remainder of a division by one word; the remainder handed from word to word stays below the divisor, so the divide instruction never faults |
| WordArithmetic.ImpShld | libext/bignum.cpp:795-803 | the shifted-out bits and the sign word together denote the signed number times 2^amt |
| WordArithmetic.ImpShrd | bignum/x86x64/bignum-x86x64.asm:142-177 | the words of the floor of the signed number divided by 2^amt, the given word's bits coming in on top |
| BigIntegers.CanonicalUnique | libext/bignum.cpp:309-316 | two canonical word sequences that denote the same integer are equal |
| BigIntegers.CanonicalShortest | libext/bignum.cpp:838-853 | no word sequence denoting the same integer is shorter than the canonical one |
| BigIntegers.CanonicalRange | libext/bignum.cpp:635-646 | a canonical number of more words lies outside the range of fewer words, so word counts decide comparisons |
| BigIntegers.EqualsIffSameValue | libext/bignum.cpp:309-316 | operator== on words holds exactly when the integers are equal |
| BigIntegers.Init | libext/bignum.cpp:838-853 | trimming sign bytes and presetting the top word yields the canonical form of the two's-complement number in the bytes |
| BigIntegers.FromWords | libext/bignum.cpp:620-633 | rebuilding from scratch words keeps the signed value and restores the canonical form |
| BigIntegers.FromInt | libext/bignum.cpp:86-103 | a machine integer becomes one word with that value |
| BigIntegers.Sign | libext/bignum.cpp:222-234 | the sign read off the zero test and the top byte is the sign of the integer |
| BigIntegers.ExtendTo | libext/bignum.cpp:755-767 | sign extension keeps the value, and fails exactly when the number has more words than asked for |
| BigIntegers.Compare | libext/bignum.cpp:635-657 | the sign of the result orders the integers, for any sizes and signs |
| BigIntegers.Neg | libext/bignum.cpp:317-327 | integer negation |
| BigIntegers.Abs | bignum.h:436-438 | absolute value |
| BigIntegers.Add | libext/bignum.cpp:620-665 | integer addition without overflow of the scratch buffer |
| BigIntegers.Sub | libext/bignum.cpp:620-673 | integer subtraction without overflow of the scratch buffer |
| BigIntegers.Magnitude | libext/bignum.cpp:329-340 | the magnitude fits unsigned in the operand's own word count, even for the most negative number |
| BigShifts.Mul | libext/bignum.cpp:329-350 | integer multiplication by magnitudes and signs; the product fits the m + n words kept |
| BigShifts.LengthBounds | libext/bignum.cpp:479-486 | get_Length is the bit length of the number, of its complement if negative: 2^(len-1) <= folded < 2^len |
| BigShifts.Shl | libext/bignum.cpp:742-753 | x * 2^v for every x and v |
| BigShifts.Shr | libext/bignum.cpp:703-740 | the floor of x / 2^v for every x and v, also when all words are shifted out |
| LongDivision.TrialDigit | libext/bignum.cpp:429-446 | the refinement loop ends in the greatest digit that the leading words allow |
| LongDivision.TrialDigitBounds | libext/bignum.cpp:429-446 | that digit is the true quotient digit or one too large, never less |
| LongDivision.DivideStep | libext/bignum.cpp:425-452 | one pass leaves 0 <= u[j..j+n] < v and the true digit: a single add-back always suffices |
| LongDivision.DivideWords | libext/bignum.cpp:419-457 | the loop over all positions writes the quotient and leaves the remainder of unsigned numbers |
| BigDivision.QuotientUnique | libext/bignum.cpp:364-477 | x = q y + r with |r| < |y| and r zero or of x's sign has one solution |
| BigDivision.DivideShort | libext/bignum.cpp:388-401 | the branch for one-word divisors divides exactly |
| BigDivision.DivideLong | libext/bignum.cpp:402-462 | normalising both operands, long division and shifting the remainder back divides exactly; the word counts computed from bit lengths fit |
| BigDivision.Div | libext/bignum.cpp:364-477 | for all x and y: an error exactly for y = 0, else x = q y + r, |r| < |y|, r zero or of x's sign |
| BigDivision.NewtonStaysAbove | libext/bignum.cpp:881-891 | after one step an iterate is at least the root, wherever it started |
| BigDivision.NewtonMoves | libext/bignum.cpp:881-891 | iterates above the root fall strictly; the oscillation between s and s + 1 at n = (s + 1)^2 - 1 is left after one step |
| BigDivision.NewtonDone | libext/bignum.cpp:881-891 | when x and n / x are equal or neighbours the mean the code returns is the root |
| BigDivision.Sqrt | libext/bignum.cpp:881-891 | exactly floor(sqrt n) for n >= 0, no division by zero, termination from any first iterate; an error for n < 0 |
| MerkleLevels.HeightIsFirst | crypto/merkle-tree.cpp:12-16 | the counting loop's height is the first level with at most one node |
| MerkleLevels.HeightIsLog | crypto/merkle-tree.cpp:12-16 | and it is the logarithm of the number of leaves rounded up |
| MerkleLevels.LevelWidth | crypto/hash.h:338-340 | CalcTreeWidth is the number of nodes of each level of the duplicated-last-node tree |
| MerkleExamples.RootOfThree | crypto/hash.h:305-315 | of three leaves the last is paired with itself, and the root is h2(h2(a, b), h2(c, c)) |
| MerkleTrees.FlatEndsInRoot | crypto/hash.h:305-315 | the last element of the flat array is the root |
| MerkleTrees.BranchGivesRoot | crypto/hash.h:284-290 | completeness: the siblings of any leaf lead from it to the root, odd levels included |
| MerkleTrees.BranchIsSound | crypto/hash.h:284-290 | with an injective node hash, a branch of full length that reaches the root at position idx starts from leaf idx and is its own path |
| MerkleTrees.MerkleBranch.Apply | crypto/hash.h:284-290 | an error exactly for a negative index, else the fold of the siblings |
| MerkleTrees.MerkleTree.constructor | crypto/hash.h:303-315 | the hashed items followed by every level up to the root |
| MerkleTrees.MerkleTree.GetBranch | crypto/hash.h:317-324 | the loop over the flat array collects exactly the siblings of the leaf on every level but the last |
| MerkleTrees.BranchVerifies | crypto/hash.h:284-324 | for every leaf, GetBranch followed by Apply gives the tree's last element |
| MerkleExamples.BranchesOfThree | crypto/hash.h:317-324 | the branches of the three leaves written out, the last leaf meeting itself |
| PartialMerkle.CalcHashIsNode | crypto/hash.h:355-361 | CalcHash(h, p) is the p-th node of level h of the full tree |
| PartialMerkle.TopIsRoot | crypto/hash.h:355-361 | at the top it is the Merkle root |
| PartialMerkle.NodeReadsBack | crypto/hash.h:367-386 | reading the encoding of any node, wherever it stands in the streams, gives that node, its marked leaves and the positions behind it |
| PartialMerkle.RoundTrip | crypto/hash.h:355-387 | for any match vector the extraction returns the root and the marked leaves in order and consumes all bits and hashes |
| PartialMerkle.MatchedInRange | crypto/hash.h:367-386 | whatever the streams hold, reported positions lie below the node read and increase |
| PartialMerkle.MatchedAreLeaves | crypto/hash.h:367-386 | with an injective node hash, a reading that arrives at a true node reports only true leaves at their positions |
| PartialMerkle.ExtractionIsSound | crypto/hash.h:367-386 | the same at the top: arriving at the root means every reported hash is the leaf at its position, for any bits and hashes |
| PartialMerkle.PartialMerkleTree.CalcTreeHeight | crypto/merkle-tree.cpp:12-16 | the loop terminates at the height |
| PartialMerkle.PartialMerkleTree.AddHash | crypto/hash.h:363-365 | appends the node's hash |
| PartialMerkle.PartialMerkleTree.TraverseAndBuild | crypto/merkle-tree.cpp:18-33 | appends exactly the pre-order flags and hashes of the node's encoding |
| PartialMerkle.PartialMerkleTree.TraverseAndExtract | crypto/hash.h:367-386 | the counters, the list of matches and the error cases are those of the decoder, for any streams |
| PartialMerkle.BuildAndExtract | crypto/hash.h:355-387 | building and then extracting returns the root and the marked leaves in order |
| MerkleExamples.PartialOfThree | crypto/merkle-tree.cpp:18-33 | with the last of three leaves marked the flags are 1, 0, 1, 1 and the stored hashes h2(a, b) and c |
| SBox.SubByteInverse | crypto/aes.cpp:65-67 | the S-box and the table inverted from it undo each other on all bytes |
| AesStandard.SubByteIsInverse | crypto/aes.cpp:25-42 | section 5.1.1 of FIPS 197: zero goes to 0x63, every other byte to the affine image of its multiplicative inverse in the field |
| AesStandard.AffineInverse | crypto/aes.cpp:25-42 | the affine transformation, written with rotations, and its inverse undo each other |
| AesStandard.XTimeIsTwice | crypto/aes.cpp:67-67 | multiplication by x is the shift with 0x1B added where a bit is lost |
| GaloisField.MulAdds | crypto/aes.cpp:86-89 | the field product distributes over exclusive or |
| GaloisTables.GenAsWritten | crypto/aes.cpp:67-67 | the step of the power table is multiplication by 3 in the field, the carry case written out |
| GaloisTables.ExpTimes | crypto/aes.cpp:80-80 | products of generator powers add exponents |
| GaloisTables.ExpPeriod | crypto/aes.cpp:69-69 | the powers repeat after 255 steps, so the copied half of the table is right |
| GaloisTables.LogExists | crypto/aes.cpp:65-71 | every non-zero byte is one of the first 255 powers: the logarithm table has no gaps |
| GaloisTables.LogMulIsProduct | crypto/aes.cpp:80-80 | looking up the sum of two logarithms gives the field product, also for zero factors through the entry 511 |
| GaloisTables.MulCommutes | crypto/aes-imp.h:23-25 | the tabulated product is commutative |
| GaloisTables.InitTables | crypto/aes.cpp:60-75 | the loop fills inverse S-box, powers and logarithms so that all their defining properties hold |
| GaloisTables.InitProducts | crypto/aes.cpp:77-81 | every one of the 65536 entries is the field product of its two indices |
| AesRounds.MulPolynomRotates | crypto/aes.cpp:91-93 | multiplication by a fixed polynomial commutes with rotating the column |
| AesStandard.MixColumnIs | crypto/aes.cpp:95-97 | section 5.1.3 of FIPS 197: every byte is the sum of twice itself, three times the next byte and the two others |
| AesStandard.ShiftRowsMoves | crypto/aes.cpp:151-158 | section 5.1.2: the byte in row r and column c comes from column c + r modulo 4 of the same row |
| AesStandard.EntryIsByte | crypto/aes.cpp:151-158 | section 3.4: row r and column c of the state are byte r + 4 c of the block |
| AesRounds.InvMixUndoesMix | crypto/aes.cpp:95-101 | InvMixColumn undoes MixColumn on every column |
| AesRounds.InvMixAdds | crypto/aes.cpp:99-101 | InvMixColumn is linear, which is why round keys can be inverse-mixed beforehand |
| AesRounds.UndoSubstituteShift | crypto/aes.cpp:151-158 | on reversed columns the same ShiftRows with the inverse table undoes substitution and shift |
| AesRounds.DecryptionRetraces | crypto/aes.cpp:145-185 | after j rounds decryption holds, reversed, the state encryption had rounds - j rounds into its work |
| AesRounds.DecryptUndoesEncrypt | crypto/aes.cpp:175-185 | the equivalent inverse cipher of section 5.3.5 of FIPS 197 undoes encryption, for any schedule and block |
| AesKeys.NextWord | crypto/aes.cpp:113-128 | what the circular buffer stores is the word Nk places on in the recurrence of section 5.2 of FIPS 197 |
| AesKeys.WindowMoves | crypto/aes.cpp:113-128 | one step keeps the buffer a window on the schedule, the round constant included |
| AesKeys.ExpandedKey.constructor | crypto/aes.cpp:104-111 | the key words are the first window |
| AesKeys.ExpandedKey.Next | crypto/aes.cpp:113-128 | hands out word k of the FIPS 197 recurrence and moves the window by one, for every key length |
| AesKeys.CalcExpandedKey | crypto/aes.cpp:205-212 | the first n words of the recurrence in order |
| AesStandard.RconPowers | crypto/aes.cpp:113-118 | the round constants are the powers of x: the first is 1, the second 2, and products add exponents |
| AesStandard.RoundsForIs | crypto/cipher.h:92-98 | Nr = Nk + 6 for the three key sizes |
| AesKeys.InvExpandedKey.constructor | crypto/aes.cpp:130-137 | all words, those between the first and the last round key inverse-mixed |
| AesKeys.InvExpandedKey.Next | crypto/cipher.h:72-72 | the words from last to first |
| AesKeys.CalcInvExpandedKey | crypto/aes.cpp:214-221 | exactly the inverse schedule that DecryptUndoesEncrypt needs |
| AesCipher.EncDec | crypto/aes.cpp:145-173 | the in-place byte routine computes the rounds, for either table, mixing function and number of rounds |
| AesCipher.EncryptBlock | crypto/aes.cpp:175-177 | the block becomes its encryption: the rounds over SubBytes, ShiftRows and MixColumns as the AesStandard rows fix them, with the key words of the schedule |
| AesExample.ExampleVector | crypto/aes.cpp:175-177 | the example of appendix C.1 of FIPS 197, from key and block bytes to ciphertext bytes, key schedule included |
| AesExample.WordsSix2 | crypto/aes.cpp:113-128 | the first words of the schedule after the six-word key of appendix C.2: none of them substituted in between |
| AesExample.WordsEight2 | crypto/aes.cpp:113-128 | the same after the eight-word key of appendix C.3: word 12 is substituted |
| AesCipher.DecryptBlock | crypto/aes.cpp:179-185 | the block becomes its decryption |
| AesCipher.BlockFunctionsInverse | crypto/aes.cpp:175-221 | DecryptBlock with CalcInvExpandedKey undoes EncryptBlock with CalcExpandedKey, for every key and every 16-byte block |
| AesCipher.Aes.PutKey | crypto/cipher.h:44-48 | accepted exactly when the key has the configured size; otherwise the old key stays |
| BlockModes.StepInverse | crypto/cipher.cpp:54-78 | in ECB, CBC and CFB a decryption step restores the data and carries on the same chaining block |
| ModeEquations.BlocksSolve | crypto/cipher.cpp:44-82 | for every mode but CTS, every padding that is implemented and all data, the k-th output block solves the equation of the mode: CBC c(k) = e(p(k) xor c(k-1)), CFB and OFB c(k) = e(c(k-1)) xor p(k), ECB c(k) = e(p(k)), with the IV for c(-1) |
| ModeEquations.ChainedUnique | crypto/cipher.cpp:44-82 | the equations leave no choice: they determine every output block |
| ModeEquations.PaddedNext | crypto/cipher.cpp:19-30 | the padded data, given by a division of its length, grows block by block as the loop pads it |
| ModeEquations.BlocksRefused | crypto/cipher.cpp:24-30 | the paddings that are not implemented, and CTS, are refused whatever the data, except that CTS lets nothing pass as nothing |
| ModeEquations.EncryptSolves | crypto/cipher.cpp:32-83 | what Encrypt returns for every mode, padding, IV and data: both kinds of errors exactly, or the solution for the padded data |
| BlockModes.UnpadPadded | crypto/cipher.cpp:19-30 | the padding check accepts what Pad wrote and cuts off exactly that |
| BlockModes.BlocksRoundTrip | crypto/cipher.cpp:44-137 | round trip of the two loops from any chaining block |
| BlockModes.DecryptUndoesEncrypt | crypto/cipher.cpp:32-138 | Decrypt(Encrypt(x)) = x in ECB, CBC and CFB, with PKCS7 for all x and without padding for whole blocks; CFB needs nothing of the block functions |
| BlockModes.OfbRoundTripIff | crypto/cipher.cpp:59-63 | OFB feeds back the ciphertext and decrypts by encrypting: for any padding mode the data comes back exactly if there is no padding or zeroes, whole blocks, and they are Restored; with PKCS7 never |
| BlockModes.OfbGrows | crypto/cipher.cpp:49-52 | padding makes the output longer than the data, so padding a second time cannot give it back |
| AesCipher.OfbFails | crypto/cipher.cpp:59-63 | for every AES key of the three sizes an IV under which two blocks of zeroes are not restored |
| AesCipher.EncryptStepInPlace | crypto/cipher.cpp:54-78 | the switch leaves the chaining block and the output of the mode in the two buffers |
| AesCipher.EncryptLoop | crypto/cipher.cpp:44-82 | the loop writes what the mode and the padding define, errors included |
| AesCipher.DecryptStepInPlace | crypto/cipher.cpp:101-117 | the switch restores the block and keeps the ciphertext needed next |
| BlockModes.UnpadMeetsStandardIff | crypto/cipher.cpp:120-129 | the check is that of section 6.3 of RFC 5652 exactly unless the count is zero or the block is full of one count that exceeds it |
| AesCipher.CheckPadding | crypto/cipher.cpp:120-129 | for every non-empty block: accepted exactly if the last nPad bytes are nPad, count zero included, and then cut off; a read before the block exactly if nPad exceeds it and all its bytes agree; an error otherwise |
| AesCipher.OneBlockUnpadded | crypto/cipher.cpp:98-134 | with an AES key, decrypting one encrypted block is the check of that block |
| AesCipher.PaddingFails | crypto/cipher.cpp:120-129 | for every AES key of the three sizes: sixteen bytes 0x11 lead to the read before the block, sixteen zeroes pass unshortened |
| AesCipher.DecryptLoop | crypto/cipher.cpp:98-137 | the loop over ciphertext blocks, with the padding handled on the last one only |
| AesCipher.Aes.Encrypt | crypto/cipher.cpp:32-83 | the output blocks solve the equations of the configured mode for the padded data under the FIPS 197 cipher of the key, and the errors are exactly those of EncryptSolves |
| AesCipher.Aes.Decrypt | crypto/cipher.cpp:85-138 | Decrypt of the class, including its error cases and the detour of OFB through Encrypt |
| AesCipher.AesRoundTrip | crypto/cipher.cpp:32-138 | for every key of 128, 192 or 256 bits Decrypt(Encrypt(x)) = x in the three modes |
| Sha256Compression.MuxChIsCh | crypto/neoscrypt.cpp:59-60 | the selection written with two exclusive ors is Ch |
| Sha256Compression.OrMajIsMaj | crypto/neoscrypt.cpp:60-60 | the majority written with or is Maj |
| Sha256Compression.XorMajIsMaj | crypto/sha256.cpp:115-115 | the majority written with two cached exclusive ors is Maj |
| WordValues.RotrValue | crypto/neoscrypt.cpp:25-25 | rotation by n bits exchanges quotient and remainder by 2^n: x / 2^n + 2^(32-n) (x mod 2^n), for every n from 1 to 31 |
| WordValues.RotlIsRotr | crypto/neoscrypt.cpp:24-24 | rotation to the left by n is rotation to the right by 32 - n |
| Sha256Constants.KIsCubeRoot | crypto/neoscrypt.cpp:47-56 | section 4.2.2 of FIPS 180-4: every constant holds the first 32 bits of the fraction of the cube root of its prime |
| Sha256Constants.IVIsSquareRoot | crypto/neoscrypt.cpp:113-124 | section 5.3.3: the initial value holds those of the square roots of the first eight primes |
| Sha256Constants.PrimesInOrder | crypto/neoscrypt.cpp:47-56 | the list of primes starts with 2, and each entry is the next prime after the one before |
| Sha256Bytes.WordAtValue | crypto/neoscrypt.cpp:27-29 | four bytes as a word have their big-endian positional value |
| Sha256Bytes.WordBytesInverse | crypto/neoscrypt.cpp:27-33 | writing a word and reading it back undo each other, both ways |
| Sha256Bytes.LengthBytesValue | crypto/neoscrypt.cpp:35-37 | the eight bytes of a length denote it, for every 64-bit length |
| Sha256Compression.Step | crypto/neoscrypt.cpp:67-78 | the shifted array holds the next working variables of section 6.2.2 of FIPS 180-4 |
| Sha256Compression.BlockByTable | crypto/neoscrypt.cpp:87-108 | the 64-word table form computes the compression of FIPS 180-4 |
| Sha256Compression.HoldsNext | crypto/sha256.cpp:103-106 | the word computed in place is the next schedule word, and the 16 words stay a window on the schedule |
| Sha256Compression.RoundByXors | crypto/sha256.cpp:108-115 | a round with the cached exclusive or is a round of FIPS 180-4 |
| Sha256Compression.HashBlock | crypto/sha256.cpp:95-119 | the in-place form computes the same compression as BlockByTable, for every state and block |
| Sha256Stream.PadFillsBlocks | crypto/neoscrypt.cpp:155-169 | the padding is the shortest that ends on a block |
| Sha256Stream.AbsorbInPieces | crypto/neoscrypt.cpp:126-153 | absorbing a concatenation is absorbing the first part, then its tail with the second part |
| Sha256Stream.HashState.constructor | crypto/neoscrypt.cpp:113-124 | the state of the empty message |
| Sha256Stream.HashState.Blocks | crypto/neoscrypt.cpp:87-111 | whole blocks go into the chaining value, and the 64-bit counter advances modulo 2^64 |
| Sha256Stream.HashState.Update | crypto/neoscrypt.cpp:126-153 | after any number of updates of any sizes the state is that of the concatenated message |
| Sha256Stream.HashState.Finish | crypto/neoscrypt.cpp:155-178 | the digest is SHA-256 of everything passed to Update, whether the padding takes one block or two; the Sha256Constants, Sha256Bytes and Sha256Example rows fix constants, bytes and rounds |
| Sha256Example.CompressAbc | crypto/neoscrypt.cpp:87-108 | the compression of the padded block of the example of FIPS 180-4, from schedule to chaining value |
| Sha256Example.HashAbc | crypto/neoscrypt.cpp:155-178 | SHA-256 of the bytes of abc is the digest that FIPS 180-4 gives |
| Pbkdf2.HmacState.constructor | crypto/neoscrypt.cpp:194-220 | the two streams hold the padded keys; keys longer than a block are hashed first |
| Pbkdf2.HmacState.Copy | crypto/neoscrypt.cpp:249-251 | a copied state stands for the same key and text and shares no memory |
| Pbkdf2.HmacState.Update | crypto/neoscrypt.cpp:222-225 | the text grows by the input |
| Pbkdf2.HmacState.Finish | crypto/neoscrypt.cpp:227-235 | the result is HMAC of section 2 of RFC 2104 |
| Pbkdf2Laws.PadsByIndex | crypto/neoscrypt.cpp:199-219 | byte i of the pads is the key byte, or zero behind the key, or the byte of the hash of a long key, with 0x36 and 0x5C added |
| Pbkdf2Laws.HmacFromPads | crypto/neoscrypt.cpp:194-235 | with pads given byte by byte HMAC is the hash of the outer pad and the hash of the inner pad and the text |
| Pbkdf2Laws.TwoBlocks | crypto/neoscrypt.cpp:240-281 | 64 bytes after two iterations: two blocks, numbered from one in four bytes, each the sum of two HMACs |
| Pbkdf2.CounterEndsIff | crypto/neoscrypt.cpp:244-263 | the 32-bit counter reaches the 64-bit bound N - 1 exactly for 1 <= N <= 2^32, and then in N - 1 turns |
| Pbkdf2.CounterFails | crypto/neoscrypt.cpp:244-263 | for N = 2^32 + 1 the loop never ends |
| Pbkdf2.OutputBlock | crypto/neoscrypt.cpp:254-273 | from copied prefix states: U_1 xor ... xor U_N of section 5.2 of RFC 8018, for every N for which the loop ends |
| Pbkdf2.DeriveKey | crypto/neoscrypt.cpp:240-281 | the output is PBKDF2 of the password and the salt, for every N from 1 to 2^32 and every length, cut off in the last block |
| FastKdf.MirrorReads | crypto/neoscrypt.cpp:846-851 | a stretch as long as the mirrored tail, read straight, is the stretch read round the ring |
| FastKdf.FilledNext | crypto/neoscrypt.cpp:820-843 | each copy continues the repetition of the password or salt modulo its length |
| FastKdf.Fill | crypto/neoscrypt.cpp:820-843 | the buffer is filled with repetitions and its tail mirrors its head |
| FastKdf.TouchedMirrors | crypto/neoscrypt.cpp:861-870 | after the xor at any position the two conditional copies put the mirror back in step, whichever end was touched |
| FastKdf.Iterate | crypto/neoscrypt.cpp:846-870 | one iteration on the mirrored buffers is one turn of the cyclic derivation |
| FastKdf.Emit | crypto/neoscrypt.cpp:874-888 | both output branches give the ring from the read position on, added to the password buffer, at most 256 bytes |
| FastKdf.FastKdf | crypto/neoscrypt.cpp:807-890 | for any N, output length, password of at least 64 and salt of at least 32 bytes the result is that of plain 256-byte cyclic buffers |
| FastKdfByIndex.TurnByIndex | crypto/neoscrypt.cpp:846-870 | one iteration byte by byte: 64 and 32 bytes go in from the read position on, the sum of the output modulo 256 is the next position, and its 32 bytes are added there and nowhere else |
| FastKdfByIndex.KeyByIndex | crypto/neoscrypt.cpp:874-888 | byte k of the key is the salt ring's byte k places from the last position, added to byte k of the repeated password |
| FastKdfByIndex.KeyWithoutTurns | crypto/neoscrypt.cpp:820-843 | without iterations it is the repeated salt added to the repeated password |
| Blake2sCompression.MixInPlace | crypto/neoscrypt.cpp:692-702 | the macro G is the mixing function of section 3.1 of RFC 7693 |
| Blake2sCompression.RoundInPlace | crypto/neoscrypt.cpp:703-713 | the macro ROUND mixes the four columns and the four diagonals with the words SIGMA names |
| Blake2sCompression.Compress | crypto/neoscrypt.cpp:672-729 | the in-place form is the compression function F of section 3.2 of RFC 7693, the flag word standing for the complement |
| Blake2s.State.CompressFirst | crypto/neoscrypt.cpp:740-749 | compressing the first half of the double buffer keeps the message and moves the counter by a block |
| Blake2s.State.Update | crypto/neoscrypt.cpp:731-758 | any sequence of updates leaves the state of the concatenated message, with at least one byte held back |
| Blake2s.HashWithinLimit | crypto/neoscrypt.cpp:738-789 | a byte count of one word gives the hash of the standard for messages below 2^32 bytes |
| Blake2sBytes.StartHoldsParameters | crypto/neoscrypt.cpp:766-776 | for all sizes the first word of the chaining value is that of the IV with the parameter bytes output size, key size, 1, 1 added, lowest first; the others are those of the IV |
| Blake2sBytes.WordAtValue | crypto/neoscrypt.cpp:746-746 | four bytes as a word have their little-endian positional value |
| Blake2sBytes.WordBytesInverse | crypto/neoscrypt.cpp:798-798 | writing a word and reading it back undo each other, both ways |
| Blake2sExamples.HashAbc | crypto/neoscrypt.cpp:760-799 | the example of appendix B of RFC 7693, ten rounds, one to a lemma |
| Blake2sExamples.HashKeyed | crypto/neoscrypt.cpp:760-799 | the 64 bytes 0 to 63 under the 32-byte key 0 to 31: two blocks, in whose second all sixteen words differ, so that every entry of SIGMA counts |
| Blake2sExamples.PrfKeyed | crypto/neoscrypt.cpp:853-854 | the same as the function that FastKDF is given, down to the output bytes |
| Blake2s.State.Finish | crypto/neoscrypt.cpp:784-795 | the last block, zero-filled and flagged, completes BLAKE2s of section 3.3 of RFC 7693 for messages below 2^32 bytes; beyond, the same with the count modulo 2^32 |
| Blake2s.Blake2s | crypto/neoscrypt.cpp:760-799 | the output is the beginning of keyed BLAKE2s of the input, key block and input being below 2^32 bytes; the Blake2sBytes and Blake2sExamples rows fix SIGMA, IV, distances, parameters and byte order |
| Blake2s.PrfGivesOutput | crypto/neoscrypt.cpp:853-854 | keyed BLAKE2s as the function of FastKdf always gives 32 bytes |
| Blake2s.FastKdfOverBlake2s | crypto/neoscrypt.cpp:807-890 | FastKDF with BLAKE2s of RFC 7693 as its function, on plain 256-byte cyclic buffers |
| PeerBuckets.OldestIsOldest | inet/p2p-peers.cpp:85-86 | the search finds the first of the peers with the least LastPersistent |
| PeerBuckets.SparedWhileTried | inet/p2p-peers.cpp:21-30 | a peer tried less than a minute ago is not terrible, whatever else is known of it |
| PeerBuckets.SparedAtLimits | inet/p2p-peers.cpp:21-30 | up to 30 days, with two attempts if it never answered, and with nine or within 7 days, a peer is not terrible |
| PeerBuckets.CondemnedPastLimits | inet/p2p-peers.cpp:21-30 | one tick past 30 days, with the third attempt if it never answered, or with the tenth and one tick past 7 days, a peer not tried for a minute is terrible |
| PeerBuckets.FirstServices | inet/p2p-peers.cpp:230-230 | every service bit that the peer had is kept |
| PeerBuckets.SecondServices | inet/p2p-peers.cpp:230-230 | every service bit that was announced is added |
| PeerBuckets.NoOtherServices | inet/p2p-peers.cpp:230-230 | no other bit is set |
| PeerBuckets.Slot | inet/p2p-peers.cpp:241-241 | the bucket is what remains of the hash after all multiples of the number of buckets |
| PeerBuckets.SlotIs | inet/p2p-peers.cpp:241-241 | a hash of m n + r with r < n falls into bucket r of n |
| PeerBuckets.LandsOnce | inet/p2p-peers.cpp:241-241 | there is no second bucket with that property |
| PeerBuckets.AfterEviction | inet/p2p-peers.cpp:75-90 | taking a victim out of its bucket, the index and the vector keeps all invariants |
| PeerBuckets.AfterDemotion | inet/p2p-peers.cpp:168-175 | moving the oldest peer from a tried to a new bucket keeps all invariants |
| PeerBuckets.AfterEntering | inet/p2p-peers.cpp:162-166 | filing a peer in its tried bucket keeps all invariants exactly if the peer is indexed |
| PeerBuckets.AfterIndexing | inet/p2p-peers.cpp:232-238 | filing a new peer keeps all invariants |
| PeerBuckets.PlacingBounds | inet/p2p-peers.cpp:240-245 | placing a peer never makes a new bucket longer than 64 or than it was |
| PeerManagers.PeerManager.constructor | inet/p2p-peers.cpp:293-302 | the empty manager satisfies the invariants; all its buckets are empty |
| PeerManagers.PeerManager.ContainsIn | inet/p2p-peers.cpp:99-105 | the linear search through all buckets |
| PeerManagers.PeerManager.Remove | inet/p2p-peers.cpp:70-73 | the peer's address leaves the index and the peer leaves the vector |
| PeerManagers.PeerManager.Shrink | inet/p2p-peers.cpp:75-90 | the first terrible peer, else the oldest, leaves bucket, index and vector; invariants kept |
| PeerManagers.PeerManager.Attempt | inet/p2p-peers.cpp:143-148 | the attempt counter and the time of the last try change, the peer is marked dirty, and all else about it stays |
| PeerManagers.PeerManager.Good | inet/p2p-peers.cpp:150-178 | for every peer, with its buckets given by division of the hash by 64 and 256, the exact new buckets in all three cases; invariants kept exactly if the peer is indexed or its tried bucket was full; the peer ends up tried if and only if it was or its bucket had room, otherwise it is in no bucket |
| PeerManagers.FullBucket | inet/p2p-peers.cpp:150-250 | from the constructor, 64 times Add and Good and one more Add: an indexed, untried peer whose tried bucket is full |
| PeerManagers.GoodLosesPeer | inet/p2p-peers.cpp:167-175 | after Good in that state the peer is in no bucket |
| PeerManagers.GoodFilesStranger | inet/p2p-peers.cpp:155-166 | Good of a peer that the index does not know leaves an inconsistent state |
| PeerManagers.PeerManager.Place | inet/p2p-peers.cpp:240-245 | the peer is in its new bucket, the victim of a full bucket is gone, nobody else moves |
| PeerManagers.PeerManager.Add | inet/p2p-peers.cpp:213-250 | invariants kept over every call; rejected addresses change nothing; known peers are refreshed and tried ones not returned; otherwise the exact index, vector and buckets, the bucket being what the hash leaves on division by 256; no new bucket grows beyond 64 or its old size |
| RingQueues.CheckCapacity | libext/afterstl.h:123-128 | the test accepts exactly the numbers one below a power of two |
| RingQueues.StepInv | libext/afterstl.h:152-171 | every atomic step of producer and consumer keeps the invariant of cells and cursors |
| RingQueues.CellsAreSafe | libext/afterstl.h:159-171 | values are constructed only in raw cells, and only the oldest constructed value is destroyed |
| RingQueues.SizeIsLength | libext/afterstl.h:138-165 | the distance of the cursors round the ring is the number of values pushed and not popped, at most the capacity; overflow exactly when full, failure exactly when empty; front is the oldest value |
| Numbers.MaskIsRemainder | libext/afterstl.h:140-140 | masking with one below a power of two leaves the remainder |
| RingQueues.MaskedSizeIsLength | libext/afterstl.h:140-140 | (m_w - m_r) & m_mask, taken in 64 bits, is the number of values, for every capacity the constructor accepts |
| RingQueues.RunKeepsInv | libext/afterstl.h:117-178 | over every run the records of the state are the completed pushes and pops in order |
| RingQueues.FirstInFirstOut | libext/afterstl.h:117-178 | in every interleaving what comes out is, value by value, the beginning of what went in |
| MTQueues.Create | libext/afterstl.h:123-132 | a queue exactly if the capacity is one below a power of two; otherwise the constructor's exception |
| MTQueues.CMTQueue.constructor | libext/afterstl.h:123-132 | an empty queue with one cell more than its capacity |
| MTQueues.CMTQueue.Size | libext/afterstl.h:140-140 | the masked difference of the cursors is the number of values in the queue, always below the number of cells |
| MTQueues.CMTQueue.Empty | libext/afterstl.h:142-142 | equal cursors mean no values |
| MTQueues.CMTQueue.Front | libext/afterstl.h:144-150 | the oldest value, or nothing exactly when the queue is empty |
| MTQueues.CMTQueue.PushBack | libext/afterstl.h:159-165 | the three atomic steps in a row append the value; refused exactly when the capacity is reached |
| MTQueues.CMTQueue.PopFront | libext/afterstl.h:167-172 | the three atomic steps in a row take the oldest value out; refused exactly when there is none |
| MTQueues.CMTQueue.Clear | libext/afterstl.h:174-177 | popping terminates with the queue empty |
| IntrusiveLists.IntrusiveList.constructor | libext/afterstl.h:361-365 | the sentinel linked to itself is the empty list |
| IntrusiveLists.IntrusiveList.Empty | libext/afterstl.h:368-368 | the test on the sentinel's link |
| IntrusiveLists.IntrusiveList.Insert | libext/afterstl.h:400-409 | the node stands before the iterator's element, all others keep their order, links stay mutually inverse, the size is the length |
| IntrusiveLists.IntrusiveList.PushBack | libext/afterstl.h:411-413 | the node stands last |
| IntrusiveLists.IntrusiveList.Erase | libext/afterstl.h:415-425 | the element is gone, all others keep their order |
| IntrusiveLists.IntrusiveList.Clear | libext/afterstl.h:429-433 | the list is empty and the former elements are untouched |
| IntrusiveLists.IntrusiveList.SpliceFrom | libext/afterstl.h:435-443 | the element leaves the other list and stands before the given place in this one; both lists stay well-formed |
| IntrusiveLists.IntrusiveList.SpliceWithin | libext/afterstl.h:435-443 | the element moves before the given place of its own list; before itself or its successor nothing changes |
| Groestl.ExtendTable | crypto/groestl-hash.cpp:149-152 | entry row + 8 is 8 shift + row without leaving the byte |
| Groestl.EntryIsRotated | crypto/groestl-hash.cpp:179-187 | table `row` is table 0 rotated by `row` bytes, entry for entry the column's contribution |
| Groestl.InitGroestlTable | crypto/groestl-hash.cpp:177-189 | all 2048 entries are filled with the products that MixBytes needs |
| Groestl.LookUp | crypto/groestl-hash.cpp:462-465 | eight look-ups added up are SubBytes, ShiftBytes and MixBytes of one column |
| Groestl.RoundByTable | crypto/groestl-hash.cpp:461-468 | a round by tables is a round of the permutation |
| Groestl.TransformByTable | crypto/groestl-hash.cpp:442-483 | fourteen rounds with the buffers changing places: the permutation, added to the output |
| Groestl.MulRow | crypto/groestl-hash.cpp:246-252 | one byte of the matrix product |
| Groestl.MulColumnAsLe | crypto/groestl-hash.cpp:263-275 | the eight constants are the rows of the circulant matrix circ(02,02,03,04,05,03,05,07) |
| Groestl.ShiftBytes | crypto/groestl-hash.cpp:471-475 | every row moves by its entry of the shift table |
| Groestl.RoundByBytes | crypto/groestl-hash.cpp:469-477 | the byte-wise round is the same round |
| Groestl.TransformByBytes | crypto/groestl-hash.cpp:442-483 | fourteen byte-wise rounds compute the same function as TransformByTable, for every shift table and round constants |
| Salsa20.TablesMirror | crypto/salsa20.cpp:22-66 | the second half of g_salsaIndices is the first half transposed |
| Salsa20.ColumnRoundMirrors | crypto/salsa20.cpp:138-150 | a column round on the transposed state is the transposed row round |
| Salsa20.TableOnColumns | crypto/salsa20.cpp:22-43 | the table's interleaved order does to each column what the quarter round does |
| Salsa20.QuarterRound | crypto/salsa20.cpp:120-123 | the four in-place assignments are the four steps on their column and leave the other columns alone |
| Salsa20.CoreRound | crypto/salsa20.cpp:139-149 | four quarter rounds and six exchanges are the transposed column round |
| Salsa20.Salsa20Core | crypto/salsa20.cpp:125-155 | for every even number of rounds the core equals the double rounds of g_salsaIndices, plus the input; an odd number comes out transposed |
| Salsa20Example.ExampleVector | crypto/salsa20.cpp:125-155 | the example of section 8 of RFC 7914: Salsa20/8 of sixteen words, a round to a lemma |
| ScryptMix.Targets | crypto/scrypt.cpp:30-30 | (i & 1) r + i / 2 puts the even results first and the odd ones behind |
| ScryptMix.VectorMix | crypto/scrypt.cpp:25-34 | the in-place chain is scryptBlockMix of section 4 of RFC 7914 for every r >= 1 |
| ScryptExamples.MixOfTwo | crypto/scrypt.cpp:25-34 | for r = 1 the two results, each the core of the one before added to the next block, in order |
| ScryptExamples.MixOfFour | crypto/scrypt.cpp:25-34 | for r = 2 the results 0, 2, 1, 3 |
| ScryptMix.MaskedIndexIs | crypto/scrypt.cpp:57-57 | the masked word is Integerify mod N for the powers of two |
| ScryptMix.FillTable | crypto/scrypt.cpp:52-55 | the table holds V_0 to V_(n-1) of scryptROMix, and V_n is left |
| ScryptMix.Mix | crypto/scrypt.cpp:52-60 | with the stored table the two loops compute scryptROMix of section 5 of RFC 7914, for n a power of two as it asks |
| ScryptExamples.RoMixOfTwo | crypto/scrypt.cpp:52-60 | for N = 2 the whole of scryptROMix: the lowest bit of the last block's first word says which of B and its mix is added in each turn |
| ScryptMix.NeoScryptCore | crypto/scrypt.cpp:37-63 | with double mixing the two results are added up, without it Salsa20's alone is left |

## Left out

- Assembler, SIMD, OpenSSL, GMP and NTL builds of the same operations; the assembler word primitives of the native
  build are modelled by loops with the same carries and flags.
- BigInteger.Init: the choice between inline words and a heap blob is not modelled; the number is a word sequence.
- BigIntegers.Init: asks for at least one byte, because the code reads the last byte before it counts.
- BigShifts.Shl: word counts and shift distances are unbounded, so conversions of sizes to `int` near 2^31 are not modelled.
- Double-word arithmetic in division is on integers; `CUInt128` shifts by other distances than the word size are not used.
- Bit operations, decimal conversion, `pow` and byte export of BigInteger: easy members.
- MerkleTrees.BranchIsSound: asks for a branch as long as the tree is high; shorter or longer branches can name inner nodes.
- PartialMerkle.ExtractionIsSound: assumes the node function injective, as collision resistance is not a theorem, and a fixed number of items.
- Integer widths in the Merkle classes: `int` sizes, indices, heights and hash counters and `size_t` positions are unbounded here, so trees near 2^31 leaves are not modelled.
- Pbkdf2.DeriveKey: asks for N from 1 to 2^32, outside of which the loop does not end, and for an output length whose block count fits, as the source's comment does.
- The 192-bit-block branch of `EncDec`, and block sizes other than 128 bits: AES blocks have 128 bits.
- AesCipher.Aes.Encrypt: `Blob` and `MemoryStream` are byte sequences; key derivation from passwords is not part of this model.
- Zeros padding on decryption, ANSI X9.23, ISO 10126 and CTS throw in the code; the model has the same errors and no more.
- AesKeys.ExpandedKey.Next: words are four bytes, the lowest first, as on a little-endian machine; the byte swaps of other machines are not modelled.
- Blake2s.Blake2s: words are read and written with the lowest byte first, as on a little-endian machine.
- FastKdf.FastKdf: asks for 64 bytes of password and 32 of salt, because the code copies that many into the mirrored tails.
- BLAKE-256 variants of HMAC and PBKDF2: the same code over another compression.
- Groestl.TransformByTable: shift tables and round constants are parameters; the generators of the constants are not modelled, nor the hash around the permutation.
- ScryptMix.Mix: asks for a power of two, as RFC 7914 does; for other n the code's mask skips table entries. The cores are parameters that keep the block size.
- ChaCha20 and the full `Scrypt` and `neoscrypt` drivers: composition of what is modelled.
- PeerManagers.PeerManager.Add: routability, bans and the clock are parameters, the hash of an endpoint is an arbitrary function, endpoints are fixed when a peer is created, and locks are taken as given.
- `Select`, `GetChance`, `GetPeers` and `OnPeriodic`: random choice and floating point.
- RingQueues.StepInv: accesses to the cursors are sequentially consistent steps; what weaker memory orders do to `volatile` is not modelled.
- MTQueues.CMTQueue.constructor: asks for a capacity that passes the test; MTQueues.Create makes the test and returns nothing where the source throws. A capacity of 2^64 - 1, whose cell count overflows, is left out.
- IntrusiveLists.IntrusiveList.SpliceFrom: the code's one splice is two methods, for two lists and for one.
- IntrusiveLists.IntrusiveList.Erase: the debug build's clearing of the erased links is not modelled.
- Blob memory management, sockets, databases, user interface, configuration: not part of this model.
