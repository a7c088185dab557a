# Verified models of the mining pool's core algorithms

This project models the algorithmic core of the mining pool in Dafny and proves what that core is for. Each
`.dfy` file holds the module of the same name; `dafny verify dfyconfig.toml` checks all of them.

* **Hashing** (`src/Native/libmultihash`): the streaming SHA-256, HMAC and PBKDF2 of `sha256.h` against
  FIPS 180-4, RFC 2104 and RFC 8018; scrypt's `smix` against RFC 7914; NeoScrypt with buffered BLAKE2s,
  FastKDF in its plain and its optimised build, and the unrolled block mixer; Lyra2's padding, its row
  schedule and its walk over the matrix. The C code keeps buffers, counters and tables in place; so do the
  models, and each is proved equal to the definition that it speeds up.
* **Coinbase Merkle branch** (`MerkleTree.cs`): the branch sent to miners gives the root of the full tree.
* **Exact rationals** (`BigRational.cs`): canonical form, exact arithmetic, ordering, cutting off to decimals.
* **Vardiff** (`VarDiffManager.cs`, `WorkerContextBase.cs`, `CircularBuffer.cs`, `CircularDoubleBuffer.cs`): the
  ring buffer as a bounded deque and the difficulty controller over whole runs.
* **Payouts** (`PayoutManager.cs`, `BitcoinPayoutHandler.cs`, `PayoutHandlerBase.cs`, `PPLNSPaymentScheme.cs`,
  `ConnectionFactoryExtensions.cs`): block rewards, transactions, balances and transfers as a state machine
  over runs, with any daemon answer and an exception at any operation.
* **Share recovery and line framing** (`ShareRecorder.cs`, `StratumClient.cs`): nothing lost, nothing twice.

Functions in the mathematical sense (an arrow type) stand for what is not looked into: the permutations
Salsa and ChaCha, the BLAKE2s compression function, Lyra2's sponge, the Merkle digest, a payout scheme, the
replies of the daemon. Every statement holds for all of them.

## Where the code departs from the obvious claim

* `CircularBuffer.Back` reads the wrong slot exactly when the end index is zero and the buffer is not full
  (`BackReadsLastSlot`); removing the first of three elements is enough (`BackMisses`). `ToArray` and `Average` throw on
  an empty buffer; `Sum` is right there because free slots hold zero. An index below zero is not rejected by the indexer.
* `neoscrypt_blake2s` hashes a key block even for an empty key, and its counter is one word wide: it is BLAKE2s exactly
  when there is a key and key block and input stay below 2^32 octets (`CounterIsEnough`).
* Lyra2's passes visit every row once for some row counts only; `OddPassFull` and `EvenPassFull` say which.
* The mixed-number constructor of `BigRational` is exact if and only if the denominator is positive or the whole
  part is zero (`MixedIsExactWhen`).
* The vardiff average covers the stored intervals only: it is zero exactly when the oldest of them opened just now
  (`AverageOverRun`). After more than ten shares without a change that can happen although the retarget time has passed
  (`OverflowLosesTime`), but not before (`PositiveBeforeOverflow`).
* The remainder of a reward is negative exactly when the positive percentages exceed 100 (`RemainderIsCovered`). When
  nothing is left for PPLNS, its overflow check throws and the block's transaction is rolled back, unless there is no
  share or the first one fills the window (`NothingToDistributeThrows`).
* PPLNS reads the next page strictly before the last share of a page. Shares of that time on the next page are left
  out: every share of the window is read exactly when no page ends between shares of one time (`WindowIsRead`).
* Balances are keyed by address and coin, but selected and paid by address. An address with positive balances in two
  coins over the minimum makes the payout throw (`DictionaryThrowsWhen`), and a balance in another coin is paid out without
  being debited there: the debit goes to the pool's coin (`PaidBalances`). No run of the modelled code creates
  such balances (`AlwaysOneCoin`).
* Coins leave the wallet without a debit exactly when locking the wallet again throws or all executions of the
  persisting transaction fail (`DebitedIffSent`). All balances are debited, but payments are recorded only under a
  transaction id and not for reward recipients (`RecordedWhen`). Amounts are sent rounded and debited unrounded
  (`SentMatchesDebited`).
* After a failed import the recovery list outgrows the batch size, and everything else waits for the import at the end of
  the file (`AfterFailure`, `OutgrownWaits`).

## Model

| member | source | states |
|---|---|---|
| Sha256Transform.FastFormsAgree | src/Native/libmultihash/sha256.h:91-98 | the shortened Ch and Maj of the header are the functions of FIPS 180-4 section 4.1.2 on all words |
| Sha256Transform.CellsTurn | src/Native/libmultihash/sha256.h:107-113 | distinct working variables live in distinct cells, and after a round each keeps its cell under the next variable's name |
| Sha256Transform.NamesReturn | src/Native/libmultihash/sha256.h:107-113 | after 64 rounds the rotating index is the identity again |
| Sha256Transform.RoundInPlace | src/Native/libmultihash/sha256.h:101-113 | RNDr, which writes two cells only, is the shifting a..h round of FIPS 180-4 section 6.2.2 under the rotating names |
| Sha256Transform.Expand | src/Native/libmultihash/sha256.h:127-130 | the array W holds the message schedule |
| Sha256Transform.Transform | src/Native/libmultihash/sha256.h:119-209 | the in-place transform computes the compression function of FIPS 180-4 section 6.2.2 |
| Sha256Spec.FoldAppend | src/Native/libmultihash/sha256.h:269-274 | complete blocks may be folded first, whatever follows |
| Sha256Laws.RotationMovesLowBits | src/Native/libmultihash/sha256.h:94-94 | a rotation right puts the low n bits on top of the others: x / 2^n + (x mod 2^n) * 2^(32-n) |
| Sha256Laws.RotationBit | src/Native/libmultihash/sha256.h:94-94 | bit k of the rotated word is bit k + n mod 32 |
| Sha256Laws.SigmaBits | src/Native/libmultihash/sha256.h:93-98 | each bit of the four sigma functions is the parity of the three bits FIPS 180-4 section 4.1.2 names |
| Sha256Laws.ChoiceAndMajority | src/Native/libmultihash/sha256.h:91-92 | Ch chooses and Maj takes the majority, bit by bit |
| Sha256Laws.RoundSums | src/Native/libmultihash/sha256.h:101-105 | one round in plain sums modulo 2^32: two new variables, six moved down |
| Sha256Laws.ScheduleSums | src/Native/libmultihash/sha256.h:127-130 | the first sixteen schedule words are the block read big-endian, each other one a sum of four earlier words |
| Sha256Laws.CompressionSums | src/Native/libmultihash/sha256.h:132-133 | the variables start as the hash value and are added to it in the end, word by word |
| Sha256Laws.PaddedParts | src/Native/libmultihash/sha256.h:280-300 | message, one bit, fewest zeros that complete the block, bit length big-endian |
| Sha256Laws.OneBlockHash | src/Native/libmultihash/sha256.h:302-318 | for messages up to 55 bytes the digest words are the compression of the one padded block, big-endian |
| Sha256Constants.ConstantsFromCubeRoots | src/Native/libmultihash/sha256.h:135-199 | each of the sixty-four round constants is the fraction of the cube root of its prime |
| Sha256Constants.InitialFromSquareRoots | src/Native/libmultihash/sha256.h:226-234 | the initial words are the fractions of the square roots of the first eight primes of the list; BLAKE2s starts from the same |
| Sha256Constants.PrimesIncrease | src/Native/libmultihash/sha256.h:135-199 | the numbers behind the constants are sixty-four primes in increasing order |
| Sha256.CarryIsExact | src/Native/libmultihash/sha256.h:248-255 | the two count words with their carry test hold 8 times the byte count modulo 2^64 |
| Sha256.BufferedFromCount | src/Native/libmultihash/sha256.h:245-246 | the low count word alone gives the number of buffered bytes |
| Sha256.CountEncodesLength | src/Native/libmultihash/sha256.h:287-291 | the two words encoded in turn are the 64-bit length field of FIPS 180-4 section 5.1.1 |
| Sha256.AbsorbShort | src/Native/libmultihash/sha256.h:257-261 | bytes that do not complete a block leave the chaining value alone and grow the tail |
| Sha256.AbsorbBlock | src/Native/libmultihash/sha256.h:263-267 | bytes that complete the block compress exactly tail and bytes |
| Sha256.Context.Init | src/Native/libmultihash/sha256.h:218-235 | establishes the invariant for the empty message |
| Sha256.Context.Tally | src/Native/libmultihash/sha256.h:248-255 | keeps the count words equal to the bit length |
| Sha256.Context.Blocks | src/Native/libmultihash/sha256.h:269-274 | the loop folds all complete blocks of the input and stops less than a block from its end |
| Sha256.Context.Update | src/Native/libmultihash/sha256.h:237-278 | keeps the invariant (state folds the blocks, buffer holds the tail, counter the length) and appends the input to what was absorbed |
| Sha256.Context.Pad | src/Native/libmultihash/sha256.h:280-300 | absorbs exactly the padding of FIPS 180-4 section 5.1.1 |
| Sha256.Context.Final | src/Native/libmultihash/sha256.h:302-318 | the digest is the one-shot hash of everything absorbed; the context is cleared |
| Sha256.Context.CopyFrom | src/Native/libmultihash/sha256.h:412-412 | a copied context continues the same message and shares no memory |
| Sha256Pieces.HashInPieces | src/Native/libmultihash/sha256.h:237-318 | for every way of cutting a message into Update calls the digest is the hash of the whole message |
| Hmac.PadIsKeyPad | src/Native/libmultihash/sha256.h:338-350 | xoring only the key's own bytes is xoring the zero-filled key |
| Hmac.MakePad | src/Native/libmultihash/sha256.h:340-342 | the pad block is the block key of RFC 2104 xored with the constant |
| Hmac.Context.Init | src/Native/libmultihash/sha256.h:320-354 | for keys of any length the inner and outer hashes have absorbed ipad and opad blocks of the RFC 2104 key |
| Hmac.Context.Update | src/Native/libmultihash/sha256.h:356-363 | appends to the text |
| Hmac.Context.Final | src/Native/libmultihash/sha256.h:365-382 | gives the HMAC of RFC 2104 section 2 of key and text |
| Hmac.Context.CopyFrom | src/Native/libmultihash/sha256.h:411-412 | a copy of a half-finished HMAC continues it independently |
| HmacLaws.ShortKeyMac | src/Native/libmultihash/sha256.h:320-382 | for keys up to a block, HMAC with both pads written out |
| HmacLaws.LongKeyMac | src/Native/libmultihash/sha256.h:329-336 | a longer key stands for its hash |
| Hmac.FirstMac | src/Native/libmultihash/sha256.h:411-414 | U_1 from the copied context is the HMAC of salt and block number |
| Hmac.Iteration | src/Native/libmultihash/sha256.h:420-427 | a turn of the inner loop goes from U_j and its running exclusive-or to the next ones |
| Hmac.Block | src/Native/libmultihash/sha256.h:408-428 | one turn computes T_i of RFC 8018 section 5.2 for every iteration count and leaves the shared context usable |
| Hmac.WriteBlock | src/Native/libmultihash/sha256.h:430-434 | the written part of the output grows by as much of T as fits |
| Hmac.Turn | src/Native/libmultihash/sha256.h:407-435 | a turn of the outer loop appends one block, cut at dkLen |
| Hmac.Pbkdf2 | src/Native/libmultihash/sha256.h:384-439 | the buffer holds the first dkLen octets of T_1, T_2, ... of RFC 8018 section 5.2 |
| HmacLaws.DerivedKeyBlocks | src/Native/libmultihash/sha256.h:406-435 | block i of a derived key is the HMAC of salt and i in four octets, counted from one; with two iterations it is xored with the HMAC of itself |
| HmacLaws.FirstDerivedBlock | src/Native/libmultihash/sha256.h:408-414 | 32 octets after one iteration are the HMAC of the salt followed by 0, 0, 0, 1 |
| HmacLaws.ShorterKeyIsPrefix | src/Native/libmultihash/sha256.h:430-434 | a shorter derived key is the beginning of a longer one |
| ScryptSpec.WordsRoundTrip | src/Native/libmultihash/scryptn.c:176-178 | decoding undoes the little-endian encoding |
| ScryptSpec.OctetsRoundTrip | src/Native/libmultihash/scryptn.c:176-178 | encoding undoes the little-endian decoding |
| ScryptLaws.OctetsOfWords | src/Native/libmultihash/scryptn.c:212-214 | words are stored in order, least significant octet first |
| ScryptSpec.BlockMixByCells | src/Native/libmultihash/scryptn.c:110-144 | a vector whose cells hold the Y_i in the order of RFC 7914 section 4 step 3 is scryptBlockMix |
| ScryptLaws.BlockMixOfOne | src/Native/libmultihash/scryptn.c:123-143 | scryptBlockMix for r = 1, written out |
| ScryptLaws.BlockMixOfTwo | src/Native/libmultihash/scryptn.c:123-143 | scryptBlockMix for r = 2, written out: Y_0, Y_2, Y_1, Y_3 |
| ScryptLaws.RoMixOfTwo | src/Native/libmultihash/scryptn.c:180-210 | scryptROMix for N = 2, written out: the parity of the last block picks the entry |
| ScryptSpec.LowWords | src/Native/libmultihash/scryptn.c:150-156 | reduction by a power of two sees the low words of the last block only |
| Scrypt.MixAndPlace | src/Native/libmultihash/scryptn.c:128-134 | a half turn puts Y_i directly into its final place and leaves the others |
| Scrypt.BlockMixSalsa | src/Native/libmultihash/scryptn.c:118-144 | the direct-placement loop computes scryptBlockMix for every r >= 1 |
| Smix.TwoWordIndex | src/Native/libmultihash/scryptn.c:150-156 | two words masked with N - 1 are Integerify mod N of RFC 7914 section 5 |
| Smix.OneWordIndex | src/Native/libmultihash/neoscrypt.c:2671-2672 | one word masked with N - 1 is the same index for N up to 2^32 |
| Smix.StoreRow | src/Native/libmultihash/scryptn.c:182-183 | row i of V becomes X and no other row changes |
| Smix.FillTable | src/Native/libmultihash/scryptn.c:180-193 | the unrolled ping-pong loop fills V with V_0, V_1, ... and leaves the N-th vector in X |
| Smix.LookupAndMix | src/Native/libmultihash/scryptn.c:197-202 | one step of the second loop: index in bounds, xor with V_j, mixed into the other vector |
| Smix.WalkTable | src/Native/libmultihash/scryptn.c:195-210 | the second unrolled loop makes N steps of scryptROMix |
| Smix.Smix | src/Native/libmultihash/scryptn.c:166-215 | smix computes scryptROMix on octets for every power of two N >= 2 and r >= 1 |
| ScryptHash.ScryptN | src/Native/libmultihash/scryptn.c:217-246 | the whole hash is PBKDF2, ROMix and PBKDF2 composed as in RFC 7914 section 6 with p = 1 |
| ScryptHash.KeyByMacs | src/Native/libmultihash/scryptn.c:235-245 | the scrypt key in single applications of HMAC before and after the mixing |
| Blake2sSpec.AbsorbAfter | src/Native/libmultihash/neoscrypt.c:2214-2229 | absorbing may be cut after any number of complete blocks that something follows |
| Blake2sSpec.LowAbsorb | src/Native/libmultihash/neoscrypt.c:2222-2222 | below 2^32 octets the dropped high counter word makes no difference |
| Blake2sSpec.CounterIsEnough | src/Native/libmultihash/neoscrypt.c:2222-2271 | the code computes BLAKE2s of RFC 7693 for every compression function if and only if the key is not empty and key block and input stay below 2^32 octets |
| Blake2sSpec.ShortInputs | src/Native/libmultihash/neoscrypt.c:2246-2277 | up to two blocks without a key, written out: parameter block, counters and final flag of RFC 7693 |
| Blake2sSpec.KeyedShortInput | src/Native/libmultihash/neoscrypt.c:2246-2277 | a key and up to one block, written out |
| Blake2s.State.Shift | src/Native/libmultihash/neoscrypt.c:2221-2227 | a full two-block buffer chains its first block and keeps the second |
| Blake2s.State.Update | src/Native/libmultihash/neoscrypt.c:2210-2238 | keeps the lazy-buffer invariant and appends the input, however it is cut |
| Blake2s.State.Finish | src/Native/libmultihash/neoscrypt.c:2264-2274 | the state becomes the absorption of everything, with counter and final flag, whether one or two blocks are buffered |
| Blake2s.Hash | src/Native/libmultihash/neoscrypt.c:2240-2278 | equals the one-shot hash of key block and input with the code's counter, for keys up to 64 and outputs up to 32 bytes |
| FastKdf.MirroredRead | src/Native/libmultihash/neoscrypt.c:2337-2341 | in a mirrored buffer a contiguous read from any pointer is a read modulo 256 |
| FastKdf.MendedIsRing | src/Native/libmultihash/neoscrypt.c:2352-2362 | whichever copy branch runs, the buffer is the mirrored form of the xored ring again |
| FastKdf.FillBuffer | src/Native/libmultihash/neoscrypt.c:2310-2332 | the copies tile the buffer with the input, cut at 256, and mirror the tail |
| FastKdf.NextPointer | src/Native/libmultihash/neoscrypt.c:2347-2350 | the masked 32-bit sum is the sum of the bytes modulo 256 |
| FastKdf.ModifySalt | src/Native/libmultihash/neoscrypt.c:2352-2362 | the salt buffer mirrors the ring with the output xored in at the pointer |
| FastKdf.Turn | src/Native/libmultihash/neoscrypt.c:2334-2364 | one turn is one step on the 256-byte ring |
| FastKdf.TwoRuns | src/Native/libmultihash/neoscrypt.c:2375-2378 | xoring and copying two runs around the ring's end is one read modulo 256 |
| FastKdf.WriteOutput | src/Native/libmultihash/neoscrypt.c:2366-2379 | output byte i is ring[(bufptr + i) mod 256] xor A[i] in both branches |
| FastKdf.FastKdf | src/Native/libmultihash/neoscrypt.c:2284-2381 | the buffered loop computes the ring definition for every N, password of at least 64 and salt of at least 32 bytes, longer ones cut at 256 |
| FastKdfSpec.StepByBytes | src/Native/libmultihash/neoscrypt.c:2337-2362 | one iteration byte by byte: where the PRF reads, where its output is xored in, and that nothing else changes |
| FastKdfSpec.NoIterations | src/Native/libmultihash/neoscrypt.c:2310-2379 | without iterations the output is the repeated salt xored with the repeated password |
| FastKdfSpec.OutputByBytes | src/Native/libmultihash/neoscrypt.c:2366-2379 | output byte i is the ring byte i places from the last position, xored with password byte i mod its length |
| FastKdfOpt.StartIsConstant | src/Native/libmultihash/neoscrypt.c:2392-2396 | the pre-xored vector is the IV xored with the parameter block for 32-byte key and digest |
| FastKdfOpt.TwoBlocksIsKeyed | src/Native/libmultihash/neoscrypt.c:2433-2451 | two compressions at counters 64 and 128 are keyed BLAKE2s of 64 bytes |
| FastKdfOpt.Compress | src/Native/libmultihash/neoscrypt.c:2441-2451 | the compression on the flat state S[0..28) reads h, t, f and m from their places and writes h back |
| FastKdfOpt.InlineBlake | src/Native/libmultihash/neoscrypt.c:2433-2451 | the inlined code on the flat state leaves that digest in S[0..8) |
| FastKdfOpt.ShiftsSumBytes | src/Native/libmultihash/neoscrypt.c:2454-2457 | a word and its three shifts have the byte sum as low byte |
| FastKdfOpt.PointerFromWords | src/Native/libmultihash/neoscrypt.c:2453-2459 | the pointer from whole words equals the pointer from bytes, with 32-bit overflow |
| FastKdfOpt.TurnOpt | src/Native/libmultihash/neoscrypt.c:2431-2468 | a turn of the optimised loop has the contract of a turn of the plain one |
| FastKdfOpt.LayOut80 | src/Native/libmultihash/neoscrypt.c:2412-2416 | the five copies tile the buffer with the 80 bytes and mirror the tail |
| FastKdfOpt.FastKdfOptimised | src/Native/libmultihash/neoscrypt.c:2398-2480 | in both modes the output is that of the FastKDF definition with 32 iterations, so the same bytes as neoscrypt_fastkdf |
| NeoScrypt.MixCell | src/Native/libmultihash/neoscrypt.c:2546-2551 | a cell is xored with its predecessor and mixed; no other cell changes |
| NeoScrypt.BlkmixReference | src/Native/libmultihash/neoscrypt.c:2544-2557 | the reference loop is scryptBlockMix for any r |
| NeoScrypt.Blkmix | src/Native/libmultihash/neoscrypt.c:2489-2558 | the written-out paths for r = 1 and r = 2 equal the reference loop, with either mixer |
| NeoScrypt.SmixInPlace | src/Native/libmultihash/neoscrypt.c:2680-2694 | the two loops compute scryptROMix in place |
| NeoScrypt.Mix | src/Native/libmultihash/neoscrypt.c:2656-2698 | double mixing is the xor of ChaCha ROMix on a copy and Salsa ROMix |
| ScryptLaws.WhichMixer | src/Native/libmultihash/neoscrypt.c:2656-2698 | single mixing is Salsa alone; double mixing is, word by word, the xor of both single ones |
| NeoScrypt.NeoScryptOver | src/Native/libmultihash/neoscrypt.c:2656-2729 | over any key derivation and for every r, the output is the composition of derivation, mixing and derivation |
| NeoScrypt.NeoScrypt | src/Native/libmultihash/neoscrypt.c:2625-2729 | with either build of FastKDF, where its 256 bytes fill X, the output is the same composition of FastKDF and mixing |
| NeoScrypt.FastKdfIsAKdf | src/Native/libmultihash/neoscrypt.c:2625-2709 | the definition over FastKDF is the one over any derivation, with 32 iterations |
| Lyra2Padding.PadBytes | src/Native/libmultihash/Lyra2.c:117-121 | the padding written into the matrix is 10*1 up to the next block boundary, 0x81 when one byte is left |
| Lyra2Padding.PadInjective | src/Native/libmultihash/Lyra2.c:117-121 | different inputs have different padded forms |
| Lyra2Padding.InputInjective | src/Native/libmultihash/Lyra2.c:90-121 | two argument lists with the same padded input are equal |
| Lyra2Laws.InputOrder | src/Native/libmultihash/Lyra2.c:95-115 | the padded input holds password, salt and the six numbers, in that order and little-endian |
| Lyra2Padding.LayOutInput | src/Native/libmultihash/Lyra2.c:90-121 | the matrix starts with the padded input, and the rest is unchanged |
| Lyra2Schedule.StrideSquared | src/Native/libmultihash/Lyra2.c:157-162 | the step of a window is its own inverse modulo the window |
| Lyra2Schedule.StrideIsOdd | src/Native/libmultihash/Lyra2.c:157-162 | every step of the Setup phase is odd |
| Lyra2Schedule.SetupRowsDistinct | src/Native/libmultihash/Lyra2.c:145-164 | rowa < window <= row, rowa differs from prev, and both are computed already |
| Lyra2Schedule.WindowCoversOnce | src/Native/libmultihash/Lyra2.c:150-162 | each window revisits every row below it exactly once |
| Lyra2Schedule.WrapsAtWindowEnd | src/Native/libmultihash/Lyra2.c:150-162 | the running index returns to 0 exactly when row reaches twice the window |
| Lyra2Laws.FirstRowas | src/Native/libmultihash/Lyra2.c:150-162 | the revisited rows of the first three windows, listed |
| Lyra2Schedule.OddVisit | src/Native/libmultihash/Lyra2.c:171-188 | row number i of an odd pass in closed form |
| Lyra2Schedule.EvenVisit | src/Native/libmultihash/Lyra2.c:171-188 | row number i of an even pass in closed form, -1 wrapping at 2^64 |
| Lyra2Schedule.PeriodReturns | src/Native/libmultihash/Lyra2.c:172-191 | every pass gets back to row 0, so the do-while loop ends for every row count |
| Lyra2Schedule.OddPassFull | src/Native/libmultihash/Lyra2.c:171-191 | an odd pass visits every row exactly once if and only if nRows is a multiple of four, or odd and no multiple of three |
| Lyra2Schedule.EvenPassFull | src/Native/libmultihash/Lyra2.c:171-191 | an even pass visits every row exactly once if and only if nRows divides 2^64 |
| Lyra2Schedule.PowerOfTwoIsFull | src/Native/libmultihash/Lyra2.c:171-191 | for nRows = 2^k, k >= 2, every pass visits every row once and ends after nRows steps |
| Lyra2.ScheduleAdvances | src/Native/libmultihash/Lyra2.c:150-162 | the running row, window, step and gap keep holding the scheduled values |
| Lyra2.Setup | src/Native/libmultihash/Lyra2.c:141-164 | the loop computes the setup over the scheduled rows, in bounds, for every nRows >= 3 |
| Lyra2.Pass | src/Native/libmultihash/Lyra2.c:170-191 | a pass terminates and duplexes the rows of its visit sequence in order |
| Lyra2.Passes | src/Native/libmultihash/Lyra2.c:167-192 | the passes of the Wandering phase one after the other, odd and even in turn |
| Lyra2Laws.FirstPasses | src/Native/libmultihash/Lyra2.c:168-171 | the first pass is the odd one, the second counts down |
| Lyra2.DeriveIgnoresMatrix | src/Native/libmultihash/Lyra2.c:141-164 | the key does not depend on what the matrix held before |
| Lyra2.Absorb | src/Native/libmultihash/Lyra2.c:133-139 | the laid-out blocks are absorbed from the memory one by one |
| Lyra2.Run | src/Native/libmultihash/Lyra2.c:133-200 | from the laid-out input in memory: setup, passes and wrap-up compute the definition over the schedule |
| Lyra2.Hash | src/Native/libmultihash/Lyra2.c:46-201 | clearing, layout and run together compute the key of the arguments, whatever rows the laid-out bytes read as |
| MerkleTree.FoldFirst | src/MiningCore/Crypto/MerkleTree.cs:130-138 | folds the steps into the first hash |
| MerkleTree.JoinLevel | src/MiningCore/Crypto/MerkleTree.cs:98-109 | one level of L becomes the level above behind its unknown first node |
| MerkleTree.CalculateSteps | src/MiningCore/Crypto/MerkleTree.cs:78-113 | terminates and returns the branch of the unknown first leaf |
| MerkleTree.BranchGivesRoot | src/MiningCore/Crypto/MerkleTree.cs:78-138 | for any hashes and any coinbase hash, folding the branch gives the root of the full tree with the last node doubled on odd levels |
| MerkleTree.BranchLength | src/MiningCore/Crypto/MerkleTree.cs:84-110 | the number of steps is the least h with 2^h >= n + 1 |
| MerkleTree.SmallTrees | src/MiningCore/Crypto/MerkleTree.cs:123-153 | trees of one, two and three leaves, written out with the digest applied twice |
| MerkleTree.SameRootCollides | src/MiningCore/Crypto/MerkleTree.cs:130-138 | two different coinbase hashes that lead to one root give a collision of the double digest |
| MerkleTree.BlockRoot | src/MiningCore/Crypto/MerkleTree.cs:46-138 | constructor and WithFirst give the root of the full tree |
| BigRational.SimplifiedFacts | src/MiningCore/Util/BigRational.cs:778-791 | Simplify leaves lowest terms and divides by one positive number |
| BigRational.MakeIsExact | src/MiningCore/Util/BigRational.cs:279-301 | the constructor throws exactly on a zero denominator; otherwise lowest terms, positive denominator, exact value |
| BigRational.CanonicalUnique | src/MiningCore/Util/BigRational.cs:199-204 | a number has one canonical fraction |
| BigRational.EqualityCoincides | src/MiningCore/Util/BigRational.cs:199-204 | Equals, Compare = 0, equal numbers and identical components coincide |
| BigRational.CompareOrders | src/MiningCore/Util/BigRational.cs:426-430 | Compare orders as the rationals they denote |
| RationalArithmetic.RingOperationsAreExact | src/MiningCore/Util/BigRational.cs:486-504 | sum, difference and product are canonical and exact |
| RationalArithmetic.DivisionIsExact | src/MiningCore/Util/BigRational.cs:506-510 | division and inversion throw exactly on zero and are exact and canonical otherwise |
| RationalArithmetic.NegationIsExact | src/MiningCore/Util/BigRational.cs:471-474 | negation is canonical and exact |
| RationalArithmetic.WholePartOfMake | src/MiningCore/Util/BigRational.cs:146-149 | the whole part truncates toward zero, whatever fraction the value came from |
| RationalArithmetic.DivisionWithRemainder | src/MiningCore/Util/BigRational.cs:512-517 | x = trunc(x/y)*y + x%y, the remainder smaller than y and of x's sign |
| RationalArithmetic.Pow | src/MiningCore/Util/BigRational.cs:386-407 | the loop gives the repeated product for every exponent and throws exactly for negative powers of zero |
| RationalArithmetic.MixedIsExactWhen | src/MiningCore/Util/BigRational.cs:303-328 | the mixed-number constructor is exact if and only if the denominator is positive or the whole part zero |
| RationalDecimal.MantissaStep | src/MiningCore/Util/BigRational.cs:638-638 | dividing by ten keeps denormalized = trunc(n*10^scale/d) one scale lower |
| RationalDecimal.ToDecimal | src/MiningCore/Util/BigRational.cs:623-649 | on the scaled path: the largest scale whose mantissa fits, truncated toward zero; throws exactly when the whole part does not fit |
| RationalDecimal.CutOffError | src/MiningCore/Util/BigRational.cs:631-646 | the error is below one unit of the last place and toward zero |
| RationalDecimal.FromDecimalIsExact | src/MiningCore/Util/BigRational.cs:251-277 | a decimal becomes the canonical fraction of its exact value |
| CircularBuffer.BackReadsLastSlot | src/MiningCore/Util/CircularBuffer.cs:175-179 | Back addresses the last element if and only if the end index is not zero or the buffer is full |
| CircularBuffer.BackMisses | src/MiningCore/Util/CircularBuffer.cs:175-179 | constructing, PopFront and Back return the first of the two elements left instead of the last |
| CircularBuffer.Buffer.constructor | src/MiningCore/Util/CircularBuffer.cs:62-80 | the new buffer holds the given items, and the invariant holds (end = (start + size) mod capacity, free slots default) |
| CircularBuffer.Buffer.Create | src/MiningCore/Util/CircularBuffer.cs:62-71 | throws exactly for a capacity below one or too many items |
| CircularBuffer.Buffer.Get | src/MiningCore/Util/CircularBuffer.cs:114-126 | indexing reads the logical sequence; throws on empty and from size on; below zero reads before the start or fails |
| CircularBuffer.Buffer.Set | src/MiningCore/Util/CircularBuffer.cs:127-137 | the setter replaces one element of the sequence |
| CircularBuffer.Buffer.Front | src/MiningCore/Util/CircularBuffer.cs:165-169 | the first element, or an exception when empty |
| CircularBuffer.Buffer.Back | src/MiningCore/Util/CircularBuffer.cs:175-179 | the last element wherever the slot condition holds |
| CircularBuffer.Buffer.PushBack | src/MiningCore/Util/CircularBuffer.cs:188-202 | appends; when full the first element is dropped |
| CircularBuffer.Buffer.PushFront | src/MiningCore/Util/CircularBuffer.cs:211-225 | prepends; when full the last element is dropped |
| CircularBuffer.Buffer.PopBack | src/MiningCore/Util/CircularBuffer.cs:231-237 | removes the last element and resets its slot |
| CircularBuffer.Buffer.PopFront | src/MiningCore/Util/CircularBuffer.cs:243-249 | removes the first element and resets its slot |
| CircularBuffer.Buffer.SegmentsAreEnumerated | src/MiningCore/Util/CircularBuffer.cs:324-336 | the two segments are the sequence when there are elements and the whole array when there are none |
| CircularBuffer.Buffer.ToArray | src/MiningCore/Util/CircularBuffer.cs:257-269 | copies the sequence; throws exactly on an empty buffer |
| CircularBuffer.Sum | src/MiningCore/Util/CircularDoubleBuffer.cs:40-52 | the sum of the sequence, also when empty |
| CircularBuffer.Average | src/MiningCore/Util/CircularDoubleBuffer.cs:35-38 | the mean, or an exception when empty |
| VarDiffSpec.ChangeIsBounded | src/MiningCore/VarDiff/VarDiffManager.cs:86-119 | a change stays in [MinDiff, MaxDiff], differs from the old value and moves at most MaxDelta when set |
| VarDiffSpec.ChangeHasReason | src/MiningCore/VarDiff/VarDiffManager.cs:82-119 | a rise only below tMin, a fall only above tMax |
| VarDiffSpec.UpdateInNumbers | src/MiningCore/VarDiff/VarDiffManager.cs:66-122 | for a positive average: exactly when an update changes the difficulty, to which number, and what becomes of the clocks |
| VarDiffSpec.FirstUpdate | src/MiningCore/VarDiff/VarDiffManager.cs:57-64 | the first update only starts the clocks |
| VarDiffSpec.ToleranceBand | src/MiningCore/VarDiff/VarDiffManager.cs:37-39 | the tolerated averages lie around the target by the configured percentage |
| VarDiffSpec.ZeroAverage | src/MiningCore/VarDiff/VarDiffManager.cs:86-107 | an average of zero sends the difficulty to its ceiling, or leaves it with a maximum step set |
| VarDiff.VarDiffManager.Limit | src/MiningCore/VarDiff/VarDiffManager.cs:89-101 | cuts a longer step at the maximum, infinities included; UpdateInNumbers says what comes out |
| VarDiff.VarDiffManager.Propose | src/MiningCore/VarDiff/VarDiffManager.cs:86-107 | quotient, step limit and clamping in the order of the code |
| VarDiff.VarDiffManager.Update | src/MiningCore/VarDiff/VarDiffManager.cs:48-123 | the in-place context changes exactly as the specified transition, the ring buffer as its last ten intervals |
| VarDiff.WorkerContext.ApplyPendingDifficulty | src/MiningCore/Mining/WorkerContextBase.cs:79-90 | makes the pending difficulty current once and keeps the previous one |
| VarDiff.UpdateVarDiff | src/MiningCore/Mining/PoolBase.cs:164-232 | an update event enqueues a change and otherwise leaves the worker alone |
| VarDiffRuns.AlwaysBounded | src/MiningCore/Mining/PoolBase.cs:164-232 | over every run the current and the pending difficulty stay in range |
| VarDiffRuns.AppliedStepIsBounded | src/MiningCore/Mining/WorkerContextBase.cs:79-96 | over every run an applied change moves at most MaxDelta |
| VarDiffRuns.ChangesAreSpaced | src/MiningCore/VarDiff/VarDiffManager.cs:82-118 | any two changes of a run are at least RetargetTime apart |
| VarDiffRuns.AlwaysTelescopes | src/MiningCore/VarDiff/VarDiffManager.cs:68-84 | in every run the stored intervals are the gaps between the times at which they opened, and the last mark is LastTs |
| VarDiffRuns.AverageOverRun | src/MiningCore/VarDiff/VarDiffManager.cs:68-84 | in every run the average is the time since the oldest stored interval opened over the number of intervals; it is positive if and only if that interval opened before now |
| VarDiffRuns.PositiveBeforeOverflow | src/MiningCore/VarDiff/VarDiffManager.cs:68-84 | until an interval is pushed out the oldest one opened no later than LastRtc, so the average is positive whenever the retarget gate passes, despite idle updates |
| VarDiffRuns.ChangesHaveReasons | src/MiningCore/VarDiff/VarDiffManager.cs:82-119 | over every run a rise means shares came too fast, a fall too slowly |
| VarDiffRuns.OverflowLosesTime | src/MiningCore/VarDiff/VarDiffManager.cs:70-84 | a run in which the eleventh share makes the average zero although the retarget time has passed |
| Ledger.FromBlockAppend | src/MiningCore/Persistence/Postgres/Repositories/BalanceRepository.cs:51-64 | the journal entries of one block are found in any part of the journal separately |
| Ledger.AddAmountsFacts | src/MiningCore/Persistence/Postgres/Repositories/BalanceRepository.cs:45-104 | crediting adds the entries to the journal and touches neither blocks nor payments |
| Ledger.BalanceAfterAdds | src/MiningCore/Persistence/Postgres/Repositories/BalanceRepository.cs:67-104 | each balance grows by what the entries have for its address |
| Ledger.OtherCoinsUntouched | src/MiningCore/Persistence/Postgres/Repositories/BalanceRepository.cs:67-104 | balances under another coin than the pool's are never touched |
| Ledger.AuditedAfterAdds | src/MiningCore/Persistence/Postgres/Repositories/BalanceRepository.cs:45-104 | every balance remains the sum of its journal entries |
| BlockClassification.ClassifyResults | src/MiningCore/Blockchain/Bitcoin/BitcoinPayoutHandler.cs:129-188 | the inner loop appends the classified blocks of one page |
| BlockClassification.ClassifyBlocks | src/MiningCore/Blockchain/Bitcoin/BitcoinPayoutHandler.cs:106-193 | the page loops compute the page-wise classification, failures included |
| BlockClassification.PagesThin | src/MiningCore/Blockchain/Bitcoin/BitcoinPayoutHandler.cs:115-191 | for any batches no pending block is returned twice, none is made up, and the order is kept |
| BlockClassification.PagingIsTransparent | src/MiningCore/Blockchain/Bitcoin/BitcoinPayoutHandler.cs:111-128 | when each page is fully answered, every block is classified by its own answer |
| BlockClassification.FateByAnswer | src/MiningCore/Blockchain/Bitcoin/BitcoinPayoutHandler.cs:129-187 | for each pending block: orphaned, confirmed, unchanged or left out if and only if its answer is one of those named; only another category costs the reward |
| BlockClassification.ThrowsWhen | src/MiningCore/Blockchain/Bitcoin/BitcoinPayoutHandler.cs:125-132 | classifying throws if and only if a batch call does or has more answers than blocks |
| BlockClassification.ConfirmedIffGenerated | src/MiningCore/Blockchain/Bitcoin/BitcoinPayoutHandler.cs:156-187 | a pending block comes back confirmed if and only if the daemon says "generate" |
| BlockOrder.OrderKeeps | src/MiningCore/Payments/PayoutManager.cs:123-123 | processing order is by age and has every block as often as before |
| BlockOrder.OrderIsStable | src/MiningCore/Payments/PayoutManager.cs:123-123 | blocks of one age keep their order |
| BlockRewards.UpdateBlockRewardBalances | src/MiningCore/Blockchain/Bitcoin/BitcoinPayoutHandler.cs:202-223 | credits the recipients' entries in order and returns the remainder; stops at the operation that throws |
| BlockRewards.RewardIsConserved | src/MiningCore/Blockchain/Bitcoin/BitcoinPayoutHandler.cs:204-222 | recipients' entries, the pool's own share and the remainder add up to the reward |
| BlockRewards.RecipientGets | src/MiningCore/Blockchain/Bitcoin/BitcoinPayoutHandler.cs:206-220 | each recipient is credited its own percentage of the reward, the pool address nothing |
| BlockRewards.RemainderIsCovered | src/MiningCore/Blockchain/Bitcoin/BitcoinPayoutHandler.cs:204-222 | the remainder is not negative if and only if the positive percentages stay within 100 |
| BlockRewards.EntriesNameTheBlock | src/MiningCore/Blockchain/Bitcoin/BitcoinPayoutHandler.cs:214-219 | every entry of a distribution stems from its block |
| BlockRewards.BlockAction | src/MiningCore/Payments/PayoutManager.cs:133-151 | the action completes exactly when the scheme does not throw and no operation fails, with the whole effect |
| BlockRewards.CommittedBalances | src/MiningCore/Payments/PayoutManager.cs:133-145 | every single balance after a block's transaction, in percentages and credits |
| BlockRewards.ProcessBlock | src/MiningCore/Extensions/ConnectionFactoryExtensions.cs:202-227 | the bracket leaves the whole effect of the action or the old store, whatever operation throws |
| RewardRuns.TransactedEffect | src/MiningCore/Payments/PayoutManager.cs:127-152 | a committed transaction writes one row and, for a confirmed block, one distribution |
| RewardRuns.CycleWork | src/MiningCore/Payments/PayoutManager.cs:115-123 | what a cycle sets out to process is pending in the store, each block once |
| RewardRuns.SoundStep | src/MiningCore/Payments/PayoutManager.cs:113-158 | every event keeps the invariant |
| RewardRuns.AlwaysSound | src/MiningCore/Payments/PayoutManager.cs:113-158 | over every run pending and orphaned blocks have no entries and a confirmed block has those of one distribution |
| RewardRuns.DistributedWhenConfirmed | src/MiningCore/Payments/PayoutManager.cs:127-152 | entries of a block appear exactly in the committed step from Pending to Confirmed, all of them, for the stored reward; settled blocks never change |
| RewardRuns.DistributedAtMostOnce | src/MiningCore/Payments/PayoutManager.cs:113-158 | over every run the number of distributions of a block is one if it ends up confirmed and zero otherwise |
| RewardRuns.SettledForever | src/MiningCore/Payments/PayoutManager.cs:113-158 | confirmed and orphaned blocks and their entries are final |
| RewardRuns.SettledByAnswer | src/MiningCore/Blockchain/Bitcoin/BitcoinPayoutHandler.cs:139-187 | over every run a block becomes an orphan only in a cycle whose answer disowned it, confirmed only in one that called it spendable |
| RewardRuns.ConfirmedPays | src/MiningCore/Payments/PayoutManager.cs:133-145 | in every run a confirmed block pays what the scheme was not given and a total the scheme's law allows, any other block nothing |
| RewardRuns.RewardFullyPaid | src/MiningCore/Payments/PayoutManager.cs:133-145 | with schemes that hand out what they get, a confirmed block's entries and the pool's own share are its reward, in every run |
| RewardRuns.AlwaysAudited | src/MiningCore/Persistence/Postgres/Repositories/BalanceRepository.cs:45-104 | in every run each balance is the sum of its journal |
| RewardRuns.AlwaysOneCoin | src/MiningCore/Payments/PayoutManager.cs:79-181 | no run leaves balances under another coin, if it began without |
| RewardRuns.ProcessBlocks | src/MiningCore/Payments/PayoutManager.cs:123-153 | the loop is a run of transactions that stops at the first exception |
| RewardRuns.UpdatePoolBalances | src/MiningCore/Payments/PayoutManager.cs:113-158 | the method is a cycle of the machine; without an exception every classified block is stored as classified |
| ShareTable.BeforeAre | src/MiningCore/Persistence/Postgres/Repositories/ShareRepository.cs:63-64 | exactly the rows before the time asked for, with or without it |
| ShareTable.ReadsExactlyWithoutTies | src/MiningCore/Persistence/Postgres/Repositories/ShareRepository.cs:59-70 | the first n shares are read in order if and only if no page ends between two of them with the same time |
| Pplns.CalculateRewards | src/MiningCore/Payments/PaymentSchemes/PPLNSPaymentScheme.cs:183-259 | the loops read page after page with the query of the source and process the shares until the window is full, the table ends or the check throws |
| Pplns.WindowIsRead | src/MiningCore/Payments/PaymentSchemes/PPLNSPaymentScheme.cs:198-252 | every share of the window is read if and only if no page ends inside it between shares of one time; then the rewards are those of the whole table |
| Pplns.PaysByScore | src/MiningCore/Payments/PaymentSchemes/PPLNSPaymentScheme.cs:222-247 | for a positive reward the check never throws and the credits are score/window of it, all of it if and only if the window fills |
| Pplns.EachIsPaidItsScore | src/MiningCore/Payments/PaymentSchemes/PPLNSPaymentScheme.cs:227-247 | for a positive reward every address is credited in proportion to its own score inside the window |
| Pplns.NothingToDistributeThrows | src/MiningCore/Payments/PaymentSchemes/PPLNSPaymentScheme.cs:234-236 | for a reward of zero or less it throws if and only if there is a share and the first does not fill the window |
| Pplns.FilledWindowPaysAll | src/MiningCore/Payments/PaymentSchemes/PPLNSPaymentScheme.cs:80-104 | with a filled window recipients, own share and miners get the whole reward |
| Pplns.PplnsKeeps | src/MiningCore/Payments/PaymentSchemes/PPLNSPaymentScheme.cs:80-104 | as a scheme of the machine PPLNS never hands out more than the rest it is given, and nothing when there is none |
| Pplns.PplnsNeverOverpays | src/MiningCore/Payments/PaymentSchemes/PPLNSPaymentScheme.cs:80-104 | over every run with PPLNS a confirmed block pays at most its reward if and only if the recipients leave no negative rest |
| Payouts.NearestIsNearest | src/MiningCore/Blockchain/Bitcoin/BitcoinPayoutHandler.cs:232-232 | rounding takes the nearest value, the even one of two |
| Payouts.SentIsClose | src/MiningCore/Blockchain/Bitcoin/BitcoinPayoutHandler.cs:230-232 | what is sent differs from the positive balances by at most 0.5e-8 for each |
| Payouts.EachIsSentItsOwn | src/MiningCore/Blockchain/Bitcoin/BitcoinPayoutHandler.cs:230-232 | every address is sent the sum of its own positive balances, within 0.5e-8 for each |
| Payouts.EntryForEachBalance | src/MiningCore/Blockchain/Bitcoin/BitcoinPayoutHandler.cs:230-232 | every positive balance has an entry under its address within 0.5e-8 of it |
| Payouts.BalanceForEachEntry | src/MiningCore/Blockchain/Bitcoin/BitcoinPayoutHandler.cs:230-232 | every entry stands for a positive balance of its address |
| Payouts.EntriesCount | src/MiningCore/Blockchain/Bitcoin/BitcoinPayoutHandler.cs:230-232 | as many entries as positive balances, and no address twice unless a balance repeats it |
| Payouts.SentMatchesDebited | src/MiningCore/Payments/PayoutHandlerBase.cs:114-137 | for n balances that are not negative, sent and debited totals differ by at most n * 0.5e-8 |
| Payouts.DebitedOnce | src/MiningCore/Payments/PayoutHandlerBase.cs:114-137 | each balance goes down by exactly what was owed, whatever was credited meanwhile |
| Payouts.SentIsDebited | src/MiningCore/Payments/PayoutHandlerBase.cs:114-137 | for balances that are not negative, every address is sent what it is debited, within 0.5e-8 for each balance |
| Payouts.RecordedWhen | src/MiningCore/Payments/PayoutHandlerBase.cs:114-137 | every balance is debited; each is recorded as a payment if and only if there is a transaction id and none of them belongs to a reward recipient |
| Payouts.RecordedAmounts | src/MiningCore/Payments/PayoutHandlerBase.cs:116-132 | the recorded payments of an address are what it was owed, under the transaction id, and nothing for recipients or without an id |
| Payouts.PersistAction | src/MiningCore/Payments/PayoutHandlerBase.cs:112-138 | the action completes with all payments and debits exactly when no operation throws |
| Payouts.NineExecutions | src/MiningCore/Payments/PayoutHandlerBase.cs:88-89 | the ninth execution may still succeed and nothing after it counts |
| Payouts.PersistPayments | src/MiningCore/Payments/PayoutHandlerBase.cs:106-147 | under rollback and up to eight retries the debits are made once or not at all; once exactly when some execution succeeds after retryable failures only |
| Payouts.SendPayout | src/MiningCore/Blockchain/Bitcoin/BitcoinPayoutHandler.cs:264-325 | the calls made to the wallet, with the jump back after unlocking |
| Payouts.OneSuccessfulTransfer | src/MiningCore/Blockchain/Bitcoin/BitcoinPayoutHandler.cs:264-325 | at most one transfer succeeds; a second is tried if and only if error -13 asked for unlocking, a password is configured and accepted; the wallet is locked again exactly after its success |
| Payouts.Payout | src/MiningCore/Blockchain/Bitcoin/BitcoinPayoutHandler.cs:225-328 | one transfer, with every address sent its own balances, and one debit, in every case of daemon and database failure |
| Payouts.DebitedIffSent | src/MiningCore/Blockchain/Bitcoin/BitcoinPayoutHandler.cs:269-288 | a debit only after a successful transfer; the transfer is without debit exactly when locking throws or persisting fails |
| PoolPayments.PaidBalancesAreZero | src/MiningCore/Persistence/Postgres/Repositories/BalanceRepository.cs:106-115 | with one coin, balances at or over the minimum are zero after a payout, all others as before |
| PoolPayments.DictionaryThrowsWhen | src/MiningCore/Persistence/Postgres/Repositories/BalanceRepository.cs:106-115 | building the dictionary of amounts throws if and only if an address has two positive balances over the minimum, under different coins |
| PoolPayments.PaidBalances | src/MiningCore/Persistence/Postgres/Repositories/BalanceRepository.cs:106-115 | after a payout a selected balance in the pool's coin is zero and any other as before, less the address's balances in other coins, which are paid out and stay |
| PoolPayments.PayoutPoolBalances | src/MiningCore/Payments/PayoutManager.cs:160-181 | at most one successful transfer, one if paid, the debits of the selected balances, and nothing sent exactly when an address has two coins |
| PoolPayments.ProcessPool | src/MiningCore/Payments/PayoutManager.cs:79-111 | a whole round is a run of the machine with at most one successful transfer; with one coin the payout never throws on a repeated address |
| ShareRecovery.InsertShares | src/MiningCore/Mining/ShareRecorder.cs:112-127 | stores each share and a pending block for each candidate, in order |
| ShareRecovery.CandidatesAre | src/MiningCore/Mining/ShareRecorder.cs:119-126 | a pending block for exactly the shares that are candidates |
| ShareRecovery.PersistShares | src/MiningCore/Mining/ShareRecorder.cs:110-129 | the whole batch with its blocks, or nothing |
| ShareRecovery.RecoverShares | src/MiningCore/Mining/ShareRecorder.cs:182-268 | the loop stores what the line-by-line description commits and counts its failures |
| ShareRecovery.NothingLost | src/MiningCore/Mining/ShareRecorder.cs:198-243 | committed and waiting shares are always the shares read so far |
| ShareRecovery.RecoveredIsPrefix | src/MiningCore/Mining/ShareRecorder.cs:182-268 | a prefix is stored, each share once; all of them if and only if the last import succeeds or had nothing to do; no failures means all |
| ShareRecovery.FullBatches | src/MiningCore/Mining/ShareRecorder.cs:224-233 | without failing imports every batch that the loop commits has twenty shares |
| ShareRecovery.OutgrownWaits | src/MiningCore/Mining/ShareRecorder.cs:226-259 | a list beyond twenty shares is imported only at the end |
| ShareRecovery.AfterFailure | src/MiningCore/Mining/ShareRecorder.cs:223-239 | after a failure the next share outgrows the batch and an unparsable line tries again |
| StratumFraming.CutAnywhere | src/MiningCore/Stratum/StratumClient.cs:297-315 | cutting a stream anywhere gives the lines of the first part, then those of its rest and the second |
| StratumFraming.LinesCompose | src/MiningCore/Stratum/StratumClient.cs:297-315 | lines, ends and rest compose to the stream; no line holds an end |
| StratumFraming.Client.HandleProxyHeader | src/MiningCore/Stratum/StratumClient.cs:337-377 | the first line only: header consumed, missing mandatory header or bad header fails, otherwise passed on |
| StratumFraming.HeaderGivesSource | src/MiningCore/Stratum/StratumClient.cs:342-357 | a header of six words gives the source address and port, the third and the fifth word |
| StratumFraming.Client.TakeLines | src/MiningCore/Stratum/StratumClient.cs:297-315 | serves all complete lines of the buffer and keeps the rest |
| StratumFraming.Client.ProcessReceivePipe | src/MiningCore/Stratum/StratumClient.cs:278-322 | as long as no read exceeds the limit, the outcome is that of the whole stream, independent of the chunks; ends at the first read that exceeds it |
| StratumFraming.EveryLineDelivered | src/MiningCore/Stratum/StratumClient.cs:305-311 | every line is delivered in order, except an expected header on the first line |
| StratumFraming.MandatoryHeader | src/MiningCore/Stratum/StratumClient.cs:370-374 | without a mandatory header nothing is delivered |

## Left out

- Interiors of Salsa20, ChaCha20, the BLAKE2s compression function, Lyra2's sponge and the SHA-256 of the Merkle tree: they are function parameters.
- The other hash chains, Equihash, Ethash, Cryptonight, `bcrypt.c`, `dcrypt.c`, `LYRA2_old`, and the assembler, 4-way, PBKDF2 and BLAKE-256 parts of `neoscrypt.c`.
- Memory layout: alignment, word-wise copying, the scratchpad as one allocation, allocation failure, clearing of stack variables.
- Hmac.Pbkdf2: the block number is cut to 32 bits as in the code; it agrees with RFC 8018, which requires dkLen <= 32 * (2^32 - 1), within that bound.
- FastKdf.FastKdf: requires a password of 64 and a salt of 32 bytes, because for shorter ones the code copies beyond its arguments.
- NeoScrypt.NeoScrypt: requires r up to 2, since FastKDF gives at most 256 bytes and the code leaves the rest of a larger X unset; the optimised build fills r = 2 only. NeoScryptOver has every r over any other key derivation. N, r and the mixing mode are taken instead of the profile word, and the sources' own PBKDF2 and its hashes are parameters.
- Lyra2.Hash: the sponge operations on rows are parameters and rows are values beside the bytes, read from them once after the layout; the signed 64-bit variables are unbounded where the window cannot overflow them. As in the code, the caller provides room for the padded input.
- `BigRational` is a struct and modelled as a value; conversions from and to `double`, `float` and the integer types, `DivRem`, formatting and serialization are left out.
- RationalDecimal.ToDecimal: when numerator and denominator both fit, the code leaves the division to `System.Decimal`; that branch is not described further.
- CircularBuffer.Buffer.Back: returns what the code returns; it is the last element only under the condition of BackReadsLastSlot.
- Floating point: vardiff computes with reals, where a quotient by zero is an explicit infinity or undefined value; scores of PPLNS are reals.
- Decimals in the payment code are reals: the rounding of `System.Decimal` at its 28 digits is not modelled.
- The lock around vardiff, the timer of idle updates, and the configuration of ports.
- Block effort and confirmation progress, which are only displayed, notifications and logging.
- RewardRuns.AlwaysSound: one payment thread works on a pool at a time, as PayoutManager runs it; found blocks and debits may come in between its transactions.
- A commit whose outcome is unknown to the client, a rollback that fails, and isolation between concurrent transactions. AddAmount and UpdateBlock act on maps as named; the SQL is not part of this model.
- Payouts.Payout: a transfer that the wallet made although its reply was an error counts as not successful; fees taken from the receivers are the wallet's business.
- Pplns.CalculateRewards: the table does not change while it is read and keeps one order among shares of the same time; deleting shares beyond the cut-off is not modelled.
- The Solo scheme and payouts of other coin families.
- ShareRecovery.RecoverShares: starts from classified lines (skipped, share, unparsable); trimming, JSON, the success counter, the retry policy and the writing of the recovery file are left out.
- StratumFraming.Client.ProcessReceivePipe: characters stand for bytes, a refused request and a header that does not parse are parameters, and the pipe hands out chunks as they come.
