# NoelKDF / TigerKDF memory-hard hashing, modelled in Dafny

This project models the memory-filling core of NoelKDF and its successor TigerKDF. These are password-hashing
functions: they expand a keyed hash of the password into a large memory, fill it block by block, and fold the
memory back into the hash. The model covers the following.

* **Reference engine** (`noelkdf-ref.c`):
  * the parameter check;
  * the bit reversal that addresses the independent pass;
  * the multiply-add block mixer `value = value * (prev | 3) + from` modulo 2^32;
  * the independent pass (`hashWithoutPassword`) and the dependent pass (`hashWithPassword`), with its cubic
    distance;
  * `xorIntoHash`;
  * the garlic loop that doubles memory from level to level;
  * the Simple, HashPassword, UpdatePasswordHash and PHS entry points.
* **pthread engine** (`noelkdf-pthread.c`): the tighter parameter check, and a repetitions loop around both
  passes.
* **pthreads engine** (`noelkdf-pthreads.c`):
  * the multiply-with-carry `fastRand`;
  * one pass per thread, which meets the other threads half-way;
  * the wrap-around byte scatter of `xorIntoHash`;
  * sizing, the derived salt and `clear_in`.
* **TigerKDF SSE engine** (`tigerkdf-sse.c`): byte-level `xorIntoHash`, the addressing of both passes, sizing
  pre-shifted by `startGarlic`, and the rehash after each level. The SSE arithmetic of `hashBlocks` is a
  parameter; which words it reads and stores is modelled, with the loop bound as written and corrected.
* **TigerKDF wrappers** (`tigerkdf-common.c`): the stricter parameter check, the aliasing-safe `H`, and the
  Simple, Hash, Update, Client, Server and PHS entry points over an abstract raw KDF. Server relief
  (Server after Client equals HashPassword) is proved.
* **Command-line tool** (`main.c`): the hex codec and its parameter checks.
* **Pebbling experiments**: the predecessor rules in `pebble/main.c` and `predict/main.c`.
* **Constant multiplication** (`constmult/constmult.c`): the table search for add/subtract chains.

The keyed hash H (PBKDF2-HMAC-SHA-256 with one iteration, section 5.2 of RFC 8018) is a parameter
`h: KeyedHash`. Model threads run one after another in thread order.

## Modules and files

| file | module | role |
|---|---|---|
| `words.dfy` | `Words` | 32-bit words and bytes, big-endian codec, wrapping add, XOR, keyed hash type |
| `bitrev.dfy` | `BitReversal` | `Log2`, bit reversal of the low k bits, the `bitReverse` loop |
| `addressing.dfy` | `Addressing` | independent and dependent source blocks |
| `mixing.dfy` | `Mixing` | the multiply-add block mixer `hashBlocks` |
| `passes.dfy` | `Passes` | the two passes and `xorIntoHash` of the reference engine, on values |
| `ref.dfy` | `NoelKdfRef` | the reference engine in place and its entry points |
| `pthread.dfy` | `NoelKdfPthread` | the pthread variant |
| `pthreads.dfy` | `NoelKdfPthreads` | the pthreads variant |
| `sse.dfy` | `TigerKdfSse` | the TigerKDF SSE engine |
| `common.dfy` | `TigerKdfCommon` | the TigerKDF entry points |
| `cli.dfy` | `HexCli` | the command-line hex codec and checks |
| `pebble.dfy` | `Pebble` | logarithmic-chain and safe-dating predecessors |
| `predict.dfy` | `Predict` | graph-type names, sliding window and Catena-3 predecessors |
| `constmult.dfy` | `ConstMult` | the constant-multiplication node table |

Three engines come in two versions where the code as written loses something its design evidently
intends: a key placement, a join value or a hash pointer. The choice is a parameter:
`KeyPlacement` (`AtWordZero` as written, `AtSegmentStart` corrected), `Variant` (`AsWritten(stale)`,
`Corrected`) or `keep` (false as written). Everything about the code as written is proved for the as-written
choice. Corrected behaviour is proved separately (see Findings).

## Model

| member | source | states |
|---|---|---|
| Words.Be32Enc | noelkdf-ref.c:130-131 | a word encodes as exactly four bytes, high byte first |
| Words.DecodeEncode | noelkdf-ref.c:129-133 | decoding the four big-endian bytes of a word gives the word back |
| Words.EncodeDecode | noelkdf-ref.c:129-133 | encoding the word that four bytes decode to gives the bytes back |
| Words.Be32EncVect | noelkdf-ref.c:114 | a word vector encodes to four bytes per word |
| Words.Be32EncVectWords | noelkdf-ref.c:114 | bytes 4k .. 4k+3 of the encoding are the big-endian encoding of word k |
| Words.Be32DecVect | noelkdf-ref.c:91 | a byte string of whole words decodes to one word per four bytes |
| Words.Be32DecVectWords | noelkdf-ref.c:91 | word k of the decoding is the decoding of bytes 4k .. 4k+3 |
| Words.VectDecodeEncode | noelkdf-ref.c:89-91 | decoding the encoding of a word vector gives it back |
| Words.VectEncodeDecode | noelkdf-ref.c:114 | encoding the decoding of whole-word bytes gives them back |
| Words.HashInto | noelkdf-ref.c:41-44 | H writes exactly hashSize bytes of h(password, salt) into the hash buffer |
| Words.Be32DecInto | noelkdf-ref.c:133 | be32dec_vect into memory writes the decoded words at the given offset and nothing else |
| Words.Be32EncInto | noelkdf-ref.c:114 | be32enc_vect fills the byte buffer with the encoding of the words |
| Words.Add32 | noelkdf-ref.c:106 | uint32 addition is the sum modulo 2^32 |
| Words.XorBits | noelkdf-ref.c:200 | the XOR of the low n bits is below 2^n |
| Words.XorBitsTwice | noelkdf-ref.c:200 | XOR-ing the same value in twice restores the low n bits |
| Words.Xor32Twice | noelkdf-ref.c:200 | XOR-ing a word into a word twice restores it |
| Words.Xor8Twice | tigerkdf-sse.c:39 | XOR-ing a byte into a byte twice restores it |
| Words.ShiftRoundTrip | noelkdf-ref.c:33-34 | a 64-bit shift left by s survives the shift back exactly when x * 2^s < 2^64 |
| Words.ScaleRoundTrip | noelkdf-ref.c:33-34 | (x*P mod Q*P)/P is x exactly when x*P < Q*P |
| BitReversal.Log2 | noelkdf-ref.c:139-141 | 2^k <= m < 2^(k+1) |
| BitReversal.Reversed | noelkdf-ref.c:206-214 | the reversal of the low k bits is below 2^k |
| BitReversal.ReversedBit | noelkdf-ref.c:206-214 | bit j of the reversal is bit k-1-j of the value |
| BitReversal.ReversedTwice | noelkdf-ref.c:206-214 | reversing the low k bits twice gives the low k bits back |
| BitReversal.BitReverse | noelkdf-ref.c:206-214 | bitReverse(value, mask) reverses the low log2(mask) bits; the result is below mask, and 0 when mask is 1 |
| Addressing.IndependentSource | noelkdf-ref.c:139-145 | the independent source of block i >= 1 is an earlier block |
| Addressing.IndependentSourceHalves | noelkdf-ref.c:142-145 | the source is the reversed position, moved up by mask when that still lies below i |
| Addressing.MaskAfterTopBit | noelkdf-ref.c:139-141 | after block i the mask is the largest power of two at most i |
| Addressing.NextIndependentSource | noelkdf-ref.c:139-145 | one step of the loop gives the next mask (1 <= mask <= i) and a source position below i |
| Addressing.Scale | noelkdf-ref.c:160-162 | x * y >> 32 is at most x, and below x when x > 0 |
| Addressing.Distance | noelkdf-ref.c:160-163 | the cubic distance is at most i + numblocks - 2 |
| Addressing.DependentSource | noelkdf-ref.c:165-171 | distance < i: a block of the thread's own dependent segment below i; otherwise block numblocks-1-(distance-i) of thread (p+i) % par's independent segment |
| Mixing.Or3 | noelkdf-ref.c:185 | prev \| 3 is 3 modulo 4 and keeps the other bits |
| Mixing.PassRecurrence | noelkdf-ref.c:184-186 | word j of a pass is value * (prev[j] \| 3) + from[j] modulo 2^32, value being word j-1 |
| Mixing.FinalIsLastWord | noelkdf-ref.c:184-186 | the value after a pass is the last word it wrote |
| Mixing.ValueIsLastWord | noelkdf-ref.c:182-189 | the value after every repetition is the last word written |
| Mixing.MixBlocksFrame | noelkdf-ref.c:178-190 | hashBlocks changes only the blocklen words at toAddr |
| Mixing.MixBlocksRecurrence | noelkdf-ref.c:182-188 | the words left are those of the last repetition, each given by the recurrence |
| Mixing.MixBlocksValue | noelkdf-ref.c:189 | the returned value is the last word written |
| Mixing.HashBlocks | noelkdf-ref.c:178-190 | the loops in place compute MixBlocks of the old memory and value |
| Passes.Seed | noelkdf-ref.c:126-133 | the thread key is blocklen words whose encoding is H(encoded wordHash, be32(p), 4*blocklen) |
| Passes.IndependentPass | noelkdf-ref.c:123-150 | the independent pass keeps the memory length |
| Passes.IndependentPassFrame | noelkdf-ref.c:133-149 | it writes only the thread key and blocks 1 .. numblocks-1 of thread p's independent segment |
| Passes.IndependentPassKeepsKey | noelkdf-ref.c:133 | with the key at the segment start (or for thread 0) the first block of the segment is the thread key |
| Passes.IndependentPassKeyWord | noelkdf-ref.c:106 | the word the garlic loop reads after pass p is the key's last word when the key sits at the segment start (see also noelkdf-ref.c line 133) |
| Passes.AtZeroLeavesFirstBlock | noelkdf-ref.c:133 | as written, for p >= 1 the first block of p's segment keeps what memory held; block 1 still reads it (see also noelkdf-ref.c lines 136-149) |
| Passes.DepFrom | noelkdf-ref.c:165-171 | fromAddr is DependentSource * blocklen |
| Passes.DependentFromAddr | noelkdf-ref.c:160-171 | the code's distance and fromAddr are Distance and DepFrom |
| Passes.DependentSourceInLevel | noelkdf-ref.c:165-171 | the source block lies inside the level's 2 * par * numblocks blocks |
| Passes.DependentSourceElsewhere | noelkdf-ref.c:165-172 | the source block is never the block being filled |
| Passes.DepAll | noelkdf-ref.c:108-110 | the dependent passes of all threads keep the memory length (see also noelkdf-ref.c lines 153-175) |
| Passes.XorAll | noelkdf-ref.c:193-203 | the hash after XOR-ing in the last hashlen words of every dependent segment keeps its length |
| Passes.XorBlockInto | noelkdf-ref.c:199-201 | one thread's words XOR-ed into wordHash |
| Passes.XorIntoHash | noelkdf-ref.c:193-203 | xorIntoHash leaves wordHash == XorAll of the old one and mem unchanged |
| NoelKdfRef.VerifyParameters | noelkdf-ref.c:22-38 | accepts exactly: hash 4..1024 in whole words, password/salt 1..1024, data <= 1024, block 4..2^30 in whole words, memSize 1..2^30, blockSize * par <= memSize << 18, garlic ordered <= 30, 1..2^20 threads, 1..2^30 repetitions, memSize << (20 + stopGarlic) below 2^64 |
| NoelKdfRef.NumBlocks | noelkdf-ref.c:92-95 | 2 * par * numblocks * blocklen words fit in memSize MiB |
| NoelKdfRef.NumBlocksAtLeastTwo | noelkdf-ref.c:92-95 | when blockSize * par <= memSize << 18 every segment has at least two blocks (see also noelkdf-ref.c line 29) |
| NoelKdfRef.HashIndependentBlock | noelkdf-ref.c:139-148 | one loop step: next mask and IndepStep of memory and value |
| NoelKdfRef.WriteThreadKey | noelkdf-ref.c:127-133 | the key words written at the given offset, nothing else |
| NoelKdfRef.FillIndependentBlocks | noelkdf-ref.c:134-149 | the loop computes IndepFill |
| NoelKdfRef.HashWithoutPassword | noelkdf-ref.c:123-150 | the pass in place computes IndependentPass |
| NoelKdfRef.HashDependentBlock | noelkdf-ref.c:160-173 | one loop step computes DepStep |
| NoelKdfRef.HashWithPassword | noelkdf-ref.c:153-175 | the pass in place computes DepFill |
| NoelKdfRef.KeyReads | noelkdf-ref.c:104-107 | the words the garlic loop sums, one per thread |
| NoelKdfRef.KeyWords | noelkdf-ref.c:126-133 | the last word of each thread key, one per thread |
| NoelKdfRef.CorrectedReadsKeys | noelkdf-ref.c:104-107 | with keys at their segments the summed words are the key words: they depend on the hash only |
| NoelKdfRef.FirstReadIsKeyWord | noelkdf-ref.c:106 | the first word summed is thread 0's key word in both placements (see also noelkdf-ref.c line 133) |
| NoelKdfRef.AsWrittenReadsMemory | noelkdf-ref.c:106 | as written, the word summed for thread q >= 1 is what memory held before the level (see also noelkdf-ref.c line 133) |
| NoelKdfRef.IndepAllKeeps | noelkdf-ref.c:104-107 | passes that do not write word k leave it alone |
| NoelKdfRef.IndependentPasses | noelkdf-ref.c:102-107 | the thread loop computes all independent passes and value == the wrapping sum of KeyReads |
| NoelKdfRef.IndependentPassAndKey | noelkdf-ref.c:105-106 | one iteration: the pass, then value plus the last word of the segment's first block |
| NoelKdfRef.DependentPasses | noelkdf-ref.c:108-110 | the thread loop computes DepAll |
| NoelKdfRef.Level | noelkdf-ref.c:102-111 | one garlic level keeps memory and hash lengths |
| NoelKdfRef.GarlicNext | noelkdf-ref.c:101-113 | level n+1 is one Level with numblocks doubled n times |
| NoelKdfRef.RunLevel | noelkdf-ref.c:102-111 | the loop body computes Level |
| NoelKdfRef.EngineLevelsFit | noelkdf-ref.c:92-96 | with the engine's parameters every level from startGarlic to stopGarlic fits the allocation (see also noelkdf-ref.c line 112) |
| NoelKdfRef.LevelsFitBelow | noelkdf-ref.c:94-96 | the doubled block counts of the first n levels fit the allocation (see also noelkdf-ref.c line 112) |
| NoelKdfRef.GarlicStep | noelkdf-ref.c:101-113 | one iteration of the garlic loop advances by one level |
| NoelKdfRef.RunGarlic | noelkdf-ref.c:101-113 | the loop runs levels startGarlic .. stopGarlic inclusive |
| NoelKdfRef.NoelKdfHash | noelkdf-ref.c:87-120 | the hash the engine computes keeps its length |
| NoelKdfRef.NoelKdf | noelkdf-ref.c:87-120 | ok exactly when malloc succeeds; on failure the hash is untouched; on success it is NoelKdfHash |
| NoelKdfRef.AcceptedRunEngine | noelkdf-ref.c:22-38 | accepted parameters that fit give the engine's parameters (see also noelkdf-ref.c lines 92-96) |
| NoelKdfRef.VerifyAcceptsHashBeyondSegment | noelkdf-ref.c:197 | verifyParameters accepts a 1024-byte hash whose segments are only 4 words long |
| NoelKdfRef.SimpleHashPassword | noelkdf-ref.c:47-54 | ok iff verifyParameters passes and malloc succeeds; refused: hash untouched; else H(password, salt), then NoelKDF with keys at word 0 as written |
| NoelKdfRef.HashPassword | noelkdf-ref.c:57-73 | ok iff verifyParameters passes and malloc succeeds; refused: hash untouched; H with or without derived salt, then NoelKDF (keys at word 0) from garlic 0 |
| NoelKdfRef.HashPasswordAnyLength | noelkdf-ref.c:57-73 | the same for any password length below 2^32 |
| NoelKdfRef.DeriveSaltAsWritten | noelkdf-ref.c:64-67 | the derived salt is saltSize bytes of H(data, salt) |
| NoelKdfRef.DerivedSaltOverflows | noelkdf-ref.c:65-66 | verifyParameters accepts an 8-byte salt with a 4-byte hash, so saltSize bytes go into a 4-byte buffer |
| NoelKdfRef.UpdatePasswordHash | noelkdf-ref.c:76-84 | ok iff verifyParameters with sizes 16 passes and malloc succeeds; then NoelKDF from oldGarlic to newGarlic |
| NoelKdfRef.Phs | noelkdf-ref.c:218-222 | 0 iff verifyParameters passes and malloc succeeds, then the whole password hashed |
| NoelKdfRef.PhsAsWritten | noelkdf-ref.c:218-222 | as written inlen arrives modulo 256: only that many password bytes are hashed (see also noelkdf-ref.c line 57) |
| NoelKdfRef.PhsRefusesLongPassword | noelkdf-ref.c:218-222 | a 256-byte password is refused (see also noelkdf-ref.c line 57) |
| NoelKdfRef.PhsIgnoresPasswordTail | noelkdf-ref.c:218-222 | 300-byte passwords sharing their first 44 bytes hash alike (see also noelkdf-ref.c line 57) |
| NoelKdfPthread.VerifyParameters | noelkdf-pthread.c:31-47 | accepts exactly the reference ranges with 256-byte bounds and salt >= 4 |
| NoelKdfPthread.TighterThanReference | noelkdf-pthread.c:31-47 | everything it accepts the reference check accepts |
| NoelKdfPthread.RefusesShortSalt | noelkdf-pthread.c:35 | a 3-byte salt is refused |
| NoelKdfPthread.NumBlocksAsWritten | noelkdf-pthread.c:101-103 | numblocks from the 32-bit memlen |
| NoelKdfPthread.Memlen | noelkdf-pthread.c:101 | (1 << 20) * memSize / 4 computed in 32 bits |
| NoelKdfPthread.MemlenWraps | noelkdf-pthread.c:101-105 | at 4096 MiB, which verifyParameters accepts, the 32-bit memlen gives 0 blocks against 2^19 unbounded |
| NoelKdfPthread.SecondLevelOverruns | noelkdf-pthread.c:104-105 | after doubling, the second level does not fit the first level's allocation (see also noelkdf-pthread.c line 158) |
| NoelKdfPthread.JoinReads | noelkdf-pthread.c:141-144 | the words summed after the join, one per thread |
| NoelKdfPthread.Round | noelkdf-pthread.c:123-156 | one repetition keeps memory and hash lengths |
| NoelKdfPthread.LaterPassesKeepKeyWord | noelkdf-pthread.c:123-140 | passes of later threads do not touch an earlier thread's key word |
| NoelKdfPthread.CorrectedJoinReadsKeys | noelkdf-pthread.c:141-144 | with keys at their segments the join sums the key words |
| NoelKdfPthread.CorrectedRoundIsReference | noelkdf-pthread.c:123-156 | corrected, one repetition is the reference level with repetitions 1 |
| NoelKdfPthread.AtZeroLastKeyWord | noelkdf-pthread.c:187 | as written, in the modelled thread order, word blocklen-1 holds the last thread's key word after the passes |
| NoelKdfPthread.AsWrittenJoinFirst | noelkdf-pthread.c:141-144 | as written, in the modelled thread order, the first word summed is the last thread's key word (see also noelkdf-pthread.c line 187) |
| NoelKdfPthread.AsWrittenJoinStale | noelkdf-pthread.c:141-144 | as written every other word summed is stale memory (see also noelkdf-pthread.c line 187) |
| NoelKdfPthread.IndependentWorkers | noelkdf-pthread.c:123-140 | the workers in thread order compute all independent passes |
| NoelKdfPthread.JoinedValue | noelkdf-pthread.c:141-144 | value is the wrapping sum of JoinReads; nothing changes |
| NoelKdfPthread.RunOnce | noelkdf-pthread.c:123-156 | one repetition in place computes Round |
| NoelKdfPthread.GarlicNext | noelkdf-pthread.c:119-159 | level n+1 is `repetitions` rounds with numblocks doubled n times |
| NoelKdfPthread.RepeatedOnce | noelkdf-pthread.c:121-157 | one more repetition is one more Round |
| NoelKdfPthread.OneRepetitionIsReference | noelkdf-pthread.c:119-159 | corrected, with one repetition the engine computes what the reference engine computes |
| NoelKdfPthread.RunRepetitions | noelkdf-pthread.c:121-157 | the repetitions loop, numblocks fixed |
| NoelKdfPthread.GarlicStep | noelkdf-pthread.c:119-159 | one iteration of the garlic loop advances by one level |
| NoelKdfPthread.RunGarlic | noelkdf-pthread.c:119-159 | levels startGarlic .. stopGarlic, numblocks doubling after all repetitions |
| NoelKdfPthread.AsWrittenHash | noelkdf-pthread.c:96-166 | the as-written hash keeps its length |
| NoelKdfPthread.CorrectedHash | noelkdf-pthread.c:96-166 | the corrected hash keeps its length |
| NoelKdfPthread.NoelKdf | noelkdf-pthread.c:96-166 | ok iff malloc and every pthread_create succeed; hash untouched on failure; else AsWrittenHash |
| NoelKdfPthread.NoelKdfCorrected | noelkdf-pthread.c:96-166 | the same with memory for the last level and keys at their segments |
| NoelKdfPthreads.MwcIsMultiplication | noelkdf-pthreads.c:30-32 | a multiply-with-carry step is multiplication by a modulo a * 2^16 - 1 |
| NoelKdfPthreads.FastRand | noelkdf-pthreads.c:30-34 | z and w advance with multipliers 36969 and 18000; the result is (z << 16) + w modulo 2^32 |
| NoelKdfPthreads.SourceBlock | noelkdf-pthreads.c:78-81 | the source block is at most i-1, and at least 1 when i >= 2 |
| NoelKdfPthreads.SourceBlockNoWrap | noelkdf-pthreads.c:78-80 | the 64-bit products never wrap |
| NoelKdfPthreads.ThreadKey | noelkdf-pthreads.c:56-60 | blockLength words whose encoding is PBKDF2(key, be32(id)) |
| NoelKdfPthreads.Meet | noelkdf-pthreads.c:70 | the meeting block is numBlocks >> 1 (1 for one block) |
| NoelKdfPthreads.HashMem | noelkdf-pthreads.c:52-89 | all threads of one repetition keep the memory length |
| NoelKdfPthreads.FirstPhase | noelkdf-pthreads.c:55-72 | the threads up to the meeting point in place compute FirstHalves (see also noelkdf-pthreads.c lines 175-184) |
| NoelKdfPthreads.SecondPhase | noelkdf-pthreads.c:70-87 | from the meeting point on they compute SecondHalves |
| NoelKdfPthreads.FirstHalvesKeys | noelkdf-pthreads.c:59-60 | block 0 of every thread's run holds its thread key (see also noelkdf-pthreads.c line 177) |
| NoelKdfPthreads.SecondHalvesKeepKey | noelkdf-pthreads.c:68-87 | the second halves leave block 0 of each run alone |
| NoelKdfPthreads.ByteStepsEncode | noelkdf-pthreads.c:103-109 | after k byte steps the first k big-endian bytes are XOR-ed in, and value holds the rest followed by zero bytes |
| NoelKdfPthreads.ScatterWord | noelkdf-pthreads.c:103-109 | the inner loop XORs the word in high byte first, wrapping hashPos, and leaves value 0 |
| NoelKdfPthreads.XorIntoHash | noelkdf-pthreads.c:94-111 | the loop in place computes XorRun over par * 100 steps; only the hash changes |
| NoelKdfPthreads.AsWrittenValueLost | noelkdf-pthreads.c:101-108 | as written value is UINT32_MAX before the first step and 0 after every step (see also noelkdf-pthreads.c line 96) |
| NoelKdfPthreads.AsWrittenReadsTwoWords | noelkdf-pthreads.c:101 | as written only mem[0] and mem[UINT32_MAX % memLength] are read |
| NoelKdfPthreads.CorrectedReadsFurther | noelkdf-pthreads.c:101 | with value kept, memories agreeing on those two words can give different hashes |
| NoelKdfPthreads.XorRunKeepsDifference | noelkdf-pthreads.c:94-111 | xorIntoHash never reads the hash: two hashes keep their XOR difference |
| NoelKdfPthreads.CorrectedThreadKeys | noelkdf-pthreads.c:59 | corrected, block 0 of every run holds H(output, u) (see also noelkdf-pthreads.c lines 176-183) |
| NoelKdfPthreads.AsWrittenRepetitionKeepsDifference | noelkdf-pthreads.c:59 | as written a repetition does not read the output, so two outputs keep their difference (see also noelkdf-pthreads.c lines 176-196) |
| NoelKdfPthreads.AsWrittenLevelsKeepDifference | noelkdf-pthreads.c:164-201 | the same across all levels |
| NoelKdfPthreads.RepeatedIsRepetition | noelkdf-pthreads.c:166-197 | repetition j of level i is one Repetition on what came before |
| NoelKdfPthreads.RunRepetition | noelkdf-pthreads.c:166-197 | one repetition in place: the two phases, then xorIntoHash |
| NoelKdfPthreads.RunLevel | noelkdf-pthreads.c:166-197 | repeat_count repetitions of a level |
| NoelKdfPthreads.RunLevels | noelkdf-pthreads.c:164-201 | t_cost + 1 levels, numBlocks doubling after each |
| NoelKdfPthreads.FirstBlocksCover | noelkdf-pthreads.c:131 | when nothing wraps, numBlocks - 1 blocks per thread fall short of m_cost MiB and numBlocks do not |
| NoelKdfPthreads.MemLength | noelkdf-pthreads.c:132 | memLength is exactly the last level's runs when those stay below 2^32 words |
| NoelKdfPthreads.LastRunsEnd | noelkdf-pthreads.c:132 | the last level's runs end at numBlocks * blockLength * par * 2^t_cost (see also noelkdf-pthreads.c line 200) |
| NoelKdfPthreads.DerivedSalt | noelkdf-pthreads.c:144-150 | the derived salt has the salt's length, and is the salt without data |
| NoelKdfPthreads.Hash | noelkdf-pthreads.c:124-213 | the output keeps outlen bytes |
| NoelKdfPthreads.AsWrittenHashIsMasked | noelkdf-pthreads.c:59 | as written two passwords' outputs differ exactly as their first keyed hashes do (see also noelkdf-pthreads.c lines 151, 176-183) |
| NoelKdfPthreads.Clear | noelkdf-pthreads.c:155 | memset zeroes the buffer (see also noelkdf-pthreads.c line 157) |
| NoelKdfPthreads.NoelKdf | noelkdf-pthreads.c:124-213 | returns 1 only when a thread fails to start and 0 otherwise; nothing written on allocation failure; clear_in zeroes in and data; out is Hash on success |
| NoelKdfPthreads.Phs | noelkdf-pthreads.c:217-220 | NoelKDF with 2048 repetitions, two threads, 4096-byte blocks, no data, input kept |
| TigerKdfSse.MixOut | tigerkdf-sse.c:85-97 | the mixer reads Swept(bound, blocklen) words of the block before toAddr and of the block at fromAddr, and gives eight state words and one word to store per word read |
| TigerKdfSse.MixAtFrame | tigerkdf-sse.c:74-102 | with slot-aligned blocks, hashBlocks changes no word outside the block at toAddr |
| TigerKdfSse.MixAtTail | tigerkdf-sse.c:85-96 | hashBlocks changes no word of any block at or past the first Swept(bound, blocklen) words of that block |
| TigerKdfSse.HashBlocks | tigerkdf-sse.c:74-102 | in place, memory and state become MixAt: the mixer's words stored from toAddr on, its state kept, nothing else changed |
| TigerKdfSse.StoredAtBlock | tigerkdf-sse.c:85-96 | with blocklen a multiple of 4 words, the words the loop stores for block j (from slot toAddr / 4 on) are exactly words j * blocklen .. j * blocklen + Sweep(blocklen), the words MixAt writes; both directions |
| TigerKdfSse.HalfBlockStored | tigerkdf-sse.c:85 | with blocklen a multiple of 16 words the loop as written stores exactly half of each block |
| TigerKdfSse.UnalignedBlocksMiss | tigerkdf-sse.c:85-96 | blocklen 4 stores nothing; blocklen 9 stores words 8 .. 15 for block 1, across the block boundary (see also tigerkdf-common.c line 18) |
| TigerKdfSse.CorrectedSweepCoversBlock | tigerkdf-sse.c:85 | with the bound blocklen / 4 and blocklen a multiple of 8 words, the loop stores the whole block |
| TigerKdfSse.ThreadKey | tigerkdf-sse.c:116-121 | blocklen words whose encoding is H(hash, be32(p)) |
| TigerKdfSse.WithoutPasswordKeepsKey | tigerkdf-sse.c:116-121 | the first block of thread p's own segment holds the thread key |
| TigerKdfSse.WithoutPasswordFrame | tigerkdf-sse.c:116-137 | the pass writes only thread p's independent segment |
| TigerKdfSse.HashIndependentBlock | tigerkdf-sse.c:126-136 | one loop step: next mask and IndependentStep |
| TigerKdfSse.IndependentStepAt | tigerkdf-sse.c:130-135 | the step mixes from block IndependentSource(i) < i of the segment |
| TigerKdfSse.HashWithoutPassword | tigerkdf-sse.c:105-139 | the pass in place computes WithoutPassword |
| TigerKdfSse.DependentFillFrame | tigerkdf-sse.c:152-171 | the dependent pass writes only thread p's dependent segment |
| TigerKdfSse.DependentFillTail | tigerkdf-sse.c:152-171 | the dependent pass changes no word at or past the swept prefix of any block |
| TigerKdfSse.LastBlockHoldsLastStore | tigerkdf-sse.c:166-170 | with a whole-block bound, after thread q's dependent pass its last block holds its last hashBlocks output |
| TigerKdfSse.DependentStepAt | tigerkdf-sse.c:157-169 | distance comes from state[0]; fromAddr is DepFrom: own earlier block or block in [0, nb-1] of thread (p+i) % par |
| TigerKdfSse.HashWithPassword | tigerkdf-sse.c:142-173 | the pass in place computes DependentFill |
| TigerKdfSse.XorIntoHash | tigerkdf-sse.c:30-42 | hash becomes XorLast: each thread's last hashSize/4 words, big-endian, XOR-ed in; mem unchanged |
| TigerKdfSse.XorLastNext | tigerkdf-sse.c:34-41 | thread p's contribution is the encoding of words pos .. pos + hashSize/4 |
| TigerKdfSse.XorLastAgreesAll | tigerkdf-sse.c:30-42 | two memories that agree on the last hashSize/4 words of every dependent segment give the same hash |
| TigerKdfSse.AllWithoutPasswordKeepsDependent | tigerkdf-sse.c:196-215 | the level's hashWithoutPassword calls leave every dependent segment as it was |
| TigerKdfSse.AllWithPasswordTail | tigerkdf-sse.c:216-225 | the level's hashWithPassword calls change no word at or past the swept prefix of any block |
| TigerKdfSse.LaterPassesKeepDependent | tigerkdf-sse.c:216-225 | the hashWithPassword calls of threads after q leave thread q's dependent segment as thread q left it |
| TigerKdfSse.UnsweptXorReadsOldMemory | tigerkdf-sse.c:196-226 | when hashSize/4 words plus the swept prefix fit in a block, a level's hash is the old hash XOR-ed with the words the previous level left, whatever the mixer computes |
| TigerKdfSse.AsWrittenLevelIgnoresMixing | tigerkdf-sse.c:85 | as written, with blocklen a multiple of 16 words and the hash at most half a block, a level's hash ignores the mixer (see also tigerkdf-sse.c lines 30-42) |
| TigerKdfSse.WholeBlockKeepsLastStore | tigerkdf-sse.c:216-226 | with a whole-block bound, after every hashWithPassword of the level the last block of each thread's dependent segment holds the thread's last hashBlocks output, which xorIntoHash reads |
| TigerKdfSse.RunLevel | tigerkdf-sse.c:197-226 | one level in place: all independent passes, all dependent passes, xorIntoHash |
| TigerKdfSse.NumBlocksAtLevel | tigerkdf-sse.c:180 | at level startGarlic + j numblocks is the base count shifted by startGarlic + j (see also tigerkdf-sse.c lines 196, 227) |
| TigerKdfSse.AllocationCoversLastLevel | tigerkdf-sse.c:181 | the allocation is exactly the last level's 2 * par segments |
| TigerKdfSse.Rehash | tigerkdf-sse.c:228-230 | H(hash, [garlic]) unless last with skipLastHash; length kept |
| TigerKdfSse.GarlicNext | tigerkdf-sse.c:196-231 | level n+1 is one Level with numblocks doubled n times, then H(hash, [startGarlic + n]) |
| TigerKdfSse.SkipLastHash | tigerkdf-sse.c:228-230 | the full hash is H of the skipLastHash hash salted with [stopGarlic] |
| TigerKdfSse.GarlicStep | tigerkdf-sse.c:196-231 | one iteration of the garlic loop advances by one level |
| TigerKdfSse.RunGarlic | tigerkdf-sse.c:196-231 | the loop computes Finish |
| TigerKdfSse.TigerKdf | tigerkdf-sse.c:176-235 | ok exactly when allocation succeeds; hash untouched on failure, else TigerKdfHash |
| TigerKdfCommon.TotalSizeFits | tigerkdf-common.c:23-26 | accepts exactly when memSize << (20 + stopGarlic) is at most 2^50 and holds at most 2^30 blocks |
| TigerKdfCommon.VerifyParameters | tigerkdf-common.c:12-28 | accepts exactly: hash 12..1024 in whole words, block between hash size and 2^30 in whole words, four blocks per thread, the other reference ranges, TotalSizeFits |
| TigerKdfCommon.FourBlockCheckExact | tigerkdf-common.c:19 | the 64-bit products of the four-block test never wrap |
| TigerKdfCommon.AcceptedThreadsFit | tigerkdf-common.c:19 | accepted parameters leave each thread four blocks |
| TigerKdfCommon.InitialHash | tigerkdf-common.c:56-62 | with data H(password, H(data, salt, hashSize)); else H(password, salt) |
| TigerKdfCommon.PasswordHash | tigerkdf-common.c:49-64 | refused: failure and the hash as it was (see also tigerkdf-common.c lines 78-93) |
| TigerKdfCommon.ServerReliefMatches | tigerkdf-common.c:78-98 | for a raw KDF that rehashes last, Server after Client is HashPassword |
| TigerKdfCommon.SimpleHashPassword | tigerkdf-common.c:39-46 | refused: hash untouched; else the raw KDF over H(password, salt) |
| TigerKdfCommon.DerivePassword | tigerkdf-common.c:52-63 | the shared body computes PasswordHash |
| TigerKdfCommon.HashPassword | tigerkdf-common.c:49-64 | refused: hash untouched; else PasswordHash with skipLastHash false |
| TigerKdfCommon.ClientHashPassword | tigerkdf-common.c:78-93 | refused: hash untouched; else PasswordHash with skipLastHash true |
| TigerKdfCommon.ServerHash | tigerkdf-common.c:96-98 | the server hash keeps the length |
| TigerKdfCommon.ServerHashPassword | tigerkdf-common.c:31-36 | H(hash, hash, [garlic]) reads the hash passed in although it writes the same buffer (see also tigerkdf-common.c lines 96-98) |
| TigerKdfCommon.UpdatePasswordHash | tigerkdf-common.c:67-75 | refused: hash untouched; else the raw KDF from oldGarlic to newGarlic |
| TigerKdfCommon.UpdateChecksMemoryOnly | tigerkdf-common.c:69-72 | the sizes 16 never cause a refusal the other entry points would not make |
| TigerKdfCommon.Phs | tigerkdf-common.c:102-106 | status 0 iff HashPassword succeeds on the first inlen % 256 bytes; refused: out untouched |
| TigerKdfCommon.PhsRefusesLongPassword | tigerkdf-common.c:49 | a 256-byte password is refused (see also tigerkdf-common.c line 104) |
| TigerKdfCommon.SseRehashesLast | tigerkdf-common.c:92 | TigerKDF with skipLastHash stops just before its final H(hash, [stopGarlic]) (see also tigerkdf-sse.c:228-230) |
| TigerKdfCommon.SseServerRelief | tigerkdf-common.c:78-98 | over TigerKDF, Server after Client is HashPassword |
| TigerKdfCommon.KiBMemoryTooSmall | tigerkdf-common.c:38 | verifyParameters accepts 1 MiB, but TigerKDF reads KiB and gets no block per segment (see also tigerkdf-sse.c:175-178) |
| TigerKdfCommon.MiBMemoryFits | tigerkdf-common.c:19 | passed in KiB, accepted memSize MiB gives every segment at least two blocks (see also tigerkdf-sse.c:178-180) |
| HexCli.DigitValue | main.c:47-64 | a digit of either case has a value below 16; anything else has none |
| HexCli.FindHexDigit | main.c:86-93 | 0-9 map to '0'-'9', 10-15 to 'A'-'F', and decode back to themselves |
| HexCli.DigitOfValue | main.c:47 | a digit of either case is the upper-case digit of its value (see also main.c lines 86-93) |
| HexCli.ReadHexByte | main.c:46-67 | true exactly for two hex digits, dest[at] = hi * 16 + lo; false leaves dest alone |
| HexCli.HexEncode | main.c:95-105 | two characters per byte |
| HexCli.PrintHex | main.c:95-105 | the characters printHex writes are HexEncode |
| HexCli.DecodedPrefix | main.c:80-82 | at most half the text is decoded |
| HexCli.DecodedPrefixPairs | main.c:80-82 | each decoded byte is its pair's value; decoding stops only at a non-hex pair |
| HexCli.DecodeEncode | main.c:46-67 | decoding what printHex writes gives the bytes back (see also main.c lines 95-105) |
| HexCli.ReadHexSalt | main.c:69-84 | refused exactly for odd length; else |text|/2 bytes filled pair by pair up to the first bad pair |
| HexCli.OddPartOfPowerOfTwo | main.c:159-164 | an odd number times 2^s is a power of two only when it is 1 |
| HexCli.VerifyParameters | main.c:129-165 | accepts exactly the listed bounds and a page size that is a power of two |
| Pebble.TrailingOnesBound | pebble/main.c:29-32 | n trailing one-bits mean v >= 2^n - 1 |
| Pebble.ChainDistance | pebble/main.c:27-32 | for odd pos with n trailing one-bits dist = 2^(n+1) |
| Pebble.LogChainPrevBelow | pebble/main.c:33-36 | for odd pos the predecessor is below pos, and odd when not 0 |
| Pebble.FindPrevLogarithmicChainPos | pebble/main.c:26-37 | the loop computes LogChainPrev |
| Pebble.FindPrevLogarithmicChainPosAsWritten | pebble/main.c:26-37 | with dist a uint32 the result uses dist modulo 2^32 |
| Pebble.ChainDistanceWraps | pebble/main.c:27-35 | at 0x7FFFFFFF dist wraps to 0 and pos is its own predecessor |
| Pebble.ChainDistanceFits | pebble/main.c:27-32 | below 2^31 - 2 dist fits in 32 bits |
| Pebble.SafeDatingRow | pebble/main.c:45-52 | for even pos >= 2, x lies in a row k >= 1 with 2^k <= x < 2^(k+1) |
| Pebble.SafeDatingPrevBelow | pebble/main.c:44-60 | for even pos >= 2 the predecessor is even and at most pos - 2 |
| Pebble.RowOf | pebble/main.c:46-51 | the loop gives row = floor(log2 x) with 2^row <= x < 2^(row+1) |
| Pebble.FindPrevSafeDatingPos | pebble/main.c:44-60 | computes SafeDatingPrev; for even pos >= 2 an even value <= pos - 2 |
| Pebble.SafeDatingWraps | pebble/main.c:52-59 | at 0xFFFFFFFE 3 * r wraps and the position is its own predecessor |
| Pebble.SafeDatingAgrees | pebble/main.c:44-60 | below 0xFFFFFFFE the code agrees with the unbounded rule |
| Pebble.FindPrevPos | pebble/main.c:63-70 | odd positions follow the chain rule, even ones the tree rule |
| Predict.ParseType | predict/main.c:27-55 | parseType accepts exactly the four names peTypeGetName gives, each for its own type |
| Predict.Window | predict/main.c:63-67 | the window is the largest power of two below pos |
| Predict.SlidingWindowPrev | predict/main.c:58-69 | for pos >= 2 and any random value the result is in [1, pos-1], at most the window back |
| Predict.FindSlidingWindowPos | predict/main.c:58-69 | the loop computes SlidingWindowPrev |
| Predict.Catena3PrevRange | predict/main.c:106-114 | outside row 0 the predecessor lies in the previous row |
| Predict.Catena3PrevInjective | predict/main.c:92-114 | two nodes of a row share a predecessor only if they are the same node |
| Predict.FindCatena3Pos | predict/main.c:92-114 | the loops compute Catena3Prev, in [(row-1)*512, row*512) |
| ConstMult.CreateNode | constmult/constmult.c:18-38 | a fresh node at nodes[value]; cost 0 with no predecessor, the big one's for a shift, max + 1 for a sum |
| ConstMult.AddPowersOfTwo | constmult/constmult.c:41-49 | every shift below 2 * target gets a node if its slot was empty, at prevNode's cost; filled slots kept |
| ConstMult.ShiftsCovered | constmult/constmult.c:43-47 | once a shift of b is filled, every shift of b below twice it is |
| ConstMult.CreateWithShifts | constmult/constmult.c:66-76 | a sum or difference node of cost k + 1 and its shifts keep the round's invariant |
| ConstMult.AddOneAdderOrSubtractor | constmult/constmult.c:51-81 | every node added costs k + 1, none is overwritten, indices stay below 2 * target; and every sum below 2 * target and every difference of a node of cost exactly k with a smaller node of cost at most k now has a node (Combined) |
| ConstMult.Search | constmult/constmult.c:119-128 | a correct table where powers of two cost nothing and no node costs more than the rounds run; a target found has a cost equal to the number of rounds run |

## Left out

- H, that is PBKDF2-HMAC-SHA-256 and sha256.h, is a parameter `h`. Nothing about SHA-256 itself is modelled.
- Threads, pthread_create/join, and the mutex/condition-variable barrier (`findHalfWayCombineThreadValue`)
  are left out. Workers run one after another in thread order, and the barrier's result is the wrapping sum
  of the threads' values. Interleavings are not modelled.
- The SSE arithmetic of `hashBlocks` (tigerkdf-sse.c:74-102), the add, XOR and rotate on 128-bit lanes, is the
  `lanes` parameter of `BlockMixer`. The words it reads and stores follow the loop bound. The state conversions
  and `printState` are not modelled.
- `dumpMemory`, `usage`, `readUint32`, `readArguments`, the `main` functions and all printf output are left
  out. `printNodePath`/`printNodePathRec` are left out too: they print only.
- malloc is an `allocOk` flag plus `junk`, the contents malloc leaves. free and `return_memory`/`mem_ptr`
  are not modelled.
- The floating-point predecessors `findRandCubedPos` and `findRandPos`, the penalty output, pebble's DAG
  drivers and pebble/pedatabase.c are left out. The fasthash, memorycpy and parahash benchmarks and
  noelkdf.py are left out as well.
- The pthread wrappers NoelKDF_SimpleHashPassword, NoelKDF_HashPassword, NoelKDF_UpdatePasswordHash and PHS
  (noelkdf-pthread.c:56-93, 275-279) are the reference wrappers with the tighter check. They are not
  modelled again.
- That updating a hash equals hashing directly at the new garlic is not proved. Neither engine shifts
  numblocks by startGarlic, and both re-run the start level.
- NoelKdfRef.NoelKdf: requires `EngineParameters`, which is `verifyParameters` plus the hash fitting in a
  segment and all words below 2^32. `hashBlocks` takes uint32 addresses, and a hash longer than a segment
  reads before memory (see Findings).
- NoelKdfRef.SimpleHashPassword: requires `VerifyParameters ==> EngineFits`, for the same reason.
- NoelKdfRef.HashPassword: requires `VerifyParameters ==> EngineFits`, for the same reason, and
  |password| < 256 because passwordSize is a uint8.
- NoelKdfRef.HashPasswordAnyLength: requires `VerifyParameters ==> EngineFits`.
- NoelKdfRef.UpdatePasswordHash: requires `VerifyParameters ==> EngineFits`.
- NoelKdfRef.Phs: requires `VerifyParameters ==> EngineFits`.
- NoelKdfRef.PhsAsWritten: requires `VerifyParameters ==> EngineFits`.
- NoelKdfRef.DeriveSaltAsWritten: requires saltSize <= hashSize. Beyond that the C writes past its buffer
  (see Findings).
- NoelKdfPthread.NoelKdf: requires `AsWrittenParameters`: startGarlic == stopGarlic and memSize < 4096.
  As written, the allocation covers only the first level and memlen wraps at 4096 MiB (see Findings).
- NoelKdfPthread.NoelKdfCorrected: requires the engine's parameters, as for the reference engine.
- NoelKdfPthreads.NoelKdf:
  - out must be distinct from in and data;
  - requires outlen >= 1. With outlen 0, xorIntoHash writes past out;
  - requires `Sized`: the last level fits its 64-bit memLength and par * blockLength < 2^32;
  - a pthread_create failure is modelled at the first launch only;
  - as written, thread t reads the `hash`/`hashlen` that malloc left in its context. That stale byte string
    is `stale(t)`, a parameter, the same in every repetition.
- NoelKdfPthreads.Phs: out must be distinct from in. It requires outlen >= 1, for the same reason as
  NoelKdfPthreads.NoelKdf, and `Sized` for two threads and 4096-byte blocks.
- NoelKdfPthreads.XorIntoHash: requires a non-empty hash and 1 <= memLength < 2^32 words. With memLength 0
  the C divides by zero.
- TigerKdfSse.TigerKdf:
  - requires `EngineParameters`: whole-word hash, at least one block per segment, the hash within a segment,
    no 32-bit overflow of the block counts, and stopGarlic below 255 (a uint8 loop variable never exceeds
    255);
  - requires blocklen to be a multiple of 4 words (blockSize a multiple of 16 bytes). tigerkdf-common.c:18
    accepts any whole-word blockSize, but then block addresses are not whole 128-bit slots and hashBlocks
    stores across block boundaries (UnalignedBlocksMiss);
  - requires repetitions >= 1. With 0 the loop of tigerkdf-sse.c:84 runs no round, so the state and the
    block at toAddr keep what they held. The block mixer always returns new words for that block, so this
    case is not modelled. tigerkdf-common.c:20 refuses 0 repetitions before TigerKDF runs;
  - a pthread_create failure is not modelled.
- TigerKdfSse.HashBlocks: modelled only for slot-aligned blocks: blocklen, toAddr and fromAddr multiples of 4 words.
  It also requires at least one repetition, for the reason given under TigerKdfSse.TigerKdf.
- TigerKdfSse.MixAtFrame: stated only for slot-aligned blocks, as TigerKdfSse.HashBlocks is.
- TigerKdfSse.WholeBlockKeepsLastStore: the bound blocklen / 4 is modelled as sweeping exactly the block, which holds
  when blocklen is a multiple of 8 words (CorrectedSweepCoversBlock). With blocklen 4 more than a multiple
  of 8, that loop would store 4 words past the block. That case is not modelled.
- TigerKdfCommon.HashPassword: requires |password| < 256, because passwordSize is a uint8.
- TigerKdfCommon.ClientHashPassword: requires |password| < 256, for the same reason.
- TigerKdfCommon.SseRaw reports parameters outside `TigerKdfSse.EngineParameters` as a failure. That includes
  the block sizes that are whole words but not multiples of 16 bytes, which tigerkdf-common.c:18 accepts, and
  zero repetitions, which tigerkdf-common.c:20 refuses as well.
- HexCli.VerifyParameters: requires memorySize < 2^64, the width of its uint64 parameter.
- HexCli.ReadHexSalt: a NULL result stands for the tool stopping with its usage message. Allocation failure
  is not modelled.
- Predict.FindSlidingWindowPos: requires pos <= 2^31. Above that the uint32 mask wraps to 0 and the C loop
  never ends. The `rand()` value is a parameter.
- ConstMult.AddPowersOfTwo: requires target < 2^30, so that 2 * target and the shifts fit in uint32.
- ConstMult.AddOneAdderOrSubtractor: requires 1 <= target < 2^30, for the same reason.
- ConstMult.Search: requires 1 <= target < 2^30. It also stops after `maxRounds` rounds, because the source
  loop has no bound.
- Pebble.FindPrevSafeDatingPos returns an unbounded int. At pos 0 it gives -2 where the C wraps to
  0xFFFFFFFE.

## Findings

| source | as written | input that shows it | evidently intended | confidence | as-written member | corrected member |
|---|---|---|---|---|---|---|
| noelkdf-ref.c:133 | every thread's key is decoded to word 0 of memory, not to the start of its own segment | parallelism 2: thread 1's first block is never written, and the value summed at line 106 is old memory | `mem + start`, as tigerkdf-sse.c:121 does | high (not executed) | NoelKdfRef.AsWrittenReadsMemory | NoelKdfRef.CorrectedReadsKeys |
| noelkdf-pthread.c:187 | the same key placement at word 0 | parallelism 2, in the modelled thread order: the join sums the last thread's key word and stale memory | key at the start of each thread's segment | high (not executed) | NoelKdfPthread.AsWrittenJoinStale | NoelKdfPthread.CorrectedJoinReadsKeys |
| noelkdf-ref.c:65-66 | the derived salt buffer holds hashSize bytes but H writes saltSize bytes | hashSize 4, saltSize 8, dataSize 1 (accepted by verifyParameters) | a buffer of saltSize bytes | high (not executed) | NoelKdfRef.DerivedSaltOverflows | NoelKdfRef.HashPassword |
| noelkdf-ref.c:57, 220; tigerkdf-common.c:49, 104 | PHS passes size_t inlen into a uint8 passwordSize | a 256-byte password is refused; 300-byte passwords sharing 44 bytes hash alike | the whole password hashed | high (not executed) | NoelKdfRef.PhsIgnoresPasswordTail | NoelKdfRef.Phs |
| noelkdf-pthreads.c:59, 176-183 | the contexts' `hash`/`hashlen` are never set to the output, so thread keys do not depend on the password | any two passwords: outputs differ exactly as their first keyed hashes | thread keys from the password's hash in `out` | high (not executed) | NoelKdfPthreads.AsWrittenHashIsMasked | NoelKdfPthreads.CorrectedThreadKeys |
| noelkdf-pthreads.c:101-108 | four shifts by 8 leave value 0, so every step after the first reads mem[0] | any memory: only two words are read | value carried from step to step | medium (not executed) | NoelKdfPthreads.AsWrittenReadsTwoWords | NoelKdfPthreads.CorrectedReadsFurther |
| pebble/main.c:27-35 | dist is a uint32 and wraps | pos 0x7FFFFFFF returns itself | the chain predecessor 0 | low (not executed) | Pebble.ChainDistanceWraps | Pebble.FindPrevLogarithmicChainPos |
| pebble/main.c:54, 59 | 3 * r and (prevPos - 1) * 2 are uint32 and wrap | pos 0xFFFFFFFE returns itself | 0x7FFFFFFE | low (not executed) | Pebble.SafeDatingWraps | Pebble.FindPrevSafeDatingPos |
| tigerkdf-sse.c:175-178; tigerkdf-common.c:38 | the wrappers document and check memSize in MiB, the engine reads KiB | memSize 1, blockSize 4096, one thread: accepted, yet no block per segment | memSize in MiB | medium (not executed) | TigerKdfCommon.KiBMemoryTooSmall | TigerKdfCommon.MiBMemoryFits |
| noelkdf-ref.c:197 | verifyParameters does not bound the hash by a segment | hashSize 1024, blockSize 4, parallelism 65536, memSize 1 | the hash within the last block(s) of each segment | medium (not executed) | NoelKdfRef.VerifyAcceptsHashBeyondSegment | NoelKdfRef.EngineLevelsFit |
| noelkdf-pthread.c:104-105, 158 | memory is allocated for the first level only, but numblocks doubles | startGarlic 0, stopGarlic 1 | memory for the last level | high (not executed) | NoelKdfPthread.SecondLevelOverruns | NoelKdfPthread.NoelKdfCorrected |
| noelkdf-pthread.c:101 | memlen is computed in 32 bits | memSize 4096 (accepted): 0 blocks | 64-bit memlen, as noelkdf-ref.c:92 | high (not executed) | NoelKdfPthread.MemlenWraps | NoelKdfPthread.NoelKdfCorrected |
| tigerkdf-sse.c:85 | the inner loop of hashBlocks runs while i < blocklen / 8, but i counts 128-bit slots of four words, so only Sweep(blocklen) words of each block are stored: half the block when blocklen is a multiple of 16 words | blockSize 4096, hashSize 32: words 0 .. 511 of each block are stored, and xorIntoHash reads words 1016 .. 1023 of each thread's last block, which no hashBlocks of the level writes, so the hash is XOR-ed with the previous level's (at the first level, uninitialised) memory | i < blocklen / 4, which stores the whole block | high (not executed) | TigerKdfSse.AsWrittenLevelIgnoresMixing | TigerKdfSse.WholeBlockKeepsLastStore |
| tigerkdf-common.c:18 | verifyParameters accepts any blockSize that is a multiple of 4 bytes, but hashBlocks addresses memory in 128-bit slots from toAddr / 4 | blockSize 36: the store for block 1 covers words 8 .. 15, overwriting the last word of the thread key and leaving words 16 and 17 unwritten; blockSize 16: nothing is stored | blockSize a multiple of 16 bytes (of 32 with the corrected loop bound), so that every block is whole slots | medium (not executed) | TigerKdfSse.UnalignedBlocksMiss | TigerKdfSse.StoredAtBlock |
