# Verified models of the miner's core

This project models the parts of the miner where a fast or stateful form has to agree with a simple one, and proves the
agreement.

* **Hashing.** The streaming SHA-256 of `cpu_verify.cc`, the midstate form of `midstate.cc` and the device form of
  `sha256d.cuh` (with the midstate path inlined in `kernel_mine_stub`) are imperative methods over arrays. Each is proved
  against the definition of SHA-256 in sections 4 to 6.2 of FIPS 180-4 (`Sha256Spec`) and so against the others. On top of
  them stand the Merkle root loop and the compact-target decoder with its byte-wise comparison.
* **The hit path.** The commit protocol of the batch kernels is a state machine whose steps are the atomic operations,
  memory writes and barrier crossings of single threads; a schedule is any sequence of choices of a thread. The ring, its
  32-bit wrapping index and the host's drain follow, then whole runs of launches and drains, and the outbox with its
  append log. `BatchKernel` puts the parts together: which nonces of which jobs are hits, and that a launch under any
  schedule leaves exactly those in the ring.
* **Scheduling.** Launch plans and the nonces their lanes test, round-robin polling, weighted selection, and the penalty
  that feeds it.
* **Serialisers.** CompactSize, the BIP34 height, the coinbase transaction, the block and base64, each with a reader that
  undoes the writer; and the subsidy with the supply it adds up to.

Code that updates state is modelled as classes, arrays and loops, and each method is proved against a function of its
inputs; the lemmas are about those functions. Bytes and words are bounded integers. Sums that wrap in the source are
written with an explicit remainder, shifts and masks as division and remainder, and `|` of fields that do not overlap as
a sum. The bitwise `&`, `^` and `~`, the shifts and the rotations recurse over the bits (`Words`), and `WordBits` says of
each, and of the functions SHA-256 builds from them, what every bit of the result is.

Some results say where the source stops doing what it is meant to:

* the CPU hashers pad as FIPS 180-4 says exactly when the bit length is below 2^40 (`CpuVerify.PadExact`): the byte for
  bits 40 to 47 is never written, although the comment beside the code promises lengths up to 2^64;
* the hit ring keeps live hits apart exactly when its capacity divides 2^32 (`HitRing.SharesIffNotDivisor`);
* a block of a batch launch runs to its end exactly when the number of its hits modulo 2^32 is at most 64, because
  `s_count` has 32 bits; otherwise every schedule leads it to a read behind its shared buffer (`HitProgress.LaunchEnds`).
  Past 64 hits the ring positions reserved no longer match the hits: those without a local slot are reserved twice, and a
  block of 2^32 hits finishes with its 64 local hits lost (`HitOverflow.LaunchReserves`, `HitOverflow.WrappedLoses64`);
* a drain reads only the ring buffer exactly when the start position and the entries due end within two lengths of it
  (`HitDrain.CopiesInsideIff`), and past one length it hands entries over twice (`HitDrain.OverrunRepeats`);
* the unrolled kernels end exactly when the nonces per thread plus the unrolling stay below 2^32 (`LaunchPlan.EndsIff`);
* from a midstate the batch kernels hash the header with the bytes of its last four words swapped, which is the header
  exactly when each of these words is its own swap (`BatchSha.SwappedIsHeader`);
* a coinbase gives its tag back exactly when the tag is at most 75 bytes, whatever its length, to a reader that knows all
  push opcodes (`GbtSubmitter.BuildCoinbaseTx`); a longer tag can even be read as another one (`Coinbase.MisreadTag`);
* a non-negative compact form decodes to the number it stands for exactly when its exponent lies between 3 and 32 or that
  number is zero (`Targets.CompactExact`): exponents below 3 lose the number, and above 32 all ones replace it, even where
  it fits in 32 bytes, as it can for exponents 33 and 34 (`Targets.FitsButSaturates`);
* at exponent 0 the decoder stores a byte behind its array (`Targets.CompactToTargetU32LE`);
* a launch plan covers the demand exactly when the demand is at most 0xFFFFFFFF blocks (`LaunchPlan.ComputeLaunchPlan`);
* `select` asked for no id still returns one when any is known (`Scheduler.FirstMaxIds`), and an id behind too much
  weight is not selected however often `select` is called, as long as weights and order stay (`Scheduler.SelectedIff`);
* the Merkle root of a list is shared by other lists: by each of its own higher levels (`Merkle.LevelsShareRoot`), by
  the list with its last block repeated (`Merkle.RepeatedBlock`), and in general, unless a hash collision is in hand,
  by exactly the lists that agree with it once the taller one is cut to the height of the other and both are padded
  (`Merkle.RootExact`). Among lists of one length it determines the list (`Merkle.RootBinding`).

The comment in `leHexFromHeaderBE` speaks of flipping the header; the code writes its bytes in order, and so does the
model.

## Model

| member | source | states |
|---|---|---|
| WordBits.RotrIs | src/submit/cpu_verify.cc:30-30 | rotating right by n puts the low n bits on top of the others: the quotient by 2^n plus the remainder times 2^(32-n) |
| WordBits.RotrBit | src/submit/cpu_verify.cc:30-30 | bit i of the rotated word is bit i + n of the word, counted round |
| WordBits.ShrIs | src/submit/cpu_verify.cc:38-39 | shifting right by n divides by 2^n |
| WordBits.AndBit | src/submit/cpu_verify.cc:52-55 | bit i of x & y is set if and only if it is set in both |
| WordBits.XorBit | src/submit/cpu_verify.cc:38-55 | bit i of x ^ y is set if and only if it is set in exactly one of them |
| WordBits.NotBit | src/submit/cpu_verify.cc:52-52 | bit i of ~x is set if and only if it is clear in x |
| WordBits.ChBit | src/submit/cpu_verify.cc:52-52 | every bit of ch is that of f where e has a one and that of g where it has a zero |
| WordBits.MajBit | src/submit/cpu_verify.cc:55-55 | every bit of maj is the one most of the three words have |
| WordBits.SigmaBits | src/submit/cpu_verify.cc:38-54 | which three bits of the word each bit of the four sigma functions adds up without carry |
| WordBits.AddIs | src/submit/cpu_verify.cc:40-64 | a sum of two words drops the carry out of the top bit and nothing else |
| WordBits.ScheduleIs | src/submit/cpu_verify.cc:37-41 | from the seventeenth on, a word of the schedule is the sum modulo 2^32 of the words 16 and 7 before it and the mixed words 15 and 2 before it |
| WordBits.RoundIs | src/submit/cpu_verify.cc:50-65 | a round makes a and e the sums modulo 2^32 that section 6.2.2 gives, and passes the other variables on |
| WordBits.CompressIs | src/submit/cpu_verify.cc:66-73 | every word of the state is raised modulo 2^32 by its variable after 64 rounds |
| WordBits.SameBits | src/submit/cpu_verify.cc:30-30 | two words with the same bits are equal, so that the laws above determine each operation |
| CpuVerify.TableIsFips | src/submit/cpu_verify.cc:19-28 | the table of round constants is the one of section 4.2.2 of FIPS 180-4 |
| CpuVerify.Schedule | src/submit/cpu_verify.cc:33-41 | the two loops fill m with the message schedule of the block |
| CpuVerify.Transform | src/submit/cpu_verify.cc:32-74 | the state array becomes the FIPS compression of the old state and the block |
| CpuVerify.SetInitialState | src/submit/cpu_verify.cc:79-80 | the state is set to the initial hash value of section 5.3.3 |
| CpuVerify.WriteLength | src/submit/cpu_verify.cc:107-114 | the last eight bytes become the length field as the code writes it, the other 56 stay |
| CpuVerify.WriteDigest | src/submit/cpu_verify.cc:117-122 | the output is the eight state words, big-endian |
| CpuVerify.Sha256Ctx.constructor | src/submit/cpu_verify.cc:76-81 | a new context has absorbed nothing |
| CpuVerify.Sha256Ctx.Update | src/submit/cpu_verify.cc:83-92 | the context absorbs exactly the input after what it had; so how the message is cut into calls does not matter |
| CpuVerify.Sha256Ctx.Final | src/submit/cpu_verify.cc:94-123 | whatever was absorbed, and at every buffer fill, the output is the digest of exactly those bytes |
| CpuVerify.Sha256 | src/submit/cpu_verify.cc:129-131 | the output is the digest; below 2^40 bits it is the SHA-256 digest of FIPS 180-4 |
| CpuVerify.Sha256d | src/submit/cpu_verify.cc:133-137 | the output is the digest of the digest |
| CpuVerify.DigestSplit | src/submit/cpu_verify.cc:94-115 | after the whole blocks of a message, a tail below 56 bytes takes one more compression and any other two |
| CpuVerify.LengthFieldExact | src/submit/cpu_verify.cc:107-114 | the field written equals the field of section 5.1.1 if and only if the bit length is below 2^40 |
| CpuVerify.LengthFieldIs | src/submit/cpu_verify.cc:107-114 | the number in the field of section 5.1.1 is the bit length, and the field written is that number without its bits 40 to 47, those above moved down |
| CpuVerify.PadExact | src/submit/cpu_verify.cc:94-115 | the code pads a message as section 5.1.1 does if and only if it has fewer than 2^40 bits |
| CpuVerify.DigestIsFips | src/submit/cpu_verify.cc:76-131 | every message below 2^40 bits has its FIPS 180-4 digest |
| Sha256Spec.HashBlocksConcat | src/submit/cpu_verify.cc:83-92 | hashing blocks one after another is a fold: it can be cut at any block |
| Sha256Spec.PadSplit | src/submit/cpu_verify.cc:94-105 | padding depends only on what follows the last whole block, and on the length field |
| Sha256Spec.PadTail | src/submit/cpu_verify.cc:97-105 | a tail is padded to one block exactly when it is below 56 bytes, and then to two |
| Midstate.Midstate64 | src/normalize/midstate.cc:61-69 | the midstate is the compression of the first 64 bytes from the initial value |
| Midstate.FinalBlocks | src/normalize/midstate.cc:90-107 | the rest of the tail is hashed with padding for the total length, in one block or two |
| Midstate.FinishFromMidstate | src/normalize/midstate.cc:71-116 | the output is the digest reached from the given state over the tail, for any tail length |
| Midstate.ResumeAgrees | src/normalize/midstate.cc:71-116 | saving the state after any number of whole blocks and resuming gives the streaming digest of the whole message |
| Midstate.MidstateAgrees | src/normalize/midstate.cc:61-116 | for every message of at least 64 bytes, finishing from the midstate of its first 64 gives its streaming digest |
| DeviceSha.TablesAreFips | src/cuda/sha256d.cuh:15-27 | the device's round constants and initial value are those of FIPS 180-4 |
| DeviceSha.Schedule | src/cuda/sha256d.cuh:37-48 | the device loops fill w with the message schedule |
| DeviceSha.Compress | src/cuda/sha256d.cuh:37-59 | the device compression computes the same function of state and block as the CPU one |
| DeviceSha.PaddedWordsAreBytes | src/cuda/sha256d.cuh:112-122 | a short tail padded directly in words is the byte padding read as big-endian words |
| DeviceSha.CompressPadded | src/cuda/engine.cu:135-148 | compressing a tail padded in words is compressing its padded block |
| DeviceSha.SecondBlock | src/cuda/sha256d.cuh:75-84 | the second header block laid out byte by byte is the padded tail of an 80-byte message |
| DeviceSha.WriteBitLength | src/cuda/sha256d.cuh:82-84 | the shift loop writes the 64-bit length field of section 5.1.1 |
| DeviceSha.Sha256Header | src/cuda/sha256d.cuh:62-101 | the device hash of a header is its streaming CPU digest |
| DeviceSha.HashDigest | src/cuda/sha256d.cuh:107-131 | the second device hash is the streaming digest of the 32 bytes |
| DeviceSha.AnyNonZero | src/cuda/engine.cu:126-129 | a midstate counts as provided if and only if one of its words is not zero |
| DeviceSha.Sha256dHeader | src/cuda/sha256d.cuh:104-132 | for every header the device double hash equals the CPU double hash |
| DeviceSha.MineStubDigest | src/cuda/engine.cu:125-181 | the digest part of the stub kernel: resume from a non-zero midstate, else hash the header whole, then hash again |
| DeviceSha.StubAgrees | src/cuda/engine.cu:125-181 | with the midstate of the header's first 64 bytes, or all zero words, the stub computes the CPU double hash |
| BatchSha.LoadTail | src/cuda/engine.cu:256-265 | the second block is the padding of the last sixteen header bytes with the bytes of each word swapped |
| BatchSha.MineBatchDigest | src/cuda/engine.cu:247-296 | the digest part of the batch kernels: resume over the swapped tail from a non-zero midstate, else hash the header whole, then hash again |
| BatchSha.BatchHashes | src/cuda/engine.cu:252-293 | from the non-zero midstate of the header's first 64 bytes the kernels double-hash the header with its last four words swapped, and without a midstate the header itself |
| BatchSha.SwappedIsHeader | src/cuda/engine.cu:257-261 | that message is the header if and only if each of the four words is its own byte swap |
| BatchSha.NonceOneDiffers | src/cuda/engine.cu:261-261 | for a header with nonce 1 it never is |
| Merkle.ComputeMerkleRootBe | src/normalize/merkle.cc:10-33 | the loops compute the level-by-level root; an empty list gives 32 zero bytes |
| Merkle.NextLevelAt | src/normalize/merkle.cc:20-29 | node i of the next level is SHA-256 twice over nodes 2i and 2i+1, or over 2i twice when it is the last |
| Merkle.SmallRoots | src/normalize/merkle.cc:16-32 | one transaction is its own root, and the root of two is SHA-256 twice over both |
| Merkle.LevelBinding | src/normalize/merkle.cc:20-29 | two levels of one length with the same next level are equal, or the search returns two different inputs with one hash |
| Merkle.RootBinding | src/normalize/merkle.cc:10-33 | two lists of one length with the same root are equal, or the search returns a concrete sha256d collision |
| Merkle.SameHeightBinding | src/normalize/merkle.cc:16-32 | two lists of one height share a root if they pad to the same leaves, and only then, unless the search returns a collision |
| Merkle.LevelsShareRoot | src/normalize/merkle.cc:17-31 | every level of the tree over a list has the root of the list, and each one above the first is shorter than the one below |
| Merkle.RootExact | src/normalize/merkle.cc:10-33 | any two non-empty lists share a root if the taller one's level at the other's height pads to the same nodes as the other, and only then, unless the search returns a collision |
| Merkle.JoinRoots | src/normalize/merkle.cc:20-29 | one pass over the roots of perfect blocks gives the roots of the joined blocks, the last repeated at an odd level |
| Merkle.RootIsPerfect | src/normalize/merkle.cc:16-32 | the root is the root of a perfect binary tree whose leaves start with the transactions and repeat the last block at each odd level |
| Merkle.PaddedRoot | src/normalize/merkle.cc:16-32 | the padded leaves are a list with the same root, and pad to themselves |
| Merkle.RepeatedBlock | src/normalize/merkle.cc:16-32 | a list of 2^k times an odd number above one has the root of the list with its last 2^k leaves repeated |
| Merkle.RepeatedLast | src/normalize/merkle.cc:22-22 | an odd list above one has the root of the list with its last transaction doubled |
| HitRing.SlotsDistinct | src/cuda/engine.cu:329-331 | when the capacity divides 2^32, positions closer than the capacity never share a slot, across the wrap of the index |
| HitRing.SharesIffNotDivisor | src/cuda/engine.cu:329-331 | the capacities for which live positions never share a slot are exactly the divisors of 2^32 |
| HitSafety.FindStep | src/cuda/engine.cu:305-309 | taking a local slot keeps the block invariant, and there is always one left when the block finds at most 64 hits |
| HitSafety.BlockStepInv | src/cuda/engine.cu:205-335 | every step of any thread keeps the block invariant: barriers, slot ownership, and no hit lost or duplicated |
| HitSafety.Collected | src/cuda/engine.cu:319-330 | when the second barrier opens, the shared buffer holds exactly the hits of the block's threads |
| HitSafety.FlushTarget | src/cuda/engine.cu:329-334 | the slot a flushing thread writes next is the slot of its reserved position, and the value is the hit logged there |
| HitSafety.WriteStep | src/cuda/engine.cu:331-333 | a ring write fills its own position and disturbs no other live one |
| HitSafety.StepInv | src/cuda/engine.cu:305-335 | every step of every thread of every block keeps the global invariant |
| HitSafety.RunInv | src/cuda/engine.cu:305-335 | so does every schedule, from any state that has it |
| HitSafety.ReservedSlotsDisjoint | src/cuda/engine.cu:329-331 | at no point of any schedule do two blocks hold the same ring slot |
| HitSafety.LaunchDelivers | src/cuda/engine.cu:199-336 | whatever the schedule, when no block finds more than 64 hits, a finished launch has advanced the index by the number of hits, kept the undrained ones, and left in the next slots exactly the multiset of hits found |
| HitSafety.LogDelivers | src/cuda/engine.cu:199-336 | the reservation log of such a launch grew by exactly the hits found |
| HitProgress.BlockStepDecreases | src/cuda/engine.cu:209-335 | a step that changes a block brings it closer to its end, however many hits it finds |
| HitProgress.ShapeStep | src/cuda/engine.cu:205-335 | every step of any thread, in the overflow branch too, keeps the barriers and the hits of its block, and s_count equal to their number modulo 2^32 |
| HitProgress.SettledIs | src/cuda/engine.cu:319-335 | a block with nothing left to do has finished if and only if the number of its hits modulo 2^32 is at most 64, and else stands before a read behind its shared buffer |
| HitProgress.NoDeadlock | src/cuda/engine.cu:210-319 | in every reachable state some thread can move until every block has finished or stands before a read behind its shared buffer: the barriers never wait for a thread that cannot come |
| HitProgress.CanSettle | src/cuda/engine.cu:209-335 | from every reachable state some schedule brings every block to its end or to that read |
| HitProgress.LaunchCanFinish | src/cuda/engine.cu:199-336 | whatever part of a launch has been scheduled, over any ring, some continuation finishes every block when that number is at most 64 for each |
| HitProgress.RoundsSettle | src/cuda/engine.cu:199-336 | every schedule of as many rounds as there are steps left, each naming every thread in any order, brings every block there |
| HitProgress.LaunchEnds | src/cuda/engine.cu:199-336 | under every such schedule and over any ring, a block finishes if and only if the number of its hits modulo 2^32 is at most 64, and reaches a read behind its shared buffer if and only if it is larger |
| HitProgress.FinishIff | src/cuda/engine.cu:305-335 | some schedule finishes a block if and only if the number of its hits modulo 2^32 is at most 64 |
| HitProgress.SixtyFiveNeverFinishes | src/cuda/engine.cu:330-332 | a block of one thread that finds 65 hits finishes under no schedule |
| HitProgress.WrappedFinishes | src/cuda/engine.cu:306-320 | a block of 256 threads that hit with each of 2^24 nonces has s_count back at zero, and finishes |
| HitOverflow.TakenStep | src/cuda/engine.cu:306-334 | a step reserves one position for a hit without a local slot, s_count positions for a flush, and else none |
| HitOverflow.ExcessIs | src/cuda/engine.cu:306-316 | in every full lap of s_count all hits but 64 find no local slot, and in the last lap all past the 64th |
| HitOverflow.PositionsExact | src/cuda/engine.cu:306-334 | a block reserves as many positions as it has hits if and only if these are at most 64, or lost and doubled hits cancel out after a wrap of s_count |
| HitOverflow.LaunchReserves | src/cuda/engine.cu:306-334 | under every schedule the index advances by the positions of the blocks; while no block has 2^32 hits, that is the number of hits if and only if no block has more than 64 |
| HitOverflow.WrappedLoses64 | src/cuda/engine.cu:306-334 | the block with 2^32 hits advances the index by 2^32 - 64 under every schedule |
| BatchKernel.AssembleHeader | src/cuda/engine.cu:216-245 | the stores write version, previous hash, Merkle root, time, bits and nonce at their places in the header, each word with its highest byte first |
| BatchKernel.ClampTime | src/cuda/engine.cu:236-238 | the time is the one nearest to the job's among those within its bounds, a bound of zero being none, and the upper bound when the bounds contradict each other |
| BatchKernel.HeaderTail | src/cuda/engine.cu:257-261 | the words the kernels swap are the last four words of that header |
| BatchKernel.TryNonce | src/cuda/engine.cu:247-305 | a nonce is a hit if and only if the digest the kernel computes for it is at most the share target, as big-endian numbers |
| BatchKernel.HitAtIs | src/cuda/engine.cu:351-508 | the nonce at distance d of a job is a hit if and only if its digest is at most the share target; from two nonces a thread on, the last ones of a thread, as many as 2, 4 or 8 leave over, are hashed whole |
| BatchKernel.UnrolledRounds | src/cuda/engine.cu:351-453 | the unrolled loop finds the hits of all steps before its tail, in order |
| BatchKernel.MineThread | src/cuda/engine.cu:343-508 | whichever kernel is picked, a thread finds exactly the hits among the nonces of its lane, in order; the tail hashes the header whole |
| BatchKernel.LaunchTotal | src/cuda/engine.cu:199-204 | the hits of all threads of all blocks are the hits among the nonces of all jobs |
| BatchKernel.LaunchFindsAll | src/cuda/engine.cu:199-336 | under any schedule, with at most 64 hits a block and room in the ring, a finished launch leaves exactly the hits among all nonces of all jobs behind the undrained ones |
| BatchKernel.HitOnce | src/cuda/engine.cu:202-215 | within 2^32 nonces the hit of a nonce is counted once if the nonce meets the target, and else not at all |
| BatchKernel.LaunchHitOnce | src/cuda/engine.cu:199-215 | among the hits of a whole launch, for jobs with different work ids, each nonce of each job is counted once if it meets the target of its job, and else not at all |
| HitDrain.AvailableIsExact | src/cuda/engine.cu:803-806 | the difference of the two wrapping counters is the number of undrained hits |
| HitDrain.CopiesInsideIff | src/cuda/engine.cu:810-818 | both copies read inside the buffer if and only if start position and entries due end within two lengths of it |
| HitDrain.OverrunRepeats | src/cuda/engine.cu:810-818 | past one length of the ring the copies hand over the same entries again |
| HitDrain.SlotAfter | src/cuda/engine.cu:810-811 | i places after a slot comes the slot of the i-th next position, wrapping at the end of the buffer |
| HitDrain.CopiedIsWindow | src/cuda/engine.cu:810-818 | whether in one piece or two, the copy reads the next positions in order, across both wraps |
| HitDrain.Memcpy | src/cuda/engine.cu:813-818 | n entries are copied and nothing else in the destination changes |
| HitDrain.CopyOut | src/cuda/engine.cu:810-822 | the caller's buffer receives the copied entries at its front and keeps the rest |
| HitDrain.DrainMoves | src/cuda/engine.cu:808-824 | draining n hits hands over the next n of the log and moves the window and the wrapping offset n on |
| HitDrain.DrainHolds | src/cuda/engine.cu:803-824 | a ring that holds every undrained hit can be drained, hands over the oldest of them, and holds the others after that |
| HitDrain.HitQueue.InitDeviceHitBuffer | src/cuda/engine.cu:745-761 | a fresh buffer of the capacity, one for zero, with both counters at zero, for every capacity |
| HitDrain.HitQueue.CopyDue | src/cuda/engine.cu:799-824 | for any capacity and any counters, as long as the copies stay inside the buffer: the entries due are handed over and the offset advances by their number in 32 bits |
| HitDrain.HitQueue.DrainDeviceHits | src/cuda/engine.cu:793-825 | the same, and on a ring that holds every undrained hit it hands over the oldest of them in order, as many as there are and fit; it fails only without a buffer |
| HitRuns.LaunchAdvances | src/cuda/engine.cu:660-684 | a launch appends exactly its hits to the log and hands nothing over |
| HitRuns.RunDelivers | src/cuda/engine.cu:660-827 | over any run of launches and drains, the host receives the hits in the order they were written, and those written are those found |
| HitRuns.NothingLost | src/cuda/engine.cu:660-827 | from an empty ring, the hits handed over and the hits still in the ring are together exactly the hits found |
| Outbox.KeyIsSum | src/store/outbox.h:28-28 | the exclusive-or of the shifted work id and the nonce is their sum, and only the low 32 bits of the work id count |
| Outbox.KeyExact | src/store/outbox.h:28-28 | two submissions share a key if and only if their nonces are equal and their work ids agree modulo 2^32 |
| Outbox.Outbox.constructor | src/store/outbox.h:24-24 | a new outbox is empty and refuses nothing |
| Outbox.Outbox.Enqueue | src/store/outbox.h:26-32 | a submission with a new key goes to the back and its key is remembered; any other is ignored |
| Outbox.Outbox.TryDequeue | src/store/outbox.h:34-40 | the front leaves, its key stays remembered; an empty queue gives nothing |
| Outbox.Outbox.Drop | src/store/outbox.h:85-102 | the first entry with this work id and nonce leaves, order kept, its key forgotten; the result says whether there was one |
| Outbox.Outbox.AppendToFile | src/store/outbox.h:54-62 | the file grows by the 92-byte record; false when it cannot be opened |
| Outbox.Outbox.ReadRecord | src/store/outbox.h:71-74 | the three reads give the next 92-byte record, or nothing when the file ends inside it |
| Outbox.Outbox.LoadFromFile | src/store/outbox.h:64-82 | the outbox becomes what enqueueing the whole records of the file one by one gives; an unreadable file changes nothing |
| Outbox.Outbox.RewriteFile | src/store/outbox.h:105-118 | the file becomes the log of the queue |
| Outbox.RunKeepsInv | src/store/outbox.h:26-102 | every run, with loads, keeps delivered and queued keys pairwise distinct, exactly those remembered, and every accepted submission accounted for, all since the last load |
| Outbox.AtMostOnce | src/store/outbox.h:26-102 | from an empty outbox, between one load and the next, no key is delivered twice, no delivered key is queued again, the keys refused are exactly those delivered or queued, and each submission accepted or loaded is delivered, dropped or queued |
| Outbox.AfterLoad | src/store/outbox.h:68-80 | a load queues a key, delivered before or not, and refuses it from then on, if and only if the file has a record of it |
| Outbox.OrderKept | src/store/outbox.h:26-102 | over any run, with drops and loads, what was delivered since the last load followed by what is queued keeps the order of acceptance |
| Outbox.FirstComeFirstServed | src/store/outbox.h:26-82 | without drops, what was delivered since the last load and what is queued is the first by key of the records loaded and the submissions after them, in order |
| Outbox.RecordRoundTrip | src/store/outbox.h:58-60 | a record reads back as the submission written |
| Outbox.RecordLayout | src/store/outbox.h:58-60 | work id and nonce with their lowest byte first, then the header |
| Outbox.LogAppend | src/store/outbox.h:54-62 | appending a record to a log gives the log of one more submission |
| Outbox.CutLog | src/store/outbox.h:70-80 | any byte prefix of a log reads as exactly the records that lie wholly inside it |
| Outbox.LoadedIs | src/store/outbox.h:68-80 | loading keeps the first record of each key, in order, and remembers exactly the keys of the file |
| Outbox.FirstByKeyDistinct | src/store/outbox.h:75-79 | what a load keeps has pairwise distinct keys, and all the keys of the file |
| Outbox.LoadCutLog | src/store/outbox.h:64-82 | so a log cut at any byte loads as the first submission per key of its whole records |
| Outbox.RewriteThenLoad | src/store/outbox.h:64-118 | rewriting and then loading restores the queue exactly and remembers exactly the queued keys |
| Outbox.RewriteAfterRun | src/store/outbox.h:64-118 | the queue of every run, whatever it has loaded and dropped, survives rewriting and loading |
| LaunchPlan.ClampThreadsPerBlock | src/cuda/launch_plan.h:14-20 | the result is between 64 and 1024, and of all such sizes the one nearest to the request |
| LaunchPlan.ComputeLaunchPlan | src/cuda/launch_plan.h:24-42 | the block size is the largest of 64, 128 and 256 not above the demand, or 64; the lanes cover the demand if and only if 0xFFFFFFFF blocks can, and then no block is spare |
| LaunchPlan.MixedRadix | src/cuda/engine.cu:202-215 | block, thread and step are the digits of a nonce's distance from the start of the range |
| LaunchPlan.EveryNonceOnce | src/cuda/engine.cu:202-215 | within 2^32 nonces, the d-th nonce from nonce_base + j is tested, by exactly one thread in exactly one step, under 32-bit arithmetic |
| LaunchPlan.NothingElse | src/cuda/engine.cu:202-215 | and no nonce outside the range is tested |
| LaunchPlan.EndsIff | src/cuda/engine.cu:351-352 | the unrolled loop ends if and only if the nonces per thread plus the unrolling stay below 2^32 |
| LaunchPlan.EndlessAt | src/cuda/engine.cu:352-352 | unrolled by eight, 0xFFFFFFF8 nonces per thread never end and one less do |
| LaunchPlan.BatchEndsIff | src/cuda/engine.cu:670-682 | of all 32-bit counts, exactly those from 0xFFFFFFF8 on make launchMineWithPlanBatch start a kernel that never ends |
| LaunchPlan.VisitUnrolled | src/cuda/engine.cu:351-355 | whenever the unrolled loop ends, it and its tail visit every step once, in order |
| LaunchPlan.VisitBatch | src/cuda/engine.cu:670-682 | whenever the kernel picked ends, it visits every step once, in order; zero nonces per thread count as one |
| LaunchPlan.PerThreadSmall | src/cuda/engine.cu:352-352 | every launch of a plan within 2^32 nonces ends |
| PoolRouter.FirstReady | src/adapters/pool_router.cc:17-26 | the scan stops at the first ready adapter: everything before it is not ready |
| PoolRouter.ServedIs | src/adapters/pool_router.cc:16-28 | round robin serves the adapter k behind the index, counted round, if and only if it is the first ready one, and then goes on behind it; when nobody is served the index moves one on |
| PoolRouter.NobodyServed | src/adapters/pool_router.cc:16-28 | nobody is served if and only if nobody has work |
| PoolRouter.PoolRouter.constructor | src/adapters/pool_router.h:15-15 | a new router has no adapters and starts at index 0 |
| PoolRouter.PoolRouter.AddAdapter | src/adapters/pool_router.h:17-17 | the adapter goes to the end and the index stays in range |
| PoolRouter.PoolRouter.PollFailover | src/adapters/pool_router.cc:8-13 | the first adapter with work gives up its oldest item and no other adapter changes |
| PoolRouter.PoolRouter.Scan | src/adapters/pool_router.cc:17-26 | the first adapter with work from the index on gives up its oldest item, and no other adapter changes |
| PoolRouter.PoolRouter.PollRoundRobin | src/adapters/pool_router.cc:16-28 | the first adapter with work from the index on gives up its oldest item, and the index moves behind it, or one on when none has work |
| PoolRouter.PoolRouter.PollNext | src/adapters/pool_router.cc:5-29 | dispatch on the strategy; an empty router serves nobody and keeps its index, and failover does not move it |
| PoolRouter.CallBringsNearer | src/adapters/pool_router.cc:16-28 | a call made while an adapter has work serves it or strictly lowers its distance from the index |
| PoolRouter.DistanceFalls | src/adapters/pool_router.cc:16-28 | over a run of such calls the distance falls by at least one a call |
| PoolRouter.NoStarvation | src/adapters/pool_router.cc:16-28 | an adapter with work at each of n consecutive calls is served by one of them, whatever the other n - 1 do |
| Scheduler.Weights.Of | src/scheduler/scheduler.h:28-37 | every weight lies between one and the cap, a cap of zero counting as one |
| Scheduler.SchedulerState.WeightOf | src/scheduler/scheduler.h:28-37 | the branches compute the configured weight, one if missing, cut off at the cap and lowered by the penalty but not below one |
| Scheduler.FullWeightIs | src/scheduler/scheduler.h:28-33 | the weight without penalty is the configured one up to the cap, and one without a configured weight or with a cap of zero |
| Scheduler.WeightIs | src/scheduler/scheduler.h:34-37 | a penalty below the weight is what is missing from it, and any other leaves one |
| Scheduler.SchedulerState.PushRepeated | src/scheduler/scheduler.h:38-41 | the id is appended as often as its weight says, cut off at the limit |
| Scheduler.SchedulerState.Select | src/scheduler/scheduler.h:19-46 | the result is the first max(1, max_ids) elements of the known ids in order, each repeated its weight; the 64-bit tick advances |
| Scheduler.FirstMaxIds | src/scheduler/scheduler.h:38-43 | those are the first max_ids elements if and only if max_ids is at least one or no id is known |
| Scheduler.SelectedIff | src/scheduler/scheduler.h:24-43 | a known id is selected if and only if the weights of the ids before it leave room |
| Scheduler.ShareIsWeight | src/scheduler/scheduler.h:38-41 | without duplicates a known id appears as often as its configured weight, or the cap if that is lower, exceeds the penalty of its source, and once if it does not; an unknown id never |
| Scheduler.NothingCutOff | src/scheduler/scheduler.h:38-43 | a limit of ids times cap cuts nothing off |
| Scheduler.Backpressure.Measure | src/tools/stratum_registry_runner.cpp:483-498 | the pressure counts what is wrong since the counts last seen, which are replaced; other sources are untouched |
| Scheduler.Backpressure.Update | src/tools/stratum_registry_runner.cpp:482-504 | every source takes one step of the penalty machine, the scheduler is told every penalty, and all stay between zero and five |
| Scheduler.PressureIs | src/tools/stratum_registry_runner.cpp:491-497 | the pressure is one for more rejections than acceptances, one for slow submits, up to three for failed connections and up to two for quick disconnects, at the limits of the source; it is zero if and only if the source is healthy |
| Scheduler.NextIs | src/tools/stratum_registry_runner.cpp:488-502 | one update lowers the penalty of a healthy source by one, raises that of any other by its pressure up to five, and remembers the counts reported |
| Scheduler.PenaltyBounded | src/tools/stratum_registry_runner.cpp:500-502 | over every run of updates the penalty stays between zero and five |
| Scheduler.HealthyPaysOff | src/tools/stratum_registry_runner.cpp:501-501 | k healthy updates in a row lower the penalty by k, down to zero |
| Scheduler.UnhealthyCosts | src/tools/stratum_registry_runner.cpp:501-501 | a run of unhealthy updates raises the penalty by the pressure of all of them, at least one each, up to five |
| Scheduler.WeightRestored | src/tools/stratum_registry_runner.cpp:499-503 | after a healthy run the full weight is back if and only if the run was as long as the penalty, or the full weight is one; five updates always suffice |
| Base64.EmittedSnoc | src/net/rpc_client.cc:71-74 | one more byte completes exactly these digits of the RFC 4648 encoding |
| Base64.AccumulatorBits | src/net/rpc_client.cc:72-73 | the digits come from the last two bytes of the accumulator, so that its 32-bit overflow does not matter |
| Base64.EmitDigits | src/net/rpc_client.cc:73-73 | the inner loop writes the one or two digits that are complete |
| Base64.EncodeDigits | src/net/rpc_client.cc:70-74 | after the byte loop all complete digits are written, and the bit counter tells how many bits are left |
| Base64.Encode | src/net/rpc_client.cc:70-76 | for every byte string the output is base64 as in section 4 of RFC 4648, has 4*ceil(n/3) characters, and decodes to the input |
| Base64.EncodedLength | src/net/rpc_client.cc:76-76 | the encoding has 4*ceil(n/3) characters |
| Base64.DecodeEncoded | src/net/rpc_client.cc:70-76 | decoding undoes encoding for every byte string, in a decoder that refuses left-over bits other than zero |
| Base64.EncodeDecoded | src/net/rpc_client.cc:70-76 | encoding undoes decoding: every text that decodes is the encoding of what it decodes to |
| Base64.Vectors | src/net/rpc_client.cc:68-76 | the encodings of "f", "fo", "foo" and "foobar" are those of section 10 of RFC 4648 |
| CompactSize.EmitLE | src/submit/gbt_submitter.cc:80-86 | the loop appends the hex of the low bytes, lowest first |
| CompactSize.EncodeVarIntHex | src/submit/gbt_submitter.cc:78-97 | the text is the hex of the encoding, and reads back as the value |
| CompactSize.FormIs | src/submit/gbt_submitter.cc:87-95 | each form has this size, this marker, and behind it the digits of the value to the base 256, lowest first |
| Hex.ToHexAt | src/submit/gbt_submitter.cc:81-84 | the two characters of byte i are its digits to the base 16, the higher first, in lower case |
| CompactSize.ReadEncode | src/submit/gbt_submitter.cc:87-95 | reading undoes writing for every 64-bit value, whatever follows |
| CompactSize.EncodeRead | src/submit/gbt_submitter.cc:87-95 | and writing undoes reading: every value has one form, the shortest |
| Coinbase.ShortRoundTrip | src/submit/gbt_submitter.cc:144-147 | the stripped bytes of a height are its little-endian value |
| Coinbase.HeightIs | src/submit/gbt_submitter.cc:144-147 | the bytes of a height stand for it, lowest first, the last of them is not zero, and no shorter string of bytes stands for it; height zero is one zero byte |
| Coinbase.Layout | src/submit/gbt_submitter.cc:191-237 | every byte of the transaction, field by field |
| Coinbase.ParseScriptSig | src/submit/gbt_submitter.cc:206-217 | with all push opcodes, height and tag are read back from the script if and only if there is no tag or the bytes in front of it announce it |
| Coinbase.ParseOutputsBack | src/submit/gbt_submitter.cc:219-234 | value, payout script and commitment are read back from the outputs, to the last byte |
| Coinbase.ParseWithScript | src/submit/gbt_submitter.cc:191-237 | parsing gives what the script parses to, and the payment, and consumes every byte |
| Coinbase.ParseTransaction | src/submit/gbt_submitter.cc:191-237 | for tags of any length, parsing recovers every field and consumes every byte if and only if there is no tag or the bytes in front of it announce it |
| Coinbase.BigEndianAnnounces | src/submit/gbt_submitter.cc:212-214 | a length written in big-endian bytes announces that many bytes if and only if it is at most 75 |
| Coinbase.MisreadTag | src/submit/gbt_submitter.cc:212-214 | a tag of 76 bytes that starts with 75 is read back as its other 75 bytes |
| GbtSubmitter.SplitHeight | src/submit/gbt_submitter.cc:145-147 | the loop yields bytes that stand for the height, lowest first, the last of them not zero, and one zero byte for zero |
| GbtSubmitter.EncodeBip34Height | src/submit/gbt_submitter.cc:143-154 | the text is the hex of a push that reads back as the height; for height zero it is one zero byte, and for any other no string of fewer bytes stands for the height |
| GbtSubmitter.TwoDigitsDecode | src/submit/gbt_submitter.cc:212-213 | the announced length is at least two digits, one byte below 256, and decodes if and only if its digits are even in number |
| GbtSubmitter.AnnouncedText | src/submit/gbt_submitter.cc:212-213 | the announced length has two to eight digits, and as bytes they are the length, highest first |
| GbtSubmitter.DecodeCoinbase | src/submit/gbt_submitter.cc:206-236 | decoding and parsing the text gives every field back if and only if the tag is at most 75 bytes, however many digits announce it |
| GbtSubmitter.OddText | src/submit/gbt_submitter.cc:212-214 | an odd number of digits in front of the tag leaves the whole text with an odd number of digits, which is no hex |
| GbtSubmitter.ValueHex | src/submit/gbt_submitter.cc:222-225 | the loop appends the hex of the value's eight bytes, lowest first |
| GbtSubmitter.BuildCoinbaseTx | src/submit/gbt_submitter.cc:191-237 | fails exactly on a commitment that is not 64 characters; from hex arguments of any length, decoding and parsing the text recovers every field if and only if the tag is at most 75 bytes |
| GbtSubmitter.HeaderHex | src/submit/gbt_submitter.cc:99-110 | the text is the hex of the header bytes in order |
| GbtSubmitter.GbtSubmitter.BuildBlockHex | src/submit/gbt_submitter.cc:125-135 | header, count and transactions, the coinbase first and counted when there is one |
| GbtSubmitter.BlockReadsBack | src/submit/gbt_submitter.cc:125-135 | reading the block gives back the header, the number of transactions with the coinbase counted when there is one, and their bytes in order |
| GbtSubmitter.JoinedInOrder | src/submit/gbt_submitter.cc:132-134 | the bytes of every transaction stand behind those of the ones before it and in front of those after it |
| Targets.TargetRoundTrip | src/normalize/targets.cc:13-27 | storing 32 bytes as target words and reading them for comparison gives the same bytes |
| Targets.SetFromBigEndianBytes | src/normalize/targets.cc:13-27 | the out array becomes the byte-swapped words |
| Targets.LEWordsAre | src/normalize/targets.cc:13-27 | each word is read from its four bytes with the lowest first |
| Targets.TargetBytesAre | src/submit/cpu_verify.cc:139-151 | each word is written to its four bytes with the lowest first |
| Targets.FillCompact | src/normalize/targets.cc:47-64 | the branches store the mantissa bytes at these positions of the zeroed array, and at exponent 0, and only there, a zero in the byte behind it |
| Targets.CompactToTargetU32LE | src/normalize/targets.cc:29-68 | the words of the decoded bytes, for negative, zero, small, ordinary and overlong forms; the byte behind the local array changes for exponent 0 only |
| Targets.ValueIs | src/normalize/targets.cc:29-68 | the number every compact form decodes to, case by case |
| Targets.CompactExact | src/normalize/targets.cc:47-64 | for every non-negative form that is the number the encoding defines if and only if the exponent lies between 3 and 32 or the number is zero |
| Targets.FitsButSaturates | src/normalize/targets.cc:54-61 | above exponent 32 all ones replace the number, which would still fit in 32 bytes exactly for exponent 33 below 0x10000 and exponent 34 below 0x100 |
| Targets.SaturatedExample | src/normalize/targets.cc:55-60 | 0x2100ffff stands for 0xffff * 256^30 and decodes to 2^256 - 1 |
| Targets.IsHashLEQTarget | src/submit/cpu_verify.cc:139-158 | true if and only if the hash is at most the target, as big-endian numbers |
| Targets.CompareBytes | src/submit/cpu_verify.cc:153-157 | the byte loop, which the kernels share, compares as numbers |
| Targets.MeetsTarget | src/submit/cpu_verify.cc:139-158 | a hash passes against any decoded compact form if and only if it is at most that form's number |
| Targets.MeetsFormula | src/normalize/targets.cc:54-66 | for sign clear and exponent 3 to 32 that is the mantissa times 256 to the exponent less 3 |
| Targets.TargetMonotone | src/normalize/targets.cc:29-68 | over normalised forms a larger nBits never decodes to a smaller target |
| Targets.BlockHitIsShareHit | src/normalize/targets.cc:29-68 | a share form not below the block form makes every block hit a share hit |
| Subsidy.SubsidyIs | src/submit/gbt_submitter.cc:9-17 | at every height the subsidy is 5,000,000,000 satoshi divided by 2 to the number of halvings; where the code cuts it off, that is zero already |
| Subsidy.SupplyClosed | src/submit/gbt_submitter.cc:9-17 | the coins of the blocks below n, in closed form by halving eras |
| Subsidy.RewardEnds | src/submit/gbt_submitter.cc:13-16 | the subsidy is positive in exactly the first 33 eras, well before the cut at 64 |
| Subsidy.SupplyGrows | src/submit/gbt_submitter.cc:9-17 | the supply never falls, and rises with every block that still pays |
| Subsidy.SupplyBound | src/submit/gbt_submitter.cc:9-17 | the supply is at most 2,099,999,997,690,000 satoshi, with equality if and only if the height is at least 6,930,000 |

## Left out

- CpuVerify.PadExact: compares paddings, because two different paddings could in principle share a digest; from 2^40 bits on no claim is made that the digests differ.
- DeviceSha.StubAgrees: takes the midstate as given; the host stores the version in another byte order when it computes one (`src/adapters/stratum_runner.cc:244`), so nothing is stated about the midstates it uploads.
- BatchSha.SwappedIsHeader: compares the messages, because two different messages could in principle share a digest.
- Merkle.RootExact: a root shared by other lists comes with a concrete pair of colliding inputs; that none exists is not claimed.
- Midstate.FinishFromMidstate: its block transform is the same code as the CPU one, and CpuVerify.Transform stands for both.
- HitSafety.LaunchDelivers: assumes at most 64 hits in a block; HitProgress.LaunchEnds and HitOverflow.LaunchReserves say what happens otherwise, up to the read behind the shared buffer. What that read returns is not modelled.
- HitProtocol.Step: a hit is written to shared memory or the ring in one step, although its two fields are stored one after the other; no other thread reads them before the barrier or the end of the launch.
- HitRuns.RunDelivers: drains happen between launches, as the host code does, and undrained hits never exceed the capacity; nothing is said about a drain during a launch.
- Outbox.RecordLayout: takes the host as little-endian, since the source writes the fields as they lie in memory.
- Outbox.AtMostOnce: counts deliveries since the last load, because loading forgets the delivered keys; Outbox.AfterLoad says which come back.
- Outbox.FirstComeFirstServed: runs contain no drop, which would let a key in again; Outbox.AtMostOnce and Outbox.OrderKept are about all runs.
- Targets.CompactToTargetU32LE: the byte behind the local array is a parameter; what the compiler keeps there is not modelled.
- Coinbase.ParseScriptSig: reads the height as an unsigned number, since the code adds no sign byte.
- Scheduler.Backpressure.Update: the counters are unbounded integers, and the clock that decides when an update is due is left out.
- PoolRouter.NoStarvation: the list of adapters is fixed; an adapter's own normalising is a queue of ready items.
- The comparison, reservation and write of `kernel_mine_stub` and `launchPushHitsToDeviceRing`, which bypass the shared buffer.
- BatchKernel.MineThread: takes the jobs as the device holds them; uploading them, with the reversal of the share target, is left out.
- `buildMinimalWitnessCommitmentCoinbase`, which announces 38 bytes where 36 follow.
- Flush counters, occupancy, device memory and every other CUDA call than the copies, atomics and barriers.
- `clearFile`, file rotation, write failures after a file was opened, and what locks protect: methods run one at a time.
- JSON templates, RPC, sockets, TLS, configuration, logging and metrics.
- `HitRingBuffer`, `WorkSourceRegistry`, `VramPages`, `PredictabilityWorker`, micro-batch tuning, adapter states and credentials: single-branch facts.
