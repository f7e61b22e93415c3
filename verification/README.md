# Verified core of NootedDeck and the Lilu code it carries

A Dafny model, with proofs, of the code in this repository that is hardest to get right by reading it:

- **umm_malloc** (`Umm*.dfy`): a pool allocator that packs a chain of all blocks, a ring of free blocks and the
  callers' data into one array of 8-byte cells. `UmmHeap` states the heap invariant, `UmmProofs` shows what every
  splice does to it, `UmmPlaces` says where realloc puts a block and what it makes of partition and free list,
  `UmmAllocator` has the operations as methods on the cell array, and `UmmRuns` follows a client over whole runs,
  byte by byte.
- **LZVN** (`Lzvn*.dfy`): the decoder with its wide, overlapping and spilling copies (`LzvnDecoder`) refines a
  byte-at-a-time reference (`LzvnFormat`); stopping and resuming is invisible (`LzvnResume`); every exit and every
  printed stream has the meaning of its opcodes (`LzvnMeaning`); which streams hand out what the destination held
  (`LzvnZero`).
- **SHA-256** (`Sha256*.dfy`): the streaming context (`Sha256`) computes the digest of sections 5.1.1 and 6.2.2 of
  FIPS 180-4 (`Sha256Spec`). That this is the standard's function is shown bit by bit (`Sha256Bits`), for the constants by
  the roots they come from (`Sha256Roots`), and on the published one-block example round by round (`Sha256Example`).
- **Capstone's disassembly loops** (`Disassembly`): the growing-array call and the one-by-one call give the same
  records, and the 32-bit growth never yields an empty chunk (`ArrayGrowth`). **Its id cache** (`InsnLookup`).
- **hde64** (`Hde*.dfy`): `HdeInstruction` describes an instruction as the opcode table has it, part by part and error
  by error, over the definitions in `HdeFormat` and the table in `HdeTable`; `Hde64` has the pointer-walking decoder,
  which computes that description; `HdeOpcodes` lists opcode by opcode what follows, `HdeLayout` tells the whole report
  from the bytes by these lists, and `HdeRefusals` lists what the packed tables refuse.
- **NootedDeck**: the mailbox handshake with the firmware as a protocol of two parties (`SmuMailbox`), and the hook
  that injects driver entries (`DriverInjection`).

Code that updates memory is written as methods and loops over arrays and fields; each is proved against a
function or predicate on values, and the laws are lemmas about those. `dafny verify dfyconfig.toml` checks
everything. `Words` holds the few definitions that all parts share.

## What does not hold, and when it does

- A request of more than 8 * 65535 - 4 bytes can get a block that is too small, because the cell count is
  kept in 16 bits (`UmmAllocator.BlocksSuffice` has the exact limit). When the count wraps to 0, malloc destroys the
  pool if and only if there is a free block (`UmmAllocator.Pool.Malloc`), and realloc of a live block always does
  (`UmmAllocator.Pool.Realloc`).
- An LZVN match without a distance of its own copies from distance 0 when no distance was given before: its bytes are
  what the destination held. That happens exactly if the first opcode with a match carries no distance and the literals
  before it leave room (`LzvnZero.ZeroAhead`, `LzvnZero.ZeroExactly`). For all other streams what the destination held
  does not matter (`LzvnZero.HeldIrrelevant`); `LzvnZero.Leftover` and `LzvnDecoder.DecodeLeftover` show a stream for
  which it does. The decoder equals the reference in both cases (`LzvnDecoder.Decoder.Decode`).
- The mailbox can return an answer to an earlier message once an opening wait has given up. As long as none did before,
  the register the host has just read tells: every continuation is fresh exactly if it is not 0
  (`SmuMailbox.RegisterTells`). Behind that is whether a message is still unanswered (`SmuMailbox.FreshExactly`);
  `SmuMailbox.UnansweredAtPosting` leads there for every number of polls.
- The id cache agrees with a linear scan exactly if its memory was zero at the ids no entry has
  (`InsnLookup.AgreesWithScan`); `InsnLookup.StaleMemory` is an input where it was not.
- hde64's flags tell the number of immediate bytes unless an opcode had two one-byte immediates
  (`HdeFormat.ImmediatesReported`); its table has no such opcode (`HdeFormat.OneByteOnce`).
- Where code and comments differ the code is followed: `sha256.c` names FIPS 180-2, and an undefined opcode or a
  truncated end-of-stream opcode reports the position recorded before the opcode in front of it.

## Model

| member | source | states |
|---|---|---|
| `UmmAllocator.BlocksSuffice` | Lilu/umm_malloc/umm_malloc.c:129-151 | the 16-bit cell count is sufficient iff size <= 8*65535-4, is then the least sufficient one, and wraps to 0 exactly for the stated sizes |
| `UmmAllocator.DataOf` | Lilu/umm_malloc/umm_malloc.c:83-100 | the pointer handed out lies 4 bytes into its cell, so the cell can be recovered from it |
| `UmmAllocator.Pool.constructor` | Lilu/umm_malloc/umm_malloc.c:227-281 | after initialisation the invariant holds with one free block spanning cells 1 to N-2 and nothing in use |
| `UmmAllocator.Pool.SplitBlock` | Lilu/umm_malloc/umm_malloc.c:162-171 | the four field writes produce the memory with the block cut after k cells |
| `UmmAllocator.Pool.Disconnect` | Lilu/umm_malloc/umm_malloc.c:175-184 | the block is unlinked from both neighbours in the free ring and its mark is cleared |
| `UmmAllocator.Pool.AssimilateUp` | Lilu/umm_malloc/umm_malloc.c:191-210 | a free next block is absorbed and leaves the free list; otherwise nothing changes; data and all other blocks are kept |
| `UmmAllocator.Pool.AssimilateDown` | Lilu/umm_malloc/umm_malloc.c:217-223 | the block is merged into the one before it, which takes the given mark |
| `UmmAllocator.Pool.AddToFreeList` | Lilu/umm_malloc/umm_malloc.c:326-340 | the block becomes the head of the free ring and is marked |
| `UmmAllocator.Pool.AssimilateOrAdd` | Lilu/umm_malloc/umm_malloc.c:319-340 | a block with no free successor joins a free predecessor or else the head of the free list; invariant and all other blocks are kept |
| `UmmAllocator.Pool.Free` | Lilu/umm_malloc/umm_malloc.c:285-344 | NULL changes nothing; a live block is joined with its free neighbours, exactly those block numbers disappear, the free list changes as stated, no other live block changes a byte |
| `UmmAllocator.Pool.Scan` | Lilu/umm_malloc/umm_malloc.c:387-416 | the scan terminates; it yields the earliest of the smallest sufficient blocks (best fit) or the earliest sufficient one (first fit), or block 0 with the size last looked at when none fits |
| `UmmAllocator.Pool.CarveBlock` | Lilu/umm_malloc/umm_malloc.c:438-457 | the tail takes the block's place in the free ring |
| `UmmAllocator.Pool.Take` | Lilu/umm_malloc/umm_malloc.c:426-458 | exact fit or split: the picked block is handed out with exactly k cells; with k = 0 no block partition makes sense of the memory any more |
| `UmmAllocator.Pool.Malloc` | Lilu/umm_malloc/umm_malloc.c:348-474 | NULL exactly if size is 0 or no free block has enough cells, and then nothing changed; otherwise the picked block, all other blocks kept; what happens when the cell count wraps to 0 |
| `UmmAllocator.Pool.MoveData` | Lilu/umm_malloc/umm_malloc.c:600-616 | overlapping move of a block's data without its header |
| `UmmAllocator.Pool.GrowDown` | Lilu/umm_malloc/umm_malloc.c:596-602 | growing into the free block before keeps all data, now found at the new place; exactly that block leaves partition and free list |
| `UmmAllocator.Pool.Trim` | Lilu/umm_malloc/umm_malloc.c:629-633 | the tail is split off and freed, joined with a free block after it, and heads the free list; the first k cells keep their data |
| `UmmAllocator.Pool.CopyAndFree` | Lilu/umm_malloc/umm_malloc.c:614-617 | the data is found in the new block, the old one is free and joined with its free neighbours, nothing else changes |
| `UmmAllocator.Pool.Relocate` | Lilu/umm_malloc/umm_malloc.c:611-623 | NULL exactly if no free block is large enough, and then nothing changed; otherwise the block malloc picks, data moved, all other blocks kept, partition and free list exactly as stated |
| `UmmAllocator.Pool.Measure` | Lilu/umm_malloc/umm_malloc.c:536-561 | the three sizes the strategies are chosen by |
| `UmmAllocator.Pool.Extend` | Lilu/umm_malloc/umm_malloc.c:589-610 | strategies 1 to 4: the first that suffices is taken, so the block stays if it can and starts at the block before only otherwise; which neighbours leave partition and free list; all data kept |
| `UmmAllocator.Pool.Refit` | Lilu/umm_malloc/umm_malloc.c:589-633 | the in-place strategies and the final split leave exactly k cells at the stated place, the first min(old, k) cells of data, and the stated partition and free list |
| `UmmAllocator.Pool.Resize` | Lilu/umm_malloc/umm_malloc.c:530-638 | for a live block and a nonzero size: NULL iff neither the neighbourhood nor any free block suffices, and then nothing changed; otherwise which block is the answer, told from the memory before; with a cell count that wraps to 0 the pool is destroyed |
| `UmmAllocator.Pool.FreeRest` | Lilu/umm_malloc/umm_malloc.c:629-633 | cutting any live block after 0 cells and freeing the rest destroys the pool |
| `UmmAllocator.Pool.Realloc` | Lilu/umm_malloc/umm_malloc.c:478-639 | the three uses, for every size; the same address if block and next block suffice, else that of the block before if the neighbourhood suffices, else that of the block malloc picks; partition and free list after the call; data of min(old, new) cells kept; exact condition for NULL, and on failure nothing changed; no other block touched; the pool is destroyed iff the cell count wraps to 0 and there was a block to cut |
| `UmmAllocator.CarveNothing` | Lilu/umm_malloc/umm_malloc.c:426-458 | a split after 0 cells leaves memory that satisfies the invariant for no partition and no free list |
| `UmmPlaces.Neighbours` | Lilu/umm_malloc/umm_malloc.c:536-561 | the neighbours a strategy takes are free and adjoin the block, and together they have enough cells |
| `UmmPlaces.ExtendedBy` | Lilu/umm_malloc/umm_malloc.c:589-610 | the four combinations of neighbours taken, each with its place, partition and free list |
| `UmmPlaces.FreeBehind` | Lilu/umm_malloc/umm_malloc.c:589-610 | after the neighbours were taken, a free block follows exactly if one did before and was not taken |
| `UmmPlaces.TrimFits` | Lilu/umm_malloc/umm_malloc.c:629-633 | splitting off and freeing the rest gives the partition and free list stated for the whole call |
| `UmmPlaces.SameNeighbours` | Lilu/umm_malloc/umm_malloc.c:611-617 | allocating elsewhere leaves the neighbours of the block as they were, since neither had enough cells |
| `UmmAllocator.SplitNothing` | Lilu/umm_malloc/umm_malloc.c:629-633 | so does splitting a live block after 0 cells and freeing the rest: the block becomes its own successor |
| `UmmProofs.Unlink` | Lilu/umm_malloc/umm_malloc.c:175-184 | unlinking keeps chain and ring, removes exactly that block from the free list |
| `UmmProofs.Join` | Lilu/umm_malloc/umm_malloc.c:191-223 | merging two neighbours keeps the chain: bounds, mirrored links and no block in a gap |
| `UmmProofs.Absorb` | Lilu/umm_malloc/umm_malloc.c:191-210 | unlink and merge keep the whole invariant |
| `UmmProofs.Sink` | Lilu/umm_malloc/umm_malloc.c:319-325 | merging a freed block into a free predecessor keeps the whole invariant |
| `UmmProofs.Push` | Lilu/umm_malloc/umm_malloc.c:326-340 | putting a block at the head of the ring keeps the whole invariant |
| `UmmProofs.Split` | Lilu/umm_malloc/umm_malloc.c:162-171 | cutting a block in use keeps the whole invariant and adds one live block |
| `UmmProofs.Carve` | Lilu/umm_malloc/umm_malloc.c:438-457 | taking the front of a free block keeps the whole invariant, with the tail at its position in the free list |
| `UmmProofs.Write` | Lilu/umm_malloc/umm_malloc.c:83-91 | writing data of a live block, which overlays free-list links elsewhere, keeps the invariant |
| `UmmProofs.Determined` | Lilu/umm_malloc/umm_malloc.c:83-100 | memory determines its block partition and its free list: two that satisfy the invariant are equal |
| `UmmProofs.SizesSum` | Lilu/umm_malloc/umm_malloc.c:162-171 | block sizes always sum to N-1 |
| `UmmProofs.InitInv` | Lilu/umm_malloc/umm_malloc.c:227-281 | the initial memory satisfies the invariant |
| `UmmRuns.Run` | Lilu/umm_malloc/umm_malloc.c:227-639 | over any run the pool stays valid; every step does what its request asks: malloc and realloc fail exactly when no block suffices, a new block is the one the strategy picks, a resized block is where realloc puts it, and partition and free list change as stated; at every moment live blocks are exactly those in the table and large enough, and every stored byte is read back; the blocks lie inside cells 1 to N-2 and are disjoint |
| `UmmRuns.Serve` | Lilu/umm_malloc/umm_malloc.c:285-639 | one request of the run, with the exact condition for its failure |
| `UmmRuns.StepMalloc` | Lilu/umm_malloc/umm_malloc.c:348-474 | no new block exactly if the size is 0 or no free block suffices, otherwise the picked one; every stored byte still readable |
| `UmmRuns.StepFree` | Lilu/umm_malloc/umm_malloc.c:285-344 | one block less and every other stored byte still readable |
| `UmmRuns.StepRealloc` | Lilu/umm_malloc/umm_malloc.c:478-639 | fails exactly if neither the neighbourhood nor any free block suffices; otherwise the block is found at the stated place with the stored bytes below the new size; all others untouched |
| `UmmRuns.LiveDisjoint` | Lilu/umm_malloc/umm_malloc.c:162-171 | live blocks lie strictly between the end cells and do not overlap |
| `UmmRuns.MovedBytes` | Lilu/umm_malloc/umm_malloc.c:600-616 | moved cells mean moved bytes |
| `UmmRuns.MallocThenFree` | Lilu/umm_malloc/umm_malloc.c:285-474 | malloc then free restores the block partition and the set of free blocks, for exact fit and split |
| `UmmRuns.Restored` | Lilu/umm_malloc/umm_malloc.c:285-474 | the same as a law about memory before, between and after |
| `LzvnFormat.StepAt` | Lilu/lzvn/lzvn.c:147-179 | the nine opcode layouts: opcode and literal lie before the last byte, lengths at most 271, distances and which of them are checked |
| `LzvnFormat.Copy` | Lilu/lzvn/lzvn.c:488-583 | reference for one opcode, given what the destination held: how far it gets below the limit and what is left of it |
| `LzvnMeaning.ExecuteExplained` | Lilu/lzvn/lzvn.c:350-819 | one opcode: where it leads, or which exit it takes and which place is reported then |
| `LzvnDecoder.Decoder.LiteralWide` | Lilu/lzvn/lzvn.c:697-702 | the 8-byte literal loop produces the literal and spills only into room left for it |
| `LzvnDecoder.Decoder.LiteralFour` | Lilu/lzvn/lzvn.c:495-499 | the 4-byte literal store produces up to 3 literal bytes |
| `LzvnDecoder.Decoder.MatchWide` | Lilu/lzvn/lzvn.c:546-553 | the 8-byte match loop with distance at least 8 equals the byte-by-byte match, despite its spill |
| `LzvnDecoder.Decoder.MatchBytes` | Lilu/lzvn/lzvn.c:554-565 | the overlapping byte loop equals the byte-by-byte match |
| `LzvnDecoder.MatchUnique` | Lilu/lzvn/lzvn.c:534-583 | bytes that each equal the byte D places back are the expansion of the match, also for D < M |
| `LzvnDecoder.Decoder.CopyMatchOp` | Lilu/lzvn/lzvn.c:534-583 | match copy, in full or recorded as partial; with distance 0 the bytes of the destination stay |
| `LzvnDecoder.Decoder.CopyLiteralOp` | Lilu/lzvn/lzvn.c:688-733 | literal copy, in full or recorded as partial |
| `LzvnDecoder.Decoder.CopyLiteralAndMatchOp` | Lilu/lzvn/lzvn.c:488-533 | literal, then the check of the distance, then match |
| `LzvnDecoder.Decoder.ExecuteOpcode` | Lilu/lzvn/lzvn.c:350-819 | one opcode of the decoder is one opcode of the reference |
| `LzvnDecoder.Decoder.Resume` | Lilu/lzvn/lzvn.c:193-207 | a recorded partial opcode goes on where it stopped |
| `LzvnDecoder.Decoder.Decode` | Lilu/lzvn/lzvn.c:144-819 | for every stream the decoder leaves exactly the state and output of the reference, and of the reference that knows nothing of the destination unless the stream has a match with distance 0 ahead; writes nothing outside the part of the destination it was given, and stays in range |
| `LzvnDecoder.DecodeBuffer` | Lilu/lzvn/lzvn.c:821-841 | for every stream and destination the bytes produced are the reference's output |
| `LzvnDecoder.DecodeLeftover` | Lilu/lzvn/lzvn.c:534-583 | the decoder, given a stream that starts with a match of one byte, hands out the byte the buffer held |
| `LzvnDecoder.DecodeInPieces` | Lilu/lzvn/lzvn.c:193-205 | the decoder driven with growing destination ends leaves what one call would |
| `LzvnResume.CopyPause` | Lilu/lzvn/lzvn.c:511-573 | an opcode cut off at a lower limit and resumed is the opcode under the higher limit |
| `LzvnResume.DecodePause` | Lilu/lzvn/lzvn.c:193-205 | a call that fills its destination, continued with a larger one, ends as one call with the larger one |
| `LzvnResume.DecodeValid` | Lilu/lzvn/lzvn.c:181-207 | every state reported can be passed back |
| `LzvnResume.PauseTransparent` | Lilu/lzvn/lzvn.c:193-205 | any growing sequence of limits gives the same output, positions, distance and end-of-stream as one uninterrupted run |
| `LzvnMeaning.CopyMeaning` | Lilu/lzvn/lzvn.c:488-583 | copying under a limit agrees with the meaning of the opcode or of a part of it |
| `LzvnMeaning.ExitExplained` | Lilu/lzvn/lzvn.c:350-819 | on every exit the source consumed expands to exactly the output reported, and nothing expanded is lost: a truncated opcode or one with a bad distance is reported where it starts, an undefined or cut-off end-of-stream opcode where the opcode before it starts, a full destination inside its opcode |
| `LzvnZero.ZeroExactly` | Lilu/lzvn/lzvn.c:144-819 | a match with distance 0 is met iff the stream has one ahead: either it is pending, or no match comes before it and the literals leave room |
| `LzvnZero.HeldIrrelevant` | Lilu/lzvn/lzvn.c:534-583 | without one ahead, output and state do not depend on what the destination held |
| `LzvnZero.Leftover` | Lilu/lzvn/lzvn.c:534-583 | a stream whose output is the byte the destination held |
| `LzvnZero.ReachAgrees` | Lilu/lzvn/lzvn.c:350-819 | the opcodes so far do not depend on what the destination holds beyond their output |
| `LzvnMeaning.ReadPrinted` | Lilu/lzvn/lzvn.c:147-179 | every encodable operation, printed, is read back as itself |
| `LzvnMeaning.CopiesPrinted` | Lilu/lzvn/lzvn.c:147-179 | whatever the decoder carries out is the print of an operation |
| `LzvnMeaning.StepsExactly` | Lilu/lzvn/lzvn.c:147-179 | what is carried out, truncated, undefined or the end, by the printed operations alone |
| `LzvnMeaning.RoundTrip` | Lilu/lzvn/lzvn.c:144-819 | printing any operation list with an end-of-stream opcode and decoding it gives the expansion of the list |
| `Sha256.Context.Init` | Lilu/sha256/sha256.c:84-96 | the context after no bytes |
| `Sha256.Context.Expand` | Lilu/sha256/sha256.c:47-50 | the message schedule of section 6.2.2 of FIPS 180-4 |
| `Sha256.Context.Mix` | Lilu/sha256/sha256.c:52-72 | the 64 rounds |
| `Sha256.Context.Transform` | Lilu/sha256/sha256.c:43-82 | one block compressed into the hash value |
| `Sha256.Context.Push` | Lilu/sha256/sha256.c:103-110 | one byte: buffered, or the block compressed and 512 bits counted |
| `Sha256.Context.Update` | Lilu/sha256/sha256.c:98-111 | the context is that after all bytes so far: counter 512 times the blocks, buffer the unhashed tail, fewer than 64 bytes |
| `Sha256.Context.PadBuffer` | Lilu/sha256/sha256.c:119-131 | both padding branches |
| `Sha256.Context.Final` | Lilu/sha256/sha256.c:113-157 | the 32 bytes are the digest of everything given to update |
| `Sha256.Hash` | Lilu/sha256/sha256.c:84-157 | init, any updates, final: the digest of the parts put together |
| `Sha256.AbsorbNext` | Lilu/sha256/sha256.c:98-111 | one more byte from the context after msg gives the context after msg and that byte |
| `Sha256.AbsorbAllAfter` | Lilu/sha256/sha256.c:98-111 | an update of any length does the same |
| `Sha256.UpdateSplit` | Lilu/sha256/sha256.c:98-111 | update(a) then update(b) is update(a ++ b) |
| `Sha256.DigestBlocks` | Lilu/sha256/sha256.c:119-143 | the one or two last blocks built in the buffer are the end of the padded message |
| `Sha256Spec.PadZerosLeast` | Lilu/sha256/sha256.c:119-131 | the number of zero bytes is the least possible, as section 5.1.1 of FIPS 180-4 asks |
| `Sha256Spec.BigEndianValue` | Lilu/sha256/sha256.c:133-142 | the length field, read as a number, is the length |
| `Sha256Spec.BigEndianByte` | Lilu/sha256/sha256.c:133-142 | the shifts produce the big-endian bytes |
| `Sha256Spec.ChainPrefix` | Lilu/sha256/sha256.c:43-82 | the hash value after some blocks does not depend on what follows |
| `Sha256Bits.ChBit` | Lilu/sha256/sha256.c:23-23 | every bit is that of y where x has a bit and that of z elsewhere |
| `Sha256Bits.MajBit` | Lilu/sha256/sha256.c:24-24 | every bit is what at least two arguments have |
| `Sha256Bits.RotrBit` | Lilu/sha256/sha256.c:21-21 | bit i is bit i + n, around the word |
| `Sha256Bits.BigSigmaBits` | Lilu/sha256/sha256.c:25-26 | the three bits that each bit combines |
| `Sha256Bits.SmallSigmaBits` | Lilu/sha256/sha256.c:27-28 | the same with a shift, which brings in zeros |
| `Sha256Roots.FirstPrimes` | Lilu/sha256/sha256.c:31-40 | the list behind the constants has all primes up to 311 and nothing else |
| `Sha256Roots.PrimesInOrder` | Lilu/sha256/sha256.c:31-40 | in increasing order |
| `Sha256Roots.ConstantRoots` | Lilu/sha256/sha256.c:31-40 | every round constant is the first 32 fraction bits of the cube root of its prime |
| `Sha256Roots.InitialRoots` | Lilu/sha256/sha256.c:88-95 | every word of the initial hash value is the first 32 fraction bits of the square root of its prime |
| `Sha256Example.AllWords` | Lilu/sha256/sha256.c:47-50 | the 64 schedule words of the published example |
| `Sha256Example.AllRounds` | Lilu/sha256/sha256.c:52-72 | its working variables after 64 rounds, reached through the published values after every single round |
| `Sha256Example.DigestOfAbc` | Lilu/sha256/sha256.c:84-157 | the published digest of "abc" |
| `Disassembly.StepsAligned` | Lilu/capstone/cs.c:500-530 | skipped data has 4 bytes on Arm64, Mips, Ppc, Sparc and Arm, 2 in Thumb mode and on SystemZ and XCore, 1 on X86, where nothing is left over |
| `Disassembly.SkipFresh` | Lilu/capstone/cs.c:561-569 | so does a fresh handle on which skipping is switched on |
| `Disassembly.Handle.SetSkipdata` | Lilu/capstone/cs.c:561-569 | the step is chosen when skipping is first switched on, and never 0 while it is on |
| `Disassembly.Cursor.Iter` | Lilu/capstone/cs.c:873-962 | one record and the cursor behind it, or false and the cursor unchanged |
| `Disassembly.Stepwise` | Lilu/capstone/cs.c:873-962 | calling it repeatedly lists the records, up to the count asked for |
| `Disassembly.FillSlot` | Lilu/capstone/cs.c:672-752 | one slot gets the next record and no other slot changes |
| `Disassembly.NextSlot` | Lilu/capstone/cs.c:764-789 | records stay in their slots across every growth by 8/5 |
| `Disassembly.Fill` | Lilu/capstone/cs.c:672-794 | record i is in slot i, for every growth, every exit of the loop and every length of the code |
| `Disassembly.Shrink` | Lilu/capstone/cs.c:800-818 | exactly the used slots remain |
| `Disassembly.Limited` | Lilu/capstone/cs.c:760-761 | the records handed out are the first count ones, all of them for count 0 |
| `Disassembly.Batch` | Lilu/capstone/cs.c:620-824 | exactly c slots with the records of the listing, cut to the count asked for; no array if there is none |
| `Disassembly.BothWays` | Lilu/capstone/cs.c:620-962 | the array and the repeated single steps give the same ids, addresses, sizes and bytes |
| `ArrayGrowth.Enlarged` | Lilu/capstone/cs.c:766-766 | a chunk never shrinks below 2^29 slots; the next one is empty exactly after a multiple of 2^29 |
| `ArrayGrowth.Unreached` | Lilu/capstone/cs.c:764-789 | no size has eleven ancestors on the way to 2^29 under the 32-bit growth |
| `ArrayGrowth.NeverEmpty` | Lilu/capstone/cs.c:764-789 | starting from 1 to 8 slots, no chunk is ever empty |
| `ArrayGrowth.AlwaysRoomy` | Lilu/capstone/cs.c:764-789 | so however many records there are, each has a slot |
| `Disassembly.Resume` | Lilu/capstone/cs.c:791-793 | going on behind the first i records gives the remaining ones |
| `Disassembly.RecordAt` | Lilu/capstone/cs.c:449-460 | record i has the address, modulo 2^64, of the bytes it describes, the last 16 at most of them, and the decoder's id and size for them; skipped data has id 0 and the size of one step |
| `Disassembly.Covered` | Lilu/capstone/cs.c:719-722 | the records tile the code up to the first place that can neither be decoded nor skipped; with one-byte steps, all of it |
| `InsnLookup.Scan` | Lilu/capstone/utils.c:15-40 | reference: the largest index other than 0 with this id, or 0 |
| `InsnLookup.Cache.Build` | Lilu/capstone/utils.c:15-27 | the cache holds the scan's answer where there is one and otherwise what the memory held |
| `InsnLookup.Cache.Find` | Lilu/capstone/utils.c:31-40 | first and cached calls give the same answer; an id beyond the last is not found |
| `InsnLookup.AgreesWithScan` | Lilu/capstone/utils.c:15-40 | lookup equals linear scan iff the memory was zero at ids without entry |
| `InsnLookup.StaleMemory` | Lilu/capstone/utils.c:20-27 | an input where it does not |
| `HdeTable.FlagsListed` | Lilu/hde/table64.h:37-74 | every opcode of both maps leads to one of the listed flag bytes |
| `HdeTable.FirstMap` | Lilu/hde/table64.h:37-74 | the first opcode map stays inside the table |
| `HdeTable.SecondMap` | Lilu/hde/table64.h:37-74 | so does the second |
| `HdeTable.PrefixMap` | Lilu/hde/table64.h:37-74 | so does the prefix map |
| `HdeTable.WideOpcodes` | Lilu/hde/table64.h:37-74 | the opcodes with 64-bit operands have one immediate and nothing else |
| `HdeTable.GroupBytes` | Lilu/hde/table64.h:37-74 | no group has an 8-bit relative operand |
| `Hde64.Disassembler.ReadPrefixes` | Lilu/hde/hde64.c:23-53 | how many prefixes are taken, 15 at most besides the byte used as opcode, and the last of every kind |
| `Hde64.Disassembler.ReadRex` | Lilu/hde/hde64.c:60-71 | REX fields, 64-bit operands, and the error of two REX bytes |
| `Hde64.Disassembler.ReadOpcode` | Lilu/hde/hde64.c:73-84 | one or two opcode bytes and the operand size of 0xa0 to 0xa3 |
| `Hde64.Disassembler.LookUp` | Lilu/hde/hde64.c:85-101 | operands and group mask of the opcode, inside the table; error for opcodes without entry |
| `HdeRefusals.PrefixesRefused` | Lilu/hde/hde64.c:103-107 | a two-byte opcode is refused iff it has a prefix from its list of excluded ones; the list is given opcode by opcode |
| `Hde64.Disassembler.ReadModrm` | Lilu/hde/hde64.c:110-114 | the ModRM byte and its three parts |
| `HdeRefusals.ExtensionsRefused` | Lilu/hde/hde64.c:116-130 | an extension is refused iff its group does not have it or it is a floating-point encoding that does not exist; both are given opcode by opcode |
| `HdeRefusals.FpuExactly` | Lilu/hde/hde64.c:119-129 | the bit tables of 0xd9 to 0xdf refuse exactly the listed encodings |
| `Hde64.Disassembler.ScanPairs` | Lilu/hde/hde64.c:136-151 | the stride-2 scan hits its end pointer and decides by the first matching pair |
| `Hde64.Disassembler.ScanTriples` | Lilu/hde/hde64.c:188-204 | the stride-3 scan hits its end pointer and decides by the first matching triple |
| `Hde64.Disassembler.CheckLock` | Lilu/hde/hde64.c:132-156 | error exactly if a locked instruction has no memory operand or is not listed |
| `HdeRefusals.LocksRefused` | Lilu/hde/hde64.c:132-156 | the packed pairs list exactly the lockable instructions |
| `HdeRefusals.OperandsRefused` | Lilu/hde/hde64.c:158-224 | an operand is refused iff it names a control, debug or segment register that does not exist, or is a register where memory is needed, or memory where a register is |
| `HdeRefusals.RegistersRefused` | Lilu/hde/hde64.c:188-204 | the packed triples list exactly the instructions that need memory, with their prefixes |
| `Hde64.Disassembler.ReadSib` | Lilu/hde/hde64.c:226-262 | SIB byte and displacement size, through the pointer going forth and back |
| `Hde64.Disassembler.ReadDisplacement` | Lilu/hde/hde64.c:263-276 | the displacement bytes and their flag |
| `Hde64.Disassembler.ReadImmediates` | Lilu/hde/hde64.c:280-322 | which immediates follow, through the jumps between the branches, and what the union holds |
| `Hde64.Disassembler.Disassemble` | Lilu/hde/hde64.c:15-332 | for every 32 bytes all reported fields are those of the instruction as the table describes it, no byte beyond 32 is read, and the result is the length cut to 15 |
| `HdeInstruction.PartsFit` | Lilu/hde/hde64.c:15-332 | every instruction the table describes lies in the first 32 bytes |
| `HdeInstruction.Consistent` | Lilu/hde/hde64.c:15-332 | prefixes + REX + opcode + ModRM + SIB + displacement + immediates, as flags and fields report them, are the length, and each part is where it is reported |
| `HdeOpcodes.OperandsListed` | Lilu/hde/table64.h:37-74 | the table says of every opcode what the lists say: no entry, ModRM, immediates and jump distances |
| `HdeLayout.HeadFromBytes` | Lilu/hde/hde64.c:23-101 | prefixes, REX, opcode, operand size and operands, by the bytes and the lists |
| `HdeLayout.Addressing` | Lilu/hde/hde64.c:109-276 | ModRM by the list; SIB and the size of the displacement by the ModRM and SIB bytes and prefix 67 |
| `HdeLayout.Immediate` | Lilu/hde/hde64.c:280-322 | which immediates follow, by the lists, the extension, the prefixes and REX |
| `HdeLayout.Extent` | Lilu/hde/hde64.c:324-332 | the length is the sum of the parts |
| `HdeLayout.Values` | Lilu/hde/hde64.c:23-114 | the last prefix of every kind, the REX bits, the opcode bytes and the parts of ModRM and SIB |
| `HdeLayout.LastImmediate` | Lilu/hde/hde64.c:280-322 | the union holds the last immediate |
| `HdeInstruction.ErrorFlags` | Lilu/hde/hde64.c:15-332 | each error flag is set exactly if its refusal applies to the whole instruction, and the common one iff any is |
| `HdeRefusals.Errors` | Lilu/hde/hde64.c:15-332 | the error flags of a whole instruction, by its bytes and the lists |
| `HdeRefusals.ErrorsListed` | Lilu/hde/hde64.c:15-332 | the error flags of a whole instruction in terms of the lists |
| `HdeFormat.ImmediatesReported` | Lilu/hde/hde64.c:280-322 | the flags tell the immediate bytes iff there are not two one-byte immediates; at most 8 bytes, 12 with a 64-bit operand |
| `HdeFormat.OneByteOnce` | Lilu/hde/hde64.c:84-101 | no opcode of the table, with any extension, has two one-byte immediates |
| `SmuMailbox.WaitForResponse` | NootedDeck/NDeck.cpp:238-250 | at most as many polls as allowed; the first nonzero value, or 0 if there was none |
| `SmuMailbox.HostKeeps` | NootedDeck/NDeck.cpp:252-264 | every register access of the host keeps the core invariant, except an opening wait that gives up |
| `SmuMailbox.AnswerKeeps` | NootedDeck/NDeck.cpp:252-264 | so does every answer of the firmware |
| `SmuMailbox.RunKeeps` | NootedDeck/NDeck.cpp:238-264 | over every interleaving |
| `SmuMailbox.ResponseIsFresh` | NootedDeck/NDeck.cpp:238-264 | as long as no opening wait timed out, a nonzero response and the parameter returned with it answer the message just posted; an answer given while the host waits is not lost; no wait polls more often than allowed |
| `SmuMailbox.AnswerReturned` | NootedDeck/NDeck.cpp:238-264 | as long as polls are left, an answer to the message just posted is returned next, and without one the host goes on waiting |
| `SmuMailbox.MessagesDelivered` | NootedDeck/NDeck.cpp:252-264 | as long as no opening wait timed out, the firmware finds the messages of all calls in order, each with its own parameter |
| `SmuMailbox.RegisterTells` | NootedDeck/NDeck.cpp:252-264 | over every run: when an opening wait is over and none timed out before it, every continuation is fresh iff the response register is not 0 |
| `SmuMailbox.FreshExactly` | NootedDeck/NDeck.cpp:252-264 | the same in terms of the firmware: iff no message is unanswered then |
| `SmuMailbox.StaleAnswerPossible` | NootedDeck/NDeck.cpp:252-264 | the interleaving that returns a stale answer |
| `SmuMailbox.UnansweredAtPosting` | NootedDeck/NDeck.cpp:238-264 | for every two messages and every number of polls, two waits that give up leave the first message unanswered when the second is posted |
| `DriverInjection.Match` | NootedDeck/NDeck.cpp:543-547 | the first known bundle that the entry names and that was not matched before |
| `DriverInjection.EntryArray.SetObject` | NootedDeck/NDeck.cpp:571-571 | setting an object at an index inserts it |
| `DriverInjection.Hook.InsertAt` | NootedDeck/NDeck.cpp:568-574 | the list is inserted contiguously and in order and the index moves past it |
| `DriverInjection.Hook.Visit` | NootedDeck/NDeck.cpp:534-579 | one entry: left alone, or with its bundle's list in front |
| `DriverInjection.Hook.AddDrivers` | NootedDeck/NDeck.cpp:529-583 | the loop with its shifting index and count terminates and produces the entry-by-entry specification; inserted entries are not looked at |
| `DriverInjection.OriginalsRestored` | NootedDeck/NDeck.cpp:529-583 | deleting the inserted entries gives back the array |
| `DriverInjection.InjectedOnce` | NootedDeck/NDeck.cpp:529-583 | a call inserts the complete list of each bundle it newly matches, once, and nothing of others |
| `DriverInjection.PlacedBeforeFirst` | NootedDeck/NDeck.cpp:543-577 | directly in front of the first entry that names the bundle |
| `DriverInjection.OnceOverAllCalls` | NootedDeck/NDeck.cpp:527-583 | over any number of calls each list is inserted at most once, and exactly once if its bundle was matched |

## Left out

- UmmRuns.Run: requests above 8 * 65535 - 4 bytes are not made, since their blocks can be too small for what was asked.
- Sha256.Context.Update: only inputs below 2^32 bytes; for longer ones the 32-bit index never reaches the end.
- Disassembly.Batch: for a decoder that depends on nothing but bytes and address, without a skipdata callback and without failing allocations; Thumb IT-block state, operand text and details are not modelled.
- Hde64.Disassembler.Disassemble: does not claim that the table describes the x86-64 instruction set.
- umm_calloc, the critical-section macros, the integrity, poison and info files, and the lazy call of umm_init (it is the constructor).
- The two's-complement and pointer arithmetic of the pool: cells are indices, addresses are offsets from the pool.
- The jump table of labels in lzvn.c as a mechanism; there is one classifier of opcodes.
- ReadRegion32Bit and WriteRegion32Bit's indirect path, ProcessSMUFWResponse and the sleeping between polls; the number of polls is a parameter and a register access is one step.
- XML parsing, panics and 32-bit counts in WrapAddDrivers; each bundle's list of entries is a parameter.
- hde32, which has the same shape and is not compiled for x86-64; the other helpers of capstone's utils.c and its architecture decoders and printers.
- The rest of NootedDeck and Lilu: hooks, IOKit calls, patch tables, VBIOS retrieval and logging.
