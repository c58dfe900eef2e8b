# v86d: a verified model of the emulator core, the real-mode allocator and the VBE call path

v86d runs real-mode video BIOS calls for the kernel. This project models, in Dafny, the parts of it whose
correctness is not visible from reading one body, and proves what they are for:

- **x86emu's integer primitives.** They find CF, OF and AF from closed-form carry and borrow chains, rotate through
  carry without looping, multiply 32 by 32 bits out of 16-bit halves and divide 64 by 32 bits on split registers.
  Each operation is a method on the mutable `Machine`, proved against a specification that does not mention the
  chains: sums, differences, signed ranges, one-bit rotates, products, quotients. The chain facts are proved once,
  by induction, for every width.
- **The real-mode block allocator** of `v86_mem.c` and `lrmi.c`: a class over the array of records that is shifted in
  place, proved against operations on a table, and the table operations against the map of live regions. The central
  fact is that the live regions determine the table, which gives "free undoes alloc" and "freeing everything in any
  order leaves one free block" without looking at interleavings.
- **Their users**: the byte string instructions with REP prefixes, PUSHA/POPA, INT/IRET over memory with 16-bit
  wrap, the trampoline `v86_int` around an arbitrary guest, and `v86_task`'s packing of a VBE Info Block into a
  buffer of limited length.

| file | contents |
|---|---|
| `Words.dfy`, `Chains.dfy` | bits of naturals; the carry and borrow chains at any width |
| `Machine.dfy` | registers, FLAGS, prefixes, memory |
| `Arith.dfy`, `Limbs.dfy` | ADD to NEG; DAA and DAS; multi-limb and packed-BCD runs |
| `Conditions.dfy` | the condition tables of Jcc (two encodings) and SETcc |
| `Rotates.dfy`, `MulDiv.dfy` | RCL and RCR; MUL, IMUL and DIV |
| `Blocks.dfy`, `Histories.dfy`, `Allocator.dfy` | the allocator: table operations, histories, the array program |
| `Strings.dfy`, `Stacks.dfy`, `Trampoline.dfy` | MOVS, STOS, CMPS, SCAS; the stack; `v86_int` |
| `VbeInfo.dfy`, `VbeLayout.dfy`, `VbeTask.dfy` | `v86_task`: the packing step by step; what stands in the finished buffer and what follows it; the whole request |

`dafny verify dfyconfig.toml` checks all of it.

## Where the code and what it promises differ

The model follows the code. The Intel SDM (volume 1, section 3.4.3.1 and appendix B; volume 2 for the instructions)
says what the instructions are meant to do. In these places the two differ, and the lemma named gives the exact
condition:

- `mul_long` without a 64-bit type loses the carry out of its cross sum, so EDX is 2^16 too small exactly when that
  sum reaches 2^32 (`MulDiv.MulExactIff`). EAX, CF and OF are right all the same (`MulDiv.MulFlagsRight`).
  The largest operands are an instance (`MulDiv.MulWitness`).
- `imul_word` and `imul_long` compare the high word with 0xFF instead of all ones (`MulDiv.ImulFlagsIff`,
  `MulDiv.ImulWitness`).
- `div_long` without a 64-bit type misses overflow for s <= EDX until the dividend passes s * 2^33
  (`MulDiv.DivShiftIff`, `MulDiv.DivShiftWitness`). With a 64-bit type its test never fires; the two paths part at
  s * 2^33 (`MulDiv.DivPathsAgree`, `MulDiv.DivPathsWitness`).
- SETNL lacks the negation of its jump (`Conditions.SetAgrees`).
- POPAD skips the stored ESP with a 32-bit addition, so PUSHAD;POPAD changes the upper half of ESP exactly when SP
  was 16 to 19 (`Stacks.PopAllUndoesPushAll`). `x86emu_do_int` moves all of ESP, so IRET restores it exactly when SP
  was at least 6; IRET also clears the upper half of FLAGS (`Stacks.IretUndoesInt`).
- `das_byte` tests AL for the high correction after the low one and does not set CF for the low one's borrow
  (`Limbs.DasArchIff`, `Limbs.DasWitness`).
- The rotate handlers do not mask the distance to five bits, so from 32 on RCL and RCR turn by another distance
  (`Rotates.MaskedDistance`).
- RCL of a 32-bit operand by 32 places shifts by 32, which C leaves undefined: CF is right, and the value iff that
  shift adds no bit (`Rotates.Rcl`, `Rotates.RclWitness`). The other shifts by 32 are masked off.
- The VBE packing does not stay inside buf_len bytes (`VbeLayout.KeptIff`): a ROM string that fills the room has its
  terminator at byte buf_len (`VbeLayout.SpillWitness`); a copied mode list runs over for lengths below 514, and for
  odd lengths when it fills the room (`VbeLayout.RomListFits`, `VbeLayout.OddListWitness`); a list in the header that
  is cut may be cut past the end; a string in the header
  without a zero has one stored just past the header (`VbeLayout.CutWitness`). In a longer buffer that zero can fall
  into a string copied before (`VbeLayout.RomStringStands`, `VbeLayout.StruckWitness`) or into the mode list.
- Where the header is longer than the 512 bytes below the data area, a mode list or a string in its upper part is copied
  over by the list or the strings from ROM, and its offset leads to something else (`VbeLayout.HeaderStringStands`,
  `VbeLayout.HeaderListUncovered`, `VbeLayout.ListLostWitness`, `VbeLayout.StringLostWitness`).
- A pointer that leads below the buffer in real-mode memory (t < lbuf), such as a null pointer, is taken to lead into
  the header, and its offset wraps to one far outside the buffer (`VbeLayout.OffsetInHeaderIff`).
- A request for zero bytes yields an address that the next allocation yields again (`Blocks.ZeroSizeShares`,
  `Blocks.AllocWellFormedIff`), though freeing it at once still restores the table (`Histories.AllocThenFree`).
- The hooked interrupt handler clears VIF and leaves IF on, unlike the table path (`Stacks.IntEnters`).

## Model

| member | source | states |
|---|---|---|
| Chains.FullAdder | libs/x86emu/prim_ops.c:38-69 | the truth table of the note at the top of the file, for numbers of any size: position i carries out iff both operand bits are set, or one is and the sum bit is clear |
| Chains.CarryChainBit | libs/x86emu/prim_ops.c:38-69 | at every width and for either carry in, bit i of the carry chain is the carry out of position i of d + s + c |
| Chains.BorrowChainBit | libs/x86emu/prim_ops.c:73-96 | bit i of the borrow chain is the borrow out of position i of d - s - c, at every width |
| Arith.ParityTable | libs/x86emu/prim_ops.c:113-124 | the 256-bit table behind PARITY answers "an even number of bits set" for every byte; proved from its Thue-Morse structure |
| Arith.OverflowChains | libs/x86emu/prim_ops.c:38-96 | the carries (borrows) out of the two top positions differ iff the signed sum (difference) does not fit; the top one is unsigned overflow |
| Arith.AddTests | libs/x86emu/prim_ops.c:246-249 | XOR2 of the chain's top bits is signed overflow, and bit 3 the nibble carry, when the chain is taken in a 32-bit register |
| Arith.SubTests | libs/x86emu/prim_ops.c:1985-1989 | the same three readings of the borrow chain: signed overflow, nibble borrow, unsigned borrow |
| Arith.LongSum | libs/x86emu/prim_ops.c:287-302 | bit 16 of the half-wise sum is the carry out of the 32-bit addition |
| Arith.AdcNarrow | libs/x86emu/prim_ops.c:230-278 | adc_byte and adc_word: the wrapped sum with CF in, and all six flags by their meaning (CF unsigned overflow, OF signed overflow, AF nibble carry, ZF, SF, PF of the result), other bits kept |
| Arith.AdcLong | libs/x86emu/prim_ops.c:284-312 | the same at 32 bits, where CF comes from the 16-bit halves |
| Arith.AddNarrow | libs/x86emu/prim_ops.c:318-360 | add_byte and add_word: sum and flags without carry in |
| Arith.AddLong | libs/x86emu/prim_ops.c:364-387 | add_long: sum and flags |
| Arith.Inc | libs/x86emu/prim_ops.c:642-702 | the three INC widths: ADD of 1 except that CF is kept, although inc_byte brackets its chain differently |
| Arith.IncByteChain | libs/x86emu/prim_ops.c:654-656 | inc_byte's differently bracketed chain is read to the same effect as the documented one |
| Arith.Sub | libs/x86emu/prim_ops.c:1973-2036 | the three SUB widths: wrapped difference and the six flags by their meaning |
| Arith.Sbb | libs/x86emu/prim_ops.c:1895-1967 | the three SBB widths, CF as the borrow in |
| Arith.Cmp | libs/x86emu/prim_ops.c:456-520 | CMP leaves exactly the flags of SUB and returns its operand |
| Arith.Dec | libs/x86emu/prim_ops.c:570-636 | DEC is SUB of 1 except that CF is kept |
| Arith.Neg | libs/x86emu/prim_ops.c:768-842 | NEG is SUB from 0 in result and flags, although its chain is simplified and CF set beforehand |
| Arith.NegChainBit | libs/x86emu/prim_ops.c:769-788 | NEG's chain (the result or-ed with s) has the bits of the borrow chain of 0 - s |
| Limbs.DaaByte | libs/x86emu/prim_ops.c:526-543 | daa_byte computes the two-digit correction that DaaExact is about, flags included |
| Limbs.DasByte | libs/x86emu/prim_ops.c:549-564 | das_byte likewise, for DasExact |
| Limbs.DaaDasFlags | libs/x86emu/prim_ops.c:526-564 | AF after DAA and DAS says whether the low digit was corrected, ZF, SF and PF describe the result, OF and the rest stay |
| Limbs.DaaIsArch | libs/x86emu/prim_ops.c:526-543 | daa_byte corrects AL and sets CF as the SDM's DAA does, for every byte and every AF and CF |
| Limbs.DasArchIff | libs/x86emu/prim_ops.c:549-564 | das_byte agrees with the SDM's DAS iff CF is set, or AL is in none of three ranges |
| Limbs.DasWitness | libs/x86emu/prim_ops.c:556-559 | AL = 0x9A with AF and CF clear, where it does not |
| Limbs.DaaExact | libs/x86emu/prim_ops.c:526-543 | ADC;DAA on two-digit operands gives two decimal digits, and with CF as hundreds they are the decimal sum |
| Limbs.DasExact | libs/x86emu/prim_ops.c:549-564 | SBB;DAS gives the decimal difference, with CF as the borrowed hundred |
| Limbs.StepExact | libs/x86emu/prim_ops.c:230-312 | one limb of ADC, SBB, ADC;DAA or SBB;DAS: result limb and CF out account exactly for the operands and CF in |
| Limbs.RunExact | libs/x86emu/prim_ops.c:1895-1967 | folded over little-endian limbs of any number and width these compute the exact sum or difference, CF being the final carry or borrow; in binary, and in decimal with DAA and DAS |
| Conditions.SignedOrder | libs/x86emu/prim_ops.c:456-520 | after d - s: SF differs from OF iff d is below s as signed numbers, CF iff as unsigned ones, ZF iff equal |
| Conditions.ShortAfterCmp | libs/x86emu/ops.c:5117-5496 | after CMP of d and s at any width, each of the sixteen short jumps is taken iff the relation in its name holds |
| Conditions.LongAgrees | libs/x86emu/ops2.c:120-187 | near jumps take the same decision as short ones on every state of the flags |
| Conditions.SetAgrees | libs/x86emu/ops2.c:214-281 | SETcc agrees with the jumps iff the code is not 0x9d |
| Conditions.JumpShort | libs/x86emu/ops.c:5117-5134 | IP moves past the displacement, and by the sign-extended byte modulo 2^16 when the condition holds |
| Conditions.JumpLong | libs/x86emu/ops2.c:190-195 | the same for the word displacement, although the target is summed from two sign-extended halves |
| Rotates.RotLBit | libs/x86emu/prim_ops.c:884-908 | where each of the w+1 bits of CF:d comes from after n single-bit left rotates |
| Rotates.RotRBit | libs/x86emu/prim_ops.c:1005-1026 | the same for right rotates |
| Rotates.FullTurn | libs/x86emu/prim_ops.c:896-898 | w + 1 single-bit rotates are none, so the distance counts modulo w + 1 |
| Rotates.RotCompose | libs/x86emu/prim_ops.c:878-1145 | rotating by a and then b is rotating by a + b, either way |
| Rotates.RotUndo | libs/x86emu/prim_ops.c:878-1145 | RCR by n undoes RCL by n, on value and CF |
| Rotates.RclRight | libs/x86emu/prim_ops.c:909-934 | rcl's closed form, for every width and distance, is that many single-bit rotates of CF:d |
| Rotates.RcrRight | libs/x86emu/prim_ops.c:1027-1067 | rcr's closed form likewise, at widths up to 32 |
| Rotates.Rcl | libs/x86emu/prim_ops.c:878-993 | rcl_byte, rcl_word, rcl_long, for every distance and whatever a shift by 32 gives: CF and the value of the single-bit rotates, with the undefined shift or-ed in at residue 32 of the 32-bit form; OF defined at distance 1, cleared at others, kept at 0 |
| Rotates.RclWitness | libs/x86emu/prim_ops.c:981-991 | rotating 1 by 32 gives 0 and CF, while a shift by 32 that does nothing adds the 1 back |
| Rotates.MaskedDistance | libs/x86emu/ops.c:9735-9744 | the handlers pass the distance unmasked: up to 31 it is the SDM's, and from 32 on value or CF differ at every width, for a ring with one bit set |
| Rotates.Rcr | libs/x86emu/prim_ops.c:999-1145 | rcr_byte, rcr_word, rcr_long, for every distance and whatever a shift by 32 gives: value and CF of the single-bit rotates; OF written at distance 1 only |
| MulDiv.PartialProduct | libs/x86emu/prim_ops.c:2311-2320 | EDX:EAX assembled from halves is the product less 2^48 times the carry out of the cross sum |
| MulDiv.MulHalves | libs/x86emu/prim_ops.c:2220-2224 | the register-level computation of those halves, every step in 32 bits |
| MulDiv.MulExactIff | libs/x86emu/prim_ops.c:2298-2321 | the 64-bit product is exact iff the cross sum stays below 2^32 |
| MulDiv.MulWitness | libs/x86emu/prim_ops.c:2298-2321 | for the largest operands the cross sum overflows and the product is wrong |
| MulDiv.MulFlagsRight | libs/x86emu/prim_ops.c:2323-2330 | the computed EDX is 0 iff the true product fits 32 bits, also where EDX is wrong |
| MulDiv.MulLong | libs/x86emu/prim_ops.c:2298-2331 | mul_long: EDX:EAX is the product less 2^48 iff the cross sum overflows, CF and OF iff the product needs EDX, nothing else changes |
| MulDiv.Negate64 | libs/x86emu/prim_ops.c:2225-2230 | the 64-bit negation with its carry read off 16-bit halves is negation |
| MulDiv.ImulLongDirect | libs/x86emu/prim_ops.c:2199-2232 | the fallback returns the exact 64-bit two's-complement product for all operands, which is what the 64-bit path computes |
| MulDiv.ImulFlagsIff | libs/x86emu/prim_ops.c:2184-2191 | for all operands of imul_word and imul_long: the test on the words answers "fits" correctly iff the product is not a negative number that fits, nor one of the positive ones with high word 0xFF |
| MulDiv.ImulTest | libs/x86emu/prim_ops.c:2242-2243 | which products pass the comparison with 0xFF |
| MulDiv.ImulWitness | libs/x86emu/prim_ops.c:2184-2191 | -1 times 1, and 4095 times 4096 (2^20 - 1 times 2^20), at which CF and OF are wrong, one way and the other |
| MulDiv.ImulWord | libs/x86emu/prim_ops.c:2177-2193 | imul_word: the exact signed product in DX:AX, upper halves kept; CF and OF as functions of the product, right iff ImulFlagsRight |
| MulDiv.ImulLong | libs/x86emu/prim_ops.c:2238-2251 | imul_long: the exact signed product in EDX:EAX; CF and OF as functions of the product, right iff ImulFlagsRight |
| MulDiv.DivStep | libs/x86emu/prim_ops.c:2550-2569 | one step keeps "dividend = s * quotient so far * 2^k + rest" with the rest below s * 2^k, or, past the range, all quotient bits set |
| MulDiv.SplitSubtract | libs/x86emu/prim_ops.c:2552-2562 | the compare and subtract on split registers, borrow included, are those on 64-bit numbers |
| MulDiv.ShiftSubtract | libs/x86emu/prim_ops.c:2537-2574 | the loop terminates, for every EDX:EAX and non-zero s, with quotient (cut to 32 bits) and remainder in its registers below s * 2^33, and with a rest above s exactly where the overflow test then raises |
| MulDiv.DivLong | libs/x86emu/prim_ops.c:2519-2585 | div_long: EAX the quotient cut to 32 bits and EDX the remainder, below s * 2^33, with CF, AF and SF clear, ZF set and PF the parity of the remainder; interrupt 0 above, and for s = 0, with registers and flags kept; one odd answer at s * 2^33 |
| MulDiv.DivArchMeans | libs/x86emu/prim_ops.c:2519-2585 | the DIV it is compared with: quotient and remainder account for the dividend, with the remainder below the divisor, and raise interrupt 0 otherwise |
| MulDiv.DivShiftIff | libs/x86emu/prim_ops.c:2519-2585 | div_long does what the SDM says iff s = 0, EDX < s or the dividend exceeds s * 2^33 |
| MulDiv.DivShiftWitness | libs/x86emu/prim_ops.c:2570-2574 | for every divisor, with EDX equal to it, the SDM raises interrupt 0 and the fallback answers |
| MulDiv.DivPathsAgree | libs/x86emu/prim_ops.c:2522-2576 | the two paths of the source agree iff s = 0 or the dividend is below s * 2^33 |
| MulDiv.DivPathsWitness | libs/x86emu/prim_ops.c:2522-2576 | 2^33 divided by 1: the two paths give different quotients and remainders, neither raises |
| Machines.FlagsOfWord | libs/x86emu/x86emu/regs.h:174-203 | storing the 32-bit word of a FLAGS register gives the register back, every bit |
| Machines.FlagPositions | libs/x86emu/x86emu/regs.h:174-203 | the bit of the word each flag is kept in |
| Machines.UpDownWhole | libs/x86emu/x86emu/regs.h:141-163 | adding to or subtracting from a 32-bit register, half by half, is that in 32 bits |
| Blocks.AllocRight | v86_mem.c:148-176 | a positive request keeps the table well formed and adds exactly one live region, at an address that was not live and of the size rounded up to the next multiple of 16; or fails and changes nothing |
| Blocks.AllocFirstFit | v86_mem.c:156-175 | with n the least multiple of 16 not below the size, of any int: it fails iff there are 256 records or no block is free and strictly larger than n, and otherwise returns the lowest such block |
| Blocks.RoundIs | v86_mem.c:159 | the rounded size is that least multiple |
| Blocks.AllocAligned | v86_mem.c:148-176 | every address handed out is a multiple of 16 from the start of the region |
| Blocks.AllocWellFormedIff | v86_mem.c:148-176 | for any int: an allocation that succeeds keeps the table well formed iff the rounded size, cut to the 20-bit field, is positive and below the block's; in the normal range, iff the size is positive |
| Blocks.ZeroSizeShares | v86_mem.c:148-176 | two requests of zero bytes on a fresh table get the same address |
| Blocks.FreeRight | v86_mem.c:178-205 | freeing a live address forgets exactly that region; freeing anything else, an already free address or one inside a block included, changes nothing |
| Blocks.ReleaseRight | v86_mem.c:194-204 | two-sided merging restores every invariant and drops just that region |
| Histories.SameTable | v86_mem.c:134-205 | two tables over the same bytes with the same live regions are equal record by record |
| Histories.NothingLive | v86_mem.c:118-121 | nothing is live iff the table is the single free block real_mem_init makes |
| Histories.AllocThenFree | v86_mem.c:148-205 | allocate-then-free restores the table exactly, for every size, even one that breaks the table in between |
| Histories.HistoryRight | v86_mem.c:148-205 | every sequence of positive allocations and arbitrary frees keeps the table well formed, its allocated blocks being exactly what callers hold |
| Histories.HistorySafe | v86_mem.c:108-205 | from init on, the regions callers hold are in range, 16-byte aligned, non-empty and pairwise disjoint |
| Histories.ApartIff | v86_mem.c:156-175 | regions are apart iff no byte is in both |
| Histories.FreeAllAnyOrder | libs/lrmi-0.10/lrmi.c:218-246 | freeing all live addresses, in any order and with others in between, gives the single free block back |
| Histories.CountBound | v86_mem.c:156-157 | a table has at most 2 * live + 1 records |
| Histories.NeverFull | v86_mem.c:156-175 | with fewer than 128 live regions an allocation fails iff no free block is large enough |
| Histories.StaysLive | v86_mem.c:148-205 | a region nobody frees stays live at its size through any history |
| Allocators.Allocator.Init | v86_mem.c:108-124 | the first call makes one free block of full capacity, later ones change nothing |
| Allocators.Allocator.InsertBlock | v86_mem.c:134-139 | the shift opens a gap holding a copy of record i |
| Allocators.Allocator.DeleteBlock | v86_mem.c:141-146 | the shift removes record i and keeps the order |
| Allocators.Allocator.Allocate | v86_mem.c:148-176 | the array program computes the new table and the address of the table operation, or 0 when not ready |
| Allocators.Allocator.Deallocate | v86_mem.c:178-205 | likewise for free, merging in place on both sides |
| Strings.MovsByte | libs/x86emu/ops.c:7698-7728 | MOVSB, which clears CX first and counts on its own, is the SDM's repetition of one element per CX |
| Strings.RepMovsIs | libs/x86emu/ops.c:7712-7725 | REP MOVSB whatever overlaps: the bytes copied one by one in order, CX 0, SI and DI moved by CX either way |
| Strings.RepMovsCopies | libs/x86emu/ops.c:7720-7725 | if no source byte is overwritten before it is read, REP MOVSB copies it all and changes nothing else in memory; SI and DI move by CX modulo 2^16 and CX is 0 |
| Strings.RepMovsBytes | libs/x86emu/ops.c:7712-7725 | the same spelled out: byte i at 16 * ES + (DI +- i mod 2^16) is what was at 16 * segment + (SI +- i mod 2^16), and where SI, DI and CX end |
| Strings.StosByte | libs/x86emu/ops.c:7981-8009 | STOSB is the SDM's repetition |
| Strings.RepStosFills | libs/x86emu/ops.c:7993-8002 | REP STOSB fills CX bytes with AL and nothing else, wrap included |
| Strings.RepStosBytes | libs/x86emu/ops.c:7993-8002 | the same spelled out, with the low byte of EAX |
| Strings.OnceMeans | libs/x86emu/ops.c:7720-7725 | MOVSB and STOSB without a prefix: address, byte and registers |
| Strings.CompareBytes | libs/x86emu/ops.c:7785-7838 | CMPSB and SCASB with either prefix are the SDM's repetition; REPE wins and only the prefix used is cleared |
| Strings.RepeatCompare | libs/x86emu/ops.c:8156-8181 | the scan loops are that repetition, left on ZF |
| Strings.RepScanStops | libs/x86emu/ops.c:8143-8189 | REPE stops just past the first difference and REPNE just past the first match; CX, DI and SI encode its index, the flags are those of the last comparison and memory is untouched |
| Strings.RepScanMeans | libs/x86emu/ops.c:7799-7828 | the same in bytes: CX, DI and SI count the elements looked at; after it CF, ZF, AF, SF, PF and SF against OF compare the left byte with the right byte of the last one; if elements are left, that one stopped the scan |
| Strings.RepScanPassed | libs/x86emu/ops.c:8156-8181 | and none before it would have |
| Strings.CompareMeans | libs/x86emu/ops.c:7829-7835 | CMPSB and SCASB without a prefix: the same flags for the bytes at SI (or AL) and DI |
| Strings.OverridesHalt | libs/x86emu/decode.c:266-299 | the machine keeps running iff there is at most one override prefix (or it had halted); a single override alone picks the segment, whatever the addressing mode would have picked |
| Stacks.Push | libs/x86emu/prim_ops.c:2740-2762 | push_word and push_long: SP down modulo 2^16, the item at SS:SP |
| Stacks.Pop | libs/x86emu/prim_ops.c:2770-2798 | pop_word and pop_long |
| Stacks.SlotsApart | libs/x86emu/prim_ops.c:2740-2762 | up to eight pushes occupy disjoint addresses for every SS:SP, 16-bit wrap included |
| Stacks.PoppedItem | libs/x86emu/prim_ops.c:2740-2798 | pops return up to eight pushed items in reverse order |
| Stacks.PushAllRegisters | libs/x86emu/ops.c:4416-4453 | PUSHA and PUSHAD push the eight registers, SP as it was |
| Stacks.PushAllLayout | libs/x86emu/ops.c:4427-4450 | PUSHA and PUSHAD byte by byte: AX highest, then CX, DX, BX, the old SP, BP, SI and DI |
| Stacks.PopAllWords | libs/x86emu/ops.c:4480-4489 | POPA loads them from the stack, skipping SP |
| Stacks.PopAllLongs | libs/x86emu/ops.c:4470-4479 | POPAD, with the skip that adds to all of ESP |
| Stacks.PopAllUndoesPushAll | libs/x86emu/ops.c:4416-4492 | PUSHA;POPA restores every register for every SS:SP; PUSHAD;POPAD does iff SP is not 16 to 19 |
| Stacks.InterruptByTable | libs/x86emu/ops.c:9371-9379 | INT through the vector table, CS loaded before IP is pushed |
| Stacks.DoInterrupt | v86_x86emu.c:22-42 | x86emu_do_int with pushw: the frame, the flags and the jump |
| Stacks.InterruptReturn | libs/x86emu/ops.c:9416-9429 | IRET pops IP, CS and FLAGS |
| Stacks.IretUndoesInt | libs/x86emu/ops.c:9358-9429 | INT then IRET, by either path, restores CS, IP, SP and the low half of FLAGS for every SS:SP; all of ESP iff not hooked or SP >= 6 |
| Stacks.IntEnters | v86_x86emu.c:28-42 | by either path IP is the word at 4n and CS the word at 4n + 2, read from the bytes, provided the frame lies clear of them; TF off, IF off by the table path only, bit 19 off by the other; all other flags and registers stay |
| Stacks.IntFrame | libs/x86emu/ops.c:9371-9379 | by either path the bytes from SS:SP up are IP, CS and the low word of FLAGS |
| Stacks.FlagsLowHalf | libs/x86emu/ops.c:9426 | of the bits above 11, only 12 to 15 survive a 16-bit push and pop of FLAGS |
| Trampoline.EntryRegisters | v86_x86emu.c:154-167 | the handler is entered at the address in the bytes of its vector, with SS:SP six bytes below the top of the stack block, DS 0x40, FS and GS 0, FLAGS 0x3200, and EAX to EDX, EBP, ESI, EDI and ES from the caller |
| Trampoline.EntryStack | v86_x86emu.c:165-167 | the bytes v86_int pushes: 0, the segment of the halt block, and FLAGS |
| Trampoline.EntryKeeps | v86_x86emu.c:165-167 | entering stores nothing outside the stack block |
| Trampoline.EnterInt | v86_x86emu.c:152-169 | v86_int up to the first turn of the loop: the caller's registers, the vector, and a three-word frame on the stack block |
| Trampoline.GuestReturns | v86_x86emu.c:152-173 | whatever the guest does, once it stands at an IRET at the entry SP with frame and halt byte kept and no interrupt due, two turns later the loop returns, at halt:1 with SP at the top of the stack and the rest as the guest left it |
| Trampoline.BareHandlerReturns | v86_x86emu.c:152-173 | a handler that is a single IRET, anywhere outside the stack block, meets those conditions: v86_int comes back after two turns |
| Trampoline.HaltTurn | libs/x86emu/ops.c:10430-10439 | at halt:0 a turn runs HLT, which halts the machine |
| Trampoline.DeliveredEnters | libs/x86emu/decode.c:49-78 | a synchronous interrupt 0 or 2, and with IF clear any, is delivered before the fetch: control is at its vector with the old IP on the stack, and it stays pending |
| Trampoline.ExecSplit | libs/x86emu/decode.c:93-131 | the loop's runs compose, and it returns on the first turn that finds the machine halted |
| Trampoline.InitLayout | v86_x86emu.c:72-86 | v86_init's two allocations succeed, at 0x10000 and 0x12000, and leave exactly these regions live |
| Trampoline.StackAndHaltSafe | v86_x86emu.c:72-86 | through any later use of the allocator that does not free them, no other live region touches the stack or halt block, and v86_int's pushes stay inside the stack block |
| VbeInfo.PointerIs | v86_common.c:4-17 | for every segment and offset: the address a pointer leads to, and when it is taken to lead into the header or into ROM |
| VbeInfo.CopyModes | v86_common.c:94-109 | a ROM mode list arrives at the data area as its longest prefix that fits, then 0xffff, and nothing else is stored |
| VbeInfo.CutModes | v86_common.c:73-87 | a list in the header is cut at the same length; only the terminator is stored, and where there is one already nothing changes |
| VbeInfo.PackModes | v86_common.c:67-115 | the three cases of the mode list: field, bytes stored and kept, and that position plus room is the buffer length; a list that is nowhere usable gets field 0 and changes nothing |
| VbeInfo.CutString | v86_common.c:10-16 | a string in the header keeps its place; one byte is zeroed, past its span, iff no zero is in the span |
| VbeInfo.FetchString | v86_common.c:17-21 | a ROM string arrives at cbuf, cut to the room left, zero-terminated; stores stay inside the room iff the string is shorter, otherwise the byte after it becomes 0 |
| VbeInfo.PackString | v86_common.c:6-31 | one use of the macro: the field stored, the bytes at that offset, exactly which bytes may change, how far the free room moves, and that position plus room left is the buffer length while room is left |
| VbeLayout.RomStringStands | v86_common.c:17-25 | with no condition on the other fields: the ROM string is stored where the room began and the next room begins just past it; it stands in the finished buffer iff no later string in the header is cut inside it |
| VbeLayout.HeaderStringStands | v86_common.c:10-16 | a string in the header of the received block keeps its offset; with the bytes it had there it stands in the finished buffer iff whatever was stored over them left them the same and a zero follows; so whenever nothing was stored over it |
| VbeLayout.ClearBelowData | v86_common.c:67-120 | nothing is stored over what ends below the data area, if the mode list is not in the header |
| VbeLayout.ListStands | v86_common.c:73-109 | a mode list from ROM, and one in the header that no string is copied over, stands in the finished buffer iff no header string is cut inside it at a byte other than zero |
| VbeLayout.ListCovered | v86_common.c:17-21 | a list in the header, copied over at its end, does not stand, unless ROM holds a byte 0xff |
| VbeLayout.UncoveredIff | v86_common.c:17-25 | what is copied over is what reaches past the room of the first string fetched from ROM |
| VbeLayout.HeaderListUncovered | v86_common.c:73-88 | if the first string comes from ROM, a list in the header is not copied over iff it begins at offset 512 or below |
| VbeLayout.ListLostWitness | v86_common.c:73-88 | a terminated list at 0x300 of a 1024-byte header, replaced by the OEM string while its offset stays |
| VbeLayout.StringLostWitness | v86_common.c:96-109 | a string at 0x300 of the header, replaced by a copied mode list while its offset stays |
| VbeLayout.RomListFits | v86_common.c:96-109 | a ROM list and its terminator end inside the buffer iff it has at least 514 bytes and is of even length, or the list does not fill the room; at even lengths it is the longest prefix of at most (len - 514) / 2 entries |
| VbeLayout.EveryByte | v86_common.c:117-120 | the value of every byte after the string steps: a terminator stored since, else what the last string copied over it put there, else what the list step left |
| VbeLayout.ListByteIs | v86_common.c:67-115 | the value of every byte after the mode list |
| VbeLayout.PastEnd | v86_common.c:67-120 | the value of every byte past the end of the buffer: 0 where a terminator of a string went, 0xff where the mode list ran over, the old one otherwise |
| VbeLayout.KeptIff | v86_common.c:67-120 | what follows the buffer is kept iff each byte zeroed there was 0 and each byte of the list there was 0xff; so if the packing is contained, and if it is not, some byte there becomes 0 or 0xff |
| VbeLayout.PlainContained | v86_common.c:67-120 | for a block whose header strings end below the data area: contained iff, reading only the block and ROM, the list fits, a string reaching the header's end does so inside the buffer and each fetched string has its zero in its room |
| VbeLayout.OffsetInHeaderIff | v86_common.c:9-14 | a pointer taken to lead into the header becomes an offset into it iff it does not lead below the buffer; a null pointer does |
| VbeLayout.SpillWitness | v86_common.c:17-21 | a ROM string without a zero in its first 512 bytes zeroes byte 1024 of a 1024-byte buffer |
| VbeLayout.OddListWitness | v86_common.c:98-109 | a full list in a buffer of 515 bytes stores 0xff in byte 515 |
| VbeLayout.CutWitness | v86_common.c:12-14 | an unterminated string in a header as long as the buffer zeroes the byte after both |
| VbeLayout.StruckWitness | v86_common.c:10-25 | an unterminated header string cuts the ROM string that was copied before it |
| VbeLayout.PackInfo | v86_common.c:67-120 | the whole packing: for the list and each of the four strings its field, its place and the next free place; when each stands in the finished buffer with the bytes it had in the received block or in ROM (a header list that strings run over: that it does not, unless ROM holds 0xff); what follows the buffer is kept if the packing is contained, and if not some byte there becomes 0 or 0xff |
| VbeTask.Task | v86_common.c:51-154 | v86_task around an arbitrary BIOS: every path leaves the allocator as it found it, whatever buf_len; -1 iff the allocation failed; the BIOS is called once with the registers and memory GuestSees describes, at a region that was not live before; on success, and only then, the buffer comes back, packed when it is a VBE Info Block; past it nothing changes if the packing is contained |
| VbeTask.GuestSees | v86_common.c:56-58 | 16 * ES + DI, or 16 * ES + BX, is the address of the buffer, its bytes are there, the rest of memory and the registers not named are as they were |
| VbeTask.ReturnsIff | v86_common.c:60-147 | the buffer comes back iff v86_int succeeded, AX is 0x004f and the task is one that returns it |

## Left out

- MulDiv.ShiftSubtract: the last turn shifts by -1, which C leaves undefined; the value is never read and the model makes it arbitrary. Left shifts of the signed quotient are taken to wrap.
- Blocks.AllocWellFormedIff: overflow of size + 15 within 15 of the largest int is not modelled, and addresses are naturals instead of 32-bit words, which they stay far below.
- Trampoline.GuestReturns: the guest's instructions other than IRET and HLT are an arbitrary function of opcode and state; that a given BIOS comes to its IRET, or to no DEBUG_EXIT, is not claimed.
- Trampoline.InitLayout: stated for v86d's region of 0x20000 bytes at 0x10000, and not for LRMI's own set-up.
- Rotates.Rcl: the undefined shift is taken to give some value; that C allows more is not modelled.
- VbeInfo.PackModes: the layout of struct vbe_ib comes from a kernel header that is not part of this model; its size is a parameter and its five pointer fields a record of their own, so a pointer field that is itself overwritten by the packing is not captured.
- VbeInfo.PackString: the buffer is memory from its first byte on, without end, and an offset is added to it as a 64-bit host does; on a 32-bit host a wrapped offset leads in front of the buffer instead.
- VbeLayout.HeaderStringStands: for pointers below the buffer only the offset is described (`VbeLayout.OffsetInHeaderIff`).
- VbeLayout.ListCovered: where ROM does hold 0xff, what is copied over the list may repeat it; `VbeLayout.EveryByte` gives the bytes.
- VbeTask.Task: `guest` stands for v86_int, with registers v86_task neither reads nor sets left inside it; real-mode memory is flat.
- Strings.MovsByte: the word and doubleword forms, LODS, INS and OUTS are not modelled.
- Strings.CompareBytes: likewise, byte forms only.
- Guest memory is one flat array covering every segment:offset address; the separate mappings behind vptr, and addresses that are mapped nowhere, are not modelled.
- Logic, shift, ROL, ROR, SHLD, SHRD and the unpacked-BCD primitives: single expressions whose contracts would repeat them.
- The byte and word forms of MUL and DIV, IMUL's byte form, and IDIV, whose fallback masks signs in a way that meets no signed division.
- Opcode tables, ModRM and SIB decoding, the remaining handlers, the FPU shells and all tracing.
- Mapping of physical memory, EBDA probing, port I/O, the vm86 system call and the netlink daemon: effects outside the program.
