# llvm-pip2 core, modelled in Dafny

llvm-pip2 translates PIP2 bytecode (the guest instruction set of the Mophun
virtual machine) into LLVM IR and executes it under cooperative tasks. This
project models the parts of it whose behaviour can be stated without LLVM:

- **The guest data layer.** Register numbering (`Registers`) and the four
  overlapping views of a 32-bit instruction word with their `make_*`
  constructors (`Instructions`). Tagged inline immediates and sign extension
  (`Common`). Constant-pool items as 64-bit tagged words (`PoolItems`).
- **What each lowered opcode does at run time.** The IR a handler emits is
  modelled by its effect on a `Translator.Machine`, which holds:
  - a 32-slot `bv32` register file (`array`);
  - a byte-addressed guest memory (`array`);
  - the cursor `cur` (`current_addr_`);
  - the constant pool;
  - the `use_task_` switch;
  - the list of VM services called.

  One method per handler changes that state in place (`Arithmetic`, `Miscs`,
  `LoadStore`, `Memory`, `ControlFlow`). Each method is proved against a pure
  function of the old state, and the properties of that function are proved
  as lemmas. Examples are STORE/RESTORE round trips, store-then-load,
  fill and copy effects, and branch targets.
- **The analysis branch classifier and the queue driver of `analyze`**
  (`Analysis`).
- **The cooperative task scheduler** (`Tasks.TaskHandler`, a class whose
  methods update the slot table, the ready queue, the current id and the
  stack size in place). Next to it sit the service table and the `task_*`
  entry points (`SpecialFunction`).
- **The test suite's interning constant-pool builder**
  (`PoolBuilder.ModifiablePoolItems`).

Conventions:
- Faults the source raises with `throw` (invalid register, invalid immediate,
  invalid task id, invalid HLE code) are `Err` results.
- Undefined behaviour the source does not guard against is also an `Err`.
  This covers a register slot past the file, an access past the end of
  guest memory, and an empty task slot that is dereferenced. A copy, fill
  or STORE/RESTORE span of zero bytes accesses no memory, so it succeeds
  wherever it points.
- Integers of the guest are `bv32`, with wrap-around where the source wraps.
  Host `int`s (task ids, mailbox data) are unbounded `int`s.

## Model

| member | source | states |
|---|---|---|
| Registers.Slot | src/Translator.cpp:25-32 | the slot a register operand addresses is its byte offset divided by 4, exactly so for aligned operands |
| Registers.NamedAreWordOffsets | src/Register.h:9-46 | ZR is 0 and the 33 named registers step by 4 up to PC |
| Registers.OnlyPcOutsideFile | src/Register.h:46-48 | TotalCount is 32; every named register but PC has a slot in the file, and PC's slot is one past the end |
| Instructions.Bytes | src/Instruction.h:10-41 | the little-endian word built from four bytes has those bytes at positions 0 to 3 |
| Instructions.MakeWordInstruction | src/Instruction.h:43-52 | the word view of the built word reads back opcode, rd and the 16-bit immediate |
| Instructions.MakeRangeRegInstruction | src/Instruction.h:54-63 | the range view reads back opcode, rs and count |
| Instructions.MakeBinaryInstruction | src/Instruction.h:65-75 | the two-sources view reads back all four fields |
| Instructions.MakeUnaryInstruction | src/Instruction.h:77-86 | the two-sources view reads back opcode, rd and rs, with rt zero |
| Instructions.MakeSingleArgumentInstruction | src/Instruction.h:88-96 | the destination-only view reads back opcode and rd |
| Instructions.MakePoolRef | src/Instruction.h:98-103 | definition: the word is the index itself; `Common.PoolRefGoesToPool` states what it resolves to |
| Instructions.MakeConstant | src/Instruction.h:105-110 | definition: the value with bit 31 set; `MakeConstantBits` and `Common.ConstantRoundTrip` state its properties |
| Instructions.MakeConstantBits | src/Instruction.h:105-110 | `make_constant` sets bit 31 and keeps bits 0-30 |
| Instructions.FullViewsRoundTrip | src/Instruction.h:43-75 | decoding a word through the word or two-sources view and encoding it again gives the same word |
| Instructions.PartialViewsRoundTrip | src/Instruction.h:54-96 | the range and destination-only views re-encode every byte they cover |
| Instructions.ViewsOverlap | src/Instruction.h:10-41 | all views share the opcode byte and byte 1; the range count is the first source; the 16-bit immediate is rs + 256 * rt |
| PoolItems.GetConstant | src/PoolItems.cpp:53-61 | 0 for a non-constant or out-of-range index, else the item's low 32 bits |
| PoolItems.IsConstant | src/PoolItems.cpp:5-13 | definition: false for index 0 or past the count, else bit 63 of item index - 1 is clear; `TagBits` states it per bit |
| PoolItems.IsInText | src/PoolItems.cpp:15-23 | definition: false out of range, else bit 62 of the item is set |
| PoolItems.IsFunctionTableList | src/PoolItems.cpp:25-32 | definition: false out of range, else bit 61 of the item is set |
| PoolItems.IsFunctionInTable | src/PoolItems.cpp:34-41 | definition: false out of range, else bit 60 of the item is set |
| PoolItems.IsTerminateFunction | src/PoolItems.cpp:43-51 | definition: false out of range, else bits 63 and 32 of the item are both set |
| PoolItems.TagBits | src/PoolItems.cpp:5-51 | every classifier is false out of range; in range they test bit 63 clear, bits 62, 61, 60, and bits 63 and 32 |
| PoolItems.TerminateIsNotConstant | src/PoolItems.cpp:43-51 | a terminate-function item is never a constant and reads as constant 0 |
| PoolItems.Widen | src/PoolItems.h:11 | a 32-bit item array read as 64-bit items keeps every value |
| PoolItems.DeclaredWidthDropsTags | src/PoolItems.h:11 | with the declared 32-bit items every in-range item is a constant equal to the raw item, and no other tag ever holds |
| Common.InlinePayloadBits | src/Common.h:14 | the decoded payload keeps bits 0-30 and copies bit 30 into bit 31 |
| Common.GetImmediatePipDword | src/Common.h:10-18 | no immediate exactly when bit 31 is clear; otherwise the sign-extended 31-bit payload |
| Common.SignExtend8 | src/Common.h:20-23 | the low byte is kept and the upper 24 bits copy bit 7 |
| Common.SignExtend16 | src/Common.h:25-28 | the low half is kept and the upper 16 bits copy bit 15 |
| Common.SignExtendToWord | src/Common.h:30-33 | the low byte is kept and the upper 8 bits copy bit 7 |
| Common.SignExtend8PreservesValue | src/Common.h:20-23 | the 32-bit result read as signed equals the byte read as int8 |
| Common.SignExtend16PreservesValue | src/Common.h:25-28 | the 32-bit result read as signed equals the half read as int16 |
| Common.SignExtendToWordPreservesValue | src/Common.h:30-33 | the 16-bit result read as int16 equals the byte read as int8 |
| Common.InlineRange | src/Common.h:14 | an inline immediate lies in [-2^30, 2^30) read as signed |
| Common.ReadImmediate | src/Common.cpp:4-14 | the inline immediate wins; otherwise a pool constant at that 1-based index; otherwise none |
| Common.InlineIgnoresPool | src/Common.cpp:5-7 | an inline immediate resolves the same against any pool |
| Common.ConstantRoundTrip | src/Instruction.h:105-110 | decoding `make_constant(v)` gives v back exactly when bits 30 and 31 of v agree |
| Common.PayloadOfConstant | src/Instruction.h:105-110 | the payload of `make_constant(v)` equals v exactly when bits 30 and 31 of v agree |
| Common.SmallConstantRoundTrip | src/Instruction.h:105-110 | every v below 2^30 survives `make_constant` and decoding |
| Common.PoolRefGoesToPool | src/Instruction.h:98-103 | a pool reference is the bare index, and below 2^31 it is never read as an inline immediate |
| Translator.RegisterSlot | src/Translator.cpp:24-33 | a misaligned operand faults with "Invalid register"; an aligned one addresses slot reg / 4, which must be below 32 |
| Translator.Check | src/Translator.cpp:25-28 | no fault exactly for addressable operands; otherwise the fault `RegisterSlot` reports |
| Translator.OrElse | src/Translator/Arthimetic.cpp:7-10 | operands are checked in source order and the first fault wins |
| Translator.ReadRegister | src/Translator.cpp:35-38 | an addressable operand reads its slot; otherwise the operand's fault |
| Translator.LowByte | src/Translator.cpp:55-58 | the 8-bit read is the slot's low byte |
| Translator.LowHalf | src/Translator.cpp:45-48 | the 16-bit read is the slot's low half |
| Translator.WordBytes | src/Translator/LoadStore.cpp:58-62 | a word is stored as its four bytes, least significant first |
| Translator.Splice | src/Translator/LoadStore.cpp:60-73 | writing bytes at an offset changes exactly that range and keeps the length |
| Translator.WordRoundTrip | src/Translator/LoadStore.cpp:23-28 | a word written as four bytes loads back as the same word |
| Translator.BytesOfWord | src/Instruction.h:10-41 | a word is the composition of its own bytes |
| Translator.WordDeterminedByBytes | src/Instruction.h:10-41 | two words with the same bytes are equal |
| Translator.HalfRoundTrip | src/Translator/LoadStore.cpp:64-68 | the low half stored as two bytes loads back as that half |
| Translator.RegisterBytes | src/VMContext.h:7-9 | the register file as bytes has four bytes per slot |
| Translator.RegisterBytesAt | src/VMContext.h:7-9 | byte j of slot s is at offset 4 * s + j |
| Translator.Words | src/VMContext.h:7-9 | grouping bytes into words gives one word per four bytes |
| Translator.WordsAt | src/VMContext.h:7-9 | word s of the grouping is the little-endian word at byte 4 * s |
| Translator.WordsOfRegisterBytes | src/VMContext.h:7-9 | grouping the file's bytes gives the file back |
| Translator.RegisterBytesOfWords | src/VMContext.h:7-9 | splitting grouped words gives the bytes back |
| Translator.MemoryFault | src/Translator/LoadStore.cpp:6-9 | an access of the given width is allowed exactly when it ends inside guest memory |
| Translator.WriteBytes | src/Translator/LoadStore.cpp:58-74 | exactly the written range of memory changes, to the given bytes |
| Translator.FetchMatchesReadImmediate | src/Translator.cpp:9-22 | `fetch_immediate` resolves the next dword as `read_immediate` does and throws exactly where that finds nothing |
| Translator.FetchedImmediate | src/Translator.cpp:9-22 | definition: the dword after the instruction word, inline first, then a pool constant, else "Invalid immediate"; a read past memory faults; `FetchMatchesReadImmediate` relates it to `read_immediate` |
| Translator.FetchInlineConstant | src/Translator.cpp:13-15 | an instruction followed by `make_constant(v)`, v below 2^30, fetches v whatever the pool holds |
| Translator.Machine.constructor | src/Translator.cpp:91-103 | a zeroed 32-slot register file, cursor 0, no service called |
| Translator.Machine.FetchImmediate | src/Translator.cpp:9-22 | the cursor advances by exactly 4 and the result is the resolved dword after the instruction |
| Translator.Machine.GetRegister | src/Translator.cpp:35-38 | the read agrees with `ReadRegister` on the current file |
| Translator.Machine.SetRegister | src/Translator.cpp:65-67 | exactly one slot is written; there is no zero-register check |
| Arithmetic.SubAddCancel | src/Translator/Arthimetic.cpp:27-32 | adding back what SUB subtracted restores the word |
| Arithmetic.AddSubCancel | src/Translator/Arthimetic.cpp:6-11 | subtracting what ADD added restores the word |
| Arithmetic.Add | src/Translator/Arthimetic.cpp:10 | definition: `CreateAdd` on i32, wrapping at 2^32; `SubAddCancel` and `AddSubCancel` relate it to `Sub` |
| Arithmetic.Sub | src/Translator/Arthimetic.cpp:31 | definition: `CreateSub` on i32, wrapping at 2^32 |
| Arithmetic.ADD | src/Translator/Arthimetic.cpp:6-11 | rd := rs + rt mod 2^32, operands checked rs, rt, rd; no other slot changes, so rd may alias a source |
| Arithmetic.SUB | src/Translator/Arthimetic.cpp:27-32 | rd := rs - rt mod 2^32, only rd changes |
| Arithmetic.ADDi | src/Translator/Arthimetic.cpp:13-18 | rd := rs + fetched immediate; the cursor moves one word once rs has been read; every fault path leaves the file unchanged |
| Arithmetic.SUBi | src/Translator/Arthimetic.cpp:34-39 | rd := rs - fetched immediate, with the same cursor and fault behaviour |
| Arithmetic.ADDQ | src/Translator/Arthimetic.cpp:20-25 | rd := rs + the rt byte sign-extended |
| Arithmetic.SUBQ | src/Translator/Arthimetic.cpp:41-46 | rd := rs - the rt byte sign-extended |
| Arithmetic.QuickOperandIsSigned | src/Translator/Arthimetic.cpp:20-25 | the quick operand is the rt byte's signed value, in [-128, 128) |
| Miscs.ComplementInvolution | src/Translator/Miscs.cpp:5-9 | complementing twice gives the word back |
| Miscs.NegateInvolution | src/Translator/Miscs.cpp:11-15 | negating twice gives the word back |
| Miscs.NegateIsComplementPlusOne | src/Translator/Miscs.cpp:11-15 | -x is ~x + 1 and x + (-x) is 0 |
| Miscs.Complement | src/Translator/Miscs.cpp:8 | definition: `CreateNot`, the bitwise complement; `ComplementInvolution` states it is an involution |
| Miscs.Negate | src/Translator/Miscs.cpp:14 | definition: `CreateNeg`, 0 - x wrapping at 2^32; `NegateInvolution` and `NegateIsComplementPlusOne` state its properties |
| Miscs.NOT | src/Translator/Miscs.cpp:5-9 | rd := ~rs, only rd changes |
| Miscs.NEG | src/Translator/Miscs.cpp:11-15 | rd := 0 - rs mod 2^32, only rd changes |
| Miscs.EXSB | src/Translator/Miscs.cpp:17-21 | rd := rs's low byte sign-extended, also when rd is rs |
| Miscs.EXSH | src/Translator/Miscs.cpp:23-27 | rd := rs's low half sign-extended |
| Miscs.ExtendedByteValue | src/Translator/Miscs.cpp:17-21 | EXSB's result reads as the int8 value and keeps the low byte |
| Miscs.ExtendedHalfValue | src/Translator/Miscs.cpp:23-27 | EXSH's result reads as the int16 value and keeps the low half |
| Miscs.NOP | src/Translator/Miscs.cpp:29-32 | the machine, its registers and its memory are unchanged |
| Miscs.SLEEP | src/Translator/Miscs.cpp:34-39 | YIELD_TASK is called exactly when task support is on |
| Miscs.KILLTASK | src/Translator/Miscs.cpp:41-46 | KILL_CURRENT_TASK is called exactly when task support is on |
| LoadStore.LoadWidth | src/Translator/LoadStore.cpp:23-56 | a displacement load reads 1, 2 or 4 bytes |
| LoadStore.SignedHalfLoad | src/Translator/LoadStore.cpp:44-49 | LDHd's result reads as the halfword's int16 value |
| LoadStore.SignedByteLoad | src/Translator/LoadStore.cpp:51-56 | LDBd's result reads as the byte's int8 value |
| LoadStore.Store | src/Translator/LoadStore.cpp:76-103 | STORE as written lowers SP by 4 (ZR) or by count; no slot but SP and RA changes, and RA only for ZR |
| LoadStore.StoreReturnAddress | src/Translator/LoadStore.cpp:80-86 | STORE ZR as written loads RA from the word at SP - 4 and lowers SP by 4, leaving memory untouched |
| LoadStore.StoreSpan | src/Translator/LoadStore.cpp:87-102 | succeeds exactly when rs is addressable, the span fits in the file and the span is empty or its target fits in memory; only SP changes among the registers, and an empty span leaves memory as it was |
| LoadStore.PushReturnAddress | src/Translator/LoadStore.cpp:80-86 | STORE ZR corrected: RA is written to the word below SP and SP drops by 4 |
| LoadStore.Push | src/Translator/LoadStore.cpp:76-103 | corrected STORE: SP drops by 4 or count and no other slot changes; it agrees with STORE as written for every rs other than ZR |
| LoadStore.Restore | src/Translator/LoadStore.cpp:105-130 | RESTORE raises SP by 4 (ZR) or by count and leaves memory unchanged |
| LoadStore.RestoreReturnAddress | src/Translator/LoadStore.cpp:110-114 | RESTORE ZR succeeds exactly when the word at SP is in memory, sets RA from it, raises SP by 4, and changes no other slot |
| LoadStore.RestoreSpan | src/Translator/LoadStore.cpp:115-129 | succeeds exactly when the base operand is addressable, the span fits in the file and the span is empty or its source fits in memory; SP rises by count and memory is unchanged |
| LoadStore.CopyIn | src/Translator/LoadStore.cpp:117-126 | copying bytes into the file keeps its 32 slots |
| LoadStore.SlotFromBytes | src/Translator/LoadStore.cpp:120-126 | a slot whose four bytes are those of w reads as w |
| LoadStore.SpanRestoresSlots | src/Translator/LoadStore.cpp:117-126 | copying a file's own bytes back over it restores every slot but SP |
| LoadStore.StoredState | src/Translator/LoadStore.cpp:87-102 | a successful span STORE leaves SP lowered by count and the span's bytes spliced in just below the old SP; an empty span leaves memory as it was |
| LoadStore.RestoreSpanCopies | src/Translator/LoadStore.cpp:115-129 | a span RESTORE whose checks pass copies the bytes at SP into the file and raises SP |
| LoadStore.RestoreOperand | src/Translator/LoadStore.cpp:117-118 | naming a span by its last register leads RESTORE back to the span's first register |
| LoadStore.RestoreStored | src/Translator/LoadStore.cpp:105-130 | RESTORE over the state a span STORE left behind gives back the original register file |
| LoadStore.StoreRestoreRoundTrip | src/Translator/LoadStore.cpp:76-130 | STORE of a span followed by RESTORE of the same span gives back every register, SP included |
| LoadStore.PopPushedReturnAddress | src/Translator/LoadStore.cpp:110-114 | RESTORE ZR pops the pushed RA and SP returns to its old value |
| LoadStore.PushRestoreRoundTrip | src/Translator/LoadStore.cpp:76-130 | with the ZR case corrected, every successful STORE is undone by the matching RESTORE |
| LoadStore.StoreZeroLosesReturnAddress | src/Translator/LoadStore.cpp:80-86 | STORE ZR as written then RESTORE ZR over zeroed memory leaves RA 0 however it started |
| LoadStore.LoadsZero | src/Translator/LoadStore.cpp:110-113 | over zeroed memory RESTORE ZR sets RA to 0 |
| LoadStore.StoreWordLoadWord | src/Translator/LoadStore.cpp:58-62 | a word stored by STWd loads back through LDWd |
| LoadStore.StoreHalfLoadHalf | src/Translator/LoadStore.cpp:64-68 | a half stored by STHd loads back through LDHUd as rd's low half |
| LoadStore.StoreHalfLoadSignedHalf | src/Translator/LoadStore.cpp:64-68 | a half stored by STHd loads back through LDHd sign-extended |
| LoadStore.StoreByteLoadByte | src/Translator/LoadStore.cpp:70-74 | a byte stored by STBd loads back through LDBUd as rd's low byte |
| LoadStore.StoreByteLoadSignedByte | src/Translator/LoadStore.cpp:70-74 | a byte stored by STBd loads back through LDBd sign-extended |
| LoadStore.LDI | src/Translator/LoadStore.cpp:11-15 | rd := the fetched immediate, the cursor advanced by one word |
| LoadStore.LDQ | src/Translator/LoadStore.cpp:17-21 | rd := the 16-bit immediate sign-extended |
| LoadStore.QuickLoadIsSigned | src/Translator/LoadStore.cpp:17-21 | LDQ's value is the immediate's signed value, in [-2^15, 2^15) |
| LoadStore.EffectiveAddress | src/Translator/LoadStore.cpp:25 | rs + fetched immediate mod 2^32; of the two evaluation orders C++ allows, the model fixes rs first, so rs's fault wins and the cursor moves only once rs was read |
| LoadStore.LoadDisplaced | src/Translator/LoadStore.cpp:23-56 | rd := the value of the load's kind at the effective address; rd and the address checked in that order |
| LoadStore.LDWd | src/Translator/LoadStore.cpp:23-28 | rd := the little-endian word at rs + imm |
| LoadStore.LDHd | src/Translator/LoadStore.cpp:44-49 | rd := the half at rs + imm, sign-extended |
| LoadStore.LDHUd | src/Translator/LoadStore.cpp:30-35 | rd := the half at rs + imm, zero-extended |
| LoadStore.LDBd | src/Translator/LoadStore.cpp:51-56 | rd := the byte at rs + imm, sign-extended |
| LoadStore.LDBUd | src/Translator/LoadStore.cpp:37-42 | rd := the byte at rs + imm, zero-extended |
| LoadStore.StoreDisplaced | src/Translator/LoadStore.cpp:58-74 | the low n bytes of rd are written at rs + imm; nothing else in memory changes |
| LoadStore.STWd | src/Translator/LoadStore.cpp:58-62 | rd's four bytes are written at rs + imm and nothing else changes |
| LoadStore.STHd | src/Translator/LoadStore.cpp:64-68 | rd's low two bytes are written at rs + imm |
| LoadStore.STBd | src/Translator/LoadStore.cpp:70-74 | rd's low byte is written at rs + imm |
| LoadStore.STORE | src/Translator/LoadStore.cpp:76-103 | corrected: registers and memory become the `Push` state, or stay unchanged on a fault; for rs other than ZR this is STORE as written, for ZR RA is pushed where the source loads it |
| LoadStore.PushReturnAddressInPlace | src/Translator/LoadStore.cpp:80-86 | corrected: registers and memory become the `PushReturnAddress` state, RA written below SP, where the source loads RA from there |
| LoadStore.StoreSpanInPlace | src/Translator/LoadStore.cpp:87-102 | registers and memory become the `StoreSpan` state |
| LoadStore.RESTORE | src/Translator/LoadStore.cpp:105-130 | the register file becomes the `Restore` state, or stays unchanged on a fault |
| LoadStore.PopReturnAddressInPlace | src/Translator/LoadStore.cpp:110-114 | the register file becomes the `RestoreReturnAddress` state |
| LoadStore.RestoreSpanInPlace | src/Translator/LoadStore.cpp:115-129 | the register file becomes the `RestoreSpan` state |
| LoadStore.Overwrite | src/Translator/LoadStore.cpp:120-126 | the register file ends equal to the given words |
| Memory.CopyOperands | src/Translator/Memory.cpp:6-8 | SYSCPY's source, destination and size are rs, rd and rt, all addressable |
| Memory.CopyWithin | src/Translator/Memory.cpp:10-13 | a copy succeeds exactly when it is empty or both ranges lie in guest memory; an empty copy leaves memory as it was |
| Memory.FillOperands | src/Translator/Memory.cpp:18-20 | SYSSET's destination, byte and size are rd, rs's low byte and rt |
| Memory.FillWithin | src/Translator/Memory.cpp:22-24 | a fill succeeds exactly when it is empty or the range lies in guest memory; an empty fill leaves memory as it was |
| Memory.Copied | src/Translator/Memory.cpp:4-14 | definition: the operands read in order rs, rd, rt, then the copy of `CopyWithin`; `CopyWithinEffect` states its effect |
| Memory.Filled | src/Translator/Memory.cpp:16-25 | definition: the operands read in order rd, rs, rt, then the fill of `FillWithin`; `FillWithinEffect` states its effect |
| Memory.CopyOperandsFaultOrder | src/Translator/Memory.cpp:6-8 | the fault reported is that of the first bad operand in the order rs, rd, rt |
| Memory.FillOperandsFaultOrder | src/Translator/Memory.cpp:18-20 | the fault reported is that of the first bad operand in the order rd, rs, rt |
| Memory.SpliceReadsBack | src/Translator/Memory.cpp:13 | spliced bytes read back at their offset |
| Memory.CopyWithinEffect | src/Translator/Memory.cpp:4-14 | after a copy the destination holds the old source bytes and every other byte is unchanged |
| Memory.CopyOntoItself | src/Translator/Memory.cpp:4-14 | copying a range onto itself changes nothing, and neither does an empty copy |
| Memory.FillWithinEffect | src/Translator/Memory.cpp:16-25 | after a fill the range holds the byte and every other byte is unchanged |
| Memory.FillIdempotent | src/Translator/Memory.cpp:16-25 | filling the same range twice with the same byte is filling it once |
| Memory.CopyOfFill | src/Translator/Memory.cpp:4-25 | copying a filled range is filling the destination with the same byte |
| Memory.SYSCPY | src/Translator/Memory.cpp:4-14 | memory becomes the copied image, or stays unchanged on a fault; registers never change |
| Memory.CopyInPlace | src/Translator/Memory.cpp:13 | memory becomes `CopyWithin` of what it was, or stays unchanged on a fault |
| Memory.SYSSET | src/Translator/Memory.cpp:16-25 | memory becomes the filled image, or stays unchanged on a fault; registers never change |
| ControlFlow.Holds | src/Translator/ControlFlow.cpp:10 | definition: the `icmp` predicate on two i32 operands, read unsigned or as two's complement; `NegationHolds`, `SwappedHolds` and `SignedAgreesOnNonNegative` state its properties |
| ControlFlow.NegationHolds | src/Translator/ControlFlow.cpp:24-62 | the negated predicate holds exactly when the predicate does not; negation is an involution |
| ControlFlow.SwappedHolds | src/Translator/ControlFlow.cpp:24-62 | the swapped predicate on swapped operands agrees with the predicate |
| ControlFlow.SignedAgreesOnNonNegative | src/Translator/ControlFlow.cpp:32-62 | on words with bit 31 clear a signed predicate agrees with its unsigned counterpart |
| ControlFlow.SignednessMatters | src/Translator/ControlFlow.cpp:56-62 | BLT and BLTU disagree on -1 against 0 |
| ControlFlow.OpcodeOfIsHandled | src/Translator/ControlFlow.cpp:24-142 | every one of the 10 x 3 predicate and form pairs has an opcode dispatching to it |
| ControlFlow.FetchedOpcodes | src/Translator/ControlFlow.cpp:24-62 | BEQ to BLTU use the fetched-offset form with their predicates |
| ControlFlow.InInstructionOpcodes | src/Translator/ControlFlow.cpp:64-102 | BEQi to BLTUi use the in-instruction offset form |
| ControlFlow.Immediate8Opcodes | src/Translator/ControlFlow.cpp:104-142 | BEQIB to BLTUIB use the 8-bit immediate form |
| ControlFlow.BranchKind | src/Translator/ControlFlow.cpp:24-142 | definition: the predicate and form each of the 30 handlers passes; `OpcodeOfIsHandled` and `OpcodeOfInjective` state that it is a bijection onto the pairs |
| ControlFlow.OpcodeOfInjective | src/Translator/ControlFlow.cpp:24-142 | distinct predicate and form pairs have distinct opcodes |
| ControlFlow.Next | src/Translator/ControlFlow.cpp:10-11 | control goes to one of exactly two successors, to the taken one exactly when the condition holds |
| ControlFlow.FetchedTargetOvershoots | src/Translator/ControlFlow.cpp:8-11 | as written the taken target of the fetched form is one word past the intended one |
| ControlFlow.FetchedTargetExample | tests/units/TestControlFlow.cpp:59-83 | BLTU at 0 with offset 20 should reach 20; as written it reaches 24 |
| ControlFlow.FetchedTargetsAsWritten | src/Translator/ControlFlow.cpp:8-11 | definition: as written, both successors are formed from the address after `fetch_immediate` advanced it by 4; `FetchedTargetOvershoots` compares it with the intended targets |
| ControlFlow.BranchTargets | src/Translator/ControlFlow.cpp:4-22 | corrected for the fetched form: every taken target is the offset from the branch itself, where ControlFlow.cpp:8-11 as written adds one more word (`FetchedTargetsAsWritten`); the fall-through is the next instruction, past the immediate for the fetched form |
| ControlFlow.BranchCondition | src/Translator/ControlFlow.cpp:4-22 | corrected for the "i" form: the condition is the predicate on rd and the rs register (register form), on rd and the sign-extended rs byte ("i" form, where ControlFlow.cpp:6-8 as written reads a register), or on rd and the widened rs byte (IB form) |
| ControlFlow.BranchFails | src/Translator/ControlFlow.cpp:4-22 | corrected for the "i" form: lowering fails exactly when rd is invalid, or, for the register form, rs or the fetched immediate is invalid |
| ControlFlow.InInstructionReadsRegister | src/Translator/ControlFlow.cpp:6-8 | as written the "i" form reads the rs byte as a register: the jump-table guard `bgtui $s0,11,36` of src/ProgramAnalysis.cpp:30 faults, and `bleui $r0,4,12` compares R0 with SP |
| ControlFlow.ImmediateBoundCompares | tests/units/TestControlFlow.cpp:371-395 | corrected "i" form: never faults on the rs byte and compares rd with its int8 value, so the two jump-table guards compare S0 with 11 and R0 with 4 |
| ControlFlow.BranchOfComparison | src/Translator/ControlFlow.cpp:4-22 | once the comparison is known, the branch is determined by the form's targets |
| ControlFlow.ComparisonAsWritten | src/Translator/ControlFlow.cpp:4-22 | definition: as written, rd and then rs read as registers for the register and "i" forms, the widened rs byte for IB; `InInstructionReadsRegister` states its consequence |
| ControlFlow.Comparison | src/Translator/ControlFlow.cpp:4-22 | definition, corrected for the "i" form: the rs byte is a signed 8-bit immediate there; `BranchCondition`, `BranchFails` and `ImmediateBoundCompares` state its properties |
| ControlFlow.BranchOf | src/Translator/ControlFlow.cpp:4-22 | definition, corrected for the fetched and "i" forms: rd read first, then rs (register form), the sign-extended rs byte ("i" form) or the widened rs byte (IB form), then the immediate; `BranchTargets`, `BranchCondition` and `BranchFails` state its properties |
| ControlFlow.Branch | src/Translator/ControlFlow.cpp:4-22 | corrected for the fetched and "i" forms: the result is `BranchOf` of the old state, whose fetched-form taken target is one word before the one ControlFlow.cpp:8-11 forms; only the cursor moves, by one word exactly when the immediate is fetched |
| Analysis.IsNonConditionalDirectBranch | src/ProgramAnalysis.cpp:54-64 | definition: JPl and CALLl |
| Analysis.IsDirectBranch | src/ProgramAnalysis.cpp:66-106 | definition: the 30 compare-branches, JPl and CALLl; `DirectIsConditionalOrUnconditional` ties it to the translator's branch table |
| Analysis.IsIndirectBranch | src/ProgramAnalysis.cpp:108-119 | definition: JPr, CALLr and RET |
| Analysis.NonConditionalIsDirect | src/ProgramAnalysis.cpp:54-106 | JPl and CALLl are direct branches |
| Analysis.DirectIsConditionalOrUnconditional | src/ProgramAnalysis.cpp:66-106 | the direct branches are exactly the 30 compare-branches plus JPl and CALLl, and no compare-branch is unconditional |
| Analysis.IndirectIsNotDirect | src/ProgramAnalysis.cpp:66-119 | JPr, CALLr and RET are not direct |
| Analysis.ProgramAnalysis.constructor | src/ProgramAnalysis.h:31-34 | records the text window with an empty queue |
| Analysis.ProgramAnalysis.Address | src/ProgramAnalysis.cpp:132 | a queued offset's address is never below the text base |
| Analysis.ProgramAnalysis.BlockStarts | src/ProgramAnalysis.cpp:130-138 | every in-text address of a queued offset is a start, every start is in the text and is the address of some queued offset, at most one per entry |
| Analysis.ProgramAnalysis.BlockStartsInQueueOrder | src/ProgramAnalysis.cpp:130-138 | the starts of two queues one after the other are the first queue's starts then the second's, and one offset gives its address exactly when that is in the text: the starts are the in-text addresses in queue order |
| Analysis.ProgramAnalysis.PopBlockStart | src/ProgramAnalysis.cpp:132-138 | the front is removed; its address is returned exactly when it lies in the text window |
| Analysis.ProgramAnalysis.Analyze | src/ProgramAnalysis.cpp:121-170 | the queue ends empty, the only block start is the entry's address when it is in the window, and the result is empty |
| Analysis.OnlyTheUpperBoundSkips | src/ProgramAnalysis.cpp:135-138 | an offset is skipped exactly when it is at or past the text size |
| Tasks.InitialContext | src/TaskHandler.cpp:45-53 | a created task's registers are zero but P0-P2, set to the parameters, and SP, set to its stack |
| Tasks.LowestFreeSlot | src/TaskHandler.cpp:28-42 | the first empty slot, or one past the end when every slot is taken |
| Tasks.Placed | src/TaskHandler.cpp:28-42 | definition: a new task with id slot + 1 stored in the lowest free slot, appended when none is free; `PlacedEffect` states its effect |
| Tasks.PlacedEffect | src/TaskHandler.cpp:28-42 | pushing keeps every other slot, grows the table only when no slot is free, and stores the new task with id slot + 1 |
| Tasks.DisposedIdIsReused | src/TaskHandler.cpp:28-42 | after slot k is emptied the next id is at most k + 1, and exactly k + 1 when all earlier slots are taken |
| Tasks.RemoveFirst | src/TaskHandler.cpp:159-164 | erasing an id that is not queued leaves the queue as it was |
| Tasks.RemoveFirstAt | src/TaskHandler.cpp:159-164 | erasing the first occurrence keeps every other entry in order |
| Tasks.RemoveFirstCount | src/TaskHandler.cpp:159-164 | erasing a queued id removes exactly one occurrence and nothing else |
| Tasks.Switched | src/TaskHandler.cpp:143-157 | with an empty queue the host (-1) resumes; otherwise the head becomes current and leaves the queue |
| Tasks.Yielded | src/TaskHandler.cpp:121-124 | definition: the running id queued last, then `Switched`; `YieldRotates`, `YieldsRunInQueueOrder` and `RoundRobin` state its properties |
| Tasks.YieldRotates | src/TaskHandler.cpp:121-124 | a yield hands over to the head and queues the yielding task last; alone, a task keeps running |
| Tasks.YieldsRunInQueueOrder | src/TaskHandler.cpp:121-157 | after k yields the k-th queued task runs and the queue has rotated by k |
| Tasks.RoundRobin | src/TaskHandler.cpp:121-157 | one yield per queued task and one more bring the schedule back to where it began |
| Tasks.YieldsAfter | src/TaskHandler.cpp:121-124 | n + 1 yields are n yields followed by one |
| Tasks.StackSizeAsWritten | src/TaskHandler.h:76-79 | definition: as written, s padded by the residue of the previously stored size; `StackSizeAsWrittenMisaligns` and `StackSizeAgreement` state its consequences |
| Tasks.StackSizeAsWrittenMisaligns | src/TaskHandler.h:76-79 | from the initial -1 the first call stores s + 1, misaligning every aligned s (8 becomes 9) |
| Tasks.AlignedStackSize | src/TaskHandler.h:76-79 | s rounded up to the next multiple of 4 |
| Tasks.StackSizeAgreement | src/TaskHandler.h:76-79 | written and aligned padding agree exactly when the old size and s have the same residue mod 4 |
| Tasks.TaskHandler.constructor | src/TaskHandler.cpp:13-21 | no tasks, empty queue, current -1, stack size -1 |
| Tasks.TaskHandler.TaskValid | src/TaskHandler.cpp:113-115 | definition: the id is 1 to the table size and its slot is occupied |
| Tasks.TaskHandler.CurrentTask | src/TaskHandler.cpp:117-119 | definition: the running task's id, -1 while the host runs |
| Tasks.TaskHandler.Receive | src/TaskHandler.cpp:93-103 | TASK_CURRENT reads the running task's mailbox; an id outside the table reads 0; an occupied slot reads its mailbox |
| Tasks.TaskHandler.CurrentTaskContext | src/TaskHandler.cpp:131-137 | the entry-point context while the host runs, else the running task's context |
| Tasks.TaskHandler.PushTask | src/TaskHandler.cpp:28-42 | the id is the lowest free slot + 1 and the table becomes `Placed`, keeping ids equal to slot + 1 |
| Tasks.TaskHandler.ScheduleTask | src/TaskHandler.cpp:139-141 | the id is appended to the ready queue |
| Tasks.TaskHandler.UnscheduleTask | src/TaskHandler.cpp:159-164 | the first occurrence of the id is erased, if any |
| Tasks.TaskHandler.SwitchToNextTask | src/TaskHandler.cpp:143-157 | queue and current become `Switched` of the old ones |
| Tasks.TaskHandler.CreateTask | src/TaskHandler.cpp:44-59 | the new task gets the lowest free id, its initial context and the allocator's stack, and is queued last; the allocator is asked for the stored stack size |
| Tasks.TaskHandler.RunEntryPointTask | src/TaskHandler.cpp:61-76 | the entry context becomes a task that is queued and switched to; with an empty queue it runs at once |
| Tasks.TaskHandler.DisposeTask | src/TaskHandler.cpp:78-91 | ids outside the table fault; otherwise the slot is emptied, the id leaves the queue, the table keeps its length, and the stack is freed only when nonzero and a callback exists |
| Tasks.TaskHandler.Send | src/TaskHandler.cpp:105-111 | only the target's mailbox changes, and it then reads the data; an empty slot faults |
| Tasks.TaskHandler.YieldCurrent | src/TaskHandler.cpp:121-124 | the schedule becomes `Yielded` of the old one |
| Tasks.TaskHandler.KillCurrent | src/TaskHandler.cpp:126-129 | the running task's slot is emptied, it leaves the queue, and the next task is switched to; the result is the running task's stack to free, when it has one and a free callback exists; an empty current slot faults and changes nothing |
| Tasks.TaskHandler.SetStackSize | src/TaskHandler.h:76-79 | the stored size is s rounded up to a multiple of 4 (corrected) and is returned truncated to 32 bits |
| SpecialFunction.Code | src/SpecialFunction.h:19-30 | each service has a code below 10 |
| SpecialFunction.CodeInjective | src/SpecialFunction.h:19-30 | distinct services have distinct codes |
| SpecialFunction.EveryServiceListed | src/SpecialFunction.cpp:55-66 | every service has an entry, taking at most four arguments |
| SpecialFunction.ServiceSignatures | src/SpecialFunction.cpp:56-65 | task_create takes 4 and returns a value; task_send takes 2; yield and kill take none and return none; receive and this take none and return a value |
| SpecialFunction.TaskReceive | src/SpecialFunction.cpp:15-18 | the running task's mailbox |
| SpecialFunction.TaskReceiveAny | src/SpecialFunction.cpp:20-23 | task id's mailbox, 0 for an id outside the table |
| SpecialFunction.ReceiveAnyOfMinusOne | src/TaskHandler.h:73 | asking for id -1 is asking for the running task's mailbox |
| SpecialFunction.TaskAlive | src/SpecialFunction.cpp:35-38 | 1 exactly for an occupied slot's id, 0 otherwise |
| SpecialFunction.TaskThis | src/SpecialFunction.cpp:40-43 | the running task's id, -1 while the host runs |
| PoolBuilder.Word | tests/units/ModifiablePoolItems.cpp:45-51 | a function item builds to 0x80000000, a value item to its value |
| PoolBuilder.Built | tests/units/ModifiablePoolItems.cpp:41-54 | one word per item, in order |
| PoolBuilder.FirstWhere | tests/units/ModifiablePoolItems.cpp:6-8 | the first matching index, every earlier item failing to match, or the length when none matches |
| PoolBuilder.Matches | tests/units/ModifiablePoolItems.cpp:6-8 | definition, corrected for `get(value)`: a value item holding the key's value; for `get(func, data)` (lines 24-26) the same function and user data |
| PoolBuilder.Interned | tests/units/ModifiablePoolItems.cpp:4-39 | definition: the table unchanged when an item matches, else the key appended; `InternIdempotent` and `InternKeepsItems` state its properties |
| PoolBuilder.ValueIndexAsWritten | tests/units/ModifiablePoolItems.cpp:4-20 | as written `get(value)` returns the first item whose stored value equals the value, function items included: no earlier item holds it, and the length means no item does |
| PoolBuilder.GetZeroFindsFunctionItem | tests/units/ModifiablePoolItems.cpp:4-20 | as written `get(0)` returns a function item's index, which builds to 0x80000000 |
| PoolBuilder.InternIdempotent | tests/units/ModifiablePoolItems.cpp:4-20 | interning the same key again finds the same index and changes nothing |
| PoolBuilder.InternKeepsItems | tests/units/ModifiablePoolItems.cpp:4-39 | interning keeps existing items in place and adds at most one |
| PoolBuilder.InternedValueBuilds | tests/units/ModifiablePoolItems.cpp:4-20 | corrected: after interning a value, matching value items only, its index builds to that value; as written `get(0)` can answer a function item (`GetZeroFindsFunctionItem`) |
| PoolBuilder.ModifiablePoolItems.constructor | tests/units/ModifiablePoolItems.h:22 | an empty pool |
| PoolBuilder.ModifiablePoolItems.Find | tests/units/ModifiablePoolItems.cpp:6-8 | the linear search finds the first matching index |
| PoolBuilder.ModifiablePoolItems.GetValue | tests/units/ModifiablePoolItems.cpp:4-20 | corrected: the 1-based index of the first value item holding the value, appended only when missing, and the built pool holds the value there; as written the search also matches function items (`ValueIndexAsWritten`) |
| PoolBuilder.ModifiablePoolItems.GetFunction | tests/units/ModifiablePoolItems.cpp:22-39 | the 1-based index of the function and data pair, appended only when missing |
| PoolBuilder.ModifiablePoolItems.Build | tests/units/ModifiablePoolItems.cpp:41-54 | the loop produces `Built` of the items |
| PoolBuilder.ModifiablePoolItems.HleHandler | tests/units/ModifiablePoolItems.cpp:56-69 | a code dispatches exactly when it is 1 to size and names a function item, to that item's function and data |
| PoolBuilder.RegisteredFunctionDispatches | tests/units/ModifiablePoolItems.cpp:56-69 | a registered function's index dispatches to it and builds to 0x80000000 |

## Left out

- LLVM IR construction is not modelled: the builder, types, modules and `translate`, which is an empty loop. Each handler is modelled by the effect its IR has when it executes.
- Coroutines are not modelled: `co_create`, `co_switch`, `co_active` and the global engine. A switch becomes setting the current id; the host is id -1.
- `execute_entry_point_current_task` is not modelled: it calls a host callback. `current_task_finished` has the same body as `kill_current`, so `Tasks.TaskHandler.KillCurrent` models both.
- The `task_*` forwarding functions task_create, task_dispose, task_send, task_set_stack_size, task_yield and task_kill_current only call the handler method of the same name. Their behaviour is that method's behaviour.
- The stack allocator and free callbacks are not called. CreateTask takes the allocator's answer as a parameter. CreateTask returns the size requested; DisposeTask and KillCurrent return the stack to free.
- Tasks.TaskHandler: the ready queue holds task ids, not pointers. The two agree while every queued id names a live task and no id is queued twice. `Valid()` does not state this and the model does not prove that the methods keep it. A running task that disposes itself and then creates a task can reuse its own id, and a later yield then queues that id twice.
- Tasks.TaskHandler.YieldCurrent: when the running task has disposed itself, the source queues the null pointer held by its emptied slot. The model returns a fault instead and leaves the queue unchanged.
- Tasks.TaskHandler: reading through an empty slot or a slot outside the table is undefined in the source. Examples are `receive` of a dead current task, `send` past the table, and `yield_current` while the host runs. The model returns a fault instead.
- Tasks.TaskHandler: the host's entry-point context is indeterminate until written. The model starts it at zero.
- Tasks.TaskHandler: writes through the reference `current_task_context` returns are not modelled.
- Tasks.TaskHandler: task ids and mailbox data are unbounded integers, not C `int`.
- ControlFlow.Branch: implements the corrected fetched-form target. As written, BEQ to BLTU branch to the branch's address + 4 + the offset, because `fetch_immediate` has already advanced the current address; the model branches to address + offset. `ControlFlow.FetchedTargetsAsWritten` and `FetchedTargetOvershoots` state the as-written targets.
- ControlFlow.BranchTargets: states the corrected fetched-form target, address + offset, not the as-written address + 4 + offset. `ControlFlow.BranchOf` is defined with the corrected targets too.
- LoadStore.STORE: implements the corrected STORE ZR, which writes RA to the word below SP. As written, STORE ZR sets RA from that word and leaves memory untouched. `LoadStore.Store` and `StoreReturnAddress` define the as-written STORE; `StoreZeroLosesReturnAddress` shows the loss.
- LoadStore.PushReturnAddressInPlace: is the corrected STORE ZR, not the as-written load of RA (see LoadStore.STORE).
- LoadStore.EffectiveAddress: the source passes the rs read and `fetch_immediate()` as two arguments of one call, and C++ leaves their evaluation order open. The model fixes rs first. With the other order a bad rs would still fault, but after the cursor had moved, and a bad immediate would fault before rs is checked. The same holds for every displacement load and store.
- PoolBuilder.ModifiablePoolItems.GetValue: implements the corrected `get(value)`, which matches value items only. As written, the search matches any item whose stored value is the value, so a function item (stored value 0) answers `get(0)`. `PoolBuilder.ValueIndexAsWritten` and `GetZeroFindsFunctionItem` state the as-written search.
- ControlFlow.BranchOf: is the corrected definition. Its fetched-form taken target is address + offset, not the as-written address + 4 + offset given by `ControlFlow.FetchedTargetsAsWritten`.
- LoadStore.Push: is the corrected STORE. For rs = ZR it pushes RA instead of loading RA from the word below SP as written; for every other rs it equals the as-written `LoadStore.Store`.
- LoadStore.PushReturnAddress: is the corrected STORE ZR, which writes RA below SP. The as-written STORE ZR is `LoadStore.StoreReturnAddress`.
- PoolBuilder.Matches: is the corrected `get(value)` key, which matches value items only. As written a function item whose stored value is the value also matches; see `PoolBuilder.ValueIndexAsWritten`.
- PoolBuilder.InternedValueBuilds: states the corrected `get(value)`; as written the index found can be a function item's, which builds to 0x80000000.
- Tasks.TaskHandler.SetStackSize: implements the corrected padding, not the one as written. The as-written function and its consequences are stated by `Tasks.StackSizeAsWrittenMisaligns`.
- Analysis.ProgramAnalysis.Analyze: the inner block scan of `analyze` is not modelled. It never advances its address, indexes a word array by a byte address, and ends only at an indirect branch. The model collects the block starts the scan would begin at.
- ControlFlow.Comparison: is the corrected definition for the "i" form, which compares rd with the sign-extended rs byte. As written (`ControlFlow.ComparisonAsWritten`), BEQi to BLTUi read the rs byte as a register, so an operand that is not a multiple of 4 faults.
- ControlFlow.BranchCondition: states the corrected "i" form, rd against the sign-extended rs byte, not the as-written rd against the rs register. `ControlFlow.BranchFails`, `ControlFlow.BranchOf` and `ControlFlow.Branch` follow the corrected form too.
- ControlFlow.BranchCondition: the operand width of the IB compare forms is a parameter (`Widening`, zero- or sign-extension of the rs byte). The source compares a 32-bit register with an 8-bit constant, which has no defined LLVM meaning.
- Memory.SYSCPY: overlapping ranges copy through a snapshot, as `memmove` does. For them `memcpy` is undefined.
- Guest memory accesses past the end of memory are undefined in the source. The model refuses them with a fault. A zero-length copy, fill or span accesses nothing and is not refused.
- Translator.RegisterSlot: a register operand whose slot is 32 or more (PC and beyond) is undefined in the source. The model refuses it with a fault.
- Opcodes whose lowering is not part of this model are left out: jumps and calls, multiply, divide, logic, shifts and the narrow arithmetic forms.
- PoolBuilder.ModifiablePoolItems: the truncation of the returned index to `uint32` is not modelled. Function pointers are numbers, with 0 as the null pointer.
- PoolBuilder.ModifiablePoolItems.HleHandler: returns the function and data to call, instead of calling the host function.
- ObjectCache, VMEngine, the C interface, and the test drivers and fixtures are not modelled. They are file, JSON, LLVM and host I/O.

## Findings

| source | as written | input that shows it | evidently intended | confidence | as-written member | corrected member |
|---|---|---|---|---|---|---|
| src/PoolItems.h:11 | pool items are declared `uint32_t`, so the 64-bit tag masks of src/PoolItems.cpp:12-60 test bits that are always zero | any pool: an item 0x80000000 is classified as a constant and never as a terminate function | the declared width and the masks disagree. The fix is either 64-bit items, as the masks and the configuration's `uint64` pool expect, or 32-bit masks with bit 31 as the non-constant flag, which is what the test pool builder's `build` emits (tests/units/ModifiablePoolItems.cpp:41-54). `PoolItems.TagBits` takes the 64-bit reading | medium, not executed | PoolItems.DeclaredWidthDropsTags | PoolItems.TagBits |
| src/Translator/LoadStore.cpp:80-86 | STORE ZR loads RA from the word below SP instead of storing RA there | SP = 8, RA = 0x1234 over 16 zero bytes: after STORE ZR then RESTORE ZR, RA is 0 | STORE ZR pushes RA, so that RESTORE ZR pops it back | medium, not executed | LoadStore.StoreZeroLosesReturnAddress | LoadStore.PushRestoreRoundTrip |
| tests/units/ModifiablePoolItems.cpp:4-20 | `get(value)` matches any item whose `value_` equals the value, and function items hold `value_` 0 | `get(f, d)` followed by `get(0)` returns the function item's index, which builds to 0x80000000 | only value items match, so the index builds to the value | high, not executed | PoolBuilder.GetZeroFindsFunctionItem | PoolBuilder.InternedValueBuilds |
| src/TaskHandler.h:76-79 | `set_stack_size` pads by the residue of the previously stored size, not of the new size | the first call `set_stack_size(8)`, from the initial -1, stores 9 | the size rounded up to a multiple of 4 (8 stays 8) | high, not executed | Tasks.StackSizeAsWrittenMisaligns | Tasks.AlignedStackSize |
| src/Translator/ControlFlow.cpp:8-11 | in the register-compare forms `fetch_immediate` has already advanced the current address by 4 when the taken target is formed | BLTU at 0 with offset 20 (the layout of tests/units/TestControlFlow.cpp:59-83) branches to 24 instead of 20 | the offset counts from the branch itself, as in the "i" and "IB" forms | medium, not executed | ControlFlow.FetchedTargetOvershoots | ControlFlow.BranchTargets |
| src/Translator/ControlFlow.cpp:6-8 | BEQi to BLTUi go through the register-compare helper, which reads the rs byte as a register | `bgtui $s0,11,36`, the jump-table guard quoted at src/ProgramAnalysis.cpp:30, faults because 11 is not a multiple of 4; the BGTi test (tests/units/TestControlFlow.cpp:371-395) puts a random int8 in rs and expects `p1 > p2` | the "i" form compares rd with the rs byte as a signed 8-bit immediate | medium, not executed | ControlFlow.InInstructionReadsRegister | ControlFlow.ImmediateBoundCompares |
