# A verified model of the rv32 emulator and its GDB stub

This project models three pieces of the repository and proves what they compute.

* **The core** (`src/rv32.h`): an RV32IM + Zicsr emulator with machine-mode interrupts, `wfi`, a 32-line interrupt
  controller with one memory-mapped word, and eight breakpoint slots. `Machine.RV32` is the emulator in place, with
  registers, breakpoint slots and RAM in fixed arrays. `Core`, `Control`, `Memory`, `Alu` and `Immediates` are the same
  machine as functions on values; `Core.Run` runs it over any sequence of events (cycles, interrupt lines, debugger
  actions and writes, resets). Every answer of the embedding program (memory-mapped I/O, `ecall`) comes from a `Host`
  that each cycle brings along, so all results hold for every host.
* **The GDB stub** (`gdb_stub/rsp.h`): hex codecs, the escaping and checksumming packet writer, the command handlers and
  the byte-at-a-time receiver. `Stub.RspPacket` and `Stub.RspStub` are the objects in place; `Hex`, `Packet`, `Commands`
  and `Receiver` are their specifications. `RSP_FATAL` ends the process and is a failing result.
* **The older core** (`examples/c-newlib-nano/rv32.c`), as the class `OldCore.OldRV32`, for a lock-step comparison.

`uint32_t` is an integer below 2^32 with explicit wrap-around; `&`, `|`, `^` and the shifts are defined on digits in
`Words`, where the masks of the source are related to bits and fields.

## Main results

* `Isa` is a hart written from the RISC-V manuals (unprivileged ISA 20191213, chapters 2, 7 and 9, and `mret` and `wfi`
  of the privileged ISA 20211203): instructions as a datatype, x0 hard-wired, logic and shifts given bit by bit, division
  as the real quotient rounded toward zero. Its RAM, devices, six CSRs, trap entry and debugger are the emulator's; trap
  entry is compared with the manual's in `Interrupts`, and cycle, accesses outside RAM, hook and reset are written out for
  the hart anew. `IsaRefinement` shows that a cycle of the core on a legal encoding
  is the hart's step if and only if `StepDeviates` is false, and the same for whole runs.
* Interrupts are precise over whole handler runs; the claim loop drains exactly the right lines in order; over every run
  the numbers of raised, claimed and pending lines balance, and `mip.MEIP` is right exactly as long as the guest writes
  `mip` with the right bit 11. `Delivery` joins the two: consecutive handlers during which no line is raised run in the
  order in which the claim loop drains the lines, and, as long as they leave MEIP right, until none is left to deliver.
* The receiver, fed byte by byte, does exactly what a recursive parser of the whole stream does; every packet that the
  writer can emit is accepted by the receiver and unescapes to its payload.
* With the debugger attached, any interleaving of received bytes and cycles drives the machine through one of the runs
  that the results above are about (`Attached.DriveIsRun`).
* The two cores stay in lock step over whole runs inside a stated domain.

## Where the code departs from its specifications

Each departure is kept in the model, with its exact domain.

* `jal`: the offset is sign-extended from bit 19 (`Immediates.RoundTripJ`, `IsaRefinement.JalOffsets`).
* `sltiu`: the immediate is not sign-extended (`IsaArithmetic.SltiuAgrees`).
* `mret` leaves MPIE as it is, where the manual sets it (`IsaArithmetic.MretAgrees`).
* Misaligned jump and branch targets are not trapped (`IsaRefinement.Deviates`); FENCE is rejected
  (`IsaRefinement.FenceIsRejected`).
* A CSR other than the six reads as zero and ignores writes, where the manual has a register (such as `mscratch`) or an
  illegal-instruction exception (`IsaRefinement.AbsentCsrReadsZero`).
* Words of these kinds that depart, with the states in which they do: `IsaRefinement.WordsThatDepart`.
* `wfi` waits for a trap, where the manual resumes as soon as an interrupt that `mie` enables is pending, whatever MIE
  says (`IsaRefinement.WaitMatches`, `IsaRefinement.WaitDeparts`); with MIE clear the core waits until it is reset
  (`CoreRuns.WfiForever`).
* An interrupt is taken only when exactly one kind is enabled and pending, where the manual takes the one of highest
  priority (`Interrupts.TakenIffSole`, `Interrupts.TwoKindsWait`, `Delivery.PriorityWitness`).
* The cause of an external interrupt is 16 plus its line, where the manual has 11 (`Interrupts.ExternalCode`,
  `Interrupts.PreludeMeetsManual`, `Delivery.CauseWitness`).
* Software can write MEIP in `mip`, which the manual makes read-only. Both interrupt handlers of the examples clear it
  before they return, and lines still pending are then stranded until the next one is raised
  (`Delivery.HandlerStrands`, `Delivery.StrandedWitness`); the accounts that hold regardless, and the exact condition for
  those that do not, are `CoreRuns.PendingAccount` and `CoreRuns.MeipExact`.
* A claim takes the lowest pending line even if that line is not enabled (`Interrupts.ClaimTakesLowest`);
  only lines 0 to 3 can be raised, although the comment in the source says 0 to 31 (`Interrupts.TriggerRaises`).
* `rsp_hex_to_u32` shifts by four bits per byte, so `P` and `G` store a word correctly exactly when it is below 256
  (`Hex.WordRoundTrip`, `CommandLaws.WriteRegisterExact`, `CommandLaws.WriteRegistersExact`); what they store instead is
  given bit by bit (`Hex.HexToU32Overlaps`, `CommandLaws.WriteRegisterStores`, `CommandLaws.WriteRegistersStores`).
* Several fields of an instruction go unchecked, so that reserved words execute as legal ones (`IsaRefinement.EveryWord`).
* `Z0` and `z0` look for a comma behind the packet, in bytes an earlier packet left in the buffer
  (`CommandLaws.StaleByteDecides`, on streams `Attached.StaleCommaInStream`); no other command reads them
  (`CommandLaws.StaleBytesIgnored`).
* After a bad checksum the receiver tests an unset variable; the model lets every byte say what it held.
* `m` and `M` check their range in 32 bits and refuse one that ends with the last byte of RAM; a range that wraps around
  passes the check and leaves RAM (`CommandLaws.RangeCheck`).
* The byte 0x03 pauses even a halted machine, and `k` resets it; a `c` after either sets it running
  (`CoreRuns.RevivedRuns`), and nothing else does (`CoreRuns.DeadUntilRevived`, `Attached.DeadWhileAttached`).

## Model

| member | source | states |
|---|---|---|
| Immediates.FieldsAtLiterals | src/rv32.h:122-134 | the field macros and the I and U immediates are the manual's bit fields |
| Immediates.ImmSAtLiterals | src/rv32.h:127-127 | the masks and shifts of IMM_S join the manual's two S fields |
| Immediates.ImmBAtLiterals | src/rv32.h:129-131 | the masks and shifts of IMM_B join the manual's four B fields |
| Immediates.ImmJAtLiterals | src/rv32.h:135-137 | the masks and shifts of IMM_J join the manual's four J fields |
| Immediates.SExtValue | src/rv32.h:120 | SEXT of an n-bit field is its two's complement reading modulo 2^32 |
| Immediates.SignedImmediates | src/rv32.h:126-134 | the sign-extended I, S, B and U macros are the manual's signed immediates |
| Immediates.SExtImmJAsWritten | src/rv32.h:138 | SEXT_IMM_J copies bit 19 upward over bit 20 |
| Immediates.RoundTripI | src/rv32.h:125-126 | encoding and then decoding gives back every I immediate |
| Immediates.RoundTripS | src/rv32.h:127-128 | the same for every S immediate, whatever the other fields |
| Immediates.RoundTripB | src/rv32.h:129-132 | branch offsets come back with bit 0 cleared, so exactly the even ones come back unchanged |
| Immediates.RoundTripU | src/rv32.h:133-134 | the same as I for every U immediate |
| Immediates.RoundTripJ | src/rv32.h:135-138 | jal offsets come back exactly when even and in [-2^19, 2^19); otherwise they are off by -2^20 or +2^21 |
| Alu.ProductsAreExact | src/rv32.h:394-414 | each high word joined with mul is the exact unsigned, signed or mixed product |
| Alu.MulhFromMulhu | src/rv32.h:400-414 | mulh is mulhu corrected by the operand of each negative factor |
| Alu.DivisionLaws | src/rv32.h:415-454 | dividend = divisor * quotient + remainder modulo 2^32 for all operands, zero and overflow included; remainder size and sign |
| Memory.LoadReads | src/rv32.h:140-163 | in RAM every load is the little-endian composition of its bytes; outside it does not depend on RAM |
| Memory.StoreWrites | src/rv32.h:165-188 | in RAM every store replaces exactly its bytes; outside, RAM stays and only the controller word can change |
| Memory.LoadOutside | src/rv32.h:140-163 | outside RAM the word at 0x90000000 is the interrupt-enable word, and every other load is the host's answer for that address |
| Memory.StoreOutside | src/rv32.h:165-188 | outside RAM a word store to 0x90000000 always sets the interrupt-enable word; every other store succeeds exactly if the host takes that address and the masked value, and changes nothing |
| Memory.LoadAfterStore | src/rv32.h:140-188 | a load after a store gives the stored value back, and every disjoint load is unchanged |
| Interrupts.ClearBitBits | src/rv32.h:195 | CSR_CLEAR_BIT removes one bit of the set of bits and no other |
| Interrupts.SetBitBits | src/rv32.h:196 | CSR_SET_BIT sets or clears one bit and no other |
| Interrupts.GetBitBits | src/rv32.h:197 | CSR_GET_BIT reads one bit |
| Interrupts.ClaimTakesLowest | src/rv32.h:253-267 | a claim succeeds iff an enabled line is pending, takes the lowest pending line, and clears MEIP iff none is left |
| Interrupts.DrainIsExact | src/rv32.h:253-267 | repeated claims yield, ascending and once each, exactly the pending lines up to the highest enabled one |
| Interrupts.TrapTargetIsVector | src/rv32.h:294-302 | the trap goes to the base plus four times the cause in vectored mode, else to mtvec |
| Interrupts.NoTrap | src/rv32.h:269-289 | when no trap is due the interrupt prelude changes nothing |
| Interrupts.TrapTaken | src/rv32.h:269-304 | when a trap is due, pc, mepc, mcause, MIE, MPIE, wfi and the claimed line are exactly these, mcause of an external interrupt being 16 plus its line, and nothing else changes |
| Interrupts.TrapIff | src/rv32.h:365-366 | a trap is taken iff MIE is set and exactly one interrupt kind is enabled and pending (for external, with an enabled line) |
| Interrupts.TakenIffSole | src/rv32.h:269-289 | a trap is taken iff the kind that the privileged manual takes (section 3.1.9) is the only one enabled and pending, and for external a line is enabled |
| Interrupts.PreludeMeetsManual | src/rv32.h:269-304 | trap entry is the manual's exactly when the manual takes no trap, or software or timer is the only kind enabled and pending |
| Interrupts.ExternalCode | src/rv32.h:283-288 | mcause of an external interrupt is never the manual's code 11 but at least 16 |
| Interrupts.TwoKindsWait | src/rv32.h:274-291 | with external and software both enabled and pending the manual takes external, the core nothing |
| Interrupts.CsrAccess | src/rv32.h:306-348 | CSR reads and writes are those of a six-entry file at the standard addresses |
| Breakpoints.HitIsListed | src/rv32.h:371-378 | the scan of a cycle hits iff pc is in the multiset of breakpoints |
| Breakpoints.SetAddsOne | src/rv32.h:810-820 | setting adds one copy and fails iff eight are set; unused slots stay zero |
| Breakpoints.ClearRemovesOne | src/rv32.h:822-832 | clearing removes one copy and fails iff the address is not listed |
| Breakpoints.FreeSlotIsFree | src/rv32.h:812-818 | the slot taken is the first unused one |
| Breakpoints.SlotHoldingHolds | src/rv32.h:824-830 | the slot cleared is the first used one that holds the address |
| Breakpoints.ClearAllEmpties | src/rv32.h:834-839 | clearing all leaves no breakpoint and all slots zero |
| CoreRuns.ExecuteControl | src/rv32.h:737-802 | which instructions can touch mstatus, mepc and mip; none touches breakpoints or pending lines |
| CoreRuns.CycleIs | src/rv32.h:357-390 | a whole cycle written out: waiting or not RUNNING it stands still, at a listed address it pauses, otherwise it executes the word at pc or stops for want of one |
| CoreRuns.EcallTakesAnswer | src/rv32.h:738-744 | ecall takes over what the hook leaves and goes on exactly if still RUNNING |
| CoreRuns.StoppedFreezes | src/rv32.h:369-370 | over any run that finds the machine RUNNING at no event, registers and RAM are what debugger writes and resets made of them |
| CoreRuns.DeadUntilRevived | src/rv32.h:248-251 | HALTED, EBREAK and both INVALID statuses are kept throughout a run exactly when it holds no debugger interrupt and no reset; meanwhile only debugger writes change registers and RAM |
| CoreRuns.RevivedRuns | gdb_stub/rsp.h:372-375 | after a debugger interrupt or a reset, continue sets any of these machines running |
| CoreRuns.WfiFreezes | src/rv32.h:367-368 | the wait of wfi lasts through a run exactly when no cycle starts with a trap due and nothing resets; meanwhile only debugger writes change registers, pc and RAM |
| CoreRuns.WfiForever | src/rv32.h:269-271 | with MIE clear the wait lasts through a run exactly when nothing resets, whatever is triggered (the manual would resume) |
| CoreRuns.TrapWakes | src/rv32.h:291-303 | a trap ends the wait and saves the interrupted pc |
| CoreRuns.InsideHandler | src/rv32.h:269-304 | from trap entry on, until an mret or a write of mstatus or mepc, no second trap is taken and mepc is kept |
| CoreRuns.HandlerReturns | src/rv32.h:752-755 | the matching mret resumes at the interrupted pc with MIE set and every other mstatus bit but MPIE as before |
| CoreRuns.PendingAccount | src/rv32.h:253-267 | over every run: raised = claimed + forgotten by resets + pending, and from lines 0 to 3 no other line ever gets pending |
| CoreRuns.MeipExact | src/rv32.h:253-267 | from a state where MEIP says whether a line is pending, it does so throughout a run exactly when each value written to mip has bit 11 right |
| CoreRuns.StrandedUntilRaised | src/rv32.h:269-289 | with MEIP clear no line is claimed, and none stops pending, until a line is raised, MEIP is written or the machine is reset |
| Interrupts.TriggerRaises | src/rv32.h:350-355 | a trigger of a line below 4 adds exactly that line and MEIP; from 4 up it changes nothing |
| CoreRuns.SlotsRefineList | src/rv32.h:810-839 | over every run from any state the slots refine a multiset of at most eight addresses; unused slots that hold 0 keep doing so |
| CoreRuns.NeverFetchesListed | src/rv32.h:371-378 | in no run is an instruction fetched from a listed address |
| CoreRuns.ResumingPausesAgain | src/rv32.h:248-251 | resuming at a breakpoint pauses again without any change |
| CoreRuns.ResetIsZero | src/rv32.h:234-246 | rv32_new field by field: paused, everything zero, RAM kept behind its first four bytes |
| CoreRuns.FirstCycle | src/rv32.h:234-251 | after reset, load and continue, the first cycle executes the word at address 0 |
| CoreRuns.FromReset | src/rv32.h:234-246 | every run from rv32_new: raised = claimed + forgotten + pending, only lines 0 to 3, MEIP right throughout exactly when each write of mip has it right, breakpoints as listed |
| Delivery.HandlersDrain | src/rv32.h:253-304 | over consecutive handlers with nothing raised and the enable word left alone, whatever they write to mie and mip: the lines delivered are a prefix of what draining yields, each returns to the interrupted pc, and another external trap is due exactly while lines are left and MEI alone is enabled and pending |
| Delivery.DeliveredInOrder | src/rv32.h:253-304 | of such handlers: lines ascend, once each, up to the highest enabled line; another one is due exactly while such a line is undelivered and MEI alone is enabled and pending |
| Delivery.DeliversAll | src/rv32.h:253-304 | if what the handlers write to mip has MEIP right, a trap is due exactly while such a line is undelivered |
| Delivery.HandlerStrands | src/rv32.h:253-289 | a handler that returns with MEIP clear strands the lines still pending |
| Delivery.ClearingServes | examples/fantasy-computer/example-interrupts/example.c:15-19 | the two instructions with which the handlers of the examples end, `csrrc x0, mip, t0` and `mret`, serve an interrupt and leave MEIP clear |
| Delivery.StrandedWitness | examples/fantasy-computer/example-interrupts/example.c:15-19 | two lines raised, one served by them: the other, though enabled, stays pending with no external trap due |
| Delivery.CauseWitness | src/rv32.h:283-288 | a state in which the manual's cause is 11 and the core's 16 |
| Delivery.PriorityWitness | src/rv32.h:274-291 | a state in which the manual takes the external interrupt and the core none |
| IsaArithmetic.RegisterOpAgrees | src/rv32.h:392-524 | every legal OP encoding computes the manual's value |
| IsaArithmetic.ImmediateOpAgrees | src/rv32.h:526-576 | every legal OP-IMM encoding computes the manual's value, sltiu exactly outside SltiuDiffers |
| IsaArithmetic.SltiuAgrees | src/rv32.h:566-569 | the operands on which sltiu differs from the manual, exactly |
| IsaArithmetic.MretAgrees | src/rv32.h:752-755 | mret is the manual's exactly when MPIE is set |
| IsaArithmetic.DivisionAgrees | src/rv32.h:415-445 | div and rem round the real quotient toward zero |
| IsaArithmetic.ArithmeticShiftAgrees | src/rv32.h:498-501 | sra fills with the sign bit, bit by bit |
| IsaRefinement.OpMatches | src/rv32.h:392-524 | OP instructions step as the manual's hart |
| IsaRefinement.OpImmMatches | src/rv32.h:526-576 | OP-IMM instructions step as the hart iff not a deviating sltiu |
| IsaRefinement.LoadMatches | src/rv32.h:578-627 | loads step as the hart, sign extension and faults included |
| IsaRefinement.StoreMatches | src/rv32.h:629-659 | stores step as the hart |
| IsaRefinement.BranchMatches | src/rv32.h:661-710 | branches step as the hart iff not taken to a misaligned target |
| IsaRefinement.JalMatches | src/rv32.h:712-716 | jal steps as the hart iff offset bits 19 and 20 agree and the target is aligned |
| IsaRefinement.JalOffsets | src/rv32.h:138 | the decoded jal target is the manual's iff offset bits 19 and 20 agree |
| IsaRefinement.JalrMatches | src/rv32.h:718-724 | jalr steps as the hart iff its target is aligned |
| IsaRefinement.LuiMatches | src/rv32.h:725-729 | lui steps as the hart |
| IsaRefinement.AuipcMatches | src/rv32.h:731-735 | auipc steps as the hart |
| IsaRefinement.EnvironmentMatches | src/rv32.h:738-764 | executing ecall, ebreak, wfi and mret steps as the hart, mret iff MPIE is set |
| IsaRefinement.CsrMatches | src/rv32.h:765-796 | CSR instructions on any CSR number step as the hart iff the number is one of the six, although the source always writes |
| IsaRefinement.AbsentCsrReadsZero | src/rv32.h:306-348 | any other CSR reads as zero, takes no write, and the program goes on |
| IsaRefinement.FenceMatches | src/rv32.h:803-806 | fence never steps as the hart |
| IsaRefinement.ClearingIsInvisible | src/rv32.h:389 | the lazy clearing of r[0] cannot be seen in x0 |
| IsaRefinement.ExecuteMatches | src/rv32.h:390-807 | one instruction equals the hart's exactly when Deviates is false |
| IsaRefinement.CycleMatches | src/rv32.h:357-808 | one cycle on a legal encoding equals the hart's step exactly when it does not deviate, waking from wfi included |
| IsaRefinement.WaitMatches | src/rv32.h:365-368 | with no trap due, waiting is the manual's (section 3.3.3) exactly when no interrupt enabled in mie is pending |
| IsaRefinement.WaitDeparts | src/rv32.h:365-368 | a state in which the manual resumes from wfi and the core waits on |
| IsaRefinement.RunRefines | src/rv32.h:357-808 | for every program, start state and interleaving of events, conforming runs refine the hart's runs |
| IsaRefinement.RunMatches | src/rv32.h:357-808 | on runs without reserved encodings, core and hart are the same at every point exactly when no step deviates |
| IsaRefinement.WordsThatDepart | src/rv32.h:390-807 | one word each of sltiu, two of jal, mret, a csrrw of mscratch and fence, with exactly the states in which it departs from the manual |
| IsaRefinement.DepartsFromReset | src/rv32.h:234-242 | all of them depart on a machine out of reset once x5 holds 0x1000 |
| IsaRefinement.FenceIsRejected | src/rv32.h:803-806 | every word with the opcode of fence stops the emulator as an invalid instruction, and fence departs from the manual on every state |
| IsaRefinement.EveryWord | src/rv32.h:390-807 | every word executes as the canonical word without the fields that go unchecked, and stops the emulator as invalid where that is no instruction |
| IsaRefinement.ZeroHoldsResult | src/rv32.h:389-390 | a result for x0 stays in r[0] until the next instruction clears it |
| Machine.RV32.constructor | src/rv32.h:234-242 | rv32_new: everything zero but mem_size, paused, RAM behind the struct kept |
| Machine.RV32.Reset | src/rv32.h:244-246 | rv32_reset in place gives the state of rv32_new |
| Machine.RV32.Resume | src/rv32.h:248-251 | only PAUSED becomes RUNNING |
| Machine.RV32.ClaimIrq | src/rv32.h:253-267 | the claim loop in place is Control.ClaimIrq |
| Machine.RV32.HandleInterrupt | src/rv32.h:269-304 | trap entry in place is Control.HandleInterrupt |
| Machine.RV32.TriggerExternalInterrupt | src/rv32.h:350-355 | raising a line in place is Control.Trigger |
| Machine.RV32.ReadCsr | src/rv32.h:306-323 | the CSR switch reads the file of Interrupts.CsrAccess |
| Machine.RV32.WriteCsr | src/rv32.h:325-348 | the CSR switch writes it in place |
| Machine.RV32.Load8 | src/rv32.h:140-146 | byte load from RAM or the host |
| Machine.RV32.Load16 | src/rv32.h:147-153 | halfword load from RAM or the host |
| Machine.RV32.Load32 | src/rv32.h:154-163 | word load from RAM, the controller or the host |
| Machine.RV32.Store8 | src/rv32.h:165-171 | byte store in place |
| Machine.RV32.Store16 | src/rv32.h:172-178 | halfword store in place |
| Machine.RV32.Store32 | src/rv32.h:179-188 | word store in place, to RAM, the controller or the host |
| Machine.RV32.Register | src/rv32.h:392-524 | OP instructions in place |
| Machine.RV32.Immediate | src/rv32.h:526-576 | OP-IMM instructions in place |
| Machine.RV32.LoadOp | src/rv32.h:578-627 | load instructions in place |
| Machine.RV32.StoreOp | src/rv32.h:629-659 | store instructions in place |
| Machine.RV32.Branch | src/rv32.h:661-710 | branches in place |
| Machine.RV32.Jump | src/rv32.h:712-724 | jal and jalr in place, in the source's order of writes |
| Machine.RV32.Csr | src/rv32.h:765-796 | CSR instructions in place |
| Machine.RV32.Ecall | src/rv32.h:740-742 | whatever the ecall hook answers becomes status, registers and RAM in place |
| Machine.RV32.System | src/rv32.h:737-802 | SYSTEM instructions in place |
| Machine.RV32.Execute | src/rv32.h:390-807 | the opcode switch in place is Core.Execute |
| Machine.RV32.AtBreakpoint | src/rv32.h:371-378 | the breakpoint scan |
| Machine.RV32.Cycle | src/rv32.h:357-808 | rv32_cycle in place is Core.Cycle, which the lemmas above are about |
| Machine.RV32.SetBreakpoint | src/rv32.h:810-820 | the loop over the slots takes the first free one |
| Machine.RV32.ClearBreakpoint | src/rv32.h:822-832 | the loop over the slots clears the first match |
| Machine.RV32.ClearAllBreakpoints | src/rv32.h:834-839 | mask and slots zeroed |
| OldCore.OldRV32.Load | examples/c-newlib-nano/rv32.c:211-244 | the older core's loads, byte by byte, in place |
| OldCore.OldRV32.Store | examples/c-newlib-nano/rv32.c:246-272 | the older core's stores, one byte and increment at a time |
| OldCore.OldRV32.Cycle | examples/c-newlib-nano/rv32.c:57-366 | the older rv32_cycle in place, on inputs that C defines |
| OldCore.SystemMovesOn | examples/c-newlib-nano/rv32.c:347-361 | ecall and ebreak only move on; every other SYSTEM word is an invalid instruction |
| OldCore.JalrReadsLink | examples/c-newlib-nano/rv32.c:329-333 | jalr through its own link register jumps relative to the link, and an odd target stays odd |
| OldCore.InvalidOpcodes | examples/c-newlib-nano/rv32.c:362-363 | exactly the words outside the ten opcodes are reported as invalid opcodes |
| LockStep.LoadsAgree | examples/c-newlib-nano/rv32.c:211-242 | bytes joined with shifts are the word the current core loads |
| LockStep.StoresAgree | examples/c-newlib-nano/rv32.c:246-267 | byte stores leave the RAM that the current core's word stores leave |
| LockStep.ExecuteAgrees | examples/c-newlib-nano/rv32.c:68-365 | one instruction in the domain: same registers, pc, RAM and outcome |
| LockStep.CycleAgrees | examples/c-newlib-nano/rv32.c:57-366 | one cycle in the domain, fetch included |
| LockStep.RunsAgree | examples/c-newlib-nano/rv32.c:57-366 | lock step over runs of any length, errors included |
| Hex.DigitReads | gdb_stub/rsp.h:59-65 | a byte reads as v exactly when it is the v-th hex digit of either case; other bytes fail |
| Hex.HexToU8Value | gdb_stub/rsp.h:74-78 | two digits of either case are sixteen times the first plus the second |
| Hex.DigitsRoundTrip | gdb_stub/rsp.h:116-119 | reading back the two digits of a byte gives the byte |
| Hex.DigitsAreLower | gdb_stub/rsp.h:67-72 | digits are written in lower case |
| Hex.WordRoundTrip | gdb_stub/rsp.h:80-88 | reading back the digits of a word gives the word exactly below 256 as written, and always with an eight-bit shift |
| Hex.HexToU32Overlaps | gdb_stub/rsp.h:80-88 | for every eight characters: failure exactly if one is no digit, and otherwise each bit of the result, four bytes laid over one another four bits apart |
| Packet.AppendAllFits | gdb_stub/rsp.h:96-101 | every append keeps checksum = sum of the body modulo 256 and fails exactly when the buffer is full |
| Packet.TextIsEscape | gdb_stub/rsp.h:103-114 | the append loop writes the escaped text |
| Packet.U8IsDigits | gdb_stub/rsp.h:116-119 | a byte is written as its two digits |
| Packet.BodyIsClean | gdb_stub/rsp.h:103-114 | a body holds no NUL, dollar or hash |
| Packet.UnescapeEscape | gdb_stub/rsp.h:107-110 | unescaping gives back every text |
| Packet.UnescapeIsPayload | gdb_stub/rsp.h:103-124 | unescaping the body of any packet, of text and bytes in any order, gives back its payload |
| Packet.EmitIsFrame | gdb_stub/rsp.h:90-145 | a packet is the frame of its escaped body, and fails exactly when that body is longer than 1019 bytes |
| Commands.ScanReads | gdb_stub/rsp.h:192-196 | the digit loop computes the written number modulo 2^32 |
| CommandLaws.Dispatches | gdb_stub/rsp.h:318-327 | m, M, P, g and G reach their handlers whatever follows |
| CommandLaws.RunControlCommands | gdb_stub/rsp.h:290-304 | ? reports S05, c starts a paused machine silently, D also removes every breakpoint and answers OK, k resets silently; nothing else changes |
| CommandLaws.OtherPackets | gdb_stub/rsp.h:308-340 | the two queries are answered, and every packet that no handler claims gets the empty reply |
| CommandLaws.RangeCheck | gdb_stub/rsp.h:207-207 | the 32-bit check passes exactly the ranges that end before the last byte of RAM and those that wrap around; exactly the former stay in RAM |
| CommandLaws.WriteMemoryWrites | gdb_stub/rsp.h:218-251 | every well-separated M: the decoded bytes at the written address and nothing else, the empty reply, or the end of the process, with the condition of each |
| CommandLaws.ReadMemoryReads | gdb_stub/rsp.h:186-216 | every well-formed m: the bytes of the range in lower-case hex, the empty reply, or the end of the process, with the condition of each |
| CommandLaws.ReadHasShape | gdb_stub/rsp.h:186-206 | an m packet that is not an address, a comma and a length ends the process |
| CommandLaws.WriteHasShape | gdb_stub/rsp.h:218-241 | an M packet that is not an address, a comma, a length, a colon and data ends the process |
| CommandLaws.WriteThenRead | gdb_stub/rsp.h:186-251 | M and then m of the same range gives the written bytes and changes nothing outside it |
| CommandLaws.ReadThenWrite | gdb_stub/rsp.h:186-251 | the digits that m sent, written back with M later, restore the range |
| CommandLaws.ReadRegistersReads | gdb_stub/rsp.h:147-155 | g replies with 33 little-endian words, r[0] to r[31] and pc |
| CommandLaws.WriteRegistersExact | gdb_stub/rsp.h:157-167 | G with the digits of g restores the registers exactly when all are below 256 |
| CommandLaws.WriteRegistersStores | gdb_stub/rsp.h:157-167 | every G packet: the end of the process, or every bit of every register and pc |
| CommandLaws.WriteRegisterExact | gdb_stub/rsp.h:169-184 | P stores the written word, in a register or in pc (32), exactly when it is below 256; higher register numbers end the process |
| CommandLaws.WriteRegisterStores | gdb_stub/rsp.h:169-184 | every P packet: the end of the process, or every bit of the register or pc |
| CommandLaws.WriteRegisterWitness | gdb_stub/rsp.h:169-184 | `P20=00100000` sets pc to 0x100 |
| CommandLaws.InsertCommand | gdb_stub/rsp.h:253-269 | Z0 adds one breakpoint and answers OK unless eight are set |
| CommandLaws.RemoveCommand | gdb_stub/rsp.h:272-288 | z0 removes one breakpoint and answers OK unless there is none |
| CommandLaws.BreakpointHasShape | gdb_stub/rsp.h:253-288 | a Z0 or z0 packet is answered exactly if an address stands between commas, the second of which may be left over behind the packet |
| CommandLaws.StaleBytesIgnored | gdb_stub/rsp.h:308-340 | a packet's handling does not depend on older bytes in the buffer, one family apart |
| CommandLaws.StaleByteDecides | gdb_stub/rsp.h:258-264 | for that family the packet is answered exactly when the byte behind it is a comma, and ends the process otherwise |
| Receiver.FeedIsSession | gdb_stub/rsp.h:361-407 | any byte stream fed one by one ends as the parser of the whole stream says: packets, machine, replies, position |
| Receiver.BodyIsSession | gdb_stub/rsp.h:377-384 | the same from inside a packet, overlong bodies included |
| Receiver.AckIsSession | gdb_stub/rsp.h:400-405 | the same while an acknowledgement is awaited |
| Receiver.FrameIsAccepted | gdb_stub/rsp.h:377-393 | the frame of any body without a hash that fits is received whole and dispatched |
| Receiver.EmittedIsAccepted | gdb_stub/rsp.h:90-145 | whatever the writer emits the receiver accepts, and it unescapes to the payload |
| Attached.PacketOnWire | gdb_stub/rsp.h:385-398 | for every body and any two digits: a wrong checksum is answered with `-` alone and leaves the machine alone; a right one with `+`, the handler's effect and its reply |
| Attached.BreakOnWire | gdb_stub/rsp.h:369-376 | byte 3 between packets pauses the machine and sends `$S02#b5` |
| Attached.NoiseOnWire | gdb_stub/rsp.h:368-376 | every other byte between packets but `$` is skipped |
| Attached.AckOnWire | gdb_stub/rsp.h:400-405 | after a reply `+` is taken and any other byte ends the process |
| Attached.BadPacketOnWire | gdb_stub/rsp.h:377-390 | a body over 1024 bytes or a checksum digit that is none ends the process |
| Attached.PacketIsRun | gdb_stub/rsp.h:308-340 | handling any packet is a run of at most two events of the core |
| Attached.DriveIsRun | gdb_stub/rsp.h:361-407 | over any interleaving of received bytes and own events the machine changes only by packets with the right checksum, by 0x03 between packets and by its own events, and ends as the run of these |
| Attached.ActedIsParsed | gdb_stub/rsp.h:361-407 | over any interleaving, the packets and breaks that the machine sees are those that an independent parser finds in the received bytes alone |
| Attached.DriveIsFeed | gdb_stub/rsp.h:361-407 | with bytes only, that is the receiver |
| Attached.DeadWhileAttached | gdb_stub/rsp.h:301-304 | over a whole session the dead statuses are kept exactly when it holds no 0x03 between packets, no k and no other reset or interrupt |
| Attached.NeverFetchesWhileAttached | src/rv32.h:371-378 | over a whole session no instruction is fetched from an address in the debugger's list |
| Attached.ShortNeedsComma | gdb_stub/rsp.h:253-269 | a Z0 or z0 packet without its second comma is accepted from the stream exactly if the buffer holds one in its place |
| Attached.StaleCommaInStream | gdb_stub/rsp.h:253-288 | for every address: accepted after the same command with the comma, fatal after power-up |
| Attached.StaleWitness | gdb_stub/rsp.h:258-264 | the stream `$Z0,0#e6` fails after power-up and succeeds after `$Z0,0,#12+` |
| Stub.RspPacket.AppendByteRaw | gdb_stub/rsp.h:96-101 | one byte and the checksum, in place |
| Stub.RspPacket.Append | gdb_stub/rsp.h:103-114 | the escaping loop in place |
| Stub.RspPacket.AppendU8 | gdb_stub/rsp.h:116-119 | two digits in place |
| Stub.RspPacket.AppendU32 | gdb_stub/rsp.h:121-124 | the four-byte loop in place |
| Stub.RspPacket.End | gdb_stub/rsp.h:126-131 | hash, saved checksum and NUL in place |
| Stub.RspStub.Finish | gdb_stub/rsp.h:133-136 | what is sent of the buffer is the packet up to the NUL |
| Stub.RspStub.QuickSend | gdb_stub/rsp.h:138-145 | a whole text packet |
| Stub.RspStub.ReadRegisters | gdb_stub/rsp.h:147-155 | the g handler in place |
| Stub.RspStub.WriteRegisters | gdb_stub/rsp.h:157-167 | the G handler in place |
| Stub.RspStub.WriteRegister | gdb_stub/rsp.h:169-184 | the P handler in place |
| Stub.RspStub.ScanHex | gdb_stub/rsp.h:192-196 | the digit loop |
| Stub.RspStub.ReadMemory | gdb_stub/rsp.h:186-216 | the m handler in place |
| Stub.RspStub.WriteMemory | gdb_stub/rsp.h:218-251 | the M handler in place |
| Stub.RspStub.InsertBreakpoint | gdb_stub/rsp.h:253-269 | the Z0 handler in place |
| Stub.RspStub.RemoveBreakpoint | gdb_stub/rsp.h:272-288 | the z0 handler in place |
| Stub.RspStub.Detach | gdb_stub/rsp.h:295-299 | breakpoints cleared, machine resumed, OK sent |
| Stub.RspStub.HandlePacket | gdb_stub/rsp.h:308-340 | the dispatch chain in place is Commands.HandlePacket |
| Stub.RspStub.CloseFrame | gdb_stub/rsp.h:391-398 | the verdict on a checksum in place |
| Stub.RspStub.HandleByte | gdb_stub/rsp.h:361-407 | rsp_handle_byte in place is Receiver.HandleByte, which the lemmas above are about |

## Left out

- LockStep.RunsAgree: the domain is sufficient, not necessary; outside it the cores can still coincide by chance, for example when `jalr` through its own link register happens to meet the same target.
- Machine.RV32.Ecall: the hook's answer is status, registers and RAM; see the next line.
- Machine.RV32.System: the `ecall` hook may set the status and change registers and RAM in any way, but not pc, CSRs, breakpoints or the interrupt controller; no hook in the repository does more than that.
- OldCore.OldRV32.Cycle: the call of the `ecall` hook is left out; the hook beside that core only prints. The lock step does not cover SYSTEM instructions.
- OldCore.OldRV32.Store: `sh` at the last byte of RAM, where the C writes one byte past it, is excluded.
- Stub.RspStub.ReadMemory: on a range that wraps around the C reads past RAM until the packet overflows and the process ends; the model reads 0 there. The outcome is the same for RAM of at most 2^32 - 1024 bytes (`CommandLaws.ReadMemoryReads`).
- Stub.RspStub.WriteMemory: on such a range the C may write past RAM before it runs out of digits and the process ends; the model drops these writes. The outcome is the same for RAM of at most 2^32 - 1024 bytes (`CommandLaws.WriteMemoryWrites`).
- Memory-mapped I/O callbacks that change the machine: they return a value or a refusal.
- Tracing, the name tables, ELF printing, the main loops, display and serial code of the examples, guest programs and build files.
- RAM of fewer than four bytes, where the bounds checks of the source wrap around.
- C details of the host: little-endian order and arithmetic right shift are taken, and signed overflow in `mul` and shifts into the sign bit are taken to wrap.
- The struct layout behind rv32_reset: the usual four-byte alignment is taken, so that four bytes of RAM are cleared.
- The one byte behind the input buffer that a full-length breakpoint command can read: it is taken to be 0.
- Signals other than the interrupt that 0x03 reports.
- MPP, and CSR fields with restricted values: CSRs are plain 32-bit storage.
- Lines raised while a handler runs: `Delivery` is about handlers during which none is raised and the enable word stays; the accounts of `CoreRuns` cover both.
