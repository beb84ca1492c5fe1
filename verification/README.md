# Monitors, BPF compiler and kernel library: a Dafny model

A model of three small RISC-V security monitors (Komodo, CertiKOS and Keystone), of the BPF
compiler for RV32 with the constant loader of the RV64 one, and of three library pieces of their
kernel: the memory-block allocator, word-at-a-time string copy and number formatting.

Each component has a specification as functions on values, theorems about it over all inputs or all
runs, and, where the original changes state in place, a class or methods on arrays proved to refine
the specification.

| files | component |
|---|---|
| KomodoTypes, KomodoSpec, KomodoInvariant, KomodoTheorems, KomodoRoundTrip, KomodoIndependence, KomodoEffects, KomodoMapping, KomodoFirstEntry, KomodoMonitor | Komodo: secure pages as raw words, page database, page tables walked as Sv39 does, world switch |
| CertikosSpec, CertikosInvariant, CertikosTheorems, CertikosIndependence, CertikosEffects, CertikosMonitor | CertiKOS: processes with page windows, scheduling ring, spawn and yield |
| KeystoneSpec, KeystoneInvariant, KeystoneTheorems, KeystoneEffects, KeystoneMonitor | Keystone: enclave life cycle, PMP entries matched in order |
| Words, Reach, Bpf, BpfLaws, Rv32, Rv32Machine, JitEmit, JitArith, JitCore, JitBytes, JitShift, JitJump, JitFrame, JitInsn, JitLayout, JitProgram, JitCompiler, JitLimits, JitFarJump, JitAccepts | the RV32 BPF compiler, the interpreter it is compared with, and the machine its code runs on |
| Rv64Imm | emit_imm of the RV64 compiler |
| MemblockSpec, MemblockFree, MemblockEffects, Memblock | the memory-block allocator |
| Strscpy | strscpy and the word-at-a-time helpers |
| Vsprintf, VsprintfNumber, VsprintfFlags, VsprintfRead | put_dec and number, and a reader for what they print |

Words are integers with explicit wrap-around. Calls passed on to the SBI layer, register contents
chosen by software above the monitor, and the prologue and epilogue of compiled code are parameters.

## Findings

Five places where the code departs from what its design suggests; the code is modelled as it is.

- Far branches. The compiler checks the distance of the last branch of a 64-bit compare, not of the
  first, which stands 4 or 8 bytes earlier (bpf/jit/bpf_jit_comp32.c:740-812). `NearEnoughExact` gives
  the exact condition: the first branch is in range too, or it is never taken, which shows in the
  instruction (JEQ; a register compared with itself except by JSET; JLT, JLE and JSET with an
  immediate that is not negative; JGT and JGE with a negative one). `CompiledWrong` is a program of
  1024 instructions that compiles and goes wrong.
- MOV by register with immediate 1 is taken for a zero extension of the destination
  (bpf/jit/bpf_jit_comp32.c:1010-1015 and 1062-1067). `MovOneExact`: right just for a 32-bit MOV of a
  register to itself.
- Jumps back. The first pass checks a jump while the offset of the jump itself is still zero
  (bpf/jit/bpf_jit_comp32.c:415-420 and 1388-1410), so a jump back is measured from the start of the
  body. `CompilesIff` gives the exact condition: every jump is in range as each pass measures it.
  `BackExample` is a conditional jump back by one instruction that is refused.
- A failing run_enclave does not advance mepc (monitors/keystone/traps.c:12-51), so the caller executes
  the same call for ever. `OnlyRunStays`: no other call stays where it is.
- Stale page-table references. Removing a page of a stopped Komodo space leaves the entry that pointed
  to it (monitors/komodo/monitor.c:437-479); the page can be used again elsewhere. "One reference per
  page" therefore fails over all tables and holds exactly over those of spaces that are not stopped
  (`RunTablesAreTrees`, `StaleReferenceExample`).

## Model

| member | source | states |
|---|---|---|
| KomodoInvariant.BootEstablishesInv | monitors/komodo/monitor.c:44-52 | the state after init_monitor satisfies the invariant: owners, reference counts, headers, page tables and hart mode are consistent |
| KomodoInvariant.InitAddrspaceKeepsInv | monitors/komodo/monitor.c:218-247 | init_addrspace, failing or not, keeps the invariant for all page numbers |
| KomodoInvariant.InitDispatcherKeepsInv | monitors/komodo/monitor.c:249-276 | init_dispatcher keeps it; the new satp is that of the owner's root table |
| KomodoInvariant.InitTableKeepsInv | monitors/komodo/monitor.c:278-340 | init_l2ptable and init_l3ptable keep it: the new table is the one child of one entry, one level down, same owner |
| KomodoInvariant.MapSecureKeepsInv | monitors/komodo/monitor.c:347-394 | map_secure keeps it: the data page is referred to once, from a table of its owner |
| KomodoInvariant.MapInsecureKeepsInv | monitors/komodo/monitor.c:396-435 | map_insecure keeps it: the leaf points into insecure memory only |
| KomodoInvariant.RemoveKeepsInv | monitors/komodo/monitor.c:437-479 | remove keeps it, whatever page of a stopped space goes first |
| KomodoInvariant.FinaliseKeepsInv | monitors/komodo/monitor.c:481-497 | finalise keeps it |
| KomodoInvariant.StopKeepsInv | monitors/komodo/monitor.c:499-511 | stop keeps it from every life-cycle state |
| KomodoInvariant.DoTrapKeepsInv | monitors/komodo/traps.c:7-115 | every trap, from host or enclave, with any cause and any call number, keeps it |
| KomodoInvariant.DispatcherWalkConfined | monitors/komodo/monitor.c:249-435 | Sv39 translation of any address through the satp of a live dispatcher faults, or ends in insecure memory, or in a data page of the dispatcher's own space, under the PMP entry in force and under the one an enclave runs with |
| KomodoTheorems.RunKeepsInv | monitors/komodo/traps.c:86-115 | every state of every run of host, enclaves and monitor satisfies the invariant |
| KomodoTheorems.RunGoesOn | monitors/komodo/monitor.c:69-78 | from the last state of any run every enabled step is defined and gives a longer run: the BUG_ON of page_monvaddr is never reached |
| KomodoTheorems.RunIsolatesStores | monitors/komodo/monitor.c:96-168 | along any run, host stores change no secure page, and enclave stores change only data pages of the running enclave's space; the page database keeps its entries under both |
| KomodoTheorems.RunIsolatesWalks | monitors/komodo/monitor.c:96-168 | at every point of a run the tables of each dispatcher of a space that is not stopped, walked as if it were entered now, confine translation to its own data pages and insecure memory |
| KomodoTheorems.RunTablesAreTrees | monitors/komodo/monitor.c:278-394 | a live page has a parent entry, one level up and with the same owner; among all references to it in any table the parent is exactly the one whose table belongs to a space that is not stopped |
| KomodoTheorems.StaleReferenceExample | monitors/komodo/monitor.c:437-479 | a reachable state in which a page is referred to from two tables, one of them left over in a stopped space |
| KomodoTheorems.FailedCallChangesNothing | monitors/komodo/monitor.c:171-511 | a host call that reports an error has changed nothing |
| KomodoTheorems.RunRespectsLifeCycle | monitors/komodo/monitor.c:481-511 | along a run the life-cycle word of a space only moves forward, a space ceases to be one only when stopped, and while it is FINAL it keeps its pages, and host calls change none of its tables and data |
| KomodoTheorems.TeardownSucceeds | monitors/komodo/monitor.c:437-479 | removing the pages of a stopped space in any order, the header last, succeeds at every step, frees exactly them, and changes the words of no page but the header |
| KomodoRoundTrip.SavedByLastInterrupt | monitors/komodo/monitor.c:131-168 | what an entered dispatcher holds is the register file and CSRs of the last interrupt or fault that took the hart from it |
| KomodoRoundTrip.ResumeContinues | monitors/komodo/monitor.c:546-572 | a successful resume continues the enclave with exactly the registers and CSRs it had when last interrupted, whatever happened in between |
| KomodoRoundTrip.HostStateIsTheEntrant | monitors/komodo/monitor.c:96-129 | while an enclave runs, host_state holds the registers and CSRs of the host trap that let it in |
| KomodoRoundTrip.HostReturns | monitors/komodo/monitor.c:574-604 | on return the host finds its CSRs and all registers but a0 and a1 as they were at its call, mepc past the call; after exit a0 is SUCCESS and a1 the enclave's value, after an interrupt or a fault a0 says which and a1 is the cause |
| KomodoEffects.BootEffect | monitors/komodo/monitor.c:44-52 | after boot every page is free and zero and the host can read no secure word |
| KomodoEffects.InitAddrspaceEffect | monitors/komodo/monitor.c:218-247 | the answer in each case, and on success a header of two pages in INIT naming a cleared root table, and nothing else changed |
| KomodoEffects.InitDispatcherEffect | monitors/komodo/monitor.c:249-276 | the answer in each case, and on success a dispatcher not entered, at the entry point given, with cleared registers and the root table of its space in satp |
| KomodoEffects.InitTableEffect | monitors/komodo/monitor.c:278-340 | the answer in each case, and on success a cleared table one level down and one new entry pointing to it |
| KomodoEffects.MapSecureEffect | monitors/komodo/monitor.c:347-394 | the answer in each case, and on success the data page holds what the insecure page held and one new leaf has the R, W and X bits of the mapping |
| KomodoEffects.MapInsecureEffect | monitors/komodo/monitor.c:396-435 | the answer in each case, and on success one new leaf to the insecure page with the bits of the mapping |
| KomodoEffects.RemoveEffect | monitors/komodo/monitor.c:437-479 | the answer in each case; on success the page is free and its space counts one page less |
| KomodoEffects.FinaliseEffect | monitors/komodo/monitor.c:481-497 | the answer in each case; on success INIT becomes FINAL and nothing else changes |
| KomodoEffects.StopEffect | monitors/komodo/monitor.c:499-511 | the answer in each case; on success the space is STOPPED and nothing else changes |
| KomodoEffects.OtherEffect | monitors/komodo/traps.c:7-65 | the answers to the queries, to SBI calls and to unknown numbers; nothing else changes |
| KomodoEffects.EnterEffect | monitors/komodo/monitor.c:513-544 | the answer in each error case; else the dispatcher's saved state with the three arguments in a0 to a2, the host's state put away, and secure memory opened |
| KomodoEffects.ResumeEffect | monitors/komodo/monitor.c:546-572 | the answer in each error case; else the dispatcher's saved state unchanged |
| KomodoEffects.ExitEffect | monitors/komodo/monitor.c:574-588 | the host gets its state back with SUCCESS and the enclave's a0; other calls of an enclave are refused |
| KomodoEffects.InterruptEffect | monitors/komodo/monitor.c:590-604 | any other trap saves the enclave, leaves it entered, and gives the host INTERRUPTED or FAULT by the top bit of the cause, and the cause |
| KomodoMapping.MapSecureMaps | monitors/komodo/monitor.c:347-394 | after map_secure every address whose walk comes to the entry is translated, by every live dispatcher, to the new page with exactly the access asked for, or faults where the bits form no leaf; and the page holds the insecure contents |
| KomodoMapping.MapInsecureMaps | monitors/komodo/monitor.c:396-435 | after map_insecure likewise, to the insecure page |
| KomodoFirstEntry.FirstEntry | monitors/komodo/monitor.c:249-276 | over any run, a dispatcher first entered starts at the entry point it was created with, with the three arguments of that enter in a0 to a2, all other registers zero, and the root table of its space |
| KomodoIndependence.HostRunsAgree | monitors/komodo/traps.c:7-65 | two machines that agree on what the host may see stay in agreement over all host steps and calls: results do not depend on enclave data |
| KomodoMonitor.Monitor.constructor | monitors/komodo/monitor.c:44-52 | the mutable monitor starts as the boot state |
| KomodoMonitor.Monitor.AllocatePage | monitors/komodo/monitor.c:171-206 | allocate_page refines the specification: error, or page typed, owned, counted |
| KomodoMonitor.Monitor.SmcInitAddrspace | monitors/komodo/monitor.c:218-247 | refines init_addrspace, errors included, and touches page database and pages only |
| KomodoMonitor.Monitor.SmcInitDispatcher | monitors/komodo/monitor.c:249-276 | refines init_dispatcher |
| KomodoMonitor.Monitor.SmcInitTable | monitors/komodo/monitor.c:278-340 | refines init_l2ptable and init_l3ptable |
| KomodoMonitor.Monitor.SmcMapSecure | monitors/komodo/monitor.c:347-394 | refines map_secure, the copy of the page contents included |
| KomodoMonitor.Monitor.SmcMapInsecure | monitors/komodo/monitor.c:396-435 | refines map_insecure |
| KomodoMonitor.Monitor.SmcRemove | monitors/komodo/monitor.c:437-479 | refines remove |
| KomodoMonitor.Monitor.SmcFinalise | monitors/komodo/monitor.c:481-497 | refines finalise |
| KomodoMonitor.Monitor.SmcStop | monitors/komodo/monitor.c:499-511 | refines stop |
| KomodoMonitor.Monitor.EnterSecureWorld | monitors/komodo/monitor.c:96-129 | the whole machine state after enter_secure_world and the return to the enclave |
| KomodoMonitor.Monitor.LeaveSecureWorld | monitors/komodo/monitor.c:131-168 | the whole machine state after leave_secure_world and the return to the host |
| KomodoMonitor.Monitor.SmcEnter | monitors/komodo/monitor.c:513-544 | refines enter, with its three error cases |
| KomodoMonitor.Monitor.SmcResume | monitors/komodo/monitor.c:546-572 | refines resume, with its three error cases |
| KomodoMonitor.Monitor.SvcExit | monitors/komodo/monitor.c:574-588 | refines svc_exit |
| KomodoMonitor.Monitor.HandleTrap | monitors/komodo/monitor.c:590-604 | refines kom_handle_trap |
| KomodoMonitor.Monitor.DoTrap | monitors/komodo/traps.c:104-115 | do_trap on the mutable state is the step function the theorems are about |
| Bpf.Interpret | bpf/kbpf.c:169-394 | the dispatch loop on the register array leaves the registers the step semantics returns with |
| Bpf.RunInsn | bpf/kbpf.c:186-358 | one turn of the loop is one step of the semantics |
| BpfLaws.DivMod64 | bpf/kbpf.c:240-277 | 64-bit DIV and MOD of the same operands give q and r with a == q * b + r and r < b, and have no meaning when b is 0 |
| BpfLaws.DivMod32 | bpf/kbpf.c:240-277 | 32-bit DIV and MOD likewise on the low halves, clearing the upper one; AX gets the quotient |
| BpfLaws.AluStep | bpf/kbpf.c:186-277 | one ALU instruction writes the residue, quotient, shift or bitwise value of its operands and changes no other register but AX; it has no meaning just for shifts by the width or more and divisors of 0 |
| BpfLaws.BitsAddUp | bpf/kbpf.c:189-213 | AND and OR together, and XOR with twice AND, add up to the sum of the operands |
| BpfLaws.AndIsCommon | bpf/kbpf.c:189-213 | a bit is set in AND just when it is set in both operands |
| BpfLaws.EndStep | bpf/kbpf.c:278-304 | to little endian keeps the bytes of the width, to big endian reverses them, and both clear the others |
| BpfLaws.IdleStep | bpf/kbpf.c:278-310 | byte orders of another width and CALL change nothing |
| Rv32.DecodeEncode | bpf/jit/bpf_jit_comp32.c:133-348 | decoding the word an encoder produces gives the instruction back, for every modelled format |
| Rv32Machine.RunsAsWords | bpf/jit/bpf_jit_comp32.c:125-131 | code encoded and placed anywhere in memory behaves, decoded word by word, as the instruction sequence does |
| JitCore.EmitImm32Computes | bpf/jit/bpf_jit_comp32.c:385-406 | emit_imm32 leaves the sign-extended immediate in the pair |
| JitCore.EmitImm64Computes | bpf/jit/bpf_jit_comp32.c:408-413 | emit_imm64 leaves both halves |
| JitCore.CoreAdd | bpf/jit/bpf_jit_comp32.c:593-599 | the add sequence with its carry computes 64-bit addition |
| JitCore.CoreSub | bpf/jit/bpf_jit_comp32.c:600-606 | the subtract sequence with its borrow computes 64-bit subtraction |
| JitCore.CoreMul | bpf/jit/bpf_jit_comp32.c:619-626 | mul, mul, add, mulhu, mul, add compute the low 64 bits of the product |
| JitCore.CoreNeg | bpf/jit/bpf_jit_comp32.c:675-680 | the negate sequence computes 64-bit negation |
| JitCore.CoreImmShift | bpf/jit/bpf_jit_comp32.c:519-556 | the immediate shifts of a pair compute LSH, RSH and ARSH for every amount below 64 |
| JitCore.Core32Computes | bpf/jit/bpf_jit_comp32.c:686-738 | the 32-bit register operations compute the interpreter's 32-bit results |
| JitBytes.CoreEndComputes | bpf/jit/bpf_jit_comp32.c:946-983 | the byte-order sequences compute the interpreter's swaps and truncations, or are refused |
| JitShift.ShiftRuns | bpf/jit/bpf_jit_comp32.c:627-674 | the branching register shifts reach their end with the interpreter's result for every amount below 64, destination and amount in the same pair included |
| JitJump.BranchReaches | bpf/jit/bpf_jit_comp32.c:355-358 | a branch field takes the branch to its offset if and only if is_13b_int holds |
| JitJump.JumpReaches | bpf/jit/bpf_jit_comp32.c:360-363 | a jal field takes the jump to its offset if and only if is_21b_int holds |
| JitJump.Jump64Runs | bpf/jit/bpf_jit_comp32.c:740-812 | the compare-and-branch sequences go to the target if and only if BPF jumps, else to their end, provided the first branch is in range or not taken |
| JitJump.Jump32Runs | bpf/jit/bpf_jit_comp32.c:814-866 | the same of the 32-bit sequences |
| JitFrame.GetRuns | bpf/jit/bpf_jit_comp32.c:466-475 | rv32_bpf_get_reg64 leaves the BPF register's value in a pair and changes nothing else |
| JitFrame.PutRuns | bpf/jit/bpf_jit_comp32.c:477-484 | rv32_bpf_put_reg64 changes that BPF register only |
| JitFrame.PutLowRuns | bpf/jit/bpf_jit_comp32.c:496-506 | rv32_bpf_put_reg32 without verifier_zext also clears the upper half |
| JitInsn.Alu64Runs | bpf/jit/bpf_jit_comp32.c:995-1060 | the code for any in-scope ALU64 instruction does to the compiled state what the interpreter does to its registers |
| JitInsn.Alu32Runs | bpf/jit/bpf_jit_comp32.c:1062-1120 | the same of ALU instructions |
| JitLayout.SizeFixed | bpf/jit/bpf_jit_comp32.c:739-866 | the number of instructions emitted for a BPF instruction does not depend on the offsets |
| JitLayout.JumpOffset | bpf/jit/bpf_jit_comp32.c:415-420 | in the second pass rv_offset leads from the last emitted instruction to the start of the target's code |
| JitLayout.BodyAt | bpf/jit/bpf_jit_comp32.c:1388-1410 | the code of every instruction stands where the first pass counted it |
| JitProgram.StepSimulates | bpf/jit/bpf_jit_comp32.c:995-1349 | one interpreter step is matched by a run of the compiled body |
| JitProgram.RunSimulates | bpf/jit/bpf_jit_comp32.c:995-1349 | every interpreter run, of any length and with loops, is matched by a run of the compiled body |
| JitProgram.BodySimulates | bpf/jit/bpf_jit_comp32.c:1286-1294 | whenever the interpreter returns, the compiled body comes to the epilogue with all registers in their homes, R0 in its pair, and nothing else changed |
| JitProgram.ForwardHalts | bpf/jit/bpf_jit_comp32.c:415-420 | a program whose jumps go forward stops within as many steps as it has slots |
| JitProgram.ForwardSimulates | bpf/jit/bpf_jit_comp32.c:995-1349 | so its compiled body comes to the epilogue unless the interpreter meets an undefined operation |
| JitProgram.ImageSimulates | bpf/jit/bpf_jit_comp32.c:1427-1510 | the same of the encoded words between prologue and epilogue |
| JitCompiler.JitContext.constructor | bpf/jit/bpf_jit_comp32.c:1427-1450 | the context starts with a zero offset table, no image and nothing counted |
| JitCompiler.JitContext.Emit | bpf/jit/bpf_jit_comp32.c:125-131 | emit counts, and stores inside the image only |
| JitCompiler.JitContext.EmitInsn | bpf/jit/bpf_jit_comp32.c:995-1349 | emit_insn appends the encoded code of the instruction, or reports an error |
| JitCompiler.JitContext.BuildBody | bpf/jit/bpf_jit_comp32.c:1388-1410 | each pass succeeds if and only if every instruction is emitted; the first leaves the offset table, the second the body |
| JitCompiler.JitContext.Compile | bpf/jit/bpf_jit_comp32.c:1427-1510 | compilation succeeds if and only if both passes do, and fills the image exactly |
| JitCompiler.CompiledSimulates | bpf/jit/bpf_jit_comp32.c:1427-1510 | what Compile leaves in memory takes the hart from the end of the prologue to the epilogue with the interpreter's result |
| JitLimits.NearEnoughExact | bpf/jit/bpf_jit_comp32.c:740-812 | for a distance the compiler accepts, the code of a 64-bit compare is right from every state if and only if its first branch is in range too or, by a test on the instruction, never taken |
| JitLimits.FarBranchMisses | bpf/jit/bpf_jit_comp32.c:740-812 | otherwise every state the upper halves decide makes the code go 8 KiB short of the target |
| JitFarJump.CompiledWrong | bpf/jit/bpf_jit_comp32.c:454-459 | a program both passes accept whose compiled body, from every state where r1 and r2 differ in their upper halves, never comes to its end although the interpreter returns |
| JitFarJump.CompiledWrongSomewhere | bpf/jit/bpf_jit_comp32.c:454-459 | the program compiles and such states exist |
| JitLimits.MovOneRuns | bpf/jit/bpf_jit_comp32.c:1010-1015 | the code for a MOV by register with immediate 1 zero-extends the destination, whatever the source |
| JitLimits.MovOneExact | bpf/jit/bpf_jit_comp32.c:1062-1067 | that is what the interpreter does if and only if it is a 32-bit MOV of a register to itself |
| JitAccepts.CompilesIff | bpf/jit/bpf_jit_comp32.c:1388-1411 | compilation succeeds if and only if there is no 64-bit DIV or MOD, byte orders have width 16, 32 or 64, and every jump is in range, measured as each of the two passes measures it |
| JitAccepts.BackRefused | bpf/jit/bpf_jit_comp32.c:415-420 | a conditional jump back is refused whenever its target is 1023 or more instructions into the body |
| JitAccepts.BackExample | bpf/jit/bpf_jit_comp32.c:415-420 | a program whose one conditional jump goes back by one instruction and is refused |
| Rv64Imm.DecodeEncode64 | bpf/jit/bpf_jit_riscv64.c:111-150 | decoding the words emit_imm emits gives the instructions back |
| Rv64Imm.Ffs | bpf/jit/bitops.h:7-34 | __ffs returns the index of the lowest set bit |
| Rv64Imm.JitContext64.EmitImm | bpf/jit/bpf_jit_riscv64.c:458-495 | emit_imm emits exactly the specified instruction sequence |
| Rv64Imm.ImmCodeLoads | bpf/jit/bpf_jit_riscv64.c:458-495 | that sequence leaves any 64-bit value in rd and changes no other register |
| Rv64Imm.ImmCodeLength | bpf/jit/bpf_jit_riscv64.c:458-495 | it has between one and eight instructions |
| Rv64Imm.ImmCodeTight | bpf/jit/bpf_jit_riscv64.c:458-495 | eight are needed for some value |
| Rv64Imm.ImmWordsDecode | bpf/jit/bpf_jit_riscv64.c:458-495 | the emitted words decode to the sequence |
| MemblockSpec.CountInserted | kernel/memblock.c:100-172 | the counting pass returns the number of regions the insertion pass adds |
| MemblockSpec.InsertedIsUnion | kernel/memblock.c:100-172 | the insertion pass is set union and keeps the array ordered and disjoint |
| MemblockSpec.MergedIsCanonical | kernel/memblock.c:64-87 | merging keeps the addresses and the total size and leaves no touching neighbours |
| MemblockSpec.AddedIsUnion | kernel/memblock.c:100-172 | memblock_add_range is set union with the capped range and leaves the canonical array |
| MemblockEffects.AddEffect | kernel/memblock.c:28-33 | memblock_add_range adds exactly the addresses from base on, as many as the size and the end of the address space allow |
| MemblockEffects.AddCalls | kernel/memblock.c:174-182 | memblock_add grows memory by those and memblock_reserve what is reserved, each leaving the other alone |
| MemblockEffects.FittingIs | kernel/memblock.c:100-172 | there is room just when the range is covered already, or it is the first one, or the regions before merging are at most the capacity |
| MemblockSpec.CanonicalUnique | kernel/memblock.c:64-87 | a set of addresses has one canonical array |
| MemblockSpec.AddedAllIsUnion | kernel/memblock.c:174-182 | any sequence of additions covers the union |
| MemblockSpec.OrderDoesNotMatter | kernel/memblock.c:174-182 | sequences of additions with the same union leave the same array |
| Memblock.MemblockType.InsertRegion | kernel/memblock.c:45-57 | the shifted array with the new region, its count and total size |
| Memblock.MemblockType.MergeRegions | kernel/memblock.c:64-87 | the in-place loop computes the merge |
| Memblock.MemblockType.AddRange | kernel/memblock.c:100-172 | the two-pass method succeeds if and only if the array has room, and then computes the union |
| Memblock.PackIndices | kernel/memblock.c:243-308 | the two indices packed into the iterator variable come back, and the end marker is not a packed pair |
| Memblock.NextMemRangeRev | kernel/memblock.c:243-308 | one call of the iterator yields the next free range and leaves indices that yield the rest |
| Memblock.Memblock.FindInRangeNode | kernel/memblock.c:194-213 | the loop over the iterator computes the specified search |
| Memblock.Memblock.Add | kernel/memblock.c:174-177 | memblock_add refines the call of the specification |
| Memblock.Memblock.Reserve | kernel/memblock.c:179-182 | memblock_reserve refines the call of the specification |
| Memblock.Memblock.Alloc | kernel/memblock.c:215-230 | memblock_alloc refines find and reserve |
| MemblockFree.FreeRangesAre | kernel/memblock.c:243-308 | the iteration visits, in descending order, exactly the maximal intervals of memory minus reserved |
| MemblockFree.FindIsHighest | kernel/memblock.c:194-213 | the search returns the highest suitable address, 0 if and only if there is no positive one |
| MemblockFree.BlocksNeverOverlap | kernel/memblock.c:215-230 | over any sequence of calls the blocks handed out are aligned, inside memory, clear of what was reserved, and pairwise disjoint |
| MemblockEffects.AllocEffect | kernel/memblock.c:194-230 | memblock_alloc hands out the highest free address that is a multiple of the alignment asked for, of 64 when that is 0, reserves exactly the block, and panics just when no positive address would do |
| MemblockEffects.BlocksAsAsked | kernel/memblock.c:215-230 | over any sequence of calls there is one block for each request, of its size and alignment, inside memory, clear of what was reserved and of every other block |
| CertikosInvariant.BootEstablishesInv | monitors/certikos/main.c:17-62 | after boot the idle process owns all pages and runs |
| CertikosInvariant.StepKeepsInv | monitors/certikos/traps.c:11-131 | every call of every process keeps the invariant: windows partition the pages, running processes form one ring |
| CertikosTheorems.RunKeepsInv | monitors/certikos/traps.c:98-131 | every reachable state satisfies it |
| CertikosTheorems.PmpIsWindow | monitors/certikos/proc.c:67-81 | the hart lets the current process at exactly the pages of its window |
| CertikosTheorems.RoundRobin | monitors/certikos/traps.c:61-91 | as many yields as there are running processes come back to the start and give each exactly one turn |
| CertikosTheorems.ChildRunsNext | monitors/certikos/traps.c:19-59 | a spawned child runs at the very next yield |
| CertikosIndependence.OwnStepIs | monitors/certikos/traps.c:11-131 | what a process sees after its own step is a function of what it saw before |
| CertikosIndependence.OthersStepIs | monitors/certikos/traps.c:11-131 | a step of another process changes nothing it can see |
| CertikosIndependence.ProcessIndependence | monitors/certikos/traps.c:11-131 | in two runs with the same actions of a process and equal views of it, whatever the others do, its views stay equal |
| CertikosIndependence.ViewIsProgram | monitors/certikos/traps.c:11-131 | the view of a process after any run is its program applied to its first view, alone on the machine |
| CertikosIndependence.ChildIsNewborn | monitors/certikos/proc.c:41-65 | a spawned child starts with cleared memory and registers, its file, and the upper end of its parent's window, and with nothing else |
| CertikosEffects.SpawnAnswers | monitors/certikos/traps.c:19-59 | spawn answers 0 if and only if the quota fits, the pid is a free one other than 0, and it is one of the caller's children in the static partition; else EINVAL, and nothing changes |
| CertikosEffects.SpawnEffect | monitors/certikos/traps.c:19-59 | what the child and the caller get: windows, links, cleared pages and registers, and the PMP |
| CertikosEffects.YieldEffect | monitors/certikos/traps.c:61-91 | the caller is saved past its call and the next process in the ring continues with what it saved and its own window |
| CertikosEffects.OtherAnswers | monitors/certikos/traps.c:98-131 | the quota, the pid, SBI results and ENOSYS; nothing else changes |
| CertikosEffects.BootEffect | monitors/certikos/proc.c:13-39 | owners are the static partition; process 1 runs with all pages, cleared |
| CertikosMonitor.Monitor.constructor | monitors/certikos/main.c:17-62 | the mutable monitor starts as the boot state |
| CertikosMonitor.Monitor.ProcNew | monitors/certikos/proc.c:41-65 | proc_new refines the specification |
| CertikosMonitor.Monitor.ProcSwitch | monitors/certikos/proc.c:67-81 | proc_switch saves, restores and sets the window |
| CertikosMonitor.Monitor.SysGetQuota | monitors/certikos/traps.c:11-17 | the number of pages in the window |
| CertikosMonitor.Monitor.SysSpawn | monitors/certikos/traps.c:19-59 | sys_spawn refines the specification, errors included |
| CertikosMonitor.Monitor.SysYield | monitors/certikos/traps.c:61-91 | sys_yield refines the specification |
| CertikosMonitor.Monitor.DoTrapEcallS | monitors/certikos/traps.c:98-131 | the dispatcher on the mutable state is the step the theorems are about |
| KeystoneSpec.CfgByteWith | include/asm/pmp.h:30-53 | pmpcfg_write changes its byte of the configuration word and no other |
| KeystoneInvariant.PmpIsPolicy | monitors/keystone/pmp.c:76-124 | the matching rule of the eight PMP entries gives every physical address the access the isolation policy gives it |
| KeystoneInvariant.TrapKeepsInv | monitors/keystone/traps.c:12-51 | every call, in either mode, keeps the invariant |
| KeystoneTheorems.RunFromBoot | monitors/keystone/traps.c:12-51 | every state reached from boot satisfies it: secure regions are disjoint, at most one enclave runs, the PMP is the policy |
| KeystoneTheorems.OthersKeepSecure | monitors/keystone/enclave.c:63-211 | a step of the host or of another enclave changes no byte of an enclave's secure region |
| KeystoneTheorems.RunKeepsSecure | monitors/keystone/enclave.c:63-211 | nor does any run in which the enclave does not run and is not destroyed |
| KeystoneTheorems.EnclaveConfined | monitors/keystone/enclave.c:184-211 | an enclave that executes changes bytes of its own secure region and of its shared one only, and in the shared one none that lies in another enclave's secure region |
| KeystoneTheorems.DestroyErases | monitors/keystone/enclave.c:109-136 | after the trap that destroys an enclave every byte of its secure region is zero |
| KeystoneTheorems.HostReturns | monitors/keystone/enclave.c:156-182 | after an enclave exits the host continues with its own registers, past its call, with result 0 |
| KeystoneTheorems.RunKeepsSaved | monitors/keystone/enclave.c:156-182 | what an idle enclave saved is kept by every run that does not run, resume or destroy it |
| KeystoneTheorems.EnclaveResumes | monitors/keystone/enclave.c:184-211 | an enclave that exits and is resumed goes on with exactly what it had, past its ecall |
| KeystoneTheorems.FailedRunRepeats | monitors/keystone/traps.c:12-51 | mepc is not moved past a failing run_enclave, and the repeated call fails again in the same state |
| KeystoneTheorems.OnlyRunStays | monitors/keystone/traps.c:12-51 | a trap that stays in its world keeps mepc if and only if it is a failing run_enclave |
| KeystoneTheorems.FailedRunExample | monitors/keystone/traps.c:12-51 | running enclave 5 as the first call after boot is one |
| KeystoneEffects.BootEffect | monitors/keystone/main.c:12-31 | no enclaves, and the host has all of the payload |
| KeystoneEffects.CreateAnswers | monitors/keystone/enclave.c:63-87 | create answers 0 if and only if the caller is the host, the id is free, both regions are aligned and inside the payload, and no byte asked for is secure; else EINVAL, and nothing changes |
| KeystoneEffects.CreateEffect | monitors/keystone/enclave.c:89-107 | the secure region is exactly the one asked for and closed to all; access to the rest is as before |
| KeystoneEffects.RunEffect | monitors/keystone/enclave.c:138-154 | run starts at the entry with cleared registers and opens the secure region and what of the shared one is not secure |
| KeystoneEffects.ResumeEffect | monitors/keystone/enclave.c:184-211 | resume continues what the enclave saved, past its call, answered 0, with the same access |
| KeystoneEffects.ExitEffect | monitors/keystone/enclave.c:156-182 | exit saves the enclave and gives the host its state and all memory but secure regions |
| KeystoneEffects.DestroyEffect | monitors/keystone/enclave.c:109-136 | destroy zeroes the region and no other byte, frees the id, and gives the region back to the host |
| KeystoneEffects.RefusedEffect | monitors/keystone/traps.c:12-51 | a call that is not served changes the result register and, except for run, mepc only |
| KeystoneEffects.CreatedThenRun | monitors/keystone/enclave.c:63-154 | an enclave created with some arguments and first run after whatever else has happened starts at the entry given, with cleared registers, and reaches the secure region given, the shared one outside secure regions, and no other byte |
| KeystoneMonitor.Monitor.constructor | monitors/keystone/main.c:12-31 | the mutable monitor starts as the boot state |
| KeystoneMonitor.Monitor.IsRegionOverlap | monitors/keystone/enclave.c:41-55 | the loop finds an overlap if and only if there is one |
| KeystoneMonitor.Monitor.RemapPmpRegion | monitors/keystone/pmp.c:106-110 | refines remap_pmp_region |
| KeystoneMonitor.Monitor.FreePmpRegion | monitors/keystone/pmp.c:95-99 | refines free_pmp_region |
| KeystoneMonitor.Monitor.ChmodPmpRegion | monitors/keystone/pmp.c:101-104 | refines chmod_pmp_region |
| KeystoneMonitor.Monitor.SysCreateEnclave | monitors/keystone/enclave.c:63-107 | refines sys_create_enclave, errors included |
| KeystoneMonitor.Monitor.SysDestroyEnclave | monitors/keystone/enclave.c:109-136 | refines sys_destroy_enclave |
| KeystoneMonitor.Monitor.SysRunEnclave | monitors/keystone/enclave.c:138-154 | refines sys_run_enclave |
| KeystoneMonitor.Monitor.SysExitEnclave | monitors/keystone/enclave.c:156-182 | refines sys_exit_enclave |
| KeystoneMonitor.Monitor.SysResumeEnclave | monitors/keystone/enclave.c:184-211 | refines sys_resume_enclave |
| KeystoneMonitor.Monitor.DoTrapEcallS | monitors/keystone/traps.c:12-51 | the dispatcher on the mutable state is the step the theorems are about |
| Strscpy.ZeroBitsDetect | include/asm/word-at-a-time.h:12-18 | has_zero is nonzero if and only if the word has a zero byte |
| Strscpy.ZeroMaskIs | include/asm/word-at-a-time.h:26-30 | create_zero_mask covers exactly the bytes before the first zero |
| Strscpy.FindZeroIs | include/asm/word-at-a-time.h:32-35 | find_zero of that mask is the index of the first zero byte |
| Strscpy.MaskedIs | include/asm/word-at-a-time.h:37-38 | the masked word keeps those bytes and zeroes the rest |
| Strscpy.CopyWords | kernel/string.c:330-362 | the word loop copies a word at a time and stops at the first zero byte, or with less than a word to go |
| Strscpy.StrScpy | kernel/string.c:330-375 | strscpy copies up to and including the first zero, or truncates with a terminating zero and reports E2BIG, and writes nothing at or past count; whether words or bytes are copied |
| Vsprintf.DigitsReadBack | kernel/vsprintf.c:196-252 | the digits of a number read back as the number |
| Vsprintf.DigitsProper | kernel/vsprintf.c:196-252 | they are digits of the base without a leading zero |
| Vsprintf.Reciprocal32 | kernel/vsprintf.c:88-98 | multiplying by 0x28f5c29 and shifting by 32 divides by 100 for every r below 10^8 |
| Vsprintf.Reciprocal19 | kernel/vsprintf.c:104-108 | multiplying by 0x147b and shifting by 19 divides by 100 for every r below 10^4 |
| Vsprintf.PutDecTrunc8 | kernel/vsprintf.c:82-120 | the digits without leading zeros, low digit first |
| Vsprintf.PutDecFull8 | kernel/vsprintf.c:122-145 | exactly eight digits |
| Vsprintf.PutDec | kernel/vsprintf.c:147-156 | the decimal digits of every 64-bit number, within 24 bytes |
| VsprintfNumber.MakeDigits | kernel/vsprintf.c:234-250 | the digits of the number in tmp, in bases 8, 10 and 16 |
| VsprintfNumber.Number | kernel/vsprintf.c:196-312 | number writes exactly the layout of the text, cut off at end, nothing at or past end, and returns a position that does not depend on end |
| VsprintfFlags.PlainText | kernel/vsprintf.c:196-252 | without flags, width and precision the text is the digits |
| VsprintfFlags.CapitalDigits | kernel/vsprintf.c:196-252 | highest first, in capitals |
| VsprintfFlags.SmallShown | kernel/vsprintf.c:196-252 | SMALL gives the same text in small letters |
| VsprintfFlags.SignShown | kernel/vsprintf.c:213-226 | SIGN puts - before a negative number's magnitude; PLUS puts + and SPACE a space before others, PLUS first |
| VsprintfFlags.PrefixShown | kernel/vsprintf.c:227-283 | SPECIAL puts 0x or 0X before a hexadecimal number and 0 before an octal one other than 0 |
| VsprintfFlags.LeftPads | kernel/vsprintf.c:256-311 | LEFT pads with spaces behind |
| VsprintfFlags.RightPads | kernel/vsprintf.c:256-311 | neither LEFT nor ZEROPAD pads with spaces before |
| VsprintfFlags.ZeroPads | kernel/vsprintf.c:256-311 | ZEROPAD gives what a precision filling the field gives |
| VsprintfFlags.PrecisionPads | kernel/vsprintf.c:252-311 | precision puts zeros before the digits |
| VsprintfRead.TextLength | kernel/vsprintf.c:256-311 | the text is as long as the field width or its content, whichever is longer |
| VsprintfRead.TextReadsBack | kernel/vsprintf.c:196-312 | under every combination of flags, width and precision the text reads back as the number meant |

## Left out

- BPF loads, stores, atomic operations, calls and tail calls: they depend on memory and helper functions outside the compiler; such instructions are not in scope of `Verified`.
- Programs compiled with verifier_zext set: the simulation theorem is for the compiler clearing upper halves itself; layout and `Compile` cover both settings.
- A jump to instruction 0: the compiler reads its offset table before its start there; `Verified` asks for targets after the first instruction.
- The BPF register AX: the interpreter uses it as scratch, and programs do not name it.
- The contents of the prologue and the epilogue of compiled code: word sequences of any length and content here.
- The RV64 compiler but for emit_imm: its instruction selection would repeat the RV32 development on single registers.
- JitCompiler.JitContext.EmitInsn: on failure it emits nothing, while the original may have emitted operand loads before it finds a jump out of range; compilation fails either way.
- Memblock.NextMemRangeRev: type_b == NULL is not modelled; every caller in the repository passes it.
- Strscpy.StrScpy: buffers do not overlap, and readability of the source up to the word boundary is a precondition, as it is for the original.
- The formats of vsnprintf other than integers, and pointer formats: string plumbing without arithmetic.
- Interrupt delivery, fences, TLB and cache maintenance: no state of the model depends on them.
- SBI calls of the monitors: their results are parameters of the trap step.
- The Racket specifications and the symbolic-execution tooling of the repository: no part of the running systems.
