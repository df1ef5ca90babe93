# provework: a verified model of the deterministic pipeline

provework lets untrusted workers execute a RISC-V program, commit to a chain of state hashes, and settle
disagreements by vote, by receipt or by re-execution. This project models the parts on which a verdict
depends and proves what they promise:

- **The RV64IMC machine** (`crates/rvcore`). `Isa.dfy` gives one instruction step as a function on machine
  values; `Mem.dfy`, `Cpu.dfy` and `Interp.dfy` give the same step in its own form, as methods that update a
  processor object and a paged memory with a lookaside cache. `Reference.dfy` holds an instruction set reference of
  its own (assembly instructions, their encodings, their meaning over integers, bits and flat memory) against which
  every 32-bit word is proved; `Compressed.dfy` reduces the 16-bit ones to these, `BaseIsa.dfy` and `MulDiv.dfy` say
  what the operations mean, `IsaLaws.dfy` what every step keeps, `MemoryLaws.dfy` what holds of the memory
  over whole histories.
- **Runs, hashes, snapshots and images.** `Run.dfy` and `RunLaws.dfy` specify the chunked run and relate it to
  iterated stepping; `Runner.dfy` holds the loops. `Hashing.dfy` treats the digest as an arbitrary function and
  states every binding result as "equal, or this named pair of inputs collides". `Snapshot.dfy` and `Elf.dfy`
  cover capture, restore, parsing and loading, `Writer.dfy` writes ELF files and reads them back, `Layouts.dfy` gives
  the byte formats offset by offset, and `Abi.dfy` what host and guest find where.
- **The dispute game** (`dispute.rs`). `Judge.dfy` proves that one chunk executed from an untrusted snapshot
  gives the replay's hash, and when exactly it does past the budget; `Dispute.dfy` holds the decoders, the judges and
  `resolve`, `Verdicts.dfy` what it answers entry by entry; `Misjudged.dfy` and `Witness.dfy` hold guests, one of them
  a complete ELF file, on which promised properties fail.
- **The coordinator** (`lib.rs`, `ledger.rs`, `net.rs`, `zk_judge.rs`). `Quorum.dfy` proves `decide` against a
  counting specification; `Settlement.dfy` and `Ledger.dfy` cover judgment, slashing, balances and the ledger file;
  `Protocol.dfy` is the job protocol as a state machine under arbitrary interleavings and connection snapshots,
  `StepLaws.dfy` what each action does and what every outcome of a run rests on, `ProtocolLaws.dfy` what holds over
  whole runs, `JudgedRuns.dfy` what holds when the replay judge is the replay,
  `Scenarios.dfy` runs on which promised properties fail, `Coordinator.dfy` the main loop as a class each of whose
  methods is proved to be a step of that machine.
- **Encodings** (`jobfmt`). `JobFormat.dfy` proves the signed message and the journal uniquely decodable.

Register values are unbounded integers confined to 64 bits with explicit wrap-around; instruction words are bit
vectors. BLAKE3 and SHA-256 are function parameters (`H`, `Sha`), signatures and external provers are answers
supplied from outside, the deadline is an `expired` flag, the shuffle an arbitrary permutation, and the connection
map is read as an arbitrary list at each lock acquisition.

## What turned out differently from the documentation

- Compressed shifts right by zero are hints on RV64 (C.SRLI64, C.SRAI64) but trap as reserved; c.addiw to x0 and c.lui
  of zero to x0 are reserved but run as no-ops. These are the only halfwords that deviate from chapter 16 of the
  RISC-V Unprivileged ISA (`Compressed.CompressedMeansExpansion`, `Compressed.ShiftByZeroTraps`).
- OP-32 division tests the 64-bit rs2 but divides by its low word. `MulDiv.WordDivisionAgreesIff` gives the exact
  condition under which it agrees with the ISA and `MulDiv.WordDivisionLaw` when a = q * b + r survives; outside it
  DIVUW and REMUW abort the process.
- The CSR immediate forms drop bit 4 of their 5-bit field, which is neither the ISA's zero extension nor the sign
  extension their comment names (`BaseIsa.CsrImmediateIff`, `BaseIsa.CsrImmediateLost`).
- A routed trap on the last slot of a chunk skips the boundary, and with it every later one
  (`Misjudged.LateRouteSilencesChain`), and an over-long output drops the exit hash (`Witness.OverLongOutput`): the
  chain keeps its schedule exactly when neither happens (`RunLaws.RunRefinesIteration`).
- A handler sees cause 0, the number of a misaligned fetch, also for a fetch outside the address space
  (`Abi.TrapIsHandledIff`).
- The one-chunk judge can differ from the replay on a chunk whose trap the guest handles and on an entry pushed by
  the instruction limit (`Misjudged`). `Judge.JudgeAgreesIff` says exactly when it agrees, and on the latter
  `Judge.LimitEntryJudgedIff` says so in terms of the limit's own state.
- Past the end of an honest chain, however its run ended, the one-chunk judge upholds a longer chain against it for
  which the replay judge gives no verdict (`Dispute.ExtensionUpheldIff`; `Witness.ExtensionBeatsTinyChain` on a
  122-byte ELF file).
- `capture` truncates its page count to 32 bits; the round trip holds exactly below 2^32 pages.
- `signing_message` is ambiguous for fields of 2^32 bytes (`JobFormat.LongFieldsCollide`), and does not
  distinguish an absent output or trap from an empty one.
- `decode_chain` accepts a plus sign in place of the first digit of a pair (`Dispute.DecodeHashIff`,
  `Dispute.PlusAliasesZero`), and slices strings in a way that panics inside a multi-byte character
  (`Dispute.DecodePanicsIff`, `Dispute.AccentPanics`).
- The output quoted by an acceptance is that of the first member of the winning group: it is the same in every order of
  arrival if and only if the whole group reported it (`Quorum.OutputIsStableIff`, `Quorum.OutputDependsOnOrder`).
- The replay judge is said to vindicate even a lone honest worker against a pool of no-shows; with five or more
  dispatched the undecided quorum is a rejection and nobody is paid (`JudgedRuns.LoneWorkerJudgedIff`).
- A verified receipt does not stop an escalation that is still owed (`ProtocolLaws.EscalationDelaysReceipt`).
- Logging an admitted result slices the first twelve bytes of its hash, which panics on a shorter one; the
  protocol records this as the process going down.
- `ledger.rs` says that resetting a corrupt ledger would be theft, but `finish_ledger` falls back to an empty
  ledger when loading fails, and a failed save is only logged: `Bonds.HistoryKeptIff` gives the exact condition
  under which nothing is lost, `Bonds.ResetForgetsConviction` a witness.
- A receipt burns every responder but its claimant, also those that committed the receipt's own hash
  (`ProtocolLaws.ReceiptBurnsOnlyDeviantsIff`, `Scenarios.ReceiptBurnsItsOwnHash`).
- A worker that authenticates repeatedly is dispatched, and counted in the pool, repeatedly
  (`Scenarios.RejoiningCounts`), so that two workers in full agreement can be rejected
  (`ProtocolLaws.WorkerMajorityAcceptedIff`, `Scenarios.UnanimousPairRejected`).

## Model

| member | source | states |
|---|---|---|
| `CpuState.Cpu.constructor` | crates/rvcore/src/cpu.rs:24-28 | a new processor: all registers zero but the stack pointer, CSRs zero, no latch |
| `CpuState.Cpu.FromParts` | crates/rvcore/src/snapshot.rs:47-67 | a processor from restored registers, pc and CSRs, with a cleared latch |
| `CpuState.Cpu.Set` | crates/rvcore/src/cpu.rs:31-35 | writes exactly one register of the abstract state, and nothing for x0 |
| `Memory.Mem.constructor` | crates/rvcore/src/mem.rs:60-68 | an empty memory: no page allocated, cache coherent |
| `Memory.Mem.SlotOf` | crates/rvcore/src/mem.rs:71-82 | the cached probe answers exactly what the directory says, untruncated, keeping the cache coherent and the contents unchanged |
| `Memory.Mem.SlotOfRo` | crates/rvcore/src/mem.rs:84-91 | the read-only probe answers exactly what the directory says |
| `Memory.Mem.SlotMutOrAlloc` | crates/rvcore/src/mem.rs:93-112 | the slot of a page, the contents changed only by a zero page where none was |
| `Memory.Mem.Read` | crates/rvcore/src/mem.rs:114-143 | a load of 1, 2, 4 or 8 bytes, misaligned or across pages, equals the little-endian flat value, fails exactly out of range, and never changes the contents |
| `Memory.Mem.Write` | crates/rvcore/src/mem.rs:145-163 | a store changes exactly the addressed bytes, allocating zero pages; an out-of-range store fails and leaves the contents unchanged |
| `Memory.Mem.ReadRegion` | crates/rvcore/src/mem.rs:165-185 | a region read gives the flat bytes or fails exactly out of range |
| `Memory.Mem.InsertPage` | crates/rvcore/src/mem.rs:210-222 | replaces or adds one page of the contents, at any 32-bit index, and keeps directory and cache coherent |
| `Memory.SlotsFit` | crates/rvcore/src/mem.rs:71-112 | as long as one of the unreachable pages is not allocated, slot numbers never reach the NO_SLOT sentinel, so storing them as u32 loses nothing |
| `Memory.RoomIff` | crates/rvcore/src/mem.rs:71-112 | and that is exact: stores to reachable pages can never bring a slot number to the sentinel if and only if one unreachable page is not allocated |
| `Memory.FullDirectoryHidesAPage` | crates/rvcore/src/mem.rs:71-91 | past that, some allocated page has the sentinel for its slot number, which the probe takes for no page |
| `Pages.ByteAtWriteBytes` | crates/rvcore/src/mem.rs:145-159 | a store changes exactly the addressed bytes of the flat view |
| `Pages.ReadBack` | crates/rvcore/src/mem.rs:114-159 | a load of the place and size just stored gives back the stored bytes |
| `MemoryLaws.PagedIsFlat` | crates/rvcore/src/mem.rs:114-222 | after any history of stores, loads and page inserts each address shows the last byte put there, else zero |
| `MemoryLaws.LoadsAreFlat` | crates/rvcore/src/mem.rs:114-185 | after any history every load is the little-endian value of the flat bytes, or fails exactly out of range |
| `MemoryLaws.Drive` | crates/rvcore/src/mem.rs:60-222 | a real memory object driven through any history that leaves one unreachable page out answers each load as the flat memory of the operations before it |
| `MemoryLaws.Indistinguishable` | crates/rvcore/src/mem.rs:187-208 | two memories with equal page maps but any slot order and cache have the same root, the same captured bytes and the same complete outcome for any program |
| `Interp.StepMode` | crates/rvcore/src/interp.rs:36-720 | the imperative step on processor and memory, over all opcodes of both widths, performs exactly the specified transition, with the same outcome |
| `Reference.InstructionMeans` | crates/rvcore/src/interp.rs:58-376 | every 32-bit instruction, encoded by a table of its own, does on every state what the reference says: LUI and AUIPC, jumps with their link and target, branches by integer order, loads and stores byte by byte in flat memory with the tohost latch, all 18 ALU operations and their word forms, each CSR by its number, MRET; outside the word divisions and CSR immediates reported above |
| `Reference.StepMeans` | crates/rvcore/src/interp.rs:36-376 | so does a step whose pc points at the four bytes of the encoding, anywhere in memory |
| `Reference.StepFetches` | crates/rvcore/src/interp.rs:36-57 | every step: a pc past the address space or an odd one faults, otherwise the two bytes there are executed unless their low bits are both set, and then the four bytes, unless they leave the address space |
| `Reference.RejectedIff` | crates/rvcore/src/interp.rs:88-384 | of all 2^32 words exactly those that encode no instruction of the reference are rejected as illegal, changing nothing |
| `Reference.CallReturns` | crates/rvcore/src/interp.rs:99-112 | a jal to any target that holds jalr x0, 0(rd) comes back to the instruction after the call with the return address in rd and nothing else changed |
| `Reference.RegisterComputes` | crates/rvcore/src/interp.rs:227-264 | each OP operation computes its integer or bit-level result: sums and differences modulo 2^64, comparisons, shifts and logic bit by bit, high products, truncating division with its exceptional cases |
| `Reference.WordComputes` | crates/rvcore/src/interp.rs:266-296 | each OP-32 operation computes the sign-extended 32-bit result on the low words, the divisions when the divisor is zero or has a nonzero low word |
| `Compressed.CompressedMeansExpansion` | crates/rvcore/src/interp.rs:386-720 | with x0 zero and no tohost device a halfword does exactly what the tables of chapter 16 of the RISC-V Unprivileged ISA (20191213) say (the effect of its expansion, pc + 2 replacing pc + 4, for instructions and hints; rejection if and only if reserved or floating-point), if and only if it is in neither of two families: shifts right by zero, hints that are rejected, and c.addiw x0 or c.lui x0, 0, reserved encodings that retire |
| `Compressed.HintsDoNothing` | crates/rvcore/src/interp.rs:461-680 | every hint of that table expands to an instruction without effect beyond the next pc |
| `Compressed.ShiftByZeroTraps` | crates/rvcore/src/interp.rs:520-526 | the halfword 0x8001 is a hint, its expansion does nothing, and the machine rejects it |
| `Compressed.AgreesQ0` | crates/rvcore/src/interp.rs:401-460 | quadrant 0 against its table, written bit by bit, reserved and floating-point rows included |
| `Compressed.AgreesQ1` | crates/rvcore/src/interp.rs:461-590 | quadrant 1 against its table, outside the two deviating families |
| `Compressed.AgreesQ2` | crates/rvcore/src/interp.rs:591-696 | quadrant 2 against its table |
| `Compressed.ImmediateJ` | crates/rvcore/src/interp.rs:699-710 | the scrambled c.j offset is the offset of the expanded JAL |
| `Compressed.ImmediateB` | crates/rvcore/src/interp.rs:712-720 | the c.beqz and c.bnez offset is the offset of the expanded branch |
| `BaseIsa.RegisterOpsAreBitwise` | crates/rvcore/src/interp.rs:232-239 | AND, OR, XOR and the three shifts, each result bit from operand bits, shift amounts modulo 64, the arithmetic shift filling with the sign |
| `BaseIsa.ImmediateOps` | crates/rvcore/src/interp.rs:179-187 | every OP-IMM operation is the OP operation on the sign-extended immediate |
| `BaseIsa.ImmediateShifts` | crates/rvcore/src/interp.rs:188-206 | every shift by an immediate is the shift by a register holding it |
| `BaseIsa.SignedOrder` | crates/rvcore/src/interp.rs:113-125 | the signed branches are the unsigned ones on operands with flipped sign bits |
| `BaseIsa.WordFormsAreWords` | crates/rvcore/src/interp.rs:269-273 | the non-M word forms depend only on the low operand halves and answer a sign-extended 32-bit word |
| `BaseIsa.WordFormsAreNarrowed` | crates/rvcore/src/interp.rs:269-273 | ADDW, SUBW and the word shifts are the 64-bit operations on the words, sign-extended, with shift amounts modulo 32 |
| `BaseIsa.WordImmediates` | crates/rvcore/src/interp.rs:207-226 | every OP-IMM-32 operation is the OP-32 operation on its immediate or shift amount |
| `BaseIsa.CsrOpsAreBitwise` | crates/rvcore/src/interp.rs:352-357 | CSRRW replaces, CSRRS sets and CSRRC clears exactly the bits of the source operand |
| `BaseIsa.CsrImmediateIff` | crates/rvcore/src/interp.rs:332-344 | the operand of the CSR immediate forms is the zero-extended field the ISA prescribes (chapter 9), and the sign-extended field the comment names, if and only if bit 4 of the field is clear |
| `BaseIsa.CsrImmediateLost` | crates/rvcore/src/interp.rs:332-344 | csrrwi mtvec, 16 takes zero for its operand |
| `BaseIsa.LoadsExtend` | crates/rvcore/src/interp.rs:126-154 | signed loads keep the value modulo their width within its signed range, unsigned loads keep the value |
| `BaseIsa.LoadFindsStore` | crates/rvcore/src/interp.rs:126-178 | a load of the width and place just stored finds the low bytes of the stored register, extended |
| `BaseIsa.ImmediatesRoundTrip` | crates/rvcore/src/interp.rs:68-86 | branch, jump and upper immediates survive encoding and decoding for every value |
| `MulDiv.ProductsAreExact` | crates/rvcore/src/interp.rs:240-248 | MUL with MULH, MULHSU or MULHU is the full 128-bit product (section 7.1 of the RISC-V Unprivileged ISA 20191213) |
| `MulDiv.SignedDivisionIsExact` | crates/rvcore/src/interp.rs:249-259 | DIV and REM are the truncating quotient and remainder outside the two exceptional cases (section 7.2) |
| `MulDiv.UnsignedDivisionIsExact` | crates/rvcore/src/interp.rs:254-260 | DIVU and REMU are the exact quotient and remainder for a nonzero divisor |
| `MulDiv.DivisionLawModulo64` | crates/rvcore/src/interp.rs:249-260 | dividend = divisor * quotient + remainder modulo 2^64 on all operands |
| `MulDiv.WordProductIsExact` | crates/rvcore/src/interp.rs:274-274 | MULW is the sign-extended low word of the product, whatever the upper halves hold |
| `MulDiv.WordDivisionAgreesIff` | crates/rvcore/src/interp.rs:275-292 | the word divisions agree with the ISA if and only if rs2 is zero or has a nonzero low word (for REMW also when the dividend word is zero) |
| `MulDiv.WordDivisionFailure` | crates/rvcore/src/interp.rs:275-292 | concrete operands outside that condition: aborts, and the most negative word |
| `MulDiv.WordDivisionLaw` | crates/rvcore/src/interp.rs:275-292 | on the interpreter's own values: a = q * b + r modulo 2^32 for DIVW and REMW if and only if rs2 is zero or has a nonzero low word or the dividend's low word is zero, and for DIVUW and REMUW if and only if rs2 is zero or has a nonzero low word |
| `IsaLaws.StepLawful` | crates/rvcore/src/interp.rs:36-720 | every step, of either width and any outcome: traps and halts change nothing but the latch, x0 is constant, pages are only added and only addressable ones |
| `IsaLaws.TrapsArePrecise` | crates/rvcore/src/interp.rs:36-376 | a trapping step leaves registers, pc, CSRs and pages exactly as before; without a tohost device the whole machine |
| `Hashing.MerkleRoot` | crates/rvcore/src/mem.rs:191-198 | the loop over the directory hashes exactly the allocated pages in ascending index order |
| `Hashing.HashState` | crates/rvcore/src/hash.rs:18-30 | the loop hashes previous hash, registers, pc, CSRs and memory root, in that layout |
| `Layouts.StateLayout` | crates/rvcore/src/hash.rs:18-31 | the hashed 360 bytes offset by offset: previous hash, registers from 32, pc at 288, mtvec, mepc, mcause, mstatus, and from 328 the hash of the page records, ascending by index, 4100 bytes each |
| `Layouts.ChainLayout` | crates/rvcore/src/interp.rs:858-1000 | the first entry of a chain is hashed onto 32 zero bytes, every other onto the entry before it |
| `Hashing.HartBytesInjective` | crates/rvcore/src/hash.rs:18-30 | the register and CSR bytes determine all registers, pc and CSRs |
| `Hashing.PageBytesInjective` | crates/rvcore/src/mem.rs:191-198 | the page bytes determine the page map, allocation included |
| `Hashing.HashBinds` | crates/rvcore/src/hash.rs:18-30 | equal state hashes have equal previous hash and state, or one of two named input pairs collides |
| `Hashing.ChainBindsHistory` | crates/rvcore/src/hash.rs:18-30 | two chains equal at an index agree on every earlier entry and state, or a named pair collides |
| `Hashing.DivergenceIsPermanent` | crates/rvcore/src/hash.rs:18-30 | chains once diverged stay diverged, or a named pair collides |
| `Snapshot.CaptureState` | crates/rvcore/src/snapshot.rs:17-35 | the appending loop writes exactly the specified snapshot bytes |
| `Snapshot.RestoreState` | crates/rvcore/src/snapshot.rs:37-84 | the parsing loops return the specified processor and memory, or the specified error |
| `Snapshot.RestorePages` | crates/rvcore/src/snapshot.rs:68-84 | the page loop reads the counted records, reporting truncation and trailing bytes |
| `Snapshot.RestoreOfCapture` | crates/rvcore/src/snapshot.rs:17-84 | restore(capture(s)) is s without its latch if and only if s has fewer than 2^32 pages, and an error otherwise |
| `Layouts.CaptureLayout` | crates/rvcore/src/snapshot.rs:17-35 | a snapshot offset by offset: RVS1, page count, registers and CSRs from 8, page records from 304 |
| `Layouts.RestoreIff` | crates/rvcore/src/snapshot.rs:37-84 | any bytes at all: each of the four errors exactly under its length or magic condition; otherwise every register and CSR is the word at its offset and every page that of the last record with its index |
| `Snapshot.RestoredIsWellIndexed` | crates/rvcore/src/snapshot.rs:68-84 | every restored page index fits the 32 bits it is hashed in |
| `Elf.Parse` | crates/rvcore/src/elf.rs:22-113 | total, in bounds and overflow-free on every byte string; succeeds exactly on the declaratively acceptable files, with their entry, segments and tohost |
| `Elf.ParseSegments` | crates/rvcore/src/elf.rs:58-108 | the header loop collects exactly the load segments, failing exactly when some header is bad |
| `Elf.ParseSegment` | crates/rvcore/src/elf.rs:76-107 | one load header is accepted exactly under its declarative conditions |
| `Elf.FindTohostSection` | crates/rvcore/src/elf.rs:116-160 | the section scan returns the address of the first section named .tohost, or nothing |
| `Elf.Load` | crates/rvcore/src/elf.rs:163-168 | loading places the segments in order, stopping at one that does not fit |
| `Elf.LoadPlacesSegments` | crates/rvcore/src/elf.rs:163-168 | segments inside the address space always load, and each address reads as the last covering segment byte, else zero |
| `Elf.ParseImpliesLoad` | crates/rvcore/src/elf.rs:22-168 | a file that parses also loads, into memory that shows exactly its segments and zero elsewhere, zero-filled tails included (chapter 5 of the System V gABI) |
| `Writer.FileReads` | crates/rvcore/src/elf.rs:22-160 | ELF files written field by field, for every entry, list of segments and tohost address: accepted if and only if there is a segment and each has filesz at most memsz and fits the address space, and then read back as that entry, those segments and that tohost address |
| `Writer.ParseWritten` | crates/rvcore/src/elf.rs:22-113 | the parser itself on such a file returns just that image |
| `Writer.WrittenFileLoads` | crates/rvcore/src/elf.rs:163-168 | loaded, an address of one segment alone holds its byte or, in the tail up to memsz, zero, and an address of none holds zero |
| `Writer.OnlyElfIsAccepted` | crates/rvcore/src/elf.rs:23-57 | nothing is accepted but 64-bit little-endian RISC-V executables with 56-byte program headers, byte by byte |
| `Runner.DoTick` | crates/rvcore/src/interp.rs:919-973 | one loop iteration: step, tohost test, trap routing |
| `Runner.RunLoop` | crates/rvcore/src/interp.rs:902-979 | the loop of run ends, within the budget, in exactly the state, count, chain and snapshots of the iterated specification |
| `Runner.PushHash` | crates/rvcore/src/interp.rs:862-865 | appends the hash of the current state chained onto the last entry |
| `Runner.RunGuest` | crates/rvcore/src/interp.rs:858-1000 | run on a memory object: outcome, chain, count, output and snapshots as specified for its contents |
| `Runner.ConcludeRun` | crates/rvcore/src/interp.rs:981-1000 | output of a clean halt; an over-long one rewrites the status and drops the exit hash |
| `Abi.StartIs` | crates/abi/src/lib.rs:8-16 | a job starts unless its input leaves the address space: at its entry point, the stack pointer 0x83f0_0000 and all other registers zero, the eight bytes at 0x1000_0000 spelling the input length, the input from 0x1000_0008 on, the image elsewhere |
| `Abi.OutputIs` | crates/abi/src/lib.rs:8-18 | every run that meets a clean halt reports, if the eight bytes at 0x2000_0000 spell at most 2^20, exactly that many bytes from 0x2000_0008 on of the state it halts in, and the over-long trap otherwise; no other run has an output |
| `Abi.TrapIsHandledIff` | crates/rvcore/src/interp.rs:957-979 | a trap goes to the guest if and only if it installed a handler, which runs at mtvec rounded down with the trapping pc in mepc and cause 2, 5, 7, 8 or 0 by kind, all else unchanged |
| `Abi.HandlerReturns` | crates/rvcore/src/interp.rs:315-324 | a handler that is an mret brings the guest back to the trapping instruction with registers and memory as they were |
| `Abi.TohostStops` | crates/rvcore/src/interp.rs:930-939 | a word or double store to the tohost address stops the run with the value stored |
| `Runner.ExecuteChunk` | crates/rvcore/src/interp.rs:756-785 | one chunk without routing or limit, hashed onto the previous hash |
| `RunLaws.RunEnd` | crates/rvcore/src/interp.rs:902-979 | a run never exceeds its instruction budget and stops where iterating the tick stops |
| `RunLaws.RunRefinesIteration` | crates/rvcore/src/interp.rs:858-1000 | every run stays within its budget, and its chain holds the state after every chunk_size iterations plus the exit state, with (completed iterations) / chunk_size + 1 entries, if and only if no routed trap takes the last slot of a chunk and the output is not over-long; an over-long output leaves exactly the boundary entries |
| `RunLaws.LoopRefinesIteration` | crates/rvcore/src/interp.rs:902-979 | the same for the states the loop has hashed when it ends |
| `Misjudged.LateRouteSilencesChain` | crates/rvcore/src/interp.rs:961-973 | a concrete guest whose handled trap takes the last slot of a chunk: six iterations in chunks of three leave one entry where three are due |
| `Witness.OverLongOutput` | crates/rvcore/src/interp.rs:984-997 | a concrete guest that halts cleanly with an over-long output: the run reports a trap and its chain is empty where one entry is due |
| `RunLaws.ChainIsIteratedSteps` | crates/rvcore/src/interp.rs:902-979 | without routed traps entry i before the last is the chained hash of the state after exactly (i + 1) * chunk_size instruction steps |
| `RunLaws.TicksAreSteps` | crates/rvcore/src/interp.rs:919-973 | without routed traps iterating the loop body is iterating the instruction step |
| `RunLaws.StuckCounter` | crates/rvcore/src/interp.rs:961-973 | past a skipped boundary only the exit is hashed |
| `RunLaws.RunStatesAreTame` | crates/rvcore/src/interp.rs:858-979 | in every run from a fresh processor, with or without a tohost device, x0 is zero and only addressable pages are allocated after every iteration and at every hashed state; nothing is latched but by the store that ends the run |
| `RunLaws.HonestSnapshotsVerify` | crates/rvcore/src/interp.rs:920-979 | every snapshot any run writes under an index still in its chain restores to the state hashed there and hashes from the entry before to that entry |
| `Judge.OneChunkReproducesEntry` | crates/rvcore/src/interp.rs:756-785 | from the genuine state at boundary k - 1 one chunk reproduces entry k, when the chunk routes no trap and ends within the budget |
| `Judge.ChunkAgrees` | crates/rvcore/src/interp.rs:764-784 | one chunk from a boundary of the run loop and the loop itself reach the same next hashed state |
| `Judge.SnapshotJudgeMatchesReplay` | crates/coordinator/src/dispute.rs:127-148 | against a prefix equal to the replay, a snapshot the judge accepts at all yields exactly replay hash k, or collides with the genuine state on named inputs |
| `Judge.WholeChunkInBudget` | crates/coordinator/src/dispute.rs:127-148 | the budget condition holds, before anything is executed, whenever (k + 1) * chunk_size is within max_instructions |
| `Judge.JudgeAgreesIff` | crates/coordinator/src/dispute.rs:127-148 | for every chunk, handled traps and the limit included: on any snapshot it accepts the judge answers replay hash k if and only if the chunk by itself ends in the replay's state k, up to a named collision |
| `Judge.LimitEntryJudgedIff` | crates/coordinator/src/dispute.rs:127-148 | beyond the budget entry k is the one pushed by the instruction limit, and on any snapshot it accepts the judge answers its hash if and only if that state halts or traps or returns to itself over the rest of the chunk, up to a named collision |
| `Judge.ChunkReturns` | crates/rvcore/src/interp.rs:764-784 | the rest of a chunk leads back to its first state exactly when that state halts or traps or the remaining steps form a cycle |
| `Judge.LimitCutsChunk` | crates/rvcore/src/interp.rs:913-918 | a chunk longer than the remaining budget is cut by the limit after exactly the steps left |
| `Misjudged.LimitEntryIsMisjudged` | crates/coordinator/src/dispute.rs:127-148 | a concrete run whose own snapshot the judge accepts and answers with another hash than the limit entry, or the two named byte strings collide |
| `Misjudged.RoutedTrapIsMisjudged` | crates/coordinator/src/dispute.rs:127-148 | a concrete run whose own snapshot the judge accepts before a handled trap and answers with another hash than the replay, or the two named byte strings collide |
| `Dispute.Decode` | crates/coordinator/src/dispute.rs:49-64 | the decoding loops return the chain, an error or a panic exactly as specified for the text |
| `Dispute.HexChainDecodes` | crates/coordinator/src/dispute.rs:49-64 | a chain written in hex decodes to itself |
| `Dispute.DecodeHashIff` | crates/coordinator/src/dispute.rs:52-61 | a string decodes to a hash if and only if it has 64 bytes and every pair is two hex digits, or a plus sign and one, reading as that byte |
| `Dispute.DecodePanicsIff` | crates/coordinator/src/dispute.rs:52-61 | decoding a string panics if and only if it has 64 bytes and an even offset falls inside a character, every pair before the one that character begins in having been read |
| `Dispute.AccentPanics` | crates/coordinator/src/dispute.rs:52-61 | a concrete string of 63 characters in 64 bytes on which it does |
| `Dispute.ChainDecodesIff` | crates/coordinator/src/dispute.rs:49-64 | a chain decodes if and only if every string does, and panics if and only if some string panics and every string before it decodes |
| `Dispute.PlusAliasesZero` | crates/coordinator/src/dispute.rs:52-61 | every hash with a zero first digit has a second spelling that decodes to it |
| `Dispute.FirstDivergence` | crates/coordinator/src/dispute.rs:68-76 | the least index where the chains differ or one ends; none exactly for equal chains |
| `Dispute.Divergence` | crates/coordinator/src/dispute.rs:68-76 | the index as a function of two different chains |
| `Dispute.DivergenceUnique` | crates/coordinator/src/dispute.rs:68-76 | it is determined by the two chains |
| `Dispute.NoAgreementAtDivergence` | crates/coordinator/src/dispute.rs:79-89 | the (true, true) arm is unreachable after first_divergence |
| `Dispute.JudgeByReplay` | crates/coordinator/src/dispute.rs:92-104 | parse, load and run: the chain of the specified replay, absent or panicking with it |
| `Dispute.ReplayJournal` | crates/coordinator/src/dispute.rs:109-122 | parse, load and run: instruction count and output of the specified replay |
| `Dispute.JudgeBySnapshot` | crates/coordinator/src/dispute.rs:127-148 | restore, check against the agreed prefix, execute one chunk, as specified for the file |
| `Dispute.Resolve` | crates/coordinator/src/dispute.rs:150-173 | malformed chains, agreement, and otherwise the settlement at the first divergence, snapshot first and replay as fallback |
| `Verdicts.ReplayVerdictIff` | crates/coordinator/src/dispute.rs:79-173 | without a usable snapshot: the claim is honest if and only if its entry at the first difference is the replay's, the counter likewise, both dishonest if and only if neither is; no verdict if and only if the image does not load or the replay's chain is too short; a panic if and only if the replay panics |
| `Verdicts.SnapshotVerdictIff` | crates/coordinator/src/dispute.rs:79-173 | with the honest run's file of the entry before, the same by the hash of where the chunk leads |
| `Verdicts.GenuineSnapshotIsJudged` | crates/coordinator/src/dispute.rs:127-148 | the judge never turns down the run's own state at any entry |
| `Verdicts.UndisputedIff` | crates/coordinator/src/dispute.rs:150-160 | agreement if and only if both decode to the same chain; malformed and panicking submissions as such, on either side |
| `Dispute.HonestChainIsUpheld` | crates/coordinator/src/dispute.rs:150-173 | whoever submits the replay's own chain in any spelling, as claim or counter, is upheld at the least differing index or the chains agree; no verdict only when the other chain is undecodable or strictly extends it (a panic only when the other panics the decoder) |
| `Dispute.HonestSideUpheldByReplay` | crates/coordinator/src/dispute.rs:150-173 | under replay a side equal to the replay chain is upheld at the least differing index, unless the other strictly extends it, which gives no verdict |
| `Dispute.HonestSideUpheldWithSnapshot` | crates/coordinator/src/dispute.rs:127-173 | with any untrusted snapshot the honest side is upheld at a judgeable divergence, or the file collides with the genuine state |
| `Dispute.HaltedStateHaltsAgain` | crates/rvcore/src/interp.rs:306-320 | the state of a clean halt halts again |
| `Dispute.ExtensionUpheldIff` | crates/coordinator/src/dispute.rs:127-173 | for every finished replay with a nonempty chain, however it ended, and a genuine snapshot of its last state: a strictly longer chain beats the honest one, as claim or counter, if and only if the chunk from that state does not abort the host and the extension continues with its hash; replay alone gives no verdict |
| `Dispute.SomeExtensionWinsIff` | crates/coordinator/src/dispute.rs:127-173 | some extension beats the honest chain if and only if that chunk does not abort; after a clean halt it never does |
| `Witness.TinyReplays` | crates/coordinator/src/dispute.rs:92-104 | a concrete 122-byte ELF file replays to a clean halt with one state, one instruction and an empty output |
| `Witness.TinyLoads` | crates/rvcore/src/elf.rs:22-168 | that file is accepted and its image is its code on zeroed memory |
| `Witness.ExtensionBeatsTinyChain` | crates/coordinator/src/dispute.rs:127-173 | on that file `resolve` upholds an extension against the honest claim given the honest run's own snapshot, and gives no verdict without it |
| `JobFormat.BuildSigningMessage` | crates/jobfmt/src/lib.rs:170-193 | the appending loop builds exactly the specified message |
| `JobFormat.SigningMessageBinds` | crates/jobfmt/src/lib.rs:170-193 | with fields below 2^32 bytes two results have the same message if and only if they agree on every signed field, the uncounted chunk list included, up to absent versus empty output and trap |
| `Layouts.MessageReads` | crates/jobfmt/src/lib.rs:170-193 | a reader that takes worker, job, status, count, result hash, chunk hashes, output and trap off the front in this order gets back every field of every message whose fields fit their lengths |
| `JobFormat.LongFieldsCollide` | crates/jobfmt/src/lib.rs:170-193 | two different results with the same message once a field has 2^32 bytes |
| `JobFormat.JournalBinds` | crates/jobfmt/src/lib.rs:134-152 | the journal determines count and output, and the output is read back from it |
| `Layouts.JournalLayout` | crates/jobfmt/src/lib.rs:130-138 | eight little-endian bytes of instruction count, then the output |
| `JobFormat.FromHex` | crates/jobfmt/src/lib.rs:238-258 | accepts exactly the right length of hex digits and spells the bytes; reports length and bad bytes |
| `JobFormat.HexRoundTrip` | crates/coordinator/src/net.rs:1698-1700 | what decodes hex output is the encoded bytes and nothing else |
| `Layouts.HexIsLowerCase` | crates/coordinator/src/zk_judge.rs:232-237 | hex text has only digits and the letters a to f |
| `Layouts.DigitIff` | crates/jobfmt/src/lib.rs:238-258 | the hex digits of either case and their values, and no others |
| `Quorum.Decide` | crates/coordinator/src/lib.rs:51-112 | the deduplicating, grouping and sorting code decides exactly as the counting specification |
| `Quorum.Dedup` | crates/coordinator/src/lib.rs:55-59 | keeps the first result of every worker, in order |
| `Quorum.GroupBy` | crates/coordinator/src/lib.rs:34-43 | one nonempty group per hash holding exactly its results in order |
| `Quorum.SortGroups` | crates/coordinator/src/lib.rs:74-75 | a permutation of the groups in descending size, groups of equal size in their old order |
| `Quorum.AcceptIff` | crates/coordinator/src/lib.rs:60-98 | accepts h if and only if a strict majority of the pool halted with h as its first vote with one common chain; the agreed list is that group |
| `Quorum.DecisionIff` | crates/coordinator/src/lib.rs:51-112 | each answer exactly by counting first votes: with no hash over half the pool, broken if and only if over half did not halt, else no majority from five workers on and escalation below; with one, a chain dispute if and only if its voters' chains differ, and acceptance otherwise |
| `Quorum.WinnerIsUnique` | crates/coordinator/src/lib.rs:60-98 | two hashes cannot both hold a strict majority |
| `Quorum.DecidesIsFunctional` | crates/coordinator/src/lib.rs:51-112 | the counting specification admits one decision only |
| `Quorum.Decided` | crates/coordinator/src/lib.rs:51-112 | and it always admits one |
| `Quorum.RepeatKeepsDecision` | crates/coordinator/src/lib.rs:55-59 | a repeat from a known worker, whenever it arrives, never changes the decision |
| `Quorum.OrderIsIrrelevant` | crates/coordinator/src/lib.rs:51-112 | for distinct workers the order of arrival does not change decision, hash or agreed set |
| `Quorum.OutputIsStableIff` | crates/coordinator/src/lib.rs:86-91 | the quoted output is the same in every order of arrival if and only if the whole winning group reported it |
| `Quorum.AnyMemberCanBeQuoted` | crates/coordinator/src/lib.rs:86-91 | with any one member of the winning group moved to the front the same hash is accepted and that member's output quoted |
| `Quorum.OutputDependsOnOrder` | crates/coordinator/src/lib.rs:86-91 | two votes with one hash and one chain are accepted in both orders, each quoting the output of the first |
| `Quorum.AcceptanceIsStable` | crates/coordinator/src/lib.rs:51-112 | adding votes within the same pool never turns an acceptance of h into an escalation or the acceptance of another hash |
| `Settlement.AcceptanceMoves` | crates/coordinator/src/lib.rs:125-136 | an accepted job moves +10 for each responder in the agreed set, -100 for each other responder, nothing for anybody else |
| `Settlement.RejectionMovesNothing` | crates/coordinator/src/lib.rs:137-138 | without an acceptance no balance moves |
| `Settlement.SlashingIsSmall` | crates/coordinator/src/lib.rs:117-139 | with distinct responders the deltas name each once and stay within 100 units |
| `Settlement.Vindicate` | crates/coordinator/src/net.rs:966-973 | the loop collects, without repeats, exactly the responders committed to the digest |
| `Settlement.PaidIffCommitted` | crates/coordinator/src/net.rs:961-975 | under a judge a responder is paid if and only if its committed chain is exactly the digest, and otherwise burned |
| `Settlement.FindTruth` | crates/coordinator/src/net.rs:926-964 | the digest and output of the re-execution; none for SP1-native or unloadable jobs; a panic exactly when the replay panics |
| `Settlement.ReplayCountFits` | crates/coordinator/src/dispute.rs:109-122 | the replayed instruction count stays within the job budget, hence within 64 bits |
| `Settlement.JudgeDecision` | crates/coordinator/src/zk_judge.rs:177-230 | answers exactly for complete verdicts bound to this job, with a digest recomputed from the verdict |
| `Settlement.BoundIff` | crates/coordinator/src/zk_judge.rs:188-212 | a verdict in hex is bound to a job if and only if it names the three content ids in order, or for an SP1-native job its input id alone |
| `Bonds.Ledger.constructor` | crates/coordinator/src/ledger.rs:9-13 | an empty ledger |
| `Bonds.Ledger.Loaded` | crates/coordinator/src/ledger.rs:24-30 | a ledger read back from its file |
| `Bonds.Ledger.Apply` | crates/coordinator/src/ledger.rs:37-46 | appends one entry and credits every delta in turn; on a ledger whose balances are the wrapped sums of its history they stay so |
| `Bonds.WrapsOnce` | crates/coordinator/src/ledger.rs:38-40 | wrapping after every addition equals wrapping once at the end |
| `Bonds.TotalIsBounded` | crates/coordinator/src/ledger.rs:37-46 | with each id once per job a sum grows by at most the largest delta per job |
| `Bonds.ExactIffFits` | crates/coordinator/src/ledger.rs:37-46 | a balance is the exact sum if and only if that fits 64 bits |
| `Bonds.AppliedIsValid` | crates/coordinator/src/ledger.rs:37-46 | after an entry exactly the ids in the history have a balance, each the wrapped sum of its deltas |
| `Bonds.HistoryKeptIff` | crates/coordinator/src/net.rs:883-900 | over any series of jobs the file holds its old history followed by every entry if and only if every save succeeded and no load failed on a ledger with entries; otherwise entries are lost |
| `Bonds.KeptBalances` | crates/coordinator/src/net.rs:883-900 | when nothing is lost, what an id owns is the wrapped sum over old history and new entries |
| `Bonds.FailureHarmlessIff` | crates/coordinator/src/net.rs:890-899 | one failed load leaves an id right if and only if it owned nothing, one failed save if and only if the job moved nothing for it |
| `Bonds.ResetForgetsConviction` | crates/coordinator/src/net.rs:891-894 | a convicted worker whose ledger fails to load owns only its next reward |
| `Protocol.RunsAreSafe` | crates/coordinator/src/net.rs:283-819 | every reachable state: distinct dispatched voters, distinct dispatched claimants, reserves disjoint from the dispatched list, escalated implies no reserves, a sound reason behind every finished job, never Escalate, and exactly one outcome per finished watched job in order |
| `StepLaws.OutcomesAreBacked` | crates/coordinator/src/net.rs:538-566 | in every run each result of a job was sent as a signed vote over an authenticated connection of its worker that passed the identity clauses, and each outcome rests on an action with the same hash and output: a verified receipt claim, the zk judge's or prover's answer, the replay's truth, or a check |
| `Protocol.StepKeeps` | crates/coordinator/src/net.rs:283-819 | every action keeps that invariant |
| `Protocol.DispatchKeeps` | crates/coordinator/src/net.rs:327-450 | dispatch under three successive locks keeps the job invariant, whatever connections come and go |
| `Protocol.EscalationKeeps` | crates/coordinator/src/net.rs:466-505 | escalation keeps it |
| `Protocol.LateJoinKeeps` | crates/coordinator/src/net.rs:636-650 | late authentication keeps it |
| `Protocol.VoteKeeps` | crates/coordinator/src/net.rs:724-743 | a counted vote keeps it |
| `Protocol.ClaimKeeps` | crates/coordinator/src/net.rs:1532-1646 | a receipt claim keeps it: one attempt per dispatched worker |
| `Protocol.PoolIsDispatched` | crates/coordinator/src/lib.rs:60-64 | in every reachable job the received count never exceeds the dispatched count, so the maximum of the two never matters |
| `Protocol.QuorumAcceptIsMajority` | crates/coordinator/src/lib.rs:60-98 | a quorum acceptance rests on distinct dispatched workers, more than half of the dispatched list, with one hash and one chain |
| `Protocol.FinishIsSound` | crates/coordinator/src/net.rs:538-566 | receipt first, then quorum, then zk judge, then replay; a judge only when the quorum is undecided, and with reserves left only when the window expired before all answers were in |
| `ProtocolLaws.DispatchIsEligible` | crates/coordinator/src/net.rs:354-411 | round 1 goes to authenticated, still connected workers within the targets, the named set or the sample |
| `ProtocolLaws.DispatchSplits` | crates/coordinator/src/net.rs:383-440 | nobody is both dispatched and held back, targets are never held back, a sample is no larger than configured |
| `StepLaws.DispatchIff` | crates/coordinator/src/net.rs:325-353 | a fresh job goes out if and only if every named member has an authenticated connection and the authenticated workers fill the pool |
| `StepLaws.SampleIsDispatched` | crates/coordinator/src/net.rs:394-404 | with a sample size n below the number of candidates exactly the first n of the shuffled candidates go out, if still connected |
| `StepLaws.UnsampledDispatchIff` | crates/coordinator/src/net.rs:383-405 | with round-1 names exactly the connected named candidates go out, with neither names nor a sample exactly the connected candidates |
| `StepLaws.DispatchLosesNobody` | crates/coordinator/src/net.rs:406-437 | a worker the job was not targeted at that is there throughout is dispatched or held back |
| `StepLaws.JoinIff` | crates/coordinator/src/net.rs:636-648 | an arriving worker is held back if and only if the job was dispatched, to others, untargeted and not escalated |
| `StepLaws.VoteIff` | crates/coordinator/src/net.rs:683-744 | a vote is recorded if and only if it came signed over an authenticated connection under its own id, the keys agree where both are known, a key is known where identities are required, and it is a dispatched worker's first for this job; the process goes down if and only if the hash of such a vote cannot be cut |
| `StepLaws.ClaimIff` | crates/coordinator/src/net.rs:1542-1640 | a receipt claim uses up its worker's one attempt if and only if it passes its gates, and decides the job if and only if the receipt verified |
| `StepLaws.FinishesIff` | crates/coordinator/src/net.rs:454-528 | a check ends the job if and only if it was dispatched, owes its reserves no round, and is answered or out of time |
| `StepLaws.EscalationIff` | crates/coordinator/src/net.rs:462-507 | a check that owes a round dispatches exactly the reserves still authenticated and keeps votes, claims and receipt |
| `ProtocolLaws.StepFinishesOnce` | crates/coordinator/src/net.rs:454-574 | a step keeps and grows the pending job or finishes it with exactly one outcome, and never rewrites an outcome |
| `ProtocolLaws.FinishesOnlyWhenDue` | crates/coordinator/src/net.rs:457-535 | a job is finished only by a completion check after dispatch, once its window expired, a receipt was verified or every dispatched worker answered |
| `ProtocolLaws.ResultsComeFromVotes` | crates/coordinator/src/net.rs:680-743 | results enter a pending job only as one signed first vote of a dispatched worker over its own authenticated connection |
| `ProtocolLaws.RunsOnlyAdd` | crates/coordinator/src/net.rs:283-819 | between any two points of a run outcomes are only added, and an unfinished job is still pending with nothing undone |
| `ProtocolLaws.EscalatesAtMostOnce` | crates/coordinator/src/net.rs:454-505 | in every run a job escalates at most once |
| `ProtocolLaws.LingeringIsEscalation` | crates/coordinator/src/net.rs:454-535 | only an escalation lets a dispatched job outlive a check with its window expired |
| `ProtocolLaws.SecondExpiryFinishes` | crates/coordinator/src/net.rs:454-574 | in every run the second check with an expired window finds the job finished or finishes it, unless the process has gone down |
| `ProtocolLaws.JobsAreConserved` | crates/coordinator/src/net.rs:291-325 | every job taken from the queue is pending or has exactly one outcome |
| `ProtocolLaws.ReceiptIsFinal` | crates/coordinator/src/net.rs:538-540 | once a receipt is verified the job can only end on it, whatever happens in between |
| `ProtocolLaws.JudgedJobsPayCommitments` | crates/coordinator/src/net.rs:961-975 | in any run a judged responder is paid if and only if its committed chain is the judge digest, and otherwise burned |
| `ProtocolLaws.QuorumPaysItsVoters` | crates/coordinator/src/lib.rs:117-139 | in any run a responder of a quorum-accepted job is paid if and only if it halted with the accepted hash, and otherwise burned |
| `ProtocolLaws.ReceiptPaysItsClaimant` | crates/coordinator/src/lib.rs:117-139 | in any run a receipt pays its one claimant if it responded and burns every other responder, whatever it computed |
| `ProtocolLaws.ReceiptBurnsOnlyDeviantsIff` | crates/coordinator/src/lib.rs:118-124 | so every responder committed to the receipt hash is paid if and only if no responder but the claimant is |
| `Scenarios.ReceiptBurnsItsOwnHash` | crates/coordinator/src/lib.rs:117-139 | a run from the initial state in which a receipt burns a responder that committed exactly the receipt's hash |
| `ProtocolLaws.WorkerMajorityAcceptedIff` | crates/coordinator/src/lib.rs:60-98 | a hash backed by a majority of the distinct dispatched workers is accepted if and only if they are a majority of the dispatched list with its repetitions; always when it has none |
| `Scenarios.RejoiningCounts` | crates/coordinator/src/net.rs:640-648 | in any run, workers that authenticate while a dispatched, untargeted job has not escalated are dispatched by its escalation once for every time they did |
| `Scenarios.UnanimousPairRejected` | crates/coordinator/src/net.rs:454-574 | a run from the initial state in which the only two dispatched workers answer in full agreement and the job is rejected, one of them counted four times among five |
| `ProtocolLaws.BalanceCountsVerdicts` | crates/coordinator/src/ledger.rs:37-46 | a sum over the history of a run is ten per vindication less a hundred per conviction |
| `StepLaws.EntryIs` | crates/coordinator/src/net.rs:883-900 | the ledger entry of a job: its id, the label network-run, and per result its worker with 10, -100 or nothing |
| `ProtocolLaws.RunBalances` | crates/coordinator/src/net.rs:883-900 | over any run from any valid ledger file that loses no load or save, an id owns what it owned before plus ten per vindication less a hundred per conviction, wrapped; exactly that if and only if it fits 64 bits |
| `ProtocolLaws.RunBalancesAreExact` | crates/coordinator/src/net.rs:883-900 | and it is exactly that sum, without wrapping, when old history and run have fewer than 2^63 / 100 entries of this coordinator together |
| `JudgedRuns.JudgedByItsReplay` | crates/coordinator/src/net.rs:926-975 | in every run whose checks, when they ask the replay judge, carry the re-execution of the pending job, a replay-judged job is accepted with the digest and output of its own re-execution |
| `JudgedRuns.ReplayPaysTheTruth` | crates/coordinator/src/net.rs:926-975 | in such a run a responder that committed the digest of a journal is paid if and only if that is the count and output of the re-execution or the two journals collide, and burned otherwise |
| `JudgedRuns.DigestsAgreeIff` | crates/jobfmt/src/lib.rs:134-152 | two journals have the same digest if and only if they agree or collide |
| `JudgedRuns.CheckPanicsIff` | crates/coordinator/src/net.rs:538-566 | such a check takes the process down if and only if it asks the replay judge and the re-execution panics |
| `JudgedRuns.GoesDownIff` | crates/coordinator/src/net.rs:454-744 | the process goes down only by an admitted vote whose hash cannot be logged or by a panic of the replay judge |
| `JudgedRuns.OnlySmallPoolsAreJudged` | crates/coordinator/src/net.rs:538-566 | a job reaches the replay judge only with fewer than five workers dispatched |
| `JudgedRuns.LoneWorkerJudgedIff` | crates/coordinator/src/net.rs:540-566 | a lone answer against no-shows is put to the replay judge if and only if fewer than five were dispatched; otherwise the job is rejected and no balance moves |
| `Serving.Coordinator.constructor` | crates/coordinator/src/net.rs:273-282 | an empty pending slot and no outcomes, over whatever ledger file is found |
| `Serving.Coordinator.QueueJob` | crates/coordinator/src/net.rs:291-325 | a descriptor fills the empty slot; a step of the protocol |
| `Serving.Coordinator.DispatchPending` | crates/coordinator/src/net.rs:327-450 | candidates, selection, reserves and sending under three locks; a step of the protocol |
| `Serving.CollectCandidates` | crates/coordinator/src/net.rs:355-377 | the loop collects exactly the eligible authenticated workers |
| `Serving.SendTo` | crates/coordinator/src/net.rs:428-439 | the sending loop records exactly the selected workers still connected |
| `Serving.SendToAuthed` | crates/coordinator/src/net.rs:470-493 | the escalation loop records exactly the reserves still authenticated |
| `Serving.Coordinator.CheckCompletion` | crates/coordinator/src/net.rs:454-574 | escalate, finish or wait; a step of the protocol |
| `Serving.Coordinator.Finish` | crates/coordinator/src/net.rs:538-574 | the last word on a job and its removal from the slot |
| `Serving.Coordinator.Record` | crates/coordinator/src/net.rs:1064-1126 | deltas, ledger file, outcome and count of a finished job, each mirroring the protocol history |
| `Serving.Coordinator.FinishLedger` | crates/coordinator/src/net.rs:883-900 | load (empty when that fails), apply, save: the file afterwards is the specified one for every answer of the file system |
| `Serving.Coordinator.Authenticated` | crates/coordinator/src/net.rs:630-650 | late join; a step of the protocol |
| `Serving.Coordinator.ReceiveResult` | crates/coordinator/src/net.rs:680-744 | identity gate, dispatch gate, one vote per worker; a step of the protocol |
| `Serving.Coordinator.ReceiveClaim` | crates/coordinator/src/net.rs:1542-1646 | receipt admission and the one-attempt gate; a step of the protocol |
| `Serving.Coordinator.Proved` | crates/coordinator/src/net.rs:802-808 | a proving-queue job is finished without touching the pending slot; a step of the protocol |

## Left out

- The syscall environment, tracing and progress output of the interpreter: modes the judges never use.
- BLAKE3, SHA-256 and Ed25519 themselves: arbitrary functions, and a flag saying whether a signature verified.
- The wire format, TLS, sockets, session threads and daemon reconnects: transport without protocol decisions.
- `receipt.rs`, the prover processes and the receipt cache: their answers enter as `ZkAnswer`, `ReceiptAnswer` and
  `ZkVerdict` values.
- The content store, directory scanning, job submission and evidence files: file input and output; a job enters the
  protocol when the scanner hands it over, and its blobs enter the judge already materialized.
- Peer hints, subscriber notices and the messages sent to workers: no state of the protocol depends on them.
- The stop after `max_jobs` outcomes: a run of the model may end anywhere, so every result holds for shorter runs.
- The JSON text of the ledger file: a file is absent, holds a ledger, or is unreadable after a write cut short.
- Hello messages and key possession: a connection may change its identity at any time, so connections are read as
  arbitrary at each use and no claim is made about who holds which key or role; only what the dispatch, vote, claim
  and late-join gates test is modelled.
- The optimistic challenge window (`optimistic.rs`): its properties are immediate from its branches.
- CLIs, job kit, difftest and conformance drivers, scaffolds, scripts, demo jobs and fuzz corpora.
- Wall-clock durations and the quality of the shuffle.
- Error strings: errors are named values, one per distinguishable cause.
- Page boxes are sequence values stored in the slot list, so aliasing between pages is not represented.
- Dispute.JudgeBySnapshot: requires that the file does not hold all 2^32 - 2^20 unreachable pages (some 16 TiB), since
  with all of them a page can receive the reserved slot number and be taken for absent (`Memory.RoomIff`,
  `Memory.FullDirectoryHidesAPage`); what the code answers then is not modelled.
- Dispute.Resolve: requires the same of its snapshot files.
- MemoryLaws.Drive: requires the same of the inserted pages.
- Elf.Parse: stated for files shorter than 2^63 bytes, the longest slice the language allows.
- ProtocolLaws.SecondExpiryFinishes: a process that has gone down finishes nothing; `JudgedRuns.GoesDownIff` says what
  takes it down.
