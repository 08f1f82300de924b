# A verified model of the RISC-V co-simulation benches

The repository runs small RISC-V cores in Verilator next to the Spike reference simulator. This project models
the parts whose correctness is not visible from any single block and proves properties of them:

- **The Spike bus of the SoC.** Spike runs in a worker thread; each fetch, load or store becomes one request in a
  shared slot, a clock-driven DPI function presents it, a register stage drives the bus, the RAM answers through a
  latched `ram_ready`, and the testbench detects MMIO stores on the rising edge of `iomem_fire`. The bus stays valid
  one cycle after the reply has been captured, so every RAM access is made twice and a second, ghost `ram_ready`
  appears. `SpikeBus` is the transition system, `SpikeBusInvariant` what every step keeps, `SpikeBusTheorems` what
  whole runs guarantee, and `SpikeBusCode` the classes, each method proved equal to its step.
- **The AXI memory of the PicoRV32 testbench.** It acts on both clock edges with blocking latches, non-blocking
  ready and valid lines and pseudo-random timing bits. `AxiMemory` is the half-cycle machine with arbitrary timing
  bits and any master that obeys the VALID-stability rule of section A3.2.1 of the AMBA AXI specification
  (ARM IHI 0022); `AxiMemoryProofs` shows that the timing never shows; `AxiMemoryCode` is the class.
- **The lockstep checker.** `CosimSession` compares a DUT stream with a reference simulator, which is any sequence of
  states, one per step. `CosimProofs` says what accepted steps prove about the DUT and what the counts of a retire
  stream mean; `CosimBridge` adds the global session and the instruction monitor; `CosimCode` and `CosimBridgeCode`
  are the classes.
- **The ELF loader** (`ElfImage`), **the VeeR write monitor** (`VeerWriteQueue`) and **the firmware's printer**
  (`Printer`), and, in `FirmwareConsole`, the path of a printed text through either bench to its console.

Code that updates state is modelled as classes and loops whose `ensures` equate the new state with a specification
function; the properties are lemmas about those functions. Five modules say what these functions mean without the
definitions they are written with: `SpikeBusAddressed` and `AxiAddressed` tell the buses by numeric byte addresses and
the bytes last stored there (`ByteAddresses`), `SpikeBusVerdicts` tells how a run fails and ends by the steps taken and
the words handled, `CosimPlain` tells the checker by pcs, register values, counts and return codes, and `ElfLayout`
writes an ELF32 or ELF64 file from abstract segments and proves that the loader finds them.
`VeerWriteQueue.EndingOfRun` and `Printer.ConversionTells` do the same for verdicts and conversions. Words are four byte
lanes (`ByteLanes`), and the shift loops of the source are proved to place bytes on those lanes.

## Assumptions and readings

- **(S), the scheduling assumption**, is the predicate `SpikeBus.Prompt`: no clock edge reaches the presentation of
  the request slot (`spike_bus_dpi.cc:284`) while the slot still holds an answered request. The code does not
  enforce it; in practice the main loop advances time by one picosecond per evaluation (`sim_main.cc:14-17`) against a
  ten-nanosecond clock, which gives the worker time.
  `AssumptionIsNeeded` builds, for any two loads of words that read differently, a run in which a single edge
  breaks (S) and the second load returns the first one's word. `StepBound`, `StopEndsTheWorker`, `NoWaitBlocks` and
  all of `SpikeBusVerdicts` speak of every run, whether it respects (S) or not.
- A worker step is one critical section. A clock edge is one atomic step; every block reads the values from before
  the edge, and the DPI function runs before the testbench block. Registers without a reset value power up at zero.
- The reset release comes no earlier than the eighth edge and the timeout no earlier than the four-millionth.
- SPI flash and UART blocks are inputs of an edge; the flash answers only while it is addressed.
- `docs/arch.md:245` gives 0x02000000 as the SPI/UART register region, but `external_iomem_sel` (`picosoc.v:118`)
  covers those addresses too and has priority on `mem_rdata`: see `OtherLoadsAreZero`.
- A sub-word store inside the word at 0x10000000 reaches the testbench as a store to that word, its unwritten lanes
  zero; the words handled are stated as they appear on the bus.
- If memory base plus size reaches 2^32, the 32-bit sum in `reference_entry_valid` wraps and nothing is ever
  compared: `RegionComparesIffNoWrap`, `WrappedRegionComparesNothing`.
- `fail_count` is not recorded in `compare_index` for a failed detail step, only for a failed retire.
- The return code of a retire call does not tell a match from a mismatch, so a monitor in retire mode writes PASS for
  every report that raises nothing (`cosim_bridge.cc:59-70`, `mon_instr.cc:46-65`): `RetireCode`, `OtherReports`. The
  mismatch shows in the session's counters only.
- A `write_reg` of 32 or more with no changed register makes the simulator's `reg` raise; the model calls this
  `Raise`.

## Model

| member | source | states |
|---|---|---|
| ByteLanes.PackStoreData | src/top_soc/spike_bus_dpi.cc:59-67 | the or-ed, shifted word has exactly the store's bytes on the lanes from addr mod 4 upwards and zeros elsewhere |
| ByteLanes.PackStoreStrobe | src/top_soc/spike_bus_dpi.cc:69-77 | the strobe enables exactly the lanes the access covers, cut off at the word's end |
| ByteLanes.UnpackLoadData | src/top_soc/spike_bus_dpi.cc:79-85 | the bytes of the access's lanes, lowest first |
| ByteLanes.ShiftAmounts | src/top_soc/spike_bus_dpi.cc:62-64 | the computed shift of the source moves a byte to its lane, and back, for every lane |
| ByteLanes.LaneRoundTrip | src/top_soc/spike_bus_dpi.cc:59-85 | a strobed write of a packed store into any word, then an unpack, returns the stored bytes, and every other lane keeps its byte |
| ByteLanes.StoreIsMerge | src/top_soc/picosoc.v:252-258 | a strobed word write is one byte-range store in the memory seen as bytes |
| ByteLanes.LoadIsExtract | src/top_soc/picosoc.v:253 | unpacking a word of the memory is a byte-range load from it |
| SpikeBusInvariant.IssueKeeps | src/top_soc/spike_bus_dpi.cc:87-106 | issuing a request keeps the whole invariant of the system |
| SpikeBusInvariant.ConsumeKeeps | src/top_soc/spike_bus_dpi.cc:108-120 | taking the reply keeps it; in particular the reply is what an atomic byte memory answers |
| SpikeBusInvariant.AccessIsApply | src/top_soc/picosoc.v:206-217 | a RAM access of the pending request changes the bytes exactly as the call does in one piece |
| SpikeBusInvariant.EdgeKeepsBus | src/top_soc/spike_bus_master.sv:35-65 | over one prompt clock edge: a driven request is the pending one unless it repeats a captured one, a repeat rewrites what is there, and no ram_ready is left once wait_ready_low holds |
| SpikeBusInvariant.EdgeKeepsMem | src/top_soc/picosoc.v:206-217 | over one prompt clock edge the RAM stays the atomic memory, with the pending store applied at most once in effect |
| SpikeBusInvariant.EdgeKeepsHandled | src/top_soc/tb_picosoc_soc.sv:86-88 | over one prompt clock edge the handled words stay those of the answered MMIO stores |
| SpikeBusInvariant.HandledAtCapture | src/top_soc/tb_picosoc_soc.sv:158-164 | a word is handled at the very edge that captures the reply of its store |
| SpikeBusTheorems.RunKeeps | src/top_soc/spike_bus_dpi.cc:260-300 | the invariant holds after every run that respects (S) |
| SpikeBusTheorems.BusIsAtomicMemory | src/top_soc/spike_bus_dpi.cc:87-121 | in every interleaving under (S): completed calls are the issued ones in order save one pending, every load returns the bytes last stored, and the RAM is the replayed memory plus at most the pending store |
| SpikeBusTheorems.NoStaleAcknowledgement | src/top_soc/spike_bus_dpi.cc:277-299 | every captured reply belongs to the request now pending and carries the current word; ram_ready is low when a request is first presented, and high on a valid bus only for the unanswered pending request |
| SpikeBusTheorems.MmioExactlyOnce | src/top_soc/tb_picosoc_soc.sv:158-164 | the words given to handle_sim_mmio are the answered stores to 0x10000000, each once and in program order |
| SpikeBusTheorems.CountersAreExact | src/top_soc/tb_picosoc_soc.sv:166-172 | the reported RAM read and write counts are the answered RAM loads and stores, although each is made twice |
| SpikeBusTheorems.AnsweredWithinFiveEdges | src/top_soc/spike_bus_dpi.cc:260-300 | a RAM or MMIO request has its reply after at most five clock edges of any run under (S) |
| SpikeBusTheorems.CountdownRun | src/top_soc/tb_picosoc_soc.sv:176-182 | once QUIT has started the countdown, every run under (S) keeps the code and finishes exactly when the delay has run out |
| SpikeBusTheorems.QuitEndsTheRun | src/top_soc/tb_picosoc_soc.sv:107-156 | QUIT after a status marker ends the run exactly three edges later with the code of the last marker; no later store is handled, and both stores have their replies before stop is set |
| SpikeBusTheorems.StopEndsTheWorker | src/top_soc/spike_bus_dpi.cc:157-189 | in every run from power-up that has set stop, whether or not it respects (S), however it goes on: no request is issued, a captured reply is still delivered and nothing else is, the worker can always move on, and it has returned after a number of its steps known when stop is set |
| SpikeBusTheorems.NoWaitBlocks | src/top_soc/spike_bus_dpi.cc:93-111 | in every such run, both waits of issue_bus_request are over once stop is set |
| SpikeBusTheorems.StepBound | src/top_soc/spike_bus_dpi.cc:166-171 | in every run, prompt or not, steps never exceeds kMaxSteps |
| SpikeBusTheorems.AssumptionIsNeeded | src/top_soc/spike_bus_dpi.cc:284-292 | for any two RAM loads that should differ there is a run with a single edge that breaks (S) in which an old request is re-driven and its ram_ready answers the next one with the wrong word |
| SpikeBusTheorems.StaleReply | src/top_soc/spike_bus_dpi.cc:284-299 | from an answered load, one early edge and otherwise prompt steps let the old word answer the next load |
| SpikeBusTheorems.RunToAnswer | src/top_soc/spike_bus_dpi.cc:260-300 | from power-up there is a run under (S) that brings any RAM load to its captured, correct reply |
| SpikeBusAddressed.TakenIff | src/top_soc/spike_bus_dpi.cc:87-106 | in every run a call puts a request in the slot if and only if its bytes lie in one word, at least one, and neither stop nor failed is set |
| SpikeBusAddressed.RamCallIff | src/top_soc/picosoc.v:113-116 | a well-formed call that fits one word is a RAM call if and only if its 32-bit address is from 0x80000000 up to, not including, 0x80020000 |
| SpikeBusAddressed.LoadsReturnLastStored | src/top_soc/spike_bus_dpi.cc:87-121 | in every run under (S) a completed load in that interval returns, byte by byte, what the latest earlier store over that address stored, or the initial byte of the memory |
| SpikeBusAddressed.RamHoldsLastStored | src/top_soc/picosoc.v:206-217 | in every run under (S) each byte of the RAM is the one last stored at its address, or the initial one, the pending store not yet or already included |
| SpikeBusAddressed.OtherLoadsAreZero | src/top_soc/picosoc.v:113-140 | every load completed elsewhere at 0x02000000 or above, the SPI/UART registers included, returned zeros whatever the registers held |
| SpikeBusAddressed.FlashAnswers | src/top_soc/picosoc.v:113-140 | an edge that shows the pending request below 0x02000000 captures a reply exactly when the flash answers, and then the flash's word |
| SpikeBusAddressed.FlashLoadsComeFromTheFlash | src/top_soc/spike_bus_dpi.cc:108-120 | in every run under (S) each completed load below 0x02000000 returned the lanes of a word that the flash gave in that run |
| SpikeBusAddressed.HandledByAddress | src/top_soc/tb_picosoc_soc.sv:158-164 | in every run under (S) the words handled are, each once and in order, those of the answered stores whose address is 0x10000000 up to 0x10000003, their bytes on their lanes and zeros beside them |
| SpikeBusVerdicts.StepsAreCounted | src/top_soc/spike_bus_dpi.cc:166-178 | in every run steps is the number of completed cpu steps |
| SpikeBusVerdicts.StartsAnotherStepIff | src/top_soc/spike_bus_dpi.cc:161-172 | in every run the worker starts another cpu step if and only if neither stop nor failed is set and fewer than two million steps are done; else it returns, at the limit with failed set and exit code 1 |
| SpikeBusVerdicts.EndingSetsTheCode | src/top_soc/tb_picosoc_soc.sv:107-194 | in every run the step that ends it sets stop and the exit code: 1 after a timeout or a failure, else that of the last status word handled, 0 for 0x83 and 0x81, 1 for 0x82 |
| SpikeBusVerdicts.CodeIsFinal | src/top_soc/spike_bus_dpi.cc:308-323 | once a run has ended, no further step changes its exit code |
| SpikeBusVerdicts.CountdownIff | src/top_soc/tb_picosoc_soc.sv:119-156 | in every run a finish is pending, with its code, exactly when a status word has been handled, and the countdown runs exactly when 0x00 was handled after one and no status word since |
| SpikeBusVerdicts.SetUpIff | src/top_soc/spike_bus_dpi.cc:191-229 | in every run the worker exists exactly when Spike has been set up at a clock edge after the release of reset |
| SpikeBusVerdicts.FailedIff | src/top_soc/spike_bus_dpi.cc:150-229 | in every run failed is set if and only if a clock edge after the release of reset could not set Spike up, a cpu step threw, or the worker came to the step limit before the run had ended |
| SpikeBusVerdicts.FailureEndsTheRun | src/top_soc/tb_picosoc_soc.sv:173-175 | a failed run ends at its next clock edge after the release of reset, with exit code 1 |
| SpikeBusCode.Context.constructor | src/top_soc/spike_bus_dpi.cc:26-57 | a fresh context is the initial one of the transition system |
| SpikeBusCode.Context.Submit | src/top_soc/spike_bus_dpi.cc:87-106 | accepts exactly legal calls while neither stop nor failed is set, and fills the slot as the issue step does |
| SpikeBusCode.Context.Collect | src/top_soc/spike_bus_dpi.cc:108-120 | returns true exactly when a reply is there and nothing failed, with the reply's bytes, and frees the slot; otherwise changes nothing |
| SpikeBusCode.Context.MayContinue | src/top_soc/spike_bus_dpi.cc:161-172 | the loop check: goes on exactly when not stopped, not failed and below the step limit, and fails the run at the limit |
| SpikeBusCode.Context.CountStep | src/top_soc/spike_bus_dpi.cc:176-179 | counts one step and nothing else |
| SpikeBusCode.Context.MarkFailed | src/top_soc/spike_bus_dpi.cc:150-155 | sets failed and nothing else |
| SpikeBusCode.Context.InitOnce | src/top_soc/spike_bus_dpi.cc:191-229 | succeeds when initialized already or when Spike can be set up, and marks the run failed otherwise |
| SpikeBusCode.Context.Step | src/top_soc/spike_bus_dpi.cc:260-300 | context and bus outputs are those of the clock edge's DPI step |
| SpikeBusCode.Context.Finish | src/top_soc/spike_bus_dpi.cc:308-323 | sets the exit code and stop, nothing else |
| SpikeBusCode.PicosocMem.PosEdge | src/top_soc/picosoc.v:252-258 | reads the old word and writes exactly the enabled lanes of the addressed word |
| SpikeBusCode.Testbench.HandleMmio | src/top_soc/tb_picosoc_soc.sv:119-156 | the testbench registers after one handled word |
| SpikeBusCode.Testbench.FinishSoc | src/top_soc/tb_picosoc_soc.sv:107-117 | finishes once; a second call leaves the context alone |
| SpikeBusCode.Testbench.PosEdge | src/top_soc/tb_picosoc_soc.sv:158-183 | edge detection, counters, failure and countdown in the order of the block equal the testbench part of a clock edge |
| SpikeBusCode.Soc.ReadWires | src/top_soc/picosoc.v:113-140 | the decode, mem_ready, mem_rdata and iomem_fire wires equal those of the transition system |
| SpikeBusCode.Soc.LatchMemory | src/top_soc/picosoc.v:206-217 | ram_ready and the memory after the edge |
| SpikeBusCode.Soc.LatchMaster | src/top_soc/spike_bus_master.sv:33-65 | the bus registers and the context after the edge |
| SpikeBusCode.Soc.PosEdge | src/top_soc/tb_picosoc_soc.sv:158-183 | the classes' posedge, block by block in place, is exactly one clock edge of the transition system |
| SpikeBusCode.Soc.IssueBusRequest | src/top_soc/spike_bus_dpi.cc:87-106 | the class's first half of a call is exactly the issue step |
| SpikeBusCode.Soc.AwaitReply | src/top_soc/spike_bus_dpi.cc:108-120 | its second half is exactly the consume step, and true is returned exactly when a completion with those bytes is recorded |
| AxiMemoryProofs.LateLatchUnreachable | src/top_cpu/tb_picorv32.v:532-553 | in every half cycle of every run ready equals fast on each channel, so the late-latch branches (656-671) are dead, and a latched address or beat stays until its access |
| AxiMemoryProofs.FallKeepsChans | src/top_cpu/tb_picorv32.v:631-637 | over a negedge ready equals fast on every channel and no latched item is overwritten before its response |
| AxiMemoryProofs.RiseKeepsChans | src/top_cpu/tb_picorv32.v:639-679 | the same over a posedge, for every VALID-stable master |
| AxiMemoryProofs.RunKeeps | src/top_cpu/tb_picorv32.v:631-679 | the channel, answer and memory invariants hold at every half cycle of every run |
| AxiMemoryProofs.EveryRequestServedOnce | src/top_cpu/tb_picorv32.v:532-629 | for every sequence of timing bits nothing is lost, duplicated or reordered: on AR, AW and W the handshaken items are exactly those accessed and the one latched, in order; every access but the last has its response taken and that one at least has it on the bus; the i-th R beat answers the i-th AR with the current word, the i-th B beat the i-th AW and W |
| AxiMemoryProofs.AtRestAllIsAnswered | src/top_cpu/tb_picorv32.v:532-629 | with no ready line up, nothing latched and no response on the bus, there is one R beat for each AR handshake and one B beat for each AW and each W handshake |
| AxiMemoryProofs.AnsweredWithinFiveTurns | src/top_cpu/tb_picorv32.v:631-679 | progress from any point of any run: after five half cycles that allow reads to a master taking R beats, among any others, every in-range AR handshake made before has its beat; likewise every AW/W pair its B beat |
| AxiMemoryProofs.MemoryIsTheWritePairs | src/top_cpu/tb_picorv32.v:571-629 | with no write response outstanding the memory is what the answered AW/W pairs write, i-th with i-th |
| AxiMemoryProofs.PassedIffWritten | src/top_cpu/tb_picorv32.v:582-621 | tests_passed is set exactly when a pass or finish marker, or the magic value, has been written to its address |
| AxiMemoryProofs.SequentialMasterSeesAtomicMemory | src/top_cpu/tb_picorv32.v:555-629 | a master doing one transfer at a time reads what an atomic memory gives, after any prefix of its transfers |
| AxiMemoryProofs.TimingNeverShows | src/top_cpu/tb_picorv32.v:505-514 | two runs of the same transfers under any two sequences of timing bits read the same words and end with the same memory |
| AxiMemoryProofs.PromptWithoutDelays | src/top_cpu/tb_picorv32.v:505-507 | with the default bits an idle memory takes and answers a read in the half cycle that offers it |
| AxiAddressed.BeatsAreLastWritten | src/top_cpu/tb_picorv32.v:555-569 | in every run the j-th R beat answers the j-th AR handshake, and each byte of it is the one last written with its strobe on at that byte address before the access, or the initial byte |
| AxiAddressed.MemoryIsLastWritten | src/top_cpu/tb_picorv32.v:571-581 | in every run with no write response outstanding each byte of the memory is the one the answered AW/W pairs wrote last at its address, or the initial one |
| AxiAddressed.LoadsAreLastStored | src/top_cpu/tb_picorv32.v:555-629 | a master doing one transfer at a time reads, byte by byte, what it last stored at those addresses |
| AxiAddressed.TestsPassedIff | src/top_cpu/tb_picorv32.v:582-621 | tests_passed is set if and only if 0x83 or 0x81 was written to 0x10000000 or 123456789 to 0x20000000 |
| AxiAddressed.EndsWithReason | src/top_cpu/tb_picorv32.v:560-625 | writing 0x82 to 0x10000000, or to an address that is neither memory nor one of the two, ends the simulation; nothing else ends it but the latched read of an address outside the memory |
| AxiAddressed.RefusedReadEnds | src/top_cpu/tb_picorv32.v:555-569 | a half cycle with no beat on R that lets reads through leaves no out-of-range read latched unless it ends the simulation |
| AxiMemoryCode.Axi4Memory.PerformWrite | src/top_cpu/tb_picorv32.v:571-625 | the strobed lanes of an in-range word are written and nothing else; pass markers and ends are decoded |
| AxiMemoryCode.Axi4Memory.HandleRvalid | src/top_cpu/tb_picorv32.v:555-569 | an in-range read puts the current word on R and frees the latch; an out-of-range one ends the simulation |
| AxiMemoryCode.Axi4Memory.OnNegEdge | src/top_cpu/tb_picorv32.v:631-637 | the block in place equals the negedge half cycle |
| AxiMemoryCode.Axi4Memory.OnPosEdge | src/top_cpu/tb_picorv32.v:639-679 | the block in place, blocking and non-blocking updates kept apart, equals the posedge half cycle |
| CosimProofs.DetailLockstep | src/cosim/cosim_session.cc:126-145 | every call past the guards moves the reference by exactly one step, passed or failed, so call k is judged against reference step k and the counters are those of that comparison |
| CosimProofs.AcceptIsExact | src/cosim/cosim_session.cc:199-235 | an ordinary call passes the register check if and only if the reported write turns the old reference registers into the new ones |
| CosimProofs.AcceptedIffHonest | src/cosim/cosim_session.cc:139-253 | outside the suppressed and volatile cases a call is accepted if and only if it reports the reference's pc, its exact register effect (a rewrite of the value already there included; for a trap, no write) and its masked CSR value |
| CosimProofs.StepDiffers | src/cosim/cosim_session.cc:177-236 | one accepted call widens the register difference by at most one if suppressed, two if it reads a volatile counter, else not at all |
| CosimProofs.RegistersStayEqual | src/cosim/cosim_session.cc:126-236 | over any run of accepted calls the registers rebuilt from DUT reports differ from the reference in at most the starting difference plus the total slack |
| CosimProofs.EqualRegisters | src/cosim/cosim_session.cc:126-236 | hence nowhere, when they start equal and no call has slack |
| CosimProofs.PassCountMeansRegistersAgree | src/cosim/cosim_session.cc:255-256 | if every call raised pass_count, the rebuilt registers are within the total slack of the reference |
| CosimProofs.RunPassesIffHonest | src/cosim/cosim_session.cc:120-271 | a session passes every call of a run if and only if each report is honest about the reference step it is judged against; then it fails none |
| CosimProofs.HonestDutIsAccepted | src/cosim/cosim_session.cc:139-271 | over any run, a DUT that reports without CSRs the reference's pc and either a trap without a write or an exact write passes every call and fails none |
| CosimProofs.RetireIsPointwise | src/cosim/cosim_session.cc:30-90 | pass and fail counts of any retire stream are those of a pointwise comparison with the reference trace, skipping invalid positions and stopping at the first ebreak or observed finish; a mismatch never shifts the alignment |
| CosimProofs.RegionComparesIffNoWrap | src/cosim/cosim_session.cc:439-445 | the region accepts some pc if and only if it is not empty and does not reach 2^32 |
| CosimProofs.WrappedRegionComparesNothing | src/cosim/cosim_session.cc:439-445 | with a wrapped region every retire stream has zero passes and zero failures |
| CosimPlain.RetireCounts | src/cosim/cosim_session.cc:30-90 | over any retire stream the passes are the positions in the region, before the end, at which the DUT retired the reference's own pc and instruction, and the failures the other positions compared |
| CosimPlain.NoFailureIff | src/cosim/cosim_session.cc:30-90 | no failure if and only if the DUT entry equals the reference's pc and instruction at every position compared; the passes are then their number |
| CosimPlain.WithoutFetchAllPass | src/cosim/cosim_session.cc:41-46 | against a backend that cannot fetch every retire passes and nothing is stepped |
| CosimPlain.JudgeIff | src/cosim/cosim_session.cc:139-253 | every detail call, the suppressed, trapping and counter-reading ones included, is accepted if and only if what it reports is true of the reference step, as told by pcs, register values and masked CSR bits |
| CosimPlain.PassesAreAcceptable | src/cosim/cosim_session.cc:120-271 | over any run of detail calls pass_count rises by exactly the number of acceptable calls |
| CosimPlain.RaisesIff | src/cosim/cosim_session.cc:206-211 | a call raises if and only if an untrapped, unsuppressed report names a register beyond 31, reads no counter, and no register changed |
| CosimPlain.RejectedFor | src/cosim/cosim_session.cc:139-253 | with register numbers below 32, the error of a rejected call is the first discrepancy of step, pc, trap write, register effect and CSR, told by the registers that changed |
| CosimPlain.RefusedCalls | src/cosim/cosim_session.cc:99-118 | over any run of calls to a session that does not compare, each adds the one error that says why, the missing capability alone counts as failures, and the reference is never stepped |
| CosimCode.Session.Retire | src/cosim/cosim_session.cc:30-90 | the method's new state and outcome are those of the specification, every early return included |
| CosimCode.Session.DiffRegisters | src/cosim/cosim_session.cc:155-166 | the loop counts exactly the changed low halves of x1..x31 and, when only one changed, finds it |
| CosimCode.Session.ExamineGpr | src/cosim/cosim_session.cc:177-236 | the branches give the verdict stated over the set of changed registers |
| CosimCode.Session.StepDetail | src/cosim/cosim_session.cc:99-272 | new state and verdict are those of the specification |
| CosimCode.Session.Finish | src/cosim/cosim_session.cc:388-405 | closes an open log with the counters, once |
| CosimCode.Session.Reset | src/cosim/cosim_session.cc:407-422 | finishes first, then returns to an uninitialized session |
| CosimCode.Session.Init | src/cosim/cosim_session.cc:18-28 | the state after a setup that succeeds, fails in the backend, or fails to open the log |
| CosimBridge.CallsConserve | src/cosim/cosim_bridge.cc:23-96 | over any sequence of entry-point calls: compare_index is the passes plus the failed retires, an open log belongs to an initialized unfinished session and has one row per logged event, every closed log has one header, then rows, then one trailer |
| CosimBridge.EveryLogIsClosedOnce | src/cosim/cosim_bridge.cc:23-36 | over any sequence of calls the files written plus the log still open are as many as the logs opened, and a call only adds to the files |
| CosimBridge.FilesGrow | src/cosim/cosim_session.cc:397-402 | a log file once written is never changed, whatever calls follow |
| CosimBridge.TrailersStateFinalCounters | src/cosim/cosim_session.cc:388-405 | every file was written by one identified call, from the log open at that call, and its trailer has the counters the session had then |
| CosimBridge.FinishFreezes | src/cosim/cosim_bridge.cc:218-239 | from finish to the next init or reset no call changes a counter, steps the reference or writes a log |
| CosimBridge.InitForgetsHistory | src/cosim/cosim_bridge.cc:23-36 | after any history an init answers, and leaves a session, exactly like an init of an empty bridge |
| CosimBridge.MonitorAddsNoOtherCalls | src/mon/mon_instr/mon_instr.cc:46-65 | however monitor reports and direct calls interleave, the session is what exactly one call per report (none in LogOnly) and the direct calls leave |
| CosimBridge.LogOnlyIsInvisible | src/mon/mon_instr/mon_instr.cc:58-60 | a LogOnly monitor leaves session and reference exactly as the checker's calls alone do |
| CosimBridge.MonitorLogsEveryReport | src/mon/mon_instr/mon_instr.cc:62-74 | the monitor log has one numbered row per report in order and a trailer with their number |
| CosimPlain.InitCode | src/cosim/cosim_bridge.cc:23-36 | init answers 0 exactly with a configuration, a backend and a log file, and leaves a counting session at its start; -1 without a configuration; else -2 and no session |
| CosimPlain.DetailCode | src/cosim/cosim_bridge.cc:84-96 | step_detail answers 0 exactly for an acceptable report to a checking session, -1 exactly without an initialized one, and raises only for a register beyond 31 |
| CosimPlain.RetireCode | src/cosim/cosim_bridge.cc:59-70 | retire answers -1 without an initialized session, -2 for a finished or backendless one or a failing reference step, and 0 otherwise, a mismatch included |
| CosimPlain.ErrorsAreRefusals | src/cosim/cosim_bridge.cc:84-208 | over any calls without init and reset, the errors held are one for each refused detail call since the last clear, and those from before if there was none |
| CosimPlain.DetailReport | src/mon/mon_instr/mon_instr.cc:46-65 | a detail monitor returns true, and writes PASS, exactly for a transaction that is true of the reference step, told by the transaction's own fields |
| CosimPlain.OtherReports | src/mon/mon_instr/mon_instr.cc:46-65 | a LogOnly monitor calls nothing and writes LOG; a retire monitor makes one retire call and writes PASS unless it fails |
| CosimBridgeCode.Global.Init | src/cosim/cosim_bridge.cc:23-36 | the replaced global session and the return code, the old session reset first, a failed one destroyed |
| CosimBridgeCode.Global.Retire | src/cosim/cosim_bridge.cc:59-70 | session and return code, an exception turned into -2 |
| CosimBridgeCode.Global.StepDetail | src/cosim/cosim_bridge.cc:84-96 | session and return code, an exception passed on |
| CosimBridgeCode.Global.Clear | src/cosim/cosim_bridge.cc:202-208 | empties the errors of a live session only |
| CosimBridgeCode.Global.Finish | src/cosim/cosim_bridge.cc:218-229 | finishes the session if there is one |
| CosimBridgeCode.Global.Reset | src/cosim/cosim_bridge.cc:241-244 | destroys the session, closing its log |
| CosimBridgeCode.MonInstr.Retire | src/mon/mon_instr/mon_instr.cc:46-65 | the one session call of the mode, the log row and the count, equal to the monitor specification |
| CosimBridgeCode.MonInstr.Finish | src/mon/mon_instr/mon_instr.cc:67-74 | closes the log once with the retire count |
| ElfImage.CopySegment | src/cosim/spike_simulator.cc:100-119 | the in-place copy and zero fill of one segment, its skips and its error, equal the specification on byte sequences |
| ElfImage.LoadElfSegments | src/cosim/spike_simulator.cc:61-120 | the loop over the program header table leaves exactly the specified memory, or reports the specified error |
| ElfImage.SaneEntry | src/cosim/spike_simulator.cc:83-94 | in a sane table an entry is read if and only if it lies in the file |
| ElfImage.CopyOverlays | src/cosim/spike_simulator.cc:100-119 | a sane segment is accepted if and only if its data lie in the file, and then changes exactly its bytes: file data, then zeros |
| ElfImage.LoadedImageIsOverlay | src/cosim/spike_simulator.cc:79-120 | the load succeeds if and only if all entries and PT_LOAD data lie in the file; the memory is then the old one overlaid in order, last writer wins, tails zero, all other bytes untouched |
| ElfImage.FirstBadEntryIsReported | src/cosim/spike_simulator.cc:83-102 | the first entry that leaves the file decides which error is raised, whatever follows |
| ElfImage.EntryLeavesFileIff | src/cosim/spike_simulator.cc:84-98 | reading a program header entry leaves the file if and only if its end wraps past the test, or the file ends inside the fields read; without a wrap the entry size must be too small for them |
| ElfImage.LeavesBuffersIff | src/cosim/spike_simulator.cc:100-119 | the copies of a segment leave the file or the memory if and only if the segment passes the 64-bit tests although one of its sums wraps or its file bytes do not fit the memory; without a wrap that needs filesz > memsz |
| ElfLayout.TableIsRead | src/cosim/spike_simulator.cc:66-81 | of an encoded ELF32 or ELF64 header the loader reads the class, the table's place, its entry size and their number |
| ElfLayout.EntryIsRead | src/cosim/spike_simulator.cc:83-98 | of each encoded entry it reads offset, physical address and both sizes, or skips it when it is not a PT_LOAD |
| ElfLayout.LoadsWhatIsEncoded | src/cosim/spike_simulator.cc:66-120 | round trip: loading a file written from any list of segments, of either class, succeeds if and only if the PT_LOAD data lie in it, and then each memory byte is the one of the last segment over its address, a zero beyond its file data, or the old one |
| ElfLayout.HeaderTakenIff | src/cosim/spike_simulator.cc:66-77 | a header is taken if and only if there are 64 bytes, the ELF magic, little-endian data and class 1 or 2 |
| VeerWriteQueue.WriteLaneValue | src/top_cpu/tb_veer_el2.sv:39-56 | the loop takes each strobed byte from its lane and leaves zero where the bus ends or no strobe is set |
| VeerWriteQueue.StoreRecoveredIff | src/top_cpu/tb_veer_el2.sv:39-56 | a store of up to four bytes on the 64-bit lanes is recovered if and only if no nonzero byte was cut off by the end of the bus |
| VeerWriteQueue.PushEnqueues | src/top_cpu/tb_veer_el2.sv:159-163 | the ring keeps tail = (head + count) mod 8 and gains the address at its end |
| VeerWriteQueue.PopDequeues | src/top_cpu/tb_veer_el2.sv:171-176 | the ring loses its oldest address, with which the beat is decoded |
| VeerWriteQueue.QueueIsFifo | src/top_cpu/tb_veer_el2.sv:150-176 | over any run without overflow the decoded and the waiting addresses are the presented ones in order, and every beat is decoded or dropped |
| VeerWriteQueue.PairedIffInOrder | src/top_cpu/tb_veer_el2.sv:158-176 | every beat is decoded if and only if none came before its address, and then the n-th beat with the n-th address |
| VeerWriteQueue.OverflowIff | src/top_cpu/tb_veer_el2.sv:159-169 | a run overflows exactly when an address arrives while eight are waiting |
| VeerWriteQueue.StoresAreSeenInOrder | src/top_cpu/tb_veer_el2.sv:150-176 | the stores of a program are decoded in program order, each with its address and its bytes |
| VeerWriteQueue.EffectsOfRun | src/top_cpu/tb_veer_el2.sv:97-201 | over every run, resets included: the console shows exactly the printable print requests, the run ends with the first write that asks for it, and the comparison is finished exactly once |
| VeerWriteQueue.EndingOfRun | src/top_cpu/tb_veer_el2.sv:103-197 | the edge that ends a run: an overflow if and only if an address comes with eight waiting; else fatal if and only if it decodes 0x82 at 0x10000000, or 0x83 there or 123456789 at 0x20000000 with failures sampled at that edge, and finished if and only if it decodes 0x81, or one of those two without failures; any other edge leaves the run going |
| VeerWriteQueue.EndingIsFinal | src/top_cpu/tb_veer_el2.sv:103-197 | once ended, no edge changes the monitor |
| VeerWriteQueue.ResetForgetsWaiting | src/top_cpu/tb_veer_el2.sv:150-157 | in every run a reset edge empties the queue and changes no decoded write, console or verdict |
| VeerWriteQueue.ConsoleShowsPrints | src/top_cpu/tb_veer_el2.sv:103-133 | the console grows by the printable bytes stored to the print address, whatever is stored in between |
| VeerWriteQueue.VeerMonitor.OnNegEdge | src/top_cpu/tb_veer_el2.sv:150-197 | the block in place on the eight-entry array equals one falling edge |
| VeerWriteQueue.VeerMonitor.HandleSimPrint | src/top_cpu/tb_veer_el2.sv:103-133 | the effect of one value stored to the print address |
| Printer.DecReadsBack | firmware/common/print.c:24-34 | what print_dec prints has no leading zero and reads back as the number |
| Printer.DecIsUnique | firmware/common/print.c:24-34 | it is the only such numeral |
| Printer.TenDigitsSuffice | firmware/common/print.c:26 | every 32-bit value has at most ten digits |
| Printer.SignedReadsBack | firmware/common/print.c:42-52 | the signed text reads back as the signed number |
| Printer.HexReadsBack | firmware/common/print.c:36-40 | the k hexadecimal digits read back as the value modulo 16^k |
| Printer.HexIsUnique | firmware/common/print.c:36-40 | every upper-case hexadecimal string is what print_hex prints of its value |
| Printer.OutputConcatenates | firmware/common/print.c:54-104 | rendering two formats in a row is rendering both, the second from the arguments the first has left |
| Printer.LonePercentIsSilent | firmware/common/print.c:65-69 | a lone trailing percent sign prints nothing |
| Printer.EscapedPrintsItself | firmware/common/print.c:70-72 | any text with its percent signs doubled prints as itself and takes no argument |
| Printer.ConversionTells | firmware/common/print.c:59-102 | after any text with its percent signs doubled and before any further format, a conversion prints what tells its argument: the low byte for c, the text up to its NUL or (null) for s, the canonical signed or unsigned numeral, the eight upper-case hexadecimal digits that read back as it, with 0x before them for p, one percent sign, or the two characters of an unknown one |
| Printer.PlainCharacter | firmware/common/print.c:60-63 | any other character is printed as itself and takes no argument |
| Printer.Console.PrintStr | firmware/common/print.c:13-17 | prints exactly the characters before the NUL |
| Printer.Console.PrintDec | firmware/common/print.c:24-34 | stays inside the ten-byte buffer and prints the decimal numeral, zero included |
| Printer.Console.PrintHex | firmware/common/print.c:36-40 | prints the low hexadecimal digits, most significant first, none for a count below one |
| Printer.Console.PrintSignedDec | firmware/common/print.c:42-52 | prints the signed numeral of every int above INT_MIN |
| Printer.Console.Printf | firmware/common/print.c:54-104 | never reads past the NUL, ends on every format, a lone trailing percent sign included, and prints its rendering |
| FirmwareConsole.VisibleIffPrintable | src/top_soc/tb_picosoc_soc.sv:96-101 | a text is shown unchanged if and only if all its characters are printable |
| FirmwareConsole.VeerShowsNumber | firmware/common/sim.c:3-6 | a number printed by the firmware through the VeeR bench appears on its console as the one numeral that reads back as it |
| FirmwareConsole.SocShowsText | src/top_soc/tb_picosoc_soc.sv:151-156 | a text printed by the firmware through the Spike bus is written by the testbench once and in order, in every run under (S) |

## Left out

- Spike itself (processor, MMU, bus and memory classes): a foreign library; the SoC's worker makes arbitrary calls, the
  checker's reference is an arbitrary trace, and the loaded memory is a flat byte array.
- SPI flash and UART internals: modules with their own state; only their ready and data lines appear, as inputs.
- Condition variables, the memory model and operating-system scheduling: a wait is a step enabled when its predicate
  holds.
- The join in `spike_bus_finish`: the worker's remaining steps come after it; `StopEndsTheWorker` bounds them.
- SpikeBusTheorems.BusIsAtomicMemory: says nothing about the data of loads from SPI flash addresses, which come from
  outside; `FlashLoadsComeFromTheFlash` says only that they are words the flash gave.
- SpikeBusTheorems.AnsweredWithinFiveEdges: covers RAM and MMIO requests; a request to SPI flash waits as long as the
  flash does.
- The retire sampling and duplicate guards of the CPU testbenches: they depend on simulation time and X values.
- Verilator main loops, VCD tracing, message texts, log column layout, file and directory creation, environment
  variables.
- Build scripts, Makefile rules, the Python comparison and conversion tools, and the firmware's test programs.
- CSR, interrupt and debug setters of the session, and its no-op hooks: each is one guarded forward to the simulator.
- The creation and replacement of the global monitor, and its log that cannot be opened: only a monitor with an open
  log is modelled.
- A failed simulator step: the reference is taken to stand at the next position of its trace afterwards; what Spike
  leaves behind is not known.
- ElfImage.LoadElfSegments: states the memory only for a load that succeeds; after an error the session is not
  initialized and the memory is dropped.
- Reads or copies beyond the file or the memory, which a malformed table can cause in the source, are reported as
  `OutsideBuffer`
  and not modelled further; `LeavesBuffersIff` says when the copies do it.
- ElfImage.LoadedImageIsOverlay: speaks of tables without wrapping sums and with filesz at most memsz, as the ELF
  specification requires; for other tables only `LoadElfSegments` says what happens.
- FAIL in the AXI testbench, and out-of-range accesses, end the simulation; nothing is said about edges after that.
- Printer.Console.Printf: the arguments must match the format and INT_MIN is excluded for %d, as C leaves both
  undefined; arguments are 32-bit words and string pointers.
- The text output of the AXI testbench for stores to 0x10000000 is not recorded; only the markers are.
