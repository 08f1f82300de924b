/** The SoC in the form it is written: one class per source file, fields updated in place. Each
    method is proved equal to the step of SpikeBus it implements. */
module SpikeBusCode {
  import opened ByteLanes
  import opened SimMarkers
  import opened SpikeBus

  lemma ZeroBits()
    ensures Lanes(0) == ZERO_WORD && StrobeBits(0) == NO_LANES
  {
  }

  /** g_ctx and its critical sections (src/top_soc/spike_bus_dpi.cc). */
  class Context {
    var reqValid: bool
    var reqInstr: bool
    var reqAddr: nat
    var reqWdata: bv32
    var reqWstrb: bv8
    var reqRdata: bv32
    var responseReady: bool
    var failed: bool
    var stop: bool
    var waitReadyLow: bool
    var steps: nat
    var initialized: bool
    var running: bool
    var exitCode: int

    function Abs(): Ctx
      reads this
    {
      Ctx(reqValid, BusReq(reqInstr, reqAddr, Lanes(reqWdata), StrobeBits(reqWstrb)), Lanes(reqRdata),
          responseReady, failed, stop, waitReadyLow, steps, initialized, running, exitCode)
    }

    constructor ()
      ensures Abs() == Init([]).ctx
    {
      reqValid, reqInstr, reqAddr, reqWdata, reqWstrb, reqRdata := false, false, 0, 0, 0, 0;
      responseReady, failed, stop, waitReadyLow := false, false, false, false;
      steps, initialized, running, exitCode := 0, false, false, 0;
    }

    /** The first half of issue_bus_request; the wait before it has ended. */
    method Submit(c: Call) returns (accepted: bool)
      requires WellFormed(c) && (!Legal(c) || !reqValid || stop)
      modifies this
      ensures accepted <==> Legal(c) && !old(stop) && !old(failed)
      ensures Abs() == if accepted then Accept(old(Abs()), c) else old(Abs())
    {
      hide Lanes, StrobeBits, Placed, Covering;
      if c.len == 0 || c.len > 4 || c.addr % 4 + c.len > 4 {
        return false;
      }
      if stop || failed {
        return false;
      }
      var wdata: bv32, wstrb: bv8 := 0, 0;
      if c.store.Some? {
        wdata := PackStoreData(c.addr, c.store.value);
        wstrb := PackStoreStrobe(c.addr, c.len);
      }
      ZeroBits();
      Fill(c, wdata, wstrb);
      accepted := true;
    }

    method Fill(c: Call, wdata: bv32, wstrb: bv8)
      requires Lanes(wdata) == Encode(c).wdata && StrobeBits(wstrb) == Encode(c).wstrb
      modifies this
      ensures Abs() == Accept(old(Abs()), c)
    {
      hide Lanes, StrobeBits;
      ZeroBits();
      reqValid := true;
      reqInstr := c.store.None?;
      reqAddr := c.addr % 0x1_0000_0000 - (c.addr % 0x1_0000_0000) % 4;
      reqWdata := wdata;
      reqWstrb := wstrb;
      reqRdata := 0;
      responseReady := false;
    }

    /** The second half of issue_bus_request; the wait before it has ended. */
    method Collect(c: Call) returns (ok: bool, bytes: seq<bv8>)
      requires Legal(c) && (responseReady || stop || failed)
      modifies this
      ensures ok <==> !old(failed) && (old(responseReady) || !old(stop))
      ensures ok ==> bytes == ReplyBytes(c, old(Abs()).rdata)
      ensures Abs() == if ok then old(Abs()).(valid := false, ready := false) else old(Abs())
    {
      hide Lanes, StrobeBits;
      bytes := [];
      if failed || (!responseReady && stop) {
        return false, bytes;
      }
      if c.store.None? {
        bytes := UnpackLoadData(c.addr, c.len, reqRdata);
      } else {
        bytes := c.store.value;
      }
      reqValid := false;
      responseReady := false;
      ok := true;
    }

    /** The check at the top of run_spike's loop: false when the thread ends. */
    method MayContinue() returns (go: bool)
      modifies this
      ensures go <==> !old(stop) && !old(failed) && old(steps) < MAX_STEPS
      ensures Abs() == if !old(stop) && !old(failed) && !go then old(Abs()).(failed := true, exitCode := 1)
                       else old(Abs())
    {
      hide Lanes, StrobeBits;
      if stop || failed {
        return false;
      }
      if steps >= MAX_STEPS {
        failed := true;
        exitCode := 1;
        return false;
      }
      go := true;
    }

    method CountStep()
      modifies this
      ensures Abs() == old(Abs()).(steps := old(steps) + 1)
    {
      hide Lanes, StrobeBits;
      steps := steps + 1;
    }

    method MarkFailed()
      modifies this
      ensures Abs() == old(Abs()).(failed := true)
    {
      hide Lanes, StrobeBits;
      failed := true;
    }

    /** spike_bus_set_exit_code followed by spike_bus_finish, whose join is left to the worker's steps. */
    method Finish(code: int)
      modifies this
      ensures Abs() == FinishCtx(old(Abs()), code)
    {
      hide Lanes, StrobeBits;
      exitCode := code;
      stop := true;
    }

    /** spike_bus_step */
    method Step(resetn: bool, memReady: bool, memRdata: bv32, initOk: bool)
      returns (outValid: bool, outInstr: bool, outAddr: nat, outWdata: bv32, outWstrb: bv8)
      modifies this
      ensures Abs() == DpiStep(old(Abs()), resetn, memReady, Lanes(memRdata), initOk).0
      ensures Bus(outValid, BusReq(outInstr, outAddr, Lanes(outWdata), StrobeBits(outWstrb)))
           == DpiStep(old(Abs()), resetn, memReady, Lanes(memRdata), initOk).1
    {
      hide Lanes, StrobeBits, DpiStep;
      ZeroBits();
      outValid, outInstr, outAddr, outWdata, outWstrb := false, false, 0, 0, 0;
      IdleStep(Abs(), resetn, memReady, Lanes(memRdata), initOk);
      if !resetn {
        return;
      }
      var ready := InitOnce(initOk);
      if ready {
        running := true;
        ghost var started := Abs();
        assert started == old(Abs()).(initialized := true, running := true);
        outValid, outInstr, outAddr, outWdata, outWstrb := Present(memReady, memRdata);
        StartedStep(old(Abs()), memReady, Lanes(memRdata), initOk);
      }
    }

    /** init_spike_once, and the mark_failed when it does not succeed */
    method InitOnce(initOk: bool) returns (ready: bool)
      modifies this
      ensures ready == (old(initialized) || initOk)
      ensures Abs() == if ready then old(Abs()).(initialized := true) else old(Abs()).(failed := true)
    {
      hide Lanes, StrobeBits;
      if initialized {
        return true;
      }
      if !initOk {
        failed := true;
        return false;
      }
      initialized := true;
      ready := true;
    }

    /** The locked part of spike_bus_step. */
    method Present(memReady: bool, memRdata: bv32)
      returns (outValid: bool, outInstr: bool, outAddr: nat, outWdata: bv32, outWstrb: bv8)
      requires initialized && running
      modifies this
      ensures Abs() == DpiStep(old(Abs()), true, memReady, Lanes(memRdata), true).0
      ensures Bus(outValid, BusReq(outInstr, outAddr, Lanes(outWdata), StrobeBits(outWstrb)))
           == DpiStep(old(Abs()), true, memReady, Lanes(memRdata), true).1
    {
      hide Lanes, StrobeBits;
      ZeroBits();
      outValid, outInstr, outAddr, outWdata, outWstrb := false, false, 0, 0, 0;
      if waitReadyLow {
        if !memReady {
          waitReadyLow := false;
        }
        return;
      }
      if !reqValid {
        return;
      }
      outValid, outInstr, outAddr, outWdata, outWstrb := true, reqInstr, reqAddr, reqWdata, reqWstrb;
      if memReady && !responseReady {
        reqRdata := memRdata;
        responseReady := true;
        waitReadyLow := true;
      }
    }
  }

  /** In reset, or when Spike cannot be set up, a step drives nothing. */
  lemma IdleStep(c: Ctx, resetn: bool, ready: bool, rdata: Word, initOk: bool)
    ensures !resetn ==> DpiStep(c, resetn, ready, rdata, initOk) == (c, Bus(false, NO_REQ))
    ensures resetn && !c.initialized && !initOk ==>
              DpiStep(c, resetn, ready, rdata, initOk) == (c.(failed := true), Bus(false, NO_REQ))
  {
  }

  /** Once Spike is set up, a step is that of a running context. */
  lemma StartedStep(c: Ctx, ready: bool, rdata: Word, initOk: bool)
    requires c.initialized || initOk
    ensures DpiStep(c, true, ready, rdata, initOk)
            == DpiStep(c.(initialized := true, running := true), true, ready, rdata, true)
  {
  }

  /** picosoc_mem: the array is read and written at the edge, the read seeing the old word. */
  class PicosocMem {
    const mem: array<Word>
    var rdata: Word

    constructor (words: array<Word>)
      ensures mem == words && rdata == ZERO_WORD
    {
      mem := words;
      rdata := ZERO_WORD;
    }

    method PosEdge(wen: Strobe, addr: nat, wdata: Word, undefRead: Word)
      modifies this, mem
      ensures rdata == old(if addr < mem.Length then mem[addr] else undefRead)
      ensures mem[..] == old(if addr < mem.Length then mem[..][addr := Merge(mem[addr], wdata, wen)] else mem[..])
    {
      if addr >= mem.Length {
        rdata := undefRead;
        return;
      }
      rdata := mem[addr];
      if wen.s0 {
        mem[addr] := mem[addr].(b0 := wdata.b0);
      }
      if wen.s1 {
        mem[addr] := mem[addr].(b1 := wdata.b1);
      }
      if wen.s2 {
        mem[addr] := mem[addr].(b2 := wdata.b2);
      }
      if wen.s3 {
        mem[addr] := mem[addr].(b3 := wdata.b3);
      }
    }
  }

  /** The registers of tb_picosoc_soc. */
  class Testbench {
    var prevIomemFire: bool
    var finishPending: bool
    var finishPendingCode: int
    var finishDelay: int
    var simDone: bool
    var timedOut: bool
    var ramReadCount: nat
    var ramWriteCount: nat

    function Abs(): Tb
      reads this
    {
      Tb(prevIomemFire, finishPending, finishPendingCode, finishDelay, simDone, timedOut, ramReadCount, ramWriteCount)
    }

    constructor ()
      ensures Abs() == Init([]).tb
    {
      prevIomemFire, finishPending, finishPendingCode, finishDelay := false, false, 0, -1;
      simDone, timedOut, ramReadCount, ramWriteCount := false, false, 0, 0;
    }

    method HandleMmio(value: bv8)
      modifies this
      ensures Abs() == HandleSimMmio(old(Abs()), value)
    {
      if value == PASS {
        finishPending := true;
        finishPendingCode := 0;
        finishDelay := -1;
      } else if value == FAIL {
        finishPending := true;
        finishPendingCode := 1;
        finishDelay := -1;
      } else if value == FINISH {
        finishPending := true;
        finishPendingCode := 0;
        finishDelay := -1;
      } else if value == QUIT {
        if finishPending {
          finishDelay := 3;
        }
      }
    }

    method FinishSoc(code: int, ctx: Context)
      modifies this, ctx
      ensures Abs() == old(Abs()).(done := true)
      ensures ctx.Abs() == if old(simDone) then old(ctx.Abs()) else FinishCtx(old(ctx.Abs()), code)
    {
      if !simDone {
        simDone := true;
        ctx.Finish(code);
      }
    }

    /** The posedge block, on the wires as they are before the edge. */
    method PosEdge(fire: bool, isMmio: bool, value: bv8, ramAcked: bool, isRead: bool, resetn: bool, ctx: Context)
      requires !simDone
      modifies this, ctx
      ensures var step := Settle(Observe(old(Abs()), fire, isMmio, value, ramAcked, isRead), resetn && old(ctx.failed));
              && Abs() == step.0
              && ctx.Abs() == if step.1.Some? then FinishCtx(old(ctx.Abs()), step.1.value) else old(ctx.Abs())
    {
      hide Lanes, StrobeBits;
      hide HandleSimMmio, Observe;
      Detect(fire, isMmio, value, ramAcked, isRead);
      CountDown(resetn, ctx);
    }

    method Detect(fire: bool, isMmio: bool, value: bv8, ramAcked: bool, isRead: bool)
      modifies this
      ensures Abs() == Observe(old(Abs()), fire, isMmio, value, ramAcked, isRead)
      ensures simDone == old(simDone)
    {
      hide HandleSimMmio;
      var fireNew := fire && !prevIomemFire;
      if fireNew {
        if isMmio {
          HandleMmio(value);
        }
      }
      HandlingIsLocal(old(Abs()), value);
      prevIomemFire := fire;
      if ramAcked {
        if isRead {
          ramReadCount := ramReadCount + 1;
        } else {
          ramWriteCount := ramWriteCount + 1;
        }
      }
    }

    method CountDown(resetn: bool, ctx: Context)
      requires !simDone
      modifies this, ctx
      ensures var step := Settle(old(Abs()), resetn && old(ctx.failed));
              && Abs() == step.0
              && ctx.Abs() == if step.1.Some? then FinishCtx(old(ctx.Abs()), step.1.value) else old(ctx.Abs())
    {
      hide Lanes, StrobeBits;
      if resetn && ctx.failed {
        FinishSoc(1, ctx);
      }
      if finishPending && !simDone && finishDelay >= 0 {
        if finishDelay > 0 {
          finishDelay := finishDelay - 1;
        } else {
          FinishSoc(finishPendingCode, ctx);
        }
      }
    }
  }

  /** Handling a word touches neither the counters nor the edge detector, so their order is free. */
  lemma HandlingIsLocal(tb: Tb, value: bv8)
    ensures forall r, w :: HandleSimMmio(tb.(ramReads := r, ramWrites := w), value)
                           == HandleSimMmio(tb, value).(ramReads := r, ramWrites := w)
    ensures var now := HandleSimMmio(tb, value);
            now.ramReads == tb.ramReads && now.ramWrites == tb.ramWrites && now.done == tb.done
  {
  }

  /** The assembled SoC: spike_bus_master's registers, picosoc's decode and ram_ready, the memory,
      the testbench and the context they drive. */
  class Soc {
    const ctx: Context
    const memory: PicosocMem
    const tb: Testbench
    var memValid: bool
    var memInstr: bool
    var memAddr: nat
    var memWdata: bv32
    var memWstrb: bv8
    var ramReady: bool
    var resetn: bool
    var edges: nat
    ghost var phase: Phase
    ghost var hist: Hist

    function BusView(): Bus
      reads this
    {
      Bus(memValid, BusReq(memInstr, memAddr, Lanes(memWdata), StrobeBits(memWstrb)))
    }

    function RamView(): Ram
      reads this, memory, memory.mem
    {
      Ram(ramReady, memory.rdata, memory.mem[..])
    }

    ghost function Abs(): World
      reads this, ctx, memory, memory.mem, tb
    {
      World(ctx.Abs(), phase, resetn, edges, BusView(), RamView(), tb.Abs(), hist)
    }

    constructor (words: array<Word>)
      ensures Abs() == Init(words[..]) && memory.mem == words
    {
      ctx := new Context();
      memory := new PicosocMem(words);
      tb := new Testbench();
      memValid, memInstr, memAddr, memWdata, memWstrb := false, false, 0, 0, 0;
      ramReady, resetn, edges := false, false, 0;
      phase, hist := NotStarted, Hist([], [], []);
      new;
    }

    /** The combinational wires of picosoc and the testbench. */
    method ReadWires(e: Env) returns (x: Wires)
      ensures x == WiresOf(Abs(), e)
    {
      hide Lanes, StrobeBits;
      var wdata, wstrb := Lanes(memWdata), StrobeBits(memWstrb);
      var ramSel := memValid && memAddr >= RAM_BASE && memAddr < RAM_BASE + 4 * MEM_WORDS;
      var simMmioSel := memValid && memAddr == SIM_MMIO;
      var externalSel := memValid && !ramSel && !simMmioSel && (memAddr / 0x100_0000) % 0x100 > 1;
      var iomemValid := simMmioSel || externalSel;
      var spiReady := memValid && !ramSel && !simMmioSel && memAddr < 0x200_0000 && e.spiReady;
      var cfgSel := memValid && memAddr == 0x200_0000;
      var divSel := memValid && memAddr == 0x200_0004;
      var datSel := memValid && memAddr == 0x200_0008;
      var memReady := iomemValid || spiReady || ramReady || cfgSel || divSel || (datSel && !e.uartWait);
      var rdata := if iomemValid then ZERO_WORD
                   else if spiReady then e.spiRdata
                   else if ramReady then memory.rdata
                   else if cfgSel then e.cfgRdata
                   else if divSel then e.divRdata
                   else if datSel then e.datRdata
                   else ZERO_WORD;
      x := Wires(memReady, rdata, memValid && !memReady && ramSel, memValid && memReady && ramSel,
                 iomemValid && wstrb != NO_LANES, wdata, wstrb);
    }

    /** picosoc_mem and ram_ready */
    method LatchMemory(x: Wires, e: Env)
      modifies this`ramReady, memory, memory.mem
      ensures RamView() == RamStep(old(RamView()), x.access, RamIndex(memAddr), x.wdata, x.wstrb, e.undefRead)
    {
      hide RamIndex, Merge;
      ghost var was := RamView();
      memory.PosEdge(if x.access then x.wstrb else NO_LANES, RamIndex(memAddr), x.wdata, e.undefRead);
      ramReady := x.access;
      if RamIndex(memAddr) < |was.mem| && !x.access {
        MergeNothing(was.mem[RamIndex(memAddr)], x.wdata);
        assert memory.mem[..] == was.mem;
      }
    }

    /** spike_bus_master */
    method LatchMaster(x: Wires, e: Env)
      modifies this`memValid, this`memInstr, this`memAddr, this`memWdata, this`memWstrb, ctx
      ensures ctx.Abs() == DpiStep(old(ctx.Abs()), resetn, old(memValid) && x.ready, x.rdata, e.initOk).0
      ensures BusView() == DpiStep(old(ctx.Abs()), resetn, old(memValid) && x.ready, x.rdata, e.initOk).1
    {
      hide Lanes, StrobeBits, FromLanes;
      LanesOfFromLanes(x.rdata);
      ZeroBits();
      var outValid, outInstr, outAddr, outWdata, outWstrb :=
        ctx.Step(resetn, memValid && x.ready, FromLanes(x.rdata), e.initOk);
      if !resetn {
        memValid, memInstr, memAddr, memWdata, memWstrb := false, false, 0, 0, 0;
      } else {
        memValid, memInstr, memAddr, memWdata, memWstrb := outValid, outInstr, outAddr, outWdata, outWstrb;
      }
    }

    /** Both, on the wires read before the edge. */
    method LatchBus(x: Wires, e: Env)
      requires x == WiresOf(Abs(), e)
      modifies this`ramReady, this`memValid, this`memInstr, this`memAddr, this`memWdata, this`memWstrb
      modifies memory, memory.mem, ctx
      ensures RamView() == RamEdge(old(Abs()), e)
      ensures var dpi := DpiStep(old(ctx.Abs()), resetn, Response(old(Abs()), e), x.rdata, e.initOk);
              ctx.Abs() == dpi.0 && BusView() == dpi.1
    {
      hide Lanes, StrobeBits, RamStep, InRam, InIomem, InSpi, RamIndex, MemReady, MemRdata, DpiStep;
      LatchMemory(x, e);
      LatchMaster(x, e);
    }

    /** The testbench block; `w` is the SoC before the edge. */
    method RunTestbench(x: Wires, isMmio: bool, ghost w: World, ghost e: Env)
      requires x == WiresOf(w, e) && isMmio == (w.bus.req.addr == SIM_MMIO)
      requires tb.Abs() == w.tb && !tb.simDone && resetn == w.resetn
      modifies tb, ctx
      ensures (tb.Abs(), ctx.Abs()) == TbOutcome(w, e, old(ctx.Abs()))
      ensures ctx.running == old(ctx.running)
    {
      hide Lanes, StrobeBits, InRam, InIomem, InSpi, MemReady, MemRdata, Observe, Settle;
      tb.PosEdge(x.fire, isMmio, x.wdata.b0, x.acked, x.wstrb == NO_LANES, resetn, ctx);
    }

    /** One posedge: the wires are read first, then every block updates its own registers. */
    method PosEdge(e: Env)
      requires !tb.simDone
      modifies this, ctx, memory, memory.mem, tb
      ensures Abs() == Edge(old(Abs()), e)
    {
      hide Lanes, StrobeBits, RamEdge, InRam, InIomem, InSpi, RamIndex, MemReady, MemRdata, TbOutcome, DpiStep, Edge;
      ghost var was := Abs();
      var x := ReadWires(e);
      var isMmio := memAddr == SIM_MMIO;
      var handles := x.fire && !tb.prevIomemFire && isMmio;
      LatchBus(x, e);
      RunTestbench(x, isMmio, was, e);
      phase := if ctx.running && phase.NotStarted? then Top else phase;
      edges := edges + 1;
      hist := if handles then hist.(handled := hist.handled + [x.wdata]) else hist;
      Assemble(was, e, Abs());
    }

    /** The worker's half-steps of issue_bus_request, as the worker thread takes them. */
    method IssueBusRequest(c: Call)
      requires IssueEnabled(Abs(), c)
      modifies this, ctx
      ensures Abs() == Issue(old(Abs()), c)
    {
      hide Lanes, StrobeBits, Encode;
      var accepted := ctx.Submit(c);
      phase := if accepted then Waiting(c, phase.budget - 1) else InStep(phase.budget - 1);
      hist := if accepted then hist.(issued := hist.issued + [c]) else hist;
    }

    method AwaitReply(c: Call) returns (ok: bool, bytes: seq<bv8>)
      requires ConsumeEnabled(Abs()) && c == phase.call
      modifies this, ctx
      ensures Abs() == Consume(old(Abs()))
      ensures ok ==> Abs().hist.completed == old(Abs()).hist.completed + [Done(c, bytes)]
      ensures !ok ==> Abs().hist == old(Abs()).hist
    {
      hide Lanes, StrobeBits, Encode, ReplyBytes;
      ok, bytes := ctx.Collect(c);
      phase := InStep(phase.budget);
      hist := if ok then hist.(completed := hist.completed + [Done(c, bytes)]) else hist;
    }
  }

  /** The wires a posedge block reads. */
  datatype Wires = Wires(ready: bool, rdata: Word, access: bool, acked: bool, fire: bool, wdata: Word, wstrb: Strobe)

  function WiresOf(w: World, e: Env): Wires {
    Wires(MemReady(w, e), MemRdata(w, e), w.bus.valid && !MemReady(w, e) && RamSel(w),
          w.bus.valid && MemReady(w, e) && RamSel(w), Fire(w), w.bus.req.wdata, w.bus.req.wstrb)
  }

  function TbOutcome(w: World, e: Env, ctx: Ctx): (Tb, Ctx) {
    var step := TbEdge(w, e, ctx.failed);
    (step.0, if step.1.Some? then FinishCtx(ctx, step.1.value) else ctx)
  }

  lemma Assemble(w: World, e: Env, now: World)
    requires !w.tb.done
    requires var dpi := DpiStep(w.ctx, w.resetn, Response(w, e), MemRdata(w, e), e.initOk);
             && (now.tb, now.ctx) == TbOutcome(w, e, dpi.0) && now.bus == dpi.1
             && now.phase == if dpi.0.running && w.phase.NotStarted? then Top else w.phase
    requires now.resetn == w.resetn && now.edges == w.edges + 1 && now.ram == RamEdge(w, e)
    requires now.hist == if Handles(w) then w.hist.(handled := w.hist.handled + [w.bus.req.wdata]) else w.hist
    ensures now == Edge(w, e)
  {
    hide RamEdge, TbEdge, DpiStep, MemReady, MemRdata, Fire, Response, Handles;
  }

  lemma MergeNothing(was: Word, data: Word)
    ensures Merge(was, data, NO_LANES) == was
  {
  }
}
