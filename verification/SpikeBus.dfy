/** The simulator-driven SoC as a transition system: the Spike worker thread and its request slot
    (spike_bus_dpi.cc), the registered bus master (spike_bus_master.sv), the address decode and RAM
    (picosoc.v) and the testbench (tb_picosoc_soc.sv).

    A worker step is one critical section of the worker thread; a clock edge is one posedge, at which
    every block reads the values from before the edge. */
module SpikeBus {
  import opened ByteLanes
  import opened Options
  import opened SimMarkers

  const MAX_STEPS: nat := 2000000
  const RAM_BASE: nat := 0x8000_0000
  const MEM_WORDS: nat := 32768
  const RESET_EDGES: nat := 8
  const TIMEOUT_EDGES: nat := 4000000

  // ---------------------------------------------------------------- requests

  /** One call of issue_bus_request: a store carries its bytes, a load or fetch does not. */
  datatype Call = Call(addr: nat, len: nat, store: Option<seq<bv8>>)

  /** A call that has returned true, with the bytes it stored or loaded. */
  datatype Done = Done(call: Call, bytes: seq<bv8>)

  /** What a call puts on the bus. */
  datatype BusReq = BusReq(instr: bool, addr: nat, wdata: Word, wstrb: Strobe)

  const NO_REQ := BusReq(false, 0, ZERO_WORD, NO_LANES)

  /** The guard at the top of issue_bus_request. */
  predicate Legal(c: Call) {
    1 <= c.len <= 4 && c.addr % 4 + c.len <= 4
  }

  predicate WellFormed(c: Call) {
    c.store.Some? ==> |c.store.value| == c.len
  }

  function Address32(c: Call): nat {
    c.addr % 0x1_0000_0000
  }

  function Encode(c: Call): BusReq {
    var lane := c.addr % 4;
    BusReq(c.store.None?, Address32(c) - Address32(c) % 4,
           if c.store.Some? then Placed(lane, c.store.value) else ZERO_WORD,
           if c.store.Some? then Covering(lane, c.len) else NO_LANES)
  }

  // ---------------------------------------------------------------- address decode

  predicate InRam(a: nat) {
    RAM_BASE <= a < RAM_BASE + 4 * MEM_WORDS
  }

  /** iomem_valid for a valid bus: the simulation MMIO word, or external_iomem_sel. */
  predicate InIomem(a: nat) {
    a == SIM_MMIO || (!InRam(a) && (a / 0x100_0000) % 0x100 > 1)
  }

  predicate InSpi(a: nat) {
    !InRam(a) && a != SIM_MMIO && a < 0x200_0000
  }

  /** ram_byte_addr[23:2] */
  function RamIndex(a: nat): nat {
    ((a + 0x1_0000_0000 - RAM_BASE) % 0x100_0000) / 4
  }

  // ---------------------------------------------------------------- state

  /** g_ctx */
  datatype Ctx = Ctx(valid: bool, req: BusReq, rdata: Word, ready: bool,
                     failed: bool, stop: bool, waitLow: bool, steps: nat,
                     initialized: bool, running: bool, exitCode: int)

  /** Where the worker thread is. `budget` bounds the calls the current cpu step still makes. */
  datatype Phase = NotStarted | Top | InStep(budget: nat) | Waiting(call: Call, budget: nat) | Returned

  /** The output registers of spike_bus_master. */
  datatype Bus = Bus(valid: bool, req: BusReq)

  datatype Ram = Ram(ready: bool, rdata: Word, mem: seq<Word>)

  /** The testbench registers; `delay` is finish_delay. */
  datatype Tb = Tb(prevFire: bool, pending: bool, code: int, delay: int, done: bool, timedOut: bool,
                   ramReads: nat, ramWrites: nat)

  /** What has happened so far: calls put in the request slot, calls returned true, words handed
      to handle_sim_mmio. */
  datatype Hist = Hist(issued: seq<Call>, completed: seq<Done>, handled: seq<Word>)

  datatype World = World(ctx: Ctx, phase: Phase, resetn: bool, edges: nat,
                         bus: Bus, ram: Ram, tb: Tb, hist: Hist)

  function Init(mem: seq<Word>): World {
    World(Ctx(false, NO_REQ, ZERO_WORD, false, false, false, false, 0, false, false, 0),
          NotStarted, false, 0, Bus(false, NO_REQ), Ram(false, ZERO_WORD, mem),
          Tb(false, false, 0, -1, false, false, 0, 0), Hist([], [], []))
  }

  // ---------------------------------------------------------------- worker steps

  /** The critical section at the top of the loop in run_spike. */
  function BeginStep(w: World, budget: nat): World
    requires w.phase.Top?
  {
    if w.ctx.stop || w.ctx.failed then
      w.(phase := Returned)
    else if w.ctx.steps >= MAX_STEPS then
      w.(phase := Returned, ctx := w.ctx.(failed := true, exitCode := 1))
    else
      w.(phase := InStep(budget))
  }

  /** The request slot once it has taken a call. */
  function Accept(ctx: Ctx, c: Call): Ctx {
    ctx.(valid := true, req := Encode(c), rdata := ZERO_WORD, ready := false)
  }

  /** issue_bus_request up to its second wait. */
  function Issue(w: World, c: Call): World
    requires w.phase.InStep? && w.phase.budget > 0
  {
    var rest := w.phase.budget - 1;
    if !Legal(c) || w.ctx.stop || w.ctx.failed then
      w.(phase := InStep(rest))
    else
      w.(phase := Waiting(c, rest), ctx := Accept(w.ctx, c),
         hist := w.hist.(issued := w.hist.issued + [c]))
  }

  predicate IssueEnabled(w: World, c: Call) {
    && w.phase.InStep? && w.phase.budget > 0 && WellFormed(c)
    && (!Legal(c) || !w.ctx.valid || w.ctx.stop)
  }

  /** The bytes a call that returns true stored or loaded. */
  function ReplyBytes(c: Call, rdata: Word): seq<bv8>
    requires Legal(c)
  {
    if c.store.Some? then c.store.value else Extract(rdata, c.addr % 4, c.len)
  }

  /** issue_bus_request from its second wait to its return. */
  function Consume(w: World): World
    requires w.phase.Waiting? && Legal(w.phase.call)
  {
    var c := w.phase.call;
    if w.ctx.failed || (!w.ctx.ready && w.ctx.stop) then
      w.(phase := InStep(w.phase.budget))
    else
      w.(phase := InStep(w.phase.budget),
         ctx := w.ctx.(valid := false, ready := false),
         hist := w.hist.(completed := w.hist.completed + [Done(c, ReplyBytes(c, w.ctx.rdata))]))
  }

  predicate ConsumeEnabled(w: World) {
    w.phase.Waiting? && Legal(w.phase.call) && (w.ctx.ready || w.ctx.stop || w.ctx.failed)
  }

  function EndStep(w: World): World
    requires w.phase.InStep?
  {
    w.(phase := Top, ctx := w.ctx.(steps := w.ctx.steps + 1))
  }

  /** An exception escapes the cpu step: mark_failed, and the thread ends. */
  function Throw(w: World): World
    requires w.phase.InStep?
  {
    w.(phase := Returned, ctx := w.ctx.(failed := true))
  }

  // ---------------------------------------------------------------- one clock edge

  /** What the blocks outside the model do during one edge: whether Spike can be set up, the
      SPI flash reply, the UART wait and register values, and an out-of-range memory read. */
  datatype Env = Env(initOk: bool, spiReady: bool, spiRdata: Word, uartWait: bool,
                     cfgRdata: Word, divRdata: Word, datRdata: Word, undefRead: Word)

  predicate RamSel(w: World) {
    w.bus.valid && InRam(w.bus.req.addr)
  }

  /** iomem_valid, which is also iomem_ready */
  predicate IomemValid(w: World) {
    w.bus.valid && InIomem(w.bus.req.addr)
  }

  /** The SPI block answers only while it is addressed. */
  predicate SpiReady(w: World, e: Env) {
    w.bus.valid && InSpi(w.bus.req.addr) && e.spiReady
  }

  predicate RegSel(w: World, offset: nat) {
    w.bus.valid && w.bus.req.addr == 0x200_0000 + offset
  }

  predicate MemReady(w: World, e: Env) {
    IomemValid(w) || SpiReady(w, e) || w.ram.ready || RegSel(w, 0) || RegSel(w, 4)
    || (RegSel(w, 8) && !e.uartWait)
  }

  function MemRdata(w: World, e: Env): Word {
    if IomemValid(w) then ZERO_WORD
    else if SpiReady(w, e) then e.spiRdata
    else if w.ram.ready then w.ram.rdata
    else if RegSel(w, 0) then e.cfgRdata
    else if RegSel(w, 4) then e.divRdata
    else if RegSel(w, 8) then e.datRdata
    else ZERO_WORD
  }

  /** spike_bus_step: the new context, and the bus output it produces. */
  function DpiStep(c: Ctx, resetn: bool, ready: bool, rdata: Word, initOk: bool): (Ctx, Bus) {
    var none := Bus(false, NO_REQ);
    if !resetn then (c, none)
    else if !c.initialized && !initOk then (c.(failed := true), none)
    else
      var s := c.(initialized := true, running := true);
      if s.waitLow then (s.(waitLow := ready), none)
      else if !s.valid then (s, none)
      else if ready && !s.ready then
        (s.(rdata := rdata, ready := true, waitLow := true), Bus(true, s.req))
      else (s, Bus(true, s.req))
  }

  /** ram_ready and picosoc_mem, which reads the old word whether or not it is accessed. */
  function RamStep(ram: Ram, access: bool, i: nat, wdata: Word, wstrb: Strobe, undefRead: Word): Ram {
    Ram(access,
        if i < |ram.mem| then ram.mem[i] else undefRead,
        if access && i < |ram.mem| then ram.mem[i := Merge(ram.mem[i], wdata, wstrb)] else ram.mem)
  }

  function RamEdge(w: World, e: Env): Ram {
    RamStep(w.ram, w.bus.valid && !MemReady(w, e) && RamSel(w), RamIndex(w.bus.req.addr),
            w.bus.req.wdata, w.bus.req.wstrb, e.undefRead)
  }

  /** iomem_fire */
  predicate Fire(w: World) {
    IomemValid(w) && AnyLane(w.bus.req.wstrb)
  }

  predicate Handles(w: World) {
    Fire(w) && !w.tb.prevFire && w.bus.req.addr == SIM_MMIO
  }

  function HandleSimMmio(tb: Tb, value: bv8): Tb {
    if value == PASS || value == FINISH then tb.(pending := true, code := 0, delay := -1)
    else if value == FAIL then tb.(pending := true, code := 1, delay := -1)
    else if value == QUIT && tb.pending then tb.(delay := 3)
    else tb
  }

  /** What finish_soc(code) does to the context; the testbench sets sim_done itself. */
  function FinishCtx(c: Ctx, code: int): Ctx {
    c.(exitCode := code, stop := true)
  }

  /** The first half of the testbench's posedge block: the MMIO edge detector and the counters. */
  function Observe(tb: Tb, fire: bool, isMmio: bool, value: bv8, acked: bool, isRead: bool): Tb {
    var counted := if acked && isRead then tb.(ramReads := tb.ramReads + 1)
                   else if acked then tb.(ramWrites := tb.ramWrites + 1)
                   else tb;
    var handled := fire && !tb.prevFire && isMmio;
    (if handled then HandleSimMmio(counted, value) else counted).(prevFire := fire)
  }

  /** The second half: failure and countdown; Some(code) when it calls finish_soc(code). */
  function Settle(t0: Tb, broken: bool): (Tb, Option<int>) {
    if broken then
      (t0.(done := true), Some(1))
    else if t0.pending && t0.delay > 0 then
      (t0.(delay := t0.delay - 1), None)
    else if t0.pending && t0.delay == 0 then
      (t0.(done := true), Some(t0.code))
    else
      (t0, None)
  }

  function TbEdge(w: World, e: Env, failed: bool): (Tb, Option<int>) {
    Settle(Observe(w.tb, Fire(w), w.bus.req.addr == SIM_MMIO, w.bus.req.wdata.b0,
                   w.bus.valid && MemReady(w, e) && RamSel(w), !AnyLane(w.bus.req.wstrb)),
           w.resetn && failed)
  }

  function Response(w: World, e: Env): bool {
    w.bus.valid && MemReady(w, e)
  }

  function Edge(w: World, e: Env): World
    requires !w.tb.done
  {
    var (ctx, bus) := DpiStep(w.ctx, w.resetn, Response(w, e), MemRdata(w, e), e.initOk);
    var (tb, code) := TbEdge(w, e, ctx.failed);
    w.(ctx := if code.Some? then FinishCtx(ctx, code.value) else ctx,
       phase := if ctx.running && w.phase.NotStarted? then Top else w.phase,
       edges := w.edges + 1, bus := bus, ram := RamEdge(w, e), tb := tb,
       hist := if Handles(w) then w.hist.(handled := w.hist.handled + [w.bus.req.wdata]) else w.hist)
  }

  /** The testbench's timeout block. */
  function Timeout(w: World): World {
    w.(tb := w.tb.(done := true, timedOut := true), ctx := FinishCtx(w.ctx, 1))
  }

  // ---------------------------------------------------------------- runs

  datatype Label =
    | ReleaseReset
    | ClockEdge(env: Env)
    | TimeoutFires
    | Begin(budget: nat)
    | CallBus(call: Call)
    | Wake
    | End
    | Escape

  predicate CanStep(w: World, l: Label) {
    match l
    case ReleaseReset => w.edges >= RESET_EDGES
    case ClockEdge(_) => !w.tb.done
    case TimeoutFires => w.edges >= TIMEOUT_EDGES && !w.tb.done
    case Begin(_) => w.phase.Top?
    case CallBus(c) => IssueEnabled(w, c)
    case Wake => ConsumeEnabled(w)
    case End => w.phase.InStep?
    case Escape => w.phase.InStep?
  }

  function Step(w: World, l: Label): World
    requires CanStep(w, l)
  {
    match l
    case ReleaseReset => w.(resetn := true)
    case ClockEdge(e) => Edge(w, e)
    case TimeoutFires => Timeout(w)
    case Begin(n) => BeginStep(w, n)
    case CallBus(c) => Issue(w, c)
    case Wake => Consume(w)
    case End => EndStep(w)
    case Escape => Throw(w)
  }

  predicate WorkerLabel(l: Label) {
    l.Begin? || l.CallBus? || l.Wake? || l.End? || l.Escape?
  }

  /** The scheduling assumption (S): no clock edge reaches the presentation of the request slot
      while the slot still holds an answered request. */
  predicate Prompt(w: World, l: Label) {
    l.ClockEdge? ==> !(w.resetn && !w.ctx.waitLow && w.ctx.valid && w.ctx.ready)
  }

  /** A sequence of enabled steps from w. */
  predicate Run(w: World, ls: seq<Label>)
    decreases |ls|, 0
  {
    ls == [] || (Run(w, ls[..|ls| - 1]) && CanStep(Exec(w, ls[..|ls| - 1]), ls[|ls| - 1]))
  }

  function Exec(w: World, ls: seq<Label>): World
    requires Run(w, ls)
    decreases |ls|, 1
  {
    if ls == [] then w else Step(Exec(w, ls[..|ls| - 1]), ls[|ls| - 1])
  }

  predicate PromptRun(w: World, ls: seq<Label>)
    requires Run(w, ls)
  {
    ls == [] || (PromptRun(w, ls[..|ls| - 1]) && Prompt(Exec(w, ls[..|ls| - 1]), ls[|ls| - 1]))
  }

  // ---------------------------------------------------------------- the simple views

  predicate RamCall(c: Call) {
    Legal(c) && WellFormed(c) && InRam(Encode(c).addr)
  }

  predicate IoCall(c: Call) {
    Legal(c) && WellFormed(c) && InIomem(Encode(c).addr)
  }

  predicate MmioStore(c: Call) {
    Legal(c) && WellFormed(c) && c.store.Some? && Encode(c).addr == SIM_MMIO
  }

  /** The byte offset of a RAM call. */
  function Offset(c: Call): nat
    requires RamCall(c)
  {
    Address32(c) - RAM_BASE
  }

  lemma OffsetFits(c: Call)
    requires RamCall(c)
    ensures RAM_BASE <= Address32(c)
    ensures RamIndex(Encode(c).addr) < MEM_WORDS
    ensures Offset(c) == 4 * RamIndex(Encode(c).addr) + c.addr % 4
    ensures Offset(c) + c.len <= 4 * MEM_WORDS
  {
    var a := Encode(c).addr;
    assert Address32(c) % 4 == c.addr % 4;
    assert a % 4 == 0;
    var d := a - RAM_BASE;
    assert a + 0x1_0000_0000 - RAM_BASE == d + 256 * 0x100_0000;
    assert (d + 256 * 0x100_0000) % 0x100_0000 == d;
  }
}
