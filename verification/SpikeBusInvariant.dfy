/** What every step of the SoC keeps, as long as clock edges respect the scheduling assumption. */
module SpikeBusInvariant {
  import opened ByteLanes
  import opened Options
  import opened SimMarkers
  import opened SpikeBus

  // ---------------------------------------------------------------- the atomic memory

  /** The effect of a call on the RAM bytes when it happens in one piece. */
  function Apply(m: seq<bv8>, c: Call): (r: seq<bv8>)
    ensures |r| == |m|
  {
    if RamCall(c) && c.store.Some? && Offset(c) + c.len <= |m|
    then StoreBytes(m, Offset(c), c.store.value) else m
  }

  function Replay(m: seq<bv8>, ds: seq<Done>): (r: seq<bv8>)
    ensures |r| == |m|
  {
    if ds == [] then m else Apply(Replay(m, ds[..|ds| - 1]), ds[|ds| - 1].call)
  }

  /** What an atomic byte memory returns for a call. */
  predicate AtomicReply(m: seq<bv8>, d: Done) {
    && Legal(d.call) && WellFormed(d.call)
    && (d.call.store.Some? ==> d.bytes == d.call.store.value)
    && (d.call.store.None? ==> |d.bytes| == d.call.len)
    && (d.call.store.None? && RamCall(d.call) && |m| == 4 * MEM_WORDS ==>
          Offset(d.call) + d.call.len <= |m| && d.bytes == LoadBytes(m, Offset(d.call), d.call.len))
    && (d.call.store.None? && IoCall(d.call) ==> forall b | b in d.bytes :: b == 0)
  }

  predicate AtomicTrace(m: seq<bv8>, ds: seq<Done>) {
    forall i | 0 <= i < |ds| :: AtomicReply(Replay(m, ds[..i]), ds[i])
  }

  function Calls(ds: seq<Done>): seq<Call> {
    seq(|ds|, i requires 0 <= i < |ds| => ds[i].call)
  }

  /** The words that the stores among cs send to the simulation MMIO address. */
  function MmioWords(cs: seq<Call>): seq<Word> {
    if cs == [] then []
    else
      var c := cs[|cs| - 1];
      MmioWords(cs[..|cs| - 1]) + if MmioStore(c) then [Encode(c).wdata] else []
  }

  /** The exit code announced by the last status marker among the handled words. */
  function LastStatus(ws: seq<Word>): Option<int> {
    if ws == [] then None
    else
      var b := ws[|ws| - 1].b0;
      if b == 0x83 || b == 0x81 then Some(0)
      else if b == 0x82 then Some(1)
      else LastStatus(ws[..|ws| - 1])
  }

  // ---------------------------------------------------------------- the invariant

  function Pending(w: World): Call
    requires |w.hist.issued| > 0
  {
    w.hist.issued[|w.hist.issued| - 1]
  }

  /** The first access of the pending request has reached the RAM. */
  predicate Applied(w: World) {
    w.ctx.valid && (w.ctx.ready || (w.bus.valid && !w.ctx.waitLow && w.ram.ready))
  }

  predicate InvSlot(w: World) {
    && w.ctx.steps <= MAX_STEPS && (w.phase.InStep? || w.phase.Waiting? ==> w.ctx.steps < MAX_STEPS)
    && (w.ctx.ready ==> w.ctx.valid)
    && (w.ctx.valid ==> |w.hist.issued| > 0 && Legal(Pending(w)) && WellFormed(Pending(w))
                        && w.ctx.req == Encode(Pending(w)))
    && (w.phase.Waiting? ==> w.ctx.valid && w.phase.call == Pending(w))
    && (!w.phase.Waiting? && !w.ctx.stop ==> !w.ctx.valid)
    && (w.ctx.failed ==> w.phase.NotStarted? || w.phase.Top? || w.phase.Returned?)
    && (w.phase.NotStarted? <==> !w.ctx.running)
    && (w.ctx.running ==> w.ctx.initialized && w.resetn)
    && (!w.ctx.running ==> !w.ctx.valid && !w.bus.valid && !w.ctx.waitLow)
    && Calls(w.hist.completed)
       == (if w.ctx.valid then w.hist.issued[..|w.hist.issued| - 1] else w.hist.issued)
  }

  predicate InvBus(w: World) {
    && |w.ram.mem| == MEM_WORDS
    && (w.bus.valid && !w.ctx.waitLow ==> w.ctx.valid && !w.ctx.ready && w.bus.req == w.ctx.req)
    && (w.ctx.waitLow ==> !w.ram.ready)
    && (w.bus.valid && w.ram.ready ==> InRam(w.bus.req.addr))
    && (w.bus.valid && InRam(w.bus.req.addr) ==> RamIndex(w.bus.req.addr) < MEM_WORDS)
    && (w.bus.valid && InRam(w.bus.req.addr) && (w.ctx.waitLow || w.ram.ready) ==>
          var was := w.ram.mem[RamIndex(w.bus.req.addr)];
          Merge(was, w.bus.req.wdata, w.bus.req.wstrb) == was)
    && (w.bus.valid && w.ram.ready && w.bus.req.wstrb == NO_LANES ==>
          w.ram.rdata == w.ram.mem[RamIndex(w.bus.req.addr)])
    && (w.ctx.ready && w.ctx.req.wstrb == NO_LANES && InRam(w.ctx.req.addr) ==>
          RamIndex(w.ctx.req.addr) < MEM_WORDS && w.ctx.rdata == w.ram.mem[RamIndex(w.ctx.req.addr)])
    && (w.ctx.ready && InIomem(w.ctx.req.addr) ==> w.ctx.rdata == ZERO_WORD)
  }

  predicate InvMem(m: seq<bv8>, w: World) {
    && |m| == 4 * MEM_WORDS
    && AtomicTrace(m, w.hist.completed)
    && Flatten(w.ram.mem)
       == (if Applied(w) && |w.hist.issued| > 0 then Apply(Replay(m, w.hist.completed), Pending(w))
           else Replay(m, w.hist.completed))
  }

  predicate InvFire(w: World) {
    && (w.bus.valid && !w.ctx.waitLow ==> !w.tb.prevFire)
    && (w.bus.valid && w.ctx.waitLow && Fire(w) ==> w.tb.prevFire)
    && (!w.bus.valid && !w.ctx.waitLow ==> !w.tb.prevFire)
  }

  predicate InvHandled(w: World) {
    w.hist.handled
    == MmioWords(Calls(w.hist.completed))
       + (if w.ctx.valid && w.ctx.ready && |w.hist.issued| > 0 && MmioStore(Pending(w))
          then [w.ctx.req.wdata] else [])
  }

  predicate InvFinish(w: World) {
    && (w.tb.done <==> w.ctx.stop)
    && (w.tb.pending <==> LastStatus(w.hist.handled).Some?)
    && (w.tb.pending ==> LastStatus(w.hist.handled) == Some(w.tb.code))
    && -1 <= w.tb.delay <= 2
    && (w.tb.delay >= 0 ==>
          && w.tb.pending && |w.hist.handled| > 0
          && w.hist.handled[|w.hist.handled| - 1].b0 == 0x00)
    && (w.tb.delay == 2 && !w.tb.done ==> w.bus.valid && w.ctx.waitLow && Fire(w))
    && (w.tb.delay == 1 && !w.tb.done ==> !w.bus.valid && w.ctx.waitLow)
    && (w.tb.delay == 0 && !w.tb.done ==> !w.bus.valid && !w.ctx.waitLow)
    && (w.tb.done && !w.ctx.failed && !w.tb.timedOut ==>
          w.tb.delay == 0 && w.ctx.exitCode == w.tb.code)
  }

  predicate Inv(m: seq<bv8>, w: World) {
    InvSlot(w) && InvBus(w) && InvMem(m, w) && InvFire(w) && InvHandled(w) && InvFinish(w)
  }

  lemma InitInv(mem: seq<Word>)
    requires |mem| == MEM_WORDS
    ensures Inv(Flatten(mem), Init(mem))
  {
  }

  // ---------------------------------------------------------------- worker steps

  lemma {:induction false} ReplayNext(m: seq<bv8>, ds: seq<Done>, d: Done)
    ensures Replay(m, ds + [d]) == Apply(Replay(m, ds), d.call)
    ensures AtomicTrace(m, ds) && AtomicReply(Replay(m, ds), d) ==> AtomicTrace(m, ds + [d])
    ensures Calls(ds + [d]) == Calls(ds) + [d.call]
  {
    assert (ds + [d])[..|ds|] == ds;
    forall i | 0 <= i < |ds|
      ensures (ds + [d])[..i] == ds[..i]
    {
    }
  }

  lemma MmioWordsNext(cs: seq<Call>, c: Call)
    ensures MmioWords(cs + [c]) == MmioWords(cs) + if MmioStore(c) then [Encode(c).wdata] else []
  {
    assert (cs + [c])[..|cs|] == cs;
  }

  /** A call turned away changes nothing but the budget. */
  lemma RefuseKeeps(m: seq<bv8>, w: World, c: Call)
    requires Inv(m, w) && IssueEnabled(w, c) && Issue(w, c).phase.InStep?
    ensures Inv(m, Issue(w, c))
  {
    hide Calls, Replay, AtomicTrace, MmioWords, LastStatus, Flatten, Apply, Encode, Merge, InRam, InIomem, RamIndex;
    hide MmioStore;
  }

  /** An accepted call finds the slot empty. */
  lemma {:induction false} AcceptKeepsData(m: seq<bv8>, w: World, c: Call)
    requires InvSlot(w) && InvBus(w) && InvMem(m, w) && InvHandled(w)
    requires IssueEnabled(w, c) && Issue(w, c).phase.Waiting?
    ensures InvMem(m, Issue(w, c)) && InvHandled(Issue(w, c))
  {
    hide Calls, Replay, AtomicTrace, MmioWords, Flatten, Apply, Encode, Merge, InRam, InIomem, RamIndex, MmioStore;
  }

  lemma AcceptKeepsRest(w: World, c: Call)
    requires InvSlot(w) && InvBus(w) && InvFire(w) && InvFinish(w)
    requires IssueEnabled(w, c) && Issue(w, c).phase.Waiting?
    ensures var now := Issue(w, c);
            InvSlot(now) && InvBus(now) && InvFire(now) && InvFinish(now)
  {
    hide Calls, LastStatus, Encode, Merge, InRam, InIomem, RamIndex;
    var now := Issue(w, c);
    assert now.hist.issued[..|now.hist.issued| - 1] == w.hist.issued;
  }

  lemma IssueKeeps(m: seq<bv8>, w: World, c: Call)
    requires Inv(m, w) && IssueEnabled(w, c)
    ensures Inv(m, Issue(w, c))
  {
    hide InvSlot, InvBus, InvMem, InvFire, InvHandled, InvFinish, Encode, Legal;
    if Issue(w, c).phase.InStep? {
      RefuseKeeps(m, w, c);
    } else {
      AcceptKeepsData(m, w, c);
      AcceptKeepsRest(w, c);
    }
  }

  /** The reply handed over is what the atomic memory holds. */
  lemma ReplyIsAtomic(m: seq<bv8>, w: World)
    requires Inv(m, w) && w.ctx.ready && |w.hist.issued| > 0
    ensures AtomicReply(Replay(m, w.hist.completed), Done(Pending(w), ReplyBytes(Pending(w), w.ctx.rdata)))
  {
    var c := Pending(w);
    if c.store.None? && RamCall(c) {
      assert Apply(Replay(m, w.hist.completed), c) == Replay(m, w.hist.completed);
      RamReply(w.ram.mem, c, w.ctx.rdata);
    }
    if c.store.None? && IoCall(c) {
      ZeroReply(c);
    }
  }

  lemma {:induction false} RamReply(mem: seq<Word>, c: Call, rdata: Word)
    requires |mem| == MEM_WORDS && RamCall(c) && c.store.None?
    requires RamIndex(Encode(c).addr) < MEM_WORDS && rdata == mem[RamIndex(Encode(c).addr)]
    ensures Offset(c) + c.len <= 4 * MEM_WORDS
    ensures ReplyBytes(c, rdata) == LoadBytes(Flatten(mem), Offset(c), c.len)
  {
    OffsetFits(c);
    LoadIsExtract(mem, RamIndex(Encode(c).addr), c.addr % 4, c.len);
  }

  lemma ZeroReply(c: Call)
    requires Legal(c) && c.store.None?
    ensures forall b | b in ReplyBytes(c, ZERO_WORD) :: b == 0
  {
    forall b | b in ReplyBytes(c, ZERO_WORD)
      ensures b == 0
    {
      var i :| 0 <= i < c.len && ReplyBytes(c, ZERO_WORD)[i] == b;
      assert Lane(ZERO_WORD, c.addr % 4 + i) == 0;
    }
  }

  /** Handing over a reply moves the pending call to the completed ones. */
  lemma {:induction false} DeliverKeeps(m: seq<bv8>, w: World)
    requires Inv(m, w) && ConsumeEnabled(w) && w.ctx.ready
    ensures InvMem(m, Consume(w)) && InvHandled(Consume(w))
    ensures Calls(Consume(w).hist.completed) == w.hist.issued
  {
    hide Calls, Replay, AtomicTrace, AtomicReply, MmioWords, Flatten, Apply, ReplyBytes, Encode, InvBus, InvFire;
    hide InvFinish;
    var d := Done(Pending(w), ReplyBytes(Pending(w), w.ctx.rdata));
    ReplyIsAtomic(m, w);
    ReplayNext(m, w.hist.completed, d);
    MmioWordsNext(Calls(w.hist.completed), d.call);
    assert w.hist.issued == w.hist.issued[..|w.hist.issued| - 1] + [Pending(w)];
  }

  lemma DeliverKeepsRest(w: World)
    requires InvSlot(w) && InvBus(w) && InvFire(w) && InvFinish(w) && ConsumeEnabled(w) && w.ctx.ready
    requires Calls(Consume(w).hist.completed) == w.hist.issued
    ensures var now := Consume(w);
            InvSlot(now) && InvBus(now) && InvFire(now) && InvFinish(now)
  {
    hide Calls, LastStatus, ReplyBytes, Encode, Merge, InRam, InIomem, RamIndex;
  }

  /** A call that gives up leaves the slot as it is. */
  lemma AbandonKeeps(m: seq<bv8>, w: World)
    requires Inv(m, w) && ConsumeEnabled(w) && !w.ctx.ready
    ensures Inv(m, Consume(w))
  {
    hide Calls, Replay, AtomicTrace, MmioWords, LastStatus, Flatten, Apply, ReplyBytes, Encode, Merge, InRam;
    hide InIomem, RamIndex;
  }

  lemma {:induction false} ConsumeKeeps(m: seq<bv8>, w: World)
    requires Inv(m, w) && ConsumeEnabled(w)
    ensures Inv(m, Consume(w))
  {
    hide InvSlot, InvBus, InvMem, InvFire, InvHandled, InvFinish, Consume;
    if w.ctx.ready {
      DeliverKeeps(m, w);
      DeliverKeepsRest(w);
    } else {
      AbandonKeeps(m, w);
    }
  }

  lemma {:induction false} BeginKeeps(m: seq<bv8>, w: World, n: nat)
    requires Inv(m, w) && w.phase.Top?
    ensures Inv(m, BeginStep(w, n))
  {
    hide AtomicTrace, Replay, Flatten, MmioWords, LastStatus, Calls, Apply, Merge, Encode;
  }

  lemma EndKeeps(m: seq<bv8>, w: World)
    requires Inv(m, w) && w.phase.InStep?
    ensures Inv(m, EndStep(w))
  {
    hide AtomicTrace, Replay, Flatten, MmioWords, LastStatus, Calls, Apply, Merge, Encode;
  }

  lemma ThrowKeeps(m: seq<bv8>, w: World)
    requires Inv(m, w) && w.phase.InStep?
    ensures Inv(m, Throw(w))
  {
    hide AtomicTrace, Replay, Flatten, MmioWords, LastStatus, Calls, Apply, Merge, Encode;
  }

  // ---------------------------------------------------------------- the clock edge

  lemma EdgeKeepsSlot(w: World, e: Env)
    requires InvSlot(w) && !w.tb.done
    ensures InvSlot(Edge(w, e))
  {
    hide RamEdge, TbEdge, MemRdata, MemReady, Fire, Handles, Merge, Calls, Encode;
  }

  lemma EdgeKeepsBus(w: World, e: Env)
    requires InvSlot(w) && InvBus(w) && !w.tb.done && Prompt(w, ClockEdge(e))
    ensures InvBus(Edge(w, e))
  {
    hide TbEdge, Fire, Handles, Calls, Encode;
  }

  /** Only stores enable lanes. */
  lemma StoresFire(c: Call)
    requires Legal(c)
    ensures AnyLane(Encode(c).wstrb) <==> c.store.Some?
  {
  }

  lemma EdgeKeepsFire(w: World, e: Env)
    requires InvSlot(w) && InvBus(w) && InvFire(w) && !w.tb.done && Prompt(w, ClockEdge(e))
    ensures InvFire(Edge(w, e))
  {
    hide RamEdge, Merge, MmioWords, Calls, MemRdata, Encode, HandleSimMmio;
  }

  lemma EdgeKeepsHandled(w: World, e: Env)
    requires InvSlot(w) && InvBus(w) && InvFire(w) && InvHandled(w) && !w.tb.done && Prompt(w, ClockEdge(e))
    ensures InvHandled(Edge(w, e))
  {
    hide RamEdge, Merge, MmioWords, Calls, MemRdata, TbEdge;
    if w.ctx.valid {
      StoresFire(Pending(w));
      assert MmioStore(Pending(w)) <==> AnyLane(w.ctx.req.wstrb) && w.ctx.req.addr == SIM_MMIO;
    }
    hide Encode, MmioStore;
  }

  lemma LastStatusNext(ws: seq<Word>, v: Word)
    ensures LastStatus(ws + [v]) == if v.b0 == 0x83 || v.b0 == 0x81 then Some(0)
                                    else if v.b0 == 0x82 then Some(1)
                                    else LastStatus(ws)
  {
    assert (ws + [v])[..|ws|] == ws;
  }

  /** A word is handled only while no countdown runs, at the edge that captures its reply. */
  lemma HandledAtCapture(w: World, e: Env)
    requires InvSlot(w) && InvBus(w) && InvFire(w) && InvFinish(w) && !w.tb.done && Handles(w)
    ensures w.tb.delay == -1 && w.bus.valid && !w.ctx.waitLow
    ensures var now := Edge(w, e);
            now.bus == w.bus && now.ctx.waitLow && now.ctx.valid && now.ctx.ready
  {
    hide RamEdge, Merge, MmioWords, Calls, MemRdata, Encode, HandleSimMmio, LastStatus;
  }

  lemma EdgeKeepsFinishHandling(w: World, e: Env)
    requires InvSlot(w) && InvBus(w) && InvFire(w) && InvFinish(w) && !w.tb.done && Prompt(w, ClockEdge(e))
    requires Handles(w)
    ensures InvFinish(Edge(w, e))
  {
    hide RamEdge, Merge, MmioWords, Calls, MemRdata, Encode, LastStatus;
    HandledAtCapture(w, e);
    LastStatusNext(w.hist.handled, w.bus.req.wdata);
  }

  lemma EdgeKeepsFinishQuiet(w: World, e: Env)
    requires InvSlot(w) && InvBus(w) && InvFire(w) && InvFinish(w) && !w.tb.done && Prompt(w, ClockEdge(e))
    requires !Handles(w)
    ensures InvFinish(Edge(w, e))
  {
    hide RamEdge, MmioWords, Calls, MemRdata, Encode, LastStatus, HandleSimMmio, InRam, InSpi, Pending, RamIndex, Merge;
  }

  /** The RAM is written by the first access of a request, and again, to no effect, by the second. */
  lemma EdgeMemory(w: World, e: Env)
    requires InvSlot(w) && InvBus(w) && !w.tb.done
    ensures var now := Edge(w, e);
            var c := w.bus.req;
            if w.bus.valid && !w.ctx.waitLow && !w.ram.ready && InRam(c.addr)
            then !Applied(w) && Applied(now)
                 && now.ram.mem == w.ram.mem[RamIndex(c.addr) := Merge(w.ram.mem[RamIndex(c.addr)], c.wdata, c.wstrb)]
            else now.ram.mem == w.ram.mem
  {
    hide MemRdata, Calls, Encode, Merge, TbEdge;
  }

  /** Apart from that first access, a request counts as applied only when its store does nothing. */
  lemma EdgeApplied(w: World, e: Env)
    requires InvSlot(w) && InvBus(w) && !w.tb.done && Prompt(w, ClockEdge(e))
    requires Applied(Edge(w, e)) != Applied(w)
    ensures w.ctx.valid && Applied(Edge(w, e)) && w.bus.valid && !w.ctx.waitLow
    ensures !InRam(w.bus.req.addr) || !w.ram.ready
  {
    hide MemRdata, Calls, Encode, Merge, TbEdge, Fire;
  }

  /** The strobed word write of a RAM request is the atomic effect of its call. */
  lemma {:induction false} AccessIsApply(mem: seq<Word>, c: Call)
    requires |mem| == MEM_WORDS && RamCall(c)
    ensures var i := RamIndex(Encode(c).addr);
            && i < MEM_WORDS
            && Flatten(mem[i := Merge(mem[i], Encode(c).wdata, Encode(c).wstrb)]) == Apply(Flatten(mem), c)
  {
    OffsetFits(c);
    var i := RamIndex(Encode(c).addr);
    if c.store.Some? {
      StoreIsMerge(mem, i, c.addr % 4, c.store.value);
    } else {
      assert mem[i := Merge(mem[i], Encode(c).wdata, Encode(c).wstrb)] == mem;
    }
  }

  lemma EdgeKeepsCalls(w: World, e: Env)
    requires !w.tb.done
    ensures var now := Edge(w, e);
            now.hist.issued == w.hist.issued && now.hist.completed == w.hist.completed && now.ctx.valid == w.ctx.valid
  {
    hide RamEdge, TbEdge, MemRdata, MemReady, Fire;
  }

  /** A request on the bus that is not a repeat is the pending call. */
  lemma BusIsPending(w: World)
    requires InvSlot(w) && InvBus(w) && w.bus.valid && !w.ctx.waitLow
    ensures w.ctx.valid && |w.hist.issued| > 0 && w.bus.req == Encode(Pending(w))
    ensures InRam(w.bus.req.addr) ==> RamCall(Pending(w)) && |w.ram.mem| == MEM_WORDS
  {
    hide Encode, Merge, RamIndex, Calls;
  }

  lemma MemAccess(m: seq<bv8>, w: World, now: World)
    requires InvMem(m, w) && |w.ram.mem| == MEM_WORDS && |w.hist.issued| > 0 && RamCall(Pending(w))
    requires RamIndex(Encode(Pending(w)).addr) < MEM_WORDS
    requires now.hist.issued == w.hist.issued && now.hist.completed == w.hist.completed
    requires !Applied(w) && Applied(now)
    requires var i, r := RamIndex(Encode(Pending(w)).addr), Encode(Pending(w));
             now.ram.mem == w.ram.mem[i := Merge(w.ram.mem[i], r.wdata, r.wstrb)]
    ensures InvMem(m, now)
  {
    hide AtomicTrace, Replay, Encode, Merge, Flatten, Apply, Applied, RamIndex, RamCall;
    AccessIsApply(w.ram.mem, Pending(w));
  }

  lemma MemSame(m: seq<bv8>, w: World, now: World)
    requires InvMem(m, w) && now.ram.mem == w.ram.mem
    requires now.hist.issued == w.hist.issued && now.hist.completed == w.hist.completed
    requires Applied(now) == Applied(w)
             || (|w.hist.issued| > 0 && Apply(Replay(m, w.hist.completed), Pending(w)) == Replay(m, w.hist.completed))
    ensures InvMem(m, now)
  {
    hide AtomicTrace, Replay, Flatten, Apply, Applied;
  }

  lemma {:induction false} EdgeKeepsMem(m: seq<bv8>, w: World, e: Env)
    requires InvSlot(w) && InvBus(w) && InvMem(m, w) && !w.tb.done && Prompt(w, ClockEdge(e))
    ensures InvMem(m, Edge(w, e))
  {
    hide Edge, InvSlot, InvMem, Encode, Merge, RamIndex, Replay, Apply, Applied, InRam, RamCall, Prompt;
    var now := Edge(w, e);
    EdgeKeepsCalls(w, e);
    EdgeMemory(w, e);
    if w.bus.valid && !w.ctx.waitLow && !w.ram.ready && InRam(w.bus.req.addr) {
      BusIsPending(w);
      MemAccess(m, w, now);
    } else {
      hide InvBus;
      if Applied(now) != Applied(w) {
        EdgeApplied(w, e);
        BusIsPending(w);
        NoRamNoEffect(Replay(m, w.hist.completed), Pending(w));
      }
      MemSame(m, w, now);
    }
  }

  lemma NoRamNoEffect(m: seq<bv8>, c: Call)
    ensures !InRam(Encode(c).addr) ==> Apply(m, c) == m
  {
  }
}
