/** What whole runs of the SoC guarantee: an atomic memory, exactly-once MMIO, the finish countdown,
    the shutdown, and what goes wrong without the scheduling assumption. */
module SpikeBusTheorems {
  import opened ByteLanes
  import opened SimMarkers
  import opened SpikeBus
  import opened SpikeBusInvariant

  // ---------------------------------------------------------------- runs keep the invariant

  lemma OutsideStepsKeep(m: seq<bv8>, w: World, l: Label)
    requires Inv(m, w) && CanStep(w, l) && (l.ReleaseReset? || l.TimeoutFires?)
    ensures Inv(m, Step(w, l))
  {
    hide AtomicTrace, Replay, Flatten, MmioWords, LastStatus, Calls, Apply, Merge, Encode;
  }

  lemma {:induction false} StepKeeps(m: seq<bv8>, w: World, l: Label)
    requires Inv(m, w) && CanStep(w, l) && Prompt(w, l)
    ensures Inv(m, Step(w, l))
  {
    hide InvSlot, InvBus, InvMem, InvFire, InvHandled, InvFinish, Edge;
    match l
    case ReleaseReset => OutsideStepsKeep(m, w, l);
    case TimeoutFires => OutsideStepsKeep(m, w, l);
    case ClockEdge(e) =>
      EdgeKeepsSlot(w, e);
      EdgeKeepsBus(w, e);
      EdgeKeepsMem(m, w, e);
      EdgeKeepsFire(w, e);
      EdgeKeepsHandled(w, e);
      if Handles(w) {
        EdgeKeepsFinishHandling(w, e);
      } else {
        EdgeKeepsFinishQuiet(w, e);
      }
    case Begin(n) => BeginKeeps(m, w, n);
    case CallBus(c) => IssueKeeps(m, w, c);
    case Wake => ConsumeKeeps(m, w);
    case End => EndKeeps(m, w);
    case Escape => ThrowKeeps(m, w);
  }

  lemma {:induction false} RunKeeps(m: seq<bv8>, w: World, ls: seq<Label>)
    requires Inv(m, w) && Run(w, ls) && PromptRun(w, ls)
    ensures Inv(m, Exec(w, ls))
  {
    hide Inv, Step, CanStep, Prompt;
    if ls != [] {
      RunKeeps(m, w, ls[..|ls| - 1]);
      StepKeeps(m, Exec(w, ls[..|ls| - 1]), ls[|ls| - 1]);
    }
  }

  // ---------------------------------------------------------------- the bus is an atomic memory

  /** In every interleaving that respects the scheduling assumption, the calls that have returned
      true are the issued ones in order, save one still pending; each load returned what a byte
      memory holds after the stores before it; and the RAM holds that memory, plus at most the
      pending store. */
  lemma {:induction false} BusIsAtomicMemory(mem: seq<Word>, ls: seq<Label>)
    requires |mem| == MEM_WORDS && Run(Init(mem), ls) && PromptRun(Init(mem), ls)
    ensures var w := Exec(Init(mem), ls);
            var m := Flatten(mem);
            && AtomicTrace(m, w.hist.completed)
            && (if w.ctx.valid
                then |w.hist.issued| > 0 && w.hist.issued == Calls(w.hist.completed) + [Pending(w)]
                else w.hist.issued == Calls(w.hist.completed))
            && (Flatten(w.ram.mem) == Replay(m, w.hist.completed)
                || (w.ctx.valid && Flatten(w.ram.mem) == Apply(Replay(m, w.hist.completed), Pending(w))))
  {
    InitInv(mem);
    RunKeeps(Flatten(mem), Init(mem), ls);
    AtomicState(Flatten(mem), Exec(Init(mem), ls));
  }

  lemma AtomicState(m: seq<bv8>, w: World)
    requires Inv(m, w)
    ensures AtomicTrace(m, w.hist.completed)
    ensures if w.ctx.valid
            then |w.hist.issued| > 0 && w.hist.issued == Calls(w.hist.completed) + [Pending(w)]
            else w.hist.issued == Calls(w.hist.completed)
    ensures Flatten(w.ram.mem) == Replay(m, w.hist.completed)
            || (w.ctx.valid && Flatten(w.ram.mem) == Apply(Replay(m, w.hist.completed), Pending(w)))
  {
    hide AtomicTrace, Replay, Apply, Flatten, Calls, InvBus, InvFire, InvHandled, InvFinish;
    if w.ctx.valid {
      assert w.hist.issued == w.hist.issued[..|w.hist.issued| - 1] + [Pending(w)];
    }
  }

  /** No stale acknowledgement, at any clock edge of such a run: a reply is captured only while the
      bus shows the request now pending, and for RAM from the access of that request; a request is
      first presented with ram_ready low; and ram_ready is high on a valid bus only for a request
      still unanswered, so the repeated access is acknowledged while the bus is idle. */
  lemma {:induction false} NoStaleAcknowledgement(mem: seq<Word>, ls: seq<Label>, e: Env)
    requires |mem| == MEM_WORDS && Run(Init(mem), ls) && PromptRun(Init(mem), ls)
    requires !Exec(Init(mem), ls).tb.done && Prompt(Exec(Init(mem), ls), ClockEdge(e))
    ensures var w := Exec(Init(mem), ls);
            var now := Edge(w, e);
            && (now.ctx.ready && !w.ctx.ready ==>
                  && w.bus.valid && w.bus.req == w.ctx.req && |w.hist.issued| > 0
                  && w.ctx.req == Encode(Pending(w))
                  && (InRam(w.ctx.req.addr) ==>
                        && w.ram.ready && RamIndex(w.ctx.req.addr) < |w.ram.mem|
                        && var was := w.ram.mem[RamIndex(w.ctx.req.addr)];
                           && Merge(was, w.ctx.req.wdata, w.ctx.req.wstrb) == was
                           && (w.ctx.req.wstrb == NO_LANES ==> now.ctx.rdata == was)))
            && (now.bus.valid && !w.bus.valid ==> !now.ram.ready)
            && (w.bus.valid && w.ram.ready ==> w.ctx.valid && !w.ctx.ready && w.bus.req == w.ctx.req)
  {
    InitInv(mem);
    RunKeeps(Flatten(mem), Init(mem), ls);
    CaptureIsCurrent(Exec(Init(mem), ls), e);
  }

  lemma CaptureIsCurrent(w: World, e: Env)
    requires InvSlot(w) && InvBus(w) && !w.tb.done && Prompt(w, ClockEdge(e))
    ensures var now := Edge(w, e);
            && (now.ctx.ready && !w.ctx.ready ==>
                  && w.bus.valid && w.bus.req == w.ctx.req && |w.hist.issued| > 0
                  && w.ctx.req == Encode(Pending(w))
                  && (InRam(w.ctx.req.addr) ==>
                        && w.ram.ready && RamIndex(w.ctx.req.addr) < |w.ram.mem|
                        && var was := w.ram.mem[RamIndex(w.ctx.req.addr)];
                           && Merge(was, w.ctx.req.wdata, w.ctx.req.wstrb) == was
                           && (w.ctx.req.wstrb == NO_LANES ==> now.ctx.rdata == was)))
            && (now.bus.valid && !w.bus.valid ==> !now.ram.ready)
            && (w.bus.valid && w.ram.ready ==> w.ctx.valid && !w.ctx.ready && w.bus.req == w.ctx.req)
  {
    hide Encode, Merge, Calls, TbEdge;
  }

  /** The issued calls that have their reply, delivered or not. */
  function AnsweredCalls(w: World): seq<Call> {
    if w.ctx.valid && !w.ctx.ready && |w.hist.issued| > 0
    then w.hist.issued[..|w.hist.issued| - 1] else w.hist.issued
  }

  lemma HandledIsAnswered(w: World)
    requires InvSlot(w) && InvHandled(w)
    ensures w.hist.handled == MmioWords(AnsweredCalls(w))
  {
    hide Calls, Encode;
    if w.ctx.valid {
      MmioWordsNext(Calls(w.hist.completed), Pending(w));
      assert w.hist.issued == w.hist.issued[..|w.hist.issued| - 1] + [Pending(w)];
    }
  }

  /** The words handed to handle_sim_mmio are the stores to that address among the issued calls, once
      each and in order; the only one that can be missing is a pending store not yet answered. */
  lemma {:induction false} MmioExactlyOnce(mem: seq<Word>, ls: seq<Label>)
    requires |mem| == MEM_WORDS && Run(Init(mem), ls) && PromptRun(Init(mem), ls)
    ensures var w := Exec(Init(mem), ls);
            w.hist.handled == MmioWords(AnsweredCalls(w))
  {
    InitInv(mem);
    RunKeeps(Flatten(mem), Init(mem), ls);
    HandledIsAnswered(Exec(Init(mem), ls));
  }

  // ---------------------------------------------------------------- the reported counters

  function RamCalls(cs: seq<Call>, stores: bool): nat {
    if cs == [] then 0
    else
      var c := cs[|cs| - 1];
      RamCalls(cs[..|cs| - 1], stores) + if RamCall(c) && c.store.Some? == stores then 1 else 0
  }

  predicate InvCounts(w: World) {
    && w.tb.ramReads == RamCalls(AnsweredCalls(w), false)
    && w.tb.ramWrites == RamCalls(AnsweredCalls(w), true)
  }

  /** An edge counts an access exactly when it captures the reply of a RAM request. */
  lemma {:induction false} EdgeCounts(w: World, e: Env)
    requires InvSlot(w) && InvBus(w) && !w.tb.done && Prompt(w, ClockEdge(e))
    ensures var now := Edge(w, e);
            var captured := now.ctx.ready && !w.ctx.ready;
            && now.ctx.valid == w.ctx.valid && now.hist.issued == w.hist.issued && (w.ctx.ready ==> now.ctx.ready)
            && (captured ==> w.ctx.valid)
            && now.tb.ramReads == w.tb.ramReads
                 + (if captured && InRam(w.ctx.req.addr) && !AnyLane(w.ctx.req.wstrb) then 1 else 0)
            && now.tb.ramWrites == w.tb.ramWrites
                 + (if captured && InRam(w.ctx.req.addr) && AnyLane(w.ctx.req.wstrb) then 1 else 0)
  {
    hide Edge, Response, RamSel, InvSlot;
    EdgeCaptures(w, e);
    EdgeTallies(w, e);
  }

  lemma EdgeCaptures(w: World, e: Env)
    requires InvSlot(w) && InvBus(w) && !w.tb.done && Prompt(w, ClockEdge(e))
    ensures var now := Edge(w, e);
            var captured := now.ctx.ready && !w.ctx.ready;
            && now.ctx.valid == w.ctx.valid && now.hist.issued == w.hist.issued && (w.ctx.ready ==> now.ctx.ready)
            && (captured ==> w.ctx.valid)
            && (captured ==> Response(w, e) && w.bus.req == w.ctx.req)
            && (Response(w, e) && InRam(w.bus.req.addr) ==> captured)
  {
    hide Encode, Merge, Calls, RamEdge, MemRdata, RamIndex, TbEdge;
  }

  lemma EdgeTallies(w: World, e: Env)
    requires !w.tb.done
    ensures var now := Edge(w, e);
            var counted := Response(w, e) && InRam(w.bus.req.addr);
            && now.tb.ramReads == w.tb.ramReads + (if counted && !AnyLane(w.bus.req.wstrb) then 1 else 0)
            && now.tb.ramWrites == w.tb.ramWrites + (if counted && AnyLane(w.bus.req.wstrb) then 1 else 0)
  {
    hide RamEdge, MemRdata, MemReady, InRam, DpiStep, Settle, Observe, Fire;
    var isRead := !AnyLane(w.bus.req.wstrb);
    var acked := w.bus.valid && MemReady(w, e) && RamSel(w);
    var t := Observe(w.tb, Fire(w), w.bus.req.addr == SIM_MMIO, w.bus.req.wdata.b0, acked, isRead);
    ObserveTallies(w.tb, Fire(w), w.bus.req.addr == SIM_MMIO, w.bus.req.wdata.b0, acked, isRead);
    SettleTallies(t, w.resetn && DpiStep(w.ctx, w.resetn, Response(w, e), MemRdata(w, e), e.initOk).0.failed);
  }

  lemma ObserveTallies(tb: Tb, fire: bool, isMmio: bool, value: bv8, acked: bool, isRead: bool)
    ensures var t := Observe(tb, fire, isMmio, value, acked, isRead);
            && t.ramReads == tb.ramReads + (if acked && isRead then 1 else 0)
            && t.ramWrites == tb.ramWrites + (if acked && !isRead then 1 else 0)
  {
  }

  lemma SettleTallies(t: Tb, broken: bool)
    ensures Settle(t, broken).0.ramReads == t.ramReads && Settle(t, broken).0.ramWrites == t.ramWrites
  {
  }

  lemma {:induction false} RamCallsNext(cs: seq<Call>, c: Call, stores: bool)
    ensures RamCalls(cs + [c], stores) == RamCalls(cs, stores) + if RamCall(c) && c.store.Some? == stores then 1 else 0
  {
    assert (cs + [c])[..|cs|] == cs;
  }

  lemma {:induction false} EdgeKeepsCounts(w: World, e: Env)
    requires InvSlot(w) && InvBus(w) && InvCounts(w) && !w.tb.done && Prompt(w, ClockEdge(e))
    ensures InvCounts(Edge(w, e))
  {
    hide Edge, Encode, Calls, Merge, RamCalls, InvBus, InRam, AnyLane;
    EdgeCounts(w, e);
    if w.ctx.valid {
      var c := Pending(w);
      StoresFire(c);
      var before := w.hist.issued[..|w.hist.issued| - 1];
      assert w.hist.issued == before + [c];
      RamCallsNext(before, c, false);
      RamCallsNext(before, c, true);
    }
  }

  lemma {:induction false} IssueKeepsCounts(w: World, c: Call)
    requires InvSlot(w) && InvCounts(w) && IssueEnabled(w, c)
    ensures InvCounts(Issue(w, c))
  {
    hide Encode, Calls, RamCalls;
    var now := Issue(w, c);
    if now.phase.Waiting? {
      assert now.hist.issued[..|now.hist.issued| - 1] == w.hist.issued;
    }
  }

  lemma {:induction false} StepCounts(w: World, l: Label)
    requires InvSlot(w) && InvBus(w) && InvCounts(w) && CanStep(w, l) && Prompt(w, l)
    ensures InvCounts(Step(w, l))
  {
    hide Encode, Calls, RamCalls, Edge, Issue, InvBus;
    if l.ClockEdge? {
      EdgeKeepsCounts(w, l.env);
    } else if l.CallBus? {
      IssueKeepsCounts(w, l.call);
    }
  }

  /** Each RAM load and store is counted once, although the RAM is accessed twice for it. */
  lemma {:induction false} CountersAreExact(mem: seq<Word>, ls: seq<Label>)
    requires |mem| == MEM_WORDS && Run(Init(mem), ls) && PromptRun(Init(mem), ls)
    ensures InvCounts(Exec(Init(mem), ls))
  {
    hide Step, CanStep, Prompt;
    if ls != [] {
      CountersAreExact(mem, ls[..|ls| - 1]);
      InitInv(mem);
      RunKeeps(Flatten(mem), Init(mem), ls[..|ls| - 1]);
      StepCounts(Exec(Init(mem), ls[..|ls| - 1]), ls[|ls| - 1]);
    }
  }

  // ---------------------------------------------------------------- requests are answered

  function EdgeCount(ls: seq<Label>): nat {
    if ls == [] then 0 else EdgeCount(ls[..|ls| - 1]) + if ls[|ls| - 1].ClockEdge? then 1 else 0
  }

  /** How many clock edges, at most, until the pending RAM or MMIO request has its reply. */
  function Distance(w: World): nat {
    var access := if InRam(w.ctx.req.addr) then 2 else 1;
    if w.ctx.waitLow then access + 1 + (if w.bus.valid then 2 else 1)
    else if !w.bus.valid then access + 1
    else if w.ram.ready then 1
    else access
  }

  predicate Unanswered(w: World) {
    w.phase.Waiting? && !w.ctx.ready && (InRam(w.ctx.req.addr) || InIomem(w.ctx.req.addr))
  }

  lemma EdgeApproaches(w: World, e: Env)
    requires InvSlot(w) && InvBus(w) && Unanswered(w) && !w.tb.done
    ensures var now := Edge(w, e);
            && now.phase == w.phase && now.ctx.req == w.ctx.req
            && (now.ctx.ready || Distance(now) < Distance(w))
  {
    hide Encode, Merge, Calls, TbEdge, MemRdata;
  }

  /** A call still waiting after a step that issues nothing was waiting before it. */
  lemma StillWaiting(w: World, l: Label)
    requires InvSlot(w) && InvBus(w) && CanStep(w, l)
    requires Step(w, l).phase.Waiting? && !Step(w, l).ctx.ready
    requires |Step(w, l).hist.issued| == |w.hist.issued|
    ensures w.phase == Step(w, l).phase && !w.ctx.ready && Step(w, l).ctx.req == w.ctx.req
    ensures !l.ClockEdge? && Unanswered(w) ==> Distance(Step(w, l)) == Distance(w)
    ensures l.ClockEdge? && Unanswered(w) ==> Distance(Step(w, l)) < Distance(w)
  {
    hide Encode, Merge, Calls, TbEdge, MemRdata, RamEdge;
    if l.ClockEdge? && Unanswered(w) {
      EdgeApproaches(w, l.env);
    }
  }

  lemma IssuedGrows(w: World, l: Label)
    requires CanStep(w, l)
    ensures w.hist.issued <= Step(w, l).hist.issued
    ensures !l.CallBus? ==> Step(w, l).hist.issued == w.hist.issued
  {
    hide Encode, DpiStep, RamEdge, TbEdge;
  }

  lemma {:induction false} IssuedGrowsOverRun(w: World, ls: seq<Label>)
    requires Run(w, ls)
    ensures w.hist.issued <= Exec(w, ls).hist.issued
  {
    hide Step, CanStep;
    if ls != [] {
      IssuedGrowsOverRun(w, ls[..|ls| - 1]);
      IssuedGrows(Exec(w, ls[..|ls| - 1]), ls[|ls| - 1]);
    }
  }

  /** A RAM or MMIO request is answered by its fifth clock edge: a run that leaves it waiting without
      a reply has had fewer. */
  lemma {:induction false} AnsweredWithinFiveEdges(m: seq<bv8>, w: World, ls: seq<Label>)
    requires Inv(m, w) && Unanswered(w) && Run(w, ls) && PromptRun(w, ls)
    requires Exec(w, ls).phase.Waiting? && !Exec(w, ls).ctx.ready
    requires |Exec(w, ls).hist.issued| == |w.hist.issued|
    ensures Unanswered(Exec(w, ls)) && Exec(w, ls).phase == w.phase
    ensures EdgeCount(ls) + Distance(Exec(w, ls)) <= Distance(w) && EdgeCount(ls) < 5
  {
    hide Step, CanStep, InvSlot, InvBus, InvMem, InvHandled, InvFire, InvFinish, Prompt;
    if ls != [] {
      var front, l := ls[..|ls| - 1], ls[|ls| - 1];
      var before := Exec(w, front);
      RunKeeps(m, w, front);
      IssuedGrowsOverRun(w, front);
      IssuedGrows(before, l);
      StillWaiting(before, l);
      AnsweredWithinFiveEdges(m, w, front);
    }
  }

  // ---------------------------------------------------------------- the finish countdown

  /** One step while the countdown runs. */
  lemma CountdownStep(m: seq<bv8>, w: World, l: Label)
    requires Inv(m, w) && CanStep(w, l) && Prompt(w, l)
    requires w.tb.delay >= 0 && !w.tb.done
    requires !Step(w, l).ctx.failed && !Step(w, l).tb.timedOut
    ensures var now := Step(w, l);
            && now.hist.handled == w.hist.handled && now.tb.code == w.tb.code
            && (!l.ClockEdge? ==> !now.tb.done && now.tb.delay == w.tb.delay)
            && (l.ClockEdge? && w.tb.delay > 0 ==> !now.tb.done && now.tb.delay == w.tb.delay - 1)
            && (l.ClockEdge? && w.tb.delay == 0 ==>
                  now.tb.done && now.tb.delay == 0 && now.ctx.stop && now.ctx.exitCode == w.tb.code)
  {
    hide Encode, Merge, Calls, MemRdata, RamEdge, AtomicTrace, Replay, Flatten, MmioWords, LastStatus, Apply;
  }

  /** And after it has ended, nothing changes the exit code. */
  lemma {:induction false} FinishedStep(m: seq<bv8>, w: World, l: Label)
    requires Inv(m, w) && CanStep(w, l) && w.tb.done
    ensures var now := Step(w, l);
            && !l.ClockEdge? && now.hist.handled == w.hist.handled && now.tb == w.tb
            && now.ctx.stop && now.ctx.exitCode == w.ctx.exitCode
  {
    hide Encode, Merge, Calls, AtomicTrace, Replay, Flatten, MmioWords, LastStatus, Apply;
  }

  lemma FailureIsForGood(w: World, l: Label)
    requires CanStep(w, l)
    ensures w.ctx.failed ==> Step(w, l).ctx.failed
    ensures w.tb.timedOut ==> Step(w, l).tb.timedOut
  {
    hide Encode, Edge, Pending, ReplyBytes, Legal;
    if l.ClockEdge? {
      EdgeKeepsFlags(w, l.env);
    }
  }

  lemma EdgeKeepsFlags(w: World, e: Env)
    requires !w.tb.done
    ensures w.ctx.failed ==> Edge(w, e).ctx.failed
    ensures w.tb.timedOut ==> Edge(w, e).tb.timedOut
  {
    hide RamEdge, MemRdata, MemReady, Handles;
  }

  /** The state n clock edges into the countdown that a QUIT starts: two more edges count down, the
      third ends the run with the announced code, and no word is handled meanwhile or later. */
  predicate CountedDown(quit: World, n: nat, w: World) {
    && n <= 3
    && w.hist.handled == quit.hist.handled
    && (n < 3 ==> !w.tb.done && w.tb.delay == 2 - n && w.tb.code == quit.tb.code)
    && (n == 3 ==> w.tb.done && w.ctx.stop && w.ctx.exitCode == quit.tb.code)
  }

  lemma {:induction false} CountdownRun(m: seq<bv8>, quit: World, ls: seq<Label>)
    requires Inv(m, quit) && quit.tb.delay == 2 && !quit.tb.done && Run(quit, ls) && PromptRun(quit, ls)
    requires !Exec(quit, ls).ctx.failed && !Exec(quit, ls).tb.timedOut
    ensures CountedDown(quit, EdgeCount(ls), Exec(quit, ls))
  {
    hide Step, CanStep, Inv, Prompt;
    if ls != [] {
      var front, l := ls[..|ls| - 1], ls[|ls| - 1];
      var before := Exec(quit, front);
      RunKeeps(m, quit, front);
      FailureIsForGood(before, l);
      CountdownRun(m, quit, front);
      if before.tb.done {
        FinishedStep(m, before, l);
      } else {
        CountdownStep(m, before, l);
      }
    }
  }

  /** The finish protocol. In a run that respects the scheduling assumption, let an edge handle QUIT
      after a status marker. However the run goes on, as long as nothing fails and the timeout does
      not strike, the third clock edge from there ends it with the code of the last status marker;
      nothing is handled in between; and every handled store, status and QUIT included, already has
      its reply. */
  lemma {:induction false} QuitEndsTheRun(mem: seq<Word>, ls: seq<Label>, e: Env, more: seq<Label>)
    requires |mem| == MEM_WORDS && Run(Init(mem), ls) && PromptRun(Init(mem), ls)
    requires var w := Exec(Init(mem), ls);
             && !w.tb.done && Prompt(w, ClockEdge(e))
             && Handles(w) && w.bus.req.wdata.b0 == 0x00 && LastStatus(w.hist.handled).Some?
             && Run(Edge(w, e), more) && PromptRun(Edge(w, e), more)
             && !Exec(Edge(w, e), more).ctx.failed && !Exec(Edge(w, e), more).tb.timedOut
    ensures var w := Exec(Init(mem), ls);
            var now := Exec(Edge(w, e), more);
            && EdgeCount(more) <= 3
            && (now.tb.done <==> EdgeCount(more) == 3)
            && (now.tb.done ==> now.ctx.stop && now.ctx.exitCode == LastStatus(w.hist.handled).value)
            && now.hist.handled == w.hist.handled + [w.bus.req.wdata]
            && now.hist.handled == MmioWords(AnsweredCalls(now))
  {
    var m := Flatten(mem);
    InitInv(mem);
    RunKeeps(m, Init(mem), ls);
    var w := Exec(Init(mem), ls);
    StepKeeps(m, w, ClockEdge(e));
    var quit := Edge(w, e);
    QuitStarts(m, w, e, more);
    CountdownRun(m, quit, more);
    RunKeeps(m, quit, more);
    HandledIsAnswered(Exec(quit, more));
  }

  lemma {:induction false} FailureEarlier(w: World, ls: seq<Label>)
    requires Run(w, ls)
    ensures w.ctx.failed ==> Exec(w, ls).ctx.failed
    ensures w.tb.timedOut ==> Exec(w, ls).tb.timedOut
  {
    hide Step, CanStep;
    if ls != [] {
      FailureEarlier(w, ls[..|ls| - 1]);
      FailureIsForGood(Exec(w, ls[..|ls| - 1]), ls[|ls| - 1]);
    }
  }

  lemma {:induction false} QuitStarts(m: seq<bv8>, w: World, e: Env, more: seq<Label>)
    requires Inv(m, w) && !w.tb.done && Prompt(w, ClockEdge(e))
    requires Handles(w) && w.bus.req.wdata.b0 == 0x00 && LastStatus(w.hist.handled).Some?
    requires Run(Edge(w, e), more) && !Exec(Edge(w, e), more).ctx.failed
    ensures var quit := Edge(w, e);
            && quit.tb.delay == 2 && !quit.tb.done && quit.tb.code == LastStatus(w.hist.handled).value
            && quit.hist.handled == w.hist.handled + [w.bus.req.wdata]
  {
    hide InvMem, InvHandled, InvFire, InvBus, Run, Exec, Calls, AtomicTrace, Replay, Flatten, Apply, Merge;
    hide LastStatus, MmioWords, RamEdge, MemRdata, Encode;
    FailureEarlier(Edge(w, e), more);
    HandledAtCapture(w, e);
  }

  // ---------------------------------------------------------------- shutdown

  /** Bounds the worker steps left once `stop` is set. */
  function StepsLeft(w: World): nat {
    match w.phase
    case NotStarted => 0
    case Returned => 0
    case Top => 1
    case InStep(b) => 2 + 2 * b
    case Waiting(_, b) => 3 + 2 * b
  }

  function WorkerCount(ls: seq<Label>): nat {
    if ls == [] then 0 else WorkerCount(ls[..|ls| - 1]) + if WorkerLabel(ls[|ls| - 1]) then 1 else 0
  }

  /** The step the worker can take next. */
  function NextWorkerLabel(w: World): Label
    requires !w.phase.NotStarted? && !w.phase.Returned?
  {
    match w.phase
    case Top => Begin(0)
    case InStep(_) => End
    case Waiting(_, _) => Wake
  }

  /** The reply that is captured but not yet delivered, if there is one. */
  function Captured(w: World): seq<Done>
    requires InvSlot(w)
  {
    if w.phase.Waiting? && w.ctx.ready then [Done(Pending(w), ReplyBytes(Pending(w), w.ctx.rdata))] else []
  }

  /** One step after `stop`. */
  lemma StoppedStep(w: World, l: Label)
    requires InvSlot(w) && w.tb.done && w.ctx.stop && CanStep(w, l)
    ensures var now := Step(w, l);
            && !l.ClockEdge? && now.ctx.stop
            && now.hist.issued == w.hist.issued
            && (if WorkerLabel(l)
                then StepsLeft(now) < StepsLeft(w) && !now.phase.Waiting?
                     && now.hist.completed == w.hist.completed + Captured(w)
                else now.phase == w.phase && now.ctx == w.ctx && now.hist == w.hist)
  {
    hide Calls, Encode, ReplyBytes;
  }

  /** What every step keeps, whether or not it respects the scheduling assumption: the slot agrees with the
      worker, and the testbench is done exactly when it has set `stop`. */
  predicate Orderly(w: World) {
    InvSlot(w) && (w.tb.done <==> w.ctx.stop)
  }

  lemma EdgeStopsWhenDone(w: World, e: Env)
    requires !w.tb.done && !w.ctx.stop
    ensures Edge(w, e).tb.done <==> Edge(w, e).ctx.stop
  {
    hide RamEdge, MemRdata, MemReady, Fire, Handles, AnyLane, InRam;
  }

  lemma {:induction false} IssueKeepsSlot(w: World, c: Call)
    requires InvSlot(w) && IssueEnabled(w, c)
    ensures InvSlot(Issue(w, c))
  {
    hide Calls, Encode;
    var now := Issue(w, c);
    if now.phase.Waiting? {
      assert now.hist.issued[..|now.hist.issued| - 1] == w.hist.issued;
    }
  }

  lemma {:induction false} ConsumeKeepsSlot(w: World)
    requires InvSlot(w) && ConsumeEnabled(w)
    ensures InvSlot(Consume(w))
  {
    hide Encode, ReplyBytes;
    var now := Consume(w);
    if now.hist != w.hist {
      assert w.hist.issued == w.hist.issued[..|w.hist.issued| - 1] + [Pending(w)];
      assert Calls(now.hist.completed) == Calls(w.hist.completed) + [Pending(w)];
    }
  }

  lemma {:induction false} StepKeepsOrder(w: World, l: Label)
    requires Orderly(w) && CanStep(w, l)
    ensures Orderly(Step(w, l))
  {
    hide Edge, Issue, Consume, Encode, Calls;
    match l {
      case ClockEdge(e) =>
        EdgeKeepsSlot(w, e);
        EdgeStopsWhenDone(w, e);
      case CallBus(c) =>
        IssueKeepsSlot(w, c);
        IssueSetsNoFlag(w, c);
      case Wake =>
        ConsumeKeepsSlot(w);
        ConsumeSetsNoFlag(w);
      case _ =>
    }
  }

  lemma IssueSetsNoFlag(w: World, c: Call)
    requires IssueEnabled(w, c)
    ensures Issue(w, c).tb == w.tb && Issue(w, c).ctx.stop == w.ctx.stop
  {
  }

  lemma ConsumeSetsNoFlag(w: World)
    requires ConsumeEnabled(w)
    ensures Consume(w).tb == w.tb && Consume(w).ctx.stop == w.ctx.stop
  {
  }

  lemma {:induction false} RunKeepsOrder(mem: seq<Word>, ls: seq<Label>)
    requires Run(Init(mem), ls)
    ensures Orderly(Exec(Init(mem), ls))
  {
    hide Step, CanStep;
    if ls == [] {
    } else {
      hide Orderly;
      RunKeepsOrder(mem, ls[..|ls| - 1]);
      StepKeepsOrder(Exec(Init(mem), ls[..|ls| - 1]), ls[|ls| - 1]);
    }
  }

  /** The steps after `stop`, one by one. */
  lemma {:induction false} StoppedRun(w: World, ls: seq<Label>)
    requires Orderly(w) && w.ctx.stop && Run(w, ls)
    ensures var now := Exec(w, ls);
            && Orderly(now) && now.ctx.stop
            && now.hist.issued == w.hist.issued
            && now.hist.completed == w.hist.completed + (if WorkerCount(ls) > 0 then Captured(w) else [])
            && (if WorkerCount(ls) > 0 then !now.phase.Waiting?
                else now.phase == w.phase && now.ctx == w.ctx && now.hist == w.hist)
            && WorkerCount(ls) + StepsLeft(now) <= StepsLeft(w)
  {
    hide InvSlot, Step, CanStep;
    if ls != [] {
      var front, l := ls[..|ls| - 1], ls[|ls| - 1];
      StoppedRun(w, front);
      StoppedStep(Exec(w, front), l);
      StepKeepsOrder(Exec(w, front), l);
    }
  }

  lemma NothingBlocks(w: World)
    requires Orderly(w) && w.ctx.stop
    ensures w.phase.NotStarted? || w.phase.Returned? || CanStep(w, NextWorkerLabel(w))
    ensures forall c | w.phase.InStep? && w.phase.budget > 0 && WellFormed(c) :: IssueEnabled(w, c)
  {
    hide Calls, Encode;
  }

  /** In every run, prompt or not, that has set `stop`, however it goes on: no request is issued, a captured reply is
      still delivered and nothing else is, the worker can always move on, and it has returned, or never
      started, after a number of its steps known when `stop` is set. */
  lemma {:induction false} StopEndsTheWorker(mem: seq<Word>, ls: seq<Label>, more: seq<Label>)
    requires Run(Init(mem), ls) && Exec(Init(mem), ls).ctx.stop && Run(Exec(Init(mem), ls), more)
    ensures InvSlot(Exec(Init(mem), ls))
    ensures var w := Exec(Init(mem), ls);
            var now := Exec(w, more);
            && now.ctx.stop && now.hist.issued == w.hist.issued
            && now.hist.completed == w.hist.completed + (if WorkerCount(more) > 0 then Captured(w) else [])
            && (now.phase.NotStarted? || now.phase.Returned? || CanStep(now, NextWorkerLabel(now)))
            && WorkerCount(more) + StepsLeft(now) <= StepsLeft(w)
            && (WorkerCount(more) >= StepsLeft(w) ==> now.phase.NotStarted? || now.phase.Returned?)
  {
    hide Run, Exec, Init, Step, CanStep, InvSlot, NextWorkerLabel, WorkerCount;
    RunKeepsOrder(mem, ls);
    StoppedRun(Exec(Init(mem), ls), more);
    NothingBlocks(Exec(Exec(Init(mem), ls), more));
  }

  /** In every run, prompt or not, that has set `stop`, both waits of issue_bus_request are over. */
  lemma {:induction false} NoWaitBlocks(mem: seq<Word>, ls: seq<Label>)
    requires Run(Init(mem), ls) && Exec(Init(mem), ls).ctx.stop
    ensures var w := Exec(Init(mem), ls);
            && (w.phase.Waiting? ==> ConsumeEnabled(w))
            && forall c | w.phase.InStep? && w.phase.budget > 0 && WellFormed(c) :: IssueEnabled(w, c)
  {
    hide Run, Exec, Init;
    RunKeepsOrder(mem, ls);
    NothingBlocks(Exec(Init(mem), ls));
  }

  /** No run, prompt or not, takes more than MAX_STEPS cpu steps. */
  lemma {:induction false} StepBound(mem: seq<Word>, ls: seq<Label>)
    requires Run(Init(mem), ls)
    ensures var w := Exec(Init(mem), ls);
            w.ctx.steps <= MAX_STEPS && (w.phase.InStep? || w.phase.Waiting? ==> w.ctx.steps < MAX_STEPS)
  {
    if ls != [] {
      StepBound(mem, ls[..|ls| - 1]);
      StepsInOneStep(Exec(Init(mem), ls[..|ls| - 1]), ls[|ls| - 1]);
    }
  }

  lemma {:induction false} StepsInOneStep(w: World, l: Label)
    requires CanStep(w, l)
    requires w.ctx.steps <= MAX_STEPS && (w.phase.InStep? || w.phase.Waiting? ==> w.ctx.steps < MAX_STEPS)
    ensures var now := Step(w, l);
            now.ctx.steps <= MAX_STEPS && (now.phase.InStep? || now.phase.Waiting? ==> now.ctx.steps < MAX_STEPS)
  {
    hide Encode, Edge;
    if l.ClockEdge? {
      EdgeTakesNoStep(w, l.env);
    }
  }

  lemma EdgeTakesNoStep(w: World, e: Env)
    requires !w.tb.done
    ensures var now := Edge(w, e);
            now.ctx.steps == w.ctx.steps && (now.phase == w.phase || now.phase.Top?)
  {
    hide RamEdge, TbEdge, MemRdata, MemReady, Fire;
  }

  // ---------------------------------------------------------------- why the assumption is needed

  /** The clock edges of a run that break the assumption. */
  function EarlyEdges(w: World, ls: seq<Label>): nat
    requires Run(w, ls)
  {
    if ls == [] then 0
    else EarlyEdges(w, ls[..|ls| - 1]) + if Prompt(Exec(w, ls[..|ls| - 1]), ls[|ls| - 1]) then 0 else 1
  }

  lemma {:induction false} RunNext(w: World, ls: seq<Label>, l: Label)
    requires Run(w, ls) && CanStep(Exec(w, ls), l)
    ensures Run(w, ls + [l]) && Exec(w, ls + [l]) == Step(Exec(w, ls), l)
    ensures PromptRun(w, ls) && Prompt(Exec(w, ls), l) ==> PromptRun(w, ls + [l])
    ensures EarlyEdges(w, ls + [l]) == EarlyEdges(w, ls) + if Prompt(Exec(w, ls), l) then 0 else 1
  {
    hide CanStep, Step, Prompt;
    assert (ls + [l])[..|ls|] == ls;
  }

  lemma {:induction false} PromptHasNoEarlyEdge(w: World, ls: seq<Label>)
    requires Run(w, ls)
    ensures PromptRun(w, ls) <==> EarlyEdges(w, ls) == 0
  {
    hide CanStep, Step, Prompt;
    if ls != [] {
      PromptHasNoEarlyEdge(w, ls[..|ls| - 1]);
    }
  }

  /** The request slot holds an answered load of RAM word i, and the bus is idle: an edge now would
      break the assumption. */
  predicate AnsweredLoad(w: World, i: nat) {
    && w.resetn && !w.tb.done && !w.ctx.failed && !w.ctx.stop
    && w.ctx.initialized && w.ctx.running
    && w.phase.Waiting? && w.phase.budget > 0 && Legal(w.phase.call) && w.phase.call.store.None?
    && w.ctx.valid && w.ctx.ready && !w.ctx.waitLow && !w.bus.valid && !w.tb.pending
    && w.ctx.req.wstrb == NO_LANES && InRam(w.ctx.req.addr) && RamIndex(w.ctx.req.addr) == i
    && i < |w.ram.mem|
  }

  /** One edge too early: the old load goes out again. */
  lemma EarlyEdge(w: World, i: nat, e: Env)
    requires AnsweredLoad(w, i)
    ensures var now := Edge(w, e);
            && now.phase == w.phase && now.hist == w.hist && now.resetn && !now.tb.done && !now.tb.pending
            && now.ctx == w.ctx && now.bus == Bus(true, w.ctx.req)
            && !now.ram.ready && now.ram.mem == w.ram.mem
  {
  }

  /** The slot holds a new, unanswered load while the bus still drives an old load of RAM word i. */
  predicate Overtaken(w: World, i: nat) {
    && w.resetn && !w.tb.done && !w.ctx.failed && !w.tb.pending && w.ctx.running && w.ctx.initialized
    && w.phase.Waiting? && w.ctx.valid && !w.ctx.ready && !w.ctx.waitLow
    && w.ctx.req.wstrb == NO_LANES && InRam(w.ctx.req.addr)
    && w.bus.valid && w.bus.req.wstrb == NO_LANES && InRam(w.bus.req.addr) && RamIndex(w.bus.req.addr) == i
    && i < |w.ram.mem| && !w.ram.ready
  }

  /** The next edge, which respects the assumption, reads the old word just as the new load goes out. */
  lemma OvertakenEdge(w: World, i: nat, e: Env)
    requires Overtaken(w, i)
    ensures var now := Edge(w, e);
            && now.phase == w.phase && now.hist == w.hist && now.resetn && !now.tb.done && !now.tb.pending
            && now.ctx == w.ctx && now.bus == Bus(true, w.ctx.req)
            && now.ram.ready && now.ram.rdata == w.ram.mem[i] && now.ram.mem == w.ram.mem
  {
    assert Merge(w.ram.mem[i], w.bus.req.wdata, w.bus.req.wstrb) == w.ram.mem[i];
  }

  /** From an answered load, one edge before the worker takes the reply is enough: the worker then issues another
      load, and two edges that respect the assumption answer it with the old word. */
  lemma {:induction false} StaleReply(w: World, i: nat, e: Env, c: Call) returns (ls: seq<Label>)
    requires AnsweredLoad(w, i) && RamCall(c) && c.store.None?
    ensures Run(w, ls) && EarlyEdges(w, ls) == 1
    ensures Exec(w, ls).hist.completed
            == w.hist.completed + [Done(w.phase.call, ReplyBytes(w.phase.call, w.ctx.rdata)),
                                   Done(c, ReplyBytes(c, w.ram.mem[i]))]
  {
    hide Edge, Encode, ReplyBytes, InRam, InIomem, RamIndex;
    EarlyEdge(w, i, e);
    LoadHasNoLanes(c);
    RunNext(w, [], ClockEdge(e));
    ls := [ClockEdge(e)];
    RunNext(w, ls, Wake);
    ls := ls + [Wake];
    RunNext(w, ls, CallBus(c));
    ls := ls + [CallBus(c)];
    var overtaken := Exec(w, ls);
    OvertakenEdge(overtaken, i, e);
    RunNext(w, ls, ClockEdge(e));
    ls := ls + [ClockEdge(e)];
    WrongCapture(Exec(w, ls), i, e);
    RunNext(w, ls, ClockEdge(e));
    ls := ls + [ClockEdge(e)];
    RunNext(w, ls, Wake);
    ls := ls + [Wake];
  }

  lemma LoadHasNoLanes(c: Call)
    requires RamCall(c) && c.store.None?
    ensures Encode(c).wstrb == NO_LANES && InRam(Encode(c).addr)
  {
  }

  lemma WrongCapture(w: World, i: nat, e: Env)
    requires w.resetn && !w.tb.done && !w.ctx.failed && !w.tb.pending && w.ctx.running && w.ctx.initialized
    requires w.ctx.valid && !w.ctx.ready && !w.ctx.waitLow
    requires w.bus.valid && w.bus.req.wstrb == NO_LANES && InRam(w.bus.req.addr) && w.ram.ready
    requires w.phase.Waiting?
    ensures var now := Edge(w, e);
            && now.phase == w.phase && now.hist == w.hist && !now.ctx.failed
            && now.ctx.valid && now.ctx.ready && now.ctx.rdata == w.ram.rdata
  {
  }

  /** The SoC between power-up and its first request. */
  predicate Quiet(w: World, mem: seq<Word>) {
    && !w.ctx.valid && !w.ctx.ready && !w.ctx.failed && !w.ctx.stop && !w.ctx.waitLow && w.ctx.steps == 0
    && !w.bus.valid && !w.ram.ready && w.ram.mem == mem
    && !w.tb.done && !w.tb.pending && w.hist == Hist([], [], [])
  }

  predicate InReset(w: World, mem: seq<Word>) {
    Quiet(w, mem) && w.phase.NotStarted? && !w.resetn && !w.ctx.running && !w.ctx.initialized
  }

  lemma QuietEdge(w: World, mem: seq<Word>, e: Env)
    requires Quiet(w, mem) && e.initOk
    ensures var now := Edge(w, e);
            && Quiet(now, mem) && now.resetn == w.resetn && now.edges == w.edges + 1
            && (InReset(w, mem) ==> InReset(now, mem))
            && (w.resetn ==> now.ctx.initialized && now.ctx.running
                             && now.phase == if w.phase.NotStarted? then Top else w.phase)
  {
  }

  lemma {:induction false} ResetRun(mem: seq<Word>, e: Env, n: nat) returns (ls: seq<Label>)
    requires e.initOk
    ensures Run(Init(mem), ls) && PromptRun(Init(mem), ls)
    ensures InReset(Exec(Init(mem), ls), mem) && Exec(Init(mem), ls).edges == n
  {
    hide Edge;
    if n == 0 {
      ls := [];
    } else {
      ls := ResetRun(mem, e, n - 1);
      QuietEdge(Exec(Init(mem), ls), mem, e);
      RunNext(Init(mem), ls, ClockEdge(e));
      ls := ls + [ClockEdge(e)];
    }
  }

  /** The four edges of a load of RAM word i: present, access, capture, dead cycle. */
  predicate LoadStage(w: World, mem: seq<Word>, c: Call, stage: nat) {
    && w.resetn && !w.tb.done && !w.tb.pending && !w.ctx.failed && !w.ctx.stop
    && w.ctx.initialized && w.ctx.running && w.phase.Waiting? && w.phase.call == c && w.phase.budget > 0
    && w.ctx.valid && w.ctx.req == Encode(c) && w.ram.mem == mem && w.hist == Hist([c], [], [])
    && (w.ctx.ready <==> stage >= 3) && (w.ctx.waitLow <==> stage == 3)
    && (w.bus.valid <==> 1 <= stage <= 3) && (w.bus.valid ==> w.bus.req == Encode(c))
    && (stage < 4 ==> (w.ram.ready <==> stage == 2))
    && (stage >= 2 && RamIndex(Encode(c).addr) < |mem| ==>
          (stage == 2 ==> w.ram.rdata == mem[RamIndex(Encode(c).addr)])
          && (stage >= 3 ==> w.ctx.rdata == mem[RamIndex(Encode(c).addr)]))
  }

  lemma LoadEdge(w: World, mem: seq<Word>, c: Call, stage: nat, e: Env)
    requires LoadStage(w, mem, c, stage) && stage < 4
    requires RamCall(c) && c.store.None? && |mem| == MEM_WORDS && RamIndex(Encode(c).addr) < MEM_WORDS
    ensures LoadStage(Edge(w, e), mem, c, stage + 1) && Prompt(w, ClockEdge(e))
  {
    var r := Encode(c);
    assert r.wstrb == NO_LANES;
    assert Merge(mem[RamIndex(r.addr)], r.wdata, r.wstrb) == mem[RamIndex(r.addr)];
    assert mem[RamIndex(r.addr) := mem[RamIndex(r.addr)]] == mem;
    hide Encode, Merge, RamIndex;
  }

  /** A run that respects the assumption up to its last state, in which c1 has its reply. */
  lemma {:induction false} RunToAnswer(mem: seq<Word>, c: Call, e: Env) returns (ls: seq<Label>)
    requires |mem| == MEM_WORDS && RamCall(c) && c.store.None? && e.initOk
    ensures Run(Init(mem), ls) && PromptRun(Init(mem), ls)
    ensures LoadStage(Exec(Init(mem), ls), mem, c, 4)
  {
    hide Edge, Encode, RamIndex, InRam, LoadStage;
    OffsetFits(c);
    ls := ResetRun(mem, e, RESET_EDGES);
    var w := Init(mem);
    RunNext(w, ls, ReleaseReset);
    ls := ls + [ReleaseReset];
    QuietEdge(Exec(w, ls), mem, e);
    RunNext(w, ls, ClockEdge(e));
    ls := ls + [ClockEdge(e)];
    RunNext(w, ls, Begin(2));
    ls := ls + [Begin(2)];
    RunNext(w, ls, CallBus(c));
    var before := Exec(w, ls);
    ls := ls + [CallBus(c)];
    FirstStage(before, mem, c);
    var stage := 0;
    while stage < 4
      invariant stage <= 4 && Run(w, ls) && PromptRun(w, ls) && LoadStage(Exec(w, ls), mem, c, stage)
    {
      LoadEdge(Exec(w, ls), mem, c, stage, e);
      assert !Exec(w, ls).tb.done by {
        StageOpen(Exec(w, ls), mem, c, stage);
      }
      RunNext(w, ls, ClockEdge(e));
      ls := ls + [ClockEdge(e)];
      stage := stage + 1;
    }
  }

  lemma StageOpen(w: World, mem: seq<Word>, c: Call, stage: nat)
    requires LoadStage(w, mem, c, stage)
    ensures !w.tb.done
  {
  }

  lemma FirstStage(w: World, mem: seq<Word>, c: Call)
    requires Quiet(w, mem) && w.resetn && w.ctx.initialized && w.ctx.running && w.phase == InStep(2)
    requires Legal(c)
    ensures LoadStage(Issue(w, c), mem, c, 0)
  {
    hide Encode;
  }

  /** The assumption cannot be dropped, not even for one edge: whenever two loads read different bytes, there is a
      run with a single early edge in which the second load returns the first one's word, and the bus
      is then no atomic memory. */
  lemma {:induction false} AssumptionIsNeeded(mem: seq<Word>, c1: Call, c2: Call, e: Env) returns (ls: seq<Label>)
    requires |mem| == MEM_WORDS && e.initOk
    requires RamCall(c1) && RamCall(c2) && c1.store.None? && c2.store.None?
    requires RamIndex(Encode(c1).addr) < MEM_WORDS && RamIndex(Encode(c2).addr) < MEM_WORDS
    requires ReplyBytes(c2, mem[RamIndex(Encode(c1).addr)]) != ReplyBytes(c2, mem[RamIndex(Encode(c2).addr)])
    ensures Run(Init(mem), ls) && EarlyEdges(Init(mem), ls) == 1
    ensures !AtomicTrace(Flatten(mem), Exec(Init(mem), ls).hist.completed)
  {
    var front := RunToAnswer(mem, c1, e);
    var w := Exec(Init(mem), front);
    var i := RamIndex(Encode(c1).addr);
    assert AnsweredLoad(w, i);
    var back := StaleReply(w, i, e, c2);
    RunsCompose(Init(mem), front, back);
    PromptHasNoEarlyEdge(Init(mem), front);
    ls := front + back;
    var ds := Exec(Init(mem), ls).hist.completed;
    assert ds == [Done(c1, ReplyBytes(c1, w.ctx.rdata)), Done(c2, ReplyBytes(c2, mem[i]))];
    NotAtomic(mem, ds, i);
  }

  lemma NotAtomic(mem: seq<Word>, ds: seq<Done>, i: nat)
    requires |mem| == MEM_WORDS && |ds| == 2 && i < MEM_WORDS
    requires ds[0].call.store.None? && RamCall(ds[1].call) && ds[1].call.store.None?
    requires RamIndex(Encode(ds[1].call).addr) < MEM_WORDS
    requires ds[1].bytes != ReplyBytes(ds[1].call, mem[RamIndex(Encode(ds[1].call).addr)])
    ensures !AtomicTrace(Flatten(mem), ds)
  {
    var m := Flatten(mem);
    assert ds[..1][..0] == [];
    assert Replay(m, ds[..1]) == m;
    RamReply(mem, ds[1].call, mem[RamIndex(Encode(ds[1].call).addr)]);
  }

  lemma {:induction false} RunsCompose(w: World, front: seq<Label>, back: seq<Label>)
    requires Run(w, front) && Run(Exec(w, front), back)
    ensures Run(w, front + back) && Exec(w, front + back) == Exec(Exec(w, front), back)
    ensures EarlyEdges(w, front + back) == EarlyEdges(w, front) + EarlyEdges(Exec(w, front), back)
  {
    hide CanStep, Step, Prompt;
    if back == [] {
      assert front + back == front;
    } else {
      RunsCompose(w, front, back[..|back| - 1]);
      assert (front + back)[..|front + back| - 1] == front + back[..|back| - 1];
    }
  }
}
