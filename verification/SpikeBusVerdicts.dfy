/** How a run on the Spike bus fails and ends, told by the steps taken and the words handled: nothing here needs the
    scheduling assumption. */
module SpikeBusVerdicts {
  import opened ByteLanes
  import opened Options
  import opened SimMarkers
  import opened SpikeBus
  import opened SpikeBusInvariant
  import opened SpikeBusTheorems

  // ---------------------------------------------------------------- steps and exit codes

  /** The cpu steps completed in a run. */
  function StepsDone(ls: seq<Label>): nat {
    if ls == [] then 0 else StepsDone(ls[..|ls| - 1]) + if ls[|ls| - 1].End? then 1 else 0
  }

  lemma {:induction false} StepsAreCounted(mem: seq<Word>, ls: seq<Label>)
    requires Run(Init(mem), ls)
    ensures Exec(Init(mem), ls).ctx.steps == StepsDone(ls) <= 2_000_000
  {
    StepBound(mem, ls);
    hide CanStep, Step;
    if ls != [] {
      StepsAreCounted(mem, ls[..|ls| - 1]);
      OneStepCounted(Exec(Init(mem), ls[..|ls| - 1]), ls[|ls| - 1]);
    }
  }

  lemma {:induction false} OneStepCounted(w: World, l: Label)
    requires CanStep(w, l)
    ensures Step(w, l).ctx.steps == w.ctx.steps + if l.End? then 1 else 0
  {
    hide Encode, Edge;
    if l.ClockEdge? {
      EdgeTakesNoStep(w, l.env);
    }
  }

  /** The worker starts another cpu step exactly while the run is neither stopping nor failed and fewer than two
      million steps are done; at the limit it fails the run with code 1, otherwise it just returns. */
  lemma {:induction false} StartsAnotherStepIff(mem: seq<Word>, ls: seq<Label>, n: nat)
    requires Run(Init(mem), ls) && CanStep(Exec(Init(mem), ls), Begin(n))
    ensures var w := Exec(Init(mem), ls);
            var now := Step(w, Begin(n));
            var live := !w.ctx.stop && !w.ctx.failed;
            && (now.phase == InStep(n) <==> live && StepsDone(ls) < 2_000_000)
            && (now.phase != InStep(n) ==> now.phase == Returned)
            && now.ctx == if live && StepsDone(ls) >= 2_000_000 then w.ctx.(failed := true, exitCode := 1) else w.ctx
  {
    StepsAreCounted(mem, ls);
    hide Run, Exec;
  }

  /** The step that ends a run sets its exit code: 1 after a timeout or a failure, else the code of the last status
      word handled, 0 for 0x83 and 0x81, 1 for 0x82. */
  lemma {:induction false} EndingSetsTheCode(mem: seq<Word>, ls: seq<Label>, l: Label)
    requires Run(Init(mem), ls) && CanStep(Exec(Init(mem), ls), l)
    requires !Exec(Init(mem), ls).tb.done && Step(Exec(Init(mem), ls), l).tb.done
    ensures var w := Exec(Init(mem), ls);
            var now := Step(w, l);
            && now.ctx.stop && (l.TimeoutFires? || l.ClockEdge?)
            && (l.TimeoutFires? || (w.resetn && now.ctx.failed) ==> now.ctx.exitCode == 1)
            && (l.ClockEdge? && !(w.resetn && now.ctx.failed)
                ==> LastStatus(now.hist.handled) == Some(now.ctx.exitCode))
  {
    hide Run, Exec, Step, CanStep, LastStatus, Countdown;
    var w := Exec(Init(mem), ls);
    CountdownIff(mem, ls);
    RunKeepsOrder(mem, ls);
    StepKeepsOrder(w, l);
    CountdownStep(w, l);
    EndingStep(w, l);
    hide InvSlot;
    if Step(w, l).tb.pending {
      CountdownFacts(Step(w, l));
    }
  }

  lemma EndingStep(w: World, l: Label)
    requires CanStep(w, l) && !w.tb.done && Step(w, l).tb.done
    ensures var now := Step(w, l);
            && (l.TimeoutFires? || l.ClockEdge?)
            && (l.TimeoutFires? || (w.resetn && now.ctx.failed) ==> now.ctx.exitCode == 1)
            && (l.ClockEdge? && !(w.resetn && now.ctx.failed) ==> now.tb.pending && now.ctx.exitCode == now.tb.code)
  {
    hide Edge, Encode;
    if l.ClockEdge? {
      EdgeEnds(w, l.env);
    }
  }

  lemma EdgeEnds(w: World, e: Env)
    requires !w.tb.done && Edge(w, e).tb.done
    ensures var now := Edge(w, e);
            if w.resetn && now.ctx.failed then now.ctx.exitCode == 1
            else now.tb.pending && now.ctx.exitCode == now.tb.code
  {
    hide RamEdge, MemRdata, MemReady, Fire, Handles, Observe, Settle;
    var (ctx, _) := DpiStep(w.ctx, w.resetn, Response(w, e), MemRdata(w, e), e.initOk);
    var t := Observe(w.tb, Fire(w), w.bus.req.addr == SIM_MMIO, w.bus.req.wdata.b0,
                     w.bus.valid && MemReady(w, e) && RamSel(w), !AnyLane(w.bus.req.wstrb));
    ObserveKeepsDone(w.tb, Fire(w), w.bus.req.addr == SIM_MMIO, w.bus.req.wdata.b0,
                     w.bus.valid && MemReady(w, e) && RamSel(w), !AnyLane(w.bus.req.wstrb));
    SettleEnds(t, w.resetn && ctx.failed);
    hide RamSel, Response, AnyLane;
  }

  lemma ObserveKeepsDone(tb: Tb, fire: bool, isMmio: bool, value: bv8, acked: bool, isRead: bool)
    ensures Observe(tb, fire, isMmio, value, acked, isRead).done == tb.done
  {
  }

  lemma SettleEnds(t: Tb, broken: bool)
    requires !t.done
    ensures var (now, code) := Settle(t, broken);
            && (now.done <==> code.Some?)
            && (now.done ==> code == if broken then Some(1) else Some(now.code))
            && (now.done && !broken ==> now.pending)
  {
  }

  /** Nothing changes the exit code of an ended run. */
  lemma {:induction false} CodeIsFinal(mem: seq<Word>, ls: seq<Label>, more: seq<Label>)
    requires Run(Init(mem), ls) && Exec(Init(mem), ls).tb.done && Run(Exec(Init(mem), ls), more)
    ensures var now := Exec(Exec(Init(mem), ls), more);
            now.tb.done && now.ctx.exitCode == Exec(Init(mem), ls).ctx.exitCode
  {
    RunKeepsOrder(mem, ls);
    CodeStays(Exec(Init(mem), ls), more);
  }

  lemma {:induction false} CodeStays(w: World, ls: seq<Label>)
    requires Orderly(w) && w.tb.done && Run(w, ls)
    ensures Orderly(Exec(w, ls)) && Exec(w, ls).tb.done && Exec(w, ls).ctx.exitCode == w.ctx.exitCode
  {
    hide Step, CanStep, InvSlot;
    if ls != [] {
      var before, l := Exec(w, ls[..|ls| - 1]), ls[|ls| - 1];
      CodeStays(w, ls[..|ls| - 1]);
      StepKeepsOrder(before, l);
      CodeStep(before, l);
    }
  }

  lemma CodeStep(w: World, l: Label)
    requires w.tb.done && w.ctx.stop && CanStep(w, l)
    ensures Step(w, l).tb == w.tb && Step(w, l).ctx.exitCode == w.ctx.exitCode
  {
    hide Encode;
  }

  // ---------------------------------------------------------------- the countdown

  /** 0x00 was handled after a status word, and no status word since. */
  predicate Quitting(ws: seq<Word>) {
    ws != []
    && var b := ws[|ws| - 1].b0;
       if b == 0x83 || b == 0x81 || b == 0x82 then false
       else Quitting(ws[..|ws| - 1]) || (b == 0x00 && LastStatus(ws[..|ws| - 1]).Some?)
  }

  /** The testbench keeps the code of the last status word, and counts down exactly after a quit that follows it. */
  predicate Countdown(w: World) {
    && (w.tb.pending <==> LastStatus(w.hist.handled).Some?)
    && (w.tb.pending ==> LastStatus(w.hist.handled) == Some(w.tb.code))
    && -1 <= w.tb.delay <= 3
    && (w.tb.delay >= 0 <==> Quitting(w.hist.handled))
  }

  lemma CountdownFacts(w: World)
    requires Countdown(w) && w.tb.pending
    ensures LastStatus(w.hist.handled) == Some(w.tb.code)
  {
  }

  /** In every run, prompt or not: the words handled decide whether a finish is pending, with which code, and whether
      the countdown runs. A new status word stops it. */
  lemma {:induction false} CountdownIff(mem: seq<Word>, ls: seq<Label>)
    requires Run(Init(mem), ls)
    ensures Countdown(Exec(Init(mem), ls))
  {
    if ls != [] {
      hide Step, CanStep, Countdown;
      CountdownIff(mem, ls[..|ls| - 1]);
      CountdownStep(Exec(Init(mem), ls[..|ls| - 1]), ls[|ls| - 1]);
    }
  }

  lemma {:induction false} CountdownStep(w: World, l: Label)
    requires Countdown(w) && CanStep(w, l)
    ensures Countdown(Step(w, l))
  {
    hide LastStatus, Quitting, Encode, Edge;
    if l.ClockEdge? {
      CountdownEdge(w, l.env);
    }
  }

  lemma {:induction false} CountdownEdge(w: World, e: Env)
    requires Countdown(w) && !w.tb.done
    ensures Countdown(Edge(w, e))
  {
    hide LastStatus, Quitting, Encode, RamEdge, MemRdata, MemReady, Fire, AnyLane, DpiStep;
    if Handles(w) {
      LastStatusNext(w.hist.handled, w.bus.req.wdata);
      QuittingNext(w.hist.handled, w.bus.req.wdata);
    }
  }

  lemma {:induction false} QuittingNext(ws: seq<Word>, v: Word)
    ensures Quitting(ws + [v])
            <==> if v.b0 == 0x83 || v.b0 == 0x81 || v.b0 == 0x82 then false
                 else Quitting(ws) || (v.b0 == 0x00 && LastStatus(ws).Some?)
  {
    assert (ws + [v])[..|ws|] == ws;
  }

  // ---------------------------------------------------------------- failures

  /** Spike has been set up at a clock edge after the release of reset. */
  predicate SetUp(ls: seq<Label>) {
    ls != []
    && var front, l := ls[..|ls| - 1], ls[|ls| - 1];
       SetUp(front) || (l.ClockEdge? && l.env.initOk && ReleaseReset in front)
  }

  /** The run has had a reason to fail: Spike could not be set up, a cpu step threw, or the step limit was reached
      before the run ended. */
  predicate Broken(mem: seq<Word>, ls: seq<Label>)
    requires Run(Init(mem), ls)
  {
    ls != []
    && var front, l := ls[..|ls| - 1], ls[|ls| - 1];
       || Broken(mem, front)
       || l.Escape?
       || (l.ClockEdge? && !l.env.initOk && ReleaseReset in front && !SetUp(front))
       || (l.Begin? && StepsDone(front) >= 2_000_000 && !Exec(Init(mem), front).tb.done)
  }

  /** The worker thread runs exactly once Spike has been set up. */
  lemma {:induction false} SetUpIff(mem: seq<Word>, ls: seq<Label>)
    requires Run(Init(mem), ls)
    ensures var w := Exec(Init(mem), ls);
            && (w.resetn <==> ReleaseReset in ls)
            && (w.ctx.initialized <==> SetUp(ls)) && (w.phase.NotStarted? <==> !SetUp(ls))
  {
    hide Step, CanStep, Orderly;
    if ls != [] {
      var front, l := ls[..|ls| - 1], ls[|ls| - 1];
      SetUpIff(mem, front);
      RunKeepsOrder(mem, front);
      OneStepFails(Exec(Init(mem), front), l);
      assert ls == front + [l];
    }
  }

  /** In every run `failed` is set exactly for such a reason. */
  lemma {:induction false} FailedIff(mem: seq<Word>, ls: seq<Label>)
    requires Run(Init(mem), ls)
    ensures var w := Exec(Init(mem), ls);
            && (w.ctx.failed <==> Broken(mem, ls))
            && (w.ctx.initialized <==> SetUp(ls)) && (w.resetn <==> ReleaseReset in ls)
  {
    SetUpIff(mem, ls);
    hide Step, CanStep, Orderly, SetUp, StepsDone;
    if ls != [] {
      var front, l := ls[..|ls| - 1], ls[|ls| - 1];
      FailedIff(mem, front);
      RunKeepsOrder(mem, front);
      StepsAreCounted(mem, front);
      OneStepFails(Exec(Init(mem), front), l);
    }
  }

  lemma {:induction false} OneStepFails(w: World, l: Label)
    requires CanStep(w, l) && Orderly(w)
    ensures var now := Step(w, l);
            && (now.resetn <==> w.resetn || l.ReleaseReset?)
            && (now.ctx.initialized <==> w.ctx.initialized || (l.ClockEdge? && l.env.initOk && w.resetn))
            && ((w.phase.NotStarted? <==> !w.ctx.initialized) ==> (now.phase.NotStarted? <==> !now.ctx.initialized))
            && (now.ctx.failed
                <==> || w.ctx.failed || l.Escape?
                     || (l.ClockEdge? && !l.env.initOk && w.resetn && !w.ctx.initialized)
                     || (l.Begin? && w.ctx.steps >= 2_000_000 && !w.tb.done))
  {
    hide Encode, Edge, Calls;
    if l.ClockEdge? {
      EdgeFails(w, l.env);
    }
  }

  lemma EdgeFails(w: World, e: Env)
    requires !w.tb.done && (w.phase.NotStarted? <==> !w.ctx.running) && (w.ctx.running ==> w.resetn)
    ensures var now := Edge(w, e);
            && now.resetn == w.resetn
            && (now.ctx.initialized <==> w.ctx.initialized || (e.initOk && w.resetn))
            && ((w.phase.NotStarted? <==> !w.ctx.initialized) ==> (now.phase.NotStarted? <==> !now.ctx.initialized))
            && (now.ctx.failed <==> w.ctx.failed || (!e.initOk && w.resetn && !w.ctx.initialized))
  {
    hide RamEdge, TbEdge, MemRdata, MemReady, Handles;
  }

  /** A failed run ends at its next clock edge after the release of reset, with exit code 1. */
  lemma {:induction false} FailureEndsTheRun(mem: seq<Word>, ls: seq<Label>, e: Env)
    requires Run(Init(mem), ls) && CanStep(Exec(Init(mem), ls), ClockEdge(e))
    requires ReleaseReset in ls && (Broken(mem, ls) || (!e.initOk && !SetUp(ls)))
    ensures var now := Step(Exec(Init(mem), ls), ClockEdge(e));
            now.tb.done && now.ctx.stop && now.ctx.exitCode == 1
  {
    hide Broken, SetUp, Run, Exec, Edge;
    FailedIff(mem, ls);
    RunKeepsOrder(mem, ls);
    var w := Exec(Init(mem), ls);
    EdgeFails(w, e);
    FailedEdge(w, e);
  }

  lemma FailedEdge(w: World, e: Env)
    requires !w.tb.done && w.resetn && Edge(w, e).ctx.failed
    ensures Edge(w, e).tb.done && Edge(w, e).ctx.stop && Edge(w, e).ctx.exitCode == 1
  {
    hide RamEdge, MemRdata, MemReady, Fire, Handles, Observe, RamSel, Response, AnyLane;
  }
}
