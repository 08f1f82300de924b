/** What a run of the lockstep checker proves about the DUT, and how its counters behave. */
module CosimProofs {
  import opened CosimSession

  // ---------------------------------------------------------------- runs of detail steps

  /** The session after the calls ds. */
  function Details(s: Session, ds: seq<Detail>): Session {
    if ds == [] then s else StepDetail(Details(s, ds[..|ds| - 1]), ds[|ds| - 1]).0
  }

  /** The verdict on call k of a session whose simulator stands at `start`: it is judged against the
      k-th reference step, whatever the verdicts before it were. */
  function VerdictAt(t: Trace, start: nat, ds: seq<Detail>, k: nat): Verdict
    requires k < |ds|
  {
    Judge(t(start + k), t(start + k + 1), ds[k])
  }

  function Accepted(t: Trace, start: nat, ds: seq<Detail>): nat {
    if ds == [] then 0
    else Accepted(t, start, ds[..|ds| - 1])
         + if Judge(t(start + |ds| - 1), t(start + |ds|), ds[|ds| - 1]).Accept? then 1 else 0
  }

  function Rejected(t: Trace, start: nat, ds: seq<Detail>): nat {
    if ds == [] then 0
    else Rejected(t, start, ds[..|ds| - 1])
         + if Judge(t(start + |ds| - 1), t(start + |ds|), ds[|ds| - 1]).Reject? then 1 else 0
  }

  lemma OneDetail(s: Session, d: Detail)
    requires Checks(s)
    ensures var now := StepDetail(s, d).0;
            var verdict := Judge(Here(s), s.sim.value.trace(s.position + 1), d);
            && Checks(now) && now.sim == s.sim && now.position == s.position + 1
            && now.passCount == s.passCount + (if verdict.Accept? then 1 else 0)
            && now.failCount == s.failCount + (if verdict.Reject? then 1 else 0)
            && |now.errors| == |s.errors| + (if verdict.Reject? then 1 else 0)
  {
    hide Judge;
  }

  /** Lockstep: every detail call past the guards moves the simulator by exactly one step, passed or
      failed, so the counters are those of a comparison of call k with reference step k. */
  lemma {:induction false} DetailLockstep(s: Session, ds: seq<Detail>)
    requires Checks(s)
    ensures var now := Details(s, ds);
            var t := s.sim.value.trace;
            && Checks(now) && now.sim == s.sim && now.position == s.position + |ds|
            && now.passCount == s.passCount + Accepted(t, s.position, ds)
            && now.failCount == s.failCount + Rejected(t, s.position, ds)
            && |now.errors| == |s.errors| + Rejected(t, s.position, ds)
  {
    hide Judge, StepDetail;
    if ds != [] {
      hide Checks;
      DetailLockstep(s, ds[..|ds| - 1]);
      OneDetail(Details(s, ds[..|ds| - 1]), ds[|ds| - 1]);
    }
  }

  // ---------------------------------------------------------------- registers

  function Lows(r: Regs): Regs {
    seq(32, i requires 0 <= i < 32 => Low32(r[i]))
  }

  /** A register file after the write a DUT reports. */
  function Written(r: Regs, d: Detail): Regs {
    if 1 <= d.writeReg < 32 then r[d.writeReg := d.data] else r
  }

  /** The registers, x0 aside, on which two files differ. */
  function Differing(dut: Regs, iss: Regs): set<nat> {
    set i: nat | 1 <= i < 32 && dut[i] != Low32(iss[i])
  }

  /** The rebuilt register file of the DUT. */
  function Rebuilt(dut: Regs, ds: seq<Detail>): Regs {
    if ds == [] then dut else Written(Rebuilt(dut, ds[..|ds| - 1]), ds[|ds| - 1])
  }

  /** How many registers a call may leave unknown: one if its write is suppressed, two if it reads a
      volatile counter. */
  function Slack(d: Detail): nat {
    if d.trap then 0 else if d.suppress then 1 else if Volatile(d) then 2 else 0
  }

  function TotalSlack(ds: seq<Detail>): nat {
    if ds == [] then 0 else TotalSlack(ds[..|ds| - 1]) + Slack(ds[|ds| - 1])
  }

  /** An ordinary accepted call: the write the DUT reports turns the reference registers before the step
      into those after it, and an exact report is never turned down. */
  lemma AcceptIsExact(before: Regs, after: Regs, d: Detail)
    requires !d.trap && !d.suppress && !Volatile(d) && d.writeReg < 32 && d.data < 0x1_0000_0000
    ensures JudgeGpr(before, after, d).Accept?
            <==> forall i | 1 <= i < 32 :: Low32(after[i]) == Written(Lows(before), d)[i]
  {
    var changed := Changed(before, after);
    var r := d.writeReg;
    if forall i | 1 <= i < 32 :: Low32(after[i]) == Written(Lows(before), d)[i] {
      assert changed <= {r};
      if changed == {} {
        assert r == 0 || Low32(after[r]) == d.data;
      } else {
        assert changed == {r};
      }
    }
    if JudgeGpr(before, after, d).Accept? {
      forall i | 1 <= i < 32
        ensures Low32(after[i]) == Written(Lows(before), d)[i]
      {
        if Low32(before[i]) != Low32(after[i]) {
          assert i in changed;
        }
      }
    }
  }

  lemma SubsetCard(a: set<nat>, b: set<nat>)
    requires a <= b
    ensures |a| <= |b|
  {
    var rest := b - a;
    assert b == a + rest;
  }

  /** One accepted step widens the difference by at most its slack. */
  lemma StepDiffers(dut: Regs, before: Regs, after: Regs, d: Detail)
    requires JudgeGpr(before, after, d).Accept? && d.writeReg < 32 && d.data < 0x1_0000_0000
    requires d.trap ==> d.writeReg == 0 && Changed(before, after) == {}
    ensures |Differing(Written(dut, d), after)| <= |Differing(dut, before)| + Slack(d)
  {
    var was, now, changed := Differing(dut, before), Differing(Written(dut, d), after), Changed(before, after);
    if d.trap || (!d.suppress && !Volatile(d)) {
      if !d.trap {
        AcceptIsExact(before, after, d);
      }
      assert now <= was by {
        forall i | i in now
          ensures i in was
        {
          if d.trap {
            assert i !in changed;
          }
        }
      }
      SubsetCard(now, was);
    } else {
      var touched := changed + (if d.writeReg == 0 then {} else {d.writeReg});
      assert now <= was + touched by {
        forall i | i in now && i !in touched
          ensures i in was
        {
          assert i !in changed;
        }
      }
      SubsetCard(now, was + touched);
      assert |touched| <= |changed| + if d.writeReg == 0 then 0 else 1;
      assert |was + touched| <= |was| + |touched|;
    }
  }

  /** Register-file soundness: over any run of accepted calls, the registers rebuilt from the DUT's
      reports differ from the reference in at most the total slack, beyond what differed at the
      start. */
  lemma {:induction false} RegistersStayEqual(t: Trace, start: nat, ds: seq<Detail>, dut: Regs)
    requires forall k | 0 <= k < |ds| ::
               && VerdictAt(t, start, ds, k).Accept? && ds[k].writeReg < 32 && ds[k].data < 0x1_0000_0000
               && (ds[k].trap ==> Changed(t(start + k).regs, t(start + k + 1).regs) == {})
    ensures |Differing(Rebuilt(dut, ds), t(start + |ds|).regs)| <= |Differing(dut, t(start).regs)| + TotalSlack(ds)
  {
    hide Judge, JudgeGpr, Differing, Written, Changed, Slack, Volatile;
    if ds != [] {
      var front, d := ds[..|ds| - 1], ds[|ds| - 1];
      forall k | 0 <= k < |front|
        ensures front[k] == ds[k] && VerdictAt(t, start, front, k) == VerdictAt(t, start, ds, k)
      {
      }
      RegistersStayEqual(t, start, front, dut);
      assert VerdictAt(t, start, ds, |ds| - 1).Accept?;
      AcceptChecksGpr(t(start + |front|), t(start + |ds|), d);
      StepDiffers(Rebuilt(dut, front), t(start + |front|).regs, t(start + |ds|).regs, d);
    }
  }

  lemma AcceptChecksGpr(before: View, after: View, d: Detail)
    requires Judge(before, after, d).Accept?
    ensures JudgeGpr(before.regs, after.regs, d).Accept? && (d.trap ==> d.writeReg == 0)
  {
  }

  /** Hence no difference at all when the files start equal and no call had slack. */
  lemma EqualRegisters(t: Trace, start: nat, ds: seq<Detail>, dut: Regs)
    requires forall k | 0 <= k < |ds| ::
               && VerdictAt(t, start, ds, k).Accept? && ds[k].writeReg < 32 && ds[k].data < 0x1_0000_0000
               && (ds[k].trap ==> Changed(t(start + k).regs, t(start + k + 1).regs) == {})
    requires Differing(dut, t(start).regs) == {} && TotalSlack(ds) == 0
    ensures forall i | 1 <= i < 32 :: Rebuilt(dut, ds)[i] == Low32(t(start + |ds|).regs[i])
  {
    RegistersStayEqual(t, start, ds, dut);
    assert Differing(Rebuilt(dut, ds), t(start + |ds|).regs) == {};
    forall i: nat | 1 <= i < 32
      ensures Rebuilt(dut, ds)[i] == Low32(t(start + |ds|).regs[i])
    {
      assert i !in Differing(Rebuilt(dut, ds), t(start + |ds|).regs);
    }
  }

  /** The same, told by the session's own counter: if every call raised pass_count, the rebuilt DUT
      registers are within the total slack of the reference. */
  lemma PassCountMeansRegistersAgree(s: Session, ds: seq<Detail>, dut: Regs)
    requires Checks(s) && Details(s, ds).passCount == s.passCount + |ds|
    requires forall k | 0 <= k < |ds| ::
               && ds[k].writeReg < 32 && ds[k].data < 0x1_0000_0000
               && (ds[k].trap ==> Changed(s.sim.value.trace(s.position + k).regs,
                                          s.sim.value.trace(s.position + k + 1).regs) == {})
    ensures var now := Details(s, ds);
            && now.sim == s.sim && now.position == s.position + |ds|
            && |Differing(Rebuilt(dut, ds), Here(now).regs)| <= |Differing(dut, Here(s).regs)| + TotalSlack(ds)
  {
    hide Judge, StepDetail, Details, Accepted, Rejected, Differing, Changed, Rebuilt, TotalSlack, VerdictAt;
    DetailLockstep(s, ds);
    AllAcceptedIff(s.sim.value.trace, s.position, ds);
    RegistersStayEqual(s.sim.value.trace, s.position, ds, dut);
  }

  /** A report that states what the reference did: its pc; for a trap no write; else the write, possibly of the
      value already there, that turns its old registers into its new ones; and the CSR value it has, if
      one is observed. */
  predicate Honest(before: View, after: View, d: Detail) {
    && !before.throws && d.pc == Low32(before.pc)
    && (if d.trap then d.writeReg == 0
        else forall i | 1 <= i < 32 :: Low32(after.regs[i]) == Written(Lows(before.regs), d)[i])
    && CsrAgrees(after, d)
  }

  /** Report k is honest about the reference step it is judged against. */
  predicate HonestAt(t: Trace, start: nat, ds: seq<Detail>, k: nat)
    requires k < |ds|
  {
    Honest(t(start + k), t(start + k + 1), ds[k])
  }

  /** Outside the two lenient cases a call is accepted if and only if its report is honest. */
  lemma {:induction false} AcceptedIffHonest(before: View, after: View, d: Detail)
    requires !d.suppress && !Volatile(d) && d.writeReg < 32 && d.data < 0x1_0000_0000
    ensures Judge(before, after, d).Accept? <==> Honest(before, after, d)
  {
    hide CsrAgrees, Written, Lows, Changed, Volatile;
    if !d.trap {
      AcceptIsExact(before.regs, after.regs, d);
    }
  }

  lemma {:induction false} AllAcceptedIff(t: Trace, start: nat, ds: seq<Detail>)
    ensures Accepted(t, start, ds) + Rejected(t, start, ds) <= |ds|
    ensures Accepted(t, start, ds) == |ds| <==> forall k | 0 <= k < |ds| :: VerdictAt(t, start, ds, k).Accept?
  {
    hide Judge;
    if ds != [] {
      var front := ds[..|ds| - 1];
      AllAcceptedIff(t, start, front);
      assert forall k | 0 <= k < |front| :: VerdictAt(t, start, front, k) == VerdictAt(t, start, ds, k);
      assert VerdictAt(t, start, ds, |ds| - 1) == Judge(t(start + |ds| - 1), t(start + |ds|), ds[|ds| - 1]);
    }
  }

  /** Completeness and its converse, over runs: a session passes every call of a run, and fails none, if and
      only if every report is honest about the reference step it is judged against. */
  lemma {:induction false} RunPassesIffHonest(s: Session, ds: seq<Detail>)
    requires Checks(s)
    requires forall k | 0 <= k < |ds| ::
               !ds[k].suppress && !Volatile(ds[k]) && ds[k].writeReg < 32 && ds[k].data < 0x1_0000_0000
    ensures var now := Details(s, ds);
            var honest := forall k | 0 <= k < |ds| :: HonestAt(s.sim.value.trace, s.position, ds, k);
            && (now.passCount == s.passCount + |ds| <==> honest)
            && (honest ==> now.failCount == s.failCount && |now.errors| == |s.errors|)
  {
    hide VerdictAt, HonestAt, Details, Accepted, Rejected, Volatile;
    var t := s.sim.value.trace;
    DetailLockstep(s, ds);
    AllAcceptedIff(t, s.position, ds);
    forall k | 0 <= k < |ds|
      ensures VerdictAt(t, s.position, ds, k).Accept? <==> HonestAt(t, s.position, ds, k)
    {
      VerdictIffHonest(t, s.position, ds, k);
    }
  }

  lemma {:induction false} VerdictIffHonest(t: Trace, start: nat, ds: seq<Detail>, k: nat)
    requires k < |ds|
    requires !ds[k].suppress && !Volatile(ds[k]) && ds[k].writeReg < 32 && ds[k].data < 0x1_0000_0000
    ensures VerdictAt(t, start, ds, k).Accept? <==> HonestAt(t, start, ds, k)
  {
    hide Judge, Honest;
    AcceptedIffHonest(t(start + k), t(start + k + 1), ds[k]);
  }

  /** In particular a DUT that reports, without CSR observations, the reference's pc and either a trap or an exact
      write is never rejected. */
  lemma {:induction false} HonestDutIsAccepted(s: Session, ds: seq<Detail>)
    requires Checks(s)
    requires forall k | 0 <= k < |ds| ::
               && HonestAt(s.sim.value.trace, s.position, ds, k)
               && !ds[k].csrValid && !ds[k].suppress && ds[k].writeReg < 32 && ds[k].data < 0x1_0000_0000
    ensures var now := Details(s, ds);
            && Checks(now) && now.sim == s.sim && now.position == s.position + |ds|
            && now.passCount == s.passCount + |ds| && now.failCount == s.failCount && |now.errors| == |s.errors|
  {
    assert forall k | 0 <= k < |ds| :: !Volatile(ds[k]);
    hide HonestAt, Details, Volatile;
    RunPassesIffHonest(s, ds);
    DetailLockstep(s, ds);
  }

  // ---------------------------------------------------------------- retire streams

  datatype Entry = Entry(pc: nat, instr: nat)

  function Retires(s: Session, es: seq<Entry>): Session {
    if es == [] then s else Retire(Retires(s, es[..|es| - 1]), es[|es| - 1].pc, es[|es| - 1].instr).0
  }

  /** The reference stream ends at position j: an ebreak, or a compared instruction after which the
      simulator reports that it has finished. */
  predicate EndsAt(t: Trace, c: Config, j: nat) {
    IsEbreak(t(j).instr) || (EntryValid(c, t(j)) && t(j + 1).finished)
  }

  predicate LiveAt(t: Trace, c: Config, j: nat) {
    forall i | 0 <= i < j :: !EndsAt(t, c, i)
  }

  /** The positions of a DUT stream that a pointwise comparison with the reference passes, or fails. */
  function Agreeing(t: Trace, c: Config, es: seq<Entry>): set<nat> {
    set j: nat | 0 <= j < |es| && LiveAt(t, c, j) && EntryValid(c, t(j)) && Matches(t(j), es[j].pc, es[j].instr)
  }

  function Disagreeing(t: Trace, c: Config, es: seq<Entry>): set<nat> {
    set j: nat | 0 <= j < |es| && LiveAt(t, c, j) && EntryValid(c, t(j)) && !Matches(t(j), es[j].pc, es[j].instr)
  }

  lemma AgreeingNext(t: Trace, c: Config, es: seq<Entry>)
    requires es != []
    ensures var n, e := |es| - 1, es[|es| - 1];
            |Agreeing(t, c, es)| == |Agreeing(t, c, es[..n])|
              + (if LiveAt(t, c, n) && EntryValid(c, t(n)) && Matches(t(n), e.pc, e.instr) then 1 else 0)
  {
    hide Matches, EntryValid, LiveAt;
    var n, e := |es| - 1, es[|es| - 1];
    var last := if LiveAt(t, c, n) && EntryValid(c, t(n)) && Matches(t(n), e.pc, e.instr) then {n} else {};
    assert Agreeing(t, c, es) == Agreeing(t, c, es[..n]) + last;
  }

  lemma DisagreeingNext(t: Trace, c: Config, es: seq<Entry>)
    requires es != []
    ensures var n, e := |es| - 1, es[|es| - 1];
            |Disagreeing(t, c, es)| == |Disagreeing(t, c, es[..n])|
              + (if LiveAt(t, c, n) && EntryValid(c, t(n)) && !Matches(t(n), e.pc, e.instr) then 1 else 0)
  {
    hide Matches, EntryValid, LiveAt;
    var n, e := |es| - 1, es[|es| - 1];
    var last := if LiveAt(t, c, n) && EntryValid(c, t(n)) && !Matches(t(n), e.pc, e.instr) then {n} else {};
    assert Disagreeing(t, c, es) == Disagreeing(t, c, es[..n]) + last;
  }

  /** A session that has just been set up with a fetching backend. */
  predicate Ready(s: Session) {
    && s.initialized && s.sim.Some? && s.sim.value.caps.fetch && !s.finished && !s.referenceDone
    && s.position == 0 && s.passCount == 0 && s.failCount == 0 && s.compareIndex == 0
  }

  /** The meaning of a retire run: its counts are those of the pointwise comparison of the DUT stream with
      the reference stream, positions outside the reference region skipped, everything after the
      end ignored; a mismatch never shifts the alignment. */
  lemma {:induction false} RetireIsPointwise(s: Session, es: seq<Entry>)
    requires Ready(s) && forall j: nat :: !s.sim.value.trace(j).throws
    ensures var now := Retires(s, es);
            var t := s.sim.value.trace;
            && now.sim == s.sim && now.config == s.config && now.initialized && !now.finished
            && now.passCount == |Agreeing(t, s.config, es)|
            && now.failCount == |Disagreeing(t, s.config, es)|
            && now.compareIndex == now.passCount + now.failCount
            && (now.referenceDone <==> !LiveAt(t, s.config, |es|))
            && (!now.referenceDone ==> now.position == |es|)
  {
    if es != [] {
      hide Matches, EntryValid, IsEbreak, Agreeing, Disagreeing, Retire, LiveAt;
      var front, e := es[..|es| - 1], es[|es| - 1];
      RetireIsPointwise(s, front);
      AgreeingNext(s.sim.value.trace, s.config, es);
      DisagreeingNext(s.sim.value.trace, s.config, es);
      RetireMoves(Retires(s, front), e.pc, e.instr);
      LiveNext(s.sim.value.trace, s.config, |front|);
    } else {
      assert Agreeing(s.sim.value.trace, s.config, es) == {};
      assert Disagreeing(s.sim.value.trace, s.config, es) == {};
    }
  }

  lemma LiveNext(t: Trace, c: Config, n: nat)
    ensures LiveAt(t, c, n + 1) <==> LiveAt(t, c, n) && !EndsAt(t, c, n)
  {
  }

  /** One retire call of a live session compares its entry with the current position and moves on, or
      ends; of a finished stream it does nothing. */
  lemma RetireMoves(s: Session, pc: nat, instr: nat)
    requires s.initialized && s.sim.Some? && s.sim.value.caps.fetch && !s.finished
    requires forall j: nat :: !s.sim.value.trace(j).throws
    ensures var now := Retire(s, pc, instr).0;
            var t := s.sim.value.trace;
            var v := t(s.position);
            var compared := !s.referenceDone && EntryValid(s.config, v);
            && now.sim == s.sim && now.config == s.config && now.initialized && !now.finished
            && now.passCount == s.passCount + (if compared && Matches(v, pc, instr) then 1 else 0)
            && now.failCount == s.failCount + (if compared && !Matches(v, pc, instr) then 1 else 0)
            && now.compareIndex == s.compareIndex + (if compared then 1 else 0)
            && (now.referenceDone <==> s.referenceDone || EndsAt(t, s.config, s.position))
            && (!now.referenceDone ==> now.position == s.position + 1)
  {
    hide Matches, EntryValid, IsEbreak;
  }

  /** The reference region accepts some program counter exactly when it is not empty and does not reach
      past the end of the 32-bit address space; otherwise nothing is ever compared. */
  lemma RegionComparesIffNoWrap(c: Config)
    ensures (exists v: View :: EntryValid(c, v))
            <==> Low32(c.memorySize) > 0 && Low32(c.memoryBase) + Low32(c.memorySize) < 0x1_0000_0000
  {
    var base, size := Low32(c.memoryBase), Low32(c.memorySize);
    if size > 0 && base + size < 0x1_0000_0000 {
      var v := View(base, 0, seq(32, _ => 0), (_: nat) => 0, false, false);
      assert EntryValid(c, v);
    }
    if base + size >= 0x1_0000_0000 {
      assert Low32(base + size) == base + size - 0x1_0000_0000;
    }
  }

  lemma WrappedRegionComparesNothing(s: Session, es: seq<Entry>)
    requires Ready(s) && forall j: nat :: !s.sim.value.trace(j).throws
    requires Low32(s.config.memoryBase) + Low32(s.config.memorySize) >= 0x1_0000_0000
    ensures Retires(s, es).passCount == 0 && Retires(s, es).failCount == 0
  {
    RetireIsPointwise(s, es);
    RegionComparesIffNoWrap(s.config);
    var t := s.sim.value.trace;
    assert forall j: nat :: !EntryValid(s.config, t(j));
    assert Agreeing(t, s.config, es) == {} && Disagreeing(t, s.config, es) == {};
  }
}
