/** CosimSession in the form it is written: an object whose methods update its counters, its log and its
    simulator in place. Each method is proved equal to the function of CosimSession it implements. */
module CosimCode {
  import opened Options
  import S = CosimSession

  class Session {
    var simulator: Option<S.Simulator>
    var config: S.Config
    var position: nat
    var log: Option<seq<S.Line>>
    var compareIndex: nat
    var passCount: nat
    var failCount: nat
    var initialized: bool
    var finished: bool
    var referenceDone: bool
    var errors: seq<S.Error>
    ghost var retireFails: nat
    ghost var files: seq<seq<S.Line>>

    ghost function Abs(): S.Session
      reads this
    {
      S.Session(simulator, config, position, log, compareIndex, passCount, failCount, retireFails,
                initialized, finished, referenceDone, errors, files)
    }

    constructor ()
      ensures Abs() == S.Fresh([])
    {
      simulator, config, position, log := None, S.Config(0x8000_0000, 128 * 1024), 0, None;
      compareIndex, passCount, failCount := 0, 0, 0;
      initialized, finished, referenceDone, errors := false, false, false, [];
      retireFails, files := 0, [];
    }

    method WriteLine(line: S.Line)
      modifies this`log
      ensures Abs() == S.Append(old(Abs()), line)
    {
      if log.Some? {
        log := Some(log.value + [line]);
      }
    }

    /** One simulator step; true when it fails. */
    method StepSimulator() returns (threw: bool)
      requires simulator.Some?
      modifies this`position
      ensures threw == S.Here(old(Abs())).throws
      ensures Abs() == old(Abs()).(position := old(position) + 1)
    {
      threw := simulator.value.trace(position).throws;
      position := position + 1;
    }

    method AdvanceReference(checkFinished: bool) returns (outcome: S.Outcome)
      requires simulator.Some?
      modifies this
      ensures (Abs(), outcome) == S.Advance(old(Abs()), checkFinished)
    {
      var threw := StepSimulator();
      if threw {
        return S.Thrown;
      }
      if checkFinished && simulator.value.trace(position).finished {
        referenceDone := true;
      }
      outcome := S.Returned;
    }

    /** The comparison in the middle of retire. */
    method CompareEntry(goldenPc: nat, goldenInstr: nat, pc: nat, instr: nat)
      requires simulator.Some? && goldenPc == S.Here(Abs()).pc && goldenInstr == S.Here(Abs()).instr
      modifies this
      ensures Abs() == S.Compare(old(Abs()), S.Here(old(Abs())), pc, instr)
      ensures simulator == old(simulator)
    {
      var index := compareIndex;
      if goldenPc % 0x1_0000_0000 == pc && goldenInstr == instr {
        passCount := passCount + 1;
        compareIndex := compareIndex + 1;
        WriteLine(S.RetireRow(index));
      } else {
        failCount := failCount + 1;
        retireFails := retireFails + 1;
        compareIndex := compareIndex + 1;
      }
    }

    method Retire(pc: nat, instr: nat) returns (outcome: S.Outcome)
      modifies this
      ensures (Abs(), outcome) == S.Retire(old(Abs()), pc, instr)
    {
      hide S.EntryValid, S.IsEbreak, S.Compare, S.Advance;
      if !initialized || simulator.None? || finished {
        return S.Thrown;
      }
      if referenceDone {
        return S.Returned;
      }
      if !simulator.value.caps.fetch {
        passCount := passCount + 1;
        compareIndex := compareIndex + 1;
        return S.Returned;
      }
      var golden := simulator.value.trace(position);
      if !S.EntryValid(config, golden) {
        if !S.IsEbreak(golden.instr) {
          outcome := AdvanceReference(false);
        } else {
          referenceDone := true;
          outcome := S.Returned;
        }
        return;
      }
      CompareEntry(golden.pc, golden.instr, pc, instr);
      if !S.IsEbreak(golden.instr) {
        outcome := AdvanceReference(true);
      } else {
        referenceDone := true;
        outcome := S.Returned;
      }
    }

    method PushError(e: S.Error)
      modifies this
      ensures Abs() == S.PushError(old(Abs()), e)
    {
      errors := errors + [e];
      failCount := failCount + 1;
      WriteLine(S.Failed(e));
    }

    /** step_detail_with_csr past its guards and its simulator step: the verdict alone. */
    static method Examine(before: S.View, after: S.View, d: S.Detail) returns (verdict: S.Verdict)
      requires !before.throws
      ensures verdict == S.Judge(before, after, d)
    {
      hide S.JudgeGpr, S.CsrAgrees;
      if before.pc % 0x1_0000_0000 != d.pc {
        return S.Reject(S.PcMismatch);
      }
      if d.trap && d.writeReg != 0 {
        return S.Reject(S.TrapWithWrite);
      }
      verdict := ExamineGpr(before.regs, after.regs, d);
      if verdict.Accept? {
        var agrees := ExamineCsr(after, d);
        if !agrees {
          return S.Reject(S.CsrMismatch);
        }
      }
    }

    static method ExamineCsr(after: S.View, d: S.Detail) returns (agrees: bool)
      ensures agrees == S.CsrAgrees(after, d)
    {
      hide S.MaskedEqual;
      agrees := true;
      if d.csrValid && d.csrMask != 0 {
        if !S.Volatile(d) {
          if !S.MaskedEqual(d.csrData, after.csr(d.csrNum), d.csrMask) {
            agrees := false;
          }
        }
      }
    }

    /** The general-register part of the verdict. */
    static method ExamineGpr(before: S.Regs, after: S.Regs, d: S.Detail) returns (verdict: S.Verdict)
      ensures verdict == S.JudgeGpr(before, after, d)
    {
      hide S.Changed, S.Volatile, S.Low32;
      var count, reg, val := DiffRegisters(before, after);
      if !d.trap {
        if d.suppress {
          if d.writeReg != 0 {
            return S.Reject(S.SuppressedWithWrite);
          }
          if count > 1 {
            return S.Reject(S.SuppressedChanges);
          }
        } else if S.Volatile(d) {
          if count > 1 {
            return S.Reject(S.VolatileChanges);
          }
        } else if d.writeReg == 0 {
          if count != 0 {
            return S.Reject(S.MissingWrite);
          }
        } else if count == 0 {
          if d.writeReg >= 32 {
            return S.Raise;
          }
          if S.Low32(after[d.writeReg]) != d.data {
            return S.Reject(S.ValueMismatch);
          }
        } else if count != 1 || reg != d.writeReg {
          return S.Reject(S.IndexMismatch);
        } else if val != d.data {
          return S.Reject(S.DataMismatch);
        }
      }
      verdict := S.Accept;
    }

    /** The loop over x1..x31: how many low halves changed, and the last of them. */
    static method DiffRegisters(before: S.Regs, after: S.Regs) returns (count: nat, reg: nat, val: nat)
      ensures count == |S.Changed(before, after)|
      ensures count > 0 ==> reg < 32 && reg in S.Changed(before, after) && val == S.Low32(after[reg])
      ensures count == 1 ==> S.Changed(before, after) == {reg}
    {
      count, reg, val := 0, 0, 0;
      ghost var seen: set<nat> := {};
      var i := 1;
      while i < 32
        invariant 1 <= i <= 32
        invariant seen == set k: nat | 1 <= k < i && S.Low32(before[k]) != S.Low32(after[k])
        invariant count == |seen|
        invariant count > 0 ==> reg in seen && val == S.Low32(after[reg])
        invariant count == 1 ==> seen == {reg}
      {
        if before[i] % 0x1_0000_0000 != after[i] % 0x1_0000_0000 {
          assert count == 0 ==> seen == {};
          count := count + 1;
          reg := i;
          val := after[i] % 0x1_0000_0000;
          seen := seen + {i};
        }
        i := i + 1;
      }
      assert seen == S.Changed(before, after);
    }

    method StepDetail(d: S.Detail) returns (verdict: S.Verdict)
      modifies this
      ensures (Abs(), verdict) == S.StepDetail(old(Abs()), d)
    {
      hide S.JudgeGpr, S.CsrAgrees;
      if !initialized || simulator.None? {
        errors := errors + [S.NotInitialized];
        return S.Reject(S.NotInitialized);
      }
      if finished {
        errors := errors + [S.AlreadyFinished];
        return S.Reject(S.AlreadyFinished);
      }
      var caps := simulator.value.caps;
      if !caps.csr && !caps.irq && !caps.debug {
        PushError(S.NoCapability);
        return S.Reject(S.NoCapability);
      }
      var before := simulator.value.trace(position);
      var threw := StepSimulator();
      if threw {
        PushError(S.StepFailed);
        return S.Reject(S.StepFailed);
      }
      verdict := Examine(before, simulator.value.trace(position), d);
      hide S.Judge;
      if verdict.Accept? {
        Pass();
      } else if verdict.Reject? {
        PushError(verdict.error);
      }
    }

    method Pass()
      modifies this
      ensures Abs() == S.Append(old(Abs()).(passCount := old(passCount) + 1, compareIndex := old(compareIndex) + 1),
                                S.DetailRow(old(compareIndex)))
    {
      passCount := passCount + 1;
      compareIndex := compareIndex + 1;
      WriteLine(S.DetailRow(compareIndex - 1));
    }

    method Finish()
      modifies this
      ensures Abs() == S.Finish(old(Abs()))
    {
      if !initialized || finished {
        return;
      }
      if log.Some? {
        files := files + [log.value + [S.Trailer(passCount, failCount)]];
        log := None;
      }
      finished := true;
    }

    method Reset()
      modifies this
      ensures Abs() == S.Reset(old(Abs()))
    {
      if initialized && !finished {
        Finish();
      }
      assert Abs() == S.Finish(old(Abs()));
      if log.Some? {
        files := files + [log.value];
        log := None;
      }
      Clear();
    }

    method Clear()
      modifies this
      ensures Abs() == S.Session(None, old(config), 0, old(log), 0, 0, 0, 0, false, false, false, [], old(files))
    {
      simulator, position := None, 0;
      compareIndex, passCount, failCount, retireFails := 0, 0, 0, 0;
      initialized, finished, referenceDone := false, false, false;
      errors := [];
    }

    method Init(c: S.Config, sim: Option<S.Simulator>, logOpens: bool) returns (outcome: S.Outcome)
      modifies this
      ensures (Abs(), outcome) == S.Init(old(Abs()), c, sim, logOpens)
    {
      hide S.Reset;
      Reset();
      config := c;
      if sim.None? {
        return S.Thrown;
      }
      simulator := sim;
      initialized := true;
      if !logOpens {
        return S.Thrown;
      }
      log := Some([S.Header]);
      outcome := S.Returned;
    }
  }
}
