/** The lockstep checker and the monitor told by program counters, registers and numbers alone, without the
    predicates the session itself is written with. */
module CosimPlain {
  import opened CosimBridge
  import opened CosimProofs
  import opened CosimSession
  import opened Options

  // ---------------------------------------------------------------- retire streams

  /** The reference instruction is compared: it lies in the memory region, and there is one. */
  predicate InRegion(c: Config, v: View) {
    var base, size, pc := c.memoryBase % 0x1_0000_0000, c.memorySize % 0x1_0000_0000, v.pc % 0x1_0000_0000;
    base + size < 0x1_0000_0000 && base <= pc < base + size && v.instr != 0xffff_ffff
  }

  /** The reference stream ends at position j: with an ebreak, or with a compared instruction after which the reference
      has finished. */
  predicate LastAt(t: Trace, c: Config, j: nat) {
    t(j).instr == 0x9002 || t(j).instr == 0x10_0073 || (InRegion(c, t(j)) && t(j + 1).finished)
  }

  /** Position j is reached and compared. */
  predicate ComparedAt(t: Trace, c: Config, j: nat) {
    InRegion(c, t(j)) && forall i | 0 <= i < j :: !LastAt(t, c, i)
  }

  predicate SameAt(t: Trace, es: seq<Entry>, j: nat)
    requires j < |es|
  {
    es[j].pc == t(j).pc % 0x1_0000_0000 && es[j].instr == t(j).instr
  }

  function Compared(t: Trace, c: Config, es: seq<Entry>): set<nat> {
    set j: nat | 0 <= j < |es| && ComparedAt(t, c, j)
  }

  function Same(t: Trace, c: Config, es: seq<Entry>): set<nat> {
    set j: nat | 0 <= j < |es| && ComparedAt(t, c, j) && SameAt(t, es, j)
  }

  lemma RegionIff(c: Config, v: View)
    ensures EntryValid(c, v) <==> InRegion(c, v)
  {
    var base, size := c.memoryBase % 0x1_0000_0000, c.memorySize % 0x1_0000_0000;
    assert (base + size) % 0x1_0000_0000
        == if base + size < 0x1_0000_0000 then base + size else base + size - 0x1_0000_0000;
  }

  lemma EndIff(t: Trace, c: Config, j: nat)
    ensures EndsAt(t, c, j) <==> LastAt(t, c, j)
  {
    RegionIff(c, t(j));
    hide EntryValid, InRegion;
  }

  lemma {:induction false} AgreeingIs(t: Trace, c: Config, es: seq<Entry>)
    ensures Agreeing(t, c, es) == Same(t, c, es)
    ensures Disagreeing(t, c, es) == Compared(t, c, es) - Same(t, c, es)
  {
    hide EntryValid, InRegion, EndsAt, LastAt;
    forall j: nat
      ensures LiveAt(t, c, j) && EntryValid(c, t(j)) <==> ComparedAt(t, c, j)
    {
      RegionIff(c, t(j));
      forall i: nat | i < j
        ensures EndsAt(t, c, i) <==> LastAt(t, c, i)
      {
        EndIff(t, c, i);
      }
    }
  }

  /** The counts of a retire run: passes are the compared positions at which the DUT retired the reference's own
      pc and instruction, failures the other compared positions. */
  lemma {:induction false} RetireCounts(s: Session, es: seq<Entry>)
    requires Ready(s) && forall j: nat :: !s.sim.value.trace(j).throws
    ensures var t := s.sim.value.trace;
            && Same(t, s.config, es) <= Compared(t, s.config, es)
            && Retires(s, es).passCount == |Same(t, s.config, es)|
            && Retires(s, es).failCount == |Compared(t, s.config, es) - Same(t, s.config, es)|
  {
    hide Retires, Agreeing, Disagreeing, ComparedAt, SameAt;
    RetireIsPointwise(s, es);
    AgreeingIs(s.sim.value.trace, s.config, es);
  }

  /** A retire run has no failure if and only if the DUT retired the reference's own pc and instruction at every
      compared position; the passes are then as many as these. */
  lemma {:induction false} NoFailureIff(s: Session, es: seq<Entry>)
    requires Ready(s) && forall j: nat :: !s.sim.value.trace(j).throws
    ensures var t, now := s.sim.value.trace, Retires(s, es);
            && (now.failCount == 0
                <==> forall j: nat | j < |es| && ComparedAt(t, s.config, j) :: SameAt(t, es, j))
            && (now.failCount == 0 ==> now.passCount == |Compared(t, s.config, es)|)
  {
    hide Retires, ComparedAt, SameAt;
    RetireCounts(s, es);
    var all, same := Compared(s.sim.value.trace, s.config, es), Same(s.sim.value.trace, s.config, es);
    if |all - same| == 0 {
      assert all == same;
      forall j: nat | j < |es| && ComparedAt(s.sim.value.trace, s.config, j)
        ensures SameAt(s.sim.value.trace, es, j)
      {
        assert j in all;
      }
    }
    if forall j: nat | j < |es| && ComparedAt(s.sim.value.trace, s.config, j) :: SameAt(s.sim.value.trace, es, j) {
      assert all - same == {};
    }
  }

  /** A backend that cannot fetch is not compared: every retire passes. */
  lemma {:induction false} WithoutFetchAllPass(s: Session, es: seq<Entry>)
    requires s.initialized && s.sim.Some? && !s.sim.value.caps.fetch && !s.finished && !s.referenceDone
    ensures var now := Retires(s, es);
            now == s.(passCount := s.passCount + |es|, compareIndex := s.compareIndex + |es|)
  {
    if es != [] {
      WithoutFetchAllPass(s, es[..|es| - 1]);
    }
  }

  // ---------------------------------------------------------------- detail calls

  predicate Moved(before: View, after: View, i: nat)
    requires i < 32
  {
    before.regs[i] % 0x1_0000_0000 != after.regs[i] % 0x1_0000_0000
  }

  predicate AtMostOneMoved(before: View, after: View) {
    forall i, j | 1 <= i < 32 && 1 <= j < 32 && Moved(before, after, i) && Moved(before, after, j) :: i == j
  }

  /** The user counters and their high halves. */
  predicate Counter(csr: nat) {
    csr == 0xC00 || csr == 0xC80 || csr == 0xC02 || csr == 0xC82
  }

  /** The reported write, if it is one, turns the old registers into the new ones. */
  predicate ExactWrite(before: View, after: View, valid: bool, reg: nat, data: nat) {
    && (valid ==> reg < 32)
    && forall i | 1 <= i < 32 ::
         after.regs[i] % 0x1_0000_0000 == if valid && i == reg then data else before.regs[i] % 0x1_0000_0000
  }

  predicate SameBits(a: bv64, b: bv64, mask: bv64) {
    a & mask == b & mask
  }

  lemma MaskedIff(a: bv64, b: bv64, mask: bv64)
    ensures MaskedEqual(a, b, mask) <==> SameBits(a, b, mask)
  {
  }

  /** What a detail report must say of the reference step it is judged against. */
  predicate Acceptable(before: View, after: View, d: Detail) {
    && !before.throws && before.pc % 0x1_0000_0000 == d.pc
    && (if d.trap then d.writeReg == 0
        else if d.suppress then d.writeReg == 0 && AtMostOneMoved(before, after)
        else if d.csrValid && Counter(d.csrNum) then AtMostOneMoved(before, after)
        else ExactWrite(before, after, true, d.writeReg, d.data))
    && (d.csrValid && d.csrMask != 0 && !Counter(d.csrNum) ==>
          SameBits(d.csrData, after.csr(d.csrNum), d.csrMask))
  }

  lemma {:induction false} ChangedIs(before: View, after: View)
    ensures |Changed(before.regs, after.regs)| <= 1 <==> AtMostOneMoved(before, after)
  {
    var changed := Changed(before.regs, after.regs);
    forall i: nat | 1 <= i < 32
      ensures i in changed <==> Moved(before, after, i)
    {
    }
    hide Changed, Moved;
    if |changed| <= 1 {
      forall i, j | 1 <= i < 32 && 1 <= j < 32 && Moved(before, after, i) && Moved(before, after, j)
        ensures i == j
      {
        assert i in changed && j in changed;
        SubsetCard({i, j}, changed);
      }
    }
    if AtMostOneMoved(before, after) && changed != {} {
      var i :| i in changed;
      InRange31(before, after, i);
      forall j | j in changed
        ensures j == i
      {
        InRange31(before, after, j);
      }
      assert changed == {i};
    }
  }

  lemma InRange31(before: View, after: View, i: nat)
    requires i in Changed(before.regs, after.regs)
    ensures 1 <= i < 32 && Moved(before, after, i)
  {
  }

  lemma {:induction false} ExactIff(before: View, after: View, d: Detail)
    requires !d.trap && !d.suppress && !Volatile(d) && d.data < 0x1_0000_0000
    ensures JudgeGpr(before.regs, after.regs, d).Accept? <==> ExactWrite(before, after, true, d.writeReg, d.data)
  {
    if d.writeReg < 32 {
      AcceptIsExact(before.regs, after.regs, d);
      hide JudgeGpr, Volatile;
      forall i | 1 <= i < 32
        ensures Written(Lows(before.regs), d)[i] == if i == d.writeReg then d.data else before.regs[i] % 0x1_0000_0000
      {
      }
    } else {
      assert d.writeReg !in Changed(before.regs, after.regs);
      hide Changed;
    }
  }

  /** Every detail call is accepted if and only if its report is acceptable, the lenient cases included. */
  lemma {:induction false} JudgeIff(before: View, after: View, d: Detail)
    requires d.data < 0x1_0000_0000
    ensures Judge(before, after, d).Accept? <==> Acceptable(before, after, d)
  {
    ChangedIs(before, after);
    MaskedIff(d.csrData, after.csr(d.csrNum), d.csrMask);
    hide Changed, AtMostOneMoved, ExactWrite, MaskedEqual, SameBits;
    if !d.trap && !d.suppress && !Volatile(d) {
      ExactIff(before, after, d);
      hide JudgeGpr;
    }
  }

  /** A session that compares detail calls: in progress, over a backend that offers CSRs, interrupts or debug. */
  predicate Checking(s: Session) {
    && s.initialized && s.sim.Some? && !s.finished
    && var caps := s.sim.value.caps;
       caps.csr || caps.irq || caps.debug
  }

  predicate AcceptableAt(t: Trace, start: nat, ds: seq<Detail>, k: nat)
    requires k < |ds|
  {
    Acceptable(t(start + k), t(start + k + 1), ds[k])
  }

  function AcceptableCalls(t: Trace, start: nat, ds: seq<Detail>): set<nat> {
    set k: nat | 0 <= k < |ds| && AcceptableAt(t, start, ds, k)
  }

  lemma {:induction false} AcceptableNext(t: Trace, start: nat, ds: seq<Detail>)
    requires ds != []
    ensures var n := |ds| - 1;
            |AcceptableCalls(t, start, ds)|
            == |AcceptableCalls(t, start, ds[..n])| + if Acceptable(t(start + n), t(start + n + 1), ds[n]) then 1 else 0
  {
    hide Acceptable;
    var n := |ds| - 1;
    var last := if Acceptable(t(start + n), t(start + n + 1), ds[n]) then {n} else {};
    assert AcceptableCalls(t, start, ds) == AcceptableCalls(t, start, ds[..n]) + last;
  }

  lemma {:induction false} AcceptedIs(t: Trace, start: nat, ds: seq<Detail>)
    requires forall k | 0 <= k < |ds| :: ds[k].data < 0x1_0000_0000
    ensures Accepted(t, start, ds) == |AcceptableCalls(t, start, ds)|
  {
    hide Judge, Acceptable, AcceptableCalls;
    if ds == [] {
      NoCalls(t, start);
    } else {
      var n := |ds| - 1;
      AcceptedIs(t, start, ds[..n]);
      JudgeIff(t(start + n), t(start + n + 1), ds[n]);
      AcceptableNext(t, start, ds);
    }
  }

  lemma NoCalls(t: Trace, start: nat)
    ensures AcceptableCalls(t, start, []) == {}
  {
  }

  /** Over every run of detail calls the passes are exactly the calls whose report is acceptable for the reference
      step of the same number. */
  lemma {:induction false} PassesAreAcceptable(s: Session, ds: seq<Detail>)
    requires Checking(s) && forall k | 0 <= k < |ds| :: ds[k].data < 0x1_0000_0000
    ensures var now := Details(s, ds);
            && now.position == s.position + |ds|
            && now.passCount == s.passCount + |AcceptableCalls(s.sim.value.trace, s.position, ds)|
  {
    hide Details, Accepted, Rejected, AcceptableCalls;
    DetailLockstep(s, ds);
    AcceptedIs(s.sim.value.trace, s.position, ds);
  }

  /** A session that does not compare refuses every detail call: it reports why, counts a failure only for the missing
      capability, and never steps the reference. */
  lemma {:induction false} RefusedCalls(s: Session, ds: seq<Detail>)
    requires !Checking(s)
    ensures var now := Details(s, ds);
            var reason := if !s.initialized || s.sim.None? then NotInitialized
                          else if s.finished then AlreadyFinished else NoCapability;
            && now.errors == s.errors + seq(|ds|, _ => reason)
            && now.failCount == s.failCount + (if reason == NoCapability then |ds| else 0)
            && now == s.(errors := now.errors, failCount := now.failCount, log := now.log)
  {
    if ds != [] {
      RefusedCalls(s, ds[..|ds| - 1]);
    }
  }

  /** Some register changed its low half. */
  predicate SomeMoved(before: View, after: View) {
    exists i :: 1 <= i < 32 && Moved(before, after, i)
  }

  /** Register `reg` is the only one that changed. */
  predicate OnlyMoved(before: View, after: View, reg: nat) {
    1 <= reg < 32 && forall i | 1 <= i < 32 :: Moved(before, after, i) <==> i == reg
  }

  /** Why the register effect a report states is turned down, if it is. */
  function GprReason(before: View, after: View, d: Detail): Option<Error>
    requires d.writeReg < 32
  {
    if d.trap then None
    else if d.suppress && d.writeReg != 0 then Some(SuppressedWithWrite)
    else if d.suppress then (if AtMostOneMoved(before, after) then None else Some(SuppressedChanges))
    else if d.csrValid && Counter(d.csrNum) then (if AtMostOneMoved(before, after) then None else Some(VolatileChanges))
    else if d.writeReg == 0 then (if SomeMoved(before, after) then Some(MissingWrite) else None)
    else if SomeMoved(before, after) && !OnlyMoved(before, after, d.writeReg) then Some(IndexMismatch)
    else if after.regs[d.writeReg] % 0x1_0000_0000 == d.data then None
    else Some(if SomeMoved(before, after) then DataMismatch else ValueMismatch)
  }

  /** The reason for which a report is turned down: the first that applies. */
  function Reason(before: View, after: View, d: Detail): Option<Error>
    requires d.writeReg < 32
  {
    if before.throws then Some(StepFailed)
    else if before.pc % 0x1_0000_0000 != d.pc then Some(PcMismatch)
    else if d.trap && d.writeReg != 0 then Some(TrapWithWrite)
    else if GprReason(before, after, d).Some? then GprReason(before, after, d)
    else if d.csrValid && d.csrMask != 0 && !Counter(d.csrNum)
            && !SameBits(d.csrData, after.csr(d.csrNum), d.csrMask) then Some(CsrMismatch)
    else None
  }

  lemma {:induction false} MovesAre(before: View, after: View, reg: nat)
    ensures |Changed(before.regs, after.regs)| == 0 <==> !SomeMoved(before, after)
    ensures Changed(before.regs, after.regs) == {reg} <==> OnlyMoved(before, after, reg)
  {
    var changed := Changed(before.regs, after.regs);
    forall i: nat
      ensures i in changed <==> 1 <= i < 32 && Moved(before, after, i)
    {
    }
    hide Changed, Moved;
    if changed != {} {
      var i :| i in changed;
      InRange31(before, after, i);
    }
    if SomeMoved(before, after) {
      var i :| 1 <= i < 32 && Moved(before, after, i);
      assert i in changed;
    }
    if changed == {reg} {
      assert reg in changed;
    }
    if OnlyMoved(before, after, reg) {
      assert changed == {reg};
    }
  }

  lemma {:induction false} GprRejectedFor(before: View, after: View, d: Detail)
    requires d.writeReg < 32
    ensures JudgeGpr(before.regs, after.regs, d)
            == match GprReason(before, after, d)
               case None => Accept
               case Some(e) => Reject(e)
  {
    ChangedIs(before, after);
    MovesAre(before, after, d.writeReg);
    hide Changed, AtMostOneMoved, SomeMoved, OnlyMoved;
  }

  /** The error of a rejected call names that reason. */
  lemma {:induction false} RejectedFor(before: View, after: View, d: Detail)
    requires d.writeReg < 32
    ensures Judge(before, after, d)
            == match Reason(before, after, d)
               case None => Accept
               case Some(e) => Reject(e)
  {
    GprRejectedFor(before, after, d);
    MaskedIff(d.csrData, after.csr(d.csrNum), d.csrMask);
    hide JudgeGpr, GprReason, MaskedEqual, SameBits;
  }

  /** A register index beyond 31 that the session looks up makes it raise; that is the one way a call is neither
      accepted nor rejected. */
  lemma {:induction false} RaisesIff(before: View, after: View, d: Detail)
    ensures Judge(before, after, d).Raise?
            <==> && !before.throws && before.pc % 0x1_0000_0000 == d.pc
                 && !d.trap && !d.suppress && !(d.csrValid && Counter(d.csrNum)) && d.writeReg >= 32
                 && forall i | 1 <= i < 32 :: !Moved(before, after, i)
  {
    var changed := Changed(before.regs, after.regs);
    if |changed| == 0 {
      forall i: nat | 1 <= i < 32
        ensures !Moved(before, after, i)
      {
        assert i !in changed;
      }
    }
    if (forall i | 1 <= i < 32 :: !Moved(before, after, i)) && changed != {} {
      var i :| i in changed;
      InRange31(before, after, i);
    }
    hide Changed, Moved, CsrAgrees;
  }

  // ---------------------------------------------------------------- return codes

  /** init answers 0 exactly when it got a configuration, a backend and a log file, and leaves a session with an open
      log; -1 without a configuration, changing nothing; else -2, leaving no session. */
  lemma {:induction false} InitCode(b: Bridge, config: Option<Config>, sim: Option<Simulator>, logOpens: bool)
    ensures var (now, code) := Do(b, InitCall(config, sim, logOpens));
            if config.None? then code == Some(-1) && now == b
            else if sim.Some? && logOpens then
              code == Some(0) && Live(now) && !now.session.value.finished && now.session.value.sim == sim
              && now.session.value.config == config.value && now.session.value.log == Some([Header])
              && now.session.value.passCount == 0 && now.session.value.failCount == 0
              && now.session.value.compareIndex == 0 && now.session.value.position == 0
            else code == Some(-2) && now.session.None?
  {
  }

  /** step_detail answers 0 exactly for an acceptable report to a checking session, -1 without an initialized one, and
      nothing when the session raises. */
  lemma {:induction false} DetailCode(b: Bridge, d: Detail)
    requires d.data < 0x1_0000_0000
    ensures var (now, code) := Do(b, DetailCall(d));
            && (code == Some(-1) <==> b.session.None? || !b.session.value.initialized)
            && (code == Some(-1) ==> now == b)
            && (code == Some(0)
                <==> && b.session.Some? && Checking(b.session.value)
                     && Acceptable(Here(b.session.value),
                                   b.session.value.sim.value.trace(b.session.value.position + 1), d))
            && (code == None ==> d.writeReg >= 32)
            && (code.Some? ==> code == Some(0) || code == Some(-1) || code == Some(-2))
  {
    if Live(b) && Checks(b.session.value) {
      JudgeIff(Here(b.session.value), b.session.value.sim.value.trace(b.session.value.position + 1), d);
      RaisesIff(Here(b.session.value), b.session.value.sim.value.trace(b.session.value.position + 1), d);
    }
    hide Judge, Acceptable, PushError, Append;
  }

  /** The errors a session holds after the calls cs: those of before and one for each refused detail call, as far as
      they come after the last clear. */
  function Refusals(b: Bridge, cs: seq<Call>): nat {
    if cs == [] then (if b.session.Some? then |b.session.value.errors| else 0)
    else
      var front, c := cs[..|cs| - 1], cs[|cs| - 1];
      if c.ClearErrors? then 0
      else Refusals(b, front) + if c.DetailCall? && Do(DoAll(b, front), c).1 == Some(-2) then 1 else 0
  }

  lemma {:induction false} ErrorsAreRefusals(b: Bridge, cs: seq<Call>)
    requires Live(b) && forall c | c in cs :: !c.InitCall? && !c.ResetCall?
    ensures Live(DoAll(b, cs)) && |DoAll(b, cs).session.value.errors| == Refusals(b, cs)
  {
    if cs != [] {
      hide Do;
      ErrorsAreRefusals(b, cs[..|cs| - 1]);
      ErrorsNext(DoAll(b, cs[..|cs| - 1]), cs[|cs| - 1]);
    }
  }

  lemma {:induction false} ErrorsNext(b: Bridge, c: Call)
    requires Live(b) && !c.InitCall? && !c.ResetCall?
    ensures var (now, code) := Do(b, c);
            && Live(now)
            && |now.session.value.errors|
               == if c.ClearErrors? then 0
                  else |b.session.value.errors| + if c.DetailCall? && code == Some(-2) then 1 else 0
  {
    hide Judge, EntryValid, Matches, IsEbreak;
  }

  /** retire answers -1 without an initialized session, -2 for one that is finished or without a backend, or whose
      reference step fails, and 0 otherwise: a mismatch does not show in the code. */
  lemma {:induction false} RetireCode(b: Bridge, pc: nat, instr: nat)
    ensures var (now, code) := Do(b, RetireCall(pc, instr));
            if b.session.None? || !b.session.value.initialized then code == Some(-1) && now == b
            else
              var s := b.session.value;
              code == if s.sim.None? || s.finished then Some(-2)
                      else if !s.referenceDone && s.sim.value.caps.fetch && Here(s).throws
                              && Here(s).instr != 0x9002 && Here(s).instr != 0x10_0073 then Some(-2)
                      else Some(0)
  {
    hide EntryValid, Compare;
    if b.session.Some? && b.session.value.sim.Some? {
      ComparedSame(b.session.value, Here(b.session.value), pc, instr);
    }
  }

  lemma ComparedSame(s: Session, v: View, pc: nat, instr: nat)
    ensures var c := Compare(s, v, pc, instr);
            c.sim == s.sim && c.position == s.position
  {
  }

  // ---------------------------------------------------------------- the monitor

  /** What a transaction must say, told by its own fields. */
  predicate TruthfulTxn(before: View, after: View, t: Txn) {
    var counter := t.csrValid && Counter(t.csrAddr);
    && !before.throws && before.pc % 0x1_0000_0000 == t.pc
    && (if t.trap then !t.gprValid || t.gprAddr == 0
        else if counter then AtMostOneMoved(before, after)
        else ExactWrite(before, after, t.gprValid, t.gprAddr, t.gprData))
    && (t.csrValid && t.csrMask != 0 && !counter ==> SameBits(t.csrData, after.csr(t.csrAddr), t.csrMask))
  }

  /** A detail monitor over a checking session returns true, and writes PASS in its row, exactly for a truthful
      transaction; otherwise FAIL, unless the session raises. */
  lemma {:induction false} DetailReport(m: Monitor, b: Bridge, t: Txn)
    requires m.mode == DetailMode && m.log.Some? && b.session.Some? && Checking(b.session.value)
    requires t.gprData < 0x1_0000_0000
    ensures var s := b.session.value;
            var (now, _, ok) := MonRetire(m, b, t);
            var truthful := TruthfulTxn(Here(s), s.sim.value.trace(s.position + 1), t);
            && (ok <==> truthful)
            && now.log.Some?
            && (now.count == m.count + 1 ==>
                  now.log.value == m.log.value + [MonRow(m.count, t, if truthful then "PASS" else "FAIL")])
            && (now.count == m.count + 1 || (now == m && t.gprValid && t.gprAddr >= 32))
  {
    hide Do, Acceptable, TruthfulTxn;
    var d := Detail(if t.gprValid then t.gprAddr else 0, if t.gprValid then t.gprData else 0, t.pc,
                    t.trap, false, t.csrValid, t.csrAddr, t.csrMask, t.csrData);
    DetailCode(b, d);
    var s := b.session.value;
    TruthIff(Here(s), s.sim.value.trace(s.position + 1), t, d);
  }

  lemma {:induction false} TruthIff(before: View, after: View, t: Txn, d: Detail)
    requires d == Detail(if t.gprValid then t.gprAddr else 0, if t.gprValid then t.gprData else 0, t.pc,
                         t.trap, false, t.csrValid, t.csrAddr, t.csrMask, t.csrData)
    ensures Acceptable(before, after, d) <==> TruthfulTxn(before, after, t)
  {
    hide AtMostOneMoved, SameBits;
  }

  /** A retire-mode monitor writes PASS for every report to a session in progress whose reference does not fail, also
      for a mismatch; a LogOnly monitor calls nothing and writes LOG. */
  lemma {:induction false} OtherReports(m: Monitor, b: Bridge, t: Txn)
    requires m.log.Some?
    ensures var (now, after, ok) := MonRetire(m, b, t);
            && (m.mode == LogOnly ==>
                  ok && after == b && now.log == Some(m.log.value + [MonRow(m.count, t, "LOG")]))
            && (m.mode == RetireMode && b.session.Some? && b.session.value.initialized && b.session.value.sim.Some?
                && !b.session.value.finished && !Here(b.session.value).throws ==>
                  && ok && after == Do(b, RetireCall(t.pc, t.instr)).0
                  && now.log == Some(m.log.value + [MonRow(m.count, t, "PASS")]))
  {
    RetireCode(b, t.pc, t.instr);
    hide Do;
  }
}
