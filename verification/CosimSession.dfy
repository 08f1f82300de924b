/** The lockstep checker (src/cosim/cosim_session.cc) over an abstract reference simulator: whatever the
    simulator is, the session sees it only through the states it passes, one per step. */
module CosimSession {
  import opened Options

  // ---------------------------------------------------------------- the reference simulator

  type Regs = r: seq<nat> | |r| == 32 witness seq(32, _ => 0)

  /** What the session can read of one simulator state, CSR values already widened to 64 bits; `throws`
      says that stepping from it fails. */
  datatype View = View(pc: nat, instr: nat, regs: Regs, csr: nat -> bv64, finished: bool, throws: bool)

  /** The states a simulator passes, the k-th after k steps. */
  type Trace = nat -> View

  datatype Caps = Caps(fetch: bool, csr: bool, irq: bool, debug: bool)

  datatype Simulator = Simulator(trace: Trace, caps: Caps)

  /** The fields of CosimConfig that the session itself reads. */
  datatype Config = Config(memoryBase: nat, memorySize: nat)

  // ---------------------------------------------------------------- the session

  /** Header and Trailer frame a log; a row records a passed comparison, Failed a failed detail step. */
  datatype Line =
    | Header
    | RetireRow(index: nat)
    | DetailRow(index: nat)
    | Failed(error: Error)
    | Trailer(pass: nat, fail: nat)

  datatype Error =
    | NotInitialized | AlreadyFinished | NoCapability | StepFailed | PcMismatch | TrapWithWrite
    | SuppressedWithWrite | SuppressedChanges | VolatileChanges | MissingWrite | ValueMismatch
    | IndexMismatch | DataMismatch | CsrMismatch

  /** `position` counts simulator steps, `retireFails` failed retire comparisons, and `files` collects
      the logs closed so far; none of the three is stored by the source. */
  datatype Session = Session(sim: Option<Simulator>, config: Config, position: nat, log: Option<seq<Line>>,
                             compareIndex: nat, passCount: nat, failCount: nat, retireFails: nat,
                             initialized: bool, finished: bool, referenceDone: bool,
                             errors: seq<Error>, files: seq<seq<Line>>)

  function Fresh(files: seq<seq<Line>>): Session {
    Session(None, Config(0x8000_0000, 128 * 1024), 0, None, 0, 0, 0, 0, false, false, false, [], files)
  }

  function Low32(x: nat): nat {
    x % 0x1_0000_0000
  }

  function Here(s: Session): View
    requires s.sim.Some?
  {
    s.sim.value.trace(s.position)
  }

  function Append(s: Session, line: Line): Session {
    if s.log.Some? then s.(log := Some(s.log.value + [line])) else s
  }

  // ---------------------------------------------------------------- retire

  predicate IsEbreak(instr: nat) {
    instr == 0x0000_9002 || instr == 0x0010_0073
  }

  /** reference_entry_valid, with its 32-bit sum */
  predicate EntryValid(c: Config, v: View) {
    var base := Low32(c.memoryBase);
    var end := Low32(base + Low32(c.memorySize));
    Low32(v.pc) >= base && Low32(v.pc) < end && v.instr != 0xffff_ffff
  }

  predicate Matches(v: View, pc: nat, instr: nat) {
    Low32(v.pc) == pc && v.instr == instr
  }

  datatype Outcome = Returned | Thrown

  /** simulator_->step(1) inside retire, then what `done` says of the state reached */
  function Advance(s: Session, checkFinished: bool): (Session, Outcome)
    requires s.sim.Some?
  {
    var now := s.(position := s.position + 1);
    if Here(s).throws then (now, Thrown)
    else (if checkFinished && Here(now).finished then now.(referenceDone := true) else now, Returned)
  }

  function Compare(s: Session, v: View, pc: nat, instr: nat): Session {
    if Matches(v, pc, instr) then
      Append(s.(passCount := s.passCount + 1, compareIndex := s.compareIndex + 1), RetireRow(s.compareIndex))
    else
      s.(failCount := s.failCount + 1, retireFails := s.retireFails + 1, compareIndex := s.compareIndex + 1)
  }

  function Retire(s: Session, pc: nat, instr: nat): (Session, Outcome) {
    if !s.initialized || s.sim.None? || s.finished then (s, Thrown)
    else if s.referenceDone then (s, Returned)
    else if !s.sim.value.caps.fetch then
      (s.(passCount := s.passCount + 1, compareIndex := s.compareIndex + 1), Returned)
    else
      var v := Here(s);
      if !EntryValid(s.config, v) then
        if IsEbreak(v.instr) then (s.(referenceDone := true), Returned) else Advance(s, false)
      else
        var c := Compare(s, v, pc, instr);
        if IsEbreak(v.instr) then (c.(referenceDone := true), Returned) else Advance(c, true)
  }

  // ---------------------------------------------------------------- step_detail

  /** What the DUT reports of one retired instruction. */
  datatype Detail = Detail(writeReg: nat, data: nat, pc: nat, trap: bool, suppress: bool,
                           csrValid: bool, csrNum: nat, csrMask: bv64, csrData: bv64)

  predicate Volatile(d: Detail) {
    d.csrValid && (d.csrNum == 0xC00 || d.csrNum == 0xC80 || d.csrNum == 0xC02 || d.csrNum == 0xC82)
  }

  /** The general registers whose low halves a step changed. */
  function Changed(before: Regs, after: Regs): set<nat> {
    set i: nat | 1 <= i < 32 && Low32(before[i]) != Low32(after[i])
  }

  datatype Verdict = Accept | Reject(error: Error) | Raise

  function JudgeGpr(before: Regs, after: Regs, d: Detail): Verdict {
    var changed := Changed(before, after);
    if d.trap then Accept
    else if d.suppress then
      if d.writeReg != 0 then Reject(SuppressedWithWrite)
      else if |changed| > 1 then Reject(SuppressedChanges)
      else Accept
    else if Volatile(d) then
      if |changed| > 1 then Reject(VolatileChanges) else Accept
    else if d.writeReg == 0 then
      if |changed| != 0 then Reject(MissingWrite) else Accept
    else if |changed| == 0 then
      if d.writeReg >= 32 then Raise
      else if Low32(after[d.writeReg]) != d.data then Reject(ValueMismatch)
      else Accept
    else if changed != {d.writeReg} then Reject(IndexMismatch)
    else if Low32(after[d.writeReg]) != d.data then Reject(DataMismatch)
    else Accept
  }

  predicate MaskedEqual(a: bv64, b: bv64, mask: bv64) {
    a & mask == b & mask
  }

  predicate CsrAgrees(after: View, d: Detail) {
    d.csrValid && d.csrMask != 0 && !Volatile(d) ==> MaskedEqual(d.csrData, after.csr(d.csrNum), d.csrMask)
  }

  function Judge(before: View, after: View, d: Detail): Verdict {
    if before.throws then Reject(StepFailed)
    else if Low32(before.pc) != d.pc then Reject(PcMismatch)
    else if d.trap && d.writeReg != 0 then Reject(TrapWithWrite)
    else
      var gpr := JudgeGpr(before.regs, after.regs, d);
      if gpr.Accept? && !CsrAgrees(after, d) then Reject(CsrMismatch) else gpr
  }

  function PushError(s: Session, e: Error): Session {
    Append(s.(errors := s.errors + [e], failCount := s.failCount + 1), Failed(e))
  }

  /** Passes the two lifecycle guards and the capability guard. */
  predicate Checks(s: Session) {
    && s.initialized && s.sim.Some? && !s.finished
    && (s.sim.value.caps.csr || s.sim.value.caps.irq || s.sim.value.caps.debug)
  }

  function StepDetail(s: Session, d: Detail): (Session, Verdict) {
    if !s.initialized || s.sim.None? then (s.(errors := s.errors + [NotInitialized]), Reject(NotInitialized))
    else if s.finished then (s.(errors := s.errors + [AlreadyFinished]), Reject(AlreadyFinished))
    else if !Checks(s) then (PushError(s, NoCapability), Reject(NoCapability))
    else
      var now := s.(position := s.position + 1);
      var verdict := Judge(Here(s), Here(now), d);
      match verdict
      case Accept =>
        (Append(now.(passCount := s.passCount + 1, compareIndex := s.compareIndex + 1), DetailRow(s.compareIndex)),
         verdict)
      case Reject(e) => (PushError(now, e), verdict)
      case Raise => (now, verdict)
  }

  // ---------------------------------------------------------------- lifecycle

  function Finish(s: Session): Session {
    if !s.initialized || s.finished then s
    else if s.log.Some? then
      s.(finished := true, log := None,
         files := s.files + [s.log.value + [Trailer(s.passCount, s.failCount)]])
    else s.(finished := true)
  }

  function Reset(s: Session): Session {
    var f := Finish(s);
    f.(sim := None, position := 0, log := None, compareIndex := 0, passCount := 0, failCount := 0, retireFails := 0,
       initialized := false, finished := false, referenceDone := false, errors := [],
       files := if f.log.Some? then f.files + [f.log.value] else f.files)
  }

  /** init: `sim` is None when the backend cannot be created or set up, `logOpens` whether the file opens. */
  function Init(s: Session, c: Config, sim: Option<Simulator>, logOpens: bool): (Session, Outcome) {
    var r := Reset(s).(config := c);
    if sim.None? then (r, Thrown)
    else
      var now := r.(sim := sim, initialized := true);
      if logOpens then (now.(log := Some([Header])), Returned) else (now, Thrown)
  }
}
