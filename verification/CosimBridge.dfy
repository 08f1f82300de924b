/** The global session behind the C entry points (src/cosim/cosim_bridge.cc), and the instruction monitor
    that shares it (src/mon/mon_instr/mon_instr.cc). */
module CosimBridge {
  import opened Options
  import opened CosimSession

  // ---------------------------------------------------------------- the bridge

  /** g_session, with the logs closed by sessions that are gone. */
  datatype Bridge = Bridge(session: Option<Session>, files: seq<seq<Line>>)

  /** One entry-point call. `sim` and `logOpens` are what the outside world answers to an init. */
  datatype Call =
    | InitCall(config: Option<Config>, sim: Option<Simulator>, logOpens: bool)
    | RetireCall(pc: nat, instr: nat)
    | DetailCall(detail: Detail)
    | ClearErrors
    | FinishCall
    | ResetCall

  function Files(b: Bridge): seq<seq<Line>> {
    if b.session.Some? then b.session.value.files else b.files
  }

  /** Destroying a session resets it. */
  function Destroyed(b: Bridge): Bridge {
    Bridge(None, if b.session.Some? then Reset(b.session.value).files else b.files)
  }

  predicate Live(b: Bridge) {
    b.session.Some? && b.session.value.initialized
  }

  /** The new bridge and the return code; None when an exception leaves the entry point. */
  function Do(b: Bridge, c: Call): (Bridge, Option<int>) {
    match c
    case InitCall(config, sim, logOpens) =>
      if config.None? then (b, Some(-1))
      else
        var (s, outcome) := Init(Fresh(Destroyed(b).files), config.value, sim, logOpens);
        if outcome == Returned then (Bridge(Some(s), []), Some(0))
        else (Destroyed(Bridge(Some(s), [])), Some(-2))
    case RetireCall(pc, instr) =>
      if !Live(b) then (b, Some(-1))
      else
        var (s, outcome) := Retire(b.session.value, pc, instr);
        (b.(session := Some(s)), Some(if outcome == Returned then 0 else -2))
    case DetailCall(d) =>
      if !Live(b) then (b, Some(-1))
      else
        var (s, verdict) := StepDetail(b.session.value, d);
        (b.(session := Some(s)),
         match verdict
         case Accept => Some(0)
         case Reject(_) => Some(-2)
         case Raise => None)
    case ClearErrors =>
      (if !Live(b) then b else b.(session := Some(b.session.value.(errors := []))), Some(0))
    case FinishCall =>
      (if b.session.None? then b else b.(session := Some(Finish(b.session.value))), Some(0))
    case ResetCall => (Destroyed(b), Some(0))
  }

  function DoAll(b: Bridge, cs: seq<Call>): Bridge {
    if cs == [] then b else Do(DoAll(b, cs[..|cs| - 1]), cs[|cs| - 1]).0
  }

  const EMPTY := Bridge(None, [])

  // ---------------------------------------------------------------- logs

  predicate BodyLine(line: Line) {
    line.RetireRow? || line.DetailRow? || line.Failed?
  }

  function PassRows(lines: seq<Line>): nat {
    if lines == [] then 0
    else PassRows(lines[..|lines| - 1])
         + if lines[|lines| - 1].RetireRow? || lines[|lines| - 1].DetailRow? then 1 else 0
  }

  function FailRows(lines: seq<Line>): nat {
    if lines == [] then 0
    else FailRows(lines[..|lines| - 1]) + if lines[|lines| - 1].Failed? then 1 else 0
  }

  /** A log begun with its one header. */
  predicate Begun(lines: seq<Line>) {
    |lines| >= 1 && lines[0] == Header && forall i | 1 <= i < |lines| :: BodyLine(lines[i])
  }

  /** A log closed with its one trailer, which states no fewer passes and failures than there are rows,
      and just as many passes when `exact`. */
  predicate Complete(lines: seq<Line>, exact: bool) {
    && |lines| >= 2 && Begun(lines[..|lines| - 1])
    && var last := lines[|lines| - 1];
       && last.Trailer?
       && PassRows(lines[..|lines| - 1]) <= last.pass && FailRows(lines[..|lines| - 1]) <= last.fail
       && (exact ==> PassRows(lines[..|lines| - 1]) == last.pass)
  }

  lemma RowsNext(lines: seq<Line>, line: Line)
    ensures PassRows(lines + [line]) == PassRows(lines) + if line.RetireRow? || line.DetailRow? then 1 else 0
    ensures FailRows(lines + [line]) == FailRows(lines) + if line.Failed? then 1 else 0
    ensures Begun(lines) && BodyLine(line) ==> Begun(lines + [line])
  {
    assert (lines + [line])[..|lines|] == lines;
  }

  // ---------------------------------------------------------------- what every call keeps

  predicate Exactly(exact: bool, s: Session) {
    exact && s.sim.Some? ==> s.sim.value.caps.fetch
  }

  /** The comparisons made are the passes and the failed retires; an open log belongs to a session in
      progress and has one row for each logged event; every closed log is complete. */
  predicate InvSession(s: Session, exact: bool) {
    && s.compareIndex == s.passCount + s.retireFails
    && s.retireFails <= s.failCount
    && (s.log.Some? ==>
          && s.initialized && !s.finished && s.sim.Some? && Begun(s.log.value)
          && PassRows(s.log.value) <= s.passCount
          && (exact ==> PassRows(s.log.value) == s.passCount)
          && FailRows(s.log.value) + s.retireFails == s.failCount)
    && Exactly(exact, s)
    && forall f | f in s.files :: Complete(f, exact)
  }

  predicate InvBridge(b: Bridge, exact: bool) {
    if b.session.Some? then InvSession(b.session.value, exact) else forall f | f in b.files :: Complete(f, exact)
  }

  /** `exact` speaks of backends that fetch instructions, as Spike does. */
  predicate Suits(c: Call, exact: bool) {
    c.InitCall? && c.sim.Some? && exact ==> c.sim.value.caps.fetch
  }

  lemma AppendKeeps(s: Session, line: Line)
    requires s.log.Some? && Begun(s.log.value) && BodyLine(line)
    ensures var now := Append(s, line);
            && now.log.Some? && Begun(now.log.value)
            && PassRows(now.log.value) == PassRows(s.log.value) + (if line.Failed? then 0 else 1)
            && FailRows(now.log.value) == FailRows(s.log.value) + (if line.Failed? then 1 else 0)
  {
    RowsNext(s.log.value, line);
  }

  lemma CompareKeeps(s: Session, v: View, pc: nat, instr: nat, exact: bool)
    requires InvSession(s, exact)
    ensures InvSession(Compare(s, v, pc, instr), exact)
  {
    hide Begun, PassRows, FailRows, Complete, Matches;
    if s.log.Some? {
      AppendKeeps(s, RetireRow(s.compareIndex));
    }
  }

  lemma AdvanceKeeps(s: Session, checkFinished: bool, exact: bool)
    requires InvSession(s, exact) && s.sim.Some?
    ensures InvSession(Advance(s, checkFinished).0, exact)
  {
    hide Begun, PassRows, FailRows, Complete;
  }

  lemma CompareKeepsSim(s: Session, v: View, pc: nat, instr: nat)
    ensures Compare(s, v, pc, instr).sim == s.sim
  {
  }

  lemma RetireKeeps(s: Session, pc: nat, instr: nat, exact: bool)
    requires InvSession(s, exact)
    ensures InvSession(Retire(s, pc, instr).0, exact)
  {
    hide Begun, PassRows, FailRows, Complete, EntryValid, IsEbreak, Compare, Advance;
    if s.sim.Some? {
      var compared := Compare(s, Here(s), pc, instr);
      CompareKeeps(s, Here(s), pc, instr, exact);
      CompareKeepsSim(s, Here(s), pc, instr);
      AdvanceKeeps(s, false, exact);
      AdvanceKeeps(compared, true, exact);
    }
  }

  lemma ErrorKeeps(s: Session, e: Error, exact: bool)
    requires InvSession(s, exact)
    ensures InvSession(PushError(s, e), exact)
  {
    hide Begun, PassRows, FailRows, Complete;
    if s.log.Some? {
      AppendKeeps(s, Failed(e));
    }
  }

  lemma PassKeeps(s: Session, exact: bool)
    requires InvSession(s, exact)
    ensures InvSession(Append(s.(passCount := s.passCount + 1, compareIndex := s.compareIndex + 1),
                              DetailRow(s.compareIndex)), exact)
  {
    hide Begun, PassRows, FailRows, Complete;
    if s.log.Some? {
      AppendKeeps(s, DetailRow(s.compareIndex));
    }
  }

  lemma DetailKeeps(s: Session, d: Detail, exact: bool)
    requires InvSession(s, exact)
    ensures InvSession(StepDetail(s, d).0, exact)
  {
    hide Judge, Begun, PassRows, FailRows, Complete;
    hide PushError, Append;
    var now := s.(position := s.position + 1);
    assert InvSession(now, exact);
    PassKeeps(now, exact);
    ErrorKeeps(s, NoCapability, exact);
    var verdict := StepDetail(s, d).1;
    if verdict.Reject? {
      ErrorKeeps(now, verdict.error, exact);
    }
  }

  lemma FinishKeeps(s: Session, exact: bool)
    requires InvSession(s, exact)
    ensures InvSession(Finish(s), exact) && Finish(s).log.None?
  {
    if s.log.Some? {
      var file := s.log.value + [Trailer(s.passCount, s.failCount)];
      assert file[..|file| - 1] == s.log.value;
      assert Complete(file, exact);
    }
    hide Begun, PassRows, FailRows, Complete;
  }

  lemma ResetKeeps(s: Session, exact: bool)
    requires InvSession(s, exact)
    ensures InvSession(Reset(s), exact)
  {
    hide Begun, PassRows, FailRows, Complete, Finish;
    FinishKeeps(s, exact);
  }

  lemma InitKeeps(s: Session, c: Config, sim: Option<Simulator>, logOpens: bool, exact: bool)
    requires InvSession(s, exact) && (sim.Some? && exact ==> sim.value.caps.fetch)
    ensures InvSession(Init(s, c, sim, logOpens).0, exact)
  {
    ResetKeeps(s, exact);
    assert PassRows([Header]) == 0 && FailRows([Header]) == 0;
    hide PassRows, FailRows, Complete, Reset;
  }

  lemma {:induction false} DoKeeps(b: Bridge, c: Call, exact: bool)
    requires InvBridge(b, exact) && Suits(c, exact)
    ensures InvBridge(Do(b, c).0, exact)
  {
    hide Complete, Begun, PassRows, FailRows, Init, Reset, Retire, StepDetail, Finish;
    match c
    case InitCall(config, sim, logOpens) =>
      if b.session.Some? {
        ResetKeeps(b.session.value, exact);
      }
      if config.Some? {
        var blank := Fresh(Destroyed(b).files);
        InitKeeps(blank, config.value, sim, logOpens, exact);
        ResetKeeps(Init(blank, config.value, sim, logOpens).0, exact);
      }
    case RetireCall(pc, instr) =>
      if Live(b) {
        RetireKeeps(b.session.value, pc, instr, exact);
      }
    case DetailCall(d) =>
      if Live(b) {
        DetailKeeps(b.session.value, d, exact);
      }
    case ClearErrors =>
    case FinishCall =>
      if b.session.Some? {
        FinishKeeps(b.session.value, exact);
      }
    case ResetCall =>
      if b.session.Some? {
        ResetKeeps(b.session.value, exact);
      }
  }

  /** Conservation and framing, over any sequence of entry-point calls: the comparisons counted are the
      passes and the failed retires; an open log implies a session that is initialized and not
      finished; every closed log has one header, one trailer, and a trailer that covers its rows. */
  lemma {:induction false} CallsConserve(cs: seq<Call>, exact: bool)
    requires forall c | c in cs :: Suits(c, exact)
    ensures InvBridge(DoAll(EMPTY, cs), exact)
  {
    hide Do, InvSession, Suits, Complete;
    if cs != [] {
      CallsConserve(cs[..|cs| - 1], exact);
      DoKeeps(DoAll(EMPTY, cs[..|cs| - 1]), cs[|cs| - 1], exact);
    }
  }

  /** Between finish and the next init or reset, no call changes a counter, moves the simulator, or
      writes a log. */
  lemma {:induction false} FinishFreezes(b: Bridge, cs: seq<Call>)
    requires b.session.Some? && b.session.value.finished && b.session.value.log.None?
    requires forall c | c in cs :: !c.InitCall? && !c.ResetCall?
    ensures var now := DoAll(b, cs);
            && now.session.Some?
            && now.session.value == b.session.value.(errors := now.session.value.errors)
  {
    if cs != [] {
      hide Do;
      FinishFreezes(b, cs[..|cs| - 1]);
      FrozenCall(DoAll(b, cs[..|cs| - 1]), cs[|cs| - 1]);
    }
  }

  lemma FrozenCall(b: Bridge, c: Call)
    requires b.session.Some? && b.session.value.finished && b.session.value.log.None?
    requires !c.InitCall? && !c.ResetCall?
    ensures var now := Do(b, c).0;
            && now.session.Some?
            && now.session.value == b.session.value.(errors := now.session.value.errors)
  {
    hide Judge;
  }

  // ---------------------------------------------------------------- every opened log is closed once

  predicate LogOpen(b: Bridge) {
    b.session.Some? && b.session.value.log.Some?
  }

  /** The file an open log becomes if it is closed now: its lines, and a trailer with the session's counters. */
  function Closed(s: Session): seq<Line>
    requires s.log.Some?
  {
    s.log.value + [Trailer(s.passCount, s.failCount)]
  }

  predicate Opens(c: Call) {
    c.InitCall? && c.config.Some? && c.sim.Some? && c.logOpens
  }

  function Opened(cs: seq<Call>): nat {
    if cs == [] then 0 else Opened(cs[..|cs| - 1]) + if Opens(cs[|cs| - 1]) then 1 else 0
  }

  /** A session whose log is open is in progress, so that its finish closes the log. */
  predicate OpenIsLive(b: Bridge) {
    LogOpen(b) ==> b.session.value.initialized && !b.session.value.finished
  }

  /** What one call does to the logs: the files stay or gain the open log, closed with the counters of that
      moment; a log is open afterwards if the call opened one, or one was open and was not closed. */
  predicate LogStep(b: Bridge, c: Call, now: Bridge) {
    var closes := Files(now) != Files(b);
    && OpenIsLive(now)
    && (closes ==> LogOpen(b) && Files(now) == Files(b) + [Closed(b.session.value)])
    && (LogOpen(now) <==> Opens(c) || (LogOpen(b) && !closes))
    && (Opens(c) ==> (LogOpen(b) <==> closes))
  }

  lemma {:induction false} ResetClosesLog(s: Session)
    requires s.log.Some? ==> s.initialized && !s.finished
    ensures Reset(s).files == s.files + if s.log.Some? then [Closed(s)] else []
    ensures Finish(s).files == s.files + if s.log.Some? then [Closed(s)] else []
    ensures Reset(s).log.None? && Finish(s).log.None?
  {
  }

  lemma {:induction false} RetireKeepsLog(s: Session, pc: nat, instr: nat)
    ensures var now := Retire(s, pc, instr).0;
            && now.files == s.files && now.log.Some? == s.log.Some?
            && now.initialized == s.initialized && now.finished == s.finished
  {
    hide EntryValid, IsEbreak, Matches;
  }

  lemma {:induction false} DetailKeepsLog(s: Session, d: Detail)
    ensures var now := StepDetail(s, d).0;
            && now.files == s.files && now.log.Some? == s.log.Some?
            && now.initialized == s.initialized && now.finished == s.finished
  {
    hide Judge;
  }

  lemma {:induction false} DoLogs(b: Bridge, c: Call)
    requires OpenIsLive(b)
    ensures LogStep(b, c, Do(b, c).0)
  {
    hide Reset, Finish, Init, Retire, StepDetail, Closed;
    if b.session.Some? {
      var s := b.session.value;
      ResetClosesLog(s);
      match c
      case RetireCall(pc, instr) => RetireKeepsLog(s, pc, instr);
      case DetailCall(d) => DetailKeepsLog(s, d);
      case _ =>
    }
    if c.InitCall? && c.config.Some? {
      InitOpensLog(Destroyed(b).files, c.config.value, c.sim, c.logOpens);
    }
  }

  lemma {:induction false} InitOpensLog(files: seq<seq<Line>>, config: Config, sim: Option<Simulator>, logOpens: bool)
    ensures var (s, outcome) := Init(Fresh(files), config, sim, logOpens);
            && s.files == files && Reset(s).files == (if s.log.Some? then files + [Closed(s)] else files)
            && (s.log.Some? <==> sim.Some? && logOpens) && (outcome == Returned <==> s.log.Some?)
            && (s.log.Some? ==> s.initialized && !s.finished)
  {
  }

  /** Every opened log is closed exactly once: over any calls, the files written and the log still open are as
      many as the logs opened, and a call only adds to the files. */
  lemma {:induction false} EveryLogIsClosedOnce(cs: seq<Call>)
    ensures OpenIsLive(DoAll(EMPTY, cs))
    ensures |Files(DoAll(EMPTY, cs))| + (if LogOpen(DoAll(EMPTY, cs)) then 1 else 0) == Opened(cs)
    ensures cs != [] ==> Files(DoAll(EMPTY, cs[..|cs| - 1])) <= Files(DoAll(EMPTY, cs))
  {
    hide Do, Files, LogOpen, OpenIsLive, Closed, Opens;
    if cs != [] {
      var before := DoAll(EMPTY, cs[..|cs| - 1]);
      EveryLogIsClosedOnce(cs[..|cs| - 1]);
      DoLogs(before, cs[|cs| - 1]);
    } else {
      NothingYet();
    }
  }

  lemma NothingYet()
    ensures OpenIsLive(EMPTY) && Files(EMPTY) == [] && !LogOpen(EMPTY)
  {
  }

  /** A log file, once written, stays as it is whatever calls follow. */
  lemma {:induction false} FilesGrow(cs: seq<Call>, n: nat)
    requires n <= |cs|
    ensures Files(DoAll(EMPTY, cs[..n])) <= Files(DoAll(EMPTY, cs))
  {
    hide Do, Files;
    if n < |cs| {
      FilesGrow(cs[..|cs| - 1], n);
      EveryLogIsClosedOnce(cs);
      assert cs[..|cs| - 1][..n] == cs[..n];
    } else {
      assert cs[..n] == cs;
    }
  }

  /** File j was written by call n, which closed the log then open with the counters its session had. */
  ghost predicate ClosedBy(cs: seq<Call>, j: nat, n: nat) {
    && n < |cs| && j < |Files(DoAll(EMPTY, cs))|
    && var b := DoAll(EMPTY, cs[..n]);
       && LogOpen(b) && |Files(b)| == j
       && Files(DoAll(EMPTY, cs))[j] == Closed(b.session.value)
  }

  /** Each file's trailer states the final counters: for every file there is the one call that closed it, and its
      trailer has the counters of the session at that call, which FinishFreezes keeps from then on. */
  lemma {:induction false} TrailersStateFinalCounters(cs: seq<Call>, j: nat) returns (n: nat)
    requires j < |Files(DoAll(EMPTY, cs))|
    ensures ClosedBy(cs, j, n)
  {
    hide Do, Files, LogOpen, OpenIsLive, Closed;
    if cs == [] {
      NothingYet();
    } else {
      var front := cs[..|cs| - 1];
      var before := DoAll(EMPTY, front);
      EveryLogIsClosedOnce(front);
      DoLogs(before, cs[|cs| - 1]);
      if j < |Files(before)| {
        n := TrailersStateFinalCounters(front, j);
        assert front[..n] == cs[..n];
      } else {
        n := |front|;
        assert cs[..n] == front;
      }
    }
  }

  /** An init after any history answers, and leaves a session, like an init of a fresh one, the log files
      already written aside. */
  lemma InitForgetsHistory(cs: seq<Call>, c: Call)
    requires c.InitCall? && c.config.Some?
    ensures var x, y := Do(DoAll(EMPTY, cs), c), Do(EMPTY, c);
            && x.1 == y.1 && x.0.session.Some? == y.0.session.Some?
            && (x.0.session.Some? ==> x.0.session.value.(files := []) == y.0.session.value.(files := []))
  {
    hide Init, Reset;
    var b := DoAll(EMPTY, cs);
    SessionInitForgets(Fresh(Destroyed(b).files), Fresh(Destroyed(EMPTY).files), c.config.value, c.sim, c.logOpens);
  }

  lemma SessionInitForgets(s: Session, t: Session, c: Config, sim: Option<Simulator>, logOpens: bool)
    ensures Init(s, c, sim, logOpens).0.(files := []) == Init(t, c, sim, logOpens).0.(files := [])
    ensures Init(s, c, sim, logOpens).1 == Init(t, c, sim, logOpens).1
  {
  }

  // ---------------------------------------------------------------- the monitor

  datatype Mode = DetailMode | RetireMode | LogOnly

  datatype Txn = Txn(order: nat, pc: nat, instr: nat, trap: bool, gprValid: bool, gprAddr: nat, gprData: nat,
                     csrValid: bool, csrAddr: nat, csrMask: bv64, csrData: bv64)

  datatype MonLine = MonHeader | MonRow(step: nat, txn: Txn, result: string) | MonTrailer(count: nat)

  /** `files` collects the logs closed so far; the source does not store it. */
  datatype Monitor = Monitor(mode: Mode, count: nat, log: Option<seq<MonLine>>, files: seq<seq<MonLine>>)

  /** A monitor whose log has just been opened. */
  function MonStart(mode: Mode): Monitor {
    Monitor(mode, 0, Some([MonHeader]), [])
  }

  function MonFinish(m: Monitor): Monitor {
    if m.log.Some? then m.(log := None, files := m.files + [m.log.value + [MonTrailer(m.count)]]) else m
  }

  /** The session call a transaction makes, if its mode makes one. */
  function CallOf(mode: Mode, t: Txn): Option<Call> {
    match mode
    case DetailMode =>
      Some(DetailCall(Detail(if t.gprValid then t.gprAddr else 0, if t.gprValid then t.gprData else 0, t.pc,
                             t.trap, false, t.csrValid, t.csrAddr, t.csrMask, t.csrData)))
    case RetireMode => Some(RetireCall(t.pc, t.instr))
    case LogOnly => None
  }

  function ResultName(mode: Mode, rc: int): string {
    if mode == LogOnly then "LOG" else if rc == 0 then "PASS" else "FAIL"
  }

  /** MonInstr::retire; false also when the session call raises, which ends the program. */
  function MonRetire(m: Monitor, b: Bridge, t: Txn): (Monitor, Bridge, bool) {
    var call := CallOf(m.mode, t);
    var (b', code) := if call.Some? then Do(b, call.value) else (b, Some(0));
    if code.None? then (m, b', false)
    else
      (m.(count := m.count + 1,
          log := if m.log.None? then None
                 else Some(m.log.value + [MonRow(m.count, t, ResultName(m.mode, code.value))])),
       b', code.value == 0)
  }

  /** What a testbench does: report a transaction to its monitor, or call the bridge itself. */
  datatype Event = Report(txn: Txn) | Direct(call: Call)

  datatype Bench = Bench(monitor: Monitor, bridge: Bridge)

  function Bench1(w: Bench, e: Event): Bench {
    match e
    case Report(t) =>
      var (m, b, _) := MonRetire(w.monitor, w.bridge, t);
      Bench(m, b)
    case Direct(c) => w.(bridge := Do(w.bridge, c).0)
  }

  function BenchAll(w: Bench, es: seq<Event>): Bench {
    if es == [] then w else Bench1(BenchAll(w, es[..|es| - 1]), es[|es| - 1])
  }

  /** The session calls a mixed sequence makes: the direct ones, and one for each report unless the
      monitor only logs. */
  function SessionCalls(mode: Mode, es: seq<Event>): seq<Call> {
    if es == [] then []
    else
      var e := es[|es| - 1];
      SessionCalls(mode, es[..|es| - 1])
      + match e
        case Direct(c) => [c]
        case Report(t) => if CallOf(mode, t).Some? then [CallOf(mode, t).value] else []
  }

  lemma DoAllNext(b: Bridge, cs: seq<Call>, c: Call)
    ensures DoAll(b, cs + [c]) == Do(DoAll(b, cs), c).0
  {
    assert (cs + [c])[..|cs|] == cs;
  }

  /** However reports and direct calls interleave, the session ends up as these calls alone leave it: one
      per report in the comparing modes, none when the monitor only logs. */
  lemma {:induction false} MonitorAddsNoOtherCalls(w: Bench, es: seq<Event>)
    ensures BenchAll(w, es).bridge == DoAll(w.bridge, SessionCalls(w.monitor.mode, es))
    ensures BenchAll(w, es).monitor.mode == w.monitor.mode
  {
    hide Do;
    if es != [] {
      var front, e := es[..|es| - 1], es[|es| - 1];
      MonitorAddsNoOtherCalls(w, front);
      var cs := SessionCalls(w.monitor.mode, front);
      match e
      case Direct(c) => DoAllNext(w.bridge, cs, c);
      case Report(t) =>
        if CallOf(w.monitor.mode, t).Some? {
          DoAllNext(w.bridge, cs, CallOf(w.monitor.mode, t).value);
        } else {
          assert cs + [] == cs;
        }
    }
  }

  function DirectCalls(es: seq<Event>): seq<Call> {
    if es == [] then []
    else DirectCalls(es[..|es| - 1]) + if es[|es| - 1].Direct? then [es[|es| - 1].call] else []
  }

  /** A monitor that only logs is invisible: the checker's own calls alone decide the session and the
      reference, which is therefore never stepped twice. */
  lemma {:induction false} LogOnlyIsInvisible(w: Bench, es: seq<Event>)
    requires w.monitor.mode == LogOnly
    ensures BenchAll(w, es).bridge == DoAll(w.bridge, DirectCalls(es))
  {
    MonitorAddsNoOtherCalls(w, es);
    OnlyDirect(es);
  }

  lemma {:induction false} OnlyDirect(es: seq<Event>)
    ensures SessionCalls(LogOnly, es) == DirectCalls(es)
  {
    if es != [] {
      OnlyDirect(es[..|es| - 1]);
    }
  }

  function Reports(es: seq<Event>): seq<Txn> {
    if es == [] then []
    else Reports(es[..|es| - 1]) + if es[|es| - 1].Report? then [es[|es| - 1].txn] else []
  }

  /** The rows of an open monitor log, numbered from 0, are those of the transactions `ts`. */
  predicate Rows(log: seq<MonLine>, ts: seq<Txn>) {
    && |log| == |ts| + 1 && log[0] == MonHeader
    && forall k | 1 <= k < |log| :: log[k].MonRow? && log[k].step == k - 1 && log[k].txn == ts[k - 1]
  }

  /** The log of a monitor has, besides its header, one numbered row for each reported transaction, in
      order, and the trailer states how many; a report whose session call raises is not counted. */
  lemma {:induction false} MonitorLogsEveryReport(mode: Mode, b: Bridge, es: seq<Event>)
    ensures var m := BenchAll(Bench(MonStart(mode), b), es).monitor;
            && m.count <= |Reports(es)| && m.log.Some? && m.files == []
            && (m.count == |Reports(es)| ==>
                  && Rows(m.log.value, Reports(es))
                  && MonFinish(m).files == [m.log.value + [MonTrailer(|Reports(es)|)]])
  {
    hide Do, Rows;
    if es != [] {
      var front, e := es[..|es| - 1], es[|es| - 1];
      MonitorLogsEveryReport(mode, b, front);
      var m := BenchAll(Bench(MonStart(mode), b), front).monitor;
      if e.Direct? {
        assert Reports(es) == Reports(front);
      } else if m.count == |Reports(front)| {
        RowsGrow(m.log.value, Reports(front), e.txn);
      }
    } else {
      StartRows();
    }
  }

  lemma StartRows()
    ensures Rows([MonHeader], [])
  {
  }

  lemma RowsGrow(log: seq<MonLine>, ts: seq<Txn>, t: Txn)
    requires Rows(log, ts)
    ensures forall result :: Rows(log + [MonRow(|ts|, t, result)], ts + [t])
  {
  }
}
