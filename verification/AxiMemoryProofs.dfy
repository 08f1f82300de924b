/** What the AXI memory keeps at every half cycle, and what its runs guarantee whatever the timing
    bits are. */
module AxiMemoryProofs {
  import opened ByteLanes
  import opened Options
  import opened AxiMemory

  // ---------------------------------------------------------------- one channel

  /** `used` are the items of the channel's accesses so far, `due` what the master is bound to offer at
      the next posedge. The ready line equals the fast flag; the items latched are those handshaken,
      and the due one while its handshake is pending; each has been used or is the one in the
      latch, so none is overwritten unused. */
  predicate InvChan<T(==)>(p: Port<T>, seen: Seen<T>, used: seq<T>, due: Option<T>) {
    && p.ready == p.fast
    && (p.ready ==> due.Some?)
    && seen.lat == seen.hs + (if p.ready && due.Some? then [due.value] else [])
    && seen.lat == used + (if p.en then [p.value] else [])
  }

  function Used<T>(used: seq<T>, p: Port<T>, uses: bool): seq<T> {
    if uses then used + [p.value] else used
  }

  lemma FallKeepsChan<T>(p: Port<T>, seen: Seen<T>, used: seq<T>, due: Option<T>, offer: Option<T>,
                         go: bool, uses: bool)
    requires InvChan(p, seen, used, due) && (due.Some? ==> offer == due)
    requires uses ==> Take(p, p.fast, offer, go).en
    ensures var n := Take(p, p.fast, offer, go);
            InvChan(Release(n, uses), Latched(seen, p, n), Used(used, n, uses), offer)
  {
  }

  lemma RiseKeepsChan<T>(p: Port<T>, seen: Seen<T>, used: seq<T>, offer: Option<T>, go: bool, uses: bool)
    requires InvChan(p, seen, used, offer)
    requires uses ==> Take(SettlePort(p, offer), p.fast, offer, go).en
    ensures var n := Take(SettlePort(p, offer), p.fast, offer, go);
            InvChan(Release(n, uses), Latched(Shaken(seen, p, offer), p, n), Used(used, n, uses), Untaken(p, offer))
  {
  }

  // ---------------------------------------------------------------- the invariant

  /** What the master is bound to offer at the next posedge. */
  function Due(x: Sys): Offers {
    if x.high then x.offers else Offers(x.m.ar, x.m.aw, x.m.w)
  }

  predicate InvChans(x: Sys) {
    && InvChan(x.s.ar, x.h.ar, ReadAddrs(x.h.log), Due(x).ar)
    && InvChan(x.s.aw, x.h.aw, WriteAddrs(x.h.log), Due(x).aw)
    && InvChan(x.s.w, x.h.w, WriteBeats(x.h.log), Due(x).w)
  }

  /** Every access has been answered or has its response on the bus. */
  predicate InvAnswers(x: Sys) {
    && ReadData(x.h.log) == x.h.r + (if x.s.rvalid then [x.s.rdata] else [])
    && |WriteAddrs(x.h.log)| == x.h.b + (if x.s.bvalid then 1 else 0)
  }

  predicate InvLog(mem: seq<Word>, x: Sys) {
    && |mem| == MEM_SIZE / 4
    && x.s.memory == Replay(mem, x.h.log)
    && AtomicLog(mem, x.h.log)
    && x.s.testsPassed == SomePass(x.h.log)
  }

  predicate Inv(mem: seq<Word>, x: Sys) {
    InvChans(x) && InvAnswers(x) && InvLog(mem, x)
  }

  lemma StartInv(mem: seq<Word>)
    requires |mem| == MEM_SIZE / 4
    ensures Inv(mem, Start(mem))
  {
  }

  // ---------------------------------------------------------------- logs grow by one event

  lemma LogNext(log: seq<Event>, e: Event)
    ensures ReadAddrs(log + [e]) == ReadAddrs(log) + if e.Read? then [e.addr] else []
    ensures ReadData(log + [e]) == ReadData(log) + if e.Read? then [e.data] else []
    ensures WriteAddrs(log + [e]) == WriteAddrs(log) + if e.Wrote? then [e.addr] else []
    ensures WriteBeats(log + [e]) == WriteBeats(log) + if e.Wrote? then [e.beat] else []
    ensures SomePass(log + [e]) == (SomePass(log) || (e.Wrote? && Passes(e.addr, e.beat.data)))
  {
    hide Passes;
    assert (log + [e])[..|log|] == log;
    if SomePass(log) {
      var i :| 0 <= i < |log| && log[i].Wrote? && Passes(log[i].addr, log[i].beat.data);
      assert (log + [e])[i] == log[i];
    }
    assert (log + [e])[|log|] == e;
  }

  lemma {:induction false} ReplayNext(mem: seq<Word>, log: seq<Event>, e: Event)
    ensures Replay(mem, log + [e]) == if e.Read? then Replay(mem, log)
                                      else Write(Replay(mem, log), e.addr, e.beat)
    ensures AtomicLog(mem, log) && AtomicEvent(Replay(mem, log), e) ==> AtomicLog(mem, log + [e])
  {
    assert (log + [e])[..|log|] == log;
    forall i | 0 <= i < |log|
      ensures (log + [e])[..i] == log[..i]
    {
    }
  }

  lemma Associate(a: seq<Event>, b: seq<Event>, c: seq<Event>)
    ensures a + (b + c) == (a + b) + c
  {
  }

  lemma LogGrows(log: seq<Event>, n: Axi, s: Axi, g: Go)
    ensures var now := log + Accesses(n, s, g);
            && ReadAddrs(now) == ReadAddrs(log) + (if Reads(n, s, g) && InRange(n.ar.value) then [n.ar.value] else [])
            && ReadData(now)
               == ReadData(log)
                  + (if Reads(n, s, g) && InRange(n.ar.value) then [WordAt(n.memory, n.ar.value)] else [])
            && WriteAddrs(now) == WriteAddrs(log) + (if Writes(n, s, g) then [n.aw.value] else [])
            && WriteBeats(now) == WriteBeats(log) + (if Writes(n, s, g) then [n.w.value] else [])
            && SomePass(now) == (SomePass(log) || (Writes(n, s, g) && Passes(n.aw.value, n.w.value.data)))
  {
    hide ReadAddrs, ReadData, WriteAddrs, WriteBeats, SomePass, Passes, WordAt, InRange, Reads, Writes;
    var mid := log + ReadPart(n, s, g);
    Associate(log, ReadPart(n, s, g), WritePart(n, s, g));
    if ReadPart(n, s, g) != [] {
      LogNext(log, ReadPart(n, s, g)[0]);
    } else {
      assert mid == log;
    }
    if WritePart(n, s, g) != [] {
      LogNext(mid, WritePart(n, s, g)[0]);
    } else {
      assert mid + WritePart(n, s, g) == mid;
    }
  }

  lemma {:induction false} ReadKeepsLog(mem: seq<Word>, log: seq<Event>, n: Axi, s: Axi, g: Go)
    requires |mem| == MEM_SIZE / 4 && n.memory == Replay(mem, log) && AtomicLog(mem, log)
    ensures Replay(mem, log + ReadPart(n, s, g)) == n.memory && AtomicLog(mem, log + ReadPart(n, s, g))
  {
    hide AtomicLog, Replay;
    if ReadPart(n, s, g) != [] {
      ReplayNext(mem, log, ReadPart(n, s, g)[0]);
    } else {
      assert log + ReadPart(n, s, g) == log;
    }
  }

  lemma WriteKeepsLog(mem: seq<Word>, log: seq<Event>, n: Axi, s: Axi, g: Go)
    requires n.memory == Replay(mem, log) && AtomicLog(mem, log)
    ensures var now := log + WritePart(n, s, g);
            && AtomicLog(mem, now)
            && Replay(mem, now) == if Writes(n, s, g) then Write(n.memory, n.aw.value, n.w.value) else n.memory
  {
    hide AtomicLog, Replay, Write, Writes;
    if WritePart(n, s, g) != [] {
      ReplayNext(mem, log, WritePart(n, s, g)[0]);
    } else {
      assert log + WritePart(n, s, g) == log;
    }
  }

  /** Serving keeps the memory equal to the replayed log. */
  lemma {:induction false} ServeKeepsLog(mem: seq<Word>, log: seq<Event>, n: Axi, s: Axi, g: Go)
    requires |mem| == MEM_SIZE / 4 && n.memory == Replay(mem, log) && AtomicLog(mem, log)
    requires n.testsPassed == SomePass(log)
    ensures var now := log + Accesses(n, s, g);
            && Serve(n, s, g).memory == Replay(mem, now) && AtomicLog(mem, now)
            && Serve(n, s, g).testsPassed == SomePass(now)
  {
    hide Reads, Writes, ReadPart, WritePart, Serve, Passes, Write;
    hide AtomicLog, Replay, SomePass, ReadAddrs, ReadData, WriteAddrs, WriteBeats;
    LogGrows(log, n, s, g);
    ReadKeepsLog(mem, log, n, s, g);
    var mid := log + ReadPart(n, s, g);
    WriteKeepsLog(mem, mid, n, s, g);
    Associate(log, ReadPart(n, s, g), WritePart(n, s, g));
    ServeWrites(n, s, g);
  }

  lemma ServeWrites(n: Axi, s: Axi, g: Go)
    ensures Serve(n, s, g).memory == if Writes(n, s, g) then Write(n.memory, n.aw.value, n.w.value) else n.memory
    ensures Serve(n, s, g).testsPassed
            == (n.testsPassed || (Writes(n, s, g) && Passes(n.aw.value, n.w.value.data)))
  {
    hide Reads, Writes, WordAt, InRange, Passes, Ends, Write;
  }

  // ---------------------------------------------------------------- half cycles

  /** The items used so far, after the accesses of one half cycle. */
  lemma UsedGrows(log: seq<Event>, n: Axi, s: Axi, g: Go)
    ensures var now := log + Accesses(n, s, g);
            && ReadAddrs(now) == Used(ReadAddrs(log), n.ar, Reads(n, s, g) && InRange(n.ar.value))
            && WriteAddrs(now) == Used(WriteAddrs(log), n.aw, Writes(n, s, g))
            && WriteBeats(now) == Used(WriteBeats(log), n.w, Writes(n, s, g))
  {
    hide ReadAddrs, ReadData, WriteAddrs, WriteBeats, SomePass, Accesses, InRange, Passes, WordAt, Reads, Writes;
    LogGrows(log, n, s, g);
    assert ReadAddrs(log) + [] == ReadAddrs(log);
    assert WriteAddrs(log) + [] == WriteAddrs(log);
    assert WriteBeats(log) + [] == WriteBeats(log);
  }

  lemma FallKeepsChans(x: Sys, m: Master, g: Go)
    requires InvChans(x) && CanHalf(x, Fall(m, g))
    ensures InvChans(Fallen(x, m, g))
  {
    hide InvChan, ReadAddrs, ReadData, WriteAddrs, WriteBeats, SomePass, Accesses, InRange, Write, Passes, Ends;
    hide Latched, Take, Release, WordAt, Used;
    var n := Latch(x.s, x.s, m, g);
    UsedGrows(x.h.log, n, x.s, g);
    FallKeepsChan(x.s.ar, x.h.ar, ReadAddrs(x.h.log), Due(x).ar, m.ar, g.ar, Reads(n, x.s, g) && InRange(n.ar.value));
    FallKeepsChan(x.s.aw, x.h.aw, WriteAddrs(x.h.log), Due(x).aw, m.aw, g.aw, Writes(n, x.s, g));
    FallKeepsChan(x.s.w, x.h.w, WriteBeats(x.h.log), Due(x).w, m.w, g.w, Writes(n, x.s, g));
  }

  lemma ReadyIsFast(x: Sys)
    requires InvChans(x)
    ensures x.s.ar.ready == x.s.ar.fast && x.s.aw.ready == x.s.aw.fast && x.s.w.ready == x.s.w.fast
  {
  }

  lemma RiseKeepsChans(x: Sys, g: Go)
    requires InvChans(x) && CanHalf(x, Rise(g))
    ensures InvChans(Risen(x, g))
  {
    hide InvChan, ReadAddrs, ReadData, WriteAddrs, WriteBeats, SomePass, Accesses, InRange, Write, Passes, Ends;
    hide Latched, Shaken, SettlePort, Take, Release, WordAt, Untaken, Used;
    var n := Latch(Settle(x.s, x.m), x.s, x.m, g);
    UsedGrows(x.h.log, n, x.s, g);
    RiseKeepsChan(x.s.ar, x.h.ar, ReadAddrs(x.h.log), x.m.ar, g.ar, Reads(n, x.s, g) && InRange(n.ar.value));
    RiseKeepsChan(x.s.aw, x.h.aw, WriteAddrs(x.h.log), x.m.aw, g.aw, Writes(n, x.s, g));
    RiseKeepsChan(x.s.w, x.h.w, WriteBeats(x.h.log), x.m.w, g.w, Writes(n, x.s, g));
  }

  lemma FallKeepsAnswers(x: Sys, m: Master, g: Go)
    requires InvAnswers(x)
    ensures InvAnswers(Fallen(x, m, g))
  {
    hide ReadAddrs, ReadData, WriteAddrs, WriteBeats, SomePass, Accesses, InRange, Write, Passes, Ends;
    LogGrows(x.h.log, Latch(x.s, x.s, m, g), x.s, g);
  }

  lemma RiseKeepsAnswers(x: Sys, g: Go)
    requires InvAnswers(x)
    ensures InvAnswers(Risen(x, g))
  {
    hide ReadAddrs, ReadData, WriteAddrs, WriteBeats, SomePass, Accesses, InRange, Write, Passes, Ends;
    LogGrows(x.h.log, Latch(Settle(x.s, x.m), x.s, x.m, g), x.s, g);
  }

  lemma FallKeepsLog(mem: seq<Word>, x: Sys, m: Master, g: Go)
    requires InvLog(mem, x)
    ensures InvLog(mem, Fallen(x, m, g))
  {
    hide Accesses, AtomicLog, Replay, SomePass, Serve;
    var n := Latch(x.s, x.s, m, g);
    ServeKeepsLog(mem, x.h.log, n, x.s, g);
  }

  lemma {:induction false} RiseKeepsLog(mem: seq<Word>, x: Sys, g: Go)
    requires InvLog(mem, x)
    ensures InvLog(mem, Risen(x, g))
  {
    hide Accesses, AtomicLog, Replay, SomePass, Serve;
    var n := Latch(Settle(x.s, x.m), x.s, x.m, g);
    ServeKeepsLog(mem, x.h.log, n, x.s, g);
  }

  // ---------------------------------------------------------------- runs

  lemma StepKeeps(mem: seq<Word>, x: Sys, l: Half)
    requires Inv(mem, x) && CanHalf(x, l)
    ensures Inv(mem, Step(x, l))
  {
    hide InvChans, InvAnswers, InvLog, Fallen, Risen;
    match l
    case Fall(m, g) =>
      FallKeepsChans(x, m, g);
      FallKeepsAnswers(x, m, g);
      FallKeepsLog(mem, x, m, g);
    case Rise(g) =>
      RiseKeepsChans(x, g);
      RiseKeepsAnswers(x, g);
      RiseKeepsLog(mem, x, g);
  }

  lemma {:induction false} RunKeeps(mem: seq<Word>, x: Sys, ls: seq<Half>)
    requires Inv(mem, x) && Run(x, ls)
    ensures Inv(mem, Exec(x, ls))
  {
    hide Inv, Step, CanHalf;
    if ls != [] {
      RunKeeps(mem, x, ls[..|ls| - 1]);
      StepKeeps(mem, Exec(x, ls[..|ls| - 1]), ls[|ls| - 1]);
    }
  }

  /** A latched item stays in its latch until it is used. */
  predicate Holds<T(==)>(p: Port<T>, now: Port<T>, used: seq<T>, usedNow: seq<T>) {
    p.en ==> (now.en && now.value == p.value && usedNow == used) || usedNow == used + [p.value]
  }

  lemma FallHolds<T>(p: Port<T>, offer: Option<T>, go: bool, uses: bool, used: seq<T>)
    ensures var n := Take(p, p.fast, offer, go);
            Holds(p, Release(n, uses), used, Used(used, n, uses))
  {
  }

  lemma RiseHolds<T>(p: Port<T>, offer: Option<T>, go: bool, uses: bool, used: seq<T>)
    requires p.ready == p.fast
    ensures var n := Take(SettlePort(p, offer), p.fast, offer, go);
            Holds(p, Release(n, uses), used, Used(used, n, uses))
  {
  }

  /** In every half cycle of every run, whatever the timing bits: ready equals fast on each request channel,
      so the late-latch branches of the posedge block are never taken, and a latched item is never
      overwritten before its access. */
  lemma {:induction false} LateLatchUnreachable(mem: seq<Word>, ls: seq<Half>, l: Half)
    requires |mem| == MEM_SIZE / 4 && Run(Start(mem), ls) && CanHalf(Exec(Start(mem), ls), l)
    ensures var x := Exec(Start(mem), ls);
            var y := Step(x, l);
            && x.s.ar.ready == x.s.ar.fast && x.s.aw.ready == x.s.aw.fast && x.s.w.ready == x.s.w.fast
            && Holds(x.s.ar, y.s.ar, ReadAddrs(x.h.log), ReadAddrs(y.h.log))
            && Holds(x.s.aw, y.s.aw, WriteAddrs(x.h.log), WriteAddrs(y.h.log))
            && Holds(x.s.w, y.s.w, WriteBeats(x.h.log), WriteBeats(y.h.log))
  {
    hide Run, Exec, Holds, Fallen, Risen, InvChans;
    StartInv(mem);
    RunKeeps(mem, Start(mem), ls);
    var x := Exec(Start(mem), ls);
    ReadyIsFast(x);
    match l {
      case Fall(m, g) => FallHoldsAll(x, m, g);
      case Rise(g) => RiseHoldsAll(x, g);
    }
  }

  lemma {:induction false} FallHoldsAll(x: Sys, m: Master, g: Go)
    requires InvChans(x)
    ensures var y := Fallen(x, m, g);
            && Holds(x.s.ar, y.s.ar, ReadAddrs(x.h.log), ReadAddrs(y.h.log))
            && Holds(x.s.aw, y.s.aw, WriteAddrs(x.h.log), WriteAddrs(y.h.log))
            && Holds(x.s.w, y.s.w, WriteBeats(x.h.log), WriteBeats(y.h.log))
  {
    hide Holds, ReadAddrs, ReadData, WriteAddrs, WriteBeats, SomePass, Accesses, InRange, Write, Passes, Ends;
    hide Latched, Shaken, SettlePort, Take, Release, WordAt, Untaken, Used, InvChan;
    ReadyIsFast(x);
    var n := Latch(x.s, x.s, m, g);
    UsedGrows(x.h.log, n, x.s, g);
    FallHolds(x.s.ar, m.ar, g.ar, Reads(n, x.s, g) && InRange(n.ar.value), ReadAddrs(x.h.log));
    FallHolds(x.s.aw, m.aw, g.aw, Writes(n, x.s, g), WriteAddrs(x.h.log));
    FallHolds(x.s.w, m.w, g.w, Writes(n, x.s, g), WriteBeats(x.h.log));
  }

  lemma {:induction false} RiseHoldsAll(x: Sys, g: Go)
    requires InvChans(x)
    ensures var y := Risen(x, g);
            && Holds(x.s.ar, y.s.ar, ReadAddrs(x.h.log), ReadAddrs(y.h.log))
            && Holds(x.s.aw, y.s.aw, WriteAddrs(x.h.log), WriteAddrs(y.h.log))
            && Holds(x.s.w, y.s.w, WriteBeats(x.h.log), WriteBeats(y.h.log))
  {
    hide Holds, ReadAddrs, ReadData, WriteAddrs, WriteBeats, SomePass, Accesses, InRange, Write, Passes, Ends;
    hide Latched, Shaken, SettlePort, Take, Release, WordAt, Untaken, Used, InvChan;
    ReadyIsFast(x);
    var n := Latch(Settle(x.s, x.m), x.s, x.m, g);
    UsedGrows(x.h.log, n, x.s, g);
    RiseHolds(x.s.ar, x.m.ar, g.ar, Reads(n, x.s, g) && InRange(n.ar.value), ReadAddrs(x.h.log));
    RiseHolds(x.s.aw, x.m.aw, g.aw, Writes(n, x.s, g), WriteAddrs(x.h.log));
    RiseHolds(x.s.w, x.m.w, g.w, Writes(n, x.s, g), WriteBeats(x.h.log));
  }

  // ---------------------------------------------------------------- nothing lost, duplicated or reordered

  /** Beats delivered never outnumber the handshakes that asked for them. */
  predicate InvCausal(x: Sys) {
    |x.h.r| <= |x.h.ar.hs| && x.h.b <= |x.h.aw.hs| && x.h.b <= |x.h.w.hs|
  }

  lemma SameLengths(log: seq<Event>)
    ensures |ReadAddrs(log)| == |ReadData(log)| && |WriteAddrs(log)| == |WriteBeats(log)|
  {
  }

  lemma StepKeepsCausal(x: Sys, l: Half)
    requires InvChans(x) && InvAnswers(x) && InvCausal(x) && CanHalf(x, l)
    ensures InvCausal(Step(x, l))
  {
    hide ReadAddrs, ReadData, WriteAddrs, WriteBeats, Serve, Latch, Settle, Accesses, SettlePort;
    SameLengths(x.h.log);
  }

  lemma {:induction false} RunKeepsCausal(mem: seq<Word>, ls: seq<Half>)
    requires |mem| == MEM_SIZE / 4 && Run(Start(mem), ls)
    ensures InvCausal(Exec(Start(mem), ls))
  {
    hide Step, CanHalf;
    if ls != [] {
      RunKeepsCausal(mem, ls[..|ls| - 1]);
      StartInv(mem);
      RunKeeps(mem, Start(mem), ls[..|ls| - 1]);
      StepKeepsCausal(Exec(Start(mem), ls[..|ls| - 1]), ls[|ls| - 1]);
    }
  }

  /** Nothing of a channel is lost: the items handshaken, and the due one whose handshake is pending, are those
      of the accesses made so far and the one in the latch, in order. */
  predicate Accounted<T(==)>(p: Port<T>, hs: seq<T>, used: seq<T>, due: Option<T>) {
    && (p.ready ==> due.Some?)
    && hs + (if p.ready && due.Some? then [due.value] else []) == used + (if p.en then [p.value] else [])
  }

  /** Whatever the timing bits and the master's pauses, nothing is lost, duplicated or reordered: on AR, AW and W
      the items handshaken are those accessed and the one latched, in order; every access but the last
      has its response taken, and that one at least has it on the bus; the i-th R beat answers the i-th
      AR handshake with the word left by the writes before it, the i-th B beat the i-th AW and W
      handshakes; and the memory is what the writes leave. */
  lemma {:induction false} EveryRequestServedOnce(mem: seq<Word>, ls: seq<Half>)
    requires |mem| == MEM_SIZE / 4 && Run(Start(mem), ls)
    ensures var x := Exec(Start(mem), ls);
            var log := x.h.log;
            && Accounted(x.s.ar, x.h.ar.hs, ReadAddrs(log), Due(x).ar)
            && Accounted(x.s.aw, x.h.aw.hs, WriteAddrs(log), Due(x).aw)
            && Accounted(x.s.w, x.h.w.hs, WriteBeats(log), Due(x).w)
            && |ReadData(log)| == |ReadAddrs(log)| && |WriteAddrs(log)| == |WriteBeats(log)|
            && ReadData(log) == x.h.r + (if x.s.rvalid then [x.s.rdata] else [])
            && |WriteAddrs(log)| == x.h.b + (if x.s.bvalid then 1 else 0)
            && |x.h.r| <= |x.h.ar.hs| && x.h.b <= |x.h.aw.hs| && x.h.b <= |x.h.w.hs|
            && ReadAddrs(log)[..|x.h.r|] == x.h.ar.hs[..|x.h.r|]
            && WriteAddrs(log)[..x.h.b] == x.h.aw.hs[..x.h.b]
            && WriteBeats(log)[..x.h.b] == x.h.w.hs[..x.h.b]
            && AtomicLog(mem, log) && x.s.memory == Replay(mem, log)
  {
    hide Run, Exec;
    StartInv(mem);
    RunKeeps(mem, Start(mem), ls);
    RunKeepsCausal(mem, ls);
    Served(mem, Exec(Start(mem), ls));
  }

  lemma {:induction false} Served(mem: seq<Word>, x: Sys)
    requires Inv(mem, x) && InvCausal(x)
    ensures var log := x.h.log;
            && Accounted(x.s.ar, x.h.ar.hs, ReadAddrs(log), Due(x).ar)
            && Accounted(x.s.aw, x.h.aw.hs, WriteAddrs(log), Due(x).aw)
            && Accounted(x.s.w, x.h.w.hs, WriteBeats(log), Due(x).w)
            && |ReadData(log)| == |ReadAddrs(log)| && |WriteAddrs(log)| == |WriteBeats(log)|
            && ReadData(log) == x.h.r + (if x.s.rvalid then [x.s.rdata] else [])
            && |WriteAddrs(log)| == x.h.b + (if x.s.bvalid then 1 else 0)
            && ReadAddrs(log)[..|x.h.r|] == x.h.ar.hs[..|x.h.r|]
            && WriteAddrs(log)[..x.h.b] == x.h.aw.hs[..x.h.b]
            && WriteBeats(log)[..x.h.b] == x.h.w.hs[..x.h.b]
            && AtomicLog(mem, log) && x.s.memory == Replay(mem, log)
  {
    hide ReadAddrs, ReadData, WriteAddrs, WriteBeats, AtomicLog, Replay, SomePass, Due;
    SameLengths(x.h.log);
    CommonPrefix(x.s.ar, x.h.ar, ReadAddrs(x.h.log), Due(x).ar, |x.h.r|);
    CommonPrefix(x.s.aw, x.h.aw, WriteAddrs(x.h.log), Due(x).aw, x.h.b);
    CommonPrefix(x.s.w, x.h.w, WriteBeats(x.h.log), Due(x).w, x.h.b);
  }

  /** Hence, with no ready line up, nothing latched and no response on the bus, every handshake has its beat. */
  lemma {:induction false} AtRestAllIsAnswered(mem: seq<Word>, ls: seq<Half>)
    requires |mem| == MEM_SIZE / 4 && Run(Start(mem), ls)
    ensures var x := Exec(Start(mem), ls);
            && (!x.s.ar.ready && !x.s.ar.en && !x.s.rvalid ==> |x.h.r| == |x.h.ar.hs|)
            && (!x.s.aw.ready && !x.s.aw.en && !x.s.bvalid ==> x.h.b == |x.h.aw.hs|)
            && (!x.s.w.ready && !x.s.w.en && !x.s.bvalid ==> x.h.b == |x.h.w.hs|)
  {
    hide Run, Exec, Replay, AtomicLog, ReadAddrs, ReadData, WriteAddrs, WriteBeats;
    EveryRequestServedOnce(mem, ls);
  }

  lemma CommonPrefix<T>(p: Port<T>, seen: Seen<T>, used: seq<T>, due: Option<T>, n: nat)
    requires InvChan(p, seen, used, due) && n <= |used| && n <= |seen.hs|
    ensures used[..n] == seen.hs[..n]
  {
    assert used[..n] == seen.lat[..n] == seen.hs[..n];
  }

  // ---------------------------------------------------------------- every handshake is answered in time

  /** How many turns a response channel takes at most until `owed` more responses have been taken: a response
      not yet on the bus takes three, one on the bus two, and one the master is about to take, one. */
  function Turns(owed: int, valid: bool, high: bool, ready: bool): nat {
    if owed <= 0 then 0
    else 3 * (owed - 1) + if !valid then 3 else if high || !ready then 2 else 1
  }

  /** A half cycle whose timing bit allows a read while the master takes R beats; ReadTurns counts them. */
  predicate ReadTurn(x: Sys, l: Half) {
    l.g.r && if l.Fall? then l.m.rready else x.m.rready
  }

  predicate WriteTurn(x: Sys, l: Half) {
    l.g.b && if l.Fall? then l.m.bready else x.m.bready
  }

  function ReadTurns(x: Sys, ls: seq<Half>): nat
    requires Run(x, ls)
  {
    if ls == [] then 0
    else ReadTurns(x, ls[..|ls| - 1]) + if ReadTurn(Exec(x, ls[..|ls| - 1]), ls[|ls| - 1]) then 1 else 0
  }

  function WriteTurns(x: Sys, ls: seq<Half>): nat
    requires Run(x, ls)
  {
    if ls == [] then 0
    else WriteTurns(x, ls[..|ls| - 1]) + if WriteTurn(Exec(x, ls[..|ls| - 1]), ls[|ls| - 1]) then 1 else 0
  }

  /** The turns until the first n AR handshakes have their R beats, and the first n AW and W handshakes their
      B beats. */
  function ReadWait(x: Sys, n: nat): nat {
    Turns(n - |x.h.r|, x.s.rvalid, x.high, x.m.rready)
  }

  function WriteWait(x: Sys, n: nat): nat {
    Turns(n - x.h.b, x.s.bvalid, x.high, x.m.bready)
  }

  /** The read owed next is latched, at an address inside the memory, unless its beat is on the bus. */
  predicate ReadLatched(x: Sys, n: nat) {
    |x.h.r| < n && !x.s.rvalid ==> x.s.ar.en && InRange(x.s.ar.value)
  }

  predicate WriteLatched(x: Sys, n: nat) {
    x.h.b < n && !x.s.bvalid ==> x.s.aw.en && x.s.w.en
  }

  lemma {:induction false} ReadApproaches(x: Sys, l: Half, n: nat)
    requires CanHalf(x, l) && ReadLatched(x, n) && x.s.ar.ready == x.s.ar.fast
    ensures ReadWait(Step(x, l), n) + (if ReadTurn(x, l) && ReadWait(x, n) > 0 then 1 else 0) <= ReadWait(x, n)
    ensures |x.h.r| <= |Step(x, l).h.r|
    ensures x.h.ar.hs <= Step(x, l).h.ar.hs
  {
    hide WordAt, InRange, Write, Passes, Ends, Accesses, Untaken;
  }

  lemma {:induction false} WriteApproaches(x: Sys, l: Half, n: nat)
    requires CanHalf(x, l) && WriteLatched(x, n) && x.s.aw.ready == x.s.aw.fast && x.s.w.ready == x.s.w.fast
    ensures WriteWait(Step(x, l), n) + (if WriteTurn(x, l) && WriteWait(x, n) > 0 then 1 else 0) <= WriteWait(x, n)
    ensures x.h.b <= Step(x, l).h.b
    ensures |x.h.aw.hs| <= |Step(x, l).h.aw.hs| && |x.h.w.hs| <= |Step(x, l).h.w.hs|
  {
    hide WordAt, InRange, Write, Passes, Ends, Accesses, Untaken;
  }

  /** What is owed to handshakes is latched or on the bus, and takes at most five turns. */
  lemma {:induction false} OwedIsLatched(mem: seq<Word>, x: Sys, n: nat)
    requires Inv(mem, x)
    ensures n <= |x.h.ar.hs| && (forall i | |x.h.r| <= i < n :: InRange(x.h.ar.hs[i])) ==>
              ReadLatched(x, n) && ReadWait(x, n) <= 5
    ensures n <= |x.h.aw.hs| && n <= |x.h.w.hs| ==> WriteLatched(x, n) && WriteWait(x, n) <= 5
  {
    hide ReadAddrs, ReadData, WriteAddrs, WriteBeats, InvLog, Due, InRange;
    SameLengths(x.h.log);
    if n <= |x.h.ar.hs| && |x.h.r| < n && !x.s.rvalid {
      assert x.h.ar.lat[|x.h.r|] == x.h.ar.hs[|x.h.r|];
    }
  }

  lemma {:induction false} ReadsFall(mem: seq<Word>, x: Sys, ls: seq<Half>, n: nat)
    requires Inv(mem, x) && Run(x, ls) && n <= |x.h.ar.hs|
    requires forall i | |x.h.r| <= i < n :: InRange(x.h.ar.hs[i])
    ensures var y := Exec(x, ls);
            && x.h.ar.hs <= y.h.ar.hs && |x.h.r| <= |y.h.r|
            && (|y.h.r| < n ==> ReadTurns(x, ls) + ReadWait(y, n) <= ReadWait(x, n))
  {
    hide Step, CanHalf, Inv, ReadWait, ReadTurn, ReadLatched, InRange;
    if ls != [] {
      var front, l := ls[..|ls| - 1], ls[|ls| - 1];
      var before := Exec(x, front);
      ReadsFall(mem, x, front, n);
      RunKeeps(mem, x, front);
      OwedIsLatched(mem, before, n);
      InvReady(mem, before);
      ReadApproaches(before, l, n);
      OwedIsPositive(before, n);
    }
  }

  lemma {:induction false} WritesFall(mem: seq<Word>, x: Sys, ls: seq<Half>, n: nat)
    requires Inv(mem, x) && Run(x, ls) && n <= |x.h.aw.hs| && n <= |x.h.w.hs|
    ensures var y := Exec(x, ls);
            && |x.h.aw.hs| <= |y.h.aw.hs| && |x.h.w.hs| <= |y.h.w.hs|
            && (y.h.b < n ==> WriteTurns(x, ls) + WriteWait(y, n) <= WriteWait(x, n)) && x.h.b <= y.h.b
  {
    hide Step, CanHalf, Inv, WriteWait, WriteTurn, WriteLatched;
    if ls != [] {
      var front, l := ls[..|ls| - 1], ls[|ls| - 1];
      var before := Exec(x, front);
      WritesFall(mem, x, front, n);
      RunKeeps(mem, x, front);
      OwedIsLatched(mem, before, n);
      InvReady(mem, before);
      WriteApproaches(before, l, n);
      OwedIsPositive(before, n);
    }
  }

  lemma InvReady(mem: seq<Word>, x: Sys)
    requires Inv(mem, x)
    ensures x.s.ar.ready == x.s.ar.fast && x.s.aw.ready == x.s.aw.fast && x.s.w.ready == x.s.w.fast
  {
    hide InvLog, InvAnswers, Due;
  }

  lemma OwedIsPositive(x: Sys, n: nat)
    ensures |x.h.r| < n <==> ReadWait(x, n) > 0
    ensures x.h.b < n <==> WriteWait(x, n) > 0
  {
  }

  /** Progress, from any point of any run: after five half cycles that allow reads to a master taking R beats,
      every AR handshake made before has its beat, if the addresses still owed are in range; after five
      that allow writes to a master taking B beats, so has every AW and W pair. The other half cycles
      may be any number and have any timing bits. */
  lemma {:induction false} AnsweredWithinFiveTurns(mem: seq<Word>, ls: seq<Half>, more: seq<Half>)
    requires |mem| == MEM_SIZE / 4 && Run(Start(mem), ls) && Run(Exec(Start(mem), ls), more)
    ensures var x := Exec(Start(mem), ls);
            var y := Exec(x, more);
            && (ReadTurns(x, more) >= 5 && (forall i | |x.h.r| <= i < |x.h.ar.hs| :: InRange(x.h.ar.hs[i])) ==>
                  |y.h.r| >= |x.h.ar.hs|)
            && (WriteTurns(x, more) >= 5 ==> y.h.b >= |x.h.aw.hs| || y.h.b >= |x.h.w.hs|)
  {
    hide Run, Exec, Inv, InRange, ReadWait, WriteWait, ReadTurns, WriteTurns;
    StartInv(mem);
    RunKeeps(mem, Start(mem), ls);
    var x := Exec(Start(mem), ls);
    var y := Exec(x, more);
    if forall i | |x.h.r| <= i < |x.h.ar.hs| :: InRange(x.h.ar.hs[i]) {
      OwedIsLatched(mem, x, |x.h.ar.hs|);
      ReadsFall(mem, x, more, |x.h.ar.hs|);
      OwedIsPositive(y, |x.h.ar.hs|);
    }
    var n := if |x.h.aw.hs| < |x.h.w.hs| then |x.h.aw.hs| else |x.h.w.hs|;
    OwedIsLatched(mem, x, n);
    WritesFall(mem, x, more, n);
    OwedIsPositive(y, n);
  }

  /** The memory after a list of write pairs, the i-th address with the i-th beat. */
  function WriteAll(mem: seq<Word>, addrs: seq<nat>, beats: seq<Beat>): (r: seq<Word>)
    requires |addrs| == |beats|
    ensures |r| == |mem|
  {
    if addrs == [] then mem
    else Write(WriteAll(mem, addrs[..|addrs| - 1], beats[..|beats| - 1]), addrs[|addrs| - 1], beats[|beats| - 1])
  }

  lemma {:induction false} ReplayIsWritePairs(mem: seq<Word>, log: seq<Event>)
    ensures |WriteAddrs(log)| == |WriteBeats(log)|
    ensures Replay(mem, log) == WriteAll(mem, WriteAddrs(log), WriteBeats(log))
  {
    SameLengths(log);
    if log != [] {
      hide Write;
      ReplayIsWritePairs(mem, log[..|log| - 1]);
      var addrs, beats := WriteAddrs(log[..|log| - 1]), WriteBeats(log[..|log| - 1]);
      if log[|log| - 1].Wrote? {
        assert (addrs + [log[|log| - 1].addr])[..|addrs|] == addrs;
        assert (beats + [log[|log| - 1].beat])[..|beats|] == beats;
      } else {
        assert addrs + [] == addrs && beats + [] == beats;
      }
    }
  }

  /** Once no write response is on the bus, the memory is what the answered pairs write, the i-th AW
      handshake with the i-th W handshake, however the two channels were timed. */
  lemma {:induction false} MemoryIsTheWritePairs(mem: seq<Word>, ls: seq<Half>)
    requires |mem| == MEM_SIZE / 4 && Run(Start(mem), ls) && !Exec(Start(mem), ls).s.bvalid
    ensures var x := Exec(Start(mem), ls);
            && x.h.b <= |x.h.aw.hs| && x.h.b <= |x.h.w.hs|
            && x.s.memory == WriteAll(mem, x.h.aw.hs[..x.h.b], x.h.w.hs[..x.h.b])
  {
    hide Run, Exec, Replay, AtomicLog, WriteAll, ReadAddrs, ReadData, WriteAddrs, WriteBeats, SomePass;
    var x := Exec(Start(mem), ls);
    StartInv(mem);
    RunKeeps(mem, Start(mem), ls);
    RunKeepsCausal(mem, ls);
    Served(mem, x);
    ReplayIsWritePairs(mem, x.h.log);
    assert WriteAddrs(x.h.log)[..x.h.b] == WriteAddrs(x.h.log);
    assert WriteBeats(x.h.log)[..x.h.b] == WriteBeats(x.h.log);
  }

  /** tests_passed is set exactly when the firmware has written a pass marker or the magic value. */
  lemma {:induction false} PassedIffWritten(mem: seq<Word>, ls: seq<Half>)
    requires |mem| == MEM_SIZE / 4 && Run(Start(mem), ls)
    ensures Exec(Start(mem), ls).s.testsPassed <==> SomePass(Exec(Start(mem), ls).h.log)
  {
    StartInv(mem);
    RunKeeps(mem, Start(mem), ls);
  }

  // ---------------------------------------------------------------- timing never shows

  /** One transfer of a master that finishes each before it starts the next. */
  datatype Op = Load(addr: nat) | Store(addr: nat, beat: Beat)

  function Count(ops: seq<Op>, stores: bool): nat {
    if ops == [] then 0 else Count(ops[..|ops| - 1], stores) + if ops[|ops| - 1].Store? == stores then 1 else 0
  }

  function Finished(h: Trace): nat {
    |h.r| + h.b
  }

  /** The master offers only what the transfer in progress still needs. */
  predicate Obeys(ops: seq<Op>, h: Trace, m: Master) {
    var k := Finished(h);
    && (m.ar.Some? ==> k < |ops| && ops[k] == Load(m.ar.value) && |h.ar.hs| == Count(ops[..k], false))
    && (m.aw.Some? ==> k < |ops| && ops[k].Store? && ops[k].addr == m.aw.value && |h.aw.hs| == Count(ops[..k], true))
    && (m.w.Some? ==> k < |ops| && ops[k].Store? && ops[k].beat == m.w.value && |h.w.hs| == Count(ops[..k], true))
  }

  predicate RunOf(ops: seq<Op>, x: Sys, ls: seq<Half>)
    requires Run(x, ls)
  {
    ls == [] || (RunOf(ops, x, ls[..|ls| - 1])
                 && (ls[|ls| - 1].Fall? ==> Obeys(ops, Exec(x, ls[..|ls| - 1]).h, ls[|ls| - 1].m)))
  }

  function OpOf(e: Event): Op {
    if e.Read? then Load(e.addr) else Store(e.addr, e.beat)
  }

  function OpsOf(log: seq<Event>): seq<Op> {
    seq(|log|, i requires 0 <= i < |log| => OpOf(log[i]))
  }

  /** The memory and the loaded words of transfers carried out one at a time. */
  function MemoryAfter(mem: seq<Word>, ops: seq<Op>): seq<Word> {
    if ops == [] then mem
    else
      var before, op := MemoryAfter(mem, ops[..|ops| - 1]), ops[|ops| - 1];
      if op.Load? then before else Write(before, op.addr, op.beat)
  }

  function Loaded(mem: seq<Word>, ops: seq<Op>): seq<Word> {
    if ops == [] then []
    else
      var front, op := ops[..|ops| - 1], ops[|ops| - 1];
      Loaded(mem, front) + if op.Load? then [WordAt(MemoryAfter(mem, front), op.addr)] else []
  }

  lemma {:induction false} LogDecidesNothing(mem: seq<Word>, log: seq<Event>)
    requires AtomicLog(mem, log)
    ensures Replay(mem, log) == MemoryAfter(mem, OpsOf(log))
    ensures ReadData(log) == Loaded(mem, OpsOf(log))
    ensures |ReadAddrs(log)| == Count(OpsOf(log), false) && |WriteAddrs(log)| == Count(OpsOf(log), true)
  {
    hide Write, InRange, Index;
    if log != [] {
      hide AtomicLog, AtomicEvent;
      var front := log[..|log| - 1];
      AtomicFront(mem, log);
      LogDecidesNothing(mem, front);
      assert OpsOf(log)[..|log| - 1] == OpsOf(front);
    }
  }

  lemma {:induction false} AtomicFront(mem: seq<Word>, log: seq<Event>)
    requires AtomicLog(mem, log) && log != []
    ensures var front, e := log[..|log| - 1], log[|log| - 1];
            AtomicLog(mem, front) && (e.Read? ==> e.data == WordAt(Replay(mem, front), e.addr))
  {
    hide Replay, InRange;
    var front := log[..|log| - 1];
    assert AtomicEvent(Replay(mem, front), log[|log| - 1]);
    forall i | 0 <= i < |front|
      ensures AtomicEvent(Replay(mem, front[..i]), front[i])
    {
      assert log[..i] == front[..i];
    }
  }

  /** A latched item belongs to the transfer in progress, which has had no access yet. */
  predicate PortsMatch(ops: seq<Op>, h: Trace, n: Axi) {
    var k := Finished(h);
    && (n.ar.en ==> |h.log| == k < |ops| && ops[k] == Load(n.ar.value))
    && (n.aw.en ==> |h.log| == k < |ops| && ops[k].Store? && ops[k].addr == n.aw.value)
    && (n.w.en ==> |h.log| == k < |ops| && ops[k].Store? && ops[k].beat == n.w.value)
  }

  predicate InvSeq(ops: seq<Op>, x: Sys) {
    && |x.h.log| == Finished(x.h) + (if x.s.rvalid then 1 else 0) + (if x.s.bvalid then 1 else 0)
    && !(x.s.rvalid && x.s.bvalid)
    && (x.s.rvalid && Finished(x.h) < |ops| ==> ops[Finished(x.h)].Load?)
    && (x.s.bvalid && Finished(x.h) < |ops| ==> ops[Finished(x.h)].Store?)
    && |x.h.log| <= |ops| && OpsOf(x.h.log) == ops[..|x.h.log|]
    && PortsMatch(ops, x.h, x.s)
    && (!x.high ==> Obeys(ops, x.h, x.m))
  }

  /** A port that takes an offer takes it for a transfer that has had no access yet. */
  lemma TakeMatches<T>(p: Port<T>, seen: Seen<T>, used: seq<T>, due: Option<T>, offer: Option<T>, go: bool,
                       ops: seq<Op>, done: nat, k: nat, stores: bool)
    requires InvChan(p, seen, used, due) && k <= done <= k + 1 && done <= |ops|
    requires |used| == Count(ops[..done], stores)
    requires offer.Some? ==> k < |ops| && ops[k].Store? == stores && |seen.hs| == Count(ops[..k], stores)
    requires !p.en && Take(p, p.fast, offer, go).en
    ensures done == k
  {
    if k < |ops| {
      CountNext(ops, k, stores);
    }
  }

  lemma CountNext(ops: seq<Op>, k: nat, stores: bool)
    requires k < |ops|
    ensures Count(ops[..k + 1], stores) == Count(ops[..k], stores) + if ops[k].Store? == stores then 1 else 0
  {
    assert ops[..k + 1][..k] == ops[..k];
  }

  lemma LatchMatches(mem: seq<Word>, ops: seq<Op>, x: Sys, m: Master, g: Go)
    requires Inv(mem, x) && InvSeq(ops, x) && Obeys(ops, x.h, m)
    ensures PortsMatch(ops, x.h, Latch(x.s, x.s, m, g))
  {
    hide InvChan, ReadAddrs, ReadData, WriteAddrs, WriteBeats, Replay, AtomicLog, SomePass, Count, OpsOf;
    hide MemoryAfter, Loaded;
    LogDecidesNothing(mem, x.h.log);
    var k, done, n := Finished(x.h), |x.h.log|, Latch(x.s, x.s, m, g);
    if !x.s.ar.en && n.ar.en {
      TakeMatches(x.s.ar, x.h.ar, ReadAddrs(x.h.log), Due(x).ar, m.ar, g.ar, ops, done, k, false);
    }
    if !x.s.aw.en && n.aw.en {
      TakeMatches(x.s.aw, x.h.aw, WriteAddrs(x.h.log), Due(x).aw, m.aw, g.aw, ops, done, k, true);
    }
    if !x.s.w.en && n.w.en {
      SameLengths(x.h.log);
      TakeMatches(x.s.w, x.h.w, WriteBeats(x.h.log), Due(x).w, m.w, g.w, ops, done, k, true);
    }
  }

  /** An access is that of the transfer in progress. */
  lemma AccessMatches(ops: seq<Op>, h: Trace, n: Axi, s: Axi, g: Go)
    requires PortsMatch(ops, h, n) && |h.log| <= |ops| && OpsOf(h.log) == ops[..|h.log|]
    ensures var now := h.log + Accesses(n, s, g);
            && |now| <= |ops| && OpsOf(now) == ops[..|now|]
            && !((Reads(n, s, g) && InRange(n.ar.value)) && Writes(n, s, g))
            && |now| == |h.log| + (if Reads(n, s, g) && InRange(n.ar.value) then 1 else 0)
                        + (if Writes(n, s, g) then 1 else 0)
  {
    var now := h.log + Accesses(n, s, g);
    forall i | 0 <= i < |now|
      ensures i < |ops| && OpOf(now[i]) == ops[i]
    {
      if i < |h.log| {
        assert now[i] == h.log[i];
        assert OpsOf(h.log)[i] == ops[i];
      }
    }
  }

  lemma FallKeepsSeq(mem: seq<Word>, ops: seq<Op>, x: Sys, m: Master, g: Go)
    requires Inv(mem, x) && InvSeq(ops, x) && CanHalf(x, Fall(m, g)) && Obeys(ops, x.h, m)
    ensures InvSeq(ops, Fallen(x, m, g))
  {
    var n := Latch(x.s, x.s, m, g);
    LatchMatches(mem, ops, x, m, g);
    AccessMatches(ops, x.h, n, x.s, g);
    hide InvChans, InvAnswers, InvLog, Accesses, OpsOf, Count, Write, WordAt, Take, Latched, Passes, Ends, InRange;
  }

  /** At a posedge the latches settle without taking anything late. */
  lemma RiseMatches(mem: seq<Word>, ops: seq<Op>, x: Sys, g: Go)
    requires Inv(mem, x) && InvSeq(ops, x) && !x.high
    ensures var n := Latch(Settle(x.s, x.m), x.s, x.m, g);
            && PortsMatch(ops, x.h, n)
            && n.rvalid == (x.s.rvalid && !x.m.rready) && n.bvalid == (x.s.bvalid && !x.m.bready)
  {
    hide InvChans, InvAnswers, InvLog, Obeys, OpsOf, Count;
    LatchMatches(mem, ops, x, x.m, g);
    ReadyIsFast(x);
  }

  lemma RiseKeepsSeq(mem: seq<Word>, ops: seq<Op>, x: Sys, g: Go)
    requires Inv(mem, x) && InvSeq(ops, x) && CanHalf(x, Rise(g))
    ensures InvSeq(ops, Risen(x, g))
  {
    hide Inv, Accesses, OpsOf, Latch, Settle, InRange, Obeys, Risen, Serve, Reads, Writes;
    var n := Latch(Settle(x.s, x.m), x.s, x.m, g);
    RiseMatches(mem, ops, x, g);
    AccessMatches(ops, x.h, n, x.s, g);
    RisenFields(x, g);
    if |x.h.log| == Finished(x.h) {
      assert Finished(Risen(x, g).h) == Finished(x.h);
    } else {
      assert !n.ar.en && !n.aw.en && !n.w.en;
    }
  }

  /** What a posedge does to the fields that the argument above is about. */
  lemma RisenFields(x: Sys, g: Go)
    ensures var n := Latch(Settle(x.s, x.m), x.s, x.m, g);
            var now := Risen(x, g);
            var fetched, wrote := Reads(n, x.s, g) && InRange(n.ar.value), Writes(n, x.s, g);
            && now.high && now.h.log == x.h.log + Accesses(n, x.s, g)
            && now.h.r == (if x.s.rvalid && x.m.rready then x.h.r + [x.s.rdata] else x.h.r)
            && now.h.b == x.h.b + (if x.s.bvalid && x.m.bready then 1 else 0)
            && now.s.rvalid == (n.rvalid || fetched) && now.s.bvalid == (n.bvalid || wrote)
            && (fetched ==> n.ar.en && !x.s.rvalid) && (wrote ==> n.aw.en && n.w.en && !x.s.bvalid)
            && now.s.ar == Release(n.ar, fetched) && now.s.aw == Release(n.aw, wrote) && now.s.w == Release(n.w, wrote)
  {
    hide Accesses, Latch, Settle, WordAt, Write, InRange, Passes, Ends, Latched, Shaken, Untaken;
  }

  lemma {:induction false} RunKeepsSeq(mem: seq<Word>, ops: seq<Op>, ls: seq<Half>)
    requires |mem| == MEM_SIZE / 4 && Run(Start(mem), ls) && RunOf(ops, Start(mem), ls)
    ensures InvSeq(ops, Exec(Start(mem), ls))
  {
    hide Inv, Obeys, CanHalf, InvSeq, Step;
    StartInv(mem);
    if ls == [] {
      SeqStart(mem, ops);
    } else {
      RunKeepsSeq(mem, ops, ls[..|ls| - 1]);
      RunKeeps(mem, Start(mem), ls[..|ls| - 1]);
      SeqStep(mem, ops, Exec(Start(mem), ls[..|ls| - 1]), ls[|ls| - 1]);
    }
  }

  lemma SeqStart(mem: seq<Word>, ops: seq<Op>)
    ensures InvSeq(ops, Start(mem))
  {
  }

  lemma {:induction false} SeqStep(mem: seq<Word>, ops: seq<Op>, x: Sys, l: Half)
    requires Inv(mem, x) && InvSeq(ops, x) && CanHalf(x, l) && (l.Fall? ==> Obeys(ops, x.h, l.m))
    ensures InvSeq(ops, Step(x, l))
  {
    hide Inv, InvSeq, Obeys, Fallen, Risen;
    match l
    case Fall(m, g) => FallKeepsSeq(mem, ops, x, m, g);
    case Rise(g) => RiseKeepsSeq(mem, ops, x, g);
  }

  /** A master that carries out `ops` one at a time gets, after k of them, the words an atomic memory
      gives; and the memory is what those k leave, or one access ahead. */
  lemma {:induction false} SequentialMasterSeesAtomicMemory(mem: seq<Word>, ops: seq<Op>, ls: seq<Half>)
    requires |mem| == MEM_SIZE / 4 && Run(Start(mem), ls) && RunOf(ops, Start(mem), ls)
    ensures var x := Exec(Start(mem), ls);
            var k := Finished(x.h);
            && k <= |ops| && x.h.r == Loaded(mem, ops[..k])
            && (if x.s.bvalid || x.s.rvalid then k < |ops| && x.s.memory == MemoryAfter(mem, ops[..k + 1])
                else x.s.memory == MemoryAfter(mem, ops[..k]))
  {
    hide Inv, InvSeq, Run, RunOf, Exec, Loaded, MemoryAfter;
    StartInv(mem);
    RunKeeps(mem, Start(mem), ls);
    RunKeepsSeq(mem, ops, ls);
    SeqResult(mem, ops, Exec(Start(mem), ls));
  }

  lemma SeqResult(mem: seq<Word>, ops: seq<Op>, x: Sys)
    requires Inv(mem, x) && InvSeq(ops, x)
    ensures var k := Finished(x.h);
            && k <= |ops| && x.h.r == Loaded(mem, ops[..k])
            && (if x.s.bvalid || x.s.rvalid then k < |ops| && x.s.memory == MemoryAfter(mem, ops[..k + 1])
                else x.s.memory == MemoryAfter(mem, ops[..k]))
  {
    hide InvChans, AtomicLog, Replay, SomePass, ReadAddrs, WriteAddrs, ReadData, Obeys, PortsMatch, OpsOf, Write;
    hide WordAt;
    hide Loaded, MemoryAfter, Finished;
    LogDecidesNothing(mem, x.h.log);
    var k := Finished(x.h);
    if |x.h.log| == k + 1 {
      assert ops[..k + 1][..k] == ops[..k];
      ResponseOnBus(mem, ops, x);
    }
  }

  lemma SameFront(r: seq<Word>, d: Word, before: seq<Word>, w: Word)
    requires r + [d] == before + [w]
    ensures r == before
  {
    assert (r + [d])[..|r + [d]| - 1] == r;
    assert (before + [w])[..|before + [w]| - 1] == before;
  }

  lemma ResponseOnBus(mem: seq<Word>, ops: seq<Op>, x: Sys)
    requires InvAnswers(x) && InvSeq(ops, x) && |x.h.log| == Finished(x.h) + 1 <= |ops|
    requires ReadData(x.h.log) == Loaded(mem, ops[..Finished(x.h) + 1])
    ensures x.h.r == Loaded(mem, ops[..Finished(x.h)])
  {
    var k := Finished(x.h);
    assert ops[..k + 1][..k] == ops[..k];
    var before, now := Loaded(mem, ops[..k]), Loaded(mem, ops[..k + 1]);
    assert now == if ops[k].Load? then before + [WordAt(MemoryAfter(mem, ops[..k]), ops[k].addr)] else before;
    var w := WordAt(MemoryAfter(mem, ops[..k]), ops[k].addr);
    hide Loaded, ReadData, WriteAddrs, OpsOf, PortsMatch, Obeys, WordAt, MemoryAfter;
    if x.s.rvalid {
      SameFront(x.h.r, x.s.rdata, before, w);
    } else {
      assert x.h.r + [] == x.h.r;
    }
  }

  /** Timing independence: two runs of the same transfers, under any two sequences of timing bits, agree
      on every word read so far, and, when equally far and at rest, on the memory. */
  lemma {:induction false} TimingNeverShows(mem: seq<Word>, ops: seq<Op>, one: seq<Half>, two: seq<Half>)
    requires |mem| == MEM_SIZE / 4
    requires Run(Start(mem), one) && RunOf(ops, Start(mem), one)
    requires Run(Start(mem), two) && RunOf(ops, Start(mem), two)
    requires Finished(Exec(Start(mem), one).h) <= Finished(Exec(Start(mem), two).h)
    ensures var x, y := Exec(Start(mem), one), Exec(Start(mem), two);
            && x.h.r <= y.h.r
            && (Finished(x.h) == Finished(y.h) ==> x.h.r == y.h.r)
            && (Finished(x.h) == Finished(y.h) && !x.s.rvalid && !x.s.bvalid && !y.s.rvalid && !y.s.bvalid ==>
                  x.s.memory == y.s.memory)
  {
    SequentialMasterSeesAtomicMemory(mem, ops, one);
    SequentialMasterSeesAtomicMemory(mem, ops, two);
    var x, y := Exec(Start(mem), one), Exec(Start(mem), two);
    LoadedIsPrefix(mem, ops[..Finished(y.h)], Finished(x.h));
    assert ops[..Finished(y.h)][..Finished(x.h)] == ops[..Finished(x.h)];
  }

  lemma {:induction false} LoadedIsPrefix(mem: seq<Word>, ops: seq<Op>, k: nat)
    requires k <= |ops|
    ensures Loaded(mem, ops[..k]) <= Loaded(mem, ops)
  {
    if k < |ops| {
      LoadedIsPrefix(mem, ops[..|ops| - 1], k);
      assert ops[..|ops| - 1][..k] == ops[..k];
    } else {
      assert ops[..k] == ops;
    }
  }

  /** With every timing bit allowing, an idle memory answers a read in the half cycle that offers it. */
  lemma PromptWithoutDelays(s: Axi, m: Master)
    requires !s.ar.en && !s.ar.fast && !s.rvalid && m.ar.Some? && InRange(m.ar.value)
    ensures var now := NegEdge(s, m, Go(true, true, true, true, true));
            now.ar.ready && now.rvalid && now.rdata == WordAt(s.memory, m.ar.value)
  {
  }
}
