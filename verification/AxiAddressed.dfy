/** The AXI memory told by addresses, bytes and numbers alone, without the decode, the indexing and the
    markers that the machine itself is written with. */
module AxiAddressed {
  import opened AxiMemory
  import opened AxiMemoryProofs
  import opened ByteAddresses
  import opened ByteLanes
  import opened SimMarkers

  // ---------------------------------------------------------------- bytes last written

  datatype Put = Put(addr: nat, beat: Beat)

  predicate Strobed(s: Strobe, k: nat)
    requires k < 4
  {
    if k == 0 then s.s0 else if k == 1 then s.s1 else if k == 2 then s.s2 else s.s3
  }

  /** The byte at address a after the writes `puts`: that of the last one to the word of a with the strobe of a on,
      or the initial one. */
  function LastByte(mem: seq<Word>, puts: seq<Put>, a: nat): bv8
    requires |mem| == 0x8000 && RAM_FIRST <= a < RAM_END
  {
    if puts == [] then MemByte(mem, a)
    else
      var p := puts[|puts| - 1];
      if p.addr - p.addr % 4 == a - a % 4 && Strobed(p.beat.strb, a % 4) then WordByte(p.beat.data, a % 4)
      else LastByte(mem, puts[..|puts| - 1], a)
  }

  lemma {:induction false} PutByte(mem: seq<Word>, p: Put, a: nat)
    requires |mem| == 0x8000 && RAM_FIRST <= a < RAM_END
    ensures MemByte(Write(mem, p.addr, p.beat), a)
            == if p.addr - p.addr % 4 == a - a % 4 && Strobed(p.beat.strb, a % 4) then WordByte(p.beat.data, a % 4)
               else MemByte(mem, a)
  {
    SameWord(p.addr, a);
    MergedByte(if InRange(p.addr) then mem[Index(p.addr)] else ZERO_WORD, p.beat, a % 4);
    hide Merge, WordByte, Strobed;
  }

  lemma SameWord(b: nat, a: nat)
    requires RAM_FIRST <= a < RAM_END
    ensures b - b % 4 == a - a % 4 <==> InRange(b) && Index(b) == (a - RAM_FIRST) / 4
    ensures InRange(b) ==> Index(b) < 0x8000
  {
  }

  lemma MergedByte(was: Word, beat: Beat, k: nat)
    requires k < 4
    ensures WordByte(Merge(was, beat.data, beat.strb), k)
            == if Strobed(beat.strb, k) then WordByte(beat.data, k) else WordByte(was, k)
  {
  }

  /** The word read at an address of the memory, byte by byte. */
  lemma ReadBytes(mem: seq<Word>, b: nat, k: nat)
    requires |mem| == 0x8000 && k < 4 && InRange(b) && Index(b) < |mem|
    ensures 0x8000_0000 <= b < 0x8002_0000 && RAM_FIRST <= b - b % 4 + k < RAM_END
    ensures WordByte(mem[Index(b)], k) == MemByte(mem, b - b % 4 + k)
  {
  }

  // ---------------------------------------------------------------- the access log

  function LogPuts(log: seq<Event>): seq<Put> {
    if log == [] then []
    else
      var e := log[|log| - 1];
      LogPuts(log[..|log| - 1]) + if e.Wrote? then [Put(e.addr, e.beat)] else []
  }

  lemma {:induction false} LastByteNext(mem: seq<Word>, puts: seq<Put>, p: Put, a: nat)
    requires |mem| == 0x8000 && RAM_FIRST <= a < RAM_END
    ensures LastByte(mem, puts + [p], a)
            == if p.addr - p.addr % 4 == a - a % 4 && Strobed(p.beat.strb, a % 4) then WordByte(p.beat.data, a % 4)
               else LastByte(mem, puts, a)
  {
    hide Strobed, WordByte, MemByte;
    assert (puts + [p])[..|puts|] == puts;
  }

  lemma {:induction false} ReplayedByte(mem: seq<Word>, log: seq<Event>, a: nat)
    requires |mem| == 0x8000 && RAM_FIRST <= a < RAM_END
    ensures MemByte(Replay(mem, log), a) == LastByte(mem, LogPuts(log), a)
  {
    hide Write, MemByte, LastByte, Strobed, WordByte;
    if log == [] {
      NothingWritten(mem, a);
    } else {
      var front, e := log[..|log| - 1], log[|log| - 1];
      ReplayedByte(mem, front, a);
      if e.Wrote? {
        PutByte(Replay(mem, front), Put(e.addr, e.beat), a);
        LastByteNext(mem, LogPuts(front), Put(e.addr, e.beat), a);
      } else {
        assert LogPuts(log) == LogPuts(front);
      }
    }
  }

  lemma NothingWritten(mem: seq<Word>, a: nat)
    requires |mem| == 0x8000 && RAM_FIRST <= a < RAM_END
    ensures LastByte(mem, [], a) == MemByte(mem, a)
  {
  }

  /** The j-th read of a log, by its place. */
  lemma {:induction false} NthRead(log: seq<Event>, j: nat) returns (i: nat)
    requires |ReadAddrs(log)| == |ReadData(log)| && j < |ReadAddrs(log)|
    ensures i < |log| && log[i] == Read(ReadAddrs(log)[j], ReadData(log)[j]) && |ReadAddrs(log[..i])| == j
  {
    var front := log[..|log| - 1];
    SameLengths(front);
    if j < |ReadAddrs(front)| {
      i := NthRead(front, j);
      assert log[..i] == front[..i];
    } else {
      i := |log| - 1;
    }
  }

  predicate BytesAre(mem: seq<Word>, puts: seq<Put>, b: nat, data: Word)
    requires |mem| == 0x8000
  {
    && 0x8000_0000 <= b < 0x8002_0000
    && forall k | 0 <= k < 4 :: WordByte(data, k) == LastByte(mem, puts, b - b % 4 + k)
  }

  lemma {:induction false} EventBytes(mem: seq<Word>, log: seq<Event>, i: nat)
    requires |mem| == 0x8000 && AtomicLog(mem, log) && i < |log| && log[i].Read?
    ensures BytesAre(mem, LogPuts(log[..i]), log[i].addr, log[i].data)
  {
    hide Replay, LastByte, LogPuts, InRange, Index, WordByte, MemByte;
    var now := Replay(mem, log[..i]);
    assert AtomicEvent(now, log[i]);
    var b := log[i].addr;
    ReadBytes(now, b, 0);
    forall k | 0 <= k < 4
      ensures WordByte(log[i].data, k) == LastByte(mem, LogPuts(log[..i]), b - b % 4 + k)
    {
      ReadBytes(now, b, k);
      ReplayedByte(mem, log[..i], b - b % 4 + k);
    }
  }

  /** Whatever the timing bits: the j-th R beat answers the j-th AR handshake, which is to the 128 KiB at 0x8000_0000,
      with the four bytes last written there when it was served. */
  lemma {:induction false} BeatsAreLastWritten(mem: seq<Word>, ls: seq<Half>, j: nat) returns (i: nat)
    requires |mem| == 0x8000 && Run(Start(mem), ls) && j < |Exec(Start(mem), ls).h.r|
    ensures var h := Exec(Start(mem), ls).h;
            && j < |h.ar.hs| && i < |h.log| && h.log[i] == Read(h.ar.hs[j], h.r[j]) && |ReadAddrs(h.log[..i])| == j
            && BytesAre(mem, LogPuts(h.log[..i]), h.ar.hs[j], h.r[j])
  {
    hide Run, Exec, AtomicLog, Replay, BytesAre, ReadAddrs, ReadData, WriteAddrs, WriteBeats, Accounted, LogPuts;
    EveryRequestServedOnce(mem, ls);
    var h := Exec(Start(mem), ls).h;
    i := NthRead(h.log, j);
    assert ReadAddrs(h.log)[j] == ReadAddrs(h.log)[..|h.r|][j] == h.ar.hs[..|h.r|][j];
    EventBytes(mem, h.log, i);
  }

  // ---------------------------------------------------------------- pairs and transfers

  function Zip(addrs: seq<nat>, beats: seq<Beat>): (puts: seq<Put>)
    requires |addrs| == |beats|
    ensures |puts| == |addrs|
  {
    seq(|addrs|, i requires 0 <= i < |addrs| => Put(addrs[i], beats[i]))
  }

  lemma {:induction false} PairsByte(mem: seq<Word>, addrs: seq<nat>, beats: seq<Beat>, a: nat)
    requires |mem| == 0x8000 && |addrs| == |beats| && RAM_FIRST <= a < RAM_END
    ensures MemByte(WriteAll(mem, addrs, beats), a) == LastByte(mem, Zip(addrs, beats), a)
  {
    hide Write, MemByte, LastByte, Strobed, WordByte;
    if addrs == [] {
      NothingWritten(mem, a);
      assert Zip(addrs, beats) == [];
    } else {
      var n := |addrs| - 1;
      PairsByte(mem, addrs[..n], beats[..n], a);
      PutByte(WriteAll(mem, addrs[..n], beats[..n]), Put(addrs[n], beats[n]), a);
      assert Zip(addrs, beats) == Zip(addrs[..n], beats[..n]) + [Put(addrs[n], beats[n])];
      LastByteNext(mem, Zip(addrs[..n], beats[..n]), Put(addrs[n], beats[n]), a);
    }
  }

  /** With no write response on the bus every byte of the memory is the one last written by the answered pairs, the
      i-th AW handshake with the i-th W handshake. */
  lemma {:induction false} MemoryIsLastWritten(mem: seq<Word>, ls: seq<Half>, a: nat)
    requires |mem| == 0x8000 && Run(Start(mem), ls) && !Exec(Start(mem), ls).s.bvalid && RAM_FIRST <= a < RAM_END
    ensures var x := Exec(Start(mem), ls);
            && x.h.b <= |x.h.aw.hs| && x.h.b <= |x.h.w.hs| && |x.s.memory| == 0x8000
            && MemByte(x.s.memory, a) == LastByte(mem, Zip(x.h.aw.hs[..x.h.b], x.h.w.hs[..x.h.b]), a)
  {
    hide Run, Exec, MemByte, LastByte, WriteAll, Zip;
    MemoryIsTheWritePairs(mem, ls);
    var x := Exec(Start(mem), ls);
    PairsByte(mem, x.h.aw.hs[..x.h.b], x.h.w.hs[..x.h.b], a);
  }

  function OpPuts(ops: seq<Op>): seq<Put> {
    if ops == [] then []
    else
      var op := ops[|ops| - 1];
      OpPuts(ops[..|ops| - 1]) + if op.Store? then [Put(op.addr, op.beat)] else []
  }

  lemma {:induction false} TransferredByte(mem: seq<Word>, ops: seq<Op>, a: nat)
    requires |mem| == 0x8000 && RAM_FIRST <= a < RAM_END
    ensures |MemoryAfter(mem, ops)| == 0x8000 && MemByte(MemoryAfter(mem, ops), a) == LastByte(mem, OpPuts(ops), a)
  {
    hide Write, MemByte, LastByte, Strobed, WordByte;
    if ops == [] {
      NothingWritten(mem, a);
    } else {
      var front, op := ops[..|ops| - 1], ops[|ops| - 1];
      TransferredByte(mem, front, a);
      if op.Store? {
        PutByte(MemoryAfter(mem, front), Put(op.addr, op.beat), a);
        LastByteNext(mem, OpPuts(front), Put(op.addr, op.beat), a);
      } else {
        assert OpPuts(ops) == OpPuts(front);
      }
    }
  }

  /** The loads among the first transfers. */
  function Loads(ops: seq<Op>): nat {
    if ops == [] then 0 else Loads(ops[..|ops| - 1]) + if ops[|ops| - 1].Load? then 1 else 0
  }

  lemma {:induction false} NthLoad(mem: seq<Word>, ops: seq<Op>, j: nat)
    requires j < |ops| && ops[j].Load?
    ensures |Loaded(mem, ops)| == Loads(ops) && Loads(ops[..j]) < Loads(ops)
    ensures Loaded(mem, ops)[Loads(ops[..j])] == WordAt(MemoryAfter(mem, ops[..j]), ops[j].addr)
  {
    hide WordAt, MemoryAfter;
    var front := ops[..|ops| - 1];
    LoadedLength(mem, front);
    if j < |front| {
      NthLoad(mem, front, j);
      assert front[..j] == ops[..j];
    }
  }

  lemma {:induction false} LoadedLength(mem: seq<Word>, ops: seq<Op>)
    ensures |Loaded(mem, ops)| == Loads(ops)
  {
    hide WordAt, MemoryAfter;
    if ops != [] {
      LoadedLength(mem, ops[..|ops| - 1]);
    }
  }

  /** A master that carries out `ops` one at a time: each load it has finished was to the 128 KiB at 0x8000_0000 and
      returned the four bytes last stored there by the transfers before it. */
  lemma {:induction false} LoadsAreLastStored(mem: seq<Word>, ops: seq<Op>, ls: seq<Half>, j: nat)
    requires |mem| == 0x8000 && Run(Start(mem), ls) && RunOf(ops, Start(mem), ls)
    requires var h := Exec(Start(mem), ls).h; j < |ops| && j < |h.r| + h.b && ops[j].Load?
    ensures var h := Exec(Start(mem), ls).h;
            Loads(ops[..j]) < |h.r| && BytesAre(mem, OpPuts(ops[..j]), ops[j].addr, h.r[Loads(ops[..j])])
  {
    hide Run, Exec, RunOf, BytesAre, Loaded, MemoryAfter, Loads, OpPuts, WordAt;
    var h := Exec(Start(mem), ls).h;
    SequentialMasterSeesAtomicMemory(mem, ops, ls);
    FinishedAreInRange(mem, ops, ls, j);
    var k := |h.r| + h.b;
    NthLoad(mem, ops[..k], j);
    LoadedLength(mem, ops[..k]);
    assert ops[..k][..j] == ops[..j];
    TransferBytes(mem, ops[..j], ops[j].addr);
  }

  lemma {:induction false} FinishedAreInRange(mem: seq<Word>, ops: seq<Op>, ls: seq<Half>, j: nat)
    requires |mem| == 0x8000 && Run(Start(mem), ls) && RunOf(ops, Start(mem), ls)
    requires var h := Exec(Start(mem), ls).h; j < |ops| && j < |h.r| + h.b && ops[j].Load?
    ensures InRange(ops[j].addr) && Index(ops[j].addr) < 0x8000
  {
    hide Run, Exec, RunOf, Replay, InRange, Index, PortsMatch, Obeys, InvChans, InvAnswers;
    StartInv(mem);
    RunKeeps(mem, Start(mem), ls);
    RunKeepsSeq(mem, ops, ls);
    var log := Exec(Start(mem), ls).h.log;
    assert OpOf(log[j]) == OpsOf(log)[j] == ops[j];
    assert AtomicEvent(Replay(mem, log[..j]), log[j]);
  }

  lemma {:induction false} TransferBytes(mem: seq<Word>, ops: seq<Op>, b: nat)
    requires |mem| == 0x8000 && InRange(b) && Index(b) < 0x8000
    ensures BytesAre(mem, OpPuts(ops), b, WordAt(MemoryAfter(mem, ops), b))
  {
    hide MemoryAfter, LastByte, OpPuts, Index, WordByte, MemByte;
    var now := MemoryAfter(mem, ops);
    TransferredByte(mem, ops, RAM_FIRST);
    ReadBytes(now, b, 0);
    forall k | 0 <= k < 4
      ensures WordByte(WordAt(now, b), k) == LastByte(mem, OpPuts(ops), b - b % 4 + k)
    {
      ReadBytes(now, b, k);
      TransferredByte(mem, ops, b - b % 4 + k);
    }
  }

  // ---------------------------------------------------------------- markers and ends

  /** A write that reports success: 0x83 or 0x81 in the low byte at 0x1000_0000, or 123456789 at 0x2000_0000. */
  predicate ReportsPass(e: Event) {
    && e.Wrote?
    && (|| (e.addr == 0x1000_0000 && (e.beat.data.b0 == 0x83 || e.beat.data.b0 == 0x81))
        || (e.addr == 0x2000_0000 && FromLanes(e.beat.data) == 123456789))
  }

  /** A write that ends the simulation: 0x82 at 0x1000_0000, or outside the memory and both special addresses. */
  predicate EndsRun(e: Event) {
    && e.Wrote?
    && (|| (e.addr == 0x1000_0000 && e.beat.data.b0 == 0x82)
        || (!(0x8000_0000 <= e.addr < 0x8002_0000) && e.addr != 0x1000_0000 && e.addr != 0x2000_0000))
  }

  lemma FinishValue(w: Word)
    ensures w == SIM_FINISH_VALUE <==> FromLanes(w) == 123456789
  {
    LanesOfFromLanes(w);
    assert Lanes(123456789) == SIM_FINISH_VALUE;
    assert FromLanes(SIM_FINISH_VALUE) == 123456789;
  }

  lemma MarksAre(e: Event)
    requires e.Wrote?
    ensures Passes(e.addr, e.beat.data) <==> ReportsPass(e)
    ensures Ends(e.addr, e.beat.data) <==> EndsRun(e)
  {
    FinishValue(e.beat.data);
    hide FromLanes;
  }

  /** tests_passed is set exactly when the run has written a report of success. */
  lemma {:induction false} TestsPassedIff(mem: seq<Word>, ls: seq<Half>)
    requires |mem| == 0x8000 && Run(Start(mem), ls)
    ensures var x := Exec(Start(mem), ls);
            x.s.testsPassed <==> exists i :: 0 <= i < |x.h.log| && ReportsPass(x.h.log[i])
  {
    hide Run, Exec, Passes, ReportsPass;
    PassedIffWritten(mem, ls);
    var log := Exec(Start(mem), ls).h.log;
    forall i | 0 <= i < |log| && log[i].Wrote?
      ensures Passes(log[i].addr, log[i].beat.data) <==> ReportsPass(log[i])
    {
      MarksAre(log[i]);
    }
    assert forall i | 0 <= i < |log| :: ReportsPass(log[i]) ==> log[i].Wrote? by {
      forall i | 0 <= i < |log| && ReportsPass(log[i])
        ensures log[i].Wrote?
      {
        ReportIsWrite(log[i]);
      }
    }
  }

  lemma ReportIsWrite(e: Event)
    requires ReportsPass(e) || EndsRun(e)
    ensures e.Wrote?
  {
  }

  /** The latched read that an out-of-range address makes the memory refuse. */
  predicate RefusesRead(x: Sys) {
    x.s.ar.en && !(0x8000_0000 <= x.s.ar.value < 0x8002_0000)
  }

  predicate EndWritten(log: seq<Event>) {
    exists i :: 0 <= i < |log| && EndsRun(log[i])
  }

  /** The simulation ends with the first ending write, and otherwise only on a read it refuses. */
  lemma {:induction false} EndsWithReason(mem: seq<Word>, ls: seq<Half>)
    requires |mem| == 0x8000 && Run(Start(mem), ls)
    ensures var x := Exec(Start(mem), ls);
            && (EndWritten(x.h.log) ==> x.s.halted)
            && (x.s.halted ==> EndWritten(x.h.log) || RefusesRead(x))
  {
    hide Step, CanHalf, EndWritten, RefusesRead;
    if ls == [] {
      NoEndYet();
    } else {
      var before, l := Exec(Start(mem), ls[..|ls| - 1]), ls[|ls| - 1];
      EndsWithReason(mem, ls[..|ls| - 1]);
      HalfNotHalted(before, l);
      HalfEnds(before, l);
    }
  }

  lemma NoEndYet()
    ensures !EndWritten([])
  {
  }

  lemma HalfNotHalted(x: Sys, l: Half)
    requires CanHalf(x, l)
    ensures !x.s.halted
  {
  }

  lemma {:induction false} HalfEnds(x: Sys, l: Half)
    requires CanHalf(x, l) && !x.s.halted && !EndWritten(x.h.log)
    ensures var y := Step(x, l);
            && (EndWritten(y.h.log) ==> y.s.halted)
            && (y.s.halted ==> EndWritten(y.h.log) || RefusesRead(y))
  {
    var n := if l.Fall? then Latch(x.s, x.s, l.m, l.g) else Latch(Settle(x.s, x.m), x.s, x.m, l.g);
    hide EndWritten, EndsRun, Ends;
    var e := Wrote(n.aw.value, n.w.value);
    MarksAre(e);
    EndNext(x.h.log, ReadPart(n, x.s, l.g), WritePart(n, x.s, l.g), e);
    hide Latch, Settle, WordAt, Write, Passes, Take, Latched, Shaken, Untaken;
  }

  lemma {:induction false} EndNext(log: seq<Event>, fetched: seq<Event>, stored: seq<Event>, e: Event)
    requires !EndWritten(log) && (forall r | r in fetched :: r.Read?) && (stored == [] || stored == [e])
    ensures EndWritten(log + (fetched + stored)) <==> stored != [] && EndsRun(e)
  {
    var all := log + (fetched + stored);
    if stored != [] {
      assert all[|all| - 1] == e;
    }
    hide EndsRun;
    forall i | 0 <= i < |log| + |fetched|
      ensures !EndsRun(all[i])
    {
      assert all[i] == if i < |log| then log[i] else fetched[i - |log|];
      ReadEndsNothing(all[i]);
    }
  }

  lemma ReadEndsNothing(e: Event)
    ensures e.Read? ==> !EndsRun(e)
  {
  }

  /** A refused read does end the simulation, in the first half cycle that lets the memory answer it. */
  lemma {:induction false} RefusedReadEnds(x: Sys, l: Half)
    requires CanHalf(x, l) && !x.s.rvalid && l.g.r && !Step(x, l).s.halted
    ensures !RefusesRead(Step(x, l))
  {
    hide Write, WordAt, Passes, Ends, Accesses, Latched, Shaken, Untaken;
  }
}
