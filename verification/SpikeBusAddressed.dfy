/** The Spike bus told by addresses, bytes and numbers alone: what programs can rely on, without the
    decode, the lanes and the markers that the machine itself is written with. */
module SpikeBusAddressed {
  import opened ByteAddresses
  import opened ByteLanes
  import opened SpikeBus
  import opened SpikeBusInvariant
  import opened SpikeBusTheorems

  // ---------------------------------------------------------------- which calls are taken

  /** The bytes of a call lie in one aligned word, and there is at least one. */
  predicate InOneWord(c: Call) {
    c.len > 0 && c.addr / 4 == (c.addr + c.len - 1) / 4
  }

  lemma LegalIff(c: Call)
    ensures Legal(c) <==> InOneWord(c)
  {
    var q, r := c.addr / 4, c.addr % 4;
    assert c.addr == 4 * q + r;
  }

  /** A call that reaches issue_bus_request is put in the slot exactly when its bytes lie in one aligned word and
      the run is neither stopping nor failed; the slot then holds the word's address. */
  lemma {:induction false} TakenIff(mem: seq<Word>, ls: seq<Label>, c: Call)
    requires Run(Init(mem), ls) && CanStep(Exec(Init(mem), ls), CallBus(c))
    ensures var w := Exec(Init(mem), ls);
            var now := Step(w, CallBus(c));
            var taken := InOneWord(c) && !w.ctx.stop && !w.ctx.failed;
            && now.hist.issued == (if taken then w.hist.issued + [c] else w.hist.issued)
            && (taken ==> && now.phase.Waiting? && now.ctx.valid && !now.ctx.ready
                          && now.ctx.req.addr == c.addr / 4 * 4 % 0x1_0000_0000
                          && (now.ctx.req.instr <==> c.store.None?))
            && (!taken ==> now.phase.InStep? && now.ctx == w.ctx)
  {
    LegalIff(c);
    WordAddress(c.addr);
    hide Run, Exec, Legal, InOneWord, Placed, Covering;
  }

  lemma WordAddress(a: nat)
    ensures a % 0x1_0000_0000 - a % 0x1_0000_0000 % 4 == a / 4 * 4 % 0x1_0000_0000
  {
    var word, lane := a / 4, a % 4;
    var q, r := word / 0x4000_0000, word % 0x4000_0000;
    assert word == 0x4000_0000 * q + r;
    Remainder(a, q, 4 * r + lane);
    Remainder(4 * word, q, 4 * r);
    Lane4(r, lane);
  }

  lemma Remainder(a: nat, q: nat, r: nat)
    requires a == 0x1_0000_0000 * q + r && r < 0x1_0000_0000
    ensures a % 0x1_0000_0000 == r
  {
  }

  lemma Lane4(word: nat, lane: nat)
    requires lane < 4
    ensures (4 * word + lane) % 4 == lane
  {
  }

  // ---------------------------------------------------------------- the RAM by address

  /** The 128 KiB from 0x8000_0000 are RAM, and nothing else is. */
  lemma RamCallIff(c: Call)
    requires Legal(c) && WellFormed(c)
    ensures 0x8000_0000 <= c.addr % 0x1_0000_0000 < 0x8002_0000 <==> RamCall(c)
  {
  }

  /** The byte at address a after the calls ds: the one last stored there, or the initial one. */
  function LastStored(mem: seq<Word>, ds: seq<Done>, a: nat): bv8
    requires |mem| == 0x8000 && RAM_FIRST <= a < RAM_END
  {
    if ds == [] then MemByte(mem, a)
    else
      var c := ds[|ds| - 1].call;
      var first := c.addr % 0x1_0000_0000;
      if c.store.Some? && first <= a < first + |c.store.value| then c.store.value[a - first]
      else LastStored(mem, ds[..|ds| - 1], a)
  }

  /** A call that lies in one word does not reach into the RAM from outside. */
  lemma OutsideRam(first: nat, len: nat, a: nat)
    requires first % 4 + len <= 4 && !(RAM_FIRST <= first < RAM_END) && RAM_FIRST <= a < RAM_END
    ensures !(first <= a < first + len)
  {
    var q := first / 4;
    assert first == 4 * q + first % 4;
  }

  lemma StoredByte(m: seq<bv8>, off: nat, bytes: seq<bv8>, k: nat)
    requires off + |bytes| <= |m| && k < |m|
    ensures StoreBytes(m, off, bytes)[k] == if off <= k < off + |bytes| then bytes[k - off] else m[k]
  {
  }

  lemma {:induction false} ApplyByte(m: seq<bv8>, c: Call, a: nat)
    requires Legal(c) && WellFormed(c) && |m| == 0x2_0000 && RAM_FIRST <= a < RAM_END
    ensures var first := c.addr % 0x1_0000_0000;
            Apply(m, c)[a - RAM_FIRST]
            == if c.store.Some? && first <= a < first + |c.store.value| then c.store.value[a - first]
               else m[a - RAM_FIRST]
  {
    RamCallIff(c);
    var first := c.addr % 0x1_0000_0000;
    assert first % 4 == c.addr % 4;
    hide InRam, Encode, RamIndex, StoreBytes;
    if RamCall(c) {
      OffsetFits(c);
      hide RamCall;
      if c.store.Some? {
        StoredByte(m, Offset(c), c.store.value, a - RAM_FIRST);
      }
    } else if c.store.Some? {
      OutsideRam(first, |c.store.value|, a);
    }
  }

  lemma {:induction false} ReplayByte(mem: seq<Word>, ds: seq<Done>, a: nat)
    requires |mem| == 0x8000 && RAM_FIRST <= a < RAM_END
    requires forall d | d in ds :: Legal(d.call) && WellFormed(d.call)
    ensures |Flatten(mem)| == 0x2_0000 && Replay(Flatten(mem), ds)[a - RAM_FIRST] == LastStored(mem, ds, a)
  {
    hide Apply, Legal, WellFormed, Flatten;
    FlattenLength(mem);
    if ds == [] {
      FlattenByte(mem, a);
    } else {
      ReplayByte(mem, ds[..|ds| - 1], a);
      assert ds[|ds| - 1] in ds;
      ApplyByte(Replay(Flatten(mem), ds[..|ds| - 1]), ds[|ds| - 1].call, a);
    }
  }

  lemma {:induction false} TraceIsLegal(m: seq<bv8>, ds: seq<Done>)
    requires AtomicTrace(m, ds)
    ensures forall d | d in ds :: Legal(d.call) && WellFormed(d.call)
  {
    hide Replay, RamCall, IoCall, Legal, WellFormed;
    forall d | d in ds
      ensures Legal(d.call) && WellFormed(d.call)
    {
      var i :| 0 <= i < |ds| && ds[i] == d;
      assert AtomicReply(Replay(m, ds[..i]), ds[i]);
    }
  }

  /** In every run under the scheduling assumption, a load from the 128 KiB at 0x8000_0000 returns, byte by byte, what
      the calls before it last stored at its addresses, or the initial bytes. */
  lemma {:induction false} LoadsReturnLastStored(mem: seq<Word>, ls: seq<Label>, i: nat)
    requires |mem| == 0x8000 && Run(Init(mem), ls) && PromptRun(Init(mem), ls)
    requires i < |Exec(Init(mem), ls).hist.completed|
    requires var c := Exec(Init(mem), ls).hist.completed[i].call;
             c.store.None? && 0x8000_0000 <= c.addr % 0x1_0000_0000 < 0x8002_0000
    ensures var ds := Exec(Init(mem), ls).hist.completed;
            var first := ds[i].call.addr % 0x1_0000_0000;
            && |ds[i].bytes| == ds[i].call.len && first + ds[i].call.len <= 0x8002_0000
            && forall k | 0 <= k < ds[i].call.len :: ds[i].bytes[k] == LastStored(mem, ds[..i], first + k)
  {
    hide Run, Exec, PromptRun, Replay, Flatten, AtomicReply, LastStored, Legal, WellFormed, Apply;
    BusIsAtomicMemory(mem, ls);
    var ds := Exec(Init(mem), ls).hist.completed;
    hide AtomicTrace;
    TraceIsLegal(Flatten(mem), ds);
    OneReply(Flatten(mem), ds, i);
    LoadByBytes(mem, ds[..i], ds[i]);
  }

  lemma OneReply(m: seq<bv8>, ds: seq<Done>, i: nat)
    requires AtomicTrace(m, ds) && i < |ds|
    ensures AtomicReply(Replay(m, ds[..i]), ds[i])
  {
    hide AtomicReply, Replay;
  }

  lemma {:induction false} LoadByBytes(mem: seq<Word>, ds: seq<Done>, d: Done)
    requires |mem| == 0x8000 && AtomicReply(Replay(Flatten(mem), ds), d)
    requires forall e | e in ds :: Legal(e.call) && WellFormed(e.call)
    requires d.call.store.None? && 0x8000_0000 <= d.call.addr % 0x1_0000_0000 < 0x8002_0000
    ensures var first := d.call.addr % 0x1_0000_0000;
            && |d.bytes| == d.call.len && first + d.call.len <= 0x8002_0000
            && forall k | 0 <= k < d.call.len :: d.bytes[k] == LastStored(mem, ds, first + k)
  {
    RamCallIff(d.call);
    OffsetFits(d.call);
    var first := d.call.addr % 0x1_0000_0000;
    var m := Replay(Flatten(mem), ds);
    hide Replay, LastStored, Encode, RamIndex, InRam, IoCall, Flatten, RamCall;
    forall k | 0 <= k < d.call.len
      ensures d.bytes[k] == LastStored(mem, ds, first + k)
    {
      ReplayByte(mem, ds, first + k);
      assert d.bytes[k] == m[first - RAM_FIRST + k];
    }
  }

  /** The RAM itself, byte by byte: what was last stored, the pending store not yet or already included. */
  lemma {:induction false} RamHoldsLastStored(mem: seq<Word>, ls: seq<Label>)
    requires |mem| == 0x8000 && Run(Init(mem), ls) && PromptRun(Init(mem), ls)
    ensures var w := Exec(Init(mem), ls);
            && |w.ram.mem| == 0x8000
            && (w.ctx.valid ==> |w.hist.issued| > 0)
            && ((forall a | RAM_FIRST <= a < RAM_END :: MemByte(w.ram.mem, a) == LastStored(mem, w.hist.completed, a))
                || (w.ctx.valid
                    && forall a | RAM_FIRST <= a < RAM_END ::
                         MemByte(w.ram.mem, a) == LastStored(mem, w.hist.completed + [Done(Pending(w), [])], a)))
  {
    hide Run, Exec, PromptRun, Replay, Flatten, Inv, AtomicTrace, MemByte, LastStored, Apply, Legal, WellFormed;
    BusIsAtomicMemory(mem, ls);
    InitInv(mem);
    RunKeeps(Flatten(mem), Init(mem), ls);
    var w := Exec(Init(mem), ls);
    InvFacts(Flatten(mem), w);
    var m := Flatten(mem);
    TraceIsLegal(m, w.hist.completed);
    if Flatten(w.ram.mem) == Replay(m, w.hist.completed) {
      forall a | RAM_FIRST <= a < RAM_END
        ensures MemByte(w.ram.mem, a) == LastStored(mem, w.hist.completed, a)
      {
        FlattenByte(w.ram.mem, a);
        ReplayByte(mem, w.hist.completed, a);
      }
    } else {
      var ds := w.hist.completed + [Done(Pending(w), [])];
      ReplayNext(m, w.hist.completed, Done(Pending(w), []));
      forall a | RAM_FIRST <= a < RAM_END
        ensures MemByte(w.ram.mem, a) == LastStored(mem, ds, a)
      {
        FlattenByte(w.ram.mem, a);
        ReplayByte(mem, ds, a);
      }
    }
  }

  lemma InvFacts(m: seq<bv8>, w: World)
    requires Inv(m, w)
    ensures |w.ram.mem| == 0x8000
    ensures w.ctx.valid ==> |w.hist.issued| > 0 && Legal(Pending(w)) && WellFormed(Pending(w))
  {
    hide Calls, AtomicTrace, Replay, Flatten, Apply, Merge, LastStatus, MmioWords, Encode, Legal, WellFormed;
  }

  // ---------------------------------------------------------------- the flash

  /** At a clock edge that shows the pending request for the flash, below 0x0200_0000, its reply is captured exactly
      when the flash answers, and is the flash's word. */
  lemma {:induction false} FlashAnswers(mem: seq<Word>, ls: seq<Label>, e: Env)
    requires |mem| == 0x8000 && Run(Init(mem), ls) && PromptRun(Init(mem), ls)
    requires var w := Exec(Init(mem), ls);
             && !w.tb.done && Prompt(w, ClockEdge(e))
             && w.bus.valid && !w.ctx.waitLow && w.ctx.req.addr < 0x200_0000
    ensures var w := Exec(Init(mem), ls);
            var now := Edge(w, e);
            && (now.ctx.ready <==> e.spiReady)
            && (e.spiReady ==> now.ctx.rdata == e.spiRdata)
  {
    InitInv(mem);
    RunKeeps(Flatten(mem), Init(mem), ls);
    FlashEdge(Exec(Init(mem), ls), e);
  }

  lemma FlashEdge(w: World, e: Env)
    requires InvSlot(w) && InvBus(w) && !w.tb.done && w.bus.valid && !w.ctx.waitLow && w.ctx.req.addr < 0x200_0000
    ensures Edge(w, e).ctx.ready <==> e.spiReady
    ensures e.spiReady ==> Edge(w, e).ctx.rdata == e.spiRdata
  {
    hide Encode, Calls, Merge, TbEdge, RamEdge;
    assert w.ctx.req.addr / 0x100_0000 <= 1;
  }

  /** The flash gave this word at a clock edge of the run. */
  predicate FlashGave(ls: seq<Label>, word: Word) {
    exists k :: 0 <= k < |ls| && ls[k].ClockEdge? && ls[k].env.spiReady && ls[k].env.spiRdata == word
  }

  /** The bytes are those of the flash word on the lanes of the load. */
  ghost predicate FlashLoad(ls: seq<Label>, d: Done) {
    d.call.store.None? && d.call.addr % 0x1_0000_0000 < 0x200_0000 ==>
      && |d.bytes| == d.call.len
      && exists word :: FlashGave(ls, word) && LanesOf(word, d.call.addr % 4, d.bytes)
  }

  predicate LanesOf(word: Word, first: nat, bytes: seq<bv8>) {
    first + |bytes| <= 4 && forall k | 0 <= k < |bytes| :: bytes[k] == WordByte(word, first + k)
  }

  ghost predicate FlashState(ls: seq<Label>, w: World) {
    && (w.ctx.valid && w.ctx.ready && w.ctx.req.addr < 0x200_0000 ==> FlashGave(ls, w.ctx.rdata))
    && forall d | d in w.hist.completed :: FlashLoad(ls, d)
  }

  /** In every run under the scheduling assumption a load from below 0x0200_0000 returns bytes of a word that the flash
      gave in that run. */
  lemma {:induction false} FlashLoadsComeFromTheFlash(mem: seq<Word>, ls: seq<Label>)
    requires |mem| == 0x8000 && Run(Init(mem), ls) && PromptRun(Init(mem), ls)
    ensures FlashState(ls, Exec(Init(mem), ls))
  {
    hide Step, CanStep, Prompt, Inv, FlashState, Flatten;
    if ls == [] {
      NoFlashYet(mem);
    } else {
      var front, l := ls[..|ls| - 1], ls[|ls| - 1];
      FlashLoadsComeFromTheFlash(mem, front);
      InitInv(mem);
      RunKeeps(Flatten(mem), Init(mem), front);
      FlashStep(Flatten(mem), front, Exec(Init(mem), front), l);
      assert ls == front + [l];
    }
  }

  lemma NoFlashYet(mem: seq<Word>)
    ensures FlashState([], Init(mem))
  {
  }

  lemma FlashGaveNext(ls: seq<Label>, l: Label, word: Word)
    ensures FlashGave(ls, word) ==> FlashGave(ls + [l], word)
    ensures l.ClockEdge? && l.env.spiReady && l.env.spiRdata == word ==> FlashGave(ls + [l], word)
  {
    var all := ls + [l];
    assert all[|ls|] == l;
    if FlashGave(ls, word) {
      var k :| 0 <= k < |ls| && ls[k].ClockEdge? && ls[k].env.spiReady && ls[k].env.spiRdata == word;
      assert all[k] == ls[k];
    }
  }

  lemma FlashLoadNext(ls: seq<Label>, l: Label, d: Done)
    requires FlashLoad(ls, d)
    ensures FlashLoad(ls + [l], d)
  {
    hide FlashGave;
    if d.call.store.None? && d.call.addr % 0x1_0000_0000 < 0x200_0000 {
      var word :| FlashGave(ls, word) && LanesOf(word, d.call.addr % 4, d.bytes);
      FlashGaveNext(ls, l, word);
    }
  }

  lemma {:induction false} FlashStep(m: seq<bv8>, ls: seq<Label>, w: World, l: Label)
    requires Inv(m, w) && CanStep(w, l) && FlashState(ls, w)
    ensures FlashState(ls + [l], Step(w, l))
  {
    hide FlashLoad, FlashGave, InvBus, InvMem, InvFire, InvHandled, InvFinish, Edge, Issue, Consume, Encode, Legal;
    var now := Step(w, l);
    forall d | d in w.hist.completed
      ensures FlashLoad(ls + [l], d)
    {
      FlashLoadNext(ls, l, d);
    }
    FlashGaveNext(ls, l, w.ctx.rdata);
    match l
    case ClockEdge(e) =>
      FlashCaptured(w, e);
      FlashGaveNext(ls, l, now.ctx.rdata);
    case CallBus(c) => IssueGivesNothing(w, c);
    case Wake => FlashDelivered(ls + [l], w);
    case _ =>
  }

  lemma FlashCaptured(w: World, e: Env)
    requires InvSlot(w) && InvBus(w) && !w.tb.done
    ensures var now := Edge(w, e);
            && now.hist.completed == w.hist.completed
            && now.ctx.req == w.ctx.req && now.ctx.valid == w.ctx.valid
            && (now.ctx.ready && w.ctx.ready ==> now.ctx.rdata == w.ctx.rdata)
            && (now.ctx.ready && !w.ctx.ready && w.ctx.req.addr < 0x200_0000 ==>
                  e.spiReady && now.ctx.rdata == e.spiRdata)
  {
    hide Encode, Calls, Merge, TbEdge, RamEdge;
    if Edge(w, e).ctx.ready && !w.ctx.ready && w.ctx.req.addr < 0x200_0000 {
      assert w.bus.valid && !w.ctx.waitLow;
      FlashEdge(w, e);
    }
  }

  lemma IssueGivesNothing(w: World, c: Call)
    requires IssueEnabled(w, c)
    ensures var now := Issue(w, c);
            now.hist.completed == w.hist.completed && (now.ctx.ready ==> now.ctx == w.ctx)
  {
    hide Encode;
  }

  lemma ExtractLanes(word: Word, first: nat, len: nat)
    requires first + len <= 4
    ensures |Extract(word, first, len)| == len && LanesOf(word, first, Extract(word, first, len))
  {
    forall k: nat | k < len
      ensures Extract(word, first, len)[k] == WordByte(word, first + k)
    {
      assert Extract(word, first, len)[k] == Lane(word, first + k);
    }
  }

  lemma {:induction false} FlashDelivered(ls: seq<Label>, w: World)
    requires InvSlot(w) && ConsumeEnabled(w)
    requires w.ctx.valid && w.ctx.ready && w.ctx.req.addr < 0x200_0000 ==> FlashGave(ls, w.ctx.rdata)
    ensures var now := Consume(w);
            && (now.ctx.ready ==> now.ctx == w.ctx)
            && forall d | d in now.hist.completed :: d in w.hist.completed || FlashLoad(ls, d)
  {
    hide FlashGave, Calls;
    var c := w.phase.call;
    if w.ctx.ready {
      assert w.ctx.req == Encode(c);
      WordAddress(c.addr);
      if c.store.None? {
        ExtractLanes(w.ctx.rdata, c.addr % 4, c.len);
      }
    }
  }

  /** Every load from 0x0200_0000 upwards that is not from RAM returns zeros, the documented SPI and UART registers at
      0x0200_0000 included: external_iomem_sel covers their addresses too and wins. */
  lemma {:induction false} OtherLoadsAreZero(mem: seq<Word>, ls: seq<Label>, i: nat)
    requires |mem| == 0x8000 && Run(Init(mem), ls) && PromptRun(Init(mem), ls)
    requires i < |Exec(Init(mem), ls).hist.completed|
    requires var c := Exec(Init(mem), ls).hist.completed[i].call;
             var a := c.addr % 0x1_0000_0000;
             c.store.None? && a >= 0x200_0000 && !(0x8000_0000 <= a < 0x8002_0000)
    ensures var d := Exec(Init(mem), ls).hist.completed[i];
            |d.bytes| == d.call.len && forall b | b in d.bytes :: b == 0
  {
    hide Run, Exec, PromptRun, Replay, Flatten, AtomicReply, Apply;
    BusIsAtomicMemory(mem, ls);
    var ds := Exec(Init(mem), ls).hist.completed;
    hide AtomicTrace;
    OneReply(Flatten(mem), ds, i);
    ZeroLoad(Replay(Flatten(mem), ds[..i]), ds[i]);
  }

  lemma ZeroLoad(m: seq<bv8>, d: Done)
    requires AtomicReply(m, d) && d.call.store.None?
    requires var a := d.call.addr % 0x1_0000_0000; a >= 0x200_0000 && !(0x8000_0000 <= a < 0x8002_0000)
    ensures |d.bytes| == d.call.len && forall b | b in d.bytes :: b == 0
  {
    IoAddress(d.call.addr % 0x1_0000_0000);
    hide InRam, InIomem, Offset;
    assert IoCall(d.call);
  }

  lemma IoAddress(a: nat)
    requires 0x200_0000 <= a < 0x1_0000_0000 && !(0x8000_0000 <= a < 0x8002_0000)
    ensures InIomem(a - a % 4)
  {
    var b := a - a % 4;
    assert b >= 0x200_0000 && !InRam(b);
    assert 2 <= b / 0x100_0000 < 0x100;
  }

  // ---------------------------------------------------------------- the simulation address

  /** A store to the word at 0x1000_0000. */
  predicate SimStore(c: Call) {
    && InOneWord(c) && c.store.Some? && |c.store.value| == c.len
    && 0x1000_0000 <= c.addr % 0x1_0000_0000 < 0x1000_0004
  }

  /** Byte k of the word the testbench sees of such a store: stored, or zero. */
  function SimByte(c: Call, k: nat): bv8
    requires SimStore(c)
  {
    var first := c.addr % 0x1_0000_0000 - 0x1000_0000;
    if first <= k < first + c.len then c.store.value[k - first] else 0
  }

  function SimWords(cs: seq<Call>): seq<Word> {
    if cs == [] then []
    else
      var c := cs[|cs| - 1];
      SimWords(cs[..|cs| - 1])
      + if SimStore(c) then [Word(SimByte(c, 0), SimByte(c, 1), SimByte(c, 2), SimByte(c, 3))] else []
  }

  lemma MmioStoreIff(c: Call)
    ensures MmioStore(c) <==> SimStore(c)
    ensures SimStore(c) ==> Encode(c).wdata == Word(SimByte(c, 0), SimByte(c, 1), SimByte(c, 2), SimByte(c, 3))
  {
    LegalIff(c);
    var first := c.addr % 0x1_0000_0000;
    assert first % 4 == c.addr % 4;
    hide InOneWord;
    if 0x1000_0000 <= first < 0x1000_0004 {
      assert first - 0x1000_0000 == c.addr % 4;
    }
  }

  lemma {:induction false} MmioWordsAre(cs: seq<Call>)
    ensures MmioWords(cs) == SimWords(cs)
  {
    hide MmioStore, SimStore, Encode, SimByte;
    if cs != [] {
      MmioWordsAre(cs[..|cs| - 1]);
      MmioStoreIff(cs[|cs| - 1]);
    }
  }

  /** In every run under the scheduling assumption the testbench handles exactly the answered stores to the word at
      0x1000_0000, each once and in order, as the bytes they stored. */
  lemma {:induction false} HandledByAddress(mem: seq<Word>, ls: seq<Label>)
    requires |mem| == 0x8000 && Run(Init(mem), ls) && PromptRun(Init(mem), ls)
    ensures var w := Exec(Init(mem), ls);
            w.hist.handled == SimWords(AnsweredCalls(w))
  {
    hide Run, Exec, PromptRun, MmioWords, SimWords;
    MmioExactlyOnce(mem, ls);
    MmioWordsAre(AnsweredCalls(Exec(Init(mem), ls)));
  }
}
