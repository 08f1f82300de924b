/** The write monitor of the VeeR EL2 testbench (src/top_cpu/tb_veer_el2.sv): a ring of eight write
    addresses filled and drained on the falling clock edge, and the decoding of 64-bit write beats. */
module VeerWriteQueue {
  import opened ByteLanes
  import opened Options
  import opened SimMarkers

  type Data = s: seq<bv8> | |s| == 8 witness seq(8, _ => 0)

  type Strobes = s: seq<bool> | |s| == 8 witness seq(8, _ => false)

  datatype Beat = Beat(data: Data, strb: Strobes)

  /** What the monitor samples at a falling edge; `fails` is the answer of veer_cosim_fail_count. */
  datatype Edge = Edge(resetn: bool, aw: Option<nat>, w: Option<Beat>, fails: nat)

  datatype Write = Write(addr: nat, value: Word)

  datatype Ending = Overflow | Fatal | Finished

  type Slots = s: seq<nat> | |s| == 8 witness seq(8, _ => 0)

  /** The last four fields are history: the characters written, the beats decoded and dropped, and the
      calls of veer_cosim_finish. */
  datatype Monitor = Monitor(slots: Slots, head: nat, tail: nat, count: nat,
                             cosimFinished: bool, ended: Option<Ending>,
                             console: seq<bv8>, decoded: seq<Write>, dropped: nat, finishes: nat)

  // ---------------------------------------------------------------- write_lane_value

  function LaneByte(addr: nat, b: Beat, i: nat): bv8 {
    var lane := addr % 8 + i;
    if lane < 8 && b.strb[lane] then b.data[lane] else 0
  }

  function LaneValue(addr: nat, b: Beat): Word {
    Word(LaneByte(addr, b, 0), LaneByte(addr, b, 1), LaneByte(addr, b, 2), LaneByte(addr, b, 3))
  }

  method WriteLaneValue(addr: nat, b: Beat) returns (value: Word)
    ensures value == LaneValue(addr, b)
  {
    value := ZERO_WORD;
    for i := 0 to 4
      invariant forall k: nat | k < 4 :: Lane(value, k) == if k < i then LaneByte(addr, b, k) else 0
    {
      var lane := addr % 8 + i;
      assert LaneByte(addr, b, i) == if lane < 8 && b.strb[lane] then b.data[lane] else 0;
      hide LaneByte;
      if lane < 8 && b.strb[lane] {
        value := SetLane(value, i, b.data[lane]);
      }
    }
    hide LaneByte;
    assert value == Word(Lane(value, 0), Lane(value, 1), Lane(value, 2), Lane(value, 3));
  }

  /** The beat of a store of `bytes` at `addr`: its bytes on the lanes of their addresses, cut off where the
      64-bit bus ends, and those lanes strobed. The other lanes carry anything. */
  predicate Carries(b: Beat, addr: nat, bytes: seq<bv8>) {
    forall k | 0 <= k < 8 ::
      && (b.strb[k] <==> addr % 8 <= k < addr % 8 + |bytes|)
      && (b.strb[k] ==> b.data[k] == bytes[k - addr % 8])
  }

  /** The store is recovered, its bytes in the low lanes, exactly when no byte that the bus cut off was
      nonzero. */
  lemma StoreRecoveredIff(b: Beat, addr: nat, bytes: seq<bv8>)
    requires Carries(b, addr, bytes) && |bytes| <= 4
    ensures LaneValue(addr, b) == Placed(0, bytes)
            <==> forall i | 0 <= i < |bytes| && addr % 8 + i >= 8 :: bytes[i] == 0
  {
    var at := addr % 8;
    forall i: nat | i < 4
      ensures LaneByte(addr, b, i) == if i < |bytes| && at + i < 8 then bytes[i] else 0
    {
      if at + i < 8 {
        assert b.strb[at + i] <==> i < |bytes|;
      }
    }
    if LaneValue(addr, b) == Placed(0, bytes) {
      forall i: nat | i < |bytes| && at + i >= 8
        ensures bytes[i] == 0
      {
        assert LaneByte(addr, b, i) == 0;
        assert LaneByte(addr, b, i) == PlacedByte(0, bytes, i);
      }
    }
  }

  // ---------------------------------------------------------------- one edge

  predicate IsPrintChar(c: bv8) {
    c == 0x09 || c == 0x0a || c == 0x0d || (c >= 0x20 && c < 0x7f)
  }

  function FinishCosim(s: Monitor): Monitor {
    if s.cosimFinished then s else s.(cosimFinished := true, finishes := s.finishes + 1)
  }

  /** $finish or $fatal: the first one executed decides how the run ends. */
  function End(s: Monitor, e: Ending): Monitor {
    if s.ended.Some? then s else s.(ended := Some(e))
  }

  /** What a decoded write asks for: nothing, a character, or the end of the run, which is fatal always
      or only when the comparison has failures. */
  datatype Request = Nothing | Show(c: bv8) | Stop(always: bool, never: bool)

  function Asks(w: Write): Request {
    if w.addr == SIM_FINISH_ADDR && w.value == SIM_FINISH_VALUE then Stop(false, false)
    else if w.addr != SIM_MMIO then Nothing
    else if w.value.b0 == START || w.value.b0 == QUIT then Nothing
    else if w.value.b0 == PASS then Stop(false, false)
    else if w.value.b0 == FAIL then Stop(true, false)
    else if w.value.b0 == FINISH then Stop(false, true)
    else if IsPrintChar(w.value.b0) then Show(w.value.b0)
    else Nothing
  }

  function Handle(s: Monitor, w: Write, fails: nat): (r: Monitor)
    ensures r.slots == s.slots && r.head == s.head && r.tail == s.tail && r.count == s.count
    ensures r.decoded == s.decoded && r.dropped == s.dropped
  {
    var r := Asks(w);
    if r.Show? then s.(console := s.console + [r.c])
    else if r.Stop? then End(FinishCosim(s), if r.always || (fails != 0 && !r.never) then Fatal else Finished)
    else s
  }

  lemma RingShift(head: nat, i: nat)
    ensures ((head + 1) % 8 + i) % 8 == (head + (i + 1)) % 8
  {
  }

  lemma RingNext(i: nat)
    ensures (i % 8 + 1) % 8 == (i + 1) % 8
  {
  }

  function Push(s: Monitor, addr: nat): (r: Monitor)
    requires Ring(s)
    ensures Ring(r)
  {
    if s.count < 8 then
      RingNext(s.head + s.count);
      s.(slots := s.slots[s.tail := addr], tail := (s.tail + 1) % 8, count := s.count + 1)
    else End(FinishCosim(s), Overflow)
  }

  function Pop(s: Monitor, b: Beat, fails: nat): (r: Monitor)
    requires Ring(s)
    ensures Ring(r)
  {
    if s.count == 0 then s.(dropped := s.dropped + 1)
    else
      RingShift(s.head, s.count - 1);
      var w := Write(s.slots[s.head], LaneValue(s.slots[s.head], b));
      Handle(s.(head := (s.head + 1) % 8, count := s.count - 1, decoded := s.decoded + [w]), w, fails)
  }

  /** One falling edge; nothing happens once the run has ended. */
  function NegEdge(s: Monitor, e: Edge): (r: Monitor)
    requires Ring(s)
    ensures Ring(r)
  {
    if s.ended.Some? then s
    else if !e.resetn then s.(head := 0, tail := 0, count := 0)
    else
      var pushed := if e.aw.Some? then Push(s, e.aw.value) else s;
      if e.w.Some? then Pop(pushed, e.w.value, e.fails) else pushed
  }

  predicate Ring(s: Monitor) {
    s.head < 8 && s.count <= 8 && s.tail == (s.head + s.count) % 8
  }

  /** The slots in use, in ring order. */
  function InUse(slots: Slots, head: nat, count: nat): (c: seq<nat>)
    ensures |c| == count
  {
    seq(count, i requires 0 <= i < count => slots[(head + i) % 8])
  }

  /** The addresses waiting, oldest first. */
  function Contents(s: Monitor): (c: seq<nat>)
    ensures |c| == s.count
  {
    InUse(s.slots, s.head, s.count)
  }

  lemma InUsePush(slots: Slots, head: nat, count: nat, addr: nat)
    requires count < 8
    ensures InUse(slots[(head + count) % 8 := addr], head, count + 1) == InUse(slots, head, count) + [addr]
  {
    var after := slots[(head + count) % 8 := addr];
    forall i: nat | i < count
      ensures InUse(after, head, count + 1)[i] == InUse(slots, head, count)[i]
    {
      SlotsDistinct(head, i, count);
    }
  }

  lemma SlotsDistinct(head: nat, i: nat, j: nat)
    requires i < j < i + 8
    ensures (head + i) % 8 != (head + j) % 8
  {
    var a, b := head + i, head + j;
    assert a == 8 * (a / 8) + a % 8 && b == 8 * (b / 8) + b % 8;
  }

  lemma InUsePop(slots: Slots, head: nat, count: nat)
    requires count > 0 && head < 8
    ensures InUse(slots, head, count)[0] == slots[head]
    ensures InUse(slots, (head + 1) % 8, count - 1) == InUse(slots, head, count)[1..]
  {
    forall i: nat | i < count - 1
      ensures InUse(slots, (head + 1) % 8, count - 1)[i] == InUse(slots, head, count)[1..][i]
    {
      RingShift(head, i);
    }
  }

  lemma PushEnqueues(s: Monitor, addr: nat)
    requires Ring(s) && s.count < 8
    ensures Ring(Push(s, addr)) && Contents(Push(s, addr)) == Contents(s) + [addr]
  {
    hide InUse;
    InUsePush(s.slots, s.head, s.count, addr);
  }

  lemma {:induction false} PopDequeues(s: Monitor, b: Beat, fails: nat)
    requires Ring(s) && s.count > 0
    ensures var r := Pop(s, b, fails);
            && Ring(r) && Contents(r) == Contents(s)[1..]
            && r.decoded == s.decoded + [Write(Contents(s)[0], LaneValue(Contents(s)[0], b))]
            && r.dropped == s.dropped
  {
    hide Handle, LaneValue, InUse;
    InUsePop(s.slots, s.head, s.count);
  }

  // ---------------------------------------------------------------- runs

  function Run(s: Monitor, es: seq<Edge>): (r: Monitor)
    requires Ring(s)
    ensures Ring(r)
  {
    if es == [] then s else NegEdge(Run(s, es[..|es| - 1]), es[|es| - 1])
  }

  /** Every edge of the run is seen, outside reset, by a monitor that has not ended. */
  predicate Live(s: Monitor, es: seq<Edge>)
    requires Ring(s)
  {
    (forall e | e in es :: e.resetn) && (es != [] ==> Run(s, es[..|es| - 1]).ended.None?)
  }

  function Aws(es: seq<Edge>): seq<nat> {
    if es == [] then []
    else Aws(es[..|es| - 1]) + (if es[|es| - 1].aw.Some? then [es[|es| - 1].aw.value] else [])
  }

  function Ws(es: seq<Edge>): seq<Beat> {
    if es == [] then []
    else Ws(es[..|es| - 1]) + (if es[|es| - 1].w.Some? then [es[|es| - 1].w.value] else [])
  }

  /** No write beat comes before its address; an address counts as first within an edge. */
  predicate InOrder(es: seq<Edge>) {
    es == [] || (InOrder(es[..|es| - 1]) && |Ws(es)| <= |Aws(es)|)
  }

  function Pairs(aws: seq<nat>, ws: seq<Beat>): seq<Write>
    requires |ws| <= |aws|
  {
    seq(|ws|, k requires 0 <= k < |ws| => Write(aws[k], LaneValue(aws[k], ws[k])))
  }

  /** What an edge outside reset does to the queue while it does not overflow. */
  lemma {:induction false} EdgeIsFifo(s: Monitor, e: Edge)
    requires Ring(s) && s.ended.None? && e.resetn && NegEdge(s, e).ended != Some(Overflow)
    ensures var r := NegEdge(s, e);
            var waiting := Contents(s) + if e.aw.Some? then [e.aw.value] else [];
            if e.w.Some? && waiting != [] then
              && Contents(r) == waiting[1..]
              && r.decoded == s.decoded + [Write(waiting[0], LaneValue(waiting[0], e.w.value))]
              && r.dropped == s.dropped
            else
              && Contents(r) == waiting && r.decoded == s.decoded
              && r.dropped == s.dropped + if e.w.Some? then 1 else 0
  {
    hide Contents, LaneValue;
    if e.aw.Some? && s.count < 8 {
      PushEnqueues(s, e.aw.value);
      if e.w.Some? {
        PopDequeues(Push(s, e.aw.value), e.w.value, e.fails);
      }
    } else if e.w.Some? && s.count > 0 {
      PopDequeues(s, e.w.value, e.fails);
    }
    WaitingCount(s);
    hide Handle;
  }

  lemma WaitingCount(s: Monitor)
    ensures |Contents(s)| == s.count
  {
  }

  /** Since s, the monitor r has taken the addresses `aws` and the beats `ws` as a FIFO: the addresses decoded
      and those still waiting are the addresses presented, in order; every beat is decoded or dropped. */
  predicate Fifo(s: Monitor, r: Monitor, aws: seq<nat>, ws: seq<Beat>) {
    var n := |r.decoded| - |s.decoded|;
    && s.decoded <= r.decoded
    && n <= |aws|
    && Contents(r) == aws[n..]
    && (forall k | 0 <= k < n :: r.decoded[|s.decoded| + k].addr == aws[k])
    && n + (r.dropped - s.dropped) == |ws|
    && r.dropped >= s.dropped
  }

  lemma {:induction false} FifoStep(s: Monitor, r: Monitor, e: Edge, aws: seq<nat>, ws: seq<Beat>)
    requires Ring(r) && r.ended.None? && e.resetn && NegEdge(r, e).ended != Some(Overflow)
    requires Fifo(s, r, aws, ws)
    ensures Fifo(s, NegEdge(r, e), aws + (if e.aw.Some? then [e.aw.value] else []),
                 ws + (if e.w.Some? then [e.w.value] else []))
  {
    hide NegEdge, Contents, LaneValue, Ring;
    EdgeIsFifo(r, e);
    var more := aws + (if e.aw.Some? then [e.aw.value] else []);
    var n := |r.decoded| - |s.decoded|;
    assert aws[n..] + (if e.aw.Some? then [e.aw.value] else []) == more[n..];
    if e.w.Some? && more[n..] != [] {
      assert more[n..][1..] == more[n + 1..];
    }
  }

  lemma {:induction false} QueueIsFifo(s: Monitor, es: seq<Edge>)
    requires Ring(s) && s.count == 0 && Live(s, es) && Run(s, es).ended != Some(Overflow)
    ensures Fifo(s, Run(s, es), Aws(es), Ws(es))
  {
    hide NegEdge, LaneValue, Ring;
    if es != [] {
      hide Fifo;
      var front, e := es[..|es| - 1], es[|es| - 1];
      LiveFront(s, es);
      QueueIsFifo(s, front);
      assert e in es;
      FifoStep(s, Run(s, front), e, Aws(front), Ws(front));
    }
  }

  lemma LiveFront(s: Monitor, es: seq<Edge>)
    requires Ring(s) && es != [] && Live(s, es)
    ensures Live(s, es[..|es| - 1])
  {
    hide NegEdge;
    var front := es[..|es| - 1];
    if front != [] && Run(s, front[..|front| - 1]).ended.Some? {
      EndedStays(Run(s, front[..|front| - 1]), front[|front| - 1]);
    }
  }

  lemma EndedStays(s: Monitor, e: Edge)
    requires Ring(s) && s.ended.Some?
    ensures NegEdge(s, e) == s
  {
  }

  /** Without overflow every beat is decoded exactly when none came before its address, and then the n-th
      beat is decoded with the n-th address. */
  lemma {:induction false} PairedIffInOrder(s: Monitor, es: seq<Edge>)
    requires Ring(s) && s.count == 0 && Live(s, es) && Run(s, es).ended != Some(Overflow)
    ensures InOrder(es) <==> |Run(s, es).decoded| == |s.decoded| + |Ws(es)|
    ensures InOrder(es) ==> |Ws(es)| <= |Aws(es)| && Run(s, es).decoded == s.decoded + Pairs(Aws(es), Ws(es))
  {
    hide NegEdge, Contents, LaneValue, Ring;
    if es != [] {
      var front, e := es[..|es| - 1], es[|es| - 1];
      LiveFront(s, es);
      PairedIffInOrder(s, front);
      QueueIsFifo(s, front);
      QueueIsFifo(s, es);
      assert e in es;
      EdgeIsFifo(Run(s, front), e);
      WaitingCount(Run(s, front));
      if InOrder(es) {
        PairsGrow(es);
      }
    }
  }

  lemma PairsGrow(es: seq<Edge>)
    requires es != [] && |Ws(es)| <= |Aws(es)| && |Ws(es[..|es| - 1])| <= |Aws(es[..|es| - 1])|
    ensures var n := |Ws(es[..|es| - 1])|;
            Pairs(Aws(es), Ws(es))
            == Pairs(Aws(es[..|es| - 1]), Ws(es[..|es| - 1]))
               + if es[|es| - 1].w.Some? then [Write(Aws(es)[n], LaneValue(Aws(es)[n], Ws(es)[n]))] else []
  {
    hide LaneValue;
  }

  /** The run overflows exactly when an address arrives while eight are waiting. */
  lemma OverflowIff(s: Monitor, es: seq<Edge>)
    requires Ring(s) && s.count == 0 && es != [] && Live(s, es)
    ensures var front := es[..|es| - 1];
            Run(s, es).ended == Some(Overflow)
            <==> es[|es| - 1].aw.Some? && |Aws(front)| - (|Run(s, front).decoded| - |s.decoded|) == 8
  {
    hide LaneValue, Asks, Contents;
    var front := es[..|es| - 1];
    LiveFront(s, es);
    QueueIsFifo(s, front);
    assert es[|es| - 1] in es;
    WaitingCount(Run(s, front));
  }

  datatype Store = Store(addr: nat, bytes: seq<bv8>)

  /** The bus traffic of a program's stores: their addresses, and beats that carry them within the bus. */
  predicate TrafficOf(stores: seq<Store>, es: seq<Edge>) {
    && |Aws(es)| == |Ws(es)| == |stores|
    && forall k | 0 <= k < |stores| ::
         && stores[k].addr == Aws(es)[k] && Carries(Ws(es)[k], stores[k].addr, stores[k].bytes)
         && |stores[k].bytes| <= 4 && stores[k].addr % 8 + |stores[k].bytes| <= 8
  }

  /** The monitor decodes a program's stores, each with its own address and its bytes in the low lanes, in
      program order. */
  lemma {:induction false} StoresAreSeenInOrder(s: Monitor, es: seq<Edge>, stores: seq<Store>)
    requires Ring(s) && s.count == 0 && Live(s, es) && Run(s, es).ended != Some(Overflow)
    requires InOrder(es) && TrafficOf(stores, es)
    ensures var r := Run(s, es);
            && |r.decoded| == |s.decoded| + |stores|
            && forall k | 0 <= k < |stores| ::
                 r.decoded[|s.decoded| + k] == Write(stores[k].addr, Placed(0, stores[k].bytes))
  {
    hide LaneValue, Placed, Carries, NegEdge, Run, Aws, Ws, InOrder, Live, Ring, Pairs, TrafficOf;
    PairedIffInOrder(s, es);
    TrafficPairs(es, stores);
  }

  lemma {:induction false} TrafficPairs(es: seq<Edge>, stores: seq<Store>)
    requires TrafficOf(stores, es)
    ensures var pairs := Pairs(Aws(es), Ws(es));
            && |pairs| == |stores|
            && forall k | 0 <= k < |stores| :: pairs[k] == Write(stores[k].addr, Placed(0, stores[k].bytes))
  {
    hide LaneValue, Placed, Carries, Aws, Ws;
    forall k | 0 <= k < |stores|
      ensures LaneValue(Aws(es)[k], Ws(es)[k]) == Placed(0, stores[k].bytes)
    {
      StoreRecoveredIff(Ws(es)[k], stores[k].addr, stores[k].bytes);
    }
  }

  // ---------------------------------------------------------------- output and the end of the run

  /** The characters a list of decoded writes asks to show. */
  function Text(ws: seq<Write>): seq<bv8> {
    if ws == [] then []
    else
      var r := Asks(ws[|ws| - 1]);
      Text(ws[..|ws| - 1]) + if r.Show? then [r.c] else []
  }

  predicate Stops(w: Write) {
    Asks(w).Stop?
  }

  /** The console shows the decoded writes; veer_cosim_finish was called at most once, and for certain if
      the run has ended; the run goes on exactly while no decoded write stopped it, and only the last
      one can have. */
  predicate InvEffects(s: Monitor) {
    && s.console == Text(s.decoded)
    && s.finishes == (if s.cosimFinished then 1 else 0)
    && (s.cosimFinished <==> s.ended.Some?)
    && (forall k | 0 <= k < |s.decoded| - 1 :: !Stops(s.decoded[k]))
    && (s.ended != Some(Overflow) ==> (s.ended.Some? <==> s.decoded != [] && Stops(s.decoded[|s.decoded| - 1])))
  }

  lemma {:induction false} PopEffects(s: Monitor, b: Beat, fails: nat)
    requires Ring(s) && InvEffects(s) && (forall w | w in s.decoded :: !Stops(w))
    ensures InvEffects(Pop(s, b, fails))
  {
    hide LaneValue, Asks, Text, Contents;
    if s.count > 0 {
      TextAppend(s.decoded, Write(s.slots[s.head], LaneValue(s.slots[s.head], b)));
    }
  }

  lemma {:induction false} TextAppend(ws: seq<Write>, w: Write)
    ensures Text(ws + [w]) == Text(ws) + if Asks(w).Show? then [Asks(w).c] else []
  {
    hide Asks;
    assert (ws + [w])[..|ws|] == ws;
  }

  lemma {:induction false} EdgeEffects(s: Monitor, e: Edge)
    requires Ring(s) && InvEffects(s)
    ensures InvEffects(NegEdge(s, e))
  {
    hide Handle, Asks, Text;
    if s.ended.None? && e.resetn {
      assert forall w | w in s.decoded :: !Stops(w);
      var pushed := if e.aw.Some? then Push(s, e.aw.value) else s;
      if e.w.Some? {
        PopEffects(pushed, e.w.value, e.fails);
      }
    }
  }

  /** Over every run, resets included, the console shows exactly the printable print requests in order,
      the run ends with the first write that asks for it, and with the final block the comparison is
      finished exactly once. */
  lemma {:induction false} EffectsOfRun(s: Monitor, es: seq<Edge>)
    requires Ring(s) && InvEffects(s)
    ensures InvEffects(Run(s, es)) && FinishCosim(Run(s, es)).finishes == 1
  {
    hide NegEdge, InvEffects, Ring;
    if es != [] {
      EffectsOfRun(s, es[..|es| - 1]);
      EdgeEffects(Run(s, es[..|es| - 1]), es[|es| - 1]);
    }
    FinishesOnce(Run(s, es));
  }

  lemma FinishesOnce(s: Monitor)
    requires InvEffects(s)
    ensures FinishCosim(s).finishes == 1
  {
  }

  /** The low bytes of the stores to the print address. */
  function PrintBytes(stores: seq<Store>): seq<bv8> {
    if stores == [] then []
    else
      var t := stores[|stores| - 1];
      PrintBytes(stores[..|stores| - 1])
      + if t.addr == 0x1000_0000 then [if t.bytes == [] then 0 else t.bytes[0]] else []
  }

  /** Tabulator, line feed, carriage return, and the graphic characters of ASCII with the blank. */
  predicate Shows(c: bv8) {
    c == 9 || c == 10 || c == 13 || (31 < c && c < 127)
  }

  function Visible(text: seq<bv8>): seq<bv8> {
    if text == [] then []
    else
      var c := text[|text| - 1];
      Visible(text[..|text| - 1]) + if Shows(c) then [c] else []
  }

  lemma {:induction false} VisibleAppend(text: seq<bv8>, c: bv8)
    ensures Visible(text + [c]) == Visible(text) + if Shows(c) then [c] else []
  {
    hide Shows;
    assert (text + [c])[..|text|] == text;
  }

  lemma {:induction false} VisibleNext(stores: seq<Store>)
    requires stores != []
    ensures var t := stores[|stores| - 1];
            var c := Placed(0, t.bytes).b0;
            Visible(PrintBytes(stores))
            == Visible(PrintBytes(stores[..|stores| - 1])) + if t.addr == 0x1000_0000 && Shows(c) then [c] else []
  {
    hide Shows, Visible;
    var bytes, t := PrintBytes(stores[..|stores| - 1]), stores[|stores| - 1];
    LowByte(t);
    hide Placed;
    VisibleAppend(bytes, Placed(0, t.bytes).b0);
    assert t.addr != 0x1000_0000 ==> PrintBytes(stores) == bytes;
  }

  lemma {:induction false} TextNext(ws: seq<Write>, w: Write)
    ensures Text(ws + [w])
            == Text(ws) + if w.addr == 0x1000_0000 && Shows(w.value.b0) then [w.value.b0] else []
  {
    hide Asks, Shows;
    OneWriteShows(w);
    TextAppend(ws, w);
  }

  lemma {:induction false} TextOfStores(before: seq<Write>, stores: seq<Store>, ws: seq<Write>)
    requires |ws| == |stores|
    requires forall k | 0 <= k < |ws| :: ws[k] == Write(stores[k].addr, Placed(0, stores[k].bytes))
    ensures Text(before + ws) == Text(before) + Visible(PrintBytes(stores))
  {
    hide Placed, Text;
    if ws == [] {
      assert before + ws == before;
    } else {
      hide Visible, Shows, PrintBytes;
      var n := |ws| - 1;
      TextOfStores(before, stores[..n], ws[..n]);
      assert before + ws == (before + ws[..n]) + [ws[n]];
      TextNext(before + ws[..n], ws[n]);
      VisibleNext(stores);
    }
  }

  lemma LowByte(t: Store)
    ensures Placed(0, t.bytes).b0 == if t.bytes == [] then 0 else t.bytes[0]
  {
  }

  lemma OneWriteShows(w: Write)
    ensures Asks(w).Show? <==> w.addr == 0x1000_0000 && Shows(w.value.b0)
    ensures Asks(w).Show? ==> Asks(w).c == w.value.b0
  {
  }

  /** The console grows by the printable bytes a program stores to the print address, whatever else it
      stores in between. */
  lemma ConsoleShowsPrints(s: Monitor, es: seq<Edge>, stores: seq<Store>)
    requires Ring(s) && s.count == 0 && InvEffects(s)
    requires Live(s, es) && Run(s, es).ended != Some(Overflow) && InOrder(es) && TrafficOf(stores, es)
    ensures Run(s, es).console == s.console + Visible(PrintBytes(stores))
  {
    hide NegEdge, Run, Text, Placed, TrafficOf;
    StoresAreSeenInOrder(s, es, stores);
    QueueIsFifo(s, es);
    EffectsOfRun(s, es);
    var r := Run(s, es);
    var ws := r.decoded[|s.decoded|..];
    assert r.decoded == s.decoded + ws;
    TextOfStores(s.decoded, stores, ws);
  }

  // ---------------------------------------------------------------- how a run ends

  /** 0x82 at 0x1000_0000 */
  predicate ReportsFailure(w: Write) {
    w.addr == 0x1000_0000 && w.value.b0 == 0x82
  }

  /** 0x83 at 0x1000_0000, or 123456789 at 0x2000_0000 */
  predicate ReportsSuccess(w: Write) {
    (w.addr == 0x1000_0000 && w.value.b0 == 0x83) || (w.addr == 0x2000_0000 && FromLanes(w.value) == 123456789)
  }

  /** 0x81 at 0x1000_0000 */
  predicate ReportsFinish(w: Write) {
    w.addr == 0x1000_0000 && w.value.b0 == 0x81
  }

  lemma FinishValue(w: Word)
    ensures w == SIM_FINISH_VALUE <==> FromLanes(w) == 123456789
  {
    LanesOfFromLanes(w);
    assert Lanes(123456789) == SIM_FINISH_VALUE;
    assert FromLanes(SIM_FINISH_VALUE) == 123456789;
  }

  lemma {:induction false} WriteEnds(s: Monitor, w: Write, fails: nat)
    ensures Handle(s, w, fails).ended
            == if s.ended.Some? then s.ended
               else if ReportsFailure(w) || (ReportsSuccess(w) && fails != 0) then Some(Fatal)
               else if ReportsFinish(w) || ReportsSuccess(w) then Some(Finished)
               else None
  {
    FinishValue(w.value);
    hide FromLanes, IsPrintChar;
  }

  /** The edge that ends a run decides how: fatally if the queue overflowed, or if it decoded a report of failure, or a
      report of success while the comparison has failures; otherwise as finished, by a report of success or
      of the plain end. Any other edge leaves the run going. */
  lemma {:induction false} EndingOfRun(s: Monitor, es: seq<Edge>)
    requires Ring(s) && es != [] && Run(s, es[..|es| - 1]).ended.None?
    ensures var e := es[|es| - 1];
            var before, now := Run(s, es[..|es| - 1]), Run(s, es);
            var overflows := e.resetn && e.aw.Some? && before.count == 8;
            var decodes := |now.decoded| > |before.decoded|;
            && |before.decoded| <= |now.decoded| <= |before.decoded| + 1
            && (now.ended == Some(Overflow) <==> overflows)
            && (now.ended == Some(Fatal)
                <==> !overflows && decodes
                     && var w := now.decoded[|now.decoded| - 1];
                        ReportsFailure(w) || (ReportsSuccess(w) && e.fails != 0))
            && (now.ended == Some(Finished)
                <==> !overflows && decodes
                     && var w := now.decoded[|now.decoded| - 1];
                        ReportsFinish(w) || (ReportsSuccess(w) && e.fails == 0))
  {
    hide Contents, LaneValue, ReportsFailure, ReportsSuccess, ReportsFinish, Handle;
    var s0, e := Run(s, es[..|es| - 1]), es[|es| - 1];
    var pushed := if e.aw.Some? then Push(s0, e.aw.value) else s0;
    if e.resetn && e.w.Some? && pushed.count > 0 {
      var w := Write(pushed.slots[pushed.head], LaneValue(pushed.slots[pushed.head], e.w.value));
      var popped := pushed.(head := (pushed.head + 1) % 8, count := pushed.count - 1, decoded := pushed.decoded + [w]);
      WriteEnds(popped, w, e.fails);
      ReportsDiffer(w);
    }
  }

  lemma ReportsDiffer(w: Write)
    ensures !(ReportsFinish(w) && ReportsFailure(w)) && !(ReportsFinish(w) && ReportsSuccess(w))
    ensures !(ReportsFailure(w) && ReportsSuccess(w))
  {
  }

  /** An ended run stays as it ended. */
  lemma {:induction false} EndingIsFinal(s: Monitor, es: seq<Edge>)
    requires Ring(s) && s.ended.Some?
    ensures Run(s, es) == s
  {
    if es != [] {
      EndingIsFinal(s, es[..|es| - 1]);
      EndedStays(s, es[|es| - 1]);
    }
  }

  /** A reset forgets the addresses waiting and nothing else: the run goes on as from an empty queue. */
  lemma {:induction false} ResetForgetsWaiting(s: Monitor, es: seq<Edge>)
    requires Ring(s) && es != [] && !es[|es| - 1].resetn && Run(s, es[..|es| - 1]).ended.None?
    ensures var before, now := Run(s, es[..|es| - 1]), Run(s, es);
            && Contents(now) == []
            && now.decoded == before.decoded && now.dropped == before.dropped && now.console == before.console
            && now.ended.None? && now.finishes == before.finishes
  {
  }

  // ---------------------------------------------------------------- the monitor itself

  class VeerMonitor {
    const awQueue: array<nat>
    var awQueueHead: nat
    var awQueueTail: nat
    var awQueueCount: nat
    var cosimFinished: bool
    var ended: Option<Ending>
    ghost var console: seq<bv8>
    ghost var decoded: seq<Write>
    ghost var dropped: nat
    ghost var finishes: nat

    ghost predicate Valid()
      reads this, awQueue
    {
      awQueue.Length == 8 && Ring(Abs())
    }

    ghost function Abs(): Monitor
      requires awQueue.Length == 8
      reads this, awQueue
    {
      Monitor(awQueue[..], awQueueHead, awQueueTail, awQueueCount, cosimFinished, ended,
              console, decoded, dropped, finishes)
    }

    constructor ()
      ensures Valid() && fresh(awQueue)
      ensures Contents(Abs()) == [] && InvEffects(Abs()) && ended == None
    {
      awQueue := new nat[8];
      awQueueHead, awQueueTail, awQueueCount := 0, 0, 0;
      cosimFinished, ended := false, None;
      console, decoded, dropped, finishes := [], [], 0, 0;
    }

    method FinishCosimOnce()
      requires Valid()
      modifies this`cosimFinished, this`finishes
      ensures Valid() && Abs() == FinishCosim(old(Abs()))
    {
      if !cosimFinished {
        finishes := finishes + 1;
        cosimFinished := true;
      }
    }

    method EndRun(e: Ending)
      requires Valid()
      modifies this`ended
      ensures Valid() && Abs() == End(old(Abs()), e)
    {
      if ended.None? {
        ended := Some(e);
      }
    }

    method HandleSimPrint(w: Write, fails: nat)
      requires Valid() && w.addr == SIM_MMIO
      modifies this`console, this`cosimFinished, this`finishes, this`ended
      ensures Valid() && Abs() == Handle(old(Abs()), w, fails)
    {
      var c := w.value.b0;
      if c == START {
      } else if c == PASS {
        FinishCosimOnce();
        if fails != 0 {
          EndRun(Fatal);
        }
        EndRun(Finished);
      } else if c == FAIL {
        FinishCosimOnce();
        EndRun(Fatal);
      } else if c == FINISH {
        FinishCosimOnce();
        EndRun(Finished);
      } else if c == QUIT {
      } else if IsPrintChar(c) {
        console := console + [c];
      }
    }

    method PushAddress(addr: nat)
      requires Valid()
      modifies this, awQueue
      ensures Valid() && Abs() == Push(old(Abs()), addr)
    {
      if awQueueCount < 8 {
        RingNext(awQueueHead + awQueueCount);
        awQueue[awQueueTail] := addr;
        awQueueTail := (awQueueTail + 1) % 8;
        awQueueCount := awQueueCount + 1;
      } else {
        FinishCosimOnce();
        EndRun(Overflow);
      }
    }

    method PopWrite(b: Beat, fails: nat)
      requires Valid()
      modifies this
      ensures Valid() && Abs() == Pop(old(Abs()), b, fails)
    {
      hide Handle, LaneValue;
      if awQueueCount == 0 {
        dropped := dropped + 1;
        return;
      }
      var simAddr := awQueue[awQueueHead];
      var simValue := WriteLaneValue(simAddr, b);
      awQueueHead := (awQueueHead + 1) % 8;
      awQueueCount := awQueueCount - 1;
      decoded := decoded + [Write(simAddr, simValue)];
      HandleWrite(Write(simAddr, simValue), fails);
    }

    method HandleWrite(w: Write, fails: nat)
      requires Valid()
      modifies this`console, this`cosimFinished, this`finishes, this`ended
      ensures Valid() && Abs() == Handle(old(Abs()), w, fails)
    {
      if w.addr == SIM_FINISH_ADDR && w.value == SIM_FINISH_VALUE {
        FinishCosimOnce();
        if fails != 0 {
          EndRun(Fatal);
        }
        EndRun(Finished);
      } else if w.addr == SIM_MMIO {
        HandleSimPrint(w, fails);
      }
    }

    /** The block on the falling edge, while the simulation runs. */
    method OnNegEdge(e: Edge)
      requires Valid() && ended.None?
      modifies this, awQueue
      ensures Valid() && Abs() == NegEdge(old(Abs()), e)
    {
      if !e.resetn {
        awQueueHead := 0;
        awQueueTail := 0;
        awQueueCount := 0;
      } else {
        if e.aw.Some? {
          PushAddress(e.aw.value);
        }
        if e.w.Some? {
          PopWrite(e.w.value, e.fails);
        }
      }
    }
  }
}
