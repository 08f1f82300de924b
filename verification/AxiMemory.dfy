/** The AXI memory of the PicoRV32 testbench (axi4_memory in src/top_cpu/tb_picorv32.v), half cycle by
    half cycle. Its pseudo-random timing bits are inputs. */
module AxiMemory {
  import opened ByteLanes
  import opened Options
  import opened SimMarkers

  const MEM_BASE: nat := 0x8000_0000
  const MEM_SIZE: nat := 128 * 1024

  // ---------------------------------------------------------------- the slave

  datatype Beat = Beat(data: Word, strb: Strobe)

  /** What the master offers on AR, AW and W during one clock period, and whether it takes responses. */
  datatype Master = Master(ar: Option<nat>, aw: Option<nat>, w: Option<Beat>, bready: bool, rready: bool)

  /** Which of the five actions this half cycle's timing bits allow: async bits on a negedge, the
      complements of the delay bits on a posedge. */
  datatype Go = Go(ar: bool, aw: bool, w: bool, r: bool, b: bool)

  /** The registers of one request channel: the ready line, the fast flag, and the latch. */
  datatype Port<T> = Port(ready: bool, fast: bool, en: bool, value: T)

  datatype Axi = Axi(ar: Port<nat>, aw: Port<nat>, w: Port<Beat>, rvalid: bool, rdata: Word, bvalid: bool,
                     memory: seq<Word>, testsPassed: bool, halted: bool)

  function PowerUp(memory: seq<Word>): Axi {
    Axi(Port(false, false, false, 0), Port(false, false, false, 0),
        Port(false, false, false, Beat(ZERO_WORD, NO_LANES)), false, ZERO_WORD, false, memory, false, false)
  }

  predicate InRange(a: nat) {
    a >= MEM_BASE && a - MEM_BASE < MEM_SIZE
  }

  function Index(a: nat): nat
    requires InRange(a)
  {
    (a - MEM_BASE) / 4
  }

  function WordAt(mem: seq<Word>, a: nat): Word {
    if InRange(a) && Index(a) < |mem| then mem[Index(a)] else ZERO_WORD
  }

  function Write(mem: seq<Word>, a: nat, beat: Beat): (r: seq<Word>)
    ensures |r| == |mem|
  {
    if InRange(a) && Index(a) < |mem| then mem[Index(a) := Merge(mem[Index(a)], beat.data, beat.strb)] else mem
  }

  /** A write that sets tests_passed. */
  predicate Passes(a: nat, data: Word) {
    && !InRange(a)
    && (|| (a == SIM_MMIO && (data.b0 == PASS || data.b0 == FINISH))
        || (a == SIM_FINISH_ADDR && data == SIM_FINISH_VALUE))
  }

  /** A write that ends the simulation. */
  predicate Ends(a: nat, data: Word) {
    !InRange(a) && ((a == SIM_MMIO && data.b0 == FAIL) || (a != SIM_MMIO && a != SIM_FINISH_ADDR))
  }

  /** The handle task of a request channel, guarded by the latch, by the fast flag from before the
      edge, and by a timing bit. */
  function Take<T>(p: Port<T>, fast: bool, offer: Option<T>, go: bool): Port<T> {
    if offer.Some? && !(p.en || fast) && go then Port(true, true, true, offer.value) else p
  }

  /** `n` carries the blocking updates made so far in this block, `s` the registers before the edge. */
  function Latch(n: Axi, s: Axi, m: Master, g: Go): Axi {
    n.(ar := Take(n.ar, s.ar.fast, m.ar, g.ar),
       aw := Take(n.aw, s.aw.fast, m.aw, g.aw),
       w := Take(n.w, s.w.fast, m.w, g.w))
  }

  predicate Reads(n: Axi, s: Axi, g: Go) {
    !s.rvalid && n.ar.en && g.r
  }

  predicate Writes(n: Axi, s: Axi, g: Go) {
    !s.bvalid && n.aw.en && n.w.en && g.b
  }

  function Release<T>(p: Port<T>, done: bool): Port<T> {
    if done then p.(en := false) else p
  }

  /** handle_axi_rvalid and handle_axi_bvalid, as their guards allow. The read sees the memory from
      before the edge; an out-of-range address ends the simulation, and a read then leaves no beat. */
  function Serve(n: Axi, s: Axi, g: Go): Axi {
    var fetches, writes := Reads(n, s, g), Writes(n, s, g);
    var answers := fetches && InRange(n.ar.value);
    Axi(Release(n.ar, answers), Release(n.aw, writes), Release(n.w, writes),
        n.rvalid || answers, if answers then WordAt(n.memory, n.ar.value) else n.rdata,
        n.bvalid || writes,
        if writes then Write(n.memory, n.aw.value, n.w.value) else n.memory,
        n.testsPassed || (writes && Passes(n.aw.value, n.w.value.data)),
        n.halted || (fetches && !answers) || (writes && Ends(n.aw.value, n.w.value.data)))
  }

  function NegEdge(s: Axi, m: Master, g: Go): Axi {
    Serve(Latch(s, s, m, g), s, g)
  }

  /** A request channel as the posedge block leaves it before its guarded tasks: ready and fast cleared,
      and the late-latch branch, which takes the offer when ready is high without fast. */
  function SettlePort<T>(p: Port<T>, offer: Option<T>): Port<T> {
    if offer.Some? && p.ready && !p.fast then Port(false, false, true, offer.value)
    else p.(ready := false, fast := false)
  }

  function Settle(s: Axi, m: Master): Axi {
    s.(ar := SettlePort(s.ar, m.ar), aw := SettlePort(s.aw, m.aw), w := SettlePort(s.w, m.w),
       rvalid := s.rvalid && !m.rready, bvalid := s.bvalid && !m.bready)
  }

  function PosEdge(s: Axi, m: Master, g: Go): Axi {
    Serve(Latch(Settle(s, m), s, m, g), s, g)
  }

  // ---------------------------------------------------------------- what happens on the channels

  /** The slave's memory accesses, in the order it makes them. */
  datatype Event = Read(addr: nat, data: Word) | Wrote(addr: nat, beat: Beat)

  /** What a request channel has seen: items handshaken, and items latched. */
  datatype Seen<T> = Seen(hs: seq<T>, lat: seq<T>)

  /** The request channels, the beats taken on R, the number taken on B, and the accesses. */
  datatype Trace = Trace(ar: Seen<nat>, aw: Seen<nat>, w: Seen<Beat>, r: seq<Word>, b: nat, log: seq<Event>)

  /** What the master offered without being taken: it must keep offering it (AMBA AXI A3.2.1). */
  datatype Offers = Offers(ar: Option<nat>, aw: Option<nat>, w: Option<Beat>)

  /** `high` is the clock: the next edge is a negedge. */
  datatype Sys = Sys(s: Axi, m: Master, high: bool, offers: Offers, h: Trace)

  const IDLE := Master(None, None, None, false, false)

  function Start(memory: seq<Word>): Sys {
    Sys(PowerUp(memory), IDLE, true, Offers(None, None, None),
        Trace(Seen([], []), Seen([], []), Seen([], []), [], 0, []))
  }

  predicate Stable(o: Offers, m: Master) {
    (o.ar.Some? ==> m.ar == o.ar) && (o.aw.Some? ==> m.aw == o.aw) && (o.w.Some? ==> m.w == o.w)
  }

  /** Records a latch made since `before`. */
  function Latched<T>(seen: Seen<T>, before: Port<T>, after: Port<T>): Seen<T> {
    if after.en && !before.en then seen.(lat := seen.lat + [after.value]) else seen
  }

  /** Records a handshake, which the posedge samples. */
  function Shaken<T>(seen: Seen<T>, p: Port<T>, offer: Option<T>): Seen<T> {
    if offer.Some? && p.ready then seen.(hs := seen.hs + [offer.value]) else seen
  }

  function ReadPart(n: Axi, s: Axi, g: Go): seq<Event> {
    if Reads(n, s, g) && InRange(n.ar.value) then [Read(n.ar.value, WordAt(n.memory, n.ar.value))] else []
  }

  function WritePart(n: Axi, s: Axi, g: Go): seq<Event> {
    if Writes(n, s, g) then [Wrote(n.aw.value, n.w.value)] else []
  }

  /** The accesses of one half cycle, the read first. */
  function Accesses(n: Axi, s: Axi, g: Go): seq<Event> {
    ReadPart(n, s, g) + WritePart(n, s, g)
  }

  function Untaken<T>(p: Port<T>, offer: Option<T>): Option<T> {
    if p.ready then None else offer
  }

  /** The master changes its signals at the posedge, so a negedge is the first to see new ones. */
  datatype Half = Fall(m: Master, g: Go) | Rise(g: Go)

  predicate CanHalf(x: Sys, l: Half) {
    !x.s.halted && (if x.high then l.Fall? && Stable(x.offers, l.m) else l.Rise?)
  }

  function Fallen(x: Sys, m: Master, g: Go): Sys {
    var n := Latch(x.s, x.s, m, g);
    Sys(Serve(n, x.s, g), m, false, x.offers,
        Trace(Latched(x.h.ar, x.s.ar, n.ar), Latched(x.h.aw, x.s.aw, n.aw), Latched(x.h.w, x.s.w, n.w),
              x.h.r, x.h.b, x.h.log + Accesses(n, x.s, g)))
  }

  function Risen(x: Sys, g: Go): Sys {
    var s, m := x.s, x.m;
    var c := Settle(s, m);
    var n := Latch(c, s, m, g);
    Sys(Serve(n, s, g), m, true, Offers(Untaken(s.ar, m.ar), Untaken(s.aw, m.aw), Untaken(s.w, m.w)),
        Trace(Latched(Shaken(x.h.ar, s.ar, m.ar), s.ar, n.ar),
              Latched(Shaken(x.h.aw, s.aw, m.aw), s.aw, n.aw),
              Latched(Shaken(x.h.w, s.w, m.w), s.w, n.w),
              if s.rvalid && m.rready then x.h.r + [s.rdata] else x.h.r,
              if s.bvalid && m.bready then x.h.b + 1 else x.h.b,
              x.h.log + Accesses(n, s, g)))
  }

  function Step(x: Sys, l: Half): Sys
    requires CanHalf(x, l)
  {
    match l
    case Fall(m, g) => Fallen(x, m, g)
    case Rise(g) => Risen(x, g)
  }

  /** A sequence of half cycles that the master's stability rule allows. */
  predicate Run(x: Sys, ls: seq<Half>)
    decreases |ls|, 0
  {
    ls == [] || (Run(x, ls[..|ls| - 1]) && CanHalf(Exec(x, ls[..|ls| - 1]), ls[|ls| - 1]))
  }

  function Exec(x: Sys, ls: seq<Half>): Sys
    requires Run(x, ls)
    decreases |ls|, 1
  {
    if ls == [] then x else Step(Exec(x, ls[..|ls| - 1]), ls[|ls| - 1])
  }

  // ---------------------------------------------------------------- the simple views of a log

  function ReadAddrs(log: seq<Event>): seq<nat> {
    if log == [] then []
    else ReadAddrs(log[..|log| - 1])
         + if log[|log| - 1].Read? then [log[|log| - 1].addr] else []
  }

  function ReadData(log: seq<Event>): seq<Word> {
    if log == [] then []
    else ReadData(log[..|log| - 1])
         + if log[|log| - 1].Read? then [log[|log| - 1].data] else []
  }

  function WriteAddrs(log: seq<Event>): seq<nat> {
    if log == [] then []
    else WriteAddrs(log[..|log| - 1])
         + if log[|log| - 1].Wrote? then [log[|log| - 1].addr] else []
  }

  function WriteBeats(log: seq<Event>): seq<Beat> {
    if log == [] then []
    else WriteBeats(log[..|log| - 1])
         + if log[|log| - 1].Wrote? then [log[|log| - 1].beat] else []
  }

  /** The memory after the writes of a log. */
  function Replay(mem: seq<Word>, log: seq<Event>): (r: seq<Word>)
    ensures |r| == |mem|
  {
    if log == [] then mem
    else
      var before, e := Replay(mem, log[..|log| - 1]), log[|log| - 1];
      if e.Read? then before else Write(before, e.addr, e.beat)
  }

  predicate AtomicEvent(mem: seq<Word>, e: Event) {
    e.Read? ==> InRange(e.addr) && Index(e.addr) < |mem| && e.data == mem[Index(e.addr)]
  }

  /** Every read of the log returns the current word: the one the writes before it left there. */
  predicate AtomicLog(mem: seq<Word>, log: seq<Event>) {
    forall i | 0 <= i < |log| :: AtomicEvent(Replay(mem, log[..i]), log[i])
  }

  predicate SomePass(log: seq<Event>) {
    exists i | 0 <= i < |log| :: log[i].Wrote? && Passes(log[i].addr, log[i].beat.data)
  }
}
