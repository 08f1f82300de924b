/** axi4_memory in the form it is written: registers and a memory array updated in place by tasks, on
    both clock edges. Each block is proved equal to the half cycle of AxiMemory it implements. */
module AxiMemoryCode {
  import opened ByteLanes
  import opened Options
  import opened SimMarkers
  import opened AxiMemory

  class Axi4Memory {
    var arready: bool
    var awready: bool
    var wready: bool
    var bvalid: bool
    var rvalid: bool
    var rdata: Word
    var latchedRaddrEn: bool
    var latchedWaddrEn: bool
    var latchedWdataEn: bool
    var fastRaddr: bool
    var fastWaddr: bool
    var fastWdata: bool
    var latchedRaddr: nat
    var latchedWaddr: nat
    var latchedWdata: Word
    var latchedWstrb: Strobe
    var testsPassed: bool
    var halted: bool
    const memory: array<Word>

    ghost predicate Valid() {
      memory.Length == MEM_SIZE / 4
    }

    function Abs(): Axi
      reads this, memory
    {
      Axi(Port(arready, fastRaddr, latchedRaddrEn, latchedRaddr),
          Port(awready, fastWaddr, latchedWaddrEn, latchedWaddr),
          Port(wready, fastWdata, latchedWdataEn, Beat(latchedWdata, latchedWstrb)),
          rvalid, rdata, bvalid, memory[..], testsPassed, halted)
    }

    constructor (words: array<Word>)
      requires words.Length == MEM_SIZE / 4
      ensures Valid() && memory == words && Abs() == PowerUp(words[..])
    {
      arready, awready, wready, bvalid, rvalid := false, false, false, false, false;
      latchedRaddrEn, latchedWaddrEn, latchedWdataEn := false, false, false;
      fastRaddr, fastWaddr, fastWdata := false, false, false;
      latchedRaddr, latchedWaddr, latchedWdata, latchedWstrb, rdata := 0, 0, ZERO_WORD, NO_LANES, ZERO_WORD;
      testsPassed, halted := false, false;
      memory := words;
    }

    method HandleArvalid(addr: nat)
      modifies this`arready, this`latchedRaddr, this`latchedRaddrEn, this`fastRaddr
      ensures Abs() == old(Abs()).(ar := Port(true, true, true, addr))
    {
      arready := true;
      latchedRaddr := addr;
      latchedRaddrEn := true;
      fastRaddr := true;
    }

    method HandleAwvalid(addr: nat)
      modifies this`awready, this`latchedWaddr, this`latchedWaddrEn, this`fastWaddr
      ensures Abs() == old(Abs()).(aw := Port(true, true, true, addr))
    {
      awready := true;
      latchedWaddr := addr;
      latchedWaddrEn := true;
      fastWaddr := true;
    }

    method HandleWvalid(beat: Beat)
      modifies this`wready, this`latchedWdata, this`latchedWstrb, this`latchedWdataEn, this`fastWdata
      ensures Abs() == old(Abs()).(w := Port(true, true, true, beat))
    {
      wready := true;
      latchedWdata := beat.data;
      latchedWstrb := beat.strb;
      latchedWdataEn := true;
      fastWdata := true;
    }

    method HandleRvalid()
      requires Valid()
      modifies this
      ensures var was := old(Abs());
              Abs() == if InRange(was.ar.value)
                       then was.(ar := Release(was.ar, true), rvalid := true, rdata := WordAt(was.memory, was.ar.value))
                       else was.(halted := true)
    {
      if latchedRaddr >= MEM_BASE && latchedRaddr - MEM_BASE < MEM_SIZE {
        rdata := memory[(latchedRaddr - MEM_BASE) / 4];
        rvalid := true;
        latchedRaddrEn := false;
      } else {
        halted := true;
      }
    }

    /** The strobed write of one in-range word, lane by lane. */
    method WriteLanes(i: nat)
      requires i < memory.Length
      modifies memory
      ensures memory[..] == old(memory[..])[i := Merge(old(memory[i]), latchedWdata, latchedWstrb)]
    {
      if latchedWstrb.s0 {
        memory[i] := memory[i].(b0 := latchedWdata.b0);
      }
      if latchedWstrb.s1 {
        memory[i] := memory[i].(b1 := latchedWdata.b1);
      }
      if latchedWstrb.s2 {
        memory[i] := memory[i].(b2 := latchedWdata.b2);
      }
      if latchedWstrb.s3 {
        memory[i] := memory[i].(b3 := latchedWdata.b3);
      }
    }

    /** The address decode of handle_axi_bvalid outside the memory. */
    method DecodeSpecial()
      requires !InRange(latchedWaddr)
      modifies this`testsPassed, this`halted
      ensures testsPassed == (old(testsPassed) || Passes(latchedWaddr, latchedWdata))
      ensures halted == (old(halted) || Ends(latchedWaddr, latchedWdata))
    {
      if latchedWaddr == SIM_MMIO {
        if latchedWdata.b0 == PASS {
          testsPassed := true;
        } else if latchedWdata.b0 == FAIL {
          halted := true;
        } else if latchedWdata.b0 == FINISH {
          testsPassed := true;
        }
      } else if latchedWaddr == SIM_FINISH_ADDR {
        if latchedWdata == SIM_FINISH_VALUE {
          testsPassed := true;
        }
      } else {
        halted := true;
      }
    }

    method PerformWrite()
      requires Valid()
      modifies this`testsPassed, this`halted, memory
      ensures memory[..] == Write(old(memory[..]), latchedWaddr, Beat(latchedWdata, latchedWstrb))
      ensures testsPassed == (old(testsPassed) || Passes(latchedWaddr, latchedWdata))
      ensures halted == (old(halted) || Ends(latchedWaddr, latchedWdata))
    {
      hide Merge;
      if latchedWaddr >= MEM_BASE && latchedWaddr - MEM_BASE < MEM_SIZE {
        WriteLanes((latchedWaddr - MEM_BASE) / 4);
      } else {
        DecodeSpecial();
      }
    }

    method HandleBvalid()
      requires Valid()
      modifies this, memory
      ensures var was := old(Abs());
              Abs() == was.(memory := Write(was.memory, was.aw.value, was.w.value),
                            testsPassed := was.testsPassed || Passes(was.aw.value, was.w.value.data),
                            halted := was.halted || Ends(was.aw.value, was.w.value.data),
                            bvalid := true, aw := Release(was.aw, true), w := Release(was.w, true))
    {
      hide Write, Passes, Ends;
      PerformWrite();
      bvalid := true;
      latchedWaddrEn := false;
      latchedWdataEn := false;
    }

    /** The three guarded latches; the fast flags are those from before the edge. */
    method LatchRequests(m: Master, g: Go, wasFastR: bool, wasFastA: bool, wasFastW: bool)
      modifies this
      ensures var was := old(Abs());
              Abs() == was.(ar := Take(was.ar, wasFastR, m.ar, g.ar), aw := Take(was.aw, wasFastA, m.aw, g.aw),
                            w := Take(was.w, wasFastW, m.w, g.w))
    {
      if m.ar.Some? && !(latchedRaddrEn || wasFastR) && g.ar {
        HandleArvalid(m.ar.value);
      }
      if m.aw.Some? && !(latchedWaddrEn || wasFastA) && g.aw {
        HandleAwvalid(m.aw.value);
      }
      if m.w.Some? && !(latchedWdataEn || wasFastW) && g.w {
        HandleWvalid(m.w.value);
      }
    }

    /** The two guarded responses; `s` holds the registers from before the edge. */
    method ServeRequests(ghost s: Axi, wasRvalid: bool, wasBvalid: bool, g: Go)
      requires Valid() && wasRvalid == s.rvalid && wasBvalid == s.bvalid
      modifies this, memory
      ensures Abs() == Serve(old(Abs()), s, g)
    {
      hide Write, WordAt, Passes, Ends, InRange;
      if !wasRvalid && latchedRaddrEn && g.r {
        HandleRvalid();
      }
      if !wasBvalid && latchedWaddrEn && latchedWdataEn && g.b {
        HandleBvalid();
      }
    }

    method OnNegEdge(m: Master, g: Go)
      requires Valid()
      modifies this, memory
      ensures Abs() == NegEdge(old(Abs()), m, g)
    {
      hide Serve;
      ghost var s := Abs();
      var wasRvalid, wasBvalid := rvalid, bvalid;
      LatchRequests(m, g, fastRaddr, fastWaddr, fastWdata);
      ServeRequests(s, wasRvalid, wasBvalid, g);
    }

    /** Ready and fast of a channel fall; its late-latch branch reads their values from before. */
    method SettleAr(offer: Option<nat>)
      modifies this`arready, this`fastRaddr, this`latchedRaddr, this`latchedRaddrEn
      ensures Abs() == old(Abs()).(ar := SettlePort(old(Abs()).ar, offer))
    {
      var late := arready && !fastRaddr;
      arready := false;
      fastRaddr := false;
      if offer.Some? && late {
        latchedRaddr := offer.value;
        latchedRaddrEn := true;
      }
    }

    method SettleAw(offer: Option<nat>)
      modifies this`awready, this`fastWaddr, this`latchedWaddr, this`latchedWaddrEn
      ensures Abs() == old(Abs()).(aw := SettlePort(old(Abs()).aw, offer))
    {
      var late := awready && !fastWaddr;
      awready := false;
      fastWaddr := false;
      if offer.Some? && late {
        latchedWaddr := offer.value;
        latchedWaddrEn := true;
      }
    }

    method SettleW(offer: Option<Beat>)
      modifies this`wready, this`fastWdata, this`latchedWdata, this`latchedWstrb, this`latchedWdataEn
      ensures Abs() == old(Abs()).(w := SettlePort(old(Abs()).w, offer))
    {
      var late := wready && !fastWdata;
      wready := false;
      fastWdata := false;
      if offer.Some? && late {
        latchedWdata := offer.value.data;
        latchedWstrb := offer.value.strb;
        latchedWdataEn := true;
      }
    }

    /** The unconditional part of the posedge block: taken responses are withdrawn as well. */
    method SettleRegisters(m: Master)
      modifies this
      ensures Abs() == Settle(old(Abs()), m)
    {
      hide SettlePort;
      SettleAr(m.ar);
      SettleAw(m.aw);
      SettleW(m.w);
      if rvalid && m.rready {
        rvalid := false;
      }
      if bvalid && m.bready {
        bvalid := false;
      }
    }

    method OnPosEdge(m: Master, g: Go)
      requires Valid()
      modifies this, memory
      ensures Abs() == PosEdge(old(Abs()), m, g)
    {
      hide Serve, SettlePort;
      ghost var s := Abs();
      var wasRvalid, wasBvalid := rvalid, bvalid;
      var wasFastR, wasFastA, wasFastW := fastRaddr, fastWaddr, fastWdata;
      SettleRegisters(m);
      LatchRequests(m, g, wasFastR, wasFastA, wasFastW);
      ServeRequests(s, wasRvalid, wasBvalid, g);
    }
  }
}
