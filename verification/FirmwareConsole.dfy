/** From the firmware's printer to the two testbench consoles: sim_putc stores one character as a word at
    the simulation address, and each testbench writes the printable low bytes it decodes. */
module FirmwareConsole {
  import opened ByteLanes
  import opened Options
  import P = Printer
  import V = VeerWriteQueue
  import opened SpikeBus
  import opened SpikeBusInvariant
  import opened SpikeBusTheorems

  /** The characters a text puts on the wire. */
  function Bytes(s: string): seq<bv8>
    requires forall i | 0 <= i < |s| :: s[i] as int < 256
  {
    seq(|s|, i requires 0 <= i < |s| => (s[i] as int) as bv8)
  }

  predicate AllPrintable(text: seq<bv8>) {
    forall i | 0 <= i < |text| :: V.Shows(text[i])
  }

  /** Nothing of a text is lost on the console exactly when every character of it is printable. */
  lemma {:induction false} VisibleIffPrintable(text: seq<bv8>)
    ensures V.Visible(text) == text <==> AllPrintable(text)
    ensures |V.Visible(text)| <= |text|
  {
    hide V.Shows;
    if text != [] {
      VisibleIffPrintable(text[..|text| - 1]);
      var n := |text| - 1;
      if V.Visible(text) == text {
        assert V.Shows(text[n]);
        assert V.Visible(text)[..n] == V.Visible(text[..n]);
      }
    }
  }

  lemma DigitPrintable(c: char)
    requires '0' <= c <= '9'
    ensures V.Shows((c as int) as bv8)
  {
    if c == '0' || c == '1' || c == '2' {
    } else if c == '3' || c == '4' || c == '5' {
    } else {
      assert c == '6' || c == '7' || c == '8' || c == '9';
    }
  }

  lemma DecPrintable(n: nat)
    ensures forall i | 0 <= i < |P.DecText(n)| :: P.DecText(n)[i] as int < 256
    ensures AllPrintable(Bytes(P.DecText(n)))
  {
    hide V.Shows, P.DecText;
    P.DecReadsBack(n);
    var s := P.DecText(n);
    forall i | 0 <= i < |s|
      ensures V.Shows((s[i] as int) as bv8)
    {
      DigitPrintable(s[i]);
    }
  }

  /** VeeR: when a program's stores to the print address spell what print_dec prints of n, among any other
      stores, the console grows by the one leading-zero-free numeral of n. */
  lemma VeerShowsNumber(s: V.Monitor, es: seq<V.Edge>, stores: seq<V.Store>, n: nat)
    requires V.Ring(s) && s.count == 0 && V.InvEffects(s)
    requires V.Live(s, es) && V.Run(s, es).ended != Some(V.Overflow) && V.InOrder(es) && V.TrafficOf(stores, es)
    requires (forall i | 0 <= i < |P.DecText(n)| :: P.DecText(n)[i] as int < 256)
             && V.PrintBytes(stores) == Bytes(P.DecText(n))
    ensures V.Run(s, es).console == s.console + Bytes(P.DecText(n))
    ensures P.Canonical(P.DecText(n)) && P.DecValue(P.DecText(n)) == n
  {
    V.ConsoleShowsPrints(s, es, stores);
    DecPrintable(n);
    VisibleIffPrintable(Bytes(P.DecText(n)));
    P.DecReadsBack(n);
  }

  // ---------------------------------------------------------------- the SoC testbench

  function MmioStores(cs: seq<Call>): seq<Call> {
    if cs == [] then []
    else MmioStores(cs[..|cs| - 1]) + if MmioStore(cs[|cs| - 1]) then [cs[|cs| - 1]] else []
  }

  /** sim_putc of one character */
  function PutChar(c: bv8): Call {
    Call(0x1000_0000, 4, Some([c, 0, 0, 0]))
  }

  function PutText(text: seq<bv8>): seq<Call> {
    if text == [] then [] else PutText(text[..|text| - 1]) + [PutChar(text[|text| - 1])]
  }

  /** The characters the testbench writes for the words it handles. */
  function SocText(handled: seq<Word>): seq<bv8> {
    if handled == [] then []
    else
      var c := handled[|handled| - 1].b0;
      SocText(handled[..|handled| - 1]) + if V.Shows(c) then [c] else []
  }

  lemma PutCharWord(c: bv8)
    ensures Encode(PutChar(c)).wdata == Word(c, 0, 0, 0)
  {
  }

  lemma {:induction false} WordsOfText(cs: seq<Call>, text: seq<bv8>)
    requires MmioStores(cs) == PutText(text)
    ensures SocText(MmioWords(cs)) == V.Visible(text)
  {
    hide MmioStore, Encode, PutChar, V.Shows;
    if cs == [] {
      assert text == [];
    } else {
      var front, c := cs[..|cs| - 1], cs[|cs| - 1];
      if MmioStore(c) {
        var n := |text| - 1;
        assert MmioStores(front) == MmioStores(cs)[..|MmioStores(cs)| - 1];
        assert text != [] && PutText(text[..n]) == PutText(text)[..|PutText(text)| - 1];
        assert c == MmioStores(cs)[|MmioStores(cs)| - 1] == PutChar(text[n]);
        WordsOfText(front, text[..n]);
        PutCharWord(text[n]);
        assert MmioWords(cs)[..|MmioWords(front)|] == MmioWords(front);
      } else {
        WordsOfText(front, text);
        assert MmioWords(cs) == MmioWords(front);
      }
    }
  }

  /** SoC: in every run under the scheduling assumption, if the answered stores to the simulation address
      are those of printing `text`, the testbench has written its printable characters, each once and in
      order, although every store holds the bus for two cycles. */
  lemma {:induction false} SocShowsText(mem: seq<Word>, ls: seq<Label>, text: seq<bv8>)
    requires |mem| == MEM_WORDS && Run(Init(mem), ls) && PromptRun(Init(mem), ls)
    requires MmioStores(AnsweredCalls(Exec(Init(mem), ls))) == PutText(text)
    ensures SocText(Exec(Init(mem), ls).hist.handled) == V.Visible(text)
  {
    MmioExactlyOnce(mem, ls);
    WordsOfText(AnsweredCalls(Exec(Init(mem), ls)), text);
  }
}
