/** A 32-bit bus word as its four byte lanes, and the shift-and-or helpers of the Spike bus
    (src/top_soc/spike_bus_dpi.cc) that place bytes on those lanes and take them off again. */
module ByteLanes {

  /** Lane 0 holds bits 7..0, lane 3 holds bits 31..24. */
  datatype Word = Word(b0: bv8, b1: bv8, b2: bv8, b3: bv8)

  /** One write-enable bit per lane. */
  datatype Strobe = Strobe(s0: bool, s1: bool, s2: bool, s3: bool)

  const ZERO_WORD := Word(0, 0, 0, 0)
  const NO_LANES := Strobe(false, false, false, false)

  function Lane(w: Word, k: nat): bv8
    requires k < 4
  {
    if k == 0 then w.b0 else if k == 1 then w.b1 else if k == 2 then w.b2 else w.b3
  }

  predicate Enabled(s: Strobe, k: nat)
    requires k < 4
  {
    if k == 0 then s.s0 else if k == 1 then s.s1 else if k == 2 then s.s2 else s.s3
  }

  predicate AnyLane(s: Strobe) {
    s != NO_LANES
  }

  /** A byte-strobed write of `data` into `was`. */
  function Merge(was: Word, data: Word, s: Strobe): Word {
    Word(if s.s0 then data.b0 else was.b0,
         if s.s1 then data.b1 else was.b1,
         if s.s2 then data.b2 else was.b2,
         if s.s3 then data.b3 else was.b3)
  }

  /** The byte that `bytes`, laid down from lane `lane` upwards, puts on lane k. */
  function PlacedByte(lane: nat, bytes: seq<bv8>, k: nat): bv8 {
    if lane <= k < lane + |bytes| then bytes[k - lane] else 0
  }

  function Placed(lane: nat, bytes: seq<bv8>): Word {
    Word(PlacedByte(lane, bytes, 0), PlacedByte(lane, bytes, 1),
         PlacedByte(lane, bytes, 2), PlacedByte(lane, bytes, 3))
  }

  function Covering(lane: nat, len: nat): Strobe {
    Strobe(lane <= 0 < lane + len, lane <= 1 < lane + len,
           lane <= 2 < lane + len, lane <= 3 < lane + len)
  }

  function Extract(w: Word, lane: nat, len: nat): seq<bv8>
    requires lane + len <= 4
  {
    seq(len, i requires 0 <= i < len => Lane(w, lane + i))
  }

  // ---------------------------------------------------------------- byte memory

  /** A word memory seen as the byte memory a program sees. */
  function Flatten(mem: seq<Word>): seq<bv8> {
    seq(4 * |mem|, i requires 0 <= i < 4 * |mem| => Lane(mem[i / 4], i % 4))
  }

  function StoreBytes(m: seq<bv8>, off: nat, bytes: seq<bv8>): seq<bv8>
    requires off + |bytes| <= |m|
  {
    m[..off] + bytes + m[off + |bytes|..]
  }

  function LoadBytes(m: seq<bv8>, off: nat, len: nat): seq<bv8>
    requires off + len <= |m|
  {
    m[off..off + len]
  }

  // ---------------------------------------------------------------- bit-level helpers

  function Lanes(v: bv32): Word {
    Word((v & 0xff) as bv8, ((v >> 8) & 0xff) as bv8, ((v >> 16) & 0xff) as bv8, ((v >> 24) & 0xff) as bv8)
  }

  function FromLanes(w: Word): bv32 {
    (w.b0 as bv32) | ((w.b1 as bv32) << 8) | ((w.b2 as bv32) << 16) | ((w.b3 as bv32) << 24)
  }

  lemma LanesOfFromLanes(w: Word)
    ensures Lanes(FromLanes(w)) == w
  {
  }

  function StrobeBits(v: bv8): Strobe {
    Strobe(v & 1 != 0, v & 2 != 0, v & 4 != 0, v & 8 != 0)
  }

  function SetLane(w: Word, k: nat, b: bv8): Word
    requires k < 4
  {
    if k == 0 then w.(b0 := b) else if k == 1 then w.(b1 := b) else if k == 2 then w.(b2 := b) else w.(b3 := b)
  }

  /** A byte shifted up to lane k, and lane k shifted down to a byte: the amount is a constant in
      each case, which ShiftAmounts ties to the computed amount of the source. */
  function ByteUp(b: bv8, k: nat): bv32
    requires k < 4
  {
    if k == 0 then b as bv32
    else if k == 1 then (b as bv32) << 8
    else if k == 2 then (b as bv32) << 16
    else (b as bv32) << 24
  }

  function ByteDown(v: bv32, k: nat): bv8
    requires k < 4
  {
    if k == 0 then (v & 0xff) as bv8
    else if k == 1 then ((v >> 8) & 0xff) as bv8
    else if k == 2 then ((v >> 16) & 0xff) as bv8
    else ((v >> 24) & 0xff) as bv8
  }

  lemma {:induction false} ShiftAmounts(b: bv8, v: bv32, k: nat)
    requires k < 4
    ensures ByteUp(b, k) == (b as bv32) << (8 * k)
    ensures ByteDown(v, k) == ((v >> (8 * k)) & 0xff) as bv8
  {
    if k == 0 {
    } else if k == 1 {
    } else if k == 2 {
    } else {
      assert k == 3;
    }
  }

  /** One turn of the packing loop: a byte shifted up to lane k is or-ed into the word. */
  function OrAt(v: bv32, b: bv8, k: nat): bv32
    requires k < 4
  {
    v | ByteUp(b, k)
  }

  lemma OrLane0(v: bv32, b: bv8)
    requires Lanes(v).b0 == 0
    ensures Lanes(OrAt(v, b, 0)) == Lanes(v).(b0 := b)
  {
  }

  lemma OrLane1(v: bv32, b: bv8)
    requires Lanes(v).b1 == 0
    ensures Lanes(OrAt(v, b, 1)) == Lanes(v).(b1 := b)
  {
  }

  lemma OrLane2(v: bv32, b: bv8)
    requires Lanes(v).b2 == 0
    ensures Lanes(OrAt(v, b, 2)) == Lanes(v).(b2 := b)
  {
  }

  lemma OrLane3(v: bv32, b: bv8)
    requires Lanes(v).b3 == 0
    ensures Lanes(OrAt(v, b, 3)) == Lanes(v).(b3 := b)
  {
  }

  /** Or-ing a byte into an empty lane sets that lane and no other. */
  lemma {:induction false} OrByte(v: bv32, b: bv8, k: nat)
    requires k < 4
    requires Lane(Lanes(v), k) == 0
    ensures Lanes(OrAt(v, b, k)) == SetLane(Lanes(v), k, b)
  {
    hide Lanes, OrAt;
    if k == 0 {
      OrLane0(v, b);
    } else if k == 1 {
      OrLane1(v, b);
    } else if k == 2 {
      OrLane2(v, b);
    } else {
      OrLane3(v, b);
    }
  }

  lemma OrBit(v: bv8, k: nat)
    requires k < 4
    ensures StrobeBits(v | (1 << k)) == match k
      case 0 => StrobeBits(v).(s0 := true)
      case 1 => StrobeBits(v).(s1 := true)
      case 2 => StrobeBits(v).(s2 := true)
      case _ => StrobeBits(v).(s3 := true)
  {
    if k == 0 {
      assert v | (1 << k) == v | 1;
    } else if k == 1 {
      assert v | (1 << k) == v | 2;
    } else if k == 2 {
      assert v | (1 << k) == v | 4;
    } else {
      assert v | (1 << k) == v | 8;
    }
  }

  // ---------------------------------------------------------------- the loops of the source

  lemma PlacedNext(lane: nat, bytes: seq<bv8>, i: nat)
    requires i < |bytes| && lane + |bytes| <= 4
    ensures Placed(lane, bytes[..i + 1]) == SetLane(Placed(lane, bytes[..i]), lane + i, bytes[i])
  {
  }

  /** pack_store_data; its callers have checked that the access stays inside one word. */
  method PackStoreData(addr: nat, bytes: seq<bv8>) returns (value: bv32)
    requires addr % 4 + |bytes| <= 4
    ensures Lanes(value) == Placed(addr % 4, bytes)
  {
    value := 0;
    var lane := addr % 4;
    var i := 0;
    assert Lanes(value) == Placed(lane, bytes[..i]);
    hide Lanes, OrAt;
    while i < |bytes| && i < 4
      invariant 0 <= i <= |bytes|
      invariant Lanes(value) == Placed(lane, bytes[..i])
    {
      OrByte(value, bytes[i], lane + i);
      value := OrAt(value, bytes[i], lane + i);
      PlacedNext(lane, bytes, i);
      i := i + 1;
    }
    assert bytes[..i] == bytes;
  }

  /** pack_store_strobe */
  method PackStoreStrobe(addr: nat, len: nat) returns (strobe: bv8)
    ensures StrobeBits(strobe) == Covering(addr % 4, len)
  {
    strobe := 0;
    var lane := addr % 4;
    var i := 0;
    while i < len && lane + i < 4
      invariant 0 <= i <= len && (i == 0 || lane + i <= 4)
      invariant StrobeBits(strobe) == Covering(lane, i)
    {
      OrBit(strobe, lane + i);
      strobe := strobe | (1 << (lane + i));
      i := i + 1;
    }
  }

  /** unpack_load_data */
  method UnpackLoadData(addr: nat, len: nat, rdata: bv32) returns (bytes: seq<bv8>)
    requires addr % 4 + len <= 4
    ensures bytes == Extract(Lanes(rdata), addr % 4, len)
  {
    bytes := [];
    var i := 0;
    while i < len
      invariant 0 <= i <= len
      invariant bytes == Extract(Lanes(rdata), addr % 4, i)
    {
      bytes := bytes + [ByteDown(rdata, addr % 4 + i)];
      i := i + 1;
    }
  }

  // ---------------------------------------------------------------- what the lanes mean

  /** A strobed write of a packed store, then an unpack: the stored bytes come back, and every
      lane outside the access keeps its byte. */
  lemma LaneRoundTrip(was: Word, lane: nat, bytes: seq<bv8>)
    requires lane + |bytes| <= 4
    ensures var now := Merge(was, Placed(lane, bytes), Covering(lane, |bytes|));
            && Extract(now, lane, |bytes|) == bytes
            && forall k | 0 <= k < 4 && !(lane <= k < lane + |bytes|) :: Lane(now, k) == Lane(was, k)
  {
    hide Merge, Placed, Covering, Lane;
    var now := Merge(was, Placed(lane, bytes), Covering(lane, |bytes|));
    forall k | 0 <= k < 4
      ensures Lane(now, k) == if lane <= k < lane + |bytes| then bytes[k - lane] else Lane(was, k)
    {
      MergedLane(was, lane, bytes, k);
    }
  }

  lemma MergeLane(was: Word, data: Word, s: Strobe, k: nat)
    requires k < 4
    ensures Lane(Merge(was, data, s), k) == if Enabled(s, k) then Lane(data, k) else Lane(was, k)
  {
  }

  /** The same word-wide write is one byte-range store in the flattened memory. */
  lemma StoreIsMerge(mem: seq<Word>, k: nat, lane: nat, bytes: seq<bv8>)
    requires k < |mem| && lane + |bytes| <= 4
    ensures Flatten(mem[k := Merge(mem[k], Placed(lane, bytes), Covering(lane, |bytes|))])
         == StoreBytes(Flatten(mem), 4 * k + lane, bytes)
  {
    var now := Merge(mem[k], Placed(lane, bytes), Covering(lane, |bytes|));
    var l, r := Flatten(mem[k := now]), StoreBytes(Flatten(mem), 4 * k + lane, bytes);
    forall i | 0 <= i < 4 * |mem|
      ensures l[i] == r[i]
    {
      MergedLane(mem[k], lane, bytes, i % 4);
      hide Merge, Placed, Covering, Lane;
    }
    assert l == r;
  }

  lemma MergedLane(was: Word, lane: nat, bytes: seq<bv8>, k: nat)
    requires lane + |bytes| <= 4 && k < 4
    ensures Lane(Merge(was, Placed(lane, bytes), Covering(lane, |bytes|)), k)
            == if lane <= k < lane + |bytes| then bytes[k - lane] else Lane(was, k)
  {
    MergeLane(was, Placed(lane, bytes), Covering(lane, |bytes|), k);
  }

  /** Unpacking a word is a byte-range load from the flattened memory. */
  lemma LoadIsExtract(mem: seq<Word>, k: nat, lane: nat, len: nat)
    requires k < |mem| && lane + len <= 4
    ensures Extract(mem[k], lane, len) == LoadBytes(Flatten(mem), 4 * k + lane, len)
  {
    var m := Flatten(mem);
    forall i | 0 <= i < len
      ensures Extract(mem[k], lane, len)[i] == LoadBytes(m, 4 * k + lane, len)[i]
    {
      assert (4 * k + lane + i) / 4 == k && (4 * k + lane + i) % 4 == lane + i;
    }
  }
}
