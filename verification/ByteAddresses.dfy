/** A word memory of 128 KiB at 0x8000_0000 seen through byte addresses. */
module ByteAddresses {
  import opened ByteLanes

  const RAM_FIRST: nat := 0x8000_0000
  const RAM_END: nat := 0x8002_0000

  function WordByte(w: Word, k: nat): bv8
    requires k < 4
  {
    if k == 0 then w.b0 else if k == 1 then w.b1 else if k == 2 then w.b2 else w.b3
  }

  /** The byte at address a. */
  function MemByte(mem: seq<Word>, a: nat): bv8
    requires |mem| == 0x8000 && RAM_FIRST <= a < RAM_END
  {
    WordByte(mem[(a - RAM_FIRST) / 4], a % 4)
  }

  lemma FlattenLength(mem: seq<Word>)
    ensures |Flatten(mem)| == 4 * |mem|
  {
  }

  lemma FlattenByte(mem: seq<Word>, a: nat)
    requires |mem| == 0x8000 && RAM_FIRST <= a < RAM_END
    ensures |Flatten(mem)| == 0x2_0000 && Flatten(mem)[a - RAM_FIRST] == MemByte(mem, a)
  {
    assert (a - RAM_FIRST) % 4 == a % 4;
  }
}
