/** 32-bit interrupt words, one bit a line. */
module Words {

  type Line = i: bv32 | i < 32 witness 0

  const ALL: bv32 := 0xFFFF_FFFF

  predicate Bit(w: bv32, i: Line) { (w >> i) & 1 == 1 }
  function Mask(i: Line): bv32 { 1 << i }
  function Next(mask: bv32): bv32 { mask << 1 }
  predicate Meets(w: bv32, mask: bv32) { w & mask != 0 }
  function With(w: bv32, i: Line): bv32 { w | Mask(i) }
  function Without(w: bv32, i: Line): bv32 { w & !Mask(i) }

  /** The lines of higher priority, that is lower number, than `p`. */
  function Below(p: Line): bv32 { Mask(p) - 1 }

  lemma WithBit(w: bv32, i: Line, j: Line)
    ensures Bit(With(w, i), j) <==> Bit(w, j) || i == j
  {
  }

  lemma WithoutBit(w: bv32, i: Line, j: Line)
    ensures Bit(Without(w, i), j) <==> Bit(w, j) && i != j
  {
  }

  lemma BelowBit(p: Line, j: Line)
    ensures Bit(Below(p), j) <==> j < p
  {
  }

  lemma AndBit(a: bv32, b: bv32, j: Line)
    ensures Bit(a & b, j) <==> Bit(a, j) && Bit(b, j)
  {
  }

  /** The test `w & mask` of the scan. */
  lemma MaskTest(w: bv32, i: Line)
    ensures Meets(w, Mask(i)) <==> Bit(w, i)
  {
  }

  lemma BelowNonZero(p: Line)
    ensures Below(p) != 0 <==> p != 0
  {
  }

  /** Line `i` is the pending line of highest priority. */
  predicate IsLowest(w: bv32, i: Line) {
    Bit(w, i) && NoneBelow(w, i)
  }

  predicate NoneBelow(w: bv32, i: Line) { w & Below(i) == 0 }

  lemma LowestIsLowest(w: bv32, i: Line, j: Line)
    requires IsLowest(w, i) && Bit(w, j)
    ensures i <= j
  {
  }

  /** The inner loop of alt_irq_handler: it ends, within the word, exactly because `active` is not zero. */
  method FindLowest(active: bv32) returns (i: Line)
    requires active != 0
    ensures IsLowest(active, i)
  {
    hide Bit, Mask, Next, Meets, NoneBelow;
    i := 0;
    var mask: bv32 := 1;
    ScanStart(active);
    MaskTest(active, i);
    while !Meets(active, mask)
      invariant mask == Mask(i) && NoneBelow(active, i) && (Meets(active, mask) <==> Bit(active, i))
      decreases 31 - i
    {
      ScanStep(active, i);
      mask := Next(mask);
      i := i + 1;
      MaskTest(active, i);
    }
  }

  lemma ScanStart(active: bv32)
    ensures Mask(0) == 1 && NoneBelow(active, 0)
  {
  }

  lemma ScanStep(active: bv32, i: Line)
    requires active != 0 && NoneBelow(active, i) && !Bit(active, i)
    ensures i < 31 && Next(Mask(i)) == Mask(i + 1) && NoneBelow(active, i + 1)
  {
  }

  /** With no line pending the scan would never end: no shifted mask ever meets a bit. */
  lemma ScanNeedsPending(active: bv32)
    ensures active == 0 <==> forall i: Line :: !Bit(active, i)
  {
    if active != 0 {
      var i := SomeBit(active);
      assert Bit(active, i);
    }
  }

  lemma SomeBit(active: bv32) returns (i: Line)
    requires active != 0
    ensures Bit(active, i)
  {
    i := 0;
    while !Bit(active, i)
      invariant NoneBelow(active, i)
      decreases 31 - i
    {
      ScanStep(active, i);
      i := i + 1;
    }
  }
}
