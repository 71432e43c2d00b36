/** The page bitmap: 32-bit words, one bit a frame (paging.c). */
module Bitmap {
  type Shift = b: bv8 | b < 32

  /** `target | (1 << bit)` */
  function BitSet(target: bv32, bit: Shift): bv32 { target | (1 << bit) }

  /** `(target >> bit) & 1` */
  function BitTest(target: bv32, bit: Shift): bv32 { (target >> bit) & 1 }

  /** Setting a bit is seen by testing that bit and by no other test. */
  lemma SetOneBit(target: bv32, bit: Shift, other: Shift)
    ensures BitTest(BitSet(target, bit), other) == if bit == other then 1 else BitTest(target, other)
  {
  }

  lemma FullWord(bit: Shift)
    ensures BitTest(0xFFFF_FFFF, bit) == 1
  {
  }

  /** The shift count for a frame; the processor uses the low five bits of a count. */
  function BitOf(f: nat): Shift { (f % 32) as bv8 }

  lemma SmallDistinct(i: nat, j: nat)
    requires i < 32 && j < 32 && i != j
    ensures i as bv8 != j as bv8
  {
  }

  lemma BitOfDistinct(f: nat, g: nat)
    requires f / 32 == g / 32 && f != g
    ensures BitOf(f) != BitOf(g)
  {
    SmallDistinct(f % 32, g % 32);
  }

  predicate InUse(words: seq<bv32>, f: nat)
    requires f / 32 < |words|
  {
    BitTest(words[f / 32], BitOf(f)) == 1
  }

  /** The frames whose bit is set. */
  function Used(words: seq<bv32>): set<nat> {
    set f: nat | f < 32 * |words| && InUse(words, f)
  }

  /** Frame f has bit f % 32 of word f / 32. */
  lemma UsedMeans(words: seq<bv32>, f: nat)
    requires f / 32 < |words|
    ensures f in Used(words) <==> TestsBit(words[f / 32], (f % 32) as bv8)
  {
    TestMeans(words[f / 32], BitOf(f));
  }

  predicate TestsBit(target: bv32, bit: bv8)
    requires bit < 32
  {
    target & (1 << bit) != 0
  }

  lemma TestMeans(target: bv32, bit: bv8)
    requires bit < 32
    ensures BitTest(target, bit) == 1 <==> TestsBit(target, bit)
  {
  }

  /** Setting one bit adds exactly that frame. */
  lemma SetAdds(words: seq<bv32>, f: nat)
    requires f / 32 < |words|
    ensures Used(words[f / 32 := BitSet(words[f / 32], BitOf(f))]) == Used(words) + {f}
  {
    var words' := words[f / 32 := BitSet(words[f / 32], BitOf(f))];
    forall g: nat | g < 32 * |words| ensures InUse(words', g) <==> g == f || InUse(words, g) {
      if g / 32 == f / 32 {
        SetOneBit(words[f / 32], BitOf(f), BitOf(g));
        if g != f { BitOfDistinct(f, g); }
      }
    }
  }

  /** Skipping a full word skips no clear bit. */
  lemma FullWordUsed(words: seq<bv32>, w: nat)
    requires w < |words| && words[w] == 0xFFFF_FFFF
    ensures forall f :: 32 * w <= f < 32 * w + 32 ==> f in Used(words)
  {
    forall f | 32 * w <= f < 32 * w + 32 ensures f in Used(words) { FullWord(BitOf(f)); }
  }

  lemma OneOrZero(target: bv32, bit: Shift)
    ensures BitTest(target, bit) == 0 || BitTest(target, bit) == 1
  {
  }

  lemma BitInUsed(words: seq<bv32>, f: nat)
    requires f / 32 < |words|
    ensures f in Used(words) <==> BitTest(words[f / 32], BitOf(f)) != 0
  {
    OneOrZero(words[f / 32], BitOf(f));
  }
}
