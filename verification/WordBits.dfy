/** Bits of a 32-bit word, as the bitmap macros of the frame allocator use them. */
module WordBits {

  /** `1 << j` */
  function Mask(j: nat): bv32
    requires j < 32
  {
    (1 as bv32) << j
  }

  predicate Meets(w: bv32, m: bv32) { w & m != 0 }

  predicate Bit(w: bv32, j: nat)
    requires j < 32
  {
    Meets(w, Mask(j))
  }

  // Which bit that is

  function Half(w: bv32): bv32 { w / 2 }

  predicate Odd(w: bv32) { w % 2 == 1 }

  /** The word divided by two, `j` times. */
  function Halved(w: bv32, j: nat): bv32
    decreases j
  {
    if j == 0 then w else Halved(Half(w), j - 1)
  }

  lemma MeetsHalf(w: bv32, m: bv32)
    requires m <= 0x7FFF_FFFF
    ensures Meets(w, m + m) <==> Meets(Half(w), m)
  {
  }

  lemma MeetsOne(w: bv32)
    ensures Meets(w, 1) <==> Odd(w)
  {
  }

  lemma MaskTwice(j: nat)
    requires j < 31
    ensures Mask(j + 1) == Mask(j) + Mask(j) && Mask(j) <= 0x7FFF_FFFF
  {
  }

  lemma MaskZero()
    ensures Mask(0) == 1
  {
  }

  lemma NextBit(w: bv32, j: nat)
    requires 0 < j < 32
    ensures Bit(w, j) <==> Bit(Half(w), j - 1)
  {
    hide Mask, Half, Meets;
    MaskTwice(j - 1);
    MeetsHalf(w, Mask(j - 1));
  }

  lemma LowestBit(w: bv32)
    ensures Bit(w, 0) <==> Odd(w)
  {
    hide Mask, Odd, Meets;
    MaskZero();
    MeetsOne(w);
  }

  /** Bit `j` is the binary digit for 2^j of the word: what is left of it after `j` halvings is odd. */
  lemma {:induction false} BitIsDigit(w: bv32, j: nat)
    requires j < 32
    ensures Bit(w, j) <==> Halved(w, j) % 2 == 1
    decreases j
  {
    hide Bit, Half;
    if j == 0 {
      LowestBit(w);
    } else {
      NextBit(w, j);
      BitIsDigit(Half(w), j - 1);
    }
  }

  /** `w |= 1 << j` */
  function SetBit(w: bv32, j: nat): bv32
    requires j < 32
  {
    w | Mask(j)
  }

  /** `w &= ~(1 << j)` */
  function ClearBit(w: bv32, j: nat): bv32
    requires j < 32
  {
    w & !Mask(j)
  }

  function WriteWord(w: bv32, j: nat, value: bool): bv32
    requires j < 32
  {
    if value then SetBit(w, j) else ClearBit(w, j)
  }

  lemma MasksApart(j: nat, k: nat)
    requires j < 32 && k < 32
    ensures Mask(j) != 0
    ensures j != k ==> Mask(j) & Mask(k) == 0
  {
  }

  lemma OrThenAnd(w: bv32, m: bv32, k: bv32)
    requires m & k == 0
    ensures (w | m) & k == w & k
  {
  }

  lemma AndNotThenAnd(w: bv32, m: bv32, k: bv32)
    requires m & k == 0
    ensures (w & !m) & k == w & k
  {
  }

  lemma SetOther(w: bv32, j: nat, k: nat)
    requires j < 32 && k < 32 && j != k
    ensures Bit(SetBit(w, j), k) == Bit(w, k)
  {
    MasksApart(j, k);
    OrThenAnd(w, Mask(j), Mask(k));
  }

  lemma ClearOther(w: bv32, j: nat, k: nat)
    requires j < 32 && k < 32 && j != k
    ensures Bit(ClearBit(w, j), k) == Bit(w, k)
  {
    MasksApart(j, k);
    AndNotThenAnd(w, Mask(j), Mask(k));
  }

  lemma SetSame(w: bv32, j: nat)
    requires j < 32
    ensures Bit(SetBit(w, j), j)
  {
    MasksApart(j, j);
    assert (w | Mask(j)) & Mask(j) == Mask(j);
  }

  lemma ClearSame(w: bv32, j: nat)
    requires j < 32
    ensures !Bit(ClearBit(w, j), j)
  {
    assert (w & !Mask(j)) & Mask(j) == 0;
  }

  /** Setting or clearing bit `j` changes that bit and no other. */
  lemma WriteWordBit(w: bv32, j: nat, value: bool, k: nat)
    requires j < 32 && k < 32
    ensures Bit(WriteWord(w, j, value), k) == if k == j then value else Bit(w, k)
  {
    hide Bit, SetBit, ClearBit;
    if j == k {
      SetSame(w, j);
      ClearSame(w, j);
    } else {
      SetOther(w, j, k);
      ClearOther(w, j, k);
    }
  }

  lemma SomeBitClear(w: bv32)
    requires w != 0xFFFF_FFFF
    ensures !(&& Bit(w, 0) && Bit(w, 1) && Bit(w, 2) && Bit(w, 3) && Bit(w, 4) && Bit(w, 5) && Bit(w, 6) && Bit(w, 7)
              && Bit(w, 8) && Bit(w, 9) && Bit(w, 10) && Bit(w, 11) && Bit(w, 12) && Bit(w, 13) && Bit(w, 14)
              && Bit(w, 15) && Bit(w, 16) && Bit(w, 17) && Bit(w, 18) && Bit(w, 19) && Bit(w, 20) && Bit(w, 21)
              && Bit(w, 22) && Bit(w, 23) && Bit(w, 24) && Bit(w, 25) && Bit(w, 26) && Bit(w, 27) && Bit(w, 28)
              && Bit(w, 29) && Bit(w, 30) && Bit(w, 31))
  {
  }

  /** The all-ones test that lets the scan skip a word skips exactly the words without a clear bit. */
  lemma FullWord(w: bv32)
    ensures w == 0xFFFF_FFFF <==> forall k :: 0 <= k < 32 ==> Bit(w, k)
  {
    if w == 0xFFFF_FFFF {
      forall k | 0 <= k < 32
        ensures Bit(w, k)
      {
        MasksApart(k, k);
      }
    } else {
      SomeBitClear(w);
    }
  }
}
