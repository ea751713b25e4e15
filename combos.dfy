/**
 * nextComboPossible (grid.cpp): the step from one placement of n cells to
 * the next. A placement is a 64-bit word whose set bits are the chosen
 * cells; the step moves the highest set bit below the leading ones up by
 * one place and packs the leading ones right above it, or answers 0 once
 * the set bits are a block at the top of the word.
 */
module Combos {
  import opened Words

  /** (int64_t)0x8000000000000000: only the sign bit set. */
  function TopBit(): Word
  {
    seq(64, p => p == 63)
  }

  /** (uint64_t)3 */
  function Three(): Word
  {
    seq(64, p => p < 2)
  }

  /** The sign bit shifted arithmetically right by k: the top k + 1 bits set. */
  lemma SarTop(k: nat)
    requires k < 64
    ensures forall p :: 0 <= p < 64 ==> Sar(TopBit(), k)[p] == (63 - k <= p)
  {
  }

  /** The position of the highest set bit: 63 - __builtin_clzll(a). */
  function High(a: Word): (h: nat)
    requires a != ZERO
    ensures h < 64 && a[h] && forall q :: h < q < 64 ==> !a[q]
  {
    63 - Clz(a)
  }

  /** The number of leading ones: __builtin_clzll(~a), undefined when a is all ones. */
  function LeadingOnes(a: Word): (lo: nat)
    requires a != ONES
    ensures lo < 64 && !a[63 - lo] && forall q :: 63 - lo < q < 64 ==> a[q]
  {
    assert Not(a) != ZERO by {
      var p :| 0 <= p < 64 && a[p] != ONES[p];
      assert Not(a)[p] != ZERO[p];
    }
    var n := Clz(Not(a));
    assert !a[63 - n] by {
      assert Not(a)[63 - n];
    }
    assert forall q :: 63 - n < q < 64 ==> a[q] by {
      forall q | 63 - n < q < 64
        ensures a[q]
      {
        assert !Not(a)[q];
      }
    }
    n
  }

  /**
   * nextComboPossible(combo). The cases the C code leaves undefined are
   * excluded: __builtin_clzll(~combo) for combo all ones, and
   * __builtin_clzll(combo) for combo zero.
   */
  function NextCombo(combo: Word): (r: Word)
    requires combo != ZERO && combo != ONES
  {
    var lo := LeadingOnes(combo);
    if lo != 0 then
      SarTop(lo - 1);
      var mask := Sar(TopBit(), lo - 1);
      var advance := And(combo, Not(mask));
      if advance == ZERO then ZERO
      else
        var alz := Clz(advance);
        assert alz > lo by {
          assert advance[63 - alz];
        }
        var advanceMask := Sar(TopBit(), lo + 1);
        Xor(advance, Shr(advanceMask, alz - lo - 1))
    else
      var idx := High(combo);
      Xor(combo, Shl(Three(), idx))
  }

  /** The set bits of a form one block that ends at bit 63: every bit above a set bit is set. */
  predicate TopBlock(a: Word)
  {
    forall p, q :: 0 <= p <= q < 64 && a[p] ==> a[q]
  }

  // ---------------------------------------------------------------------
  // What one step does to the bits

  /** With bit 63 clear, the step moves the highest set bit h up to h + 1. */
  lemma AdvanceBits(c: Word)
    requires c != ZERO && c != ONES && !c[63]
    ensures High(c) < 63
    ensures forall p :: 0 <= p < 64 ==>
      NextCombo(c)[p] == (if p == High(c) then false else if p == High(c) + 1 then true else c[p])
  {
    assert LeadingOnes(c) == 0;
  }

  /** combo & ~leading_ones_mask: the word without its leading ones. */
  function Advance(c: Word): (a: Word)
    requires c != ONES && c[63]
    ensures forall q :: 0 <= q < 64 ==> a[q] == (q < 63 - LeadingOnes(c) && c[q])
  {
    SarTop(LeadingOnes(c) - 1);
    And(c, Not(Sar(TopBit(), LeadingOnes(c) - 1)))
  }

  /** advance_mask >> (alz - lo - 1), advance_mask being Sar(TopBit(), lo + 1): lo + 2 bits set from bit 63 - alz. */
  function Packed(lo: nat, alz: nat): (m: Word)
    requires lo < alz < 64
    ensures forall q :: 0 <= q < 64 ==> m[q] == (63 - alz <= q < 65 - alz + lo)
  {
    SarTop(lo + 1);
    Shr(Sar(TopBit(), lo + 1), alz - lo - 1)
  }

  /** With bit 63 set and some set bit below the leading ones, the step is advance ^ (the shifted advance mask). */
  lemma ResetXor(c: Word)
    requires c != ONES && c[63] && Advance(c) != ZERO
    ensures LeadingOnes(c) < Clz(Advance(c))
    ensures NextCombo(c) == Xor(Advance(c), Packed(LeadingOnes(c), Clz(Advance(c))))
  {
  }

  /**
   * With bit 63 set and some set bit below the lo leading ones, the
   * highest such bit h moves to h + 1 and the leading ones are packed
   * right above it, at h + 2 to h + lo + 1; below h nothing changes.
   */
  lemma ResetBits(c: Word)
    requires c != ONES && c[63] && Advance(c) != ZERO
    ensures High(Advance(c)) < 63 - LeadingOnes(c)
    ensures forall p :: 0 <= p < 64 ==>
      NextCombo(c)[p] == if p < High(Advance(c)) then c[p] else High(Advance(c)) < p <= High(Advance(c)) + LeadingOnes(c) + 1
  {
    ResetXor(c);
  }

  /** With bit 63 set, the step answers 0 exactly when no set bit lies below the leading ones. */
  lemma LastBits(c: Word)
    requires c != ONES && c[63]
    ensures NextCombo(c) == ZERO <==> Advance(c) == ZERO
  {
    if Advance(c) != ZERO {
      ResetBits(c);
      assert NextCombo(c)[High(Advance(c)) + 1];
    }
  }

  // ---------------------------------------------------------------------
  // Properties of the step

  /** The step answers 0 exactly when the set bits are already a block at the top. */
  lemma NextComboZero(c: Word)
    requires c != ZERO && c != ONES
    ensures NextCombo(c) == ZERO <==> TopBlock(c)
  {
    if !c[63] {
      LowNotLast(c);
    } else {
      LastBits(c);
      if Advance(c) == ZERO {
        LastBlock(c);
      } else {
        var h := High(Advance(c));
        assert c[h] && !c[63 - LeadingOnes(c)];
      }
    }
  }

  /** With bit 63 clear the step never answers 0, and the word is no block at the top. */
  lemma LowNotLast(c: Word)
    requires c != ZERO && c != ONES && !c[63]
    ensures NextCombo(c) != ZERO && !TopBlock(c)
  {
    AdvanceBits(c);
    assert NextCombo(c)[High(c) + 1] != ZERO[High(c) + 1];
    assert c[High(c)] && !c[63];
  }

  /** With no set bit below the leading ones, the set bits are a block at the top. */
  lemma LastBlock(c: Word)
    requires c != ONES && c[63] && Advance(c) == ZERO
    ensures TopBlock(c)
  {
    forall p, q | 0 <= p <= q < 64 && c[p]
      ensures c[q]
    {
      assert !Advance(c)[p];
    }
  }

  /** Unless it answers 0, the step keeps the number of set bits. */
  lemma NextComboPop(c: Word)
    requires c != ZERO && c != ONES && NextCombo(c) != ZERO
    ensures Pop(NextCombo(c)) == Pop(c)
  {
    if !c[63] {
      AdvanceBits(c);
      var h, r := High(c), NextCombo(c);
      var s := Ones(c) - {h};
      assert Ones(c) == s + {h};
      assert Ones(r) == s + {h + 1};
    } else {
      LastBits(c);
      ResetPop(c);
    }
  }

  /** A step with bit 63 set that does not answer 0 keeps the number of set bits. */
  lemma ResetPop(c: Word)
    requires c != ONES && c[63] && Advance(c) != ZERO
    ensures Pop(NextCombo(c)) == Pop(c)
  {
    ResetCountBefore(c);
    ResetCountAfter(c);
    CountIsPop(c);
    CountIsPop(NextCombo(c));
  }

  /**
   * Before such a step the word is the bits below h, the set bit h, clear
   * bits, then the lo leading ones.
   */
  lemma ResetCountBefore(c: Word)
    requires c != ONES && c[63] && Advance(c) != ZERO
    ensures High(Advance(c)) < 64
    ensures Count(c) == Count(c[..High(Advance(c))]) + 1 + LeadingOnes(c)
  {
    var lo, h := LeadingOnes(c), High(Advance(c));
    AdvanceGap(c);
    CountRuns(c, h, true, 63 - lo - h, false, lo, true);
  }

  /** Between the highest set bit h below the leading ones and the leading ones, all bits are clear. */
  lemma AdvanceGap(c: Word)
    requires c != ONES && c[63] && Advance(c) != ZERO
    ensures High(Advance(c)) < 63 - LeadingOnes(c) && c[High(Advance(c))]
    ensures forall p :: High(Advance(c)) < p < 63 - LeadingOnes(c) ==> !c[p]
  {
    var h := High(Advance(c));
    assert Advance(c)[h];
    forall p | h < p < 63 - LeadingOnes(c)
      ensures !c[p]
    {
      assert !Advance(c)[p];
    }
  }

  /**
   * After such a step the word is the same bits below h, the clear bit h,
   * lo + 1 set bits, then clear bits.
   */
  lemma ResetCountAfter(c: Word)
    requires c != ONES && c[63] && Advance(c) != ZERO
    ensures High(Advance(c)) < 64
    ensures Count(NextCombo(c)) == Count(c[..High(Advance(c))]) + LeadingOnes(c) + 1
  {
    var lo, h := LeadingOnes(c), High(Advance(c));
    ResetBits(c);
    var r := NextCombo(c);
    assert r[..h] == c[..h];
    CountRuns(r, h, false, lo + 1, true, 62 - h - lo, false);
  }

  /** The set bits of a word made of a prefix, one bit b at h, then k1 bits b1 and k2 bits b2. */
  lemma CountRuns(w: seq<bool>, h: nat, b: bool, k1: nat, b1: bool, k2: nat, b2: bool)
    requires |w| == h + 1 + k1 + k2 && w[h] == b
    requires forall p :: h < p <= h + k1 ==> w[p] == b1
    requires forall p :: h + k1 < p < |w| ==> w[p] == b2
    ensures Count(w) == Count(w[..h]) + (if b then 1 else 0) + (if b1 then k1 else 0) + (if b2 then k2 else 0)
  {
    var low, r1, r2 := w[..h], Run(k1, b1), Run(k2, b2);
    assert w == low + [b] + r1 + r2;
    CountAppend(low + [b] + r1, r2);
    CountAppend(low + [b], r1);
    CountAppend(low, [b]);
    CountFill(k1, b1);
    CountFill(k2, b2);
  }

  /** The step never sets a bit below the lowest set bit: a word with bits 0 to k - 1 clear stays so. */
  lemma NextComboAbove(c: Word, k: nat)
    requires c != ZERO && c != ONES
    requires forall q :: 0 <= q < k && q < 64 ==> !c[q]
    ensures forall q :: 0 <= q < k && q < 64 ==> !NextCombo(c)[q]
  {
    if !c[63] {
      AdvanceBits(c);
    } else {
      LastBits(c);
      if Advance(c) != ZERO {
        ResetBits(c);
        assert c[High(Advance(c))];
      }
    }
  }

  /**
   * With bit 63 clear, the step moves the highest set bit one place up and
   * adds 2^h for that bit h, so the word grows.
   */
  lemma NextComboUp(c: Word)
    requires c != ZERO && c != ONES && !c[63]
    ensures NextCombo(c) != ZERO && High(NextCombo(c)) == High(c) + 1
    ensures Val(NextCombo(c)) == Val(c) + Pow2(High(c)) && Val(NextCombo(c)) > Val(c)
  {
    AdvanceBits(c);
    var h, r := High(c), NextCombo(c);
    assert r[h + 1] != ZERO[h + 1];
    var m := c[h := false][h + 1 := true];
    ValSetBit(c[h := false], m, h + 1);
    ValSetBit(c[h := false], c, h);
    assert r == m;
  }

  // ---------------------------------------------------------------------
  // The placements main walks through

  /** main keeps its placements in the top L * L = 16 bits: bits 0 to 47 are clear. */
  predicate InWindow(c: Word)
  {
    forall q :: 0 <= q < 48 ==> !c[q]
  }

  /**
   * main's first placement of i cells, ((1 << i) - 1) << (64 - L*L): its
   * set bits are 48 to 48 + i - 1. For 2 <= i < 16 the int expression
   * (1 << i) - 1 does not overflow.
   */
  function FirstCombo(i: nat): (c: Word)
    requires i <= 16
    ensures InWindow(c) && forall q :: 48 <= q < 64 ==> c[q] == (q < 48 + i)
  {
    Shl(LowBits(i), 64 - 16)
  }

  /** main's first placement of i cells has i set bits. */
  lemma FirstComboPop(i: nat)
    requires i <= 16
    ensures Pop(FirstCombo(i)) == i
  {
    var c := FirstCombo(i);
    assert c == Run(48, false) + Run(i, true) + Run(16 - i, false);
    CountAppend(Run(48, false) + Run(i, true), Run(16 - i, false));
    CountAppend(Run(48, false), Run(i, true));
    CountFill(48, false);
    CountFill(i, true);
    CountFill(16 - i, false);
    CountIsPop(c);
  }

  /** Inside the window the set bits of the placement are those of its top 16 bits. */
  lemma WindowCount(c: Word)
    requires InWindow(c)
    ensures Count(c[48..]) == Pop(c)
  {
    assert c == Run(48, false) + c[48..];
    CountAppend(Run(48, false), c[48..]);
    CountFill(48, false);
    CountIsPop(c);
  }

  /**
   * What main's loop keeps: a placement in the window, with bit 0 clear,
   * is a valid argument of the step, and a step that does not answer 0
   * stays in the window and keeps the number of cells.
   */
  lemma NextInWindow(c: Word)
    requires c != ZERO && InWindow(c)
    ensures c != ONES
    ensures NextCombo(c) != ZERO ==> InWindow(NextCombo(c)) && Pop(NextCombo(c)) == Pop(c)
  {
    assert c[0] != ONES[0];
    NextComboAbove(c, 48);
    if NextCombo(c) != ZERO {
      NextComboPop(c);
    }
  }
}
