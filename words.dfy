/**
 * 64-bit machine words and the operations on them that grid.cpp uses:
 * the C bitwise operators and shifts, unsigned comparison, population
 * count, and the x86 intrinsics _pext_u64, _pdep_u64 and
 * __builtin_clzll.
 *
 * A word is the sequence of its 64 bits, bit 0 (the least significant)
 * first, so that bit i of a word w is w[i].
 */
module Words {

  type Word = s: seq<bool> | |s| == 64 witness seq(64, i => false)

  /** The word with every bit equal to b. */
  function Fill(b: bool): (w: Word)
    ensures forall i :: 0 <= i < 64 ==> w[i] == b
  {
    seq(64, i => b)
  }

  /** 0 */
  const ZERO: Word := Fill(false)

  /** 0xffffffffffffffff */
  const ONES: Word := Fill(true)

  /** ~a */
  function Not(a: Word): Word
  {
    seq(64, i requires 0 <= i < 64 => !a[i])
  }

  /** a & b */
  function And(a: Word, b: Word): Word
  {
    seq(64, i requires 0 <= i < 64 => a[i] && b[i])
  }

  /** a | b */
  function Or(a: Word, b: Word): Word
  {
    seq(64, i requires 0 <= i < 64 => a[i] || b[i])
  }

  /** a ^ b */
  function Xor(a: Word, b: Word): Word
  {
    seq(64, i requires 0 <= i < 64 => a[i] != b[i])
  }

  /** a << k on uint64_t; C leaves shifts by 64 or more undefined. */
  function Shl(a: Word, k: nat): Word
    requires k < 64
  {
    seq(64, i requires 0 <= i < 64 => k <= i && a[i - k])
  }

  /** (1 << k) - 1: the low k bits set. */
  function LowBits(k: nat): Word
  {
    seq(64, p => p < k)
  }

  /** a >> k on uint64_t (a logical shift). */
  function Shr(a: Word, k: nat): Word
    requires k < 64
  {
    seq(64, i requires 0 <= i < 64 => i + k < 64 && a[i + k])
  }

  /** a >> k on int64_t: an arithmetic shift, which copies the sign bit 63. */
  function Sar(a: Word, k: nat): Word
    requires k < 64
  {
    seq(64, i requires 0 <= i < 64 => if i + k < 64 then a[i + k] else a[63])
  }

  // ---------------------------------------------------------------------
  // Numeric value and unsigned order

  /** The unsigned value of a bit sequence, least significant bit first. */
  function Val(s: seq<bool>): nat
  {
    if |s| == 0 then 0 else (if s[0] then 1 else 0) + 2 * Val(s[1..])
  }

  function Pow2(k: nat): (p: nat)
    ensures p > 0
  {
    if k == 0 then 1 else 2 * Pow2(k - 1)
  }

  /** Two sequences of the same length with the same value are equal. */
  lemma {:induction false} ValInjective(a: seq<bool>, b: seq<bool>)
    requires |a| == |b| && Val(a) == Val(b)
    ensures a == b
  {
    if |a| != 0 {
      ValInjective(a[1..], b[1..]);
      assert a == [a[0]] + a[1..];
      assert b == [b[0]] + b[1..];
    }
  }

  /** Setting the clear bit h adds 2^h to the value. */
  lemma {:induction false} ValSetBit(a: seq<bool>, b: seq<bool>, h: nat)
    requires |a| == |b| && h < |a| && !a[h] && b[h]
    requires forall p :: 0 <= p < |a| && p != h ==> a[p] == b[p]
    ensures Val(b) == Val(a) + Pow2(h)
  {
    if h == 0 {
      assert a[1..] == b[1..];
    } else {
      ValSetBit(a[1..], b[1..], h - 1);
    }
  }

  /** A sequence whose bits from k upward are clear has value below 2^k. */
  lemma {:induction false} ValBelow(s: seq<bool>, k: nat)
    requires k <= |s| && forall i :: k <= i < |s| ==> !s[i]
    ensures Val(s) < Pow2(k)
  {
    if |s| != 0 {
      if k == 0 {
        ValZero(s);
      } else {
        ValBelow(s[1..], k - 1);
      }
    }
  }

  lemma {:induction false} ValZero(s: seq<bool>)
    requires forall i :: 0 <= i < |s| ==> !s[i]
    ensures Val(s) == 0
  {
    if |s| != 0 {
      ValZero(s[1..]);
    }
  }

  /** A word is zero exactly when its unsigned value is. */
  lemma ValZeroIff(w: Word)
    ensures Val(w) == 0 <==> w == ZERO
  {
    ValZero(ZERO);
    if Val(w) == 0 {
      ValInjective(w, ZERO);
    }
  }

  /** The bits of t count from position |s| upward in s + t. */
  lemma {:induction false} ValAppend(s: seq<bool>, t: seq<bool>)
    ensures Val(s + t) == Val(s) + Pow2(|s|) * Val(t)
  {
    if |s| == 0 {
      assert s + t == t;
    } else {
      ValAppend(s[1..], t);
      assert (s + t)[1..] == s[1..] + t;
      var b, v, p := if s[0] then 1 else 0, Val(t), Pow2(|s| - 1);
      assert Val(s + t) == b + 2 * (Val(s[1..]) + p * v);
      Twice(p, v);
    }
  }

  lemma Twice(p: int, v: int)
    ensures (2 * p) * v == 2 * (p * v)
  {
  }

  lemma {:induction false} Pow2Add(a: nat, b: nat)
    ensures Pow2(a + b) == Pow2(a) * Pow2(b)
  {
    if a != 0 {
      Pow2Add(a - 1, b);
    }
  }

  /** k set bits are worth 2^k - 1, k clear bits nothing. */
  lemma {:induction false} ValRun(k: nat, b: bool)
    ensures Val(Run(k, b)) == if b then Pow2(k) - 1 else 0
  {
    if k != 0 {
      ValRun(k - 1, b);
      assert Run(k, b)[1..] == Run(k - 1, b);
    }
  }

  /** n = r + d * q with 0 <= r < d fixes the quotient and remainder of n by d. */
  lemma DivUnique(n: int, d: int, q: int, r: int)
    requires d > 0 && 0 <= r < d && n == r + d * q
    ensures n / d == q && n % d == r
  {
    var q', r' := n / d, n % d;
    assert r + d * q == r' + d * q';
    assert d * (q - q') == r' - r;
    if q > q' {
      MulAtLeast(d, q - q');
      assert false;
    } else if q < q' {
      MulAtLeast(d, q' - q);
      assert false;
    }
  }

  lemma MulAtLeast(d: int, t: int)
    requires d > 0 && t >= 1
    ensures d * t >= d
  {
  }

  // ---------------------------------------------------------------------
  // The shifts as arithmetic

  /** The value of (1 << k) - 1, the low k bits set. */
  lemma LowBitsVal(k: nat)
    requires k <= 64
    ensures Val(LowBits(k)) == Pow2(k) - 1
  {
    assert LowBits(k) == Run(k, true) + Run(64 - k, false);
    ValAppend(Run(k, true), Run(64 - k, false));
    ValRun(k, true);
    ValRun(64 - k, false);
  }

  /** a >> k on uint64_t divides the value of a by 2^k. */
  lemma ShrVal(a: Word, k: nat)
    requires k < 64
    ensures Val(Shr(a, k)) == Val(a) / Pow2(k)
  {
    var lo, hi := a[..k], a[k..];
    assert a == lo + hi;
    ValAppend(lo, hi);
    assert |lo| == k;
    ValBelow(lo, k);
    assert Shr(a, k) == hi + Run(k, false);
    ValAppend(hi, Run(k, false));
    ValRun(k, false);
    assert Val(a) == Val(lo) + Pow2(k) * Val(hi);
    DivUnique(Val(a), Pow2(k), Val(hi), Val(lo));
  }

  /** a << k on uint64_t multiplies the value of a by 2^k, modulo 2^64. */
  lemma ShlVal(a: Word, k: nat)
    requires k < 64
    ensures Val(Shl(a, k)) == Val(a) * Pow2(k) % Pow2(64)
  {
    var lo, hi := a[..64 - k], a[64 - k..];
    assert a == lo + hi;
    ValAppend(lo, hi);
    ValBelow(lo, 64 - k);
    assert Shl(a, k) == Run(k, false) + lo;
    ValAppend(Run(k, false), lo);
    ValRun(k, false);
    Pow2Add(k, 64 - k);
    ShlArith(Val(a), Val(lo), Val(hi), Pow2(k), Pow2(64 - k));
  }

  lemma ShlArith(v: int, lo: int, hi: int, pk: int, pl: int)
    requires pk > 0 && 0 <= lo < pl && v == lo + pl * hi
    ensures v * pk % (pk * pl) == pk * lo
  {
    assert v * pk == pk * lo + (pk * pl) * hi;
    assert pk * lo < pk * pl by {
      assert pk * (pl - lo) > 0;
    }
    DivUnique(v * pk, pk * pl, hi, pk * lo);
  }

  /** The value of a word read as int64_t, in two's complement. */
  function Signed(a: Word): int
  {
    Val(a) - (if a[63] then Pow2(64) else 0)
  }

  /** a >> k on int64_t divides the signed value of a by 2^k, rounding down. */
  lemma SarVal(a: Word, k: nat)
    requires k < 64
    ensures Signed(Sar(a, k)) == Signed(a) / Pow2(k)
  {
    var lo, hi := a[..k], a[k..];
    assert a == lo + hi;
    ValAppend(lo, hi);
    ValBelow(lo, k);
    SarSplit(a, k);
    ValAppend(hi, Run(k, a[63]));
    ValRun(k, a[63]);
    Pow2Add(64 - k, k);
    assert |lo| == k && Val(a) == Val(lo) + Pow2(k) * Val(hi);
    SarArith(Val(lo), Val(hi), Val(Sar(a, k)), Pow2(k), Pow2(64 - k), a[63], Signed(a), Signed(Sar(a, k)));
  }

  lemma SarSplit(a: Word, k: nat)
    requires k < 64
    ensures Sar(a, k) == a[k..] + Run(k, a[63]) && Sar(a, k)[63] == a[63]
  {
    var r := a[k..] + Run(k, a[63]);
    forall i | 0 <= i < 64
      ensures Sar(a, k)[i] == r[i]
    {
      if i < 64 - k {
        assert r[i] == a[i + k];
      } else {
        assert r[i] == a[63];
      }
    }
  }

  lemma SarArith(lo: int, hi: int, sar: int, pk: int, ph: int, neg: bool, sa: int, ss: int)
    requires pk > 0 && 0 <= lo < pk
    requires sar == hi + ph * (if neg then pk - 1 else 0)
    requires sa == lo + pk * hi - (if neg then ph * pk else 0)
    requires ss == sar - (if neg then ph * pk else 0)
    ensures ss == sa / pk
  {
    var q := hi - (if neg then ph else 0);
    assert sar - (if neg then ph * pk else 0) == q;
    assert lo + pk * hi - (if neg then ph * pk else 0) == lo + pk * q;
    DivUnique(lo + pk * hi - (if neg then ph * pk else 0), pk, q, lo);
  }

  // ---------------------------------------------------------------------
  // Population count

  /** The positions of the set bits of a. */
  function Ones(a: Word): set<int>
  {
    set i | 0 <= i < 64 && a[i]
  }

  /** Number of set bits. */
  function Pop(a: Word): nat
  {
    |Ones(a)|
  }

  /** The elements of s below n. */
  function Below(s: set<int>, n: int): set<int>
  {
    set p | p in s && p < n
  }

  /** The image under f of the elements of s below n. */
  function ImageBelow(s: set<int>, f: int -> int, n: int): set<int>
  {
    set p | p in s && p < n :: f(p)
  }

  lemma BelowStep(s: set<int>, n: int)
    ensures n in s ==> Below(s, n + 1) == Below(s, n) + {n}
    ensures n !in s ==> Below(s, n + 1) == Below(s, n)
  {
  }

  lemma ImageBelowStep(s: set<int>, f: int -> int, n: int)
    ensures n in s ==> ImageBelow(s, f, n + 1) == ImageBelow(s, f, n) + {f(n)}
    ensures n !in s ==> ImageBelow(s, f, n + 1) == ImageBelow(s, f, n)
  {
    var a := ImageBelow(s, f, n + 1);
    var b := ImageBelow(s, f, n) + (if n in s then {f(n)} else {});
    forall y | y in a ensures y in b {
      var p :| p in s && p < n + 1 && f(p) == y;
      if p < n {
        assert p in s && p < n;
      }
    }
    forall y | y in b ensures y in a {
      if y in ImageBelow(s, f, n) {
        var p :| p in s && p < n && f(p) == y;
        assert p in s && p < n + 1;
      } else {
        assert n in s && n < n + 1;
      }
    }
    assert a == b;
  }

  /** f takes distinct elements of s to distinct values. */
  predicate InjectiveOn(s: set<int>, f: int -> int)
  {
    forall p, q :: p in s && q in s && f(p) == f(q) ==> p == q
  }

  lemma ImageBelowFresh(s: set<int>, f: int -> int, n: int)
    requires InjectiveOn(s, f)
    requires n in s
    ensures f(n) !in ImageBelow(s, f, n)
  {
    forall y | y in ImageBelow(s, f, n)
      ensures y != f(n)
    {
      var p :| p in s && p < n && f(p) == y;
      assert p != n;
    }
  }

  lemma BelowNone(s: set<int>, f: int -> int, n: int)
    requires n <= 0
    requires forall p :: p in s ==> 0 <= p
    ensures Below(s, n) == {} && ImageBelow(s, f, n) == {}
  {
    forall p | p in s ensures !(p < n) { }
  }

  lemma BelowCardStep(s: set<int>, n: int)
    ensures |Below(s, n + 1)| == |Below(s, n)| + (if n in s then 1 else 0)
  {
    BelowStep(s, n);
  }

  lemma ImageBelowCardStep(s: set<int>, f: int -> int, n: int)
    requires InjectiveOn(s, f)
    ensures |ImageBelow(s, f, n + 1)| == |ImageBelow(s, f, n)| + (if n in s then 1 else 0)
  {
    ImageBelowStep(s, f, n);
    if n in s {
      ImageBelowFresh(s, f, n);
    }
  }

  /** An injective image of the part of s below n has as many elements. */
  lemma {:induction false} CardImageBelow(s: set<int>, f: int -> int, n: int)
    requires InjectiveOn(s, f)
    requires forall p :: p in s ==> 0 <= p
    ensures |ImageBelow(s, f, n)| == |Below(s, n)|
    decreases n
  {
    if n <= 0 {
      BelowNone(s, f, n);
    } else {
      CardImageBelow(s, f, n - 1);
      BelowCardStep(s, n - 1);
      ImageBelowCardStep(s, f, n - 1);
    }
  }

  /**
   * If f and g are inverse bijections between the set bits of x and the
   * set bits of y, then x and y have as many set bits.
   */
  lemma PopBijection(x: Word, y: Word, f: int -> int, g: int -> int)
    requires forall p :: 0 <= p < 64 && x[p] ==> 0 <= f(p) < 64 && y[f(p)] && g(f(p)) == p
    requires forall q :: 0 <= q < 64 && y[q] ==> 0 <= g(q) < 64 && x[g(q)] && f(g(q)) == q
    ensures Pop(y) == Pop(x)
  {
    var img := ImageBelow(Ones(x), f, 64);
    assert InjectiveOn(Ones(x), f) by {
      forall p, q | p in Ones(x) && q in Ones(x) && f(p) == f(q)
        ensures p == q
      {
        assert g(f(p)) == p && g(f(q)) == q;
      }
    }
    CardImageBelow(Ones(x), f, 64);
    assert Below(Ones(x), 64) == Ones(x);
    forall q | q in Ones(y)
      ensures q in img
    {
      assert g(q) in Ones(x);
    }
    assert Ones(y) == img;
  }

  /** Only the zero word has no set bit. */
  lemma PopZero(x: Word)
    ensures Pop(x) == 0 <==> x == ZERO
  {
    if x != ZERO {
      var p :| 0 <= p < 64 && x[p] != ZERO[p];
      assert p in Ones(x);
    } else {
      assert Ones(x) == {};
    }
  }

  /** A right shift that drops only clear bits keeps the number of set bits. */
  lemma PopShr(x: Word, k: nat)
    requires k < 64 && forall q :: 0 <= q < k ==> !x[q]
    ensures Pop(Shr(x, k)) == Pop(x)
  {
    var f := (q: int) => q - k;
    var g := (p: int) => p + k;
    PopBijection(x, Shr(x, k), f, g);
  }

  // ---------------------------------------------------------------------
  // Bit extract and deposit

  /** Number of set bits of a bit sequence. */
  function Count(s: seq<bool>): (n: nat)
    ensures n <= |s|
  {
    if |s| == 0 then 0 else (if s[0] then 1 else 0) + Count(s[1..])
  }

  /** Counting one more bit of a prefix. */
  lemma {:induction false} CountSnoc(s: seq<bool>, k: nat)
    requires k < |s|
    ensures Count(s[..k + 1]) == Count(s[..k]) + (if s[k] then 1 else 0)
    decreases k
  {
    if k == 0 {
      assert s[..1][1..] == [];
    } else {
      CountSnoc(s[1..], k - 1);
      assert s[..k + 1][1..] == s[1..][..k];
      assert s[..k][1..] == s[1..][..k - 1];
    }
  }

  /** A count f of the set bits below each position, built up bit by bit, is the count of the prefix. */
  lemma {:induction false} CountByPrefix(m: seq<bool>, f: int -> int, p: nat)
    requires p <= |m| && f(0) == 0
    requires forall q :: 0 <= q < |m| ==> f(q + 1) == f(q) + (if m[q] then 1 else 0)
    ensures Count(m[..p]) == f(p)
  {
    if p != 0 {
      CountByPrefix(m, f, p - 1);
      CountSnoc(m, p - 1);
    }
  }

  /** The set positions of a sequence from k on. */
  function OnesFrom(s: seq<bool>, k: nat): set<int>
  {
    set i | k <= i < |s| && s[i]
  }

  lemma OnesFromStep(s: seq<bool>, k: nat)
    requires k < |s|
    ensures |OnesFrom(s, k)| == (if s[k] then 1 else 0) + |OnesFrom(s, k + 1)|
  {
    if s[k] {
      assert OnesFrom(s, k) == OnesFrom(s, k + 1) + {k};
    } else {
      assert OnesFrom(s, k) == OnesFrom(s, k + 1);
    }
  }

  lemma {:induction false} CountOnesFrom(s: seq<bool>, k: nat)
    requires k <= |s|
    ensures Count(s[k..]) == |OnesFrom(s, k)|
    decreases |s| - k
  {
    if k == |s| {
      assert OnesFrom(s, k) == {};
    } else {
      CountOnesFrom(s, k + 1);
      OnesFromStep(s, k);
      assert s[k..][1..] == s[k + 1..];
    }
  }

  /** Count is the population count. */
  lemma CountIsPop(a: Word)
    ensures Count(a) == Pop(a)
  {
    CountOnesFrom(a, 0);
    assert a[0..] == a;
    assert OnesFrom(a, 0) == Ones(a);
  }

  /** Counting the set bits of two sequences one after the other. */
  lemma {:induction false} CountAppend(s: seq<bool>, t: seq<bool>)
    ensures Count(s + t) == Count(s) + Count(t)
  {
    if |s| != 0 {
      CountAppend(s[1..], t);
      assert (s + t)[1..] == s[1..] + t;
    } else {
      assert s + t == t;
    }
  }

  /** A run of k equal bits. */
  function Run(k: nat, b: bool): (r: seq<bool>)
    ensures |r| == k && forall i :: 0 <= i < k ==> r[i] == b
  {
    seq(k, i => b)
  }

  /** k equal bits hold k set bits when they are set and none otherwise. */
  lemma {:induction false} CountFill(k: nat, b: bool)
    ensures Count(Run(k, b)) == if b then k else 0
  {
    if k != 0 {
      CountFill(k - 1, b);
      assert Run(k, b)[1..] == Run(k - 1, b);
    }
  }

  /** The bits of x at the set positions of m, lowest position first. */
  function PextSeq(x: seq<bool>, m: seq<bool>): (r: seq<bool>)
    requires |x| == |m|
    ensures |r| == Count(m)
  {
    if |m| == 0 then [] else (if m[0] then [x[0]] else []) + PextSeq(x[1..], m[1..])
  }

  /**
   * _pext_u64(x, m): the bits of x at the set positions of m, packed into
   * the low bits of the result in order; the remaining bits are clear.
   */
  function Pext(x: Word, m: Word): Word
  {
    var s := PextSeq(x, m);
    s + seq(64 - |s|, i => false)
  }

  /** The bit of x at a set position p of m lands at the number of set positions of m below p. */
  lemma {:induction false} PextIndex(x: seq<bool>, m: seq<bool>, p: nat)
    requires |x| == |m| && p < |m| && m[p]
    ensures Count(m[..p]) < Count(m) && PextSeq(x, m)[Count(m[..p])] == x[p]
    decreases p
  {
    if p == 0 {
      assert m[..0] == [];
    } else {
      assert m[..p][1..] == m[1..][..p - 1];
      PextIndex(x[1..], m[1..], p - 1);
    }
  }

  /**
   * _pext_u64(x, m) as the intrinsic is documented: bit j of the result,
   * for j below the number of set bits of m, is the bit of x at the j-th
   * set position of m, counted from the lowest; the bits above are clear.
   */
  lemma PextBits(x: Word, m: Word)
    ensures forall p :: 0 <= p < 64 && m[p] ==> Pext(x, m)[Count(m[..p])] == x[p]
    ensures forall j :: Count(m) <= j < 64 ==> !Pext(x, m)[j]
  {
    forall p | 0 <= p < 64 && m[p]
      ensures Pext(x, m)[Count(m[..p])] == x[p]
    {
      PextIndex(x, m, p);
    }
  }

  /**
   * _pdep_u64(s, m) as the intrinsic is documented: bit p of the result
   * is clear off the mask, and at a set position p of m it is the bit of s
   * numbered by the set positions of m below p.
   */
  lemma PdepBits(s: Word, m: Word)
    ensures forall p :: 0 <= p < 64 ==> Pdep(s, m)[p] == (m[p] && s[Count(m[..p])])
  {
    forall p | 0 <= p < 64
      ensures Pdep(s, m)[p] == (m[p] && s[Count(m[..p])])
    {
      PdepIndex(s, m, p);
    }
  }

  /** A mask with no set bit extracts nothing. */
  lemma {:induction false} PextNone(x: seq<bool>, m: seq<bool>)
    requires |x| == |m| && forall t :: 0 <= t < |m| ==> !m[t]
    ensures PextSeq(x, m) == []
  {
    if |m| != 0 {
      PextNone(x[1..], m[1..]);
    }
  }

  /** A mask with every bit set extracts everything. */
  lemma {:induction false} PextAll(x: seq<bool>, m: seq<bool>)
    requires |x| == |m| && forall t :: 0 <= t < |m| ==> m[t]
    ensures PextSeq(x, m) == x
  {
    if |m| != 0 {
      PextAll(x[1..], m[1..]);
      assert x == [x[0]] + x[1..];
    }
  }

  /** A mask with exactly one set bit, at c, extracts bit c. */
  lemma {:induction false} PextOne(x: seq<bool>, m: seq<bool>, c: nat)
    requires |x| == |m| && c < |m| && forall t :: 0 <= t < |m| ==> (m[t] <==> t == c)
    ensures PextSeq(x, m) == [x[c]]
    decreases c
  {
    if c == 0 {
      PextNone(x[1..], m[1..]);
    } else {
      PextOne(x[1..], m[1..], c - 1);
    }
  }

  /** Extraction over a split mask is the concatenation of the two halves' extractions. */
  lemma {:induction false} PextAppend(x: seq<bool>, m: seq<bool>, k: nat)
    requires |x| == |m| && k <= |m|
    ensures PextSeq(x, m) == PextSeq(x[..k], m[..k]) + PextSeq(x[k..], m[k..])
    decreases k
  {
    if k != 0 {
      PextAppend(x[1..], m[1..], k - 1);
      assert x[1..][..k - 1] == x[..k][1..];
      assert m[1..][..k - 1] == m[..k][1..];
      assert x[1..][k - 1..] == x[k..];
      assert m[1..][k - 1..] == m[k..];
    }
  }

  /** The low bits of s, lowest first, spread over the set positions of m. */
  function PdepSeq(s: seq<bool>, m: seq<bool>): (r: seq<bool>)
    ensures |r| == |m|
  {
    if |m| == 0 then []
    else if m[0] then [|s| > 0 && s[0]] + PdepSeq(if |s| > 0 then s[1..] else [], m[1..])
    else [false] + PdepSeq(s, m[1..])
  }

  /**
   * _pdep_u64(s, m): the low bits of s, lowest first, written to the set
   * positions of m from the lowest upward; all other bits are clear.
   */
  function Pdep(s: Word, m: Word): Word
  {
    PdepSeq(s, m)
  }

  /** Bit p of a deposit: set position p of m receives the bit of s numbered by the set positions below p. */
  lemma {:induction false} PdepIndex(s: seq<bool>, m: seq<bool>, p: nat)
    requires p < |m|
    ensures PdepSeq(s, m)[p] == (m[p] && Count(m[..p]) < |s| && s[Count(m[..p])])
    decreases p
  {
    if p == 0 {
      assert m[..0] == [];
    } else {
      assert m[..p][1..] == m[1..][..p - 1];
      if m[0] {
        PdepIndex(if |s| > 0 then s[1..] else [], m[1..], p - 1);
      } else {
        PdepIndex(s, m[1..], p - 1);
      }
    }
  }

  /** A deposit holds as many set bits as the bits of s it consumes. */
  lemma {:induction false} CountPdep(s: seq<bool>, m: seq<bool>)
    requires Count(m) <= |s|
    ensures Count(PdepSeq(s, m)) == Count(s[..Count(m)])
  {
    if |m| == 0 {
      assert s[..0] == [];
    } else if m[0] {
      CountPdep(s[1..], m[1..]);
      assert PdepSeq(s, m)[1..] == PdepSeq(s[1..], m[1..]);
      assert s[..Count(m)][1..] == s[1..][..Count(m[1..])];
    } else {
      CountPdep(s, m[1..]);
      assert PdepSeq(s, m)[1..] == PdepSeq(s, m[1..]);
    }
  }

  // ---------------------------------------------------------------------
  // Count leading zeros

  /** Number of clear bits at positions k-1, k-2, ... before the first set one. */
  function ClzFrom(a: Word, k: nat): (n: nat)
    requires k <= 64
    ensures n <= k
  {
    if k == 0 || a[k - 1] then 0 else 1 + ClzFrom(a, k - 1)
  }

  lemma {:induction false} ClzFromSpec(a: Word, k: nat)
    requires k <= 64
    ensures forall q :: k - ClzFrom(a, k) <= q < k ==> !a[q]
    ensures (exists i :: 0 <= i < k && a[i]) ==> ClzFrom(a, k) < k && a[k - 1 - ClzFrom(a, k)]
  {
    if k != 0 && !a[k - 1] {
      ClzFromSpec(a, k - 1);
    }
  }

  /**
   * __builtin_clzll(a): the number of clear bits above the highest set bit.
   * It is undefined for a == 0, which the precondition excludes.
   */
  function Clz(a: Word): (n: nat)
    requires a != ZERO
    ensures n < 64 && a[63 - n]
    ensures forall q :: 63 - n < q < 64 ==> !a[q]
  {
    assert exists i :: 0 <= i < 64 && a[i] by {
      var i :| 0 <= i < 64 && a[i] != ZERO[i];
    }
    ClzFromSpec(a, 64);
    ClzFrom(a, 64)
  }
}
