/**
 64-bit words as numbers below 2^64, with the bitwise operators of the machine defined
 digit by digit in base two.
 */
module Words {

  const BITS := 64
  const TWO_64 := 0x1_0000_0000_0000_0000
  const ONES: Word := TWO_64 - 1

  type Word = x: int | 0 <= x < TWO_64

  function Pow2(n: nat): (p: nat)
    ensures p > 0
  {
    if n == 0 then 1 else 2 * Pow2(n - 1)
  }

  lemma Pow2Of64()
    ensures Pow2(BITS) == TWO_64
  {
    assert Pow2(8) == 0x100;
    Pow2Sum(8, 8);
    Pow2Sum(16, 16);
    Pow2Sum(32, 32);
  }

  lemma {:induction false} Pow2Sum(m: nat, n: nat)
    ensures Pow2(m + n) == Pow2(m) * Pow2(n)
    decreases m
  {
    if m > 0 {
      Pow2Sum(m - 1, n);
    }
  }

  /** Bit `k` of a number. */
  predicate Bit(w: nat, k: nat)
    decreases k
  {
    if k == 0 then w % 2 == 1 else Bit(w / 2, k - 1)
  }

  function Digit(b: bool): nat {
    if b then 1 else 0
  }

  /** The number whose low `n` bits are `op` of the bits of `a` and `b`. */
  function Bitwise(op: (bool, bool) -> bool, a: nat, b: nat, n: nat): (w: nat)
    ensures w < Pow2(n)
    decreases n
  {
    if n == 0 then 0 else Digit(op(a % 2 == 1, b % 2 == 1)) + 2 * Bitwise(op, a / 2, b / 2, n - 1)
  }

  lemma {:induction false} BitwiseBit(op: (bool, bool) -> bool, a: nat, b: nat, n: nat, k: nat)
    requires k < n
    ensures Bit(Bitwise(op, a, b, n), k) == op(Bit(a, k), Bit(b, k))
    decreases n
  {
    if k > 0 {
      BitwiseBit(op, a / 2, b / 2, n - 1, k - 1);
    }
  }

  function On64(op: (bool, bool) -> bool, a: Word, b: Word): Word {
    Pow2Of64();
    Bitwise(op, a, b, BITS)
  }

  function Or(a: Word, b: Word): Word {
    On64((x, y) => x || y, a, b)
  }

  function And(a: Word, b: Word): Word {
    On64((x, y) => x && y, a, b)
  }

  function Xor(a: Word, b: Word): Word {
    On64((x, y) => x != y, a, b)
  }

  function Not(a: Word): Word {
    ONES - a
  }

  /** `1ULL << k` */
  function Bitmask(k: nat): Word
    requires k < 64
  {
    Pow2Of64();
    Pow2Grows(k, BITS);
    Pow2(k)
  }

  lemma {:induction false} Pow2Grows(m: nat, n: nat)
    requires m < n
    ensures Pow2(m) < Pow2(n)
    decreases n
  {
    if m < n - 1 {
      Pow2Grows(m, n - 1);
    }
  }

  lemma {:induction false} Pow2Bit(j: nat, k: nat)
    ensures Bit(Pow2(j), k) <==> j == k
    decreases k
  {
    if j == 0 {
      if k > 0 {
        ZeroBit(k - 1);
      }
    } else if k > 0 {
      Pow2Bit(j - 1, k - 1);
    }
  }

  lemma {:induction false} ZeroBit(k: nat)
    ensures !Bit(0, k)
  {
    if k > 0 {
      ZeroBit(k - 1);
    }
  }

  /** 2^n - 1 has exactly the bits below n. */
  lemma {:induction false} LowMaskBit(n: nat, k: nat)
    ensures Bit(Pow2(n) - 1, k) <==> k < n
    decreases n
  {
    if n == 0 {
      ZeroBit(k);
    } else if k > 0 {
      assert (Pow2(n) - 1) / 2 == Pow2(n - 1) - 1;
      LowMaskBit(n - 1, k - 1);
    }
  }

  /** Numbers below 2^n are determined by their low n bits. */
  lemma {:induction false} DifferInBit(a: nat, b: nat, n: nat) returns (k: nat)
    requires a < Pow2(n) && b < Pow2(n) && a != b
    ensures k < n && Bit(a, k) != Bit(b, k)
    decreases n
  {
    if a % 2 != b % 2 {
      k := 0;
    } else {
      var j := DifferInBit(a / 2, b / 2, n - 1);
      k := j + 1;
    }
  }

  lemma SetBit(w: Word, j: nat, k: nat)
    requires j < 64 && k < 64
    ensures Bit(Or(w, Bitmask(j)), k) <==> j == k || Bit(w, k)
  {
    BitwiseBit((x, y) => x || y, w, Bitmask(j), BITS, k);
    Pow2Bit(j, k);
  }

  lemma {:induction false} ComplementBit(w: nat, n: nat, k: nat)
    requires w < Pow2(n) && k < n
    ensures Bit(Pow2(n) - 1 - w, k) <==> !Bit(w, k)
    decreases n
  {
    if k > 0 {
      assert (Pow2(n) - 1 - w) / 2 == Pow2(n - 1) - 1 - w / 2;
      ComplementBit(w / 2, n - 1, k - 1);
    }
  }

  lemma NotBit(w: Word, k: nat)
    requires k < 64
    ensures Bit(Not(w), k) <==> !Bit(w, k)
  {
    Pow2Of64();
    ComplementBit(w, BITS, k);
  }

  lemma ClearBit(w: Word, j: nat, k: nat)
    requires j < 64 && k < 64
    ensures Bit(And(w, Not(Bitmask(j))), k) <==> j != k && Bit(w, k)
  {
    BitwiseBit((x, y) => x && y, w, Not(Bitmask(j)), BITS, k);
    NotBit(Bitmask(j), k);
    Pow2Bit(j, k);
  }

  lemma FlipBit(w: Word, j: nat, k: nat)
    requires j < 64 && k < 64
    ensures Bit(Xor(w, Bitmask(j)), k) <==> (j == k) != Bit(w, k)
  {
    BitwiseBit((x, y) => x != y, w, Bitmask(j), BITS, k);
    Pow2Bit(j, k);
  }

  lemma AndBit(v: Word, w: Word, k: nat)
    requires k < 64
    ensures Bit(And(v, w), k) <==> Bit(v, k) && Bit(w, k)
  {
    BitwiseBit((x, y) => x && y, v, w, BITS, k);
  }

  /** `w & (1 << j)` is non-zero exactly when bit j is set. */
  lemma TestBit(w: Word, j: nat)
    requires j < 64
    ensures And(w, Bitmask(j)) != 0 <==> Bit(w, j)
  {
    var v := And(w, Bitmask(j));
    if v == 0 {
      ZeroBit(j);
      AndBit(w, Bitmask(j), j);
      Pow2Bit(j, j);
    } else {
      var k := DifferentWords(v, 0);
      ZeroBit(k);
      AndBit(w, Bitmask(j), k);
      Pow2Bit(j, k);
    }
  }

  lemma DifferentWords(v: Word, w: Word) returns (k: nat)
    requires v != w
    ensures k < 64 && Bit(v, k) != Bit(w, k)
  {
    Pow2Of64();
    k := DifferInBit(v, w, BITS);
  }

  /** A word is zero exactly when it has no bit. */
  lemma ZeroWord(w: Word)
    ensures w == 0 <==> forall k :: 0 <= k < 64 ==> !Bit(w, k)
  {
    if w == 0 {
      forall k | 0 <= k < 64
        ensures !Bit(w, k)
      {
        ZeroBit(k);
      }
    } else {
      var k := DifferentWords(w, 0);
      ZeroBit(k);
      assert Bit(w, k);
    }
  }

  lemma OnesBit(k: nat)
    requires k < 64
    ensures Bit(ONES, k)
  {
    Pow2Of64();
    LowMaskBit(BITS, k);
  }

  /** A word is all ones exactly when it has every bit. */
  lemma OnesWord(w: Word)
    ensures w == ONES <==> forall k :: 0 <= k < 64 ==> Bit(w, k)
  {
    Pow2Of64();
    if w == ONES {
      forall k | 0 <= k < 64
        ensures Bit(w, k)
      {
        LowMaskBit(BITS, k);
      }
    } else {
      var k := DifferentWords(w, ONES);
      LowMaskBit(BITS, k);
      assert !Bit(w, k);
    }
  }

  /** `(1ULL << r) - 1ULL` */
  function LowMask(r: nat): Word
    requires r < 64
  {
    Bitmask(r) - 1
  }

  lemma AndLowMaskBit(w: Word, r: nat, k: nat)
    requires r < 64 && k < 64
    ensures Bit(LowMask(r), k) <==> k < r
    ensures Bit(And(w, LowMask(r)), k) <==> Bit(w, k) && k < r
  {
    AndBit(w, LowMask(r), k);
    LowMaskBit(r, k);
  }

  predicate LowFull(w: Word, r: nat) {
    forall k :: 0 <= k < r ==> Bit(w, k)
  }

  /** The low `r` bits of a word are all ones exactly when it has every bit below `r`. */
  lemma LowBits(w: Word, r: nat)
    requires r < 64
    ensures And(w, LowMask(r)) == LowMask(r) <==> LowFull(w, r)
  {
    var v := And(w, LowMask(r));
    if v == LowMask(r) {
      forall k | 0 <= k < r
        ensures Bit(w, k)
      {
        AndLowMaskBit(w, r, k);
      }
    } else {
      var k := DifferentWords(v, LowMask(r));
      AndLowMaskBit(w, r, k);
    }
  }

  /** `__builtin_ctzll`: the least bit of a non-zero word. */
  method CountTrailingZeros(w: Word) returns (n: nat)
    requires w != 0
    ensures n < 64 && Bit(w, n) && forall k :: 0 <= k < n ==> !Bit(w, k)
  {
    ZeroWord(w);
    ghost var b :| 0 <= b < 64 && Bit(w, b);
    n := 0;
    while !Bit(w, n)
      invariant n <= b
      invariant forall k :: 0 <= k < n ==> !Bit(w, k)
      decreases b - n
    {
      n := n + 1;
    }
  }

  /** `__builtin_ctzll(~w)` */
  method LeastClearBit(w: Word) returns (n: nat)
    requires w != ONES
    ensures n < 64 && !Bit(w, n) && forall k :: 0 <= k < n ==> Bit(w, k)
  {
    n := CountTrailingZeros(Not(w));
    forall k | 0 <= k < 64
      ensures Bit(Not(w), k) <==> !Bit(w, k)
    {
      NotBit(w, k);
    }
  }

  // ---------- changing one bit ----------

  /** `v` is `w` with bit k made `b`. */
  ghost predicate IsWithBit(v: Word, w: Word, k: nat, b: bool) {
    forall j :: 0 <= j < 64 ==> Bit(v, j) == if j == k then b else Bit(w, j)
  }

  /** The word that has bit k equal to `b` and agrees with `w` elsewhere. */
  ghost function WithBit(w: Word, k: nat, b: bool): (v: Word)
    requires k < 64
    ensures IsWithBit(v, w, k, b)
  {
    OrSetsBit(w, k);
    AndClearsBit(w, k);
    var v: Word :| IsWithBit(v, w, k, b);
    v
  }

  lemma OrSetsBit(w: Word, k: nat)
    requires k < 64
    ensures IsWithBit(Or(w, Bitmask(k)), w, k, true)
  {
    forall j | 0 <= j < 64
      ensures Bit(Or(w, Bitmask(k)), j) == if j == k then true else Bit(w, j)
    {
      SetBit(w, k, j);
    }
  }

  lemma AndClearsBit(w: Word, k: nat)
    requires k < 64
    ensures IsWithBit(And(w, Not(Bitmask(k))), w, k, false)
  {
    forall j | 0 <= j < 64
      ensures Bit(And(w, Not(Bitmask(k))), j) == if j == k then false else Bit(w, j)
    {
      ClearBit(w, k, j);
    }
  }

  lemma XorFlipsBit(w: Word, k: nat)
    requires k < 64
    ensures IsWithBit(Xor(w, Bitmask(k)), w, k, !Bit(w, k))
  {
    forall j | 0 <= j < 64
      ensures Bit(Xor(w, Bitmask(k)), j) == if j == k then !Bit(w, k) else Bit(w, j)
    {
      FlipBit(w, k, j);
    }
  }

  /** There is only one such word. */
  lemma WithBitIs(v: Word, w: Word, k: nat, b: bool)
    requires k < 64 && IsWithBit(v, w, k, b)
    ensures v == WithBit(w, k, b)
  {
    if v != WithBit(w, k, b) {
      var j := DifferentWords(v, WithBit(w, k, b));
    }
  }

  lemma SetThenClear(w: Word, k: nat)
    requires k < 64 && !Bit(w, k)
    ensures WithBit(WithBit(w, k, true), k, false) == w
  {
    WithBitIs(w, WithBit(w, k, true), k, false);
  }

  // ---------- rounding up ----------

  /** The value of the low `p` bits. */
  function LowPart(t: nat, p: nat): (l: nat)
    ensures l <= t
    decreases p
  {
    if p == 0 then 0 else t % 2 + 2 * LowPart(t / 2, p - 1)
  }

  lemma {:induction false} HighBit(t: nat, p: nat, k: nat)
    ensures Bit(t - LowPart(t, p), k) <==> p <= k && Bit(t, k)
    decreases p, k
  {
    if p > 0 {
      assert (t - LowPart(t, p)) / 2 == t / 2 - LowPart(t / 2, p - 1);
      if k > 0 {
        HighBit(t / 2, p - 1, k - 1);
      }
    }
  }

  lemma HighMaskBit(t: Word, p: nat, k: nat)
    requires p < 64 && k < 64
    ensures Bit(And(t, Not(LowMask(p))), k) <==> p <= k && Bit(t, k)
  {
    var m := LowMask(p);
    AndBit(t, Not(m), k);
    NotBit(m, k);
    LowMaskBit(p, k);
  }

  /** `t & -(1 << p)` drops the low p bits. */
  lemma MaskIsSubtraction(t: Word, p: nat, m: Word)
    requires p < 64 && m == Not(LowMask(p))
    ensures And(t, m) == t - LowPart(t, p)
  {
    var v: Word, w: Word := And(t, m), t - LowPart(t, p);
    if v != w {
      var k := DifferentWords(v, w);
      HighMaskBit(t, p, k);
      HighBit(t, p, k);
    }
  }

  lemma LowMasks()
    ensures LowMask(3) == 7 && LowMask(12) == 0xFFF
  {
    assert Pow2(3) == 8;
    Pow2Sum(4, 4);
    Pow2Sum(8, 4);
    assert Pow2(4) == 16;
  }

  /** `t & -8` */
  method MaskLow3(t: Word) returns (r: nat)
    ensures r == t / 8 * 8
  {
    DropLow3(t, TWO_64 - 8, 3);
    r := And(t, TWO_64 - 8);
  }

  /** ROUND_UP(x, 8) = (x + 8 - 1) & -8, where the sum does not overflow. */
  method RoundUp8(x: nat) returns (r: nat)
    requires x + 7 < TWO_64
    ensures r == (x + 7) / 8 * 8
  {
    r := MaskLow3(x + 7);
  }

  /** The next page boundary, or 0 where the sum wraps: after the start of the last page. */
  function PageRounded(x: Word): (r: nat)
    ensures r % 0x1000 == 0 && (r == 0 || x <= r < x + 0x1000)
    ensures r == 0 <==> x == 0 || x > 0xFFFF_FFFF_FFFF_F000
  {
    if x + 0xFFF < TWO_64 then (x + 0xFFF) / 0x1000 * 0x1000 else 0
  }

  /** ROUND_UP(x, 0x1000) in 64-bit arithmetic. */
  method RoundUpPage(x: Word) returns (r: Word)
    ensures r == PageRounded(x)
  {
    var t: Word := (x + 0xFFF) % 0x1_0000_0000_0000_0000;
    WrappedPage(x, t);
    r := MaskLow12(t);
  }

  lemma WrappedPage(x: Word, t: Word)
    requires t == (x + 0xFFF) % 0x1_0000_0000_0000_0000
    ensures t / 0x1000 * 0x1000 == PageRounded(x)
  {
  }

  method MaskLow12(t: Word) returns (r: Word)
    ensures r == t / 0x1000 * 0x1000
  {
    DropLow12(t, TWO_64 - 0x1000, 12);
    r := And(t, TWO_64 - 0x1000);
  }

  lemma DropLow3(t: Word, m: Word, p: nat)
    requires m == TWO_64 - 8 && p == 3
    ensures And(t, m) == t / 8 * 8
  {
    LowMasks();
    MaskIsSubtraction(t, p, m);
    LowPartIsMod(t, p);
  }

  lemma DropLow12(t: Word, m: Word, p: nat)
    requires m == TWO_64 - 0x1000 && p == 12
    ensures And(t, m) == t / 0x1000 * 0x1000
  {
    LowMasks();
    MaskIsSubtraction(t, p, m);
    LowPartIsMod(t, p);
  }

  lemma CancelLess(x: nat, y: nat, p: nat)
    requires x * p < y * p
    ensures x < y
  {
  }

  lemma QuotientIs(m: nat, p: nat, a: nat)
    requires p > 0 && a * p <= m < (a + 1) * p
    ensures a == m / p && m % p == m - a * p
  {
    var q := m / p;
    assert q * p <= m < (q + 1) * p;
    CancelLess(a, q + 1, p);
    CancelLess(q, a + 1, p);
  }

  lemma ModDouble(t: nat, p: nat)
    requires p > 0
    ensures t % (2 * p) == t % 2 + 2 * (t / 2 % p)
  {
    var q, r := t / 2 / p, t / 2 % p;
    assert t / 2 == q * p + r;
    assert q * (2 * p) == 2 * (q * p) && (q + 1) * (2 * p) == 2 * (q * p) + 2 * p;
    QuotientIs(t, 2 * p, q);
  }

  /** The low p bits are the remainder by 2^p. */
  lemma {:induction false} LowPartIsMod(t: nat, p: nat)
    ensures LowPart(t, p) == t % Pow2(p)
    decreases p
  {
    if p > 0 {
      LowPartIsMod(t / 2, p - 1);
      ModDouble(t, Pow2(p - 1));
    }
  }
}
