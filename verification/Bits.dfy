/** Unsigned machine words as numbers, their bits, and the bitwise operators of C on them. Shifts are
    multiplication and division by powers of two. */
module Bits {
  import opened Arithmetic

  function Pow2(k: nat): (p: nat)
    ensures p >= 1
  {
    if k == 0 then 1 else 2 * Pow2(k - 1)
  }

  predicate Bit(a: nat, i: nat)
    decreases i
  {
    if i == 0 then a % 2 == 1 else Bit(a / 2, i - 1)
  }

  function Digit(b: bool): nat {
    if b then 1 else 0
  }

  function Or(a: nat, b: nat): nat {
    if a == 0 && b == 0 then 0 else 2 * Or(a / 2, b / 2) + Digit(a % 2 == 1 || b % 2 == 1)
  }

  function And(a: nat, b: nat): nat {
    if a == 0 && b == 0 then 0 else 2 * And(a / 2, b / 2) + Digit(a % 2 == 1 && b % 2 == 1)
  }

  function Xor(a: nat, b: nat): nat {
    if a == 0 && b == 0 then 0 else 2 * Xor(a / 2, b / 2) + Digit(a % 2 != b % 2)
  }

  function Shr(a: nat, k: nat): nat {
    if k == 0 then a else Shr(a / 2, k - 1)
  }

  /** The number of one bits. */
  function Pop(a: nat): nat {
    if a == 0 then 0 else Pop(a / 2) + a % 2
  }

  lemma {:induction false} ZeroBits(i: nat)
    ensures !Bit(0, i)
  {
    if i > 0 { ZeroBits(i - 1); }
  }

  lemma Halved(h: nat, b: bool)
    ensures (2 * h + Digit(b)) / 2 == h && ((2 * h + Digit(b)) % 2 == 1 <==> b)
  {
  }

  lemma {:induction false} OrBits(a: nat, b: nat, i: nat)
    ensures Bit(Or(a, b), i) <==> Bit(a, i) || Bit(b, i)
    decreases i
  {
    if a == 0 && b == 0 {
      ZeroBits(i);
    } else if i > 0 {
      OrBits(a / 2, b / 2, i - 1);
      Halved(Or(a / 2, b / 2), a % 2 == 1 || b % 2 == 1);
    } else {
      Halved(Or(a / 2, b / 2), a % 2 == 1 || b % 2 == 1);
    }
  }

  lemma {:induction false} AndBits(a: nat, b: nat, i: nat)
    ensures Bit(And(a, b), i) <==> Bit(a, i) && Bit(b, i)
    decreases i
  {
    if a == 0 && b == 0 {
      ZeroBits(i);
    } else if i > 0 {
      AndBits(a / 2, b / 2, i - 1);
      Halved(And(a / 2, b / 2), a % 2 == 1 && b % 2 == 1);
    } else {
      Halved(And(a / 2, b / 2), a % 2 == 1 && b % 2 == 1);
    }
  }

  lemma {:induction false} XorBits(a: nat, b: nat, i: nat)
    ensures Bit(Xor(a, b), i) <==> Bit(a, i) != Bit(b, i)
    decreases i
  {
    if a == 0 && b == 0 {
      ZeroBits(i);
    } else if i > 0 {
      XorBits(a / 2, b / 2, i - 1);
      Halved(Xor(a / 2, b / 2), a % 2 != b % 2);
    } else {
      Halved(Xor(a / 2, b / 2), a % 2 != b % 2);
    }
  }

  lemma {:induction false} ShrBits(a: nat, k: nat, i: nat)
    ensures Bit(Shr(a, k), i) <==> Bit(a, k + i)
    decreases k
  {
    if k > 0 { ShrBits(a / 2, k - 1, i); }
  }

  lemma {:induction false} ShlBits(a: nat, k: nat, i: nat)
    ensures Bit(a * Pow2(k), i) <==> k <= i && Bit(a, i - k)
    decreases k
  {
    if k > 0 {
      assert a * Pow2(k) == 2 * (a * Pow2(k - 1));
      if i > 0 { ShlBits(a, k - 1, i - 1); }
    }
  }

  lemma {:induction false} Pow2Bits(k: nat, i: nat)
    ensures Bit(Pow2(k), i) <==> i == k
    decreases k
  {
    if k == 0 {
      if i > 0 { ZeroBits(i - 1); }
    } else if i > 0 {
      Pow2Bits(k - 1, i - 1);
    }
  }

  /** All ones below `k`. */
  lemma {:induction false} MaskBits(k: nat, i: nat)
    ensures Bit(Pow2(k) - 1, i) <==> i < k
    decreases k
  {
    if k == 0 {
      ZeroBits(i);
    } else if i > 0 {
      assert (Pow2(k) - 1) / 2 == Pow2(k - 1) - 1;
      MaskBits(k - 1, i - 1);
    }
  }

  /** Numbers below 2^n have no bit at or above n. */
  lemma {:induction false} HighBits(a: nat, n: nat, i: nat)
    requires a < Pow2(n) && n <= i
    ensures !Bit(a, i)
    decreases n
  {
    if n == 0 {
      ZeroBits(i);
    } else {
      HighBits(a / 2, n - 1, i - 1);
    }
  }

  /** A number is its bits. */
  lemma {:induction false} SameBits(a: nat, b: nat)
    requires forall i: nat :: Bit(a, i) <==> Bit(b, i)
    ensures a == b
    decreases a + b
  {
    assert Bit(a, 0) <==> Bit(b, 0);
    if a != 0 || b != 0 {
      forall i: nat ensures Bit(a / 2, i) <==> Bit(b / 2, i) {
        assert Bit(a, i + 1) <==> Bit(b, i + 1);
      }
      SameBits(a / 2, b / 2);
    }
  }

  lemma {:induction false} Pow2Monotone(j: nat, k: nat)
    requires j <= k
    ensures Pow2(j) <= Pow2(k)
  {
    if j < k { Pow2Monotone(j, k - 1); }
  }

  lemma DoubledOut(h: nat, p: nat)
    ensures h * (2 * p) == 2 * (h * p)
  {
  }

  lemma PopOfSum(lo: nat, high: nat)
    ensures Pop(lo + 2 * high) - Pop(lo / 2 + high) == Pop(lo) - Pop(lo / 2)
  {
    assert (lo + 2 * high) / 2 == lo / 2 + high && (lo + 2 * high) % 2 == lo % 2;
    PopHalf(lo + 2 * high);
    PopHalf(lo);
  }

  lemma PopHalf(a: nat)
    ensures Pop(a) == Pop(a / 2) + a % 2
  {
  }

  function Doubled(h: nat, k: nat): nat {
    if k == 0 then h else 2 * Doubled(h, k - 1)
  }

  lemma {:induction false} DoubledIsProduct(h: nat, k: nat)
    ensures Doubled(h, k) == h * Pow2(k)
  {
    if k > 0 {
      DoubledIsProduct(h, k - 1);
      DoubledOut(h, Pow2(k - 1));
    }
  }

  lemma {:induction false} PopOfDoubled(lo: nat, hi: nat, k: nat)
    requires lo < Pow2(k)
    ensures Pop(lo + Doubled(hi, k)) == Pop(lo) + Pop(hi)
    decreases k
  {
    if k > 0 {
      PopOfDoubled(lo / 2, hi, k - 1);
      PopOfSum(lo, Doubled(hi, k - 1));
    }
  }

  /** The ones of the low `k` bits and the ones of the rest. */
  lemma PopSplit(lo: nat, hi: nat, k: nat)
    requires lo < Pow2(k)
    ensures Pop(lo + hi * Pow2(k)) == Pop(lo) + Pop(hi)
  {
    DoubledIsProduct(hi, k);
    PopOfDoubled(lo, hi, k);
  }

  lemma {:induction false} TopBitIsSet(a: nat, k: nat)
    requires Pow2(k) <= a < Pow2(k + 1)
    ensures Bit(a, k)
    decreases k
  {
    if k > 0 { TopBitIsSet(a / 2, k - 1); }
  }

  lemma {:induction false} ShrShr(a: nat, j: nat, k: nat)
    ensures Shr(Shr(a, j), k) == Shr(a, j + k)
    decreases j
  {
    if j > 0 { ShrShr(a / 2, j - 1, k); }
  }

  lemma {:induction false} ShrBound(a: nat, k: nat, n: nat)
    requires a < Pow2(k + n)
    ensures Shr(a, k) < Pow2(n)
    decreases k
  {
    if k > 0 { ShrBound(a / 2, k - 1, n); }
  }

  /** `a & (2^k - 1)` keeps the low bits. */
  lemma {:induction false} LowBits(a: nat, k: nat, i: nat)
    ensures Bit(a % Pow2(k), i) <==> i < k && Bit(a, i)
    decreases k
  {
    if k == 0 {
      ZeroBits(i);
    } else {
      ModPow2Half(a, k);
      if i > 0 { LowBits(a / 2, k - 1, i - 1); }
    }
  }

  lemma ModPow2Half(a: nat, k: nat)
    requires k > 0
    ensures a % Pow2(k) / 2 == a / 2 % Pow2(k - 1)
    ensures a % Pow2(k) % 2 == a % 2
  {
    var p := Pow2(k - 1);
    var q, r := a / 2 / p, a / 2 % p;
    assert a / 2 == q * p + r;
    var low := 2 * r + a % 2;
    assert a == q * (2 * p) + low && low < 2 * p;
    DivisionIsUnique(a, 2 * p, q, low);
  }

  lemma {:induction false} PopBound(a: nat, k: nat)
    requires a < Pow2(k)
    ensures Pop(a) <= k
    decreases k
  {
    if k > 0 { PopBound(a / 2, k - 1); }
  }

  lemma {:induction false} BoundFromBits(a: nat, n: nat)
    requires forall i | n <= i :: !Bit(a, i)
    ensures a < Pow2(n)
    decreases n, a
  {
    if n == 0 {
      if a > 0 {
        assert !Bit(a, 0);
        forall i: nat ensures !Bit(a / 2, i) {
          assert !Bit(a, i + 1);
        }
        BoundFromBits(a / 2, 0);
      }
    } else {
      forall i | n - 1 <= i ensures !Bit(a / 2, i) {
        assert !Bit(a, i + 1);
      }
      BoundFromBits(a / 2, n - 1);
    }
  }

  /** `a >> 8` */
  lemma ShrByte(a: nat)
    ensures Shr(a, 8) == a / 0x100
  {
    assert Shr(a, 8) == Shr(a / 2, 7) == Shr(a / 2 / 2, 6) == Shr(a / 4, 6);
    assert Shr(a / 4, 6) == Shr(a / 4 / 2, 5) == Shr(a / 4 / 2 / 2, 4) == Shr(a / 16, 4);
    assert Shr(a / 16, 4) == Shr(a / 16 / 2, 3) == Shr(a / 16 / 2 / 2, 2) == Shr(a / 64, 2);
    assert Shr(a / 64, 2) == Shr(a / 64 / 2, 1) == Shr(a / 64 / 2 / 2, 0) == a / 0x100;
  }

  /** The one bits at positions `lo` to `hi`. */
  function OnesIn(a: nat, lo: nat, hi: nat): nat
    requires lo <= hi
    decreases hi - lo
  {
    if lo == hi then 0 else Digit(Bit(a, lo)) + OnesIn(a, lo + 1, hi)
  }

  lemma {:induction false} OnesSnoc(a: nat, lo: nat, hi: nat)
    requires lo <= hi
    ensures OnesIn(a, lo, hi + 1) == OnesIn(a, lo, hi) + Digit(Bit(a, hi))
    decreases hi - lo
  {
    if lo < hi { OnesSnoc(a, lo + 1, hi); }
  }

  lemma {:induction false} OnesShift(a: nat, lo: nat, hi: nat)
    requires lo <= hi
    ensures OnesIn(a, lo + 1, hi + 1) == OnesIn(a / 2, lo, hi)
    decreases hi - lo
  {
    if lo < hi { OnesShift(a, lo + 1, hi); }
  }

  lemma {:induction false} PopIsOnes(a: nat, n: nat)
    requires a < Pow2(n)
    ensures Pop(a) == OnesIn(a, 0, n)
    decreases n
  {
    if n > 0 {
      PopIsOnes(a / 2, n - 1);
      OnesShift(a, 0, n - 1);
    }
  }

  lemma {:induction false} OnesMirrored(a: nat, b: nat, n: nat, j: nat)
    requires j <= n && forall i | 0 <= i < n :: Bit(b, i) <==> Bit(a, n - 1 - i)
    ensures OnesIn(b, 0, j) == OnesIn(a, n - j, n)
    decreases j
  {
    if j > 0 {
      OnesMirrored(a, b, n, j - 1);
      OnesSnoc(b, 0, j - 1);
      assert Bit(b, j - 1) <==> Bit(a, n - 1 - (j - 1));
    }
  }

  /** `~a` on `n` bits. */
  lemma {:induction false} NotBits(a: nat, n: nat, i: nat)
    requires a < Pow2(n)
    ensures Bit(Pow2(n) - 1 - a, i) <==> i < n && !Bit(a, i)
    decreases n
  {
    if n == 0 {
      ZeroBits(i);
    } else {
      var p := Pow2(n - 1);
      assert (2 * p - 1 - a) / 2 == p - 1 - a / 2 && (2 * p - 1 - a) % 2 == 1 - a % 2;
      if i > 0 { NotBits(a / 2, n - 1, i - 1); }
    }
  }

  lemma {:induction false} OrBound(a: nat, b: nat, n: nat)
    requires a < Pow2(n) && b < Pow2(n)
    ensures Or(a, b) < Pow2(n) && Xor(a, b) < Pow2(n)
    decreases n
  {
    if n > 0 { OrBound(a / 2, b / 2, n - 1); }
  }

  lemma {:induction false} AndBound(a: nat, b: nat)
    ensures And(a, b) <= a
  {
    if a != 0 || b != 0 { AndBound(a / 2, b / 2); }
  }
}
