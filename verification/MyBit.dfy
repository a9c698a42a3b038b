/** my_bit.h on 32-bit words (the population count on 64-bit ones). */
module MyBit {
  import opened Bits
  import opened CTypes

  /** The position of the highest one bit; 0 for 0. */
  function Log(v: nat): nat {
    if v <= 1 then 0 else 1 + Log(v / 2)
  }

  lemma {:induction false} LogBounds(v: nat)
    requires v >= 1
    ensures Pow2(Log(v)) <= v < Pow2(Log(v) + 1)
  {
    if v > 1 { LogBounds(v / 2); }
  }

  lemma LogIsUnique(v: nat, k: nat)
    requires Pow2(k) <= v < Pow2(k + 1)
    ensures k == Log(v)
  {
    LogBounds(v);
    if k < Log(v) { Pow2Monotone(k + 1, Log(v)); }
    if Log(v) < k { Pow2Monotone(Log(v) + 1, k); }
  }

  predicate IsFloor(value: nat, bit: nat) {
    if value == 0 then bit == 0 else Pow2(bit) <= value < Pow2(bit + 1)
  }

  /** "smallest X in 2^X >= value" */
  ghost predicate IsCeiling(value: nat, bit: nat) {
    Pow2(bit) >= value && forall x: nat | Pow2(x) >= value :: bit <= x
  }

  /** The loop computes a floor, although its comment describes a ceiling. */
  method Log2(value: nat) returns (bit: nat)
    ensures IsFloor(value, bit)
  {
    bit := 0;
    var v := value;
    while v > 1
      invariant v * Pow2(bit) <= value
      invariant value >= 1 ==> v >= 1 && value < (v + 1) * Pow2(bit)
      invariant value == 0 ==> v == 0 && bit == 0
    {
      HalfBounds(value, v, bit);
      v := v / 2;
      bit := bit + 1;
    }
    assert v == 1 ==> (v + 1) * Pow2(bit) == Pow2(bit + 1);
  }

  lemma HalfBounds(value: nat, v: nat, bit: nat)
    requires v * Pow2(bit) <= value < (v + 1) * Pow2(bit)
    ensures v / 2 * Pow2(bit + 1) <= value < (v / 2 + 1) * Pow2(bit + 1)
  {
    var p, h := Pow2(bit), v / 2;
    assert h * (2 * p) == (2 * h) * p <= v * p;
    assert (h + 1) * (2 * p) == (2 * h + 2) * p >= (v + 1) * p;
  }

  /** What the loop returns is what the comment describes exactly for 0 and the powers of two. */
  lemma FloorIsCeilingIff(value: nat, bit: nat)
    requires IsFloor(value, bit)
    ensures IsCeiling(value, bit) <==> value == 0 || exists k: nat :: value == Pow2(k)
  {
    if k: nat :| value == Pow2(k) {
      if k < bit { Pow2Monotone(k + 1, bit); }
      if bit < k { Pow2Monotone(bit + 1, k); }
      forall x: nat | Pow2(x) >= value ensures bit <= x {
        if x < bit { Pow2Monotone(x + 1, bit); }
      }
    }
    if IsCeiling(value, bit) && value > 0 {
      assert value == Pow2(bit);
    }
  }

  /** For 3 the loop returns 1, and the smallest X is 2. */
  lemma FloorOfThree(bit: nat)
    requires IsFloor(3, bit)
    ensures bit == 1 && !IsCeiling(3, bit) && IsCeiling(3, 2)
  {
    assert Pow2(0) == 1 && Pow2(1) == 2 && Pow2(2) == 4;
    if bit >= 2 { Pow2Monotone(2, bit); }
    forall x: nat | Pow2(x) >= 3 ensures 2 <= x {
      if x < 2 { Pow2Monotone(x, 1); }
    }
  }

  // ---- Smearing the highest bit to the right

  ghost predicate OneWithin(v: nat, i: nat, m: nat) {
    exists t :: i <= t < i + m && Bit(v, t)
  }

  /** `w` has a one wherever `v` has a one in the `m` places from there upwards. */
  ghost predicate Smeared(v: nat, w: nat, m: nat) {
    forall i: nat :: Bit(w, i) <==> OneWithin(v, i, m)
  }

  lemma SmearStart(v: nat)
    ensures Smeared(v, v, 1)
  {
    forall i: nat ensures Bit(v, i) <==> OneWithin(v, i, 1) {
      if Bit(v, i) { assert i <= i < i + 1; }
    }
  }

  lemma SmearStep(v: nat, w: nat, m: nat)
    requires Smeared(v, w, m)
    ensures Smeared(v, Or(w, Shr(w, m)), 2 * m)
  {
    forall i: nat ensures Bit(Or(w, Shr(w, m)), i) <==> OneWithin(v, i, 2 * m) {
      OrBits(w, Shr(w, m), i);
      ShrBits(w, m, i);
      assert Bit(w, i) <==> OneWithin(v, i, m);
      assert Bit(w, m + i) <==> OneWithin(v, m + i, m);
    }
  }

  /** Five doublings fill a 32-bit word with ones from the highest bit down. */
  lemma SmearedIsMask(v: nat, w: nat, k: nat)
    requires Smeared(v, w, 32) && Pow2(k) <= v < Pow2(k + 1) && k < 32
    ensures w == Pow2(k + 1) - 1
  {
    TopBitIsSet(v, k);
    forall i: nat ensures Bit(w, i) <==> Bit(Pow2(k + 1) - 1, i) {
      MaskBits(k + 1, i);
      assert Bit(w, i) <==> OneWithin(v, i, 32);
      if i <= k {
        assert i <= k < i + 32;
      } else {
        forall t | i <= t ensures !Bit(v, t) { HighBits(v, k + 1, t); }
      }
    }
    SameBits(w, Pow2(k + 1) - 1);
  }

  lemma SmearedZero(w: nat)
    requires Smeared(0, w, 32)
    ensures w == 0
  {
    forall i: nat ensures Bit(w, i) <==> Bit(0, i) {
      assert Bit(w, i) <==> OneWithin(0, i, 32);
      ZeroBits(i);
      forall t | i <= t ensures !Bit(0, t) { ZeroBits(t); }
    }
    SameBits(w, 0);
  }

  method Smear(v: nat) returns (w: nat)
    ensures Smeared(v, w, 32)
  {
    w := v;
    SmearStart(v);
    SmearStep(v, w, 1);
    w := Or(w, Shr(w, 1));
    SmearStep(v, w, 2);
    w := Or(w, Shr(w, 2));
    SmearStep(v, w, 4);
    w := Or(w, Shr(w, 4));
    SmearStep(v, w, 8);
    w := Or(w, Shr(w, 8));
    SmearStep(v, w, 16);
    w := Or(w, Shr(w, 16));
  }

  lemma Pow2At32()
    ensures Pow2(31) == 0x8000_0000 && Pow2(32) == 0x1_0000_0000
  {
    assert Pow2(8) == 0x100;
    assert Pow2(16) == 0x1_0000;
    assert Pow2(24) == 0x100_0000;
    assert Pow2(31) == 0x8000_0000;
  }

  lemma LogBelow32(v: uint32)
    ensures Log(v) < 32
  {
    if v >= 1 {
      LogBounds(v);
      Pow2At32();
      if Log(v) >= 32 { Pow2Monotone(32, Log(v)); }
    }
  }

  /** The least power of two not below `v`. */
  ghost predicate LeastPowerFrom(r: nat, v: nat) {
    && (exists k: nat :: r == Pow2(k))
    && v <= r
    && forall k: nat | v <= Pow2(k) :: r <= Pow2(k)
  }

  method RoundUpToNextPower(value: uint32) returns (r: uint32)
    ensures 1 <= value <= 0x8000_0000 ==> LeastPowerFrom(r, value)
    ensures 2 <= value <= 0x8000_0000 ==> r == Pow2(Log(value - 1) + 1)
    ensures value == 0 || value > 0x8000_0000 ==> r == 0
  {
    var v: uint32 := if value == 0 then 0xFFFF_FFFF else value - 1;
    var w := Smear(v);
    if v == 0 {
      SmearedZero(w);
      LeastPowerOfOne();
    } else {
      SmearedRounds(v, w);
      LeastPowerAbove(v, Log(v));
    }
    r := (w + 1) % 0x1_0000_0000;
  }

  lemma LeastPowerOfOne()
    ensures LeastPowerFrom(1, 1)
  {
    assert 1 == Pow2(0);
  }

  /** What adding one to the mask gives. */
  lemma SmearedRounds(v: uint32, w: nat)
    requires v >= 1 && Smeared(v, w, 32)
    ensures w + 1 == Pow2(Log(v) + 1) && Pow2(Log(v)) <= v < Pow2(Log(v) + 1)
    ensures if v >= 0x8000_0000 then w + 1 == 0x1_0000_0000 else w + 1 <= 0x8000_0000
  {
    Pow2At32();
    LogBounds(v);
    LogBelow32(v);
    SmearedIsMask(v, w, Log(v));
    if v >= 0x8000_0000 { LogIsUnique(v, 31); } else { Pow2AtMost(Log(v), 31, v); }
  }

  lemma Pow2AtMost(k: nat, n: nat, v: nat)
    requires Pow2(k) <= v < Pow2(n)
    ensures Pow2(k + 1) <= Pow2(n)
  {
    if k >= n { Pow2Monotone(n, k); } else { Pow2Monotone(k + 1, n); }
  }

  lemma LeastPowerAbove(v: nat, k: nat)
    requires Pow2(k) <= v < Pow2(k + 1)
    ensures LeastPowerFrom(Pow2(k + 1), v + 1)
  {
    forall j: nat | v + 1 <= Pow2(j) ensures Pow2(k + 1) <= Pow2(j) {
      if j <= k { Pow2Monotone(j, k); }
      Pow2Monotone(k + 1, if j <= k then k + 1 else j);
    }
  }

  // ---- Clearing the highest bit

  function HighestCleared(v: nat): (r: nat)
    ensures v > 0 ==> r < v
  {
    if v == 0 then 0 else (LogBounds(v); v - Pow2(Log(v)))
  }

  /** What is cleared is the bit that `my_bit_log2` finds. */
  lemma HighestIsFloor(v: nat, bit: nat)
    requires v > 0 && IsFloor(v, bit)
    ensures HighestCleared(v) == v - Pow2(bit)
  {
    LogIsUnique(v, bit);
  }

  ghost predicate OneAbove(v: nat, i: nat) {
    exists j: nat :: i < j && Bit(v, j)
  }

  /** Bit by bit: a one stays exactly when there is a higher one. */
  lemma ClearedBits(v: nat, i: nat)
    ensures Bit(HighestCleared(v), i) <==> Bit(v, i) && OneAbove(v, i)
  {
    if v == 0 {
      ZeroBits(i);
    } else {
      var k := Log(v);
      LogBounds(v);
      TopBitIsSet(v, k);
      TopAndRest(v - Pow2(k), k, i);
      forall j: nat | k < j ensures !Bit(v, j) { HighBits(v, k + 1, j); }
      assert OneAbove(v, i) <==> i < k by {
        if i < k { assert i < k && Bit(v, k); }
      }
    }
  }

  lemma TopAndRest(low: nat, k: nat, i: nat)
    requires low < Pow2(k)
    ensures Bit(low, i) <==> i < k && Bit(low + Pow2(k), i)
  {
    if i <= k { TopBitBits(1, low, k, i); }
    if k <= i { HighBits(low, k, i); }
  }

  lemma {:induction false} MaskBelowTop(v: nat, k: nat)
    requires Pow2(k) <= v < Pow2(k + 1)
    ensures And(v, Pow2(k) - 1) == v - Pow2(k)
    decreases k
  {
    if k == 0 {
      assert And(0, 0) == 0;
    } else {
      assert (Pow2(k) - 1) / 2 == Pow2(k - 1) - 1;
      MaskBelowTop(v / 2, k - 1);
    }
  }

  method ClearHighestBit(v: uint32) returns (r: uint32)
    ensures r == HighestCleared(v)
    ensures v == 0 ==> r == 0
    ensures forall bit | v > 0 && IsFloor(v, bit) :: r == v - Pow2(bit)
  {
    var w := Shr(v, 1);
    assert w == v / 2 by { assert Shr(v / 2, 0) == v / 2; }
    var half := w;
    w := Smear(w);
    if half == 0 {
      SmearedZero(w);
      assert v == 0 || v == 1;
      assert And(v, 0) == 0 by { assert And(0, 0) == 0; }
    } else {
      LogBounds(v);
      LogBounds(half);
      LogBelow32(v);
      SmearedIsMask(half, w, Log(half));
      MaskBelowTop(v, Log(v));
    }
    r := And(v, w);
    forall bit | v > 0 && IsFloor(v, bit) ensures r == v - Pow2(bit) { HighestIsFloor(v, bit); }
  }

  lemma ClearingDropsOneBit(v: nat)
    requires v > 0
    ensures Pop(HighestCleared(v)) == Pop(v) - 1
  {
    LogBounds(v);
    PopSplit(HighestCleared(v), 1, Log(v));
    assert Pop(1) == 1 by { assert Pop(0) == 0; }
  }

  /** How many times the highest bit can be cleared before nothing is left. */
  function ClearingSteps(v: nat): nat
    decreases v
  {
    if v == 0 then 0 else 1 + ClearingSteps(HighestCleared(v))
  }

  lemma {:induction false} ClearingCountsBits(v: nat)
    ensures ClearingSteps(v) == Pop(v)
    decreases v
  {
    if v > 0 {
      ClearingDropsOneBit(v);
      ClearingCountsBits(HighestCleared(v));
    }
  }

  // ---- Counting bits by table

  predicate CountTable(nbits: seq<nat>) {
    |nbits| == 0x100 && forall b | 0 <= b < 0x100 :: nbits[b] == Pop(b)
  }

  /** `(uchar) (v >> k)` */
  function ByteAt(v: nat, k: nat): (b: nat)
    ensures b < 0x100
  {
    Shr(v, k) % 0x100
  }

  function CountBits(v: uint64, nbits: seq<nat>): nat
    requires CountTable(nbits)
  {
    CountBytes(Bytes(v), nbits)
  }

  /** The bytes of `v`, taken as the expression takes them: four of each half. */
  function Bytes(v: uint64): (bs: seq<nat>)
    ensures |bs| == 8 && forall i | 0 <= i < 8 :: bs[i] < 0x100
  {
    var v2 := Shr(v, 32);
    [ByteAt(v, 0), ByteAt(v, 8), ByteAt(v, 16), ByteAt(v, 24),
     ByteAt(v2, 0), ByteAt(v2, 8), ByteAt(v2, 16), ByteAt(v2, 24)]
  }

  /** The sum of the table entries, cast to a byte. */
  function CountBytes(bs: seq<nat>, nbits: seq<nat>): nat
    requires CountTable(nbits) && |bs| == 8 && forall i | 0 <= i < 8 :: bs[i] < 0x100
  {
    (nbits[bs[0]] + nbits[bs[1]] + nbits[bs[2]] + nbits[bs[3]] +
     nbits[bs[4]] + nbits[bs[5]] + nbits[bs[6]] + nbits[bs[7]]) % 0x100
  }

  lemma EntryIsPop(b: nat, nbits: seq<nat>)
    requires CountTable(nbits) && b < 0x100
    ensures nbits[b] == Pop(b) <= 8
  {
    assert Pow2(8) == 0x100;
    PopBound(b, 8);
  }

  lemma CountBytesIsPop(bs: seq<nat>, nbits: seq<nat>)
    requires CountTable(nbits) && |bs| == 8 && forall i | 0 <= i < 8 :: bs[i] < 0x100
    ensures CountBytes(bs, nbits) ==
            Pop(bs[0]) + Pop(bs[1]) + Pop(bs[2]) + Pop(bs[3]) + Pop(bs[4]) + Pop(bs[5]) + Pop(bs[6]) + Pop(bs[7])
  {
    EntryIsPop(bs[0], nbits);
    EntryIsPop(bs[1], nbits);
    EntryIsPop(bs[2], nbits);
    EntryIsPop(bs[3], nbits);
    EntryIsPop(bs[4], nbits);
    EntryIsPop(bs[5], nbits);
    EntryIsPop(bs[6], nbits);
    EntryIsPop(bs[7], nbits);
  }

  lemma CountBitsIsPop(v: uint64, nbits: seq<nat>)
    requires CountTable(nbits)
    ensures CountBits(v, nbits) == Pop(v)
  {
    CountBytesIsPop(Bytes(v), nbits);
    PopBytes(v);
  }

  lemma PopByte(v: nat, k: nat)
    ensures Pop(Shr(v, k)) == Pop(ByteAt(v, k)) + Pop(Shr(v, k + 8))
  {
    var a := Shr(v, k);
    assert Pow2(8) == 0x100;
    ShrShr(v, k, 8);
    ShrByte(a);
    PopSplit(a % 0x100, a / 0x100, 8);
    assert a == a % 0x100 + a / 0x100 * 0x100;
  }

  lemma PopFourBytes(v: nat)
    ensures Pop(v) == Pop(ByteAt(v, 0)) + Pop(ByteAt(v, 8)) + Pop(ByteAt(v, 16)) + Pop(ByteAt(v, 24)) + Pop(Shr(v, 32))
  {
    PopByte(v, 0);
    PopByte(v, 8);
    PopByte(v, 16);
    PopByte(v, 24);
  }

  lemma NothingAbove(v: uint64)
    ensures Shr(Shr(v, 32), 32) == 0
  {
    Pow2At32();
    Pow2Sum(32, 32);
    ShrBound(v, 32, 32);
    ShrBound(Shr(v, 32), 32, 0);
  }

  lemma PopBytes(v: uint64)
    ensures var bs := Bytes(v);
            Pop(v) == Pop(bs[0]) + Pop(bs[1]) + Pop(bs[2]) + Pop(bs[3]) +
                      Pop(bs[4]) + Pop(bs[5]) + Pop(bs[6]) + Pop(bs[7])
  {
    PopFourBytes(v);
    PopFourBytes(Shr(v, 32));
    NothingAbove(v);
  }

  lemma {:induction false} Pow2Sum(j: nat, k: nat)
    ensures Pow2(j + k) == Pow2(j) * Pow2(k)
  {
    if j > 0 {
      Pow2Sum(j - 1, k);
      assert 2 * Pow2(j - 1) * Pow2(k) == 2 * (Pow2(j - 1) * Pow2(k));
    }
  }

  // ---- Reversing bits by table

  predicate ReverseTable(rev: seq<nat>) {
    && |rev| == 0x100
    && forall b | 0 <= b < 0x100 :: rev[b] < 0x100 && forall j | 0 <= j < 8 :: Bit(rev[b], j) <==> Bit(b, 7 - j)
  }

  /** The table entry of byte `m` in the opposite place. */
  function Placed(key: uint32, rev: seq<nat>, m: nat): nat
    requires ReverseTable(rev) && m < 4
  {
    rev[ByteAt(key, 8 * m)] * Pow2(24 - 8 * m)
  }

  function ReverseBits(key: uint32, rev: seq<nat>): nat
    requires ReverseTable(rev)
  {
    Or(Or(Or(Placed(key, rev, 0), Placed(key, rev, 1)), Placed(key, rev, 2)), Placed(key, rev, 3))
  }

  lemma ReversedByte(key: uint32, rev: seq<nat>, m: nat, i: nat)
    requires ReverseTable(rev) && m < 4
    ensures Bit(Placed(key, rev, m), i) <==>
            24 - 8 * m <= i < 32 - 8 * m && Bit(key, 31 - i)
  {
    var s := 24 - 8 * m;
    var b := ByteAt(key, 8 * m);
    ShlBits(rev[b], s, i);
    if s <= i {
      assert Pow2(8) == 0x100;
      if i < s + 8 {
        var j := i - s;
        assert Bit(rev[b], j) <==> Bit(b, 7 - j);
        LowBits(Shr(key, 8 * m), 8, 7 - j);
        ShrBits(key, 8 * m, 7 - j);
      } else {
        HighBits(rev[b], 8, i - s);
      }
    }
  }

  lemma ReversedAt(key: uint32, rev: seq<nat>, i: nat)
    requires ReverseTable(rev)
    ensures Bit(ReverseBits(key, rev), i) <==> i < 32 && Bit(key, 31 - i)
  {
    ReversedByte(key, rev, 0, i);
    ReversedByte(key, rev, 1, i);
    ReversedByte(key, rev, 2, i);
    ReversedByte(key, rev, 3, i);
    var a, b, c, d := Placed(key, rev, 0), Placed(key, rev, 1), Placed(key, rev, 2), Placed(key, rev, 3);
    OrBits(a, b, i);
    OrBits(Or(a, b), c, i);
    OrBits(Or(Or(a, b), c), d, i);
  }

  lemma ReverseIs32Bits(key: uint32, rev: seq<nat>)
    requires ReverseTable(rev)
    ensures ReverseBits(key, rev) < 0x1_0000_0000
  {
    forall i | 32 <= i ensures !Bit(ReverseBits(key, rev), i) { ReversedAt(key, rev, i); }
    BoundFromBits(ReverseBits(key, rev), 32);
    Pow2At32();
  }

  /** Reversing twice gives the word back. */
  lemma ReverseIsInvolution(key: uint32, rev: seq<nat>)
    requires ReverseTable(rev)
    ensures ReverseBits(key, rev) < 0x1_0000_0000
    ensures ReverseBits(ReverseBits(key, rev), rev) == key
  {
    ReverseIs32Bits(key, rev);
    var once := ReverseBits(key, rev);
    Pow2At32();
    forall i: nat ensures Bit(ReverseBits(once, rev), i) <==> Bit(key, i) {
      ReversedAt(once, rev, i);
      if i < 32 { ReversedAt(key, rev, 31 - i); } else { HighBits(key, 32, i); }
    }
    SameBits(ReverseBits(once, rev), key);
  }

  lemma ReverseKeepsCount(key: uint32, rev: seq<nat>, nbits: seq<nat>)
    requires ReverseTable(rev) && CountTable(nbits)
    ensures ReverseBits(key, rev) < 0x1_0000_0000
    ensures CountBits(ReverseBits(key, rev), nbits) == CountBits(key, nbits)
  {
    ReverseIs32Bits(key, rev);
    var once := ReverseBits(key, rev);
    Pow2At32();
    forall i | 0 <= i < 32 ensures Bit(once, i) <==> Bit(key, 32 - 1 - i) { ReversedAt(key, rev, i); }
    OnesMirrored(key, once, 32, 32);
    PopIsOnes(key, 32);
    PopIsOnes(once, 32);
    CountBitsIsPop(key, nbits);
    CountBitsIsPop(once, nbits);
  }

  /** Clearing the highest bit reaches 0 in as many steps as the table count says. */
  lemma ClearingStepsAreCounted(v: uint32, nbits: seq<nat>)
    requires CountTable(nbits)
    ensures ClearingSteps(v) == CountBits(v, nbits)
  {
    ClearingCountsBits(v);
    CountBitsIsPop(v, nbits);
  }

  // ---- The tables exist.

  lemma CountTableExists() returns (nbits: seq<nat>)
    ensures CountTable(nbits)
  {
    nbits := seq(0x100, b requires 0 <= b => Pop(b));
  }

  /** The low `n` bits of `b` in the opposite order. */
  function Mirrored(b: nat, n: nat): (r: nat)
    ensures r < Pow2(n)
    decreases n
  {
    if n == 0 then 0 else b % 2 * Pow2(n - 1) + Mirrored(b / 2, n - 1)
  }

  lemma {:induction false} MirroredBits(b: nat, n: nat, j: nat)
    requires j < n
    ensures Bit(Mirrored(b, n), j) <==> Bit(b, n - 1 - j)
    decreases n
  {
    var low := Mirrored(b / 2, n - 1);
    TopBitBits(b % 2, low, n - 1, j);
    if j < n - 1 { MirroredBits(b / 2, n - 1, j); }
  }

  /** A digit put on top of a number below 2^k. */
  lemma {:induction false} TopBitBits(top: nat, low: nat, k: nat, j: nat)
    requires top < 2 && low < Pow2(k) && j <= k
    ensures Bit(top * Pow2(k) + low, j) <==> if j == k then top == 1 else Bit(low, j)
    decreases k
  {
    var a := top * Pow2(k) + low;
    if k > 0 {
      DoubledOut(top, Pow2(k - 1));
      assert a / 2 == top * Pow2(k - 1) + low / 2 && a % 2 == low % 2;
      if j > 0 { TopBitBits(top, low / 2, k - 1, j - 1); }
    }
  }

  lemma ReverseTableExists() returns (rev: seq<nat>)
    ensures ReverseTable(rev)
  {
    assert Pow2(8) == 0x100;
    rev := seq(0x100, b requires 0 <= b => Mirrored(b, 8));
    forall b, j | 0 <= b < 0x100 && 0 <= j < 8 ensures Bit(rev[b], j) <==> Bit(b, 7 - j) { MirroredBits(b, 8, j); }
  }
}
