/** What it means for bytes to hold a number, high byte first and low byte first. */
module ByteOrder {

  import opened CTypes
  import opened Arithmetic

  function Pow256(n: nat): (p: nat)
    ensures p >= 1
  {
    if n == 0 then 1 else 0x100 * Pow256(n - 1)
  }

  /** The low `n` bytes of a number in two's complement, high byte first. */
  function Big(n: nat, x: int): (s: seq<uchar>)
    ensures |s| == n
  {
    if n == 0 then [] else Big(n - 1, x / 0x100) + [x % 0x100]
  }

  /** The same bytes, low byte first. */
  function Little(n: nat, x: int): (s: seq<uchar>)
    ensures |s| == n
  {
    if n == 0 then [] else [x % 0x100] + Little(n - 1, x / 0x100)
  }

  /** The number in the first `n` bytes, high byte first. */
  function FromBig(s: seq<uchar>, n: nat): nat
    requires n <= |s|
    decreases n
  {
    if n == 0 then 0 else FromBig(s, n - 1) * 0x100 + s[n - 1]
  }

  /** The number in the bytes from `i` to `n`, low byte first. */
  function FromLittle(s: seq<uchar>, i: nat, n: nat): nat
    requires i <= n <= |s|
    decreases n - i
  {
    if i == n then 0 else s[i] + 0x100 * FromLittle(s, i + 1, n)
  }

  /** An unsigned number of `n` bytes read as signed. */
  function Signed(n: nat, u: int): int {
    if 2 * u >= Pow256(n) then u - Pow256(n) else u
  }

  predicate FitsUnsigned(n: nat, x: int) {
    0 <= x < Pow256(n)
  }

  predicate FitsSigned(n: nat, x: int) {
    2 * x + Pow256(n) >= 0 && 2 * x < Pow256(n)
  }

  lemma {:induction false} BigIsLittleReversed(n: nat, x: int, i: nat)
    requires i < n
    ensures Big(n, x)[i] == Little(n, x)[n - 1 - i]
    decreases n
  {
    if i < n - 1 { BigIsLittleReversed(n - 1, x / 0x100, i); }
  }

  lemma {:induction false} FromBigPrefix(s: seq<uchar>, t: seq<uchar>, n: nat)
    requires n <= |s|
    ensures FromBig(s + t, n) == FromBig(s, n)
  {
    if n > 0 { FromBigPrefix(s, t, n - 1); }
  }

  lemma {:induction false} BigBound(s: seq<uchar>, n: nat)
    requires n <= |s|
    ensures FromBig(s, n) < Pow256(n)
  {
    if n > 0 { BigBound(s, n - 1); }
  }

  lemma {:induction false} LittleBound(s: seq<uchar>, i: nat, n: nat)
    requires i <= n <= |s|
    ensures FromLittle(s, i, n) < Pow256(n - i)
    decreases n - i
  {
    if i < n { LittleBound(s, i + 1, n); }
  }

  lemma {:induction false} FromLittleShift(s: seq<uchar>, b: uchar, i: nat, n: nat)
    requires i <= n <= |s|
    ensures FromLittle([b] + s, i + 1, n + 1) == FromLittle(s, i, n)
    decreases n - i
  {
    if i < n { FromLittleShift(s, b, i + 1, n); }
  }

  /** Reading back gives the number modulo 256^n. */
  lemma {:induction false} BigRoundTrip(n: nat, x: int)
    ensures FromBig(Big(n, x), n) == x % Pow256(n)
    decreases n
  {
    if n > 0 {
      BigRoundTrip(n - 1, x / 0x100);
      FromBigPrefix(Big(n - 1, x / 0x100), [x % 0x100], n - 1);
      ModSplit(x, Pow256(n - 1));
    }
  }

  lemma {:induction false} LittleRoundTrip(n: nat, x: int)
    ensures FromLittle(Little(n, x), 0, n) == x % Pow256(n)
    decreases n
  {
    if n > 0 {
      LittleRoundTrip(n - 1, x / 0x100);
      FromLittleShift(Little(n - 1, x / 0x100), x % 0x100, 0, n - 1);
      ModSplit(x, Pow256(n - 1));
    }
  }

  lemma ModSplit(x: int, p: nat)
    requires p >= 1
    ensures x % (0x100 * p) == x / 0x100 % p * 0x100 + x % 0x100
  {
    var q, r := x / 0x100 / p, x / 0x100 % p;
    assert x / 0x100 == q * p + r;
    var low := r * 0x100 + x % 0x100;
    assert x == q * (0x100 * p) + low;
    DivisionIsUnique(x, 0x100 * p, q, low);
  }

  lemma UnsignedReadsBack(n: nat, x: int)
    requires FitsUnsigned(n, x)
    ensures FromBig(Big(n, x), n) == x == FromLittle(Little(n, x), 0, n)
  {
    BigRoundTrip(n, x);
    LittleRoundTrip(n, x);
    DivisionIsUnique(x, Pow256(n), 0, x);
  }

  lemma SignedReadsBack(n: nat, x: int)
    requires FitsSigned(n, x)
    ensures Signed(n, FromBig(Big(n, x), n)) == x == Signed(n, FromLittle(Little(n, x), 0, n))
  {
    BigRoundTrip(n, x);
    LittleRoundTrip(n, x);
    if x >= 0 {
      DivisionIsUnique(x, Pow256(n), 0, x);
    } else {
      DivisionIsUnique(x, Pow256(n), -1, x + Pow256(n));
    }
  }

  /** The order of memcmp on strings of one length. */
  ghost predicate Before(a: seq<uchar>, b: seq<uchar>)
    requires |a| == |b|
  {
    exists k :: 0 <= k < |a| && a[..k] == b[..k] && a[k] < b[k]
  }

  /** Keys stored high byte first sort as the numbers they hold. */
  lemma {:induction false} BigKeepsOrder(n: nat, x: int, y: int)
    requires FitsUnsigned(n, x) && FitsUnsigned(n, y)
    ensures x < y <==> Before(Big(n, x), Big(n, y))
    decreases n
  {
    if n > 0 {
      var x', y' := x / 0x100, y / 0x100;
      BigKeepsOrder(n - 1, x', y');
      var a, b := Big(n, x), Big(n, y);
      var a', b' := Big(n - 1, x'), Big(n - 1, y');
      assert a == a' + [x % 0x100] && b == b' + [y % 0x100];
      if x' < y' {
        var k :| 0 <= k < n - 1 && a'[..k] == b'[..k] && a'[k] < b'[k];
        assert a[..k] == b[..k] && a[k] < b[k];
      } else if x' == y' && x < y {
        assert a[..n - 1] == b[..n - 1] && a[n - 1] < b[n - 1];
      }
      if k :| 0 <= k < n && a[..k] == b[..k] && a[k] < b[k] {
        if k < n - 1 {
          assert a'[..k] == a[..k] == b[..k] == b'[..k] && a'[k] < b'[k];
        } else {
          assert a' == a[..n - 1] == b[..n - 1] == b';
          UnsignedReadsBack(n - 1, x');
          UnsignedReadsBack(n - 1, y');
        }
      }
    }
  }

  /** `bytes` have replaced what was at `at`, and nothing else has changed. */
  predicate StoredAt(was: seq<uchar>, now: seq<uchar>, at: nat, bytes: seq<uchar>)
    requires at + |bytes| <= |was|
  {
    now == was[..at] + bytes + was[at + |bytes|..]
  }

  lemma IsStored(was: seq<uchar>, now: seq<uchar>, at: nat, bytes: seq<uchar>)
    requires |was| == |now| && at + |bytes| <= |was|
    requires now[..at] == was[..at] && now[at + |bytes|..] == was[at + |bytes|..] && now[at..at + |bytes|] == bytes
    ensures StoredAt(was, now, at, bytes)
  {
    assert now == now[..at] + now[at..at + |bytes|] + now[at + |bytes|..];
  }

  /** Two stores side by side make one. */
  lemma StoredTwice(was: seq<uchar>, mid: seq<uchar>, now: seq<uchar>, at: nat, b1: seq<uchar>, b2: seq<uchar>)
    requires at + |b1| + |b2| <= |was|
    requires StoredAt(was, mid, at, b1) && StoredAt(mid, now, at + |b1|, b2)
    ensures StoredAt(was, now, at, b1 + b2)
  {
    assert mid[..at + |b1|] == was[..at] + b1;
    assert mid[at + |b1| + |b2|..] == was[at + |b1| + |b2|..];
  }

  /** Truncating a number does not change the bytes that are kept. */
  lemma {:induction false} LowBytes(n: nat, k: nat, x: int)
    requires n <= k
    ensures Big(n, x % Pow256(k)) == Big(n, x)
    ensures Little(n, x % Pow256(k)) == Little(n, x)
    decreases n
  {
    if n > 0 {
      var low := x % Pow256(k);
      ModSplit(x, Pow256(k - 1));
      assert low / 0x100 == x / 0x100 % Pow256(k - 1) && low % 0x100 == x % 0x100;
      LowBytes(n - 1, k - 1, x / 0x100);
    }
  }

  lemma Powers()
    ensures Pow256(2) == 0x1_0000 && Pow256(3) == 0x100_0000 && Pow256(4) == 0x1_0000_0000
    ensures Pow256(8) == 0x1_0000_0000_0000_0000
  {
    assert Pow256(6) == 0x1_0000_0000_0000;
  }

  /** `x` shifted right by `k` bytes. */
  function Shifted(x: int, k: nat): int
    decreases k
  {
    if k == 0 then x else Shifted(x / 0x100, k - 1)
  }

  lemma {:induction false} ShiftedIsQuotient(x: int, k: nat)
    ensures Shifted(x, k) == x / Pow256(k)
    decreases k
  {
    if k > 0 {
      ShiftedIsQuotient(x / 0x100, k - 1);
      DivSplit(x, Pow256(k - 1));
    }
  }

  lemma {:induction false} ShiftedBytes(m: nat, k: nat, x: int)
    ensures Big(m + k, x) == Big(m, Shifted(x, k)) + Big(k, x)
    ensures Little(m + k, x) == Little(k, x) + Little(m, Shifted(x, k))
    decreases k
  {
    if k > 0 {
      ShiftedBytes(m, k - 1, x / 0x100);
      assert Big(m + k, x) == Big(m + (k - 1), x / 0x100) + [x % 0x100];
      assert Little(m + k, x) == [x % 0x100] + Little(m + (k - 1), x / 0x100);
    }
  }

  /** The bytes above the low `k` are the bytes of the number shifted right. */
  lemma HighAndLow(m: nat, k: nat, x: int)
    ensures Big(m + k, x) == Big(m, x / Pow256(k)) + Big(k, x)
    ensures Little(m + k, x) == Little(k, x) + Little(m, x / Pow256(k))
  {
    ShiftedIsQuotient(x, k);
    ShiftedBytes(m, k, x);
  }

  lemma DivSplit(x: int, p: nat)
    requires p >= 1
    ensures x / (0x100 * p) == x / 0x100 / p
  {
    var q, r := x / 0x100 / p, x / 0x100 % p;
    assert x / 0x100 == q * p + r;
    var low := r * 0x100 + x % 0x100;
    assert x == q * (0x100 * p) + low;
    DivisionIsUnique(x, 0x100 * p, q, low);
  }

  /** The low four bytes, spelled out. */
  lemma FourBytes(x: int)
    ensures Big(1, x) == [x % 0x100] == Little(1, x)
    ensures Big(2, x) == [x / 0x100 % 0x100, x % 0x100]
    ensures Big(3, x) == [x / 0x1_0000 % 0x100, x / 0x100 % 0x100, x % 0x100]
    ensures Big(4, x) == [x / 0x100_0000 % 0x100, x / 0x1_0000 % 0x100, x / 0x100 % 0x100, x % 0x100]
    ensures Little(2, x) == [x % 0x100, x / 0x100 % 0x100]
    ensures Little(3, x) == [x % 0x100, x / 0x100 % 0x100, x / 0x1_0000 % 0x100]
    ensures Little(4, x) == [x % 0x100, x / 0x100 % 0x100, x / 0x1_0000 % 0x100, x / 0x100_0000 % 0x100]
  {
    var x1, x2, x3 := x / 0x100, x / 0x1_0000, x / 0x100_0000;
    assert x1 / 0x100 == x2 && x2 / 0x100 == x3;
    assert Big(1, x) == Big(0, x1) + [x % 0x100] && Big(1, x1) == Big(0, x2) + [x1 % 0x100];
    assert Big(1, x2) == Big(0, x3) + [x2 % 0x100] && Big(1, x3) == Big(0, x3 / 0x100) + [x3 % 0x100];
    assert Big(2, x) == Big(1, x1) + [x % 0x100] && Big(2, x1) == Big(1, x2) + [x1 % 0x100];
    assert Big(2, x2) == Big(1, x3) + [x2 % 0x100];
    assert Big(3, x) == Big(2, x1) + [x % 0x100] && Big(3, x1) == Big(2, x2) + [x1 % 0x100];
    assert Big(4, x) == Big(3, x1) + [x % 0x100];
    assert Little(1, x3) == [x3 % 0x100] && Little(1, x2) == [x2 % 0x100] && Little(1, x1) == [x1 % 0x100];
    assert Little(2, x2) == [x2 % 0x100] + Little(1, x3) && Little(2, x1) == [x1 % 0x100] + Little(1, x2);
    assert Little(3, x1) == [x1 % 0x100] + Little(2, x2);
  }
}
