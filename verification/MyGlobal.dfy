/** my_global.h: integers stored low byte first, in the portable form used off x86. */
module MyGlobal {
  import opened ByteOrder
  import opened CTypes
  import opened MyIsamPack

  /** `(uint) x` */
  function Uint(x: int): (u: nat)
    ensures u == x % Pow256(4)
  {
    Powers();
    x % 0x1_0000_0000
  }

  method Int2Store(t: array<uchar>, at: nat, a: int)
    requires at + 2 <= t.Length
    modifies t
    ensures StoredAt(old(t[..]), t[..], at, Little(2, a))
  {
    var temp := Uint(a);
    t[at] := temp % 0x100;
    t[at + 1] := temp / 0x100 % 0x100;
    LowBytes(2, 4, a);
    FourBytes(temp);
    IsStored(old(t[..]), t[..], at, Little(2, a));
  }

  method Int3Store(t: array<uchar>, at: nat, a: int)
    requires at + 3 <= t.Length
    modifies t
    ensures StoredAt(old(t[..]), t[..], at, Little(3, a))
  {
    t[at] := a % 0x100;
    t[at + 1] := a / 0x100 % 0x100;
    t[at + 2] := a / 0x1_0000 % 0x100;
    FourBytes(a);
    IsStored(old(t[..]), t[..], at, Little(3, a));
  }

  method Int4Store(t: array<uchar>, at: nat, a: int)
    requires at + 4 <= t.Length
    modifies t
    ensures StoredAt(old(t[..]), t[..], at, Little(4, a))
  {
    t[at] := a % 0x100;
    t[at + 1] := a / 0x100 % 0x100;
    t[at + 2] := a / 0x1_0000 % 0x100;
    t[at + 3] := a / 0x100_0000 % 0x100;
    FourBytes(a);
    IsStored(old(t[..]), t[..], at, Little(4, a));
  }

  method Int5Store(t: array<uchar>, at: nat, a: int)
    requires at + 5 <= t.Length
    modifies t
    ensures StoredAt(old(t[..]), t[..], at, Little(5, a))
  {
    t[at] := a % 0x100;
    t[at + 1] := a / 0x100 % 0x100;
    t[at + 2] := a / 0x1_0000 % 0x100;
    t[at + 3] := a / 0x100_0000 % 0x100;
    t[at + 4] := a / 0x1_0000_0000 % 0x100;
    SixBytes(a);
    IsStored(old(t[..]), t[..], at, Little(5, a));
  }

  method Int6Store(t: array<uchar>, at: nat, a: int)
    requires at + 6 <= t.Length
    modifies t
    ensures StoredAt(old(t[..]), t[..], at, Little(6, a))
  {
    t[at] := a % 0x100;
    t[at + 1] := a / 0x100 % 0x100;
    t[at + 2] := a / 0x1_0000 % 0x100;
    t[at + 3] := a / 0x100_0000 % 0x100;
    t[at + 4] := a / 0x1_0000_0000 % 0x100;
    t[at + 5] := a / 0x100_0000_0000 % 0x100;
    SixBytes(a);
    IsStored(old(t[..]), t[..], at, Little(6, a));
  }

  lemma SixBytes(a: int)
    ensures Little(5, a) == [a % 0x100, a / 0x100 % 0x100, a / 0x1_0000 % 0x100, a / 0x100_0000 % 0x100,
                             a / 0x1_0000_0000 % 0x100]
    ensures Little(6, a) == [a % 0x100, a / 0x100 % 0x100, a / 0x1_0000 % 0x100, a / 0x100_0000 % 0x100,
                             a / 0x1_0000_0000 % 0x100, a / 0x100_0000_0000 % 0x100]
  {
    var high := a / 0x1_0000_0000;
    Powers();
    HighAndLow(1, 4, a);
    HighAndLow(2, 4, a);
    FourBytes(a);
    FourBytes(high);
    assert high / 0x100 == a / 0x100_0000_0000;
  }

  method Int8Store(t: array<uchar>, at: nat, a: int)
    requires at + 8 <= t.Length
    modifies t
    ensures StoredAt(old(t[..]), t[..], at, Little(8, a))
  {
    var temp, temp2 := Uint(a), Uint(a / 0x1_0000_0000);
    Int4Store(t, at, temp);
    ghost var mid := t[..];
    Int4Store(t, at + 4, temp2);
    StoredTwice(old(t[..]), mid, t[..], at, Little(4, temp), Little(4, temp2));
    LowBytes(4, 4, a);
    LowBytes(4, 4, a / 0x1_0000_0000);
    Powers();
    HighAndLow(4, 4, a);
  }

  // ---- Loads

  function Uint2Korr(a: seq<uchar>): (r: nat)
    requires |a| >= 2
    ensures r == FromLittle(a, 0, 2)
  {
    FromLittleUnrolled(a, 2);
    B(a, 0) + B(a, 1) * 0x100
  }

  function Uint3Korr(a: seq<uchar>): (r: nat)
    requires |a| >= 3
    ensures r == FromLittle(a, 0, 3)
  {
    FromLittleUnrolled(a, 3);
    B(a, 0) + B(a, 1) * 0x100 + B(a, 2) * 0x1_0000
  }

  function Uint4Korr(a: seq<uchar>): (r: nat)
    requires |a| >= 4
    ensures r == FromLittle(a, 0, 4)
  {
    FromLittleUnrolled(a, 4);
    B(a, 0) + B(a, 1) * 0x100 + B(a, 2) * 0x1_0000 + B(a, 3) * 0x100_0000
  }

  function Uint5Korr(a: seq<uchar>): (r: nat)
    requires |a| >= 5
    ensures r == FromLittle(a, 0, 5)
  {
    FromLittleUnrolled(a, 5);
    (B(a, 0) + B(a, 1) * 0x100 + B(a, 2) * 0x1_0000 + B(a, 3) * 0x100_0000) + B(a, 4) * 0x1_0000_0000
  }

  function Uint6Korr(a: seq<uchar>): (r: nat)
    requires |a| >= 6
    ensures r == FromLittle(a, 0, 6)
  {
    FromLittleUnrolled(a, 6);
    (B(a, 0) + B(a, 1) * 0x100 + B(a, 2) * 0x1_0000 + B(a, 3) * 0x100_0000) +
    B(a, 4) * 0x1_0000_0000 + B(a, 5) * 0x100_0000_0000
  }

  function Uint8Korr(a: seq<uchar>): (r: nat)
    requires |a| >= 8
    ensures r == FromLittle(a, 0, 8)
  {
    FromLittleUnrolled(a, 8);
    (B(a, 0) + B(a, 1) * 0x100 + B(a, 2) * 0x1_0000 + B(a, 3) * 0x100_0000) +
    (B(a, 4) + B(a, 5) * 0x100 + B(a, 6) * 0x1_0000 + B(a, 7) * 0x100_0000) * 0x1_0000_0000
  }

  lemma FromLittleUnrolled(a: seq<uchar>, n: nat)
    requires 2 <= n <= |a| && n <= 8
    ensures FromLittle(a, 0, n) == a[0] as int + a[1] as int * 0x100 +
              (if n > 2 then a[2] as int * 0x1_0000 else 0) + (if n > 3 then a[3] as int * 0x100_0000 else 0) +
              (if n > 4 then a[4] as int * 0x1_0000_0000 else 0) +
              (if n > 5 then a[5] as int * 0x100_0000_0000 else 0) +
              (if n > 6 then a[6] as int * 0x1_0000_0000_0000 else 0) +
              (if n > 7 then a[7] as int * 0x100_0000_0000_0000 else 0)
  {
    assert n > 7 ==> FromLittle(a, 7, n) == a[7] as int + 0x100 * FromLittle(a, 8, n);
    assert n > 6 ==> FromLittle(a, 6, n) == a[6] as int + 0x100 * FromLittle(a, 7, n);
    assert n > 5 ==> FromLittle(a, 5, n) == a[5] as int + 0x100 * FromLittle(a, 6, n);
    assert n > 4 ==> FromLittle(a, 4, n) == a[4] as int + 0x100 * FromLittle(a, 5, n);
    assert n > 3 ==> FromLittle(a, 3, n) == a[3] as int + 0x100 * FromLittle(a, 4, n);
    assert n > 2 ==> FromLittle(a, 2, n) == a[2] as int + 0x100 * FromLittle(a, 3, n);
    assert FromLittle(a, 1, n) == a[1] as int + 0x100 * FromLittle(a, 2, n);
  }

  /** `((int16) (a)[i]) << 8` and `<< 24`: the byte may come from a signed or unsigned array. */
  function Sint2Korr(charSigned: bool, a: seq<uchar>): (r: int)
    requires |a| >= 2
    ensures r == Signed(2, FromLittle(a, 0, 2))
  {
    HighByte(charSigned, a[1], a[0]);
    CastsAreSigned(Uint2Korr(a));
    Int16(B(a, 0) + Int16(Char(charSigned, a[1]) * 0x100))
  }

  function Sint3Korr(a: seq<uchar>): (r: int)
    requires |a| >= 3
    ensures r == Signed(3, FromLittle(a, 0, 3))
  {
    FromLittleUnrolled(a, 3);
    Powers();
    Int32(if B(a, 2) >= 0x80 then 0xFF * 0x100_0000 + B(a, 2) * 0x1_0000 + B(a, 1) * 0x100 + B(a, 0)
          else B(a, 2) * 0x1_0000 + B(a, 1) * 0x100 + B(a, 0))
  }

  function Sint4Korr(charSigned: bool, a: seq<uchar>): (r: int)
    requires |a| >= 4
    ensures r == Signed(4, FromLittle(a, 0, 4))
  {
    CastsAreSigned(Uint4Korr(a));
    TopByte(charSigned, a[3], B(a, 0) + B(a, 1) * 0x100 + B(a, 2) * 0x1_0000);
    Int32(B(a, 0) + B(a, 1) * 0x100 + B(a, 2) * 0x1_0000 + Int32(Char(charSigned, a[3]) * 0x100_0000))
  }

  function Sint8Korr(a: seq<uchar>): (r: int)
    requires |a| >= 8
    ensures r == Signed(8, FromLittle(a, 0, 8))
  {
    LittleBound(a, 0, 8);
    CastsAreSigned(Uint8Korr(a));
    assert Uint8Korr(a) < 0x1_0000_0000_0000_0000 by { Powers(); }
    Int64(Uint8Korr(a))
  }

  /** Whatever was stored is loaded again, 24-bit negative numbers included. */
  lemma LoadsWhatWasStored(charSigned: bool, x: int)
    ensures FitsUnsigned(2, x) ==> Uint2Korr(Little(2, x)) == x
    ensures FitsUnsigned(3, x) ==> Uint3Korr(Little(3, x)) == x
    ensures FitsUnsigned(4, x) ==> Uint4Korr(Little(4, x)) == x
    ensures FitsUnsigned(5, x) ==> Uint5Korr(Little(5, x)) == x
    ensures FitsUnsigned(6, x) ==> Uint6Korr(Little(6, x)) == x
    ensures FitsUnsigned(8, x) ==> Uint8Korr(Little(8, x)) == x
    ensures FitsSigned(2, x) ==> Sint2Korr(charSigned, Little(2, x)) == x
    ensures FitsSigned(3, x) ==> Sint3Korr(Little(3, x)) == x
    ensures FitsSigned(4, x) ==> Sint4Korr(charSigned, Little(4, x)) == x
    ensures FitsSigned(8, x) ==> Sint8Korr(Little(8, x)) == x
  {
    forall n: nat | FitsUnsigned(n, x) ensures FromLittle(Little(n, x), 0, n) == x { UnsignedReadsBack(n, x); }
    forall n: nat | FitsSigned(n, x) ensures Signed(n, FromLittle(Little(n, x), 0, n)) == x {
      SignedReadsBack(n, x);
    }
  }
}
