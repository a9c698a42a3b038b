/** myisampack.h: integers stored high byte first. `ulong` may have 32 or 64 bits (`wide`) and `char` may
    be signed or not; the bytes and the values depend on neither. */
module MyIsamPack {
  import opened ByteOrder
  import opened CTypes

  /** `(ulong) x` */
  function Ulong(wide: bool, x: int): (u: nat)
    ensures u == x % Pow256(if wide then 8 else 4)
  {
    Powers();
    if wide then x % 0x1_0000_0000_0000_0000 else x % 0x1_0000_0000
  }

  lemma UlongKeeps(wide: bool, n: nat, x: int)
    requires n <= 4
    ensures Big(n, Ulong(wide, x)) == Big(n, x)
  {
    LowBytes(n, if wide then 8 else 4, x);
  }

  // ---- Stores. `(uchar) (temp >> 8 * k)` is `temp / 256^k % 256`.

  method Int2Store(t: array<uchar>, at: nat, a: int)
    requires at + 2 <= t.Length
    modifies t
    ensures StoredAt(old(t[..]), t[..], at, Big(2, a))
  {
    var temp := Ulong(false, a);
    t[at + 1] := temp % 0x100;
    t[at] := temp / 0x100 % 0x100;
    UlongKeeps(false, 2, a);
    FourBytes(temp);
    IsStored(old(t[..]), t[..], at, Big(2, a));
  }

  method Int3Store(wide: bool, t: array<uchar>, at: nat, a: int)
    requires at + 3 <= t.Length
    modifies t
    ensures StoredAt(old(t[..]), t[..], at, Big(3, a))
  {
    var temp := Ulong(wide, a);
    t[at + 2] := temp % 0x100;
    t[at + 1] := temp / 0x100 % 0x100;
    t[at] := temp / 0x1_0000 % 0x100;
    UlongKeeps(wide, 3, a);
    FourBytes(temp);
    IsStored(old(t[..]), t[..], at, Big(3, a));
  }

  method Int4Store(wide: bool, t: array<uchar>, at: nat, a: int)
    requires at + 4 <= t.Length
    modifies t
    ensures StoredAt(old(t[..]), t[..], at, Big(4, a))
  {
    var temp := Ulong(wide, a);
    t[at + 3] := temp % 0x100;
    t[at + 2] := temp / 0x100 % 0x100;
    t[at + 1] := temp / 0x1_0000 % 0x100;
    t[at] := temp / 0x100_0000 % 0x100;
    UlongKeeps(wide, 4, a);
    FourBytes(temp);
    IsStored(old(t[..]), t[..], at, Big(4, a));
  }

  method Int5Store(wide: bool, t: array<uchar>, at: nat, a: int)
    requires at + 5 <= t.Length
    modifies t
    ensures StoredAt(old(t[..]), t[..], at, Big(5, a))
  {
    var temp, temp2 := Ulong(wide, a), Ulong(wide, a / 0x1_0000_0000);
    t[at + 4] := temp % 0x100;
    t[at + 3] := temp / 0x100 % 0x100;
    t[at + 2] := temp / 0x1_0000 % 0x100;
    t[at + 1] := temp / 0x100_0000 % 0x100;
    t[at] := temp2 % 0x100;
    Halves(wide, 1, a);
    FourBytes(temp);
    FourBytes(temp2);
    IsStored(old(t[..]), t[..], at, Big(5, a));
  }

  method Int6Store(wide: bool, t: array<uchar>, at: nat, a: int)
    requires at + 6 <= t.Length
    modifies t
    ensures StoredAt(old(t[..]), t[..], at, Big(6, a))
  {
    var temp, temp2 := Ulong(wide, a), Ulong(wide, a / 0x1_0000_0000);
    t[at + 5] := temp % 0x100;
    t[at + 4] := temp / 0x100 % 0x100;
    t[at + 3] := temp / 0x1_0000 % 0x100;
    t[at + 2] := temp / 0x100_0000 % 0x100;
    t[at + 1] := temp2 % 0x100;
    t[at] := temp2 / 0x100 % 0x100;
    Halves(wide, 2, a);
    FourBytes(temp);
    FourBytes(temp2);
    IsStored(old(t[..]), t[..], at, Big(6, a));
  }

  method Int7Store(wide: bool, t: array<uchar>, at: nat, a: int)
    requires at + 7 <= t.Length
    modifies t
    ensures StoredAt(old(t[..]), t[..], at, Big(7, a))
  {
    var temp, temp2 := Ulong(wide, a), Ulong(wide, a / 0x1_0000_0000);
    t[at + 6] := temp % 0x100;
    t[at + 5] := temp / 0x100 % 0x100;
    t[at + 4] := temp / 0x1_0000 % 0x100;
    t[at + 3] := temp / 0x100_0000 % 0x100;
    t[at + 2] := temp2 % 0x100;
    t[at + 1] := temp2 / 0x100 % 0x100;
    t[at] := temp2 / 0x1_0000 % 0x100;
    Halves(wide, 3, a);
    FourBytes(temp);
    FourBytes(temp2);
    IsStored(old(t[..]), t[..], at, Big(7, a));
  }

  method Int8Store(wide: bool, t: array<uchar>, at: nat, a: int)
    requires at + 8 <= t.Length
    modifies t
    ensures StoredAt(old(t[..]), t[..], at, Big(8, a))
  {
    var temp3, temp4 := Ulong(wide, a), Ulong(wide, a / 0x1_0000_0000);
    Int4Store(wide, t, at, temp4);
    ghost var mid := t[..];
    Int4Store(wide, t, at + 4, temp3);
    StoredTwice(old(t[..]), mid, t[..], at, Big(4, temp4), Big(4, temp3));
    Halves(wide, 4, a);
  }

  lemma Halves(wide: bool, m: nat, a: int)
    requires m <= 4
    ensures Big(m + 4, a) == Big(m, Ulong(wide, a / 0x1_0000_0000)) + Big(4, Ulong(wide, a))
  {
    Powers();
    HighAndLow(m, 4, a);
    UlongKeeps(wide, m, a / 0x1_0000_0000);
    UlongKeeps(wide, 4, a);
  }

  // ---- Loads

  /** `(char) b` as a number. */
  function Char(isSigned: bool, b: uchar): int {
    if isSigned && b >= 0x80 then b - 0x100 else b
  }

  /** `(int16) x`, `(int32) x`, `(longlong) x` */
  function Int16(x: int): int {
    var u := x % 0x1_0000;
    if u >= 0x8000 then u - 0x1_0000 else u
  }

  function Int32(x: int): int {
    var u := x % 0x1_0000_0000;
    if u >= 0x8000_0000 then u - 0x1_0000_0000 else u
  }

  function Int64(x: int): int {
    var u := x % 0x1_0000_0000_0000_0000;
    if u >= 0x8000_0000_0000_0000 then u - 0x1_0000_0000_0000_0000 else u
  }

  /** `(uint32) ((const uchar*) a)[i]` */
  function B(a: seq<uchar>, i: nat): (b: nat)
    requires i < |a|
    ensures b < 0x100
  {
    a[i]
  }

  function Uint2Korr(a: seq<uchar>): (r: nat)
    requires |a| >= 2
    ensures r == FromBig(a, 2)
  {
    B(a, 1) + B(a, 0) * 0x100
  }

  function Uint3Korr(a: seq<uchar>): (r: nat)
    requires |a| >= 3
    ensures r == FromBig(a, 3)
  {
    B(a, 2) + B(a, 1) * 0x100 + B(a, 0) * 0x1_0000
  }

  function Uint4Korr(a: seq<uchar>): (r: nat)
    requires |a| >= 4
    ensures r == FromBig(a, 4)
  {
    B(a, 3) + B(a, 2) * 0x100 + B(a, 1) * 0x1_0000 + B(a, 0) * 0x100_0000
  }

  function Uint5Korr(a: seq<uchar>): (r: nat)
    requires |a| >= 5
    ensures r == FromBig(a, 5)
  {
    (B(a, 4) + B(a, 3) * 0x100 + B(a, 2) * 0x1_0000 + B(a, 1) * 0x100_0000) + B(a, 0) * 0x1_0000_0000
  }

  function Uint6Korr(a: seq<uchar>): (r: nat)
    requires |a| >= 6
    ensures r == FromBig(a, 6)
  {
    (B(a, 5) + B(a, 4) * 0x100 + B(a, 3) * 0x1_0000 + B(a, 2) * 0x100_0000) +
    (B(a, 1) + B(a, 0) * 0x100) * 0x1_0000_0000
  }

  function Uint7Korr(a: seq<uchar>): (r: nat)
    requires |a| >= 7
    ensures r == FromBig(a, 7)
  {
    (B(a, 6) + B(a, 5) * 0x100 + B(a, 4) * 0x1_0000 + B(a, 3) * 0x100_0000) +
    (B(a, 2) + B(a, 1) * 0x100 + B(a, 0) * 0x1_0000) * 0x1_0000_0000
  }

  function Uint8Korr(a: seq<uchar>): (r: nat)
    requires |a| >= 8
    ensures r == FromBig(a, 8)
  {
    (B(a, 7) + B(a, 6) * 0x100 + B(a, 5) * 0x1_0000 + B(a, 4) * 0x100_0000) +
    (B(a, 3) + B(a, 2) * 0x100 + B(a, 1) * 0x1_0000 + B(a, 0) * 0x100_0000) * 0x1_0000_0000
  }

  /** Casts give two's complement. */
  lemma CastsAreSigned(u: nat)
    ensures u < 0x1_0000 ==> Int16(u) == Signed(2, u)
    ensures u < 0x1_0000_0000 ==> Int32(u) == Signed(4, u)
    ensures u < 0x1_0000_0000_0000_0000 ==> Int64(u) == Signed(8, u)
  {
    Powers();
  }

  /** The high byte of two, cast and shifted, is the same whether `char` is signed or not. */
  lemma HighByte(charSigned: bool, b: uchar, y: uchar)
    ensures Int16(y + Int16(Char(charSigned, b) * 0x100)) == Int16(y as int + b as int * 0x100)
  {
  }

  function Sint2Korr(charSigned: bool, a: seq<uchar>): (r: int)
    requires |a| >= 2
    ensures r == Signed(2, FromBig(a, 2))
  {
    HighByte(charSigned, a[0], a[1]);
    CastsAreSigned(FromBig(a, 2));
    Int16(B(a, 1) + Int16(Char(charSigned, a[0]) * 0x100))
  }

  function Sint3Korr(a: seq<uchar>): (r: int)
    requires |a| >= 3
    ensures r == Signed(3, FromBig(a, 3))
  {
    Int32(if B(a, 0) >= 0x80 then 0xFF * 0x100_0000 + B(a, 0) * 0x1_0000 + B(a, 1) * 0x100 + B(a, 2)
          else B(a, 0) * 0x1_0000 + B(a, 1) * 0x100 + B(a, 2))
  }

  /** Adding the top byte, cast and shifted, is the same whether `char` is signed or not. */
  lemma TopByte(charSigned: bool, b: uchar, y: int)
    ensures Int32(y + Int32(Char(charSigned, b) * 0x100_0000)) == Int32(y + b as int * 0x100_0000)
  {
    var z: int := Char(charSigned, b) * 0x100_0000;
    var w: int := b as int * 0x100_0000;
    assert z == w || z == w - 0x1_0000_0000;
    var k := (Int32(z) - w) / 0x1_0000_0000;
    assert Int32(z) == w + k * 0x1_0000_0000;
  }

  function Sint4Korr(charSigned: bool, a: seq<uchar>): (r: int)
    requires |a| >= 4
    ensures r == Signed(4, FromBig(a, 4))
  {
    TopByte(charSigned, a[0], B(a, 3) + B(a, 2) * 0x100 + B(a, 1) * 0x1_0000);
    CastsAreSigned(Uint4Korr(a));
    Int32(B(a, 3) + B(a, 2) * 0x100 + B(a, 1) * 0x1_0000 + Int32(Char(charSigned, a[0]) * 0x100_0000))
  }

  function Sint8Korr(a: seq<uchar>): (r: int)
    requires |a| >= 8
    ensures r == Signed(8, FromBig(a, 8))
  {
    BigBound(a, 8);
    CastsAreSigned(Uint8Korr(a));
    assert Uint8Korr(a) < 0x1_0000_0000_0000_0000 by { Powers(); }
    Int64(Uint8Korr(a))
  }

  /** Whatever was stored is loaded again, for every width and the whole range of each. */
  lemma LoadsWhatWasStored(charSigned: bool, x: int)
    ensures FitsUnsigned(2, x) ==> Uint2Korr(Big(2, x)) == x
    ensures FitsUnsigned(3, x) ==> Uint3Korr(Big(3, x)) == x
    ensures FitsUnsigned(4, x) ==> Uint4Korr(Big(4, x)) == x
    ensures FitsUnsigned(5, x) ==> Uint5Korr(Big(5, x)) == x
    ensures FitsUnsigned(6, x) ==> Uint6Korr(Big(6, x)) == x
    ensures FitsUnsigned(7, x) ==> Uint7Korr(Big(7, x)) == x
    ensures FitsUnsigned(8, x) ==> Uint8Korr(Big(8, x)) == x
    ensures FitsSigned(2, x) ==> Sint2Korr(charSigned, Big(2, x)) == x
    ensures FitsSigned(3, x) ==> Sint3Korr(Big(3, x)) == x
    ensures FitsSigned(4, x) ==> Sint4Korr(charSigned, Big(4, x)) == x
    ensures FitsSigned(8, x) ==> Sint8Korr(Big(8, x)) == x
  {
    forall n: nat | FitsUnsigned(n, x) ensures FromBig(Big(n, x), n) == x { UnsignedReadsBack(n, x); }
    forall n: nat | FitsSigned(n, x) ensures Signed(n, FromBig(Big(n, x), n)) == x { SignedReadsBack(n, x); }
  }
}
