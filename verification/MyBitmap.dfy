/** my_bitmap.h: a byte array holding a set of numbers below `nBits`. */
module MyBitmap {
  import opened Bits
  import opened CTypes

  function NoBytes(nBits: nat): nat { (nBits + 7) / 8 }
  function NoWords(nBits: nat): nat { (nBits + 31) / 32 }
  function BufferSize(nBits: nat): nat { (nBits + 31) / 32 * 4 }
  function BytesWordAligned(bytes: nat): nat { 4 * ((bytes + 3) / 4) }

  /** The size macros agree, and the buffer is large enough with less than a word to spare. */
  lemma SizesAgree(nBits: nat)
    ensures BytesWordAligned(NoBytes(nBits)) == 4 * NoWords(nBits) == BufferSize(nBits)
    ensures nBits <= 8 * NoBytes(nBits) <= 8 * BufferSize(nBits) < nBits + 32
    ensures 8 * NoBytes(nBits) < nBits + 8
  {
  }

  lemma ByteBits(k: nat)
    requires k < 8
    ensures Pow2(k) < 0x100 && Pow2(8) == 0x100
  {
    Pow2Monotone(k, 7);
    assert Pow2(7) == 0x80;
  }

  ghost function Below(n: nat): (s: set<nat>)
    ensures forall b: nat :: b in s <==> b < n
  {
    if n == 0 then {} else Below(n - 1) + {n - 1}
  }

  class Bitmap {
    const bitmap: array<uchar>
    const nBits: nat
    const lastWordMask: seq<uchar>  // the four bytes of last_word_mask, in memory order
    const lastWordPtr: nat          // byte offset of last_word_ptr

    /** What `bitmap_init` and `create_last_word_mask` set up: the mask covers exactly the padding. */
    ghost predicate Valid() {
      && 0 < nBits
      && bitmap.Length == BufferSize(nBits)
      && lastWordPtr + 4 == bitmap.Length
      && |lastWordMask| == 4
      && forall i, j | 0 <= i < 4 && 0 <= j < 8 ::
           Bit(lastWordMask[i], j) <==> 8 * (lastWordPtr + i) + j >= nBits
    }

    /** Bit `b` of the buffer, padding included. */
    ghost predicate IsOn(b: nat)
      requires b < 8 * bitmap.Length
      reads bitmap
    {
      Bit(bitmap[b / 8], b % 8)
    }

    ghost function Contents(): set<nat>
      requires nBits <= 8 * bitmap.Length
      reads bitmap
    {
      set b: nat | b < nBits && IsOn(b)
    }

    constructor (bitmap: array<uchar>, nBits: nat, mask: seq<uchar>, ptr: nat)
      ensures this.bitmap == bitmap && this.nBits == nBits && lastWordMask == mask && lastWordPtr == ptr
    {
      this.bitmap, this.nBits, lastWordMask, lastWordPtr := bitmap, nBits, mask, ptr;
    }

    method SetBit(bit: nat)
      requires Valid() && bit < nBits
      modifies bitmap
      ensures Contents() == old(Contents()) + {bit}
      ensures forall b: nat | b < 8 * bitmap.Length :: IsOn(b) <==> old(IsOn(b)) || b == bit
    {
      ByteBits(bit % 8);
      OrBound(bitmap[bit / 8], Pow2(bit % 8), 8);
      forall i: nat
        ensures Bit(Or(bitmap[bit / 8], Pow2(bit % 8)), i) <==> Bit(bitmap[bit / 8], i) || i == bit % 8
      {
        OrBits(bitmap[bit / 8], Pow2(bit % 8), i);
        Pow2Bits(bit % 8, i);
      }
      bitmap[bit / 8] := Or(bitmap[bit / 8], Pow2(bit % 8));
      forall b: nat | b < 8 * bitmap.Length ensures IsOn(b) <==> old(IsOn(b)) || b == bit {
        assert b / 8 == bit / 8 && b % 8 == bit % 8 ==> b == bit;
      }
    }

    method FlipBit(bit: nat)
      requires Valid() && bit < nBits
      modifies bitmap
      ensures Contents() == if bit in old(Contents()) then old(Contents()) - {bit} else old(Contents()) + {bit}
      ensures forall b: nat | b < 8 * bitmap.Length :: IsOn(b) <==> old(IsOn(b)) != (b == bit)
    {
      ByteBits(bit % 8);
      OrBound(bitmap[bit / 8], Pow2(bit % 8), 8);
      forall i: nat
        ensures Bit(Xor(bitmap[bit / 8], Pow2(bit % 8)), i) <==> Bit(bitmap[bit / 8], i) != (i == bit % 8)
      {
        XorBits(bitmap[bit / 8], Pow2(bit % 8), i);
        Pow2Bits(bit % 8, i);
      }
      bitmap[bit / 8] := Xor(bitmap[bit / 8], Pow2(bit % 8));
      forall b: nat | b < 8 * bitmap.Length ensures IsOn(b) <==> old(IsOn(b)) != (b == bit) {
        assert b / 8 == bit / 8 && b % 8 == bit % 8 ==> b == bit;
      }
    }

    method ClearBit(bit: nat)
      requires Valid() && bit < nBits
      modifies bitmap
      ensures Contents() == old(Contents()) - {bit}
      ensures forall b: nat | b < 8 * bitmap.Length :: IsOn(b) <==> old(IsOn(b)) && b != bit
    {
      ByteBits(bit % 8);
      var others := 0xFF - Pow2(bit % 8);
      AndBound(bitmap[bit / 8], others);
      forall i: nat
        ensures Bit(And(bitmap[bit / 8], others), i) <==> Bit(bitmap[bit / 8], i) && i != bit % 8
      {
        AndBits(bitmap[bit / 8], others, i);
        NotBits(Pow2(bit % 8), 8, i);
        Pow2Bits(bit % 8, i);
        if 8 <= i { HighBits(bitmap[bit / 8], 8, i); }
      }
      bitmap[bit / 8] := And(bitmap[bit / 8], others);
      forall b: nat | b < 8 * bitmap.Length ensures IsOn(b) <==> old(IsOn(b)) && b != bit {
        assert b / 8 == bit / 8 && b % 8 == bit % 8 ==> b == bit;
      }
    }

    /** Nonzero exactly for members. */
    method IsSet(bit: nat) returns (r: nat)
      requires Valid() && bit < nBits
      ensures r != 0 <==> bit in Contents()
    {
      r := And(bitmap[bit / 8], Pow2(bit % 8));
      forall i: nat ensures Bit(r, i) <==> Bit(bitmap[bit / 8], i) && i == bit % 8 {
        AndBits(bitmap[bit / 8], Pow2(bit % 8), i);
        Pow2Bits(bit % 8, i);
      }
      assert IsOn(bit) <==> Bit(r, bit % 8);
      if r == 0 {
        ZeroBits(bit % 8);
      } else if !IsOn(bit) {
        forall i: nat ensures Bit(r, i) <==> Bit(0, i) { ZeroBits(i); }
        SameBits(r, 0);
      }
    }

    method Fill(byte: uchar)
      requires Valid()
      modifies bitmap
      ensures forall i | 0 <= i < bitmap.Length :: bitmap[i] == byte
    {
      var size := 4 * NoWords(nBits);
      for k := 0 to size
        invariant forall i | 0 <= i < k :: bitmap[i] == byte
      {
        bitmap[k] := byte;
      }
    }

    method ClearAll()
      requires Valid()
      modifies bitmap
      ensures Contents() == {}
    {
      Fill(0);
      forall b: nat | b < nBits ensures !IsOn(b) { ZeroBits(b % 8); }
    }

    method SetAll()
      requires Valid()
      modifies bitmap
      ensures Contents() == Below(nBits)
    {
      Fill(0xFF);
      forall b: nat | b < nBits ensures IsOn(b) {
        ByteBits(0);
        MaskBits(8, b % 8);
      }
    }

    /** `*last_word_ptr |= last_word_mask`: turns the padding on and nothing else. */
    method PadLastWord()
      requires Valid()
      modifies bitmap
      ensures forall b: nat | b < 8 * bitmap.Length :: IsOn(b) <==> old(IsOn(b)) || b >= nBits
      ensures Contents() == old(Contents())
    {
      ByteBits(0);
      for k := 0 to 4
        invariant forall i | 0 <= i < lastWordPtr || lastWordPtr + k <= i < bitmap.Length ::
                    bitmap[i] == old(bitmap[i])
        invariant forall i | lastWordPtr <= i < lastWordPtr + k ::
                    bitmap[i] == Or(old(bitmap[i]), lastWordMask[i - lastWordPtr])
      {
        OrBound(bitmap[lastWordPtr + k], lastWordMask[k], 8);
        bitmap[lastWordPtr + k] := Or(bitmap[lastWordPtr + k], lastWordMask[k]);
      }
      forall b: nat | b < 8 * bitmap.Length ensures IsOn(b) <==> old(IsOn(b)) || b >= nBits {
        if b / 8 >= lastWordPtr {
          var i, j := b / 8 - lastWordPtr, b % 8;
          OrBits(old(bitmap[lastWordPtr + i]), lastWordMask[i], j);
          assert Bit(lastWordMask[i], j) <==> 8 * (lastWordPtr + i) + j >= nBits;
        } else {
          assert bitmap[b / 8] == old(bitmap[b / 8]);
        }
      }
    }
  }

  lemma SameBytes(x: uchar, y: uchar)
    requires forall j | 0 <= j < 8 :: Bit(x, j) <==> Bit(y, j)
    ensures x == y
  {
    ByteBits(0);
    forall i: nat ensures Bit(x, i) <==> Bit(y, i) {
      if 8 <= i {
        HighBits(x, 8, i);
        HighBits(y, 8, i);
      }
    }
    SameBits(x, y);
  }

  method MemCmp(a: array<uchar>, b: array<uchar>, n: nat) returns (same: bool)
    requires n <= a.Length && n <= b.Length
    ensures same <==> a[..n] == b[..n]
  {
    for k := 0 to n
      invariant a[..k] == b[..k]
    {
      if a[k] != b[k] {
        assert a[..n][k] != b[..n][k];
        return false;
      }
    }
    return true;
  }

  /** Maps of one size compare equal exactly when their sets are equal; only padding is written. The maps
      may be one and the same, or share a buffer. */
  method Cmp(map1: Bitmap, map2: Bitmap) returns (same: bool)
    requires map1.Valid() && map2.Valid() && map1.nBits == map2.nBits
    modifies map1.bitmap, map2.bitmap
    ensures map1.Contents() == old(map1.Contents()) && map2.Contents() == old(map2.Contents())
    ensures same <==> map1.Contents() == map2.Contents()
  {
    map1.PadLastWord();
    label padded:
    map2.PadLastWord();
    forall b: nat | map1.nBits <= b < 8 * map1.bitmap.Length ensures map1.IsOn(b) && map2.IsOn(b) {
      assert old@padded(map1.IsOn(b));
      assert map2.IsOn(b);
    }
    same := MemCmp(map1.bitmap, map2.bitmap, 4 * NoWords(map1.nBits));
    assert map1.bitmap[..map1.bitmap.Length] == map1.bitmap[..];
    assert map2.bitmap[..map2.bitmap.Length] == map2.bitmap[..];
    EqualContents(map1, map2);
  }

  lemma EqualContents(map1: Bitmap, map2: Bitmap)
    requires map1.Valid() && map2.Valid() && map1.nBits == map2.nBits
    requires forall b: nat | map1.nBits <= b < 8 * map1.bitmap.Length :: map1.IsOn(b) && map2.IsOn(b)
    ensures map1.bitmap[..] == map2.bitmap[..] <==> map1.Contents() == map2.Contents()
  {
    var n := map1.nBits;
    if map1.bitmap[..] == map2.bitmap[..] {
      forall b: nat | b < n ensures map1.IsOn(b) <==> map2.IsOn(b) {
        assert map1.bitmap[..][b / 8] == map2.bitmap[..][b / 8];
      }
    }
    if map1.Contents() == map2.Contents() {
      forall i | 0 <= i < map1.bitmap.Length ensures map1.bitmap[i] == map2.bitmap[i] {
        forall j | 0 <= j < 8 ensures Bit(map1.bitmap[i], j) <==> Bit(map2.bitmap[i], j) {
          var b: nat := 8 * i + j;
          assert b / 8 == i && b % 8 == j;
          assert b < n ==> (b in map1.Contents() <==> b in map2.Contents());
          assert map1.IsOn(b) <==> map2.IsOn(b);
        }
        SameBytes(map1.bitmap[i], map2.bitmap[i]);
      }
    }
  }

  /** The byte of the mask whose ones are at `k` and above. */
  function MaskByte(k: nat): (m: uchar)
    requires k <= 8
    ensures forall j: nat | j < 8 :: Bit(m, j) <==> j >= k
  {
    ByteBits(if k < 8 then k else 0);
    assert 1 <= Pow2(k) <= 0x100;
    var m := 0x100 - Pow2(k);
    forall j: nat | j < 8 ensures Bit(m, j) <==> j >= k {
      NotBits(Pow2(k) - 1, 8, j);
      MaskBits(k, j);
    }
    m
  }

  /** A map of any size above 0 with the mask that `Valid` asks for. */
  method EmptyBitmap(nBits: nat) returns (map': Bitmap)
    requires 0 < nBits
    ensures map'.Valid() && map'.nBits == nBits && map'.Contents() == {}
    ensures fresh(map') && fresh(map'.bitmap)
  {
    var bitmap := new uchar[BufferSize(nBits)];
    var ptr := bitmap.Length - 4;
    var used := nBits - 8 * ptr;  // bits of the last word in use, 1 to 32
    var mask := seq(4, i requires 0 <= i < 4 =>
      MaskByte(if used <= 8 * i then 0 else if used >= 8 * i + 8 then 8 else used - 8 * i));
    map' := new Bitmap(bitmap, nBits, mask, ptr);
    map'.ClearAll();
  }
}
