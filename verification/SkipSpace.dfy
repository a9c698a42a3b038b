/** m_string.h: `skip_trailing_space`, which reads whole words between alignment points, against the
    plain backward scan it stands for. */
module SkipSpace {

  import opened ByteOrder
  import opened CTypes

  const SPACE: uchar := 0x20

  /** SIZEOF_INT is 4 or 8, and SPACE_INT is a word of spaces. */
  predicate WordSize(w: nat) {
    w == 4 || w == 8
  }

  function SpaceInt(w: nat): nat
    requires WordSize(w)
  {
    if w == 4 then 0x20202020 else 0x2020202020202020
  }

  /** The length left when trailing spaces are dropped one at a time. */
  function Strip(s: seq<uchar>): (n: nat)
    ensures n <= |s|
    ensures forall i | n <= i < |s| :: s[i] == SPACE
    ensures n > 0 ==> s[n - 1] != SPACE
  {
    if s != [] && s[|s| - 1] == SPACE then Strip(s[..|s| - 1]) else |s|
  }

  lemma StripIsUnique(s: seq<uchar>, n: nat)
    requires n <= |s| && (forall i | n <= i < |s| :: s[i] == SPACE) && (n > 0 ==> s[n - 1] != SPACE)
    ensures n == Strip(s)
  {
    var m := Strip(s);
  }

  /** The number that bytes in memory order stand for. */
  function WordValue(bytes: seq<uchar>, bigEndian: bool): nat {
    if bigEndian then FromBig(bytes, |bytes|) else FromLittle(bytes, 0, |bytes|)
  }

  lemma {:induction false} BigInjective(a: seq<uchar>, b: seq<uchar>, n: nat)
    requires n <= |a| == |b| && FromBig(a, n) == FromBig(b, n)
    ensures a[..n] == b[..n]
    decreases n
  {
    if n > 0 {
      BigInjective(a, b, n - 1);
      assert a[..n] == a[..n - 1] + [a[n - 1]] && b[..n] == b[..n - 1] + [b[n - 1]];
    }
  }

  lemma {:induction false} LittleInjective(a: seq<uchar>, b: seq<uchar>, i: nat)
    requires i <= |a| == |b| && FromLittle(a, i, |a|) == FromLittle(b, i, |b|)
    ensures a[i..] == b[i..]
    decreases |a| - i
  {
    if i < |a| {
      LittleInjective(a, b, i + 1);
      assert a[i..] == [a[i]] + a[i + 1..] && b[i..] == [b[i]] + b[i + 1..];
    }
  }

  lemma WordValueInjective(a: seq<uchar>, b: seq<uchar>, bigEndian: bool)
    requires |a| == |b| && WordValue(a, bigEndian) == WordValue(b, bigEndian)
    ensures a == b
  {
    assert a[..|a|] == a == a[0..] && b[..|b|] == b == b[0..];
    if bigEndian { BigInjective(a, b, |a|); } else { LittleInjective(a, b, 0); }
  }

  function Spaces(n: nat): (s: seq<uchar>)
    ensures |s| == n && forall i | 0 <= i < n :: s[i] == SPACE
  {
    if n == 0 then [] else Spaces(n - 1) + [SPACE]
  }

  function SpacesNumber(n: nat): nat {
    if n == 0 then 0 else SpacesNumber(n - 1) * 0x100 + SPACE
  }

  lemma {:induction false} BigSpaces(s: seq<uchar>, n: nat)
    requires n <= |s| && forall i | 0 <= i < |s| :: s[i] == SPACE
    ensures FromBig(s, n) == SpacesNumber(n)
    decreases n
  {
    if n > 0 { BigSpaces(s, n - 1); }
  }

  lemma {:induction false} LittleSpaces(s: seq<uchar>, n: nat)
    requires n <= |s| && forall i | 0 <= i < |s| :: s[i] == SPACE
    ensures FromLittle(s, |s| - n, |s|) == SpacesNumber(n)
    decreases n
  {
    if n > 0 { LittleSpaces(s, n - 1); }
  }

  lemma SpacesValue(n: nat, bigEndian: bool)
    ensures WordValue(Spaces(n), bigEndian) == SpacesNumber(n)
  {
    BigSpaces(Spaces(n), n);
    LittleSpaces(Spaces(n), n);
  }

  lemma SpaceIntIsSpaces(w: nat)
    requires WordSize(w)
    ensures SpacesNumber(w) == SpaceInt(w)
  {
    assert SpacesNumber(2) == 0x2020;
    assert SpacesNumber(4) == 0x20202020;
    assert SpacesNumber(6) == 0x202020202020;
    assert SpacesNumber(8) == 0x2020202020202020;
  }

  /** One word comparison stands for comparing each of its bytes, in either byte order. */
  lemma WordIsSpaces(bytes: seq<uchar>, bigEndian: bool)
    requires WordSize(|bytes|)
    ensures WordValue(bytes, bigEndian) == SpaceInt(|bytes|) <==> forall i | 0 <= i < |bytes| :: bytes[i] == SPACE
  {
    var spaces := Spaces(|bytes|);
    SpacesValue(|bytes|, bigEndian);
    SpaceIntIsSpaces(|bytes|);
    if WordValue(bytes, bigEndian) == SpaceInt(|bytes|) {
      WordValueInjective(bytes, spaces, bigEndian);
    }
    if forall i | 0 <= i < |bytes| :: bytes[i] == SPACE {
      assert bytes == spaces;
    }
  }

  predicate Aligned(a: nat, w: nat)
    requires WordSize(w)
  {
    if w == 4 then a / 4 * 4 == a else a / 8 * 8 == a
  }

  /** `a / w * w` */
  function RoundDown(a: nat, w: nat): (r: nat)
    requires WordSize(w)
    ensures r <= a < r + w && Aligned(r, w)
  {
    if w == 4 then a / 4 * 4 else a / 8 * 8
  }

  lemma AlignedGap(a: nat, b: nat, w: nat)
    requires WordSize(w) && Aligned(a, w) && Aligned(b, w) && a < b
    ensures a + w <= b && Aligned(b - w, w)
  {
  }

  /** `((int *) end)[-1] == SPACE_INT`: a word may be read only at an aligned address and inside the buffer. */
  method SpacesBefore(buf: array<uchar>, ptr: nat, end: nat, w: nat, bigEndian: bool) returns (b: bool)
    requires WordSize(w)
    requires ptr + w <= end <= ptr + buf.Length && Aligned(end - w, w)
    ensures b <==> forall i | end - w - ptr <= i < end - ptr :: buf[i] == SPACE
  {
    var bytes := buf[end - w - ptr..end - ptr];
    WordIsSpaces(bytes, bigEndian);
    assert forall i | end - w - ptr <= i < end - ptr :: buf[i] == bytes[i - (end - w - ptr)];
    return WordValue(bytes, bigEndian) == SpaceInt(w);
  }

  /** `ptr` is the address of `buf[0]`, and the result is the address after the last byte that is not a
      space. Every read is inside the buffer, and every word read is aligned. */
  method SkipTrailingSpace(buf: array<uchar>, ptr: nat, w: nat, bigEndian: bool) returns (end: nat)
    requires WordSize(w)
    ensures end == ptr + Strip(buf[..])
  {
    var len := buf.Length;
    end := ptr + len;
    if len > 20 {
      var endWords := RoundDown(end, w);
      var startWords := RoundDown(ptr + w - 1, w);
      if endWords > ptr {
        while end > endWords && buf[end - 1 - ptr] == SPACE
          invariant endWords <= end <= ptr + len
          invariant forall i | end - ptr <= i < len :: buf[i] == SPACE
        {
          end := end - 1;
        }
        if buf[end - 1 - ptr] == SPACE && startWords < endWords {
          while end > startWords
            invariant ptr <= startWords <= end <= ptr + len && Aligned(end, w)
            invariant forall i | end - ptr <= i < len :: buf[i] == SPACE
          {
            AlignedGap(startWords, end, w);
            var spaces := SpacesBefore(buf, ptr, end, w, bigEndian);
            if !spaces {
              break;
            }
            end := end - w;
          }
        }
      }
    }
    while end > ptr && buf[end - 1 - ptr] == SPACE
      invariant ptr <= end <= ptr + len
      invariant forall i | end - ptr <= i < len :: buf[i] == SPACE
    {
      end := end - 1;
    }
    StripIsUnique(buf[..], end - ptr);
  }
}
