/** Byte strings and the slicing operations of Python that the other modules use. */
module Bytes {

  type byte = b: int | 0 <= b < 256
  type bytes = seq<byte>

  datatype Option<+T> = None | Some(value: T)

  function Min(a: int, b: int): int { if a <= b then a else b }

  function Repeat<T>(x: T, n: nat): (r: seq<T>)
    ensures |r| == n && forall i | 0 <= i < n :: r[i] == x
  {
    seq(n, _ => x)
  }

  function Nul(n: nat): bytes { Repeat<byte>(0, n) }

  // Python's s[-n:] and s[:-n], for n > 0: slices past the beginning are clamped.
  function Last(s: bytes, n: nat): (r: bytes)
    ensures |r| == Min(n, |s|)
  {
    s[|s| - Min(n, |s|)..]
  }

  function DropLast(s: bytes, n: nat): (r: bytes)
    ensures |r| == |s| - Min(n, |s|) && s == r + Last(s, n)
  {
    s[..|s| - Min(n, |s|)]
  }

  // Python's s[lo:hi] for 0 <= lo <= hi.
  function Slice<T>(s: seq<T>, lo: nat, hi: nat): (r: seq<T>)
    requires lo <= hi
    ensures |r| <= hi - lo
  {
    s[Min(lo, |s|)..Min(hi, |s|)]
  }

  // Python's rstrip(b"\x00").
  function RStrip(s: bytes): (r: bytes)
    ensures |r| <= |s| && s == r + Nul(|s| - |r|)
    ensures r != [] ==> r[|r| - 1] != 0
  {
    if s != [] && s[|s| - 1] == 0 then RStrip(s[..|s| - 1]) else s
  }

  function TrailingNuls(s: bytes): nat { |s| - |RStrip(s)| }

  lemma {:induction false} RStripOfNuls(s: bytes, n: nat)
    ensures RStrip(s + Nul(n)) == RStrip(s)
  {
    if n == 0 {
      assert s + Nul(0) == s;
    } else {
      assert (s + Nul(n))[..|s + Nul(n)| - 1] == s + Nul(n - 1);
      RStripOfNuls(s, n - 1);
    }
  }

  // Big- and little-endian integers of a fixed width.
  function BigEndian(s: bytes): nat {
    if s == [] then 0 else 256 * BigEndian(s[..|s| - 1]) + s[|s| - 1]
  }

  function ToBig(n: nat, width: nat): (r: bytes)
    ensures |r| == width
  {
    if width == 0 then [] else ToBig(n / 256, width - 1) + [n % 256]
  }

  function Power256(n: nat): nat { if n == 0 then 1 else 256 * Power256(n - 1) }

  lemma {:induction false} BigEndianOfToBig(n: nat, width: nat)
    requires n < Power256(width)
    ensures BigEndian(ToBig(n, width)) == n
  {
    if width > 0 {
      BigEndianOfToBig(n / 256, width - 1);
      var r := ToBig(n, width);
      assert r[..|r| - 1] == ToBig(n / 256, width - 1);
    }
  }

  lemma {:induction false} ToBigOfBigEndian(s: bytes)
    ensures BigEndian(s) < Power256(|s|)
    ensures ToBig(BigEndian(s), |s|) == s
  {
    if s != [] {
      ToBigOfBigEndian(s[..|s| - 1]);
    }
  }
}
