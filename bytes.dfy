/** Byte strings as the source's `bytes` and `bytearray` hold them, and their
    big-endian reading (section 5.1 of RFC 4226, section 6 of RFC 4648). */
module Bytes {

  newtype byte = x: int | 0 <= x < 256

  function Pow(base: nat, e: nat): (r: nat)
    ensures base > 0 ==> r > 0
  {
    if e == 0 then 1 else base * Pow(base, e - 1)
  }

  function Zeros(k: nat): (r: seq<byte>)
    ensures |r| == k
    ensures forall i :: 0 <= i < k ==> r[i] == 0
  {
    seq(k, _ => 0)
  }

  /** `reversed(s)` */
  function Reversed<T>(s: seq<T>): (r: seq<T>)
    ensures |r| == |s|
  {
    if s == [] then [] else [s[|s| - 1]] + Reversed(s[..|s| - 1])
  }

  /** The number a byte string denotes, most significant byte first. */
  function FromBigEndian(s: seq<byte>): nat
  {
    if s == [] then 0 else FromBigEndian(s[..|s| - 1]) * 256 + s[|s| - 1] as nat
  }

  /** The shortest big-endian byte string of `n`: empty for 0, otherwise no leading zero byte. */
  function MinimalBigEndian(n: nat): seq<byte>
  {
    if n == 0 then [] else MinimalBigEndian(n / 256) + [(n % 256) as byte]
  }

  /** `n.to_bytes(width)`: exactly `width` bytes, most significant first (the low bytes of `n`). */
  function ToBigEndian(n: nat, width: nat): (r: seq<byte>)
    ensures |r| == width
  {
    if width == 0 then [] else ToBigEndian(n / 256, width - 1) + [(n % 256) as byte]
  }

  /** `s.rjust(width, b'\0')`: zero bytes in front until the length is at least `width`. */
  function LeftPad(s: seq<byte>, width: nat): (r: seq<byte>)
    ensures |r| == if |s| < width then width else |s|
    ensures r[|r| - |s|..] == s
    ensures forall i :: 0 <= i < |r| - |s| ==> r[i] == 0
  {
    if |s| < width then Zeros(width - |s|) + s else s
  }

  lemma {:induction false} FromMinimalBigEndian(n: nat)
    ensures FromBigEndian(MinimalBigEndian(n)) == n
  {
    if n > 0 {
      var s := MinimalBigEndian(n);
      assert s[..|s| - 1] == MinimalBigEndian(n / 256);
      FromMinimalBigEndian(n / 256);
    }
  }

  /** The minimal encoding of a positive number starts with a non-zero byte. */
  lemma {:induction false} MinimalBigEndianLeadingByte(n: nat)
    requires n > 0
    ensures MinimalBigEndian(n)[0] != 0
  {
    if n >= 256 {
      MinimalBigEndianLeadingByte(n / 256);
    }
  }

  /** The minimal encoding fits in `k` bytes exactly when `n < 256^k`. */
  lemma {:induction false} MinimalBigEndianLength(n: nat, k: nat)
    ensures |MinimalBigEndian(n)| <= k <==> n < Pow(256, k)
  {
    if n > 0 && k > 0 {
      MinimalBigEndianLength(n / 256, k - 1);
      var p := Pow(256, k - 1);
      assert n < 256 * p <==> n / 256 < p;
    }
  }

  lemma {:induction false} FromBigEndianZeros(k: nat)
    ensures FromBigEndian(Zeros(k)) == 0
  {
    if k > 0 {
      assert Zeros(k)[..k - 1] == Zeros(k - 1);
      FromBigEndianZeros(k - 1);
    }
  }

  /** Leading zero bytes do not change the number. */
  lemma {:induction false} FromBigEndianZeroPrefix(k: nat, s: seq<byte>)
    ensures FromBigEndian(Zeros(k) + s) == FromBigEndian(s)
  {
    if s == [] {
      assert Zeros(k) + s == Zeros(k);
      FromBigEndianZeros(k);
    } else {
      var t := Zeros(k) + s;
      assert t[..|t| - 1] == Zeros(k) + s[..|s| - 1];
      FromBigEndianZeroPrefix(k, s[..|s| - 1]);
    }
  }

  /** Trailing zero bytes multiply the number by a power of 256. */
  lemma {:induction false} FromBigEndianZeroSuffix(s: seq<byte>, k: nat)
    ensures FromBigEndian(s + Zeros(k)) == FromBigEndian(s) * Pow(256, k)
  {
    if k > 0 {
      var t := s + Zeros(k);
      assert t[..|t| - 1] == s + Zeros(k - 1);
      FromBigEndianZeroSuffix(s, k - 1);
    } else {
      assert s + Zeros(k) == s;
    }
  }

  lemma {:induction false} FromBigEndianBound(s: seq<byte>)
    ensures FromBigEndian(s) < Pow(256, |s|)
  {
    if s != [] {
      FromBigEndianBound(s[..|s| - 1]);
    }
  }

  /** `to_bytes` inverts the big-endian reading of a string of the same width. */
  lemma {:induction false} ToFromBigEndian(s: seq<byte>)
    ensures ToBigEndian(FromBigEndian(s), |s|) == s
  {
    if s != [] {
      var init := s[..|s| - 1];
      ToFromBigEndian(init);
      assert s == init + [s[|s| - 1]];
    }
  }

  /** The big-endian reading inverts `to_bytes` for numbers that fit the width. */
  lemma {:induction false} FromToBigEndian(n: nat, width: nat)
    requires n < Pow(256, width)
    ensures FromBigEndian(ToBigEndian(n, width)) == n
  {
    if width > 0 {
      var r := ToBigEndian(n, width);
      var q := n / 256;
      assert r[..width - 1] == ToBigEndian(q, width - 1);
      QuotientBound(n, Pow(256, width - 1));
      FromToBigEndian(q, width - 1);
      assert n == q * 256 + n % 256;
    }
  }

  lemma QuotientBound(n: nat, m: nat)
    requires n < 256 * m
    ensures n / 256 < m
  {
    var q := n / 256;
    assert q * 256 <= n;
    MulMono(m, q);
  }

  lemma MulMono(m: nat, q: nat)
    ensures m <= q ==> m * 256 <= q * 256
  {
  }

  lemma ReversedSnoc<T>(s: seq<T>, x: T)
    ensures Reversed(s + [x]) == [x] + Reversed(s)
  {
    assert (s + [x])[..|s|] == s;
  }

  lemma MulLeftMono(d: nat, x: int, y: int)
    requires x <= y
    ensures d * x <= d * y
  {
    assert d * y - d * x == d * (y - x);
  }

  /** Division with remainder is unique. */
  lemma ModUnique(v: nat, d: nat, m: nat, s: nat)
    requires d > 0 && s < d && v == d * m + s
    ensures v % d == s && v / d == m
  {
    var m', s' := v / d, v % d;
    assert d * (m' - m) == s - s';
    if m' - m >= 1 {
      MulLeftMono(d, 1, m' - m);
    } else if m' - m <= -1 {
      MulLeftMono(d, m' - m, -1);
    }
  }
}
