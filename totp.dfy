/** The one-time code of AuthenticatorClient.generate_otp: the TOTP algorithm
    of RFC 6238 over the HOTP truncation of section 5.3 of RFC 4226, with a
    30-second step and six digits. HMAC-SHA1 is a parameter. */
module Totp {
  import opened Wrappers
  import opened Bytes
  import Base32
  import Secret

  // ---------------------------------------------------------------------
  // Counter bytes

  /** `int_to_bytestring(i, padding)`: the low byte is appended and `i` shifted
      right by eight until nothing is left; the bytes, reversed into
      big-endian order, are then zero-filled on the left up to `padding`. */
  method IntToBytestring(i: nat, padding: nat) returns (r: seq<byte>)
    ensures r == LeftPad(MinimalBigEndian(i), padding)
    ensures FromBigEndian(r) == i
    ensures |r| >= padding
    ensures |r| == padding <==> i < Pow(256, padding)
    ensures i < Pow(256, padding) ==> r == ToBigEndian(i, padding)
    ensures |r| > padding ==> r[0] != 0
  {
    var result: seq<byte> := [];
    var n := i;
    while n != 0
      invariant MinimalBigEndian(i) == MinimalBigEndian(n) + Reversed(result)
      decreases n
    {
      ReversedSnoc(result, (n % 256) as byte);
      result := result + [(n % 256) as byte];
      n := n / 256;
    }
    assert MinimalBigEndian(i) == Reversed(result);
    r := LeftPad(Reversed(result), padding);
    assert r == LeftPad(MinimalBigEndian(i), padding);
    CounterFacts(i, padding);
    CounterLeadingByte(i, padding);
  }

  /** The value, length and fixed-width form of the padded big-endian bytes. */
  lemma CounterFacts(i: nat, padding: nat)
    ensures FromBigEndian(LeftPad(MinimalBigEndian(i), padding)) == i
    ensures |LeftPad(MinimalBigEndian(i), padding)| == padding <==> i < Pow(256, padding)
    ensures i < Pow(256, padding) ==> LeftPad(MinimalBigEndian(i), padding) == ToBigEndian(i, padding)
  {
    var m := MinimalBigEndian(i);
    var r := LeftPad(m, padding);
    MinimalBigEndianLength(i, padding);
    FromMinimalBigEndian(i);
    if |m| < padding {
      assert r == Zeros(padding - |m|) + m;
      FromBigEndianZeroPrefix(padding - |m|, m);
    } else {
      assert r == m;
    }
    if i < Pow(256, padding) {
      ToFromBigEndian(r);
    }
  }

  /** Padding only ever adds zeros in front, so bytes beyond the padding
      start with the non-zero leading byte of the number. */
  lemma CounterLeadingByte(i: nat, padding: nat)
    ensures |LeftPad(MinimalBigEndian(i), padding)| > padding ==> LeftPad(MinimalBigEndian(i), padding)[0] != 0
  {
    if |LeftPad(MinimalBigEndian(i), padding)| > padding {
      MinimalBigEndianLeadingByte(i);
    }
  }

  /** The eight counter bytes hashed for window `t` (section 5.1 of RFC 4226);
      a window of 2^64 or more gives more than eight bytes, as `rjust` never
      truncates. */
  function Counter(t: nat): (c: seq<byte>)
    ensures FromBigEndian(c) == t && |c| >= 8
    ensures t < Pow(256, 8) ==> c == ToBigEndian(t, 8)
  {
    CounterFacts(t, 8);
    LeftPad(MinimalBigEndian(t), 8)
  }

  // ---------------------------------------------------------------------
  // Dynamic truncation

  /** An HMAC-SHA1 digest. */
  type Digest = s: seq<byte> | |s| == 20 witness Zeros(20)

  /** `hmac_hash[-1] & 0xf`: the low four bits of the last byte, written as
      `% 16` (masking with 0xf keeps exactly the remainder by 16), so the four
      bytes read from there lie inside the digest. */
  function Offset(d: Digest): (o: nat)
    ensures o <= 15 && o + 4 <= |d|
  {
    d[19] as nat % 16
  }

  /** The dynamic truncation of section 5.3 of RFC 4226: the four bytes at
      the offset, read big-endian, with the top bit cleared. The masks and
      shifts are written as arithmetic: the four fields do not overlap, so
      their bitwise or is their sum. */
  function Truncate(d: Digest): (code: nat)
    ensures code < 0x8000_0000
    ensures code == FromBigEndian(d[Offset(d)..Offset(d) + 4]) % 0x8000_0000
  {
    var o := Offset(d);
    var code := (d[o] as nat % 128) * 0x100_0000 + d[o + 1] as nat * 0x1_0000 + d[o + 2] as nat * 0x100 + d[o + 3] as nat;
    TruncateValue(d[o..o + 4], code);
    code
  }

  lemma TruncateValue(w: seq<byte>, code: nat)
    requires |w| == 4
    requires code == (w[0] as nat % 128) * 0x100_0000 + w[1] as nat * 0x1_0000 + w[2] as nat * 0x100 + w[3] as nat
    ensures code < 0x8000_0000
    ensures code == FromBigEndian(w) % 0x8000_0000
  {
    var low := w[1] as nat * 0x1_0000 + w[2] as nat * 0x100 + w[3] as nat;
    var w1, w2, w3 := w[..1], w[..2], w[..3];
    assert w1[..0] == [] && w2[..1] == w1 && w3[..2] == w2 && w[..3] == w3;
    assert FromBigEndian(w1) == w[0] as nat;
    assert FromBigEndian(w2) == w[0] as nat * 0x100 + w[1] as nat;
    assert FromBigEndian(w3) == w[0] as nat * 0x1_0000 + w[1] as nat * 0x100 + w[2] as nat;
    assert FromBigEndian(w) == w[0] as nat * 0x100_0000 + low;
    var hi := w[0] as nat / 128;
    assert w[0] as nat == hi * 128 + w[0] as nat % 128;
    assert FromBigEndian(w) == 0x8000_0000 * hi + code;
    ModUnique(FromBigEndian(w), 0x8000_0000, hi, code);
  }

  /** Lines 88-91 on 32-bit words: the four masked, shifted fields do not
      overlap, so their or is their sum, the form `Truncate` computes. */
  lemma FieldsAdd(a: bv32, b: bv32, c: bv32, e: bv32)
    requires a < 256 && b < 256 && c < 256 && e < 256
    ensures ((a & 0x7f) << 24) | ((b & 0xff) << 16) | ((c & 0xff) << 8) | (e & 0xff)
            == (a & 0x7f) * 0x100_0000 + b * 0x1_0000 + c * 0x100 + e
  {
  }

  // ---------------------------------------------------------------------
  // Decimal text

  function DigitOf(v: nat): (c: char)
    requires v < 10
    ensures '0' <= c <= '9'
  {
    ('0' as int + v) as char
  }

  predicate IsDecimal(s: string)
  {
    forall i :: 0 <= i < |s| ==> '0' <= s[i] <= '9'
  }

  /** The number a string of decimal digits spells. */
  function DecimalValue(s: string): nat
    requires IsDecimal(s)
  {
    if s == [] then 0 else DecimalValue(s[..|s| - 1]) * 10 + (s[|s| - 1] as int - '0' as int)
  }

  /** `str(n)`: the decimal digits of `n` without leading zeros. */
  function DecimalString(n: nat): (s: string)
    ensures |s| >= 1 && IsDecimal(s) && DecimalValue(s) == n
    ensures |s| > 1 ==> s[0] != '0'
  {
    if n < 10 then [DigitOf(n)]
    else
      var s := DecimalString(n / 10) + [DigitOf(n % 10)];
      assert s[..|s| - 1] == DecimalString(n / 10);
      s
  }

  /** `str(n)` has at most `k` digits when `n < 10^k`. */
  lemma {:induction false} DecimalLength(n: nat, k: nat)
    requires k >= 1 && n < Pow(10, k)
    ensures |DecimalString(n)| <= k
  {
    if n >= 10 {
      assert n / 10 >= 1;
      assert n / 10 < Pow(10, k - 1);
      DecimalLength(n / 10, k - 1);
    }
  }

  /** A leading zero does not change the value. */
  lemma {:induction false} LeadingZero(s: string)
    requires IsDecimal(s)
    ensures IsDecimal("0" + s) && DecimalValue("0" + s) == DecimalValue(s)
    decreases |s|
  {
    if s != [] {
      var t := "0" + s;
      assert t[..|t| - 1] == "0" + s[..|s| - 1];
      LeadingZero(s[..|s| - 1]);
    }
  }

  /** Two digit strings of the same length and value are equal, so a code is
      determined by its length and value. */
  lemma {:induction false} DecimalUnique(s: string, t: string)
    requires IsDecimal(s) && IsDecimal(t) && |s| == |t|
    requires DecimalValue(s) == DecimalValue(t)
    ensures s == t
    decreases |s|
  {
    if s != [] {
      var n := |s| - 1;
      var a, b := s[n] as int - '0' as int, t[n] as int - '0' as int;
      ModUnique(DecimalValue(s), 10, DecimalValue(s[..n]), a);
      ModUnique(DecimalValue(t), 10, DecimalValue(t[..n]), b);
      DecimalUnique(s[..n], t[..n]);
      assert s == s[..n] + [s[n]] && t == t[..n] + [t[n]];
    }
  }

  /** `str(code % 10 ** 6)` prefixed with '0' until it has six characters. */
  method FormatCode(code: nat) returns (s: string)
    ensures |s| == 6 && IsDecimal(s) && DecimalValue(s) == code % 1_000_000
  {
    assert Pow(10, 6) == 1_000_000;
    DecimalLength(code % 1_000_000, 6);
    s := DecimalString(code % 1_000_000);
    while |s| < 6
      invariant |s| <= 6 && IsDecimal(s) && DecimalValue(s) == code % 1_000_000
      decreases 6 - |s|
    {
      LeadingZero(s);
      s := "0" + s;
    }
  }

  // ---------------------------------------------------------------------
  // Time

  /** `int(t / 30)`: the window of a timestamp in seconds, truncated toward
      zero, so the 29 seconds before the epoch still fall in window 0. */
  function WindowIndex(t: int): (w: int)
    ensures w < 0 <==> t <= -30
    ensures t >= 0 ==> 30 * w <= t < 30 * w + 30
    ensures t < 0 ==> 30 * w - 30 < t <= 30 * w
  {
    if t >= 0 then t / 30 else -((-t) / 30)
  }

  /** `30 - second % 30`: the seconds left in the current window. */
  function RemainTime(second: nat): (r: nat)
    ensures 1 <= r <= 30
    ensures r == 30 <==> second % 30 == 0
    ensures (second + r) % 30 == 0
  {
    var r := 30 - second % 30;
    ModUnique(second + r, 30, second / 30 + 1, 0);
    r
  }

  // ---------------------------------------------------------------------
  // The code

  datatype OtpError =
    | NegativeWindow                       // ValueError('input must be positive integer')
    | BadSecret(error: Base32.DecodeError) // raised by `__byte_secret__`

  /** The HOTP value of section 5.3 of RFC 4226 for a key and a window. */
  function Hotp(key: seq<byte>, t: nat, hmacSha1: (seq<byte>, seq<byte>) -> Digest): (v: nat)
    ensures v < 1_000_000
  {
    Truncate(hmacSha1(key, Counter(t))) % 1_000_000
  }

  /** `generate_otp` at the timestamp `stamp` (the seconds `time.mktime` gives
      for the local clock plus the offset): a negative window is refused
      before the secret is decoded; a secret that does not decode is refused;
      otherwise the six-digit code of the window. */
  method GenerateOtp(secret: string, stamp: int, hmacSha1: (seq<byte>, seq<byte>) -> Digest)
    returns (r: Result<string, OtpError>)
    ensures r.Success? <==> stamp > -30 && Secret.ByteSecret(secret).Success?
    ensures stamp <= -30 ==> r == Failure(NegativeWindow)
    ensures stamp > -30 && Secret.ByteSecret(secret).Failure? ==>
              r == Failure(BadSecret(Secret.ByteSecret(secret).error))
    ensures r.Success? ==>
              |r.value| == 6 && IsDecimal(r.value) &&
              DecimalValue(r.value) == Hotp(Secret.ByteSecret(secret).value, WindowIndex(stamp), hmacSha1)
  {
    var input := WindowIndex(stamp);
    if input < 0 {
      return Failure(NegativeWindow);
    }
    var key := Secret.ByteSecret(secret);
    if key.Failure? {
      return Failure(BadSecret(key.error));
    }
    var counter := IntToBytestring(input, 8);
    var hash := hmacSha1(key.value, counter);
    var code := Truncate(hash);
    var s := FormatCode(code);
    return Success(s);
  }

  /** The worked example of section 5.4 of RFC 4226: this digest has offset
      10 and truncates to 0x50ef7f19, so whatever key and window hash to it
      get the HOTP value 872921. */
  const Rfc4226Digest: Digest :=
    [0x1f, 0x86, 0x98, 0x69, 0x0e, 0x02, 0xca, 0x16, 0x61, 0x85,
     0x50, 0xef, 0x7f, 0x19, 0xda, 0x8e, 0x94, 0x5b, 0x55, 0x5a]

  lemma Rfc4226Example(key: seq<byte>, t: nat, hmacSha1: (seq<byte>, seq<byte>) -> Digest)
    requires hmacSha1(key, Counter(t)) == Rfc4226Digest
    ensures Offset(Rfc4226Digest) == 10
    ensures Truncate(Rfc4226Digest) == 0x50ef7f19
    ensures Hotp(key, t, hmacSha1) == 872921
  {
    Rfc4226Truncation();
    var v := Truncate(hmacSha1(key, Counter(t)));
    assert v == 0x50ef7f19;
    assert 0x50ef7f19 == 1357 * 1_000_000 + 872921;
    ModUnique(v, 1_000_000, 1357, 872921);
  }

  lemma Rfc4226Truncation()
    ensures Offset(Rfc4226Digest) == 10
    ensures Truncate(Rfc4226Digest) == 0x50ef7f19
  {
  }
}
