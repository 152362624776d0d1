/** Base32 as in section 6 of RFC 4648, with the behaviour of Python's
    `base64.b32encode` and `base64.b32decode(s, casefold=True)`, which the
    secret handling in AuthenticatorClient.py relies on. */
module Base32 {
  import opened Wrappers
  import opened Bytes

  /** The alphabet of section 6 of RFC 4648. */
  const Alphabet: string := "ABCDEFGHIJKLMNOPQRSTUVWXYZ234567"

  /** The character for a 5-bit value: `A`..`Z` for 0..25, `2`..`7` for 26..31. */
  function DigitChar(v: nat): (c: char)
    requires v < 32
  {
    if v < 26 then ('A' as int + v) as char else ('2' as int + v - 26) as char
  }

  /** The 5-bit value a character stands for, if it is in the alphabet. */
  function DigitValue(c: char): (r: Option<nat>)
    ensures r.Some? ==> r.value < 32 && DigitChar(r.value) == c
  {
    if 'A' <= c <= 'Z' then Some(c as nat - 'A' as nat)
    else if '2' <= c <= '7' then Some(c as nat - '2' as nat + 26)
    else None
  }

  /** The arithmetic above spells out the alphabet: digit `v` is `Alphabet[v]`,
      and exactly the characters of the alphabet have a value. */
  lemma AlphabetDigits()
    ensures forall v :: 0 <= v < 32 ==> Alphabet[v] == DigitChar(v)
    ensures forall c :: DigitValue(c).Some? <==> c in Alphabet
  {
  }

  predicate IsDigits(s: string)
  {
    forall i :: 0 <= i < |s| ==> DigitValue(s[i]).Some?
  }

  /** The number written by base-32 digits, most significant first. */
  function FromDigits(s: string): nat
    requires IsDigits(s)
  {
    if s == [] then 0 else FromDigits(s[..|s| - 1]) * 32 + DigitValue(s[|s| - 1]).value
  }

  /** The low `n` base-32 digits of `v`, most significant first. */
  function DigitsOf(v: nat, n: nat): (s: string)
    ensures |s| == n && IsDigits(s)
  {
    if n == 0 then [] else DigitsOf(v / 32, n - 1) + [DigitChar(v % 32)]
  }

  function Pads(k: nat): (s: string)
    ensures |s| == k
    ensures forall i :: 0 <= i < k ==> s[i] == '='
  {
    seq(k, _ => '=')
  }

  /** Characters of a final group of 1 to 4 bytes that carry bits; the rest of
      its eight characters are `=`. */
  function KeptChars(leftover: nat): (r: nat)
    requires 1 <= leftover <= 4
    ensures 5 * (r - 1) < 8 * leftover <= 5 * r
  {
    match leftover
    case 1 => 2
    case 2 => 4
    case 3 => 5
    case 4 => 7
  }

  /** `base64.b32encode`: each group of five bytes becomes eight characters; a
      shorter last group is zero-filled to five bytes and its unused characters
      are overwritten with `=`. */
  function Encode(b: seq<byte>): (r: string)
    ensures |r| == 8 * ((|b| + 4) / 5)
    decreases |b|
  {
    if b == [] then []
    else if |b| >= 5 then DigitsOf(FromBigEndian(b[..5]), 8) + Encode(b[5..])
    else
      var kept := KeptChars(|b|);
      DigitsOf(FromBigEndian(b + Zeros(5 - |b|)), 8)[..kept] + Pads(8 - kept)
  }

  datatype DecodeError =
    | NonAscii        // a `str` argument with a non-ASCII character (ValueError)
    | IncorrectPadding
    | NonBase32Digit

  predicate IsAscii(s: string)
  {
    forall i :: 0 <= i < |s| ==> s[i] as int < 128
  }

  /** `bytes.upper()`: ASCII lower-case letters to upper case. */
  function Upper(s: string): (r: string)
    ensures |r| == |s|
  {
    seq(|s|, i requires 0 <= i < |s| => if 'a' <= s[i] <= 'z' then (s[i] as int - 32) as char else s[i])
  }

  /** How many `=` end the string (what `rstrip(b'=')` removes). */
  function TrailingPads(s: string): (n: nat)
    ensures n <= |s|
  {
    if s != [] && s[|s| - 1] == '=' then TrailingPads(s[..|s| - 1]) + 1 else 0
  }

  /** `base64.b32decode(s, casefold=True)`, error for error in Python's order. */
  function Decode(s: string): (r: Result<seq<byte>, DecodeError>)
    ensures r.Success? ==> IsAscii(s) && |s| % 8 == 0
  {
    if !IsAscii(s) then Failure(NonAscii)
    else if |s| % 8 != 0 then Failure(IncorrectPadding)
    else
      var u := Upper(s);
      var padChars := TrailingPads(u);
      var body := u[..|u| - padChars];
      if !IsDigits(body) then Failure(NonBase32Digit)
      else if padChars !in {0, 1, 3, 4, 6} then Failure(IncorrectPadding)
      else Success(DecodeQuanta(body, padChars))
  }

  /** The bytes of the digits left once the padding is stripped: five per full
      quantum; the last, partial quantum is shifted up to 40 bits and only its
      `(43 - 5 * padChars) / 8` whole bytes are kept. */
  function DecodeQuanta(body: string, padChars: nat): seq<byte>
    requires IsDigits(body) && padChars in {0, 1, 3, 4, 6}
    requires (|body| + padChars) % 8 == 0
    decreases |body|
  {
    if |body| == 0 then []
    else if |body| >= 8 then ToBigEndian(FromDigits(body[..8]), 5) + DecodeQuanta(body[8..], padChars)
    else ToBigEndian(FromDigits(body) * Pow(32, padChars), 5)[..(43 - 5 * padChars) / 8]
  }

  // ---------------------------------------------------------------------
  // Round trip

  /** The encoding with its `=` padding left off. */
  function EncodeUnpadded(b: seq<byte>): (r: string)
    ensures IsDigits(r)
    decreases |b|
  {
    if b == [] then []
    else if |b| >= 5 then DigitsOf(FromBigEndian(b[..5]), 8) + EncodeUnpadded(b[5..])
    else DigitsOf(FromBigEndian(b + Zeros(5 - |b|)), 8)[..KeptChars(|b|)]
  }

  /** The number of `=` that close the encoding of `n` bytes: the characters of
      the last group that carry no bits. */
  function PadCount(n: nat): (p: nat)
    ensures p in {0, 1, 3, 4, 6}
  {
    if n % 5 == 0 then 0 else 8 - KeptChars(n % 5)
  }

  lemma PadCountPeriodic(n: nat)
    requires n >= 5
    ensures PadCount(n - 5) == PadCount(n)
  {
    assert (n - 5) % 5 == n % 5;
  }

  /** Number of 8-character quanta in the encoding of `n` bytes. */
  function Quanta(n: nat): (q: nat)
    ensures n == 0 <==> q == 0
  {
    (n + 4) / 5
  }

  lemma QuantaStep(n: nat)
    requires n >= 5
    ensures Quanta(n) == Quanta(n - 5) + 1
  {
  }

  lemma {:induction false} UnpaddedLength(b: seq<byte>)
    ensures |EncodeUnpadded(b)| + PadCount(|b|) == 8 * Quanta(|b|)
    decreases |b|
  {
    if |b| >= 5 {
      UnpaddedLength(b[5..]);
      PadCountPeriodic(|b|);
      QuantaStep(|b|);
    } else if b != [] {
      assert Quanta(|b|) == 1;
    }
  }

  lemma UnpaddedQuanta(b: seq<byte>)
    ensures (|EncodeUnpadded(b)| + PadCount(|b|)) % 8 == 0
  {
    UnpaddedLength(b);
    ModUnique(8 * Quanta(|b|), 8, Quanta(|b|), 0);
  }

  lemma {:induction false} EncodeSplit(b: seq<byte>)
    ensures Encode(b) == EncodeUnpadded(b) + Pads(PadCount(|b|))
    decreases |b|
  {
    if |b| >= 5 {
      EncodeSplit(b[5..]);
      assert PadCount(|b| - 5) == PadCount(|b|);
      var d := DigitsOf(FromBigEndian(b[..5]), 8);
      calc {
        Encode(b);
        d + Encode(b[5..]);
        d + (EncodeUnpadded(b[5..]) + Pads(PadCount(|b|)));
        (d + EncodeUnpadded(b[5..])) + Pads(PadCount(|b|));
      }
    } else if b == [] {
      assert Pads(0) == [];
    } else {
      assert 8 - KeptChars(|b|) == PadCount(|b|);
    }
  }

  lemma DigitCharIsAsciiUpper(v: nat)
    requires v < 32
    ensures DigitChar(v) as int < 128 && !('a' <= DigitChar(v) <= 'z') && DigitChar(v) != '='
  {
  }

  lemma {:induction false} TrailingPadsAfterDigits(s: string, k: nat)
    requires IsDigits(s)
    ensures TrailingPads(s + Pads(k)) == k
  {
    if k > 0 {
      var t := s + Pads(k);
      assert t[..|t| - 1] == s + Pads(k - 1);
      TrailingPadsAfterDigits(s, k - 1);
    } else {
      assert s + Pads(k) == s;
      if s != [] {
        DigitCharIsAsciiUpper(DigitValue(s[|s| - 1]).value);
      }
    }
  }

  lemma NestedRemainder(v: nat, b: nat, c: nat, q: nat, r: nat, q2: nat, r2: nat)
    requires b > 0 && c > 0 && r < b && r2 < c
    requires v == b * q + r && q == c * q2 + r2
    ensures v == (b * c) * q2 + (b * r2 + r) && b * r2 + r < b * c
  {
    assert b * q == (b * c) * q2 + b * r2;
    MulLeftMono(b, r2, c - 1);
    assert b * (c - 1) == b * c - b;
  }

  /** Dividing by `b` and then by `c` is dividing by `b * c`. */
  lemma DivDiv(v: nat, b: nat, c: nat)
    requires b > 0 && c > 0
    ensures v / b / c == v / (b * c)
  {
    var q, r := v / b, v % b;
    var q2, r2 := q / c, q % c;
    NestedRemainder(v, b, c, q, r, q2, r2);
    ModUnique(v, b * c, q2, b * r2 + r);
  }

  /** Reading back the `n` digits of a number below `32^n` gives the number. */
  lemma {:induction false} FromDigitsOf(v: nat, n: nat)
    requires v < Pow(32, n)
    ensures FromDigits(DigitsOf(v, n)) == v
  {
    if n > 0 {
      var s := DigitsOf(v, n);
      assert s[..n - 1] == DigitsOf(v / 32, n - 1);
      FromDigitsOf(v / 32, n - 1);
    }
  }

  /** The first `a` of `a + c` digits are the digits of the number shifted right by `c` digits. */
  lemma {:induction false} DigitsPrefix(v: nat, a: nat, c: nat)
    ensures DigitsOf(v, a + c)[..a] == DigitsOf(v / Pow(32, c), a)
  {
    if c > 0 {
      assert DigitsOf(v, a + c)[..a] == DigitsOf(v / 32, a + c - 1)[..a];
      DigitsPrefix(v / 32, a, c - 1);
      DivDiv(v, 32, Pow(32, c - 1));
    }
  }

  /** The powers that the 40-bit quanta use. */
  lemma PowOf32And256()
    ensures Pow(32, 1) == 32 && Pow(32, 2) == 1024 && Pow(32, 3) == 32768
    ensures Pow(32, 4) == 1048576 && Pow(32, 5) == 33554432
    ensures Pow(32, 6) == 1073741824 && Pow(32, 7) == 34359738368
    ensures Pow(32, 8) == 1099511627776
    ensures Pow(256, 1) == 256 && Pow(256, 2) == 65536 && Pow(256, 3) == 16777216
    ensures Pow(256, 4) == 4294967296 && Pow(256, 5) == 1099511627776
  {
  }

  /** A full quantum decodes to the five bytes it encodes. */
  lemma FullQuantumRoundTrip(g: seq<byte>)
    requires |g| == 5
    ensures ToBigEndian(FromDigits(DigitsOf(FromBigEndian(g), 8)), 5) == g
  {
    FromBigEndianBound(g);
    PowOf32And256();
    FromDigitsOf(FromBigEndian(g), 8);
    ToFromBigEndian(g);
  }

  /** The zero bits that fill a last group of `k` bytes cover the `5 * PadCount(k)`
      bits its padding drops, so shifting them out and back loses nothing. */
  lemma ShiftBack(f: nat, k: nat, v: nat)
    requires 1 <= k <= 4 && f < Pow(256, k) && v == f * Pow(256, 5 - k)
    ensures v / Pow(32, PadCount(k)) * Pow(32, PadCount(k)) == v
    ensures v / Pow(32, PadCount(k)) < Pow(32, KeptChars(k))
    ensures (43 - 5 * PadCount(k)) / 8 == k
  {
    PowOf32And256();
    var unit := Pow(32, PadCount(k));
    if k == 1 {
      ModUnique(v, unit, 4 * f, 0);
    } else if k == 2 {
      ModUnique(v, unit, 16 * f, 0);
    } else if k == 3 {
      ModUnique(v, unit, 2 * f, 0);
    } else {
      ModUnique(v, unit, 8 * f, 0);
    }
  }

  /** The unpadded encoding of a last group is the digits of a number `w` that,
      shifted back by the padded digits, is the zero-filled group. */
  lemma PartialEncoded(g: seq<byte>) returns (w: nat)
    requires 1 <= |g| <= 4
    ensures EncodeUnpadded(g) == DigitsOf(w, KeptChars(|g|))
    ensures w * Pow(32, PadCount(|g|)) == FromBigEndian(g + Zeros(5 - |g|))
    ensures w < Pow(32, KeptChars(|g|))
  {
    var v := FromBigEndian(g + Zeros(5 - |g|));
    w := v / Pow(32, PadCount(|g|));
    assert KeptChars(|g|) + PadCount(|g|) == 8;
    DigitsPrefix(v, KeptChars(|g|), PadCount(|g|));
    FromBigEndianZeroSuffix(g, 5 - |g|);
    FromBigEndianBound(g);
    ShiftBack(FromBigEndian(g), |g|, v);
  }

  lemma DecodeLastQuantum(body: string, p: nat)
    requires IsDigits(body) && p in {1, 3, 4, 6} && |body| + p == 8
    ensures DecodeQuanta(body, p) == ToBigEndian(FromDigits(body) * Pow(32, p), 5)[..(43 - 5 * p) / 8]
  {
  }

  /** A last group of 1 to 4 bytes decodes back to itself. */
  lemma PartialQuantumRoundTrip(g: seq<byte>)
    requires 1 <= |g| <= 4
    ensures |EncodeUnpadded(g)| + PadCount(|g|) == 8
    ensures DecodeQuanta(EncodeUnpadded(g), PadCount(|g|)) == g
  {
    var k, p, n := |g|, PadCount(|g|), KeptChars(|g|);
    var filled := g + Zeros(5 - k);
    var w := PartialEncoded(g);
    FromDigitsOf(w, n);
    ToFromBigEndian(filled);
    assert filled[..k] == g;
    ShiftBack(FromBigEndian(g), k, FromBigEndian(filled)) by {
      FromBigEndianZeroSuffix(g, 5 - k);
      FromBigEndianBound(g);
    }
    DecodeLastQuantum(EncodeUnpadded(g), p);
  }

  lemma DecodeFullQuantum(d: string, rest: string, p: nat)
    requires |d| == 8 && IsDigits(d) && IsDigits(rest)
    requires p in {0, 1, 3, 4, 6} && (|rest| + p) % 8 == 0
    ensures IsDigits(d + rest)
    ensures DecodeQuanta(d + rest, p) == ToBigEndian(FromDigits(d), 5) + DecodeQuanta(rest, p)
  {
    var e := d + rest;
    assert e[..8] == d && e[8..] == rest;
  }

  lemma {:induction false} DecodeQuantaRoundTrip(b: seq<byte>)
    ensures (|EncodeUnpadded(b)| + PadCount(|b|)) % 8 == 0
    ensures DecodeQuanta(EncodeUnpadded(b), PadCount(|b|)) == b
    decreases |b|
  {
    UnpaddedQuanta(b);
    if |b| >= 5 {
      var d := DigitsOf(FromBigEndian(b[..5]), 8);
      var rest := EncodeUnpadded(b[5..]);
      assert EncodeUnpadded(b) == d + rest;
      PadCountPeriodic(|b|);
      DecodeQuantaRoundTrip(b[5..]);
      var p := PadCount(|b|);
      assert (|rest| + p) % 8 == 0;
      DecodeFullQuantum(d, rest, p);
      FullQuantumRoundTrip(b[..5]);
      assert b == b[..5] + b[5..];
    } else if b != [] {
      PartialQuantumRoundTrip(b);
    }
  }

  /** Digits followed by `=` are ASCII and already upper case. */
  lemma UpperDigitsPads(body: string, p: nat)
    requires IsDigits(body)
    ensures IsAscii(body + Pads(p))
    ensures Upper(body + Pads(p)) == body + Pads(p)
  {
    var e := body + Pads(p);
    forall i | 0 <= i < |e|
      ensures e[i] as int < 128 && !('a' <= e[i] <= 'z')
    {
      if i < |body| {
        DigitCharIsAsciiUpper(DigitValue(body[i]).value);
      }
    }
  }

  /** Every encoding decodes back to the bytes encoded (section 6 of RFC 4648). */
  lemma RoundTrip(b: seq<byte>)
    ensures Decode(Encode(b)) == Success(b)
  {
    EncodeSplit(b);
    DecodeQuantaRoundTrip(b);
    DecodePadded(EncodeUnpadded(b), PadCount(|b|));
  }

  /** Digits followed by an allowed number of `=` that fill whole quanta
      decode to the bytes of the digits. */
  lemma DecodePadded(body: string, p: nat)
    requires IsDigits(body) && p in {0, 1, 3, 4, 6} && (|body| + p) % 8 == 0
    ensures Decode(body + Pads(p)) == Success(DecodeQuanta(body, p))
  {
    var e := body + Pads(p);
    assert |e| % 8 == 0;
    UpperDigitsPads(body, p);
    TrailingPadsAfterDigits(body, p);
    assert e[..|e| - p] == body;
  }

  /** The encoding of `5m` bytes is the encoding of its first `5m` bytes followed by the rest. */
  lemma {:induction false} EncodePrefix(b: seq<byte>, m: nat)
    requires 5 * m <= |b|
    ensures Encode(b)[..8 * m] == Encode(b[..5 * m])
    ensures IsDigits(Encode(b[..5 * m]))
  {
    if m > 0 {
      var head := b[..5 * m];
      assert head[..5] == b[..5] && head[5..] == b[5..][..5 * (m - 1)];
      EncodePrefix(b[5..], m - 1);
    } else {
      assert b[..0] == [];
    }
  }
}
