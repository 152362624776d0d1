/** The shared secret of an account: how the client turns the Base32 text it
    stores into key bytes (`__byte_secret__`), and how it derives a secret
    from an alias (`__creat_secret_from_alias__`). */
module Secret {
  import opened Wrappers
  import opened Bytes
  import Base32

  /** The secret with `=` appended until its length is a multiple of eight. */
  function PadSecret(secret: string): (r: string)
    ensures |secret| <= |r| < |secret| + 8 && |r| % 8 == 0
    ensures r[..|secret|] == secret
    ensures forall i :: |secret| <= i < |r| ==> r[i] == '='
  {
    var missing := |secret| % 8;
    if missing != 0 then
      var r := secret + Base32.Pads(8 - missing);
      ModUnique(|r|, 8, |secret| / 8 + 1, 0);
      r
    else secret
  }

  /** A secret whose length is already a multiple of eight is left alone, so
      padding twice pads once. */
  lemma PadSecretAligned(secret: string)
    requires |secret| % 8 == 0
    ensures PadSecret(secret) == secret
  {
  }

  lemma PadSecretIdempotent(secret: string)
    ensures PadSecret(PadSecret(secret)) == PadSecret(secret)
  {
    PadSecretAligned(PadSecret(secret));
  }

  /** `__byte_secret__`: the key bytes, or the error `b32decode` raises. */
  function ByteSecret(secret: string): (r: Result<seq<byte>, Base32.DecodeError>)
    ensures |secret| % 8 == 0 ==> r == Base32.Decode(secret)
  {
    Base32.Decode(PadSecret(secret))
  }

  /** A secret stored with its `=` padding decodes to the bytes it encodes. */
  lemma EncodedSecret(b: seq<byte>)
    ensures ByteSecret(Base32.Encode(b)) == Success(b)
  {
    ModUnique(|Base32.Encode(b)|, 8, (|b| + 4) / 5, 0);
    Base32.RoundTrip(b);
  }

  /** A secret stored without its `=` padding decodes as well: the padding
      put back is exactly the padding left off. */
  lemma UnpaddedSecret(b: seq<byte>)
    ensures ByteSecret(Base32.EncodeUnpadded(b)) == Success(b)
  {
    var body, p, q := Base32.EncodeUnpadded(b), Base32.PadCount(|b|), Base32.Quanta(|b|);
    Base32.UnpaddedLength(b);
    Base32.EncodeSplit(b);
    if p == 0 {
      ModUnique(|body|, 8, q, 0);
      assert body + Base32.Pads(0) == body;
    } else {
      ModUnique(|body|, 8, q - 1, 8 - p);
      assert PadSecret(body) == body + Base32.Pads(p);
    }
    Base32.RoundTrip(b);
  }

  /** A SHA-512 digest. */
  type Digest64 = s: seq<byte> | |s| == 64 witness Zeros(64)

  datatype AliasError =
    | SecretUnbound   // an alias of 32 or more characters leaves `secret` unassigned (UnboundLocalError)

  /** The alias counts as given when it is truthy: present and not empty. */
  predicate Truthy(alias: Option<string>)
  {
    alias.Some? && alias.value != ""
  }

  /** `__creat_secret_from_alias__`: nothing for a falsy alias; for a short
      alias, the first 32 characters of the Base32 encoding of the SHA-512
      digest of the alias; an error for a long one. `sha512` hashes the UTF-8
      encoding of its argument. */
  function CreateSecretFromAlias(alias: Option<string>, sha512: string -> Digest64): (r: Result<Option<string>, AliasError>)
    ensures !Truthy(alias) <==> r == Success(None)
    ensures r.Failure? <==> Truthy(alias) && |alias.value| >= 32
    ensures r.Success? && r.value.Some? ==>
              |r.value.value| == 32 && forall c :: c in r.value.value ==> c in Base32.Alphabet
  {
    if !Truthy(alias) then Success(None)
    else if |alias.value| < 32 then
      var d := sha512(alias.value);
      var s := Base32.Encode(d)[..32];
      DerivedSecretDigits(d);
      Success(Some(s))
    else Failure(SecretUnbound)
  }

  /** The first 32 characters of the encoding of a 64-byte digest encode its
      first 20 bytes, without padding. */
  lemma DerivedSecretDigits(d: Digest64)
    ensures Base32.Encode(d)[..32] == Base32.Encode(d[..20])
    ensures |Base32.Encode(d[..20])| == 32
    ensures forall c :: c in Base32.Encode(d)[..32] ==> c in Base32.Alphabet
  {
    Base32.EncodePrefix(d, 4);
    Base32.AlphabetDigits();
    var s := Base32.Encode(d[..20]);
    forall c | c in s
      ensures c in Base32.Alphabet
    {
      var i :| 0 <= i < |s| && s[i] == c;
      assert Base32.DigitValue(s[i]).Some?;
    }
  }

  /** A secret derived from an alias is a valid secret: its key bytes are the
      first 20 bytes of the digest of the alias. */
  lemma DerivedSecretKey(alias: string, sha512: string -> Digest64)
    requires alias != "" && |alias| < 32
    ensures CreateSecretFromAlias(Some(alias), sha512).Success?
    ensures var s := CreateSecretFromAlias(Some(alias), sha512).value.value;
            ByteSecret(s) == Success(sha512(alias)[..20])
  {
    var d := sha512(alias);
    DerivedSecretDigits(d);
    EncodedSecret(d[..20]);
  }
}
