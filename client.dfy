/** The parts of `AuthenticatorClient` around the code itself: the name of
    the QR image and the record `create_QRCode` saves, the choice of the
    secret (`get_secret_from_args`), the code with its remaining time
    (`gen_code_from_args`), the arguments `update_now` runs the client with
    for each saved account, and the verification prompt at the end of
    `run`. */
module Client {
  import opened Wrappers
  import opened Strings
  import opened Args
  import opened Store
  import Codec = Secret
  import Totp
  import Bytes

  // ---------------------------------------------------------------------
  // The QR image

  /** The full-width colon that stands in for `:` in a file name. */
  const FullwidthColon: char := '\U{FF1A}'

  /** `[Alias=alias]` when the alias is truthy, nothing otherwise. */
  function AliasPart(alias: Option<string>): string
  {
    if Codec.Truthy(alias) then "[Alias=" + alias.value + "]" else ""
  }

  /** The file name before the colons are replaced. */
  function RawQrFileName(name: Field, issuer: Field, secret: string, alias: Option<string>): string
  {
    Format(name) + "@" + Format(issuer) + "[Secret=" + secret + "]" + AliasPart(alias) + ".png"
  }

  /** The name of the QR image of an account, with every `:` replaced by the
      full-width colon. */
  function QrFileName(name: Field, issuer: Field, secret: string, alias: Option<string>): (file: string)
    ensures ':' !in file
    ensures |file| == |RawQrFileName(name, issuer, secret, alias)|
  {
    ReplaceCharRemoves(RawQrFileName(name, issuer, secret, alias), ':', FullwidthColon);
    Escape(RawQrFileName(name, issuer, secret, alias))
  }

  /** A part of the file name with its colons replaced. */
  function Escape(s: string): string
  {
    ReplaceChar(s, ':', FullwidthColon)
  }

  /** The file name is `name@issuer[Secret=secret]`, then `[Alias=alias]`
      exactly when the alias is truthy, then `.png`, each of the given parts
      with its colons replaced and the fixed text kept. */
  lemma QrFileNameParts(name: Field, issuer: Field, secret: string, alias: Option<string>)
    ensures QrFileName(name, issuer, secret, alias) ==
              Escape(Format(name)) + "@" + Escape(Format(issuer)) + "[Secret=" + Escape(secret) + "]" +
              (if Codec.Truthy(alias) then "[Alias=" + Escape(alias.value) + "]" else "") + ".png"
  {
    var n, i, a := Format(name), Format(issuer), AliasPart(alias);
    EscapeParts(n, "@", i, "[Secret=", secret, "]", a, ".png");
    FixedParts();
    AliasPartEscape(alias);
  }

  /** The fixed text of the file name has no colon. */
  lemma FixedParts()
    ensures Escape("@") == "@" && Escape("[Secret=") == "[Secret=" && Escape("]") == "]"
    ensures Escape(".png") == ".png" && Escape("[Alias=") == "[Alias="
  {
    FixedShort();
    FixedLabels();
  }

  lemma FixedLabels()
    ensures Escape("[Secret=") == "[Secret=" && Escape("[Alias=") == "[Alias="
  {
    Fixed("[Secret=");
    Fixed("[Alias=");
  }

  lemma FixedShort()
    ensures Escape("@") == "@" && Escape("]") == "]" && Escape(".png") == ".png"
  {
    Fixed("@");
    Fixed("]");
    Fixed(".png");
  }

  lemma AliasPartEscape(alias: Option<string>)
    ensures Escape(AliasPart(alias)) == if Codec.Truthy(alias) then "[Alias=" + Escape(alias.value) + "]" else ""
  {
    if Codec.Truthy(alias) {
      FixedParts();
      EscapeConcat("[Alias=" + alias.value, "]");
      EscapeConcat("[Alias=", alias.value);
    }
  }

  lemma EscapeConcat(a: string, b: string)
    ensures Escape(a + b) == Escape(a) + Escape(b)
  {
    ReplaceCharConcat(a, b, ':', FullwidthColon);
  }

  /** Replacing in eight concatenated parts replaces in each. */
  lemma EscapeParts(a: string, b: string, c: string, d: string, e: string, f: string, g: string, h: string)
    ensures Escape(a + b + c + d + e + f + g + h) ==
              Escape(a) + Escape(b) + Escape(c) + Escape(d) + Escape(e) + Escape(f) + Escape(g) + Escape(h)
  {
    EscapeConcat(a + b + c + d + e + f + g, h);
    EscapeConcat(a + b + c + d + e + f, g);
    EscapeConcat(a + b + c + d + e, f);
    EscapeConcat(a + b + c + d, e);
    EscapeConcat(a + b + c, d);
    EscapeConcat(a + b, c);
    EscapeConcat(a, b);
  }

  /** Fixed text without a colon is kept as it is. */
  lemma Fixed(s: string)
    requires ':' !in s
    ensures Escape(s) == s
  {
    ReplaceCharAbsent(s, ':', FullwidthColon);
  }

  /** Names without colons are used as they are. */
  lemma QrFileNamePlain(name: Field, issuer: Field, secret: string, alias: Option<string>)
    requires ':' !in RawQrFileName(name, issuer, secret, alias)
    ensures QrFileName(name, issuer, secret, alias) == RawQrFileName(name, issuer, secret, alias)
  {
    ReplaceCharAbsent(RawQrFileName(name, issuer, secret, alias), ':', FullwidthColon);
  }

  /** The saving half of `create_QRCode`: nothing is saved when `save` is
      false or when the image file is already there (`present`); otherwise
      the image is written under its file name and the account's record is
      appended to the saved list. Returns the name of the file written. */
  method CreateQRCode(saved: SavedFile, name: Field, issuer: Field, secret: string, alias: Option<string>,
                      save: bool, present: bool)
    returns (written: Option<string>)
    modifies saved
    ensures !save || present ==> written == None && saved.records == old(saved.records)
    ensures save && !present ==>
              written == Some(QrFileName(name, issuer, secret, alias)) &&
              saved.records == old(saved.records) + [NewRecord(name, issuer, secret, written.value)]
  {
    if !save {
      return None;
    }
    var file := QrFileName(name, issuer, secret, alias);
    if present {
      return None;
    }
    saved.Append(name, issuer, secret, file);
    return Some(file);
  }

  /** The record of a saved image lists the account and its file, and
      reads back through `get_saved` as the account's row. */
  lemma SavedImageRecord(name: Field, issuer: Field, secret: string, alias: Option<string>)
    ensures var r := NewRecord(name, issuer, secret, QrFileName(name, issuer, secret, alias));
            r["QR"] == Str(QrFileName(name, issuer, secret, alias)) && ':' !in r["QR"].s &&
            InfoOf(r) == Info(name, issuer, Str(secret))
  {
    InfoOfNewRecord(name, issuer, secret, QrFileName(name, issuer, secret, alias));
  }

  // ---------------------------------------------------------------------
  // update_now

  /** The arguments `update_now` runs the client with for one row of
      `get_saved`; a null value of the row is a None token. */
  function UpdateArgv(info: Info, isDisplay: bool): (argv: seq<Field>)
    ensures |argv| == 9
  {
    [Str("-n"), info.name, Str("-i"), info.issuer, Str("-s"), info.secret,
     Str(if isDisplay then "-display" else ""), Str("-qr"), Str("-g")]
  }

  /** The texts of tokens that are all strings. */
  function Tokens(argv: seq<Field>): (r: seq<string>)
    requires forall k :: 0 <= k < |argv| ==> argv[k].Str?
    ensures |r| == |argv| && forall k :: 0 <= k < |argv| ==> Str(r[k]) == argv[k]
  {
    seq(|argv|, k requires 0 <= k < |argv| => argv[k].s)
  }

  /** `update_now`: the argument list of each run, one per row, in order. */
  method UpdateNow(infos: seq<Info>, isDisplay: bool) returns (runs: seq<seq<Field>>)
    ensures |runs| == |infos|
    ensures forall k :: 0 <= k < |infos| ==> runs[k] == UpdateArgv(infos[k], isDisplay)
  {
    runs := [];
    for i := 0 to |infos|
      invariant |runs| == i
      invariant forall k :: 0 <= k < i ==> runs[k] == UpdateArgv(infos[k], isDisplay)
    {
      var each := infos[i];
      var display := if isDisplay then "-display" else "";
      var args := [Str("-n"), each.name, Str("-i"), each.issuer, Str("-s"), each.secret, Str(display), Str("-qr"), Str("-g")];
      runs := runs + [args];
    }
  }

  /** The empty token names no member. */
  lemma EmptyNotFlag()
    ensures Get("") == None
  {
    forall a: Arg ensures "" !in Flags(a) {
      NoEmptyFlag(a);
    }
  }

  lemma NoEmptyFlag(a: Arg)
    ensures forall f :: f in Flags(a) ==> |f| >= 2
  {
  }

  lemma DisplayFlag()
    ensures Get("-display") == Some(Display)
  {
    GetFlag(Display, "-display");
  }

  lemma SaveQRFlag()
    ensures Get("-qr") == Some(SaveQR)
  {
    GetFlag(SaveQR, "-qr");
  }

  lemma GenOnlyFlag()
    ensures Get("-g") == Some(GenOnly)
  {
    GetFlag(GenOnly, "-g");
  }

  /** What a run of `update_now` finds under each member: the account's
      name, issuer and secret, the display switch as given, the switches
      `-qr` and `-g` on, and every other member at its default. */
  function UpdateValue(a: Arg, name: string, issuer: string, secret: string, isDisplay: bool): Value
  {
    match a
    case Name => Text(name)
    case Issuer => Text(issuer)
    case Secret => Text(secret)
    case Display => Flag(isDisplay)
    case SaveQR => Flag(true)
    case GenOnly => Flag(true)
    case _ => if IsBool(a) then Flag(false) else Unset
  }

  /** The run of a saved account gets the account's name, issuer and secret
      verbatim, the display switch as given, and the switches that make it
      only generate the code: `-now` stays off, so the run does not go
      through the saved list again, and no verification is asked for. */
  lemma UpdateArgvParse(name: string, issuer: string, secret: string, isDisplay: bool)
    ensures var st := Parse(Tokens(UpdateArgv(Info(Str(name), Str(issuer), Str(secret)), isDisplay)));
            st.pending.None? &&
            forall a :: a in st.args && st.args[a] == UpdateValue(a, name, issuer, secret, isDisplay)
  {
    UpdateTokens(name, issuer, secret, isDisplay);
    UpdateState(name, issuer, secret, isDisplay);
    UpdateMapValues(name, issuer, secret, isDisplay);
  }

  lemma UpdateMapValues(name: string, issuer: string, secret: string, isDisplay: bool)
    ensures var m := UpdateMap(name, issuer, secret, isDisplay);
            forall a :: a in m && m[a] == UpdateValue(a, name, issuer, secret, isDisplay)
  {
    var m := UpdateMap(name, issuer, secret, isDisplay);
    forall a ensures a in m && m[a] == UpdateValue(a, name, issuer, secret, isDisplay) {
      DefaultsAt(a);
      match a
      case Name =>
      case Issuer =>
      case Secret =>
      case Display =>
      case SaveQR =>
      case GenOnly =>
      case _ => assert m[a] == Defaults()[a];
    }
  }

  /** The dictionary a run of `update_now` ends with, update by update. */
  function UpdateMap(name: string, issuer: string, secret: string, isDisplay: bool): map<Arg, Value>
  {
    var m := Defaults()[Name := Text(name)][Issuer := Text(issuer)][Secret := Text(secret)];
    var m7 := if isDisplay then m[Display := Flag(true)] else m;
    m7[SaveQR := Flag(true)][GenOnly := Flag(true)]
  }

  lemma UpdateState(name: string, issuer: string, secret: string, isDisplay: bool)
    ensures Parse(["-n", name, "-i", issuer, "-s", secret] + [if isDisplay then "-display" else ""] + ["-qr"] + ["-g"]) ==
              ParseState(UpdateMap(name, issuer, secret, isDisplay), None)
  {
    var x := if isDisplay then "-display" else "";
    var t6 := ["-n", name, "-i", issuer, "-s", secret];
    ParseSixTokens(name, issuer, secret);
    ParseSnoc(t6, x);
    DisplayStep(Parse(t6), isDisplay);
    SaveQRFlag();
    SwitchFlag(t6 + [x], "-qr", SaveQR);
    GenOnlyFlag();
    SwitchFlag(t6 + [x] + ["-qr"], "-g", GenOnly);
  }

  lemma DefaultsAt(a: Arg)
    ensures a in Defaults() && Defaults()[a] == if IsBool(a) then Flag(false) else Unset
  {
    MembersComplete(a);
  }

  /** The tokens of a run of an account whose values are all strings. */
  lemma UpdateTokens(name: string, issuer: string, secret: string, isDisplay: bool)
    ensures Tokens(UpdateArgv(Info(Str(name), Str(issuer), Str(secret)), isDisplay)) ==
              ["-n", name, "-i", issuer, "-s", secret] + [if isDisplay then "-display" else ""] + ["-qr"] + ["-g"]
  {
  }

  /** `-display` turns the switch on; the empty token in its place changes
      nothing. */
  lemma DisplayStep(st: ParseState, isDisplay: bool)
    requires st.pending.None?
    ensures Step(st, if isDisplay then "-display" else "") ==
              ParseState(if isDisplay then st.args[Display := Flag(true)] else st.args, None)
  {
    if isDisplay {
      DisplayFlag();
    } else {
      EmptyNotFlag();
    }
  }

  /** The three value flags of the run set the three values. */
  lemma ParseSixTokens(name: string, issuer: string, secret: string)
    ensures var st := Parse(["-n", name, "-i", issuer, "-s", secret]);
            st.pending.None? &&
            st.args == Defaults()[Name := Text(name)][Issuer := Text(issuer)][Secret := Text(secret)]
  {
    NameFlag();
    IssuerFlag();
    SecretFlag();
    ThreeValueFlags("-n", name, Name, "-i", issuer, Issuer, "-s", secret, Secret);
  }

  // ---------------------------------------------------------------------
  // The verification prompt

  /** How the prompt at the end of `run` ends: the code of the given attempt
      was accepted, four codes were refused, or the input ran out (EOFError). */
  datatype Outcome = Passed(attempt: nat) | Exhausted | EndOfInput

  /** `max_count`: one more than the number of codes checked. */
  const MaxCount: nat := 5

  /** The first of the first `n` codes typed in that `verify` accepts. */
  function FirstPass(inputs: seq<string>, verify: string -> bool, n: nat): (r: Option<nat>)
    ensures r.Some? ==> r.value < n && r.value < |inputs| && verify(inputs[r.value]) &&
                        forall j :: 0 <= j < r.value ==> !verify(inputs[j])
    ensures r.None? ==> forall j :: 0 <= j < n && j < |inputs| ==> !verify(inputs[j])
  {
    if n == 0 then None
    else
      match FirstPass(inputs, verify, n - 1)
      case Some(k) => Some(k)
      case None => if n - 1 < |inputs| && verify(inputs[n - 1]) then Some(n - 1) else None
  }

  /** The outcome of the prompt for the codes typed in: only the first
      `MaxCount - 1` codes are ever checked. */
  function Retry(inputs: seq<string>, verify: string -> bool): (o: Outcome)
    ensures o.Passed? ==> o.attempt < MaxCount - 1 && o.attempt < |inputs| && verify(inputs[o.attempt]) &&
                          forall j :: 0 <= j < o.attempt ==> !verify(inputs[j])
    ensures !o.Passed? ==> forall j :: 0 <= j < MaxCount - 1 && j < |inputs| ==> !verify(inputs[j])
    ensures o == Exhausted <==> !o.Passed? && |inputs| >= MaxCount
  {
    match FirstPass(inputs, verify, MaxCount - 1)
    case Some(k) => Passed(k)
    case None => if |inputs| >= MaxCount then Exhausted else EndOfInput
  }

  /** The prompt: a code is read, then up to four times it is checked and,
      when refused, another one read. `read` counts the codes read, `checked`
      the calls of `verify`; `printed` is whether `Verification passed!` is
      printed. The message for too many failures is a bare string in the
      source, so nothing is printed then. */
  method VerifyPrompt(inputs: seq<string>, verify: string -> bool, isDisplay: bool)
    returns (outcome: Outcome, read: nat, checked: nat, printed: bool)
    ensures outcome == Retry(inputs, verify)
    ensures read <= MaxCount && checked <= MaxCount - 1 && checked <= read <= |inputs|
    ensures outcome.Passed? ==> read == checked == outcome.attempt + 1
    ensures outcome == Exhausted ==> read == MaxCount && checked == MaxCount - 1
    ensures outcome == EndOfInput ==> read == checked == |inputs|
    ensures printed <==> outcome.Passed? && isDisplay
  {
    if |inputs| == 0 {
      return EndOfInput, 0, 0, false;
    }
    var code := inputs[0];
    read, checked := 1, 0;
    for i := 0 to MaxCount - 1
      invariant read == i + 1 && checked == i && read <= |inputs| && code == inputs[i]
      invariant forall j :: 0 <= j < i ==> !verify(inputs[j])
    {
      checked := checked + 1;
      if verify(code) {
        return Passed(i), read, checked, isDisplay;
      }
      if read == |inputs| {
        return EndOfInput, read, checked, false;
      }
      code := inputs[read];
      read := read + 1;
    }
    return Exhausted, read, checked, false;
  }

  /** The outcome of the prompt, case by case. */
  lemma RetryCases(inputs: seq<string>, verify: string -> bool)
    ensures Retry(inputs, verify).Passed? <==> exists k :: 0 <= k < MaxCount - 1 && k < |inputs| && verify(inputs[k])
    ensures Retry(inputs, verify) == Exhausted <==>
              |inputs| >= MaxCount && forall j :: 0 <= j < MaxCount - 1 ==> !verify(inputs[j])
    ensures Retry(inputs, verify) == EndOfInput <==>
              |inputs| < MaxCount && forall j :: 0 <= j < |inputs| ==> !verify(inputs[j])
  {
    var r := FirstPass(inputs, verify, MaxCount - 1);
    if r.Some? {
      assert 0 <= r.value < MaxCount - 1 && r.value < |inputs| && verify(inputs[r.value]);
    }
  }

  /** The fifth code is read but never checked: codes that agree on the
      first four give the same outcome. */
  lemma {:induction false} FirstPassPrefix(a: seq<string>, b: seq<string>, verify: string -> bool, n: nat)
    requires n <= |a| && n <= |b| && a[..n] == b[..n]
    ensures FirstPass(a, verify, n) == FirstPass(b, verify, n)
  {
    if n > 0 {
      assert a[..n - 1] == a[..n][..n - 1] && b[..n - 1] == b[..n][..n - 1];
      FirstPassPrefix(a, b, verify, n - 1);
      assert a[n - 1] == a[..n][n - 1] && b[n - 1] == b[..n][n - 1];
    }
  }

  lemma FifthCodeUnchecked(a: seq<string>, b: seq<string>, verify: string -> bool)
    requires |a| >= MaxCount && |b| >= MaxCount && a[..MaxCount - 1] == b[..MaxCount - 1]
    ensures Retry(a, verify) == Retry(b, verify)
  {
    FirstPassPrefix(a, b, verify, MaxCount - 1);
  }

  // ---------------------------------------------------------------------
  // The secret and the code

  /** A value of the dictionary as the string or None it stands for. */
  function AsText(v: Value): Option<string>
  {
    if v.Text? then Some(v.text) else None
  }

  /** `get_secret_from_args`: the contents of the secret file if one is named
      and could be read (`fileRead`, None when opening or reading it fails),
      otherwise the `-s` value; when the secret chosen so far is empty or
      missing, the secret derived from the alias. Returns the secret, which
      is None when there is none of these, and the alias. */
  function SecretFromArgs(args: map<Arg, Value>, fileRead: Option<string>, sha512: string -> Codec.Digest64)
    : (r: Result<(Option<string>, Option<string>), Codec.AliasError>)
    requires Secret in args && SecretFile in args && Alias in args
    ensures r.Success? ==> r.value.1 == AsText(args[Alias])
    ensures Codec.Truthy(AsText(args[SecretFile])) && Codec.Truthy(fileRead) ==> r == Success((fileRead, AsText(args[Alias])))
    ensures !(Codec.Truthy(AsText(args[SecretFile])) && fileRead.Some?) && Codec.Truthy(AsText(args[Secret])) ==>
              r == Success((AsText(args[Secret]), AsText(args[Alias])))
    ensures r.Success? && r.value.0.Some? ==> r.value.0.value != ""
    ensures r.Failure? ==> Codec.Truthy(AsText(args[Alias])) && |AsText(args[Alias]).value| >= 32
    ensures var chosen := if Codec.Truthy(AsText(args[SecretFile])) && fileRead.Some? then fileRead else AsText(args[Secret]);
            !Codec.Truthy(chosen) ==>
              r == match Codec.CreateSecretFromAlias(AsText(args[Alias]), sha512)
                   case Success(derived) => Success((derived, AsText(args[Alias])))
                   case Failure(e) => Failure(e)
  {
    var alias := AsText(args[Alias]);
    var secret := if Codec.Truthy(AsText(args[SecretFile])) && fileRead.Some? then fileRead else AsText(args[Secret]);
    if Codec.Truthy(secret) then Success((secret, alias))
    else
      match Codec.CreateSecretFromAlias(alias, sha512)
      case Success(derived) => Success((derived, alias))
      case Failure(e) => Failure(e)
  }

  /** With neither a secret file nor a secret, a short alias gives a secret
      that decodes to the first 20 bytes of the digest of the alias; no alias
      at all gives None, for which the client makes a random secret. */
  lemma SecretFromAliasOnly(args: map<Arg, Value>, fileRead: Option<string>, sha512: string -> Codec.Digest64)
    requires Secret in args && SecretFile in args && Alias in args
    requires !Codec.Truthy(AsText(args[SecretFile])) && !Codec.Truthy(AsText(args[Secret]))
    ensures !Codec.Truthy(AsText(args[Alias])) ==> SecretFromArgs(args, fileRead, sha512) == Success((None, AsText(args[Alias])))
    ensures var alias := AsText(args[Alias]);
            Codec.Truthy(alias) && |alias.value| < 32 ==>
              SecretFromArgs(args, fileRead, sha512).Success? &&
              SecretFromArgs(args, fileRead, sha512).value.0.Some? &&
              Codec.ByteSecret(SecretFromArgs(args, fileRead, sha512).value.0.value) == Success(sha512(alias.value)[..20])
  {
    var alias := AsText(args[Alias]);
    if Codec.Truthy(alias) && |alias.value| < 32 {
      Codec.DerivedSecretKey(alias.value, sha512);
    }
  }

  /** A secret file that is read but empty leaves the choice to the alias,
      whatever `-s` holds: the file's contents replace the `-s` value before
      the emptiness test. */
  lemma SecretFromEmptyFile(args: map<Arg, Value>, sha512: string -> Codec.Digest64)
    requires Secret in args && SecretFile in args && Alias in args
    requires Codec.Truthy(AsText(args[SecretFile]))
    ensures SecretFromArgs(args, Some(""), sha512) == SecretFromArgs(args[Secret := Text("")], None, sha512)
    ensures !Codec.Truthy(AsText(args[Alias])) ==> SecretFromArgs(args, Some(""), sha512) == Success((None, AsText(args[Alias])))
  {
  }

  /** What `gen_code_from_args` returns: the issuer, name and secret of the
      account, its current code and the seconds the code stays valid. */
  datatype VerifyData = VerifyData(issuer: Value, name: Value, secret: string, code: string, remainTime: nat)

  /** `code` is the code `generate_otp` gives for the secret at the
      timestamp: six decimal digits spelling the HOTP value of the key and
      the window. */
  predicate IsCodeOf(code: string, secret: string, stamp: int,
                     hmacSha1: (seq<Bytes.byte>, seq<Bytes.byte>) -> Totp.Digest)
  {
    stamp > -30 && Codec.ByteSecret(secret).Success? &&
    |code| == 6 && Totp.IsDecimal(code) &&
    Totp.DecimalValue(code) == Totp.Hotp(Codec.ByteSecret(secret).value, Totp.WindowIndex(stamp), hmacSha1)
  }

  /** `gen_code_from_args` at the timestamp `stamp` and the clock's seconds
      `second` (two readings of the clock): the code of `generate_otp` and
      the remaining time of the current window, or the error of
      `generate_otp`. */
  method GenCodeFromArgs(args: map<Arg, Value>, secret: string, stamp: int, second: nat,
                         hmacSha1: (seq<Bytes.byte>, seq<Bytes.byte>) -> Totp.Digest)
    returns (r: Result<VerifyData, Totp.OtpError>)
    requires Name in args && Issuer in args && Display in args
    ensures r.Success? <==> stamp > -30 && Codec.ByteSecret(secret).Success?
    ensures stamp <= -30 ==> r == Failure(Totp.NegativeWindow)
    ensures stamp > -30 && Codec.ByteSecret(secret).Failure? ==>
              r == Failure(Totp.BadSecret(Codec.ByteSecret(secret).error))
    ensures r.Success? ==>
              r.value.issuer == args[Issuer] && r.value.name == args[Name] && r.value.secret == secret &&
              IsCodeOf(r.value.code, secret, stamp, hmacSha1) &&
              1 <= r.value.remainTime <= 30 && (second + r.value.remainTime) % 30 == 0
  {
    var name := args[Name];
    var issuer := args[Issuer];
    var remainTime := Totp.RemainTime(second);
    var code := Totp.GenerateOtp(secret, stamp, hmacSha1);
    match code {
      case Failure(e) =>
        r := Failure(e);
      case Success(c) =>
        assert IsCodeOf(c, secret, stamp, hmacSha1);
        r := Success(VerifyData(issuer, name, secret, c, remainTime));
    }
  }
}
