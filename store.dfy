/** The list of saved accounts kept in `generated/saved.json`: the record
    `create_QRCode` appends, the `[name, issuer, secret]` rows `get_saved`
    reads back, the filter of the plugin's `delete_otp`, and the first-match
    lookup of `get_saved_info` against the text of a launcher query. The
    file itself is a field; reading and writing it are left out. */
module Store {
  import opened Wrappers
  import opened Strings
  import opened Args

  /** A JSON value of a record: null or a string. */
  datatype Field = Null | Str(s: string)

  /** A JSON object of the saved list. */
  type Record = map<string, Field>

  /** `f'{x}'`: the text of a value, `None` for null. */
  function Format(f: Field): (r: string)
    ensures f.Str? ==> r == f.s
    ensures r == "None" <==> f == Null || f == Str("None")
  {
    match f
    case Null => "None"
    case Str(s) => s
  }

  /** The dictionary `create_QRCode` appends to the list. */
  function NewRecord(name: Field, issuer: Field, secret: string, qr: string): (r: Record)
    ensures r.Keys == {"Name", "Issuer", "Secret", "QR"} && Complete(r)
    ensures r["Name"] == name && r["Issuer"] == issuer && r["Secret"] == Str(secret) && r["QR"] == Str(qr)
  {
    map["Name" := name, "Issuer" := issuer, "Secret" := Str(secret), "QR" := Str(qr)]
  }

  /** A missing key (`KeyError`). */
  datatype KeyError = KeyError(key: string)

  /** `each[key] if key in each.keys() else None`. */
  function Lookup(r: Record, key: string): Field
  {
    if key in r then r[key] else Null
  }

  /** A row of `get_saved`. */
  datatype Info = Info(name: Field, issuer: Field, secret: Field)

  function InfoOf(r: Record): (info: Info)
    ensures Complete(r) ==> info == Info(r["Name"], r["Issuer"], r["Secret"])
    ensures ("Name" !in r ==> info.name == Null) && ("Issuer" !in r ==> info.issuer == Null) &&
            ("Secret" !in r ==> info.secret == Null)
  {
    Info(Lookup(r, "Name"), Lookup(r, "Issuer"), Lookup(r, "Secret"))
  }

  /** The row of a record `create_QRCode` wrote holds what was written. */
  lemma InfoOfNewRecord(name: Field, issuer: Field, secret: string, qr: string)
    ensures InfoOf(NewRecord(name, issuer, secret, qr)) == Info(name, issuer, Str(secret))
  {
  }

  // ---------------------------------------------------------------------
  // delete_otp

  /** The three keys every comparison reads. */
  predicate Complete(r: Record)
  {
    "Name" in r && "Issuer" in r && "Secret" in r
  }

  /** Whether `delete_otp` keeps `each` when deleting `target`, or the
      KeyError it raises there: `each['Name']` and `each['Issuer']` are read
      first, then each comparison reads the keys it needs. */
  function Keep(each: Record, target: Record): (r: Result<bool, KeyError>)
    ensures r == Success(false) ==> Complete(each) && Complete(target) && SameAccount(each, target)
    ensures Complete(each) && Complete(target) ==> r.Success?
    ensures r.Failure? ==> r.error.key in {"Name", "Issuer", "Secret"}
  {
    if "Name" !in each then Failure(KeyError("Name"))
    else if "Issuer" !in each then Failure(KeyError("Issuer"))
    else if "Name" !in target then Failure(KeyError("Name"))
    else if target["Name"] != Str(Format(each["Name"])) then Success(true)
    else if "Issuer" !in target then Failure(KeyError("Issuer"))
    else if target["Issuer"] != Str(Format(each["Issuer"])) then Success(true)
    else if "Secret" !in each || "Secret" !in target then Failure(KeyError("Secret"))
    else Success(each["Secret"] != target["Secret"])
  }

  /** The record is the account `target` names: its name and issuer print
      as the target's and its secret is the target's. */
  predicate SameAccount(each: Record, target: Record)
    requires Complete(each) && Complete(target)
  {
    target["Name"] == Str(Format(each["Name"])) &&
    target["Issuer"] == Str(Format(each["Issuer"])) &&
    each["Secret"] == target["Secret"]
  }

  lemma KeepComplete(each: Record, target: Record)
    requires Complete(each) && Complete(target)
    ensures Keep(each, target) == Success(!SameAccount(each, target))
  {
  }

  /** The list `delete_otp` writes back, or the KeyError it raises first. */
  function Delete(saved: seq<Record>, target: Record): (r: Result<seq<Record>, KeyError>)
    ensures r.Success? <==> forall k :: 0 <= k < |saved| ==> Keep(saved[k], target).Success?
    ensures r.Success? ==> |r.value| <= |saved| && forall x :: x in r.value ==> x in saved
  {
    if saved == [] then Success([])
    else
      var last := saved[|saved| - 1];
      match Delete(saved[..|saved| - 1], target)
      case Failure(e) => Failure(e)
      case Success(temp) =>
        match Keep(last, target)
        case Failure(e) => Failure(e)
        case Success(k) => Success(if k then temp + [last] else temp)
  }

  /** A KeyError in a prefix is the KeyError of the whole list. */
  lemma {:induction false} DeleteFailure(saved: seq<Record>, target: Record, i: nat)
    requires i <= |saved| && Delete(saved[..i], target).Failure?
    ensures Delete(saved, target) == Delete(saved[..i], target)
    decreases |saved| - i
  {
    if i < |saved| {
      assert saved[..i + 1][..i] == saved[..i];
      DeleteFailure(saved, target, i + 1);
    } else {
      assert saved[..i] == saved;
    }
  }

  /** The records of `saved` that are not the account `target`, in order. */
  function Kept(saved: seq<Record>, target: Record): (r: seq<Record>)
    requires Complete(target) && forall k :: 0 <= k < |saved| ==> Complete(saved[k])
    ensures |r| <= |saved|
  {
    if saved == [] then []
    else
      var last := saved[|saved| - 1];
      Kept(saved[..|saved| - 1], target) + if SameAccount(last, target) then [] else [last]
  }

  /** How many records of `saved` are the account `target`. */
  function Count(saved: seq<Record>, target: Record): nat
    requires Complete(target) && forall k :: 0 <= k < |saved| ==> Complete(saved[k])
  {
    if saved == [] then 0
    else Count(saved[..|saved| - 1], target) + if SameAccount(saved[|saved| - 1], target) then 1 else 0
  }

  /** When every record and the target have the three keys, `delete_otp`
      writes back exactly the records that are not the target. */
  lemma {:induction false} DeleteKept(saved: seq<Record>, target: Record)
    requires Complete(target) && forall k :: 0 <= k < |saved| ==> Complete(saved[k])
    ensures Delete(saved, target) == Success(Kept(saved, target))
  {
    if saved != [] {
      var p, last := saved[..|saved| - 1], saved[|saved| - 1];
      assert forall k :: 0 <= k < |p| ==> Complete(p[k]) by {
        forall k | 0 <= k < |p| ensures Complete(p[k]) {
          assert p[k] == saved[k];
        }
      }
      DeleteKept(p, target);
      KeepComplete(last, target);
      var temp := Kept(p, target);
      assert Delete(p, target) == Success(temp);
      assert Kept(saved, target) == temp + if SameAccount(last, target) then [] else [last];
      assert temp + [] == temp;
    }
  }

  /** A record without `Name` or `Issuer` makes `delete_otp` fail, wherever it is. */
  lemma {:induction false} DeleteIncomplete(saved: seq<Record>, target: Record, k: nat)
    requires k < |saved| && ("Name" !in saved[k] || "Issuer" !in saved[k])
    ensures Delete(saved, target).Failure?
  {
    var p := saved[..k + 1];
    assert p[..k] == saved[..k];
    assert Delete(p, target).Failure?;
    DeleteFailure(saved, target, k + 1);
  }

  /** A record is kept exactly when it is in the list and is not the target. */
  lemma {:induction false} KeptMember(saved: seq<Record>, target: Record, r: Record)
    requires Complete(target) && forall k :: 0 <= k < |saved| ==> Complete(saved[k])
    ensures r in Kept(saved, target) <==> r in saved && !SameAccount(r, target)
  {
    if saved != [] {
      var p := saved[..|saved| - 1];
      KeptMember(p, target, r);
      assert saved == p + [saved[|saved| - 1]];
    }
  }

  /** Filtering a concatenation filters each part: the order is kept. */
  lemma {:induction false} KeptConcat(a: seq<Record>, b: seq<Record>, target: Record)
    requires Complete(target)
    requires forall k :: 0 <= k < |a| ==> Complete(a[k])
    requires forall k :: 0 <= k < |b| ==> Complete(b[k])
    ensures forall k :: 0 <= k < |a + b| ==> Complete((a + b)[k])
    ensures Kept(a + b, target) == Kept(a, target) + Kept(b, target)
    ensures Count(a + b, target) == Count(a, target) + Count(b, target)
    decreases |b|
  {
    if b == [] {
      assert a + b == a;
    } else {
      var b' := b[..|b| - 1];
      KeptConcat(a, b', target);
      assert (a + b)[..|a + b| - 1] == a + b';
    }
  }

  /** Every match is removed, not only the first. */
  lemma {:induction false} KeptLength(saved: seq<Record>, target: Record)
    requires Complete(target) && forall k :: 0 <= k < |saved| ==> Complete(saved[k])
    ensures |Kept(saved, target)| == |saved| - Count(saved, target)
  {
    if saved != [] {
      KeptLength(saved[..|saved| - 1], target);
    }
  }

  /** Deleting an account that is not in the list changes nothing. */
  lemma {:induction false} KeptAbsent(saved: seq<Record>, target: Record)
    requires Complete(target) && forall k :: 0 <= k < |saved| ==> Complete(saved[k])
    requires forall k :: 0 <= k < |saved| ==> !SameAccount(saved[k], target)
    ensures Kept(saved, target) == saved
  {
    if saved != [] {
      KeptAbsent(saved[..|saved| - 1], target);
    }
  }

  /** Deleting twice deletes once. */
  lemma KeptIdempotent(saved: seq<Record>, target: Record)
    requires Complete(target) && forall k :: 0 <= k < |saved| ==> Complete(saved[k])
    ensures forall k :: 0 <= k < |Kept(saved, target)| ==> Complete(Kept(saved, target)[k])
    ensures Kept(Kept(saved, target), target) == Kept(saved, target)
  {
    var kept := Kept(saved, target);
    forall k | 0 <= k < |kept|
      ensures Complete(kept[k]) && !SameAccount(kept[k], target)
    {
      KeptMember(saved, target, kept[k]);
    }
    KeptAbsent(kept, target);
  }

  /** The plugin deletes the account of a record it shows with that record
      itself as the target: this removes it exactly when its name and issuer
      are strings, because a null prints as `None`, which is not null. */
  lemma DeleteAppended(saved: seq<Record>, name: Field, issuer: Field, secret: string, qr: string)
    requires forall k :: 0 <= k < |saved| ==> Complete(saved[k])
    ensures var r := NewRecord(name, issuer, secret, qr);
            Complete(r) &&
            Kept(saved + [r], r) == Kept(saved, r) + (if name.Str? && issuer.Str? then [] else [r])
  {
    var r := NewRecord(name, issuer, secret, qr);
    NewRecordSelf(name, issuer, secret, qr);
    KeptConcat(saved, [r], r);
    assert [r][..0] == [];
  }

  lemma NewRecordSelf(name: Field, issuer: Field, secret: string, qr: string)
    ensures var r := NewRecord(name, issuer, secret, qr);
            Complete(r) && (SameAccount(r, r) <==> name.Str? && issuer.Str?)
  {
    var r := NewRecord(name, issuer, secret, qr);
    assert r["Name"] == name && r["Issuer"] == issuer && r["Secret"] == Str(secret);
  }

  // ---------------------------------------------------------------------
  // get_saved_info

  /** Python `==` between a saved value and a parsed argument: null equals None. */
  predicate SameValue(f: Field, v: Value)
  {
    match f
    case Null => v == Unset
    case Str(s) => v == Text(s)
  }

  /** Whether `get_saved_info` returns `save` for the parsed Name, Issuer and
      Secret arguments, or the KeyError it raises: the name and issuer are
      compared in double quotes. */
  function SavedMatch(save: Record, name: Value, issuer: Value, secret: Value): (r: Result<bool, KeyError>)
    ensures r.Failure? <==>
              "Name" !in save || "Issuer" !in save ||
              (name == Text(Quote(Format(save["Name"]))) && issuer == Text(Quote(Format(save["Issuer"]))) && "Secret" !in save)
    ensures r == Success(true) ==>
              Complete(save) && name == Text(Quote(Format(save["Name"]))) &&
              issuer == Text(Quote(Format(save["Issuer"]))) && SameValue(save["Secret"], secret)
  {
    if "Name" !in save then Failure(KeyError("Name"))
    else if "Issuer" !in save then Failure(KeyError("Issuer"))
    else if Text(Quote(Format(save["Name"]))) != name then Success(false)
    else if Text(Quote(Format(save["Issuer"]))) != issuer then Success(false)
    else if "Secret" !in save then Failure(KeyError("Secret"))
    else Success(SameValue(save["Secret"], secret))
  }

  /** The first record the arguments match, None when none does, or the
      first KeyError met on the way. */
  function FindSaved(saved: seq<Record>, name: Value, issuer: Value, secret: Value): (r: Result<Option<Record>, KeyError>)
    ensures r.Success? && r.value.Some? ==> r.value.value in saved
    ensures r.Success? && r.value.Some? ==> SavedMatch(r.value.value, name, issuer, secret) == Success(true)
    ensures r.Success? && r.value.None? ==> forall k :: 0 <= k < |saved| ==> SavedMatch(saved[k], name, issuer, secret) == Success(false)
  {
    if saved == [] then Success(None)
    else
      match SavedMatch(saved[0], name, issuer, secret)
      case Failure(e) => Failure(e)
      case Success(true) => Success(Some(saved[0]))
      case Success(false) => FindSaved(saved[1..], name, issuer, secret)
  }

  /** The first match wins: every record before it is passed over. */
  lemma {:induction false} FindSavedFirst(saved: seq<Record>, name: Value, issuer: Value, secret: Value, k: nat)
    requires k < |saved| && SavedMatch(saved[k], name, issuer, secret) == Success(true)
    requires forall j :: 0 <= j < k ==> SavedMatch(saved[j], name, issuer, secret) == Success(false)
    ensures FindSaved(saved, name, issuer, secret) == Success(Some(saved[k]))
    decreases k
  {
    if k > 0 {
      FindSavedFirst(saved[1..], name, issuer, secret, k - 1);
    }
  }

  /** The arguments of a query: the Name, Issuer and Secret that `load_args`
      reads from its space-separated tokens. */
  function QueryArgs(query: string): (args: map<Arg, Value>)
    ensures Name in args && Issuer in args && Secret in args
  {
    ParseShaped(Split(query, ' '));
    Parse(Split(query, ' ')).args
  }

  /** `f'-i "{issuer}" -n "{name}" -s {secret}'`: the context string the
      plugin attaches to a shown code, which `get_saved_info` later parses. */
  function Context(issuer: string, name: string, secret: string): (c: string)
    ensures |c| == |issuer| + |name| + |secret| + 15
    ensures c[..4] == "-i \"" && c[|c| - |secret|..] == secret
  {
    "-i " + Quote(issuer) + " -n " + Quote(name) + " -s " + secret
  }

  /** Split on spaces, the context gives back its six tokens when the three
      values have no spaces. */
  lemma ContextTokens(issuer: string, name: string, secret: string)
    requires ' ' !in issuer && ' ' !in name && ' ' !in secret
    ensures Split(Context(issuer, name, secret), ' ') == ["-i", Quote(issuer), "-n", Quote(name), "-s", secret]
  {
    var qi, qn := Quote(issuer), Quote(name);
    var parts := ["-i", qi, "-n", qn, "-s", secret];
    assert ' ' !in qi && ' ' !in qn;
    JoinCons("-s", [secret], ' ');
    JoinCons(qn, ["-s", secret], ' ');
    JoinCons("-n", [qn, "-s", secret], ' ');
    JoinCons(qi, ["-n", qn, "-s", secret], ' ');
    JoinCons("-i", [qi, "-n", qn, "-s", secret], ' ');
    assert [qi, "-n", qn, "-s", secret] == [qi] + ["-n", qn, "-s", secret];
    assert Join(parts, ' ') == "-i" + [' '] + (qi + [' '] + ("-n" + [' '] + (qn + [' '] + ("-s" + [' '] + secret))));
    assert Join(parts, ' ') == Context(issuer, name, secret);
    SplitJoin(parts, ' ');
  }

  /** The arguments parsed from a context are the quoted issuer and name and
      the secret, verbatim. */
  lemma ContextArgs(issuer: string, name: string, secret: string)
    requires ' ' !in issuer && ' ' !in name && ' ' !in secret
    ensures QueryArgs(Context(issuer, name, secret))[Issuer] == Text(Quote(issuer))
    ensures QueryArgs(Context(issuer, name, secret))[Name] == Text(Quote(name))
    ensures QueryArgs(Context(issuer, name, secret))[Secret] == Text(secret)
  {
    ContextTokens(issuer, name, secret);
    ParseContext(Quote(issuer), Quote(name), secret);
  }

  /** `-i`, `-n` and `-s`, each followed by its value, set the three values. */
  lemma ParseContext(i: string, n: string, s: string)
    ensures var args := Parse(["-i", i, "-n", n, "-s", s]).args;
            Issuer in args && Name in args && Secret in args &&
            args[Issuer] == Text(i) && args[Name] == Text(n) && args[Secret] == Text(s)
  {
    ContextState(i, n, s);
    DefaultsHas(Issuer, Name, Secret);
  }

  lemma ContextState(i: string, n: string, s: string)
    ensures Parse(["-i", i, "-n", n, "-s", s]).args == Defaults()[Issuer := Text(i)][Name := Text(n)][Secret := Text(s)]
  {
    IssuerFlag();
    NameFlag();
    SecretFlag();
    ThreeValueFlags("-i", i, Issuer, "-n", n, Name, "-s", s, Secret);
  }

  lemma DefaultsHas(a: Arg, b: Arg, c: Arg)
    ensures a in Defaults() && b in Defaults() && c in Defaults()
  {
    MembersComplete(a);
    MembersComplete(b);
    MembersComplete(c);
  }

  lemma QuoteInjective(a: string, b: string)
    requires Quote(a) == Quote(b)
    ensures a == b
  {
    assert a == Quote(a)[1..|Quote(a)| - 1];
  }

  /** The round trip of the plugin: the context shown with a saved account's
      code leads `get_saved_info` to a saved record of that account (the
      first one, if it was saved more than once). */
  lemma ContextFindsRecord(saved: seq<Record>, k: nat)
    requires k < |saved| && forall j :: 0 <= j < |saved| ==> Complete(saved[j])
    requires Complete(saved[k]) && saved[k]["Secret"].Str? && saved[k]["Secret"].s != ""
    requires ' ' !in Format(saved[k]["Issuer"]) && ' ' !in Format(saved[k]["Name"]) && ' ' !in saved[k]["Secret"].s
    ensures var args := QueryArgs(Context(Format(saved[k]["Issuer"]), Format(saved[k]["Name"]), saved[k]["Secret"].s));
            var r := FindSaved(saved, args[Name], args[Issuer], args[Secret]);
            r.Success? && r.value.Some? &&
            Format(r.value.value["Name"]) == Format(saved[k]["Name"]) &&
            Format(r.value.value["Issuer"]) == Format(saved[k]["Issuer"]) &&
            r.value.value["Secret"] == saved[k]["Secret"]
  {
    var issuer, name, secret := Format(saved[k]["Issuer"]), Format(saved[k]["Name"]), saved[k]["Secret"].s;
    ContextArgs(issuer, name, secret);
    var args := QueryArgs(Context(issuer, name, secret));
    var n, i, s := args[Name], args[Issuer], args[Secret];
    OwnContextMatches(saved[k]);
    FindSavedSome(saved, n, i, s, k);
    MatchQuoted(FindSaved(saved, n, i, s).value.value, name, issuer, secret);
  }

  /** As written, the round trip breaks on a space: the context is split on
      spaces, so a quoted issuer or name with a space in it is never one
      token, and a record printing as that issuer and name is passed over. */
  lemma SpacedContextMisses(saved: seq<Record>, issuer: string, name: string, secret: string)
    requires ' ' in issuer || ' ' in name
    ensures var args := QueryArgs(Context(issuer, name, secret));
            forall j :: 0 <= j < |saved| && "Name" in saved[j] && "Issuer" in saved[j] &&
                        Format(saved[j]["Issuer"]) == issuer && Format(saved[j]["Name"]) == name ==>
                          SavedMatch(saved[j], args[Name], args[Issuer], args[Secret]) == Success(false)
  {
    var tokens := Split(Context(issuer, name, secret), ' ');
    var args := QueryArgs(Context(issuer, name, secret));
    ParseTextFrom(tokens);
    ParseShaped(tokens);
    assert !IsBool(Name) && !IsBool(Issuer);
    if ' ' in issuer {
      assert ' ' in Quote(issuer);
      assert args[Issuer] != Text(Quote(issuer));
    } else {
      assert ' ' in Quote(name);
      assert args[Name] != Text(Quote(name));
    }
  }

  /** So in a store holding only that record, the plugin finds no record for
      the context of that account. */
  lemma SpacedContextNotFound(r: Record, secret: string)
    requires "Name" in r && "Issuer" in r
    requires ' ' in Format(r["Issuer"]) || ' ' in Format(r["Name"])
    ensures var args := QueryArgs(Context(Format(r["Issuer"]), Format(r["Name"]), secret));
            FindSaved([r], args[Name], args[Issuer], args[Secret]) == Success(None)
  {
    SpacedContextMisses([r], Format(r["Issuer"]), Format(r["Name"]), secret);
  }

  /** Worse, a quote before the space can make a different account match:
      the context of the issuer `a" b` splits into `-i`, `"a"`, `b"`, ...;
      `b"` names no member and is dropped, so the lookup looks for the issuer
      `a` and returns that account. */
  lemma SpacedContextOtherAccount(a: string, b: string, name: string, secret: string, qa: string, qb: string)
    requires ' ' !in a && ' ' !in b && ' ' !in name && ' ' !in secret
    requires b == [] || b[0] != '-'
    ensures var ra := NewRecord(Str(name), Str(a), secret, qa);
            var rb := NewRecord(Str(name), Str(a + "\" " + b), secret, qb);
            var args := QueryArgs(Context(a + "\" " + b, name, secret));
            FindSaved([ra, rb], args[Name], args[Issuer], args[Secret]) == Success(Some(ra))
  {
    var ra := NewRecord(Str(name), Str(a), secret, qa);
    SpacedContextArgs(a, b, name, secret);
    OwnContextMatches(ra);
  }

  /** The context of the issuer `a" b` parses as the context of the issuer `a`. */
  lemma SpacedContextArgs(a: string, b: string, name: string, secret: string)
    requires ' ' !in a && ' ' !in b && ' ' !in name && ' ' !in secret
    requires b == [] || b[0] != '-'
    ensures var args := QueryArgs(Context(a + "\" " + b, name, secret));
            args[Issuer] == Text(Quote(a)) && args[Name] == Text(Quote(name)) && args[Secret] == Text(secret)
  {
    SpacedParse(a, b, name, secret);
    var six := ["-i", Quote(a)] + ["-n", Quote(name), "-s", secret];
    assert six == ["-i", Quote(a), "-n", Quote(name), "-s", secret];
    ParseContext(Quote(a), Quote(name), secret);
  }

  lemma SpacedParse(a: string, b: string, name: string, secret: string)
    requires ' ' !in a && ' ' !in b && ' ' !in name && ' ' !in secret
    requires b == [] || b[0] != '-'
    ensures var p, q := ["-i", Quote(a)], ["-n", Quote(name), "-s", secret];
            Parse(Split(Context(a + "\" " + b, name, secret), ' ')) == Parse(p + q)
  {
    SpacedContextTokens(a, b, name, secret);
    var t := b + "\"";
    assert t[0] != '-';
    NotAFlag(t);
    SkipIssuerToken(Quote(a), t, Quote(name), secret);
  }

  /** A token naming no member right after the issuer's value is dropped. */
  lemma SkipIssuerToken(i: string, t: string, n: string, s: string)
    requires Get(t).None?
    ensures Parse(["-i", i, t, "-n", n, "-s", s]) == Parse(["-i", i] + ["-n", n, "-s", s])
  {
    var p, q := ["-i", i], ["-n", n, "-s", s];
    var full := p + [t] + q;
    IssuerTaken(i);
    UnknownIgnored(p, t, q);
    assert full == ["-i", i, t, "-n", n, "-s", s];
  }

  lemma IssuerTaken(v: string)
    ensures Parse(["-i", v]).pending.None?
  {
    IssuerFlag();
    ValueFlag([], "-i", v, Issuer);
    assert [] + ["-i", v] == ["-i", v];
  }

  lemma SpacedContextTokens(a: string, b: string, name: string, secret: string)
    requires ' ' !in a && ' ' !in b && ' ' !in name && ' ' !in secret
    ensures Split(Context(a + "\" " + b, name, secret), ' ') == ["-i", Quote(a), b + "\"", "-n", Quote(name), "-s", secret]
  {
    var qa, tb, qn := Quote(a), b + "\"", Quote(name);
    var parts := ["-i", qa, tb, "-n", qn, "-s", secret];
    JoinCons("-s", [secret], ' ');
    JoinCons(qn, ["-s", secret], ' ');
    JoinCons("-n", [qn, "-s", secret], ' ');
    JoinCons(tb, ["-n", qn, "-s", secret], ' ');
    JoinCons(qa, [tb, "-n", qn, "-s", secret], ' ');
    JoinCons("-i", [qa, tb, "-n", qn, "-s", secret], ' ');
    assert [qa, tb, "-n", qn, "-s", secret] == [qa] + [tb, "-n", qn, "-s", secret];
    assert [tb, "-n", qn, "-s", secret] == [tb] + ["-n", qn, "-s", secret];
    var rest := "-n" + [' '] + (qn + [' '] + ("-s" + [' '] + secret));
    assert Join(parts, ' ') == "-i" + [' '] + (qa + [' '] + (tb + [' '] + rest));
    QuoteSpaced(a, b);
    assert Context(a + "\" " + b, name, secret) == "-i " + (qa + [' '] + tb) + " " + rest;
    assert Join(parts, ' ') == Context(a + "\" " + b, name, secret);
    assert ' ' !in qa && ' ' !in tb && ' ' !in qn;
    SplitJoin(parts, ' ');
  }

  lemma QuoteSpaced(a: string, b: string)
    ensures Quote(a + "\" " + b) == Quote(a) + [' '] + (b + "\"")
  {
  }

  /** A record matches the quoted forms of its own name and issuer and its
      own secret. */
  lemma OwnContextMatches(save: Record)
    requires Complete(save) && save["Secret"].Str?
    ensures SavedMatch(save, Text(Quote(Format(save["Name"]))), Text(Quote(Format(save["Issuer"]))),
                       Text(save["Secret"].s)) == Success(true)
  {
  }

  /** A record matching the quoted forms of a name and an issuer prints as
      that name and issuer, and holds the secret. */
  lemma MatchQuoted(save: Record, name: string, issuer: string, secret: string)
    requires SavedMatch(save, Text(Quote(name)), Text(Quote(issuer)), Text(secret)) == Success(true)
    ensures "Name" in save && "Issuer" in save && "Secret" in save
    ensures Format(save["Name"]) == name && Format(save["Issuer"]) == issuer && save["Secret"] == Str(secret)
  {
    QuoteInjective(Format(save["Name"]), name);
    QuoteInjective(Format(save["Issuer"]), issuer);
  }

  /** A record with the three keys never raises a KeyError. */
  lemma SavedMatchComplete(save: Record, name: Value, issuer: Value, secret: Value)
    requires Complete(save)
    ensures SavedMatch(save, name, issuer, secret).Success?
  {
  }

  /** When every record has the three keys, the search raises no KeyError. */
  lemma {:induction false} FindSavedTotal(saved: seq<Record>, name: Value, issuer: Value, secret: Value)
    requires forall j :: 0 <= j < |saved| ==> Complete(saved[j])
    ensures FindSaved(saved, name, issuer, secret).Success?
    decreases |saved|
  {
    if saved != [] {
      SavedMatchComplete(saved[0], name, issuer, secret);
      var rest := saved[1..];
      assert forall j :: 0 <= j < |rest| ==> Complete(rest[j]) by {
        forall j | 0 <= j < |rest| ensures Complete(rest[j]) {
          assert rest[j] == saved[j + 1];
        }
      }
      FindSavedTotal(rest, name, issuer, secret);
    }
  }

  /** When every record has the three keys and one of them matches, some
      matching record is returned. */
  lemma FindSavedSome(saved: seq<Record>, name: Value, issuer: Value, secret: Value, k: nat)
    requires k < |saved| && forall j :: 0 <= j < |saved| ==> Complete(saved[j])
    requires SavedMatch(saved[k], name, issuer, secret) == Success(true)
    ensures FindSaved(saved, name, issuer, secret).Success?
    ensures FindSaved(saved, name, issuer, secret).value.Some?
  {
    FindSavedTotal(saved, name, issuer, secret);
  }

  // ---------------------------------------------------------------------
  // The file

  /** The contents of `generated/saved.json`. */
  class SavedFile {
    var records: seq<Record>

    constructor (records: seq<Record>)
      ensures this.records == records
    {
      this.records := records;
    }

    /** The end of `create_QRCode`: the new account's record is appended. */
    method Append(name: Field, issuer: Field, secret: string, qr: string)
      modifies this
      ensures records == old(records) + [NewRecord(name, issuer, secret, qr)]
    {
      records := records + [NewRecord(name, issuer, secret, qr)];
    }

    /** `get_saved`: one `[name, issuer, secret]` row per record, null for a
        missing key. */
    method GetSaved() returns (infos: seq<Info>)
      ensures |infos| == |records|
      ensures forall k :: 0 <= k < |records| ==> infos[k] == InfoOf(records[k])
    {
      infos := [];
      for i := 0 to |records|
        invariant |infos| == i
        invariant forall k :: 0 <= k < i ==> infos[k] == InfoOf(records[k])
      {
        var each := records[i];
        var name := if "Name" in each then each["Name"] else Null;
        var issuer := if "Issuer" in each then each["Issuer"] else Null;
        var secret := if "Secret" in each then each["Secret"] else Null;
        infos := infos + [Info(name, issuer, secret)];
      }
    }

    /** `delete_otp`: the records that are not the target are written back;
        on a KeyError nothing is written. */
    method DeleteOtp(target: Record) returns (r: Result<(), KeyError>)
      modifies this
      ensures r.Failure? <==> Delete(old(records), target).Failure?
      ensures r.Failure? ==> r.error == Delete(old(records), target).error && records == old(records)
      ensures r.Success? ==> records == Delete(old(records), target).value
    {
      var saved := records;
      var temp: seq<Record> := [];
      for i := 0 to |saved|
        invariant Delete(saved[..i], target) == Success(temp)
      {
        var each := saved[i];
        assert saved[..i + 1][..i] == saved[..i] && saved[..i + 1][i] == each;
        if "Name" !in each || "Issuer" !in each || "Name" !in target {
          DeleteFailure(saved, target, i + 1);
          return Failure(Keep(each, target).error);
        }
        var name, issuer := each["Name"], each["Issuer"];
        if target["Name"] != Str(Format(name)) {
          temp := temp + [each];
          continue;
        }
        if "Issuer" !in target {
          DeleteFailure(saved, target, i + 1);
          return Failure(KeyError("Issuer"));
        }
        if target["Issuer"] != Str(Format(issuer)) {
          temp := temp + [each];
          continue;
        }
        if "Secret" !in each || "Secret" !in target {
          DeleteFailure(saved, target, i + 1);
          return Failure(KeyError("Secret"));
        }
        if each["Secret"] != target["Secret"] {
          temp := temp + [each];
          continue;
        }
      }
      assert saved[..|saved|] == saved;
      records := temp;
      return Success(());
    }

    /** `get_saved_info(query)`: the first record the query's Name, Issuer
        and Secret arguments match. */
    method GetSavedInfo(query: string) returns (r: Result<Option<Record>, KeyError>)
      ensures var args := QueryArgs(query);
              r == FindSaved(records, args[Name], args[Issuer], args[Secret])
    {
      var args := LoadArgs(Split(query, ' '));
      ghost var q := QueryArgs(query);
      var saved := records;
      for i := 0 to |saved|
        invariant FindSaved(saved, q[Name], q[Issuer], q[Secret]) == FindSaved(saved[i..], q[Name], q[Issuer], q[Secret])
      {
        var save := saved[i];
        assert saved[i..][0] == save && saved[i..][1..] == saved[i + 1..];
        if "Name" !in save {
          return Failure(KeyError("Name"));
        }
        if "Issuer" !in save {
          return Failure(KeyError("Issuer"));
        }
        var name, issuer := save["Name"], save["Issuer"];
        if Text(Quote(Format(name))) != args[Name] {
          continue;
        }
        if Text(Quote(Format(issuer))) != args[Issuer] {
          continue;
        }
        if "Secret" !in save {
          return Failure(KeyError("Secret"));
        }
        if !SameValue(save["Secret"], args[Secret]) {
          continue;
        }
        return Success(Some(save));
      }
      assert saved[|saved|..] == [];
      return Success(None);
    }
  }
}
