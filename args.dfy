/** The command-line arguments of the client: the `Args` members, the flags
    that name them (`Args.all`), which of them are switches (`Args.bools`),
    the lookup of a flag (`Args.get`) and `load_args`, which fills a
    dictionary keyed by every member from a list of tokens. */
module Args {
  import opened Wrappers

  datatype Arg =
    | Issuer | Name | SaveQR | QRPath | Secret | SecretFile | Alias
    | Verify | GenOnly | Now | Update | Display

  /** The members in declaration order, the order `Args.get` tries them in. */
  const Members: seq<Arg> :=
    [Issuer, Name, SaveQR, QRPath, Secret, SecretFile, Alias, Verify, GenOnly, Now, Update, Display]

  lemma MembersComplete(a: Arg)
    ensures a in Members
  {
  }

  /** `Args.all[a]`: the flags that name `a`. */
  function Flags(a: Arg): (r: seq<string>)
    ensures 1 <= |r| <= 2 && forall i :: 0 <= i < |r| ==> |r[i]| >= 2 && r[i][0] == '-'
  {
    match a
    case SecretFile => ["-sf", "-secret_file"]
    case Secret => ["-s", "-secret"]
    case Name => ["-n", "-name"]
    case Issuer => ["-i", "-issuer"]
    case Verify => ["-v", "-verify"]
    case SaveQR => ["-qr", "-save_qr"]
    case QRPath => ["-qd", "-qr_dir"]
    case GenOnly => ["-g", "-generate"]
    case Now => ["-now"]
    case Update => ["-u"]
    case Alias => ["-a", "-alias"]
    case Display => ["-display"]
  }

  /** `a in Args.bools`: the switches, which take no value. */
  predicate IsBool(a: Arg)
    ensures IsBool(a) <==> !(a == Issuer || a == Name || a == QRPath || a == Secret || a == SecretFile || a == Alias || a == Verify)
  {
    match a
    case SaveQR | GenOnly | Now | Update | Display => true
    case _ => false
  }

  /** A token that does not start with `-` names no member. */
  lemma NotAFlag(t: string)
    requires t == [] || t[0] != '-'
    ensures Get(t).None?
  {
    GetSpec(t);
    forall a ensures t !in Flags(a) {
      if t in Flags(a) {
        FlagStart(a, t);
      }
    }
  }

  lemma FlagStart(a: Arg, f: string)
    requires f in Flags(a)
    ensures f != [] && f[0] == '-'
  {
    var r := Flags(a);
    var i :| 0 <= i < |r| && r[i] == f;
  }

  /** No flag names two members. */
  lemma FlagsDisjoint(a: Arg, b: Arg, key: string)
    requires key in Flags(a) && key in Flags(b)
    ensures a == b
  {
  }

  /** The first of `members` that `key` names. */
  function Find(key: string, members: seq<Arg>): (r: Option<Arg>)
    ensures r.Some? ==> r.value in members && key in Flags(r.value)
    ensures r.None? ==> forall a :: a in members ==> key !in Flags(a)
  {
    if members == [] then None
    else if key in Flags(members[0]) then Some(members[0])
    else Find(key, members[1..])
  }

  /** `Args.get(key)`: the member `key` is a flag of, if any. */
  function Get(key: string): (r: Option<Arg>)
    ensures r.Some? ==> key in Flags(r.value)
  {
    Find(key, Members)
  }

  /** `Args.get` finds a member exactly when the key is one of its flags,
      and then the only one. */
  lemma GetSpec(key: string)
    ensures Get(key).Some? <==> exists a :: key in Flags(a)
    ensures Get(key).Some? ==> forall a :: key in Flags(a) ==> a == Get(key).value
  {
    var r := Find(key, Members);
    if r.None? {
      forall a ensures key !in Flags(a) {
        MembersComplete(a);
      }
    } else {
      forall a | key in Flags(a) ensures a == r.value {
        FlagsDisjoint(a, r.value, key);
      }
    }
  }

  lemma GetFlag(a: Arg, key: string)
    requires key in Flags(a)
    ensures Get(key) == Some(a)
  {
    GetSpec(key);
  }

  /** The flags of the context string the plugin builds. */
  lemma IssuerFlag()
    ensures Get("-i") == Some(Issuer)
  {
    GetFlag(Issuer, "-i");
  }

  lemma NameFlag()
    ensures Get("-n") == Some(Name)
  {
    GetFlag(Name, "-n");
  }

  lemma SecretFlag()
    ensures Get("-s") == Some(Secret)
  {
    GetFlag(Secret, "-s");
  }

  /** A value in the dictionary `load_args` returns: None, a switch, or the
      text of the token that followed a value flag. */
  datatype Value = Unset | Flag(on: bool) | Text(text: string)

  /** `args` right after `fromkeys` and the loop over `Args.bools`. */
  function Defaults(): (d: map<Arg, Value>)
    ensures Shaped(d)
    ensures forall a :: a in d ==> d[a] != Flag(true) && !d[a].Text?
  {
    AllMembers();
    map a | a in Members :: if IsBool(a) then Flag(false) else Unset
  }

  lemma AllMembers()
    ensures forall a: Arg :: a in Members
  {
    forall a: Arg {
      MembersComplete(a);
    }
  }

  /** Every member is a key; a switch holds a boolean and any other member
      None or a string. */
  predicate Shaped(args: map<Arg, Value>)
  {
    forall a :: a in args && (if IsBool(a) then args[a].Flag? else !args[a].Flag?)
  }

  /** The state of `load_args` between tokens: the dictionary, and the value
      flag (`current`) whose value the next token is. */
  datatype ParseState = ParseState(args: map<Arg, Value>, pending: Option<Arg>)

  /** One turn of the loop of `load_args`. */
  function Step(st: ParseState, v: string): (r: ParseState)
    ensures r.pending.Some? ==> st.pending.None? && Get(v) == r.pending && !IsBool(r.pending.value)
    ensures Shaped(st.args) && (st.pending.Some? ==> !IsBool(st.pending.value)) ==> Shaped(r.args)
  {
    if st.pending.Some? then ParseState(st.args[st.pending.value := Text(v)], None)
    else
      match Get(v)
      case None => st
      case Some(a) =>
        if IsBool(a) then ParseState(st.args[a := Flag(true)], None)
        else ParseState(st.args, Some(a))
  }

  /** The state after the tokens of `argv`, one `Step` each. */
  function Parse(argv: seq<string>): (r: ParseState)
    ensures r.pending.Some? ==> |argv| > 0 && Get(argv[|argv| - 1]) == r.pending && !IsBool(r.pending.value)
  {
    if argv == [] then ParseState(Defaults(), None)
    else Step(Parse(argv[..|argv| - 1]), argv[|argv| - 1])
  }

  lemma ParseSnoc(argv: seq<string>, v: string)
    ensures Parse(argv + [v]) == Step(Parse(argv), v)
  {
    assert (argv + [v])[..|argv|] == argv;
  }

  lemma SnocSplit<T>(x: seq<T>, q: seq<T>)
    requires q != []
    ensures x + q == (x + q[..|q| - 1]) + [q[|q| - 1]]
  {
  }

  lemma SnocTake<T>(s: seq<T>, i: nat)
    requires i < |s|
    ensures s[..i + 1] == s[..i] + [s[i]]
  {
  }

  lemma ConcatPairs<T>(a: T, b: T, c: T, d: T, e: T, f: T)
    ensures [a, b] + [c, d] + [e, f] == [a, b, c, d, e, f]
  {
  }

  lemma SnocWhole<T>(s: seq<T>)
    requires s != []
    ensures s == s[..|s| - 1] + [s[|s| - 1]]
  {
  }

  lemma SnocPrefix<T>(p: seq<T>, v: T, i: nat)
    requires i <= |p|
    ensures (p + [v])[..i] == p[..i]
  {
  }

  /** The dictionary after `fromkeys` and the loop over `Args.bools`. */
  lemma DefaultsFrom(args: map<Arg, Value>)
    requires forall a :: a in args <==> a in Members
    requires forall a :: a in args ==> args[a] == if a in [SaveQR, GenOnly, Now, Update, Display] then Flag(false) else Unset
    ensures args == Defaults()
  {
    AllMembers();
    forall a | a in args
      ensures args[a] == Defaults()[a]
    {
      assert IsBool(a) <==> a in [SaveQR, GenOnly, Now, Update, Display];
    }
  }

  /** `load_args(argv)`. */
  method LoadArgs(argv: seq<string>) returns (args: map<Arg, Value>)
    ensures args == Parse(argv).args
  {
    args := map a | a in Members :: Unset;
    var bools := [SaveQR, GenOnly, Now, Update, Display];
    for k := 0 to |bools|
      invariant forall a :: a in args <==> a in Members
      invariant forall a :: a in args ==> args[a] == if a in bools[..k] then Flag(false) else Unset
    {
      args := args[bools[k] := Flag(false)];
    }
    assert bools[..|bools|] == bools;
    DefaultsFrom(args);
    var current: Option<Arg> := None;
    for i := 0 to |argv|
      invariant Parse(argv[..i]) == ParseState(args, current)
    {
      ParseSnoc(argv[..i], argv[i]);
      SnocTake(argv, i);
      var v := argv[i];
      if current.Some? {
        args := args[current.value := Text(v)];
        current := None;
        continue;
      }
      var arg := Get(v);
      if arg.None? {
        continue;
      }
      if IsBool(arg.value) {
        args := args[arg.value := Flag(true)];
      } else {
        current := arg;
      }
    }
    assert argv[..|argv|] == argv;
  }

  // ---------------------------------------------------------------------
  // Properties of `load_args`

  /** Every member is a key of the result, a switch holds a boolean and a
      value member None or a string; with no tokens, switches are False and
      the rest None. */
  lemma {:induction false} ParseShaped(argv: seq<string>)
    ensures Shaped(Parse(argv).args)
    ensures Parse(argv).pending.Some? ==> !IsBool(Parse(argv).pending.value)
    ensures Parse([]).args == Defaults()
  {
    if argv != [] {
      ParseShaped(argv[..|argv| - 1]);
    } else {
      forall a ensures a in Defaults() {
        MembersComplete(a);
      }
    }
  }

  /** Every string value in the dictionary is one of the tokens, taken
      verbatim. */
  lemma {:induction false} ParseTextFrom(argv: seq<string>)
    ensures forall a :: a in Parse(argv).args && Parse(argv).args[a].Text? ==> Parse(argv).args[a].text in argv
  {
    if argv != [] {
      var init := argv[..|argv| - 1];
      ParseTextFrom(init);
      assert forall t :: t in init ==> t in argv;
    }
  }

  /** The tokens that are read as flags rather than taken as values. */
  predicate Free(argv: seq<string>, i: nat)
    requires i <= |argv|
  {
    Parse(argv[..i]).pending.None?
  }

  /** One of the flags of `a` stands where a flag is read. */
  predicate SwitchGiven(argv: seq<string>, a: Arg)
  {
    exists i :: 0 <= i < |argv| && Free(argv, i) && Get(argv[i]) == Some(a)
  }

  lemma SwitchGivenSnoc(p: seq<string>, v: string, a: Arg)
    ensures SwitchGiven(p + [v], a) <==> SwitchGiven(p, a) || (Parse(p).pending.None? && Get(v) == Some(a))
  {
    var argv := p + [v];
    var last := Parse(p).pending.None? && Get(v) == Some(a);
    if SwitchGiven(argv, a) {
      var i :| 0 <= i < |argv| && Free(argv, i) && Get(argv[i]) == Some(a);
      SnocPrefix(p, v, i);
      if i < |p| {
        assert Free(p, i) && Get(p[i]) == Some(a);
      } else {
        assert p[..|p|] == p;
        assert last;
      }
    }
    if SwitchGiven(p, a) {
      var i :| 0 <= i < |p| && Free(p, i) && Get(p[i]) == Some(a);
      SnocPrefix(p, v, i);
      assert Free(argv, i) && Get(argv[i]) == Some(a);
    }
    if last {
      SnocPrefix(p, v, |p|);
      assert p[..|p|] == p;
      assert Free(argv, |p|) && Get(argv[|p|]) == Some(a);
    }
  }

  /** A switch is True exactly when one of its flags stands where a flag is
      read. */
  lemma {:induction false} SwitchSet(argv: seq<string>, a: Arg)
    requires IsBool(a)
    ensures a in Parse(argv).args
    ensures Parse(argv).args[a] == Flag(SwitchGiven(argv, a))
    decreases |argv|
  {
    ParseShaped(argv);
    if argv == [] {
      MembersComplete(a);
    } else {
      var n := |argv| - 1;
      var p, v := argv[..n], argv[n];
      SnocWhole(argv);
      SwitchSet(p, a);
      ParseShaped(p);
      ParseSnoc(p, v);
      SwitchGivenSnoc(p, v, a);
      SwitchStep(Parse(p), v, a);
    }
  }

  /** One step sets a switch exactly when it reads one of its flags, and
      leaves it alone otherwise. */
  lemma SwitchStep(st: ParseState, v: string, a: Arg)
    requires IsBool(a) && Shaped(st.args)
    requires st.pending.Some? ==> !IsBool(st.pending.value)
    ensures a in Step(st, v).args
    ensures Step(st, v).args[a] == if st.pending.None? && Get(v) == Some(a) then Flag(true) else st.args[a]
  {
    assert a in st.args;
  }

  /** A value flag read as a flag takes the next token verbatim, even when it
      is itself a flag, and overwrites any earlier value. */
  lemma ValueFlag(argv: seq<string>, flag: string, v: string, a: Arg)
    requires Parse(argv).pending.None? && Get(flag) == Some(a) && !IsBool(a)
    ensures Parse(argv + [flag, v]) == ParseState(Parse(argv).args[a := Text(v)], None)
  {
    ParseSnoc(argv, flag);
    ParseSnoc(argv + [flag], v);
    assert argv + [flag] + [v] == argv + [flag, v];
  }

  /** A value flag as the last token leaves the value as it was (None when
      the flag was not given before). */
  lemma TrailingValueFlag(argv: seq<string>, flag: string, a: Arg)
    requires Parse(argv).pending.None? && Get(flag) == Some(a) && !IsBool(a)
    ensures Parse(argv + [flag]).args == Parse(argv).args
    ensures Parse(argv + [flag]).pending == Some(a)
  {
    ParseSnoc(argv, flag);
  }

  /** A switch read as a flag sets its member to True. */
  lemma SwitchFlag(argv: seq<string>, flag: string, a: Arg)
    requires Parse(argv).pending.None? && Get(flag) == Some(a) && IsBool(a)
    ensures Parse(argv + [flag]) == ParseState(Parse(argv).args[a := Flag(true)], None)
  {
    ParseSnoc(argv, flag);
  }

  /** Prefixes that leave the same state are followed alike. */
  lemma {:induction false} ParseCongruent(x: seq<string>, y: seq<string>, q: seq<string>)
    requires Parse(x) == Parse(y)
    ensures Parse(x + q) == Parse(y + q)
    decreases |q|
  {
    if q == [] {
      assert x + q == x && y + q == y;
    } else {
      var q', v := q[..|q| - 1], q[|q| - 1];
      ParseCongruent(x, y, q');
      SnocSplit(x, q);
      SnocSplit(y, q);
      ParseSnoc(x + q', v);
      ParseSnoc(y + q', v);
    }
  }

  /** A token that names no member, read where a flag is read, changes
      nothing: the tokens after it are parsed as if it were not there. */
  lemma UnknownIgnored(p: seq<string>, t: string, q: seq<string>)
    requires Parse(p).pending.None? && Get(t).None?
    ensures Parse(p + [t] + q) == Parse(p + q)
  {
    ParseSnoc(p, t);
    ParseCongruent(p + [t], p, q);
  }

  /** Three value flags, each followed by its value, set the three values in
      turn, starting from the defaults. */
  lemma ThreeValueFlags(f1: string, v1: string, a1: Arg, f2: string, v2: string, a2: Arg,
                        f3: string, v3: string, a3: Arg)
    requires Get(f1) == Some(a1) && Get(f2) == Some(a2) && Get(f3) == Some(a3)
    requires !IsBool(a1) && !IsBool(a2) && !IsBool(a3)
    ensures Parse([f1, v1, f2, v2, f3, v3]) ==
              ParseState(Defaults()[a1 := Text(v1)][a2 := Text(v2)][a3 := Text(v3)], None)
  {
    var t1 := [f1, v1];
    var t2 := t1 + [f2, v2];
    assert [] + t1 == t1;
    ValueFlag([], f1, v1, a1);
    ValueFlag(t1, f2, v2, a2);
    ValueFlag(t2, f3, v3, a3);
    ConcatPairs(f1, v1, f2, v2, f3, v3);
  }
}
