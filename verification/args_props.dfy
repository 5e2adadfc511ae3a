/*******************************************************************************
 *  Properties of the `--` argument parser modelled in module DashArgs.
 *******************************************************************************/

module DashArgsProps {
  import opened DashArgs

  /** No value can be taken from position `j`: the input ends there, or the
      token there starts with '-'. */
  predicate NoValueAt(args: seq<string>, j: nat) {
    j == |args| || (j < |args| && args[j] != [] && args[j][0] == '-')
  }

  // ---------------------------------------------------------------------------
  // One token at a time: the five rules and the four faults
  // ---------------------------------------------------------------------------

  /** In `k=v` with no '=' in `k`, the first '=' is the one after `k`. */
  lemma {:induction false} IndexOfAfterKey(k: string, v: string)
    requires '=' !in k
    ensures IndexOf(k + "=" + v, '=') == |k|
    decreases |k|
  {
    if |k| > 0 {
      assert (k + "=" + v)[1..] == k[1..] + "=" + v;
      IndexOfAfterKey(k[1..], v);
    }
  }

  /** `k=v` after stripping: the key is the text before the first '=', the
      value is everything after it, verbatim, and only this token is used. */
  lemma EqualsRule(args: seq<string>, i: nat, k: string, v: string)
    requires i < |args|
    requires StripDashes(args[i]) == Ok(k + "=" + v)
    requires '=' !in k
    ensures Bindings(args, i) == Prepend(Binding(k, Str(v)), Bindings(args, i + 1))
  {
    var s := k + "=" + v;
    IndexOfAfterKey(k, v);
    var e := IndexOf(s, '=');
    assert s[..e] == k;
    assert s[e + 1..] == v;
    assert ParseStep(args, i) == Ok(Step(Binding(k, Str(v)), 1));
  }

  /** A flag without '=' followed by a token that does not start with '-'
      takes that token as its string value and uses up both tokens; this
      holds for `no-` flags too, so value consumption comes first. */
  lemma ValueRule(args: seq<string>, i: nat, s: string)
    requires i + 1 < |args|
    requires StripDashes(args[i]) == Ok(s) && '=' !in s
    requires args[i + 1] != [] && args[i + 1][0] != '-'
    ensures Bindings(args, i) == Prepend(Binding(s, Str(args[i + 1])), Bindings(args, i + 2))
  {
    IndexOfFirst(s, '=');
    assert ParseStep(args, i) == Ok(Step(Binding(s, Str(args[i + 1])), 2));
  }

  /** A bare `no-k` flag with no value to take binds `k` to false. */
  lemma NegationRule(args: seq<string>, i: nat, k: string)
    requires i < |args|
    requires StripDashes(args[i]) == Ok("no-" + k) && '=' !in k
    requires NoValueAt(args, i + 1)
    ensures Bindings(args, i) == Prepend(Binding(k, Bool(false)), Bindings(args, i + 1))
  {
    var s := "no-" + k;
    assert '=' !in s by {
      assert forall j :: 3 <= j < |s| ==> s[j] == k[j - 3];
    }
    IndexOfFirst(s, '=');
    assert s[3..] == k;
    assert ParseStep(args, i) == Ok(Step(Binding(k, Bool(false)), 1));
  }

  /** Any other bare flag, at least three bytes long, with no value to take
      binds its whole name to true. */
  lemma FlagRule(args: seq<string>, i: nat, s: string)
    requires i < |args|
    requires StripDashes(args[i]) == Ok(s) && '=' !in s
    requires Utf8Len(s) >= 3 && !HasNoPrefix(s)
    requires NoValueAt(args, i + 1)
    ensures Bindings(args, i) == Prepend(Binding(s, Bool(true)), Bindings(args, i + 1))
  {
    IndexOfFirst(s, '=');
    assert ParseStep(args, i) == Ok(Step(Binding(s, Bool(true)), 1));
  }

  /** The four places where the source indexes past the end of a token end
      the parse with a fault naming that token and its position. */
  lemma FaultRules(args: seq<string>, i: nat)
    requires i < |args|
    ensures args[i] == [] ==> Bindings(args, i) == Err(ArgError(EmptyToken, i, args[i]))
    ensures args[i] == "-" ==> Bindings(args, i) == Err(ArgError(BareDash, i, args[i]))
    ensures StripDashes(args[i]).Ok? && '=' !in StripDashes(args[i]).value &&
            i + 1 < |args| && args[i + 1] == [] ==>
              Bindings(args, i) == Err(ArgError(EmptyValue, i + 1, args[i + 1]))
    ensures StripDashes(args[i]).Ok? && '=' !in StripDashes(args[i]).value &&
            Utf8Len(StripDashes(args[i]).value) < 3 && NoValueAt(args, i + 1) ==>
              Bindings(args, i) == Err(ArgError(ShortFlag, i, args[i]))
  {
    if StripDashes(args[i]).Ok? {
      IndexOfFirst(StripDashes(args[i]).value, '=');
    }
  }

  /** A fault always names a token of the input, at its position, and that
      token is not safe: the faults are exactly the unsafe tokens reached. */
  lemma {:induction false} FaultNamesUnsafeToken(args: seq<string>, i: nat)
    requires i <= |args|
    ensures var r := Bindings(args, i);
      r.Err? ==> i <= r.error.index < |args| && r.error.token == args[r.error.index]
                 && !SafeToken(r.error.token)
    decreases |args| - i
  {
    if i < |args| {
      match ParseStep(args, i)
      case Err(e) =>
        var t := args[i];
        if StripDashes(t).Ok? {
          IndexOfFirst(StripDashes(t).value, '=');
        }
      case Ok(step) =>
        FaultNamesUnsafeToken(args, i + step.used);
    }
  }

  /** Input whose tokens are all safe always parses. */
  lemma SafeTokensParse(args: seq<string>)
    requires forall j :: 0 <= j < |args| ==> SafeToken(args[j])
    ensures ArgsToMap(args).Ok?
  {
    FaultNamesUnsafeToken(args, 0);
  }

  /** Each key resolved uses up one or two tokens. */
  lemma {:induction false} BindingsCount(args: seq<string>, i: nat)
    requires i <= |args|
    ensures var r := Bindings(args, i);
      r.Ok? ==> |args| - i <= 2 * |r.value| && |r.value| <= |args| - i
    decreases |args| - i
  {
    if i < |args| && ParseStep(args, i).Ok? {
      BindingsCount(args, i + ParseStep(args, i).value.used);
    }
  }

  // ---------------------------------------------------------------------------
  // The map: later bindings overwrite earlier ones
  // ---------------------------------------------------------------------------

  /** Scanning from the end agrees with looking at the head then the rest. */
  lemma {:induction false} LastValueCons(b: Binding, bs: seq<Binding>, k: string)
    ensures LastValue([b] + bs, k) ==
      if LastValue(bs, k).Some? then LastValue(bs, k)
      else if b.key == k then Some(b.value) else None
    decreases |bs|
  {
    if |bs| > 0 {
      assert ([b] + bs)[..|[b] + bs| - 1] == [b] + bs[..|bs| - 1];
      LastValueCons(b, bs[..|bs| - 1], k);
    }
  }

  /** `LastValue` is the value of the binding of `k` that no later binding
      of `k` follows, and there is none exactly when `k` is never bound. */
  lemma {:induction false} LastValueIsLastBinding(bs: seq<Binding>, k: string, j: nat)
    requires j < |bs| && bs[j].key == k
    requires forall j' :: j < j' < |bs| ==> bs[j'].key != k
    ensures LastValue(bs, k) == Some(bs[j].value)
    decreases |bs|
  {
    if j < |bs| - 1 {
      LastValueIsLastBinding(bs[..|bs| - 1], k, j);
    }
  }

  lemma {:induction false} LastValueNone(bs: seq<Binding>, k: string)
    ensures LastValue(bs, k).None? <==> k !in KeysOf(bs)
    decreases |bs|
  {
    if |bs| > 0 {
      var init := bs[..|bs| - 1];
      LastValueNone(init, k);
      assert bs == init + [bs[|bs| - 1]];
      assert KeysOf(bs) == KeysOf(init) + {bs[|bs| - 1].key};
    }
  }

  /** Storing bindings in order leaves each key with its last bound value;
      keys never bound keep what they had. */
  lemma {:induction false} AssignLastWins(m: Config, bs: seq<Binding>, k: string)
    ensures LastValue(bs, k).Some? ==>
      k in Assign(m, bs) && Assign(m, bs)[k] == LastValue(bs, k).value
    ensures LastValue(bs, k).None? ==>
      (k in Assign(m, bs) <==> k in m) && (k in m ==> Assign(m, bs)[k] == m[k])
    decreases |bs|
  {
    if |bs| > 0 {
      var b := bs[0];
      AssignLastWins(m[b.key := b.value], bs[1..], k);
      assert bs == [b] + bs[1..];
      LastValueCons(b, bs[1..], k);
    }
  }

  /** The parsed map has one entry per key bound anywhere in the input, and
      its value comes from the last binding of that key. */
  lemma ArgsToMapLastWins(args: seq<string>, k: string)
    requires Bindings(args, 0).Ok?
    ensures ArgsToMap(args).Ok?
    ensures k in ArgsToMap(args).value <==> k in KeysOf(Bindings(args, 0).value)
    ensures k in ArgsToMap(args).value ==>
      LastValue(Bindings(args, 0).value, k) == Some(ArgsToMap(args).value[k])
  {
    var bs := Bindings(args, 0).value;
    AssignLastWins(map[], bs, k);
    LastValueNone(bs, k);
  }

  // ---------------------------------------------------------------------------
  // Concrete inputs
  // ---------------------------------------------------------------------------

  lemma EmptyInput()
    ensures ArgsToMap([]) == Ok(map[])
  {
  }

  /** `--no-x y` binds `no-x` to "y": taking the value wins over negation. */
  lemma ValueBeatsNegation()
    ensures ArgsToMap(["--no-x", "y"]) == Ok(map["no-x" := Str("y")])
  {
    var args := ["--no-x", "y"];
    assert '=' !in "no-x";
    ValueRule(args, 0, "no-x");
  }

  /** `--count 3` keeps "3" as a string. */
  lemma CountTakesString()
    ensures ArgsToMap(["--count", "3"]) == Ok(map["count" := Str("3")])
  {
    var args := ["--count", "3"];
    assert StripDashes(args[0]) == Ok("count");
    ValueRule(args, 0, "count");
    assert Bindings(args, 2) == Ok([]);
    AssignCons(map[], Binding("count", Str("3")), []);
  }

  /** A repeated key keeps the value of its last occurrence. */
  lemma RepeatedKey(args: seq<string>)
    requires args == ["--a=1", "-a=2"]
    ensures ArgsToMap(args) == Ok(map["a" := Str("2")])
  {
    assert "a" + "=" + "1" == "a=1" == args[0][2..];
    assert "a" + "=" + "2" == "a=2" == args[1][1..];
    var b0 := Binding("a", Str("1"));
    var b1 := Binding("a", Str("2"));
    assert Bindings(args, 2) == Ok([]);
    EqualsRule(args, 1, "a", "2");
    assert [b1] + [] == [b1];
    assert Bindings(args, 1) == Ok([b1]);
    EqualsRule(args, 0, "a", "1");
    assert [b0] + [b1] == [b0, b1];
    assert Bindings(args, 0) == Ok([b0, b1]);
    AssignCons(map[], b0, [b1]);
    AssignCons(map["a" := Str("1")], b1, []);
    assert map["a" := Str("1")]["a" := Str("2")] == map["a" := Str("2")];
  }

  /** Two bindings stored in order. */
  lemma AssignTwo(m: Config, b0: Binding, b1: Binding)
    ensures Assign(m, [b0, b1]) == m[b0.key := b0.value][b1.key := b1.value]
  {
    assert [b0, b1] == [b0] + [b1];
    AssignCons(m, b0, [b1]);
    AssignCons(m[b0.key := b0.value], b1, []);
  }

  /** A flag followed by a flag: neither takes a value, and both are bare
      flags that bind themselves to true. */
  lemma TwoFlags(args: seq<string>, k0: string, k1: string)
    requires args == ["--" + k0, "--" + k1]
    requires '=' !in k0 && Utf8Len(k0) >= 3 && !HasNoPrefix(k0)
    requires '=' !in k1 && Utf8Len(k1) >= 3 && !HasNoPrefix(k1)
    ensures Bindings(args, 0) == Ok([Binding(k0, Bool(true)), Binding(k1, Bool(true))])
    ensures ArgsToMap(args) == Ok(map[][k0 := Bool(true)][k1 := Bool(true)])
  {
    var b0 := Binding(k0, Bool(true));
    var b1 := Binding(k1, Bool(true));
    assert args[1][2..] == k1 && args[0][2..] == k0;
    assert Bindings(args, 2) == Ok([]);
    FlagRule(args, 1, k1);
    assert [b1] + [] == [b1];
    FlagRule(args, 0, k0);
    assert [b0] + [b1] == [b0, b1];
    AssignTwo(map[], b0, b1);
  }

  /** A name of three or more characters that does not start with 'n' is a
      plain flag: long enough for the `no-` test, and not negated. */
  lemma PlainFlagName(k: string)
    requires |k| >= 3 && k[0] != 'n'
    ensures Utf8Len(k) >= 3 && !HasNoPrefix(k)
  {
    assert k[..3][0] == k[0];
  }

  /** `--count --other`: a following flag is not taken as a value, so both
      keys are bare flags. */
  lemma FlagBeforeFlag(args: seq<string>)
    requires args == ["--count", "--other"]
    ensures ArgsToMap(args) == Ok(map["count" := Bool(true), "other" := Bool(true)])
  {
    PlainFlagName("count");
    PlainFlagName("other");
    assert "--" + "count" == "--count" && "--" + "other" == "--other";
    TwoFlags(args, "count", "other");
  }

  /** `k=v`, a bare flag and a negated flag, in that order. */
  lemma EqualsFlagNegation(args: seq<string>, k: string, v: string, f: string, n: string)
    requires args == ["--" + k + "=" + v, "--" + f, "--no-" + n]
    requires '=' !in k
    requires '=' !in f && Utf8Len(f) >= 3 && !HasNoPrefix(f)
    requires '=' !in n
    ensures Bindings(args, 0) ==
      Ok([Binding(k, Str(v)), Binding(f, Bool(true)), Binding(n, Bool(false))])
    ensures ArgsToMap(args) == Ok(map[][k := Str(v)][f := Bool(true)][n := Bool(false)])
  {
    var b0 := Binding(k, Str(v));
    var b1 := Binding(f, Bool(true));
    var b2 := Binding(n, Bool(false));
    assert args[0][2..] == k + "=" + v && args[1][2..] == f && args[2][2..] == "no-" + n;
    assert Bindings(args, 3) == Ok([]);
    NegationRule(args, 2, n);
    assert [b2] + [] == [b2];
    FlagRule(args, 1, f);
    EqualsRule(args, 0, k, v);
    assert [b0] + ([b1] + [b2]) == [b0, b1, b2];
    AssignThree(map[], b0, b1, b2);
  }

  /** Three bindings stored in order. */
  lemma AssignThree(m: Config, b0: Binding, b1: Binding, b2: Binding)
    ensures Assign(m, [b0, b1, b2]) ==
      m[b0.key := b0.value][b1.key := b1.value][b2.key := b2.value]
  {
    assert [b0, b1, b2] == [b0] + [b1, b2];
    AssignCons(m, b0, [b1, b2]);
    AssignTwo(m[b0.key := b0.value], b1, b2);
  }

  /** `--name=foo --verbose --no-debug` gives name "foo", verbose true and
      debug false. */
  lemma MixedForms(args: seq<string>)
    requires args == ["--name=foo", "--verbose", "--no-debug"]
    ensures ArgsToMap(args) ==
      Ok(map["name" := Str("foo"), "verbose" := Bool(true), "debug" := Bool(false)])
  {
    assert args == ["--" + "name" + "=" + "foo", "--" + "verbose", "--no-" + "debug"] by {
      assert "--" + "name" + "=" + "foo" == "--name=foo";
      assert "--" + "verbose" == "--verbose" && "--no-" + "debug" == "--no-debug";
    }
    assert Utf8Len("verbose") >= 3 && !HasNoPrefix("verbose") by {
      PlainFlagName("verbose");
    }
    EqualsFlagNegation(args, "name", "foo", "verbose", "debug");
  }

  /** `--=v` binds the empty key: nothing rejects an empty key. */
  lemma EmptyKey(args: seq<string>)
    requires args == ["--=v"]
    ensures ArgsToMap(args) == Ok(map["" := Str("v")])
  {
    assert args[0][2..] == "" + "=" + "v";
    assert Bindings(args, 1) == Ok([]);
    EqualsRule(args, 0, "", "v");
    assert [Binding("", Str("v"))] + [] == [Binding("", Str("v"))];
    AssignCons(map[], Binding("", Str("v")), []);
  }

  /** The `no-` test measures bytes: the one-character flag `日` is three
      bytes long in UTF-8, so it binds itself to true. */
  lemma WideFlag(args: seq<string>)
    requires args == ["日"]
    ensures ArgsToMap(args) == Ok(map["日" := Bool(true)])
  {
    var b := Binding("日", Bool(true));
    assert Utf8Len("日") == 3;
    assert !HasNoPrefix("日");
    assert Bindings(args, 1) == Ok([]);
    FlagRule(args, 0, "日");
    assert [b] + [] == [b];
    AssignCons(map[], b, []);
  }
}
