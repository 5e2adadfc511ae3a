/*******************************************************************************
 *  Model of `dashdashArgsToMap` (cmd/eval.go): the parser that turns the
 *  tokens following `--` on the `eval` command line into the configuration
 *  map handed to a package's entrypoint.
 *******************************************************************************/

/**
 The parser reads tokens left to right and resolves one key per iteration:
 - one or two leading '-' are stripped;
 - `k=v` binds `k` to the string `v`, split at the first '=';
 - otherwise a following token that does not start with '-' is consumed as the value;
 - otherwise `no-k` binds `k` to false and any other flag binds itself to true.
 Later bindings of a key overwrite earlier ones.

 The Go code indexes tokens without checking their length; each of those faults
 is an explicit `ArgError` here, carrying the position and text of the token.
 */
module DashArgs {

  /** A configuration value: either a boolean or a string, nothing else. */
  datatype Value = Bool(b: bool) | Str(s: string)

  /** The four places where the source would index past the end of a token. */
  datatype Fault =
    | EmptyToken   // the token is empty: its first character does not exist
    | BareDash     // the token is "-": nothing follows the stripped dash
    | EmptyValue   // the token after a flag is empty: its first character does not exist
    | ShortFlag    // a bare flag shorter than three UTF-8 bytes reaches the `no-` test

  /** A fault, the position of the token it concerns and that token. */
  datatype ArgError = ArgError(fault: Fault, index: nat, token: string)

  datatype Result<T> = Ok(value: T) | Err(error: ArgError)

  datatype Option<T> = None | Some(value: T)

  /** One resolved key and the value it receives. */
  datatype Binding = Binding(key: string, value: Value)

  /** A binding and the number of tokens (one or two) it used up. */
  datatype Step = Step(binding: Binding, used: nat)

  type Config = map<string, Value>

  /** A token is safe when none of the faults can be raised on it: it is not
      empty, not a bare dash, and after stripping it either holds '=' or is
      long enough for the `no-` test. */
  predicate SafeToken(t: string) {
    match StripDashes(t)
    case Err(_) => false
    case Ok(s) => '=' in s || Utf8Len(s) >= 3
  }

  /** The number of bytes of `c` in UTF-8. */
  function Utf8Width(c: char): (n: nat)
    ensures 1 <= n <= 4
    ensures n == 1 <==> c as int < 0x80
  {
    if c as int < 0x80 then 1
    else if c as int < 0x800 then 2
    else if c as int < 0x1_0000 then 3
    else 4
  }

  /** The length of `s` in bytes, as Go's `len` measures a string: each
      character takes one to four bytes in UTF-8. */
  function Utf8Len(s: string): (n: nat)
    ensures |s| <= n <= 4 * |s|
  {
    if |s| == 0 then 0 else Utf8Width(s[0]) + Utf8Len(s[1..])
  }

  /** Bytes and characters agree exactly on ASCII text. */
  lemma {:induction false} Utf8LenAscii(s: string)
    ensures Utf8Len(s) == |s| <==> forall j :: 0 <= j < |s| ==> s[j] as int < 0x80
    decreases |s|
  {
    if |s| > 0 {
      Utf8LenAscii(s[1..]);
      assert forall j :: 1 <= j < |s| ==> s[j] == s[1..][j - 1];
    }
  }

  /** True when `s` starts with the negation prefix "no-". */
  predicate HasNoPrefix(s: string) {
    |s| >= 3 && s[..3] == "no-"
  }

  /** Removes at most two leading dashes (the source's "eat - or --"). */
  function StripDashes(t: string): (r: Result<string>)
    ensures r.Err? <==> |t| == 0 || (|t| == 1 && t[0] == '-')
    ensures r.Err? ==> r.error == ArgError(if |t| == 0 then EmptyToken else BareDash, 0, t)
  {
    if |t| == 0 then Err(ArgError(EmptyToken, 0, t))
    else if t[0] != '-' then Ok(t)
    else if |t| == 1 then Err(ArgError(BareDash, 0, t))
    else if t[1] == '-' then Ok(t[2..])
    else Ok(t[1..])
  }

  /** What stripping keeps: a suffix of the token that lacks only leading
      dashes, at most two of them, and fewer than two only when the remainder
      does not start with a dash. A token without a leading dash is kept whole. */
  lemma StripDashesKeepsSuffix(t: string)
    requires StripDashes(t).Ok?
    ensures var s := StripDashes(t).value;
      && |t| - 2 <= |s| <= |t|
      && s == t[|t| - |s|..]
      && (forall j :: 0 <= j < |t| - |s| ==> t[j] == '-')
      && (|s| > |t| - 2 ==> s != [] && s[0] != '-')
      && (t[0] != '-' ==> s == t)
  {
  }

  /** The position of the first `c` in `s`, or -1 when there is none (the
      source's `strings.IndexByte`). */
  function IndexOf(s: string, c: char): (r: int)
    ensures -1 <= r < |s|
  {
    if |s| == 0 then -1
    else if s[0] == c then 0
    else
      var k := IndexOf(s[1..], c);
      if k == -1 then -1 else k + 1
  }

  /** `IndexOf` finds the first occurrence, and reports -1 exactly when there
      is none. */
  lemma {:induction false} IndexOfFirst(s: string, c: char)
    ensures IndexOf(s, c) == -1 <==> c !in s
    ensures 0 <= IndexOf(s, c) ==> s[IndexOf(s, c)] == c && c !in s[..IndexOf(s, c)]
    decreases |s|
  {
    if |s| > 0 && s[0] != c {
      IndexOfFirst(s[1..], c);
      var k := IndexOf(s[1..], c);
      if k != -1 {
        assert s[..k + 1] == [s[0]] + s[1..][..k];
      }
    }
  }

  /** Resolves the key of the token at position `i` of `args`: one iteration
      of the source's loop. */
  function ParseStep(args: seq<string>, i: nat): (r: Result<Step>)
    requires i < |args|
    ensures r.Ok? ==> 1 <= r.value.used <= 2 && i + r.value.used <= |args|
  {
    match StripDashes(args[i])
    case Err(e) => Err(ArgError(e.fault, i, args[i]))
    case Ok(arg) =>
      var eq := IndexOf(arg, '=');
      if eq != -1 then Ok(Step(Binding(arg[..eq], Str(arg[eq + 1..])), 1))
      else if i + 1 < |args| && |args[i + 1]| == 0 then Err(ArgError(EmptyValue, i + 1, args[i + 1]))
      else if i + 1 < |args| && args[i + 1][0] != '-' then Ok(Step(Binding(arg, Str(args[i + 1])), 2))
      else if Utf8Len(arg) < 3 then Err(ArgError(ShortFlag, i, args[i]))
      else if HasNoPrefix(arg) then Ok(Step(Binding(arg[3..], Bool(false)), 1))
      else Ok(Step(Binding(arg, Bool(true)), 1))
  }

  function Prepend(b: Binding, r: Result<seq<Binding>>): Result<seq<Binding>> {
    match r
    case Ok(bs) => Ok([b] + bs)
    case Err(e) => Err(e)
  }

  /** The bindings of the tokens from position `i` on, in input order, or the
      first fault met. */
  function Bindings(args: seq<string>, i: nat): Result<seq<Binding>>
    requires i <= |args|
    decreases |args| - i
  {
    if i == |args| then Ok([])
    else
      match ParseStep(args, i)
      case Err(e) => Err(e)
      case Ok(step) => Prepend(step.binding, Bindings(args, i + step.used))
  }

  /** Stores the bindings into `m` in order, each overwriting any earlier value. */
  function Assign(m: Config, bs: seq<Binding>): Config
    decreases |bs|
  {
    if |bs| == 0 then m
    else Assign(m[bs[0].key := bs[0].value], bs[1..])
  }

  function KeysOf(bs: seq<Binding>): set<string> {
    set b | b in bs :: b.key
  }

  /** The value of the last binding of `k`, found by scanning from the end. */
  function LastValue(bs: seq<Binding>, k: string): Option<Value> {
    if |bs| == 0 then None
    else if bs[|bs| - 1].key == k then Some(bs[|bs| - 1].value)
    else LastValue(bs[..|bs| - 1], k)
  }

  function Finish(m: Config, r: Result<seq<Binding>>): Result<Config> {
    match r
    case Ok(bs) => Ok(Assign(m, bs))
    case Err(e) => Err(e)
  }

  /** The configuration map for the tokens after `--`. */
  function ArgsToMap(args: seq<string>): Result<Config> {
    Finish(map[], Bindings(args, 0))
  }

  lemma BindingsStep(args: seq<string>, i: nat, step: Step)
    requires i < |args| && ParseStep(args, i) == Ok(step)
    ensures i + step.used <= |args|
    ensures Bindings(args, i) == Prepend(step.binding, Bindings(args, i + step.used))
  {
  }

  lemma AssignCons(m: Config, b: Binding, bs: seq<Binding>)
    ensures Assign(m, [b] + bs) == Assign(m[b.key := b.value], bs)
  {
    assert ([b] + bs)[1..] == bs;
  }

  lemma FinishFault(m: Config, args: seq<string>, i: nat)
    requires i < |args| && ParseStep(args, i).Err?
    ensures Finish(m, Bindings(args, i)) == Err(ParseStep(args, i).error)
  {
  }

  /** One iteration in terms of the map being built: a binding is stored
      before the remaining tokens are read. */
  lemma FinishStep(m: Config, args: seq<string>, i: nat, step: Step)
    requires i < |args| && ParseStep(args, i) == Ok(step)
    ensures i + step.used <= |args|
    ensures Finish(m, Bindings(args, i)) ==
      Finish(m[step.binding.key := step.binding.value], Bindings(args, i + step.used))
  {
    BindingsStep(args, i, step);
    var rest := Bindings(args, i + step.used);
    if rest.Ok? {
      AssignCons(m, step.binding, rest.value);
    }
  }

  /** The body of the source's loop on the token at position `i`, written
      with the same tests in the same order. */
  method ParseToken(args: seq<string>, i: nat) returns (r: Result<Step>)
    requires i < |args|
    ensures r == ParseStep(args, i)
  {
    var arg := args[i];
    if |arg| == 0 {
      return Err(ArgError(EmptyToken, i, arg));
    }
    if arg[0] == '-' {
      arg := arg[1..];
      if |arg| == 0 {
        return Err(ArgError(BareDash, i, args[i]));
      }
      if arg[0] == '-' {
        arg := arg[1..];
      }
    }
    assert StripDashes(args[i]) == Ok(arg);
    var eq := IndexOf(arg, '=');
    if eq != -1 {
      return Ok(Step(Binding(arg[..eq], Str(arg[eq + 1..])), 1));
    }
    if i + 1 < |args| && |args[i + 1]| == 0 {
      return Err(ArgError(EmptyValue, i + 1, args[i + 1]));
    }
    if i + 1 < |args| && args[i + 1][0] != '-' {
      return Ok(Step(Binding(arg, Str(args[i + 1])), 2));
    } else if Utf8Len(arg) < 3 {
      return Err(ArgError(ShortFlag, i, args[i]));
    } else if |arg| >= 3 && arg[0..3] == "no-" {
      // the first three bytes spell "no-" exactly when the first three
      // characters do, since those bytes are ASCII
      return Ok(Step(Binding(arg[3..], Bool(false)), 1));
    } else {
      return Ok(Step(Binding(arg, Bool(true)), 1));
    }
  }

  /** The loop of the source: one map, updated token by token, with the
      position advanced past a consumed value. */
  method DashdashArgsToMap(args: seq<string>) returns (r: Result<Config>)
    ensures r == ArgsToMap(args)
  {
    var mapped: Config := map[];
    var i := 0;
    while i < |args|
      invariant 0 <= i <= |args|
      invariant ArgsToMap(args) == Finish(mapped, Bindings(args, i))
    {
      var step := ParseToken(args, i);
      if step.Err? {
        FinishFault(mapped, args, i);
        return Err(step.error);
      }
      FinishStep(mapped, args, i, step.value);
      mapped := mapped[step.value.binding.key := step.value.binding.value];
      i := i + step.value.used;
    }
    assert Bindings(args, i) == Ok([]);
    return Ok(mapped);
  }
}
