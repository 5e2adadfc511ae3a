# The `eval` command's argument parser and graph printer, in Dafny

This project models the two algorithms in `cmd/eval.go`.

**The parser.** `dashdashArgsToMap` turns the tokens after `--` on the `eval` command line into the
configuration map that the compiler hands to a package's entrypoint. Each iteration resolves one key:

- one or two leading dashes are stripped;
- `k=v` binds `k` to the string `v`, split at the first `=`;
- otherwise a following token that does not start with `-` is taken as the string value;
- otherwise `no-k` binds `k` to `false`, and any other flag binds itself to `true`.

A later binding of a key overwrites an earlier one.

The Go code reads `arg[0]`, `args[i+1][0]` and `arg[0:3]` without checking lengths, so some inputs
make it panic. The model names each of those inputs as an explicit `ArgError`, which carries the
fault, the token's position and the token:

- `EmptyToken`: an empty token (line 113);
- `BareDash`: the token `-` (line 115);
- `EmptyValue`: an empty token after a flag without `=` (line 125);
- `ShortFlag`: a bare flag shorter than three bytes that reaches the `no-` test (line 129).

Go strings are bytes, and tokens here are strings of characters. `DashArgs.Utf8Len` counts a
string's UTF-8 bytes, as Go's `len` does, and the `no-` length test uses it: the one-character flag
`日` is three bytes long and binds itself to true (`DashArgsProps.WideFlag`). Every other test and
split looks at the ASCII characters `-` and `=`. UTF-8 never uses their bytes inside a multi-byte
character, so for valid UTF-8 tokens counting positions in characters yields the same keys and
values.

The parser is modelled twice:

- `DashArgs.ArgsToMap` is a functional definition: the list of bindings, then a left fold into a map.
- `DashArgs.DashdashArgsToMap` is the loop written as the source writes it. It is proved equal to
  the functional definition.

**The printer.** `printVertex` and the loop over the graph's roots print the graph depth-first, in
pre-order. One `shown` map is shared by every root. A node already shown prints `<cycle...>` and is
not descended into. Otherwise the node is marked shown before its successors are printed, one
indent unit deeper.

The model threads the visited set through the mutually recursive functions `Render.Vertex` and
`Render.Outs`. Termination uses the set of nodes not yet shown. The output is a sequence of `Line`
records (node, depth, type name, cycle marker). `Render.Text` gives the exact string the source
prints for a line.

Modules:

- `DashArgs` (`args.dfy`): the parser.
- `DashArgsProps` (`args_props.dfy`): its properties.
- `Graphs` (`graph.dfy`): the graph the printer reads, and reachability.
- `Render` (`render.dfy`): the printer.
- `RenderProps` (`render_props.dfy`): its properties.

Two consequences of the code are easy to miss:

- The parser accepts an empty key. `--=v` binds `""` to `"v"` (`DashArgsProps.EmptyKey`), and so
  does `--` followed by a value token.
- A token that is empty after stripping is not rejected by itself. `--` faults only when no value
  follows it, because then it reaches the `no-` test (`ShortFlag`).

## Model

| member | source | states |
|---|---|---|
| DashArgs.StripDashes | cmd/eval.go:112-118 | Stripping fails exactly on an empty token (`EmptyToken`) or the token `-` (`BareDash`), naming that token. |
| DashArgs.StripDashesKeepsSuffix | cmd/eval.go:112-118 | What stripping keeps is a suffix of the token. It drops only dashes, at most two, and fewer than two only when the rest does not start with a dash. A token without a leading dash is kept whole. |
| DashArgs.Utf8Width | cmd/eval.go:129 | The UTF-8 byte count of one character, which Go's `len` adds up: one to four bytes, and one exactly for ASCII. |
| DashArgs.Utf8Len | cmd/eval.go:129 | The byte length that Go's `len` gives, which the `no-` test checks. It is at least the number of characters and at most four times that. |
| DashArgs.Utf8LenAscii | cmd/eval.go:129 | The byte length equals the character length exactly when every character is ASCII. |
| DashArgs.HasNoPrefix | cmd/eval.go:129 | No contract. It is the `arg[0:3] == "no-"` test, for a flag already known to be at least three bytes long. It is characterized by `NegationRule` and `FlagRule`. |
| DashArgs.IndexOf | cmd/eval.go:121 | The stand-in for `strings.IndexByte` returns -1 or a position in the string. It is characterized by `IndexOfFirst`. |
| DashArgs.IndexOfFirst | cmd/eval.go:121 | `IndexOf` is -1 exactly when the character is absent. Otherwise it is the position of the first occurrence. |
| DashArgs.ParseStep | cmd/eval.go:110-136 | A resolved key uses one or two tokens and never reads past the end of the input. |
| DashArgs.Bindings | cmd/eval.go:109-137 | No contract. It lists the bindings of the tokens in input order, or the first fault. It is characterized by `EqualsRule`, `ValueRule`, `NegationRule`, `FlagRule`, `FaultRules`, `FaultNamesUnsafeToken` and `BindingsCount`. |
| DashArgs.ArgsToMap | cmd/eval.go:106-140 | No contract. It is the functional model of the parser. It is characterized by `ArgsToMapLastWins` and `SafeTokensParse`, and `DashdashArgsToMap` is proved equal to it. |
| DashArgs.Assign | cmd/eval.go:123-134 | No contract. It stores the bindings into the map in order, as lines 123, 127, 131 and 134 do. It is characterized by `AssignLastWins`. |
| DashArgs.FinishStep | cmd/eval.go:121-136 | One iteration stores its binding in the map before the remaining tokens are read. |
| DashArgs.ParseToken | cmd/eval.go:110-136 | The loop body, with the source's tests in the source's order, gives the same outcome as the functional `ParseStep`. Every panic becomes its `ArgError`. |
| DashArgs.DashdashArgsToMap | cmd/eval.go:106-140 | The source's loop, with one map updated in place and `i` advanced past a consumed value, computes `ArgsToMap`. It stops at the first fault. |
| DashArgsProps.EqualsRule | cmd/eval.go:120-123 | For `k=v` with no `=` in `k`, the key is the text before the first `=`. The value is everything after it, verbatim. Only one token is used. |
| DashArgsProps.ValueRule | cmd/eval.go:125-128 | A flag without `=` followed by a token not starting with `-` takes that token as its string value and uses both tokens. This holds for `no-` flags too. |
| DashArgsProps.NegationRule | cmd/eval.go:129-131 | A bare `no-k` with no value after it binds `k` to false. |
| DashArgsProps.FlagRule | cmd/eval.go:132-135 | Any other bare flag of three or more bytes with no value after it binds its whole name to true. |
| DashArgsProps.FaultRules | cmd/eval.go:110-129 | Each unchecked index becomes its fault, at the position of the offending token: an empty token, the token `-`, an empty value token, and a short bare flag. |
| DashArgsProps.FaultNamesUnsafeToken | cmd/eval.go:109-136 | Every fault names a token of the input by its position, and that token is not safe. |
| DashArgsProps.SafeTokensParse | cmd/eval.go:106-140 | Input whose tokens are all safe always parses. |
| DashArgsProps.BindingsCount | cmd/eval.go:109-128 | A successful parse resolves between half of the tokens and all of them, because each key uses one or two tokens. |
| DashArgsProps.AssignLastWins | cmd/eval.go:123-134 | Storing bindings in order leaves each key with its last bound value. Keys that are never bound keep their earlier value. |
| DashArgsProps.ArgsToMapLastWins | cmd/eval.go:106-140 | The parsed map has an entry for a key exactly when some token binds it. The entry's value is the last binding of that key. |
| DashArgsProps.EmptyInput | cmd/eval.go:106-109 | No tokens give the empty map. |
| DashArgsProps.ValueBeatsNegation | cmd/eval.go:125-131 | `--no-x y` binds `no-x` to `"y"`, because taking a value is tried before negation. |
| DashArgsProps.CountTakesString | cmd/eval.go:125-128 | `--count 3` binds `count` to the string `"3"`. |
| DashArgsProps.RepeatedKey | cmd/eval.go:121-123 | `--a=1 -a=2` keeps the later value `"2"`. |
| DashArgsProps.TwoFlags | cmd/eval.go:125-135 | A flag followed by another flag takes no value. Both bind their names to true. |
| DashArgsProps.FlagBeforeFlag | cmd/eval.go:125-135 | `--count --other` gives `count` true and `other` true. |
| DashArgsProps.EqualsFlagNegation | cmd/eval.go:120-135 | A `k=v` token, a bare flag and a `no-` flag produce, in order, a string binding, a true binding and a false binding. |
| DashArgsProps.MixedForms | cmd/eval.go:120-135 | `--name=foo --verbose --no-debug` gives name `"foo"`, verbose true and debug false. |
| DashArgsProps.WideFlag | cmd/eval.go:129-134 | The one-character, three-byte flag `日` passes the `no-` length test and binds itself to true. |
| DashArgsProps.EmptyKey | cmd/eval.go:121-123 | `--=v` binds the empty key to `"v"`. |
| Render.Vertex | cmd/eval.go:90-101 | Printing a node only adds to the visited set, and the node is in the set afterwards. |
| Render.Outs | cmd/eval.go:97-99 | Printing successors in order only adds to the visited set, and every successor is in the set afterwards. |
| Render.RenderGraph | cmd/eval.go:77-80 | No contract. It prints every root in order, starting from an empty visited set. It is characterized by `ShownIsReachable`, `ExpandsReachableOnce`, `CycleMarkers`, `LineCount` and `RenderShape`, and `PrintGraph` is proved equal to it. |
| Render.PrintGraph | cmd/eval.go:77-80 | The loop over the roots, with one visited set created empty and carried from root to root, prints `RenderGraph`. |
| RenderProps.ReplayVertex | cmd/eval.go:92-99 | A node's lines replay the visited set: a line is a cycle marker exactly when its node was already shown at that point. The set returned is the one the lines build. |
| RenderProps.ReplayOuts | cmd/eval.go:97-99 | The same replay property holds for a run of successors printed in order. |
| RenderProps.CountVertex | cmd/eval.go:92-99 | A node prints one line, plus one line per successor of every node it expands. |
| RenderProps.CountOuts | cmd/eval.go:97-99 | A run of successors prints one line per successor, plus one per successor of every expanded node. |
| RenderProps.ShapeVertex | cmd/eval.go:90-101 | The node's line comes first, at its depth, and carries the marker exactly when the node was shown. Every later line is deeper. The direct successors appear one level down in `Outs()` order. A shown node prints one line and leaves the set unchanged. |
| RenderProps.ShapeOuts | cmd/eval.go:97-99 | The lines at the call's depth are the given successors in order, and the first line is the first successor. No line is shallower. An empty run prints nothing. |
| RenderProps.OutlineVertex | cmd/eval.go:93-98 | A node's lines form an outline: depth grows by at most one per line. A deeper line follows exactly the expanded nodes that have successors, so a cycle marker has no children. |
| RenderProps.OutlineOuts | cmd/eval.go:97-99 | The same outline property holds for a run of successors. |
| RenderProps.SettledVertex | cmd/eval.go:95-99 | Every node a call adds to the visited set has all its successors in the set it returns. |
| RenderProps.SettledOuts | cmd/eval.go:97-99 | The same holds for a run of successors. |
| RenderProps.MinimalVertex | cmd/eval.go:92-99 | A call adds only nodes that lie in every edge-closed set that contains the node. |
| RenderProps.MinimalOuts | cmd/eval.go:97-99 | A run of successors adds only nodes that lie in every edge-closed set that contains them. |
| RenderProps.RenderEmpty | cmd/eval.go:77-80 | An empty root list prints nothing. |
| RenderProps.ShownIsReachable | cmd/eval.go:77-80 | After printing, the shared visited set is exactly the set of nodes reachable from the roots. |
| RenderProps.ExpandsReachableOnce | cmd/eval.go:92-99 | Every node reachable from the roots is printed exactly once without the cycle marker, and no other node is. |
| RenderProps.CycleMarkers | cmd/eval.go:77-95 | A line is a cycle marker exactly when its node was expanded on an earlier line, under the same root or an earlier one. |
| RenderProps.LineCount | cmd/eval.go:77-99 | The output has one line per root, plus one per successor of every expanded node. |
| RenderProps.RenderShape | cmd/eval.go:77-80 | The lines at depth 0 are the roots in order, and the whole output is an outline of the graph. |
| RenderProps.CycleRendering | cmd/eval.go:90-101 | The cycle A -> B -> C -> A prints A, B, C, then A as a cycle marker three levels down. |
| RenderProps.DiamondRendering | cmd/eval.go:90-101 | In the diamond A -> B, A -> C, B -> D, C -> D, D is expanded under B and printed as a cycle marker under C, although the graph has no cycle. |
| Render.Indent | cmd/eval.go:98 | No contract. It is the indent at a given depth, one `"    -> "` per level. It is characterized by `IndentShape`. |
| Render.Text | cmd/eval.go:93-96 | No contract. It is the text the two `Printf` formats print for a line, without the newline. It is characterized by `TextShape`. |
| RenderProps.IndentShape | cmd/eval.go:98 | The indent at depth d is d copies of `"    -> "`, 7d characters long. |
| RenderProps.TextShape | cmd/eval.go:93-96 | A printed line is the indent, then the type name, then `:`, or `: <cycle...>` for a marker. It ends in `>` exactly for a cycle marker. |

## Left out

- Command plumbing (`cmd/eval.go:20-41`, `84`) is not modelled. It covers the cobra command object, `ArgsLenAtDash` and splitting the positional arguments from those after `--`. The parser starts from the tokens after `--`.
- Package loading and compilation (`cmd/eval.go:44-71`) are not modelled. They are calls into other packages: `compiler.Newwd`, `compiler.New`, `ReadPackageFromArg`, `Compile` and `CompilePackage`. The printer takes the resulting graph as a parameter.
- Fatal errors (`contract.Failf`, lines 53 and 67) and the early return on a nil graph (lines 72-74) are not modelled. They belong to the driver, not to the two algorithms.
- `fmt.Printf` output is a sequence of `Line` records, which `Render.Text` turns into the printed text. Writing to standard output is I/O.
- Tokens are assumed to be valid UTF-8. Go's command-line arguments can hold any bytes, and a byte string that is not UTF-8 has no counterpart as a Dafny string. Such a token of three bytes would bind itself to true, and one of two bytes would panic at line 129.
- `tokens.Name` is not modelled: keys are plain strings, since the conversion is a type change only. The `core.Args` values are `interface{}` in Go; here they are `Value`, which is either `Bool` or `Str`, the only kinds the parser stores.
- The graph package (`pkg/graph`) is not part of this model. Vertices compare by reference in Go; here each is a distinct number. The graph is seen only through its roots, each node's type name (`Obj().Type()`) and its ordered successors (`Outs()`).
- The printer's Go recursion depth and the sizes of the Go map are not modelled.

