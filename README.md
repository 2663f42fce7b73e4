# g-fu calling convention, modelled in Dafny

This project models the calling convention of the g-fu Lisp runtime: how a
callable's raw parameter forms become parameter descriptors, how a compiled
parameter list computes its arity bounds, checks a call's argument count,
fills missing optional defaults and binds every parameter into a scope. It
also models the two value variants the convention relies on: Nil (the
anonymous parameter marker and the missing default) and the splat wrapper
(the variadic marker).

Files and modules:

- `values.dfy` (`Values`): runtime values (`Nil`, `Sym`, `Vec`, `Splat`, and
  `Other` for every variant the convention does not inspect), errors and
  results. Symbols are interned by the interpreter, so a symbol is identified
  by its name.
- `nil_type.dfy` (`NilType`): truthiness, calling, dumping and spreading of Nil.
- `splat.dfy` (`Splats`): the splat wrapper's operations. The inner value's
  own Eval, Quote, Is and Dump, and a vector's own spreading rule, are passed
  in as functions.
- `env.dfy` (`Scopes`): the scope as a collaborator. `Env.Let` binds a name
  unless a refusal policy (a parameter) refuses; `LetAll` is the effect of a
  sequence of bindings that stops at the first refusal.
- `args.dfy` (`Args`): parameter descriptors and the pure rules: rendering
  (`ArgDump`, `ArgsDump`), arity (`MinArity`, `MaxArity`, `Admits`), name
  resolution (`Resolve`), defaults (`OptVal`, `Filled`) and bindings
  (`ParamBinding`, `Bindings`).
- `arglist.dfy` (`ArgLists`): the class `ArgList` with the fields `items`,
  `min` and `max`. `Init` updates them in place; its loop over the
  parameters is the method `ScanParams`. `Check` reads them. `Fill`
  and `LetVars` are loops proved against `Filled` and `Bindings`.
- `parse.dfy` (`Parse`): `ParseArgs`, a loop with early error return, proved
  against `ParseAll`; worked calls; the variadic-position finding.

The interpreter's evaluator (`g.Eval` in the defining scope), the dump of a
default value (`g.Dump`) and the scope's refusal policy are parameters of the
model. Interning (`g.Sym`) maps a name to the symbol of that name.

## Model

| member | source | states |
|---|---|---|
| `NilType.Bool` | v1/src/gfu/nil_type.go:12-14 | Nil is never true |
| `NilType.Call` | v1/src/gfu/nil_type.go:16-18 | calling Nil always fails with the Nil-call error |
| `NilType.Dump` | v1/src/gfu/nil_type.go:20-22 | Nil renders as exactly `_` |
| `NilType.Splat` | v1/src/gfu/nil_type.go:24-26 | spreading Nil leaves the output unchanged |
| `Splats.NewSplat` | v1/src/gfu/splat.go:12-15 | the wrapper holds exactly the given value |
| `Splats.Call` | v1/src/gfu/splat.go:17-19 | calling a splat succeeds and yields the splat itself |
| `Splats.Dump` | v1/src/gfu/splat.go:21-24 | the text ends in `..`, and removing that marker gives the inner value's dump |
| `Splats.Eq` | v1/src/gfu/splat.go:26-28 | equal only to a splat, and then exactly when the inner value's identity test relates the two inner values |
| `Splats.Is` | v1/src/gfu/splat.go:40-42 | identical exactly to a splat around the same inner value |
| `Splats.IsEquivalence` | v1/src/gfu/splat.go:40-42 | identity is reflexive and symmetric |
| `Splats.EqVersusIs` | v1/src/gfu/splat.go:26-42 | identity implies equality when the inner identity test is reflexive; the two coincide when the inner test is plain identity |
| `Splats.EqIsAsymmetric` | v1/src/gfu/splat.go:26-42 | an inner test relating distinct values makes two splats equal but not identical |
| `Splats.Eval` | v1/src/gfu/splat.go:30-38 | fails exactly when evaluating the inner value fails, with that error; otherwise yields a splat around the evaluated inner value |
| `Splats.EvalTwiceWrapsOnce` | v1/src/gfu/splat.go:30-38 | evaluating again wraps once around the twice-evaluated inner value |
| `Splats.Quote` | v1/src/gfu/splat.go:44-50 | fails exactly when quoting the inner value fails, with that error; otherwise yields a splat around the quoted inner value |
| `Splats.Splat` | v1/src/gfu/splat.go:52-60 | a non-vector inner value appends the wrapper itself as one more item after the unchanged output; a vector delegates to the vector's rule |
| `Splats.SplatOfNilIsKept` | v1/src/gfu/splat.go:52-60 | a splat around Nil is kept as one item, unlike Nil itself |
| `Args.A` | v1/src/gfu/arg.go:29-32 | a plain parameter with the raw name, no symbol and no default |
| `Args.AOpt` | v1/src/gfu/arg.go:34-39 | an optional parameter with the raw name and the given default |
| `Args.ASplat` | v1/src/gfu/arg.go:41-45 | a variadic parameter with the raw name |
| `Args.ArgDumpDeterminesArg` | v1/src/gfu/arg.go:47-78 | with simple names, equal renderings mean equal kind, equal name and equal default text: `(name default)`, `(name)`, `name..`, `name`, `n/a` cannot be confused |
| `Args.ArgsDump` | v1/src/gfu/arg.go:82-95 | a list renders inside parentheses |
| `Args.ArgsDumpAppend` | v1/src/gfu/arg.go:82-95 | parameters render in order, separated by single spaces |
| `Args.ListDumpKeepsPartialText` | v1/src/gfu/arg.go:55-95 | a default whose dump fails leaves `(name ` in the list text and the list dump reports no error |
| `Args.ArityBounds` | v1/src/gfu/arg.go:116-144 | the minimum is never negative and never above a finite maximum; the maximum is unbounded exactly when the last parameter is variadic; an empty list admits exactly zero |
| `Args.ArityOfShape` | v1/src/gfu/arg.go:124-141 | for plain, then optional, then at most one final variadic parameter: minimum is the plain count, maximum the plain and optional count or unbounded |
| `Args.AdmitsMeansCovered` | v1/src/gfu/arg.go:146-154 | for such a list, a count passes the check exactly when every plain parameter gets an argument and every argument lands on a parameter |
| `Args.Resolve` | v1/src/gfu/arg.go:131-133 | a missing symbol is interned from a non-empty raw name; otherwise the parameter is unchanged |
| `Args.ResolveKeepsArity` | v1/src/gfu/arg.go:126-141 | resolving names changes no kind, so the bounds are the same before and after |
| `Args.OptVal` | v1/src/gfu/arg.go:170-178 | the default when present, Nil otherwise |
| `Args.MissingDefaultIsFalse` | v1/src/gfu/arg.go:170-178 | a missing default is Nil, which is never true |
| `Args.FilledShape` | v1/src/gfu/arg.go:156-168 | the result extends the arguments; arguments as long as the list are unchanged; each appended value is the default of the optional parameter at its position; filling stops at the first non-optional parameter |
| `Args.FillCompletes` | v1/src/gfu/arg.go:156-168 | for a well-shaped list and an admitted count, filling supplies exactly the missing plain-and-optional positions |
| `Args.BindingsComplete` | v1/src/gfu/arg.go:180-217 | every named parameter not behind a named variadic one is bound: a variadic one to the vector of the remaining arguments (empty when none), any other to its argument or else its default |
| `Args.BindingsSound` | v1/src/gfu/arg.go:180-217 | every binding comes from such a named parameter by that rule; anonymous parameters bind nothing and nothing after a named variadic parameter binds |
| `Args.FillThenBind` | v1/src/gfu/arg.go:156-217 | when the variadic parameter is last, binding after a fill gives the same bindings as binding alone |
| `Scopes.LetAllFirstError` | v1/src/gfu/arg.go:196-213 | binding stops at the first refusal: the error is that refusal and the scope holds exactly the earlier bindings; without an error no binding was refused |
| `Scopes.LetAllPermissive` | v1/src/gfu/arg.go:180-217 | when nothing is refused, every binding is made and a name bound once holds its value |
| `ArgLists.ArgList.constructor` | v1/src/gfu/arg.go:111-114 | the zero list: no parameters, bounds zero |
| `ArgLists.ScanParams` | v1/src/gfu/arg.go:123-134 | the loop over the parameters resolves every name and lowers the minimum by one per optional parameter |
| `ArgLists.ArgList.Init` | v1/src/gfu/arg.go:116-144 | an empty list leaves the object unchanged; otherwise the parameters are stored with names resolved and the bounds are `MinArity`/`MaxArity` |
| `ArgLists.ArgList.Check` | v1/src/gfu/arg.go:146-154 | no error exactly when the count lies within the bounds; otherwise an arity error carrying the rendered list and the arguments |
| `ArgLists.ArgList.Fill` | v1/src/gfu/arg.go:156-168 | the loop computes `Filled` |
| `ArgLists.ArgList.LetVars` | v1/src/gfu/arg.go:180-217 | the scope ends as performing `Bindings` one by one leaves it, and the error is the first refusal |
| `Parse.ParseArgs` | v1/src/gfu/arg.go:219-252 | the loop computes `ParseAll`, returning no descriptors on the first error |
| `Parse.ParseOneClassifies` | v1/src/gfu/arg.go:223-249 | Nil gives an anonymous plain parameter, a symbol a named one, a vector of two or more with a symbol head an optional one with the evaluated default, a splat around a symbol a variadic one; all else is an invalid argument; an evaluation error is passed on |
| `Parse.ParseAllSpec` | v1/src/gfu/arg.go:219-252 | the parse succeeds exactly when every form is valid, with one descriptor per form in order; otherwise the error is the first invalid form's |
| `Parse.NilIsAnonymous` | v1/src/gfu/arg.go:226-227 | Nil parses to an anonymous parameter that stays anonymous, binds nothing and renders as `n/a` |
| `Parse.SampleCalls` | v1/src/gfu/arg.go:116-217 | `(a (b 1) c..)` has bounds 1 and unbounded; called with `(10)` it binds a=10, b=1, c=(); with `(10 20 30 40)` it binds a=10, b=20, c=(30 40) |
| `Parse.NumberIsInvalid` | v1/src/gfu/arg.go:244-246 | a bare number among the forms is an invalid argument and yields no descriptors |
| `Parse.ParameterAfterVariadicIsUnbound` | v1/src/gfu/arg.go:183-201 | `(a.. b)` passes the arity check with two arguments but binds only `a` |
| `Parse.ParseArgsChecked` | v1/src/gfu/arg.go:219-252 | the parse with a check on variadic position: on success the result is the plain parse and no variadic parameter stands before the last position |
| `Parse.CheckedParseBindsEveryName` | v1/src/gfu/arg.go:180-252 | after the checked parse, every named parameter is bound at each call and fill-then-bind equals bind |

## Left out

- The command-line front end (`v1/src/gfu.go`) is not part of this model. It is input/output only: line buffering, flags, profiling and file loading.
- Writing through `bufio.Writer` and `strings.Builder`: dumps are returned strings.
- The error-to-string fallback of `Args.EString` (v1/src/gfu/arg.go:97-109) and the `%v` formatting of error messages. The arity error carries the rendered list and the arguments as data. `Args.Dump` never returns an error, so that fallback is never taken.
- The internals of `Env.Let`, `g.Eval`, `g.Dump`, `g.Sym` and the type registry are not shown. They are parameters, a refusal policy, or interning by name. `Splat.Type` is left out for the same reason.
- A vector's own spreading rule is not shown. `Splats.Splat` delegates to a parameter for it.
- Go's unchecked type assertions are modelled as checked cases. `vv[0].(*Sym)` and `sv.val.(*Sym)` in `ParseArgs` become an invalid-argument error, raised before any default is evaluated. `rhs.(Splat)` in `Splat.Eq` becomes "not equal". The source panics in these cases.
- Splats.Is: compares with value equality. Go's `==` on interface values panics when the inner value is a vector (slices are not comparable). The panic is not modelled.
- `Arg.Init` (v1/src/gfu/arg.go:24-27) is not modelled. It is a setter that no modelled operation calls.
- ArgLists.ArgList.Init: its loop (`ScanParams`) works on local copies, and the fields are assigned once afterwards. The final state is the same, but the intermediate field writes are not modelled.
- Aliasing in `ArgList.Init`: `l.items = args` shares the caller's slice, so in Go resolving names also changes the caller's descriptors. The model copies values.
- Parsing the rendered list back (rendering then re-parsing keeps the bounds) is not modelled: the reader is not part of the core. `Args.ArgDumpDeterminesArg` states the weaker fact that the rendering is unambiguous.
- Concurrency is not modelled: the core is single-threaded.

## Findings

| source | as written | input that shows it | evidently intended | confidence | as-written member | corrected member |
|---|---|---|---|---|---|---|
| v1/src/gfu/arg.go:241-243 | `ParseArgs` accepts a variadic parameter in any position. `Init` then counts it towards the minimum, and `LetVars` stops binding at it. | the parameter forms `(a.. b)` called with two arguments: the arity check passes, `a` is bound to both arguments, and `b` is never bound | a variadic parameter is accepted only in last position, as the unbounded-maximum rule in `Init` (v1/src/gfu/arg.go:136-141) assumes | medium, not executed | `Parse.ParameterAfterVariadicIsUnbound` | `Parse.ParseArgsChecked` |

`Parse.CheckedParseBindsEveryName` proves the intended property of the
corrected parse: every named parameter is bound at each call. `Parse.ParseArgs`
itself stays faithful to the code as written.
