/** Formal-parameter descriptors and the pure rules of the calling
    convention: how a parameter list renders, which argument counts it admits,
    which defaults fill a short argument list and which bindings a call
    performs. The compiled list that applies these rules is `ArgLists.ArgList`. */
module Args {
  import opened Values
  import Scopes
  import NilType

  /** The three parameter kinds; `ArgPlain` is the zero value. */
  datatype ArgType = ArgPlain | ArgOpt | ArgSplat

  /** One formal parameter: its kind, the raw name it was declared with
      (empty when it was parsed from syntax), the interned symbol once
      resolved (`None` for an anonymous parameter) and, for an optional
      parameter, its already evaluated default. */
  datatype Arg = Arg(argType: ArgType, strId: string, id: Option<string>, optVal: Option<Val>)

  /** A plain parameter declared by name. */
  function A(id: string): (a: Arg)
    ensures a.argType == ArgPlain && a.strId == id && a.id.None? && a.optVal.None?
  {
    Arg(ArgPlain, id, None, None)
  }

  /** An optional parameter declared by name, with its default. */
  function AOpt(id: string, val: Option<Val>): (a: Arg)
    ensures a.argType == ArgOpt && a.strId == id && a.id.None? && a.optVal == val
  {
    Arg(ArgOpt, id, None, val)
  }

  /** A variadic parameter declared by name. */
  function ASplat(id: string): (a: Arg)
    ensures a.argType == ArgSplat && a.strId == id && a.id.None? && a.optVal.None?
  {
    Arg(ArgSplat, id, None, None)
  }

  // ---------------------------------------------------------------- rendering

  function DumpId(a: Arg): string
  {
    if a.id.None? then "n/a" else a.id.value
  }

  /** The text one parameter writes and the error, if any, of dumping its
      default. When the default cannot be dumped, the text written so far
      (`(name `) stays written. */
  function ArgDump(a: Arg, dumpVal: Val -> Result<string>): (string, Option<Error>)
  {
    match a.argType
    case ArgOpt =>
      if a.optVal.None? then ("(" + DumpId(a) + ")", None)
      else (match dumpVal(a.optVal.value)
            case Err(e) => ("(" + DumpId(a) + " ", Some(e))
            case Ok(d) => ("(" + DumpId(a) + " " + d + ")", None))
    case ArgSplat => (DumpId(a) + "..", None)
    case ArgPlain => (DumpId(a), None)
  }

  /** The space-separated texts of the parameters, without the parentheses. */
  function DumpItems(params: seq<Arg>, dumpVal: Val -> Result<string>): string
  {
    if |params| == 0 then ""
    else if |params| == 1 then ArgDump(params[0], dumpVal).0
    else DumpItems(params[..|params| - 1], dumpVal) + " " + ArgDump(params[|params| - 1], dumpVal).0
  }

  /** A parameter list renders as its parameters in parentheses. The error of
      each parameter's dump is dropped and the list dump never fails. */
  function ArgsDump(params: seq<Arg>, dumpVal: Val -> Result<string>): (s: string)
    ensures |s| >= 2 && s[0] == '(' && s[|s| - 1] == ')'
  {
    "(" + DumpItems(params, dumpVal) + ")"
  }

  /** A list renders its parameters in order, each separated from the one
      before by a single space: one parameter renders inside the parentheses,
      and adding a parameter inserts a space and its text before the closing
      parenthesis. */
  lemma ArgsDumpAppend(params: seq<Arg>, a: Arg, dumpVal: Val -> Result<string>)
    ensures ArgsDump([a], dumpVal) == "(" + ArgDump(a, dumpVal).0 + ")"
    ensures var before := ArgsDump(params, dumpVal);
            params != [] ==>
              ArgsDump(params + [a], dumpVal) == before[..|before| - 1] + " " + ArgDump(a, dumpVal).0 + ")"
  {
    if params != [] {
      var before := ArgsDump(params, dumpVal);
      assert (params + [a])[..|params + [a]| - 1] == params;
      assert before[..|before| - 1] == "(" + DumpItems(params, dumpVal);
    }
  }

  /** A default whose dump fails does not make the list dump fail: the text
      `(name ` written before the failure stays, unbalanced, in the list's
      text, and no error is reported. */
  lemma ListDumpKeepsPartialText(dumpVal: Val -> Result<string>)
    requires dumpVal(Other(1)).Err?
    ensures ArgDump(Arg(ArgOpt, "", Some("y"), Some(Other(1))), dumpVal).1.Some?
    ensures ArgsDump([Arg(ArgOpt, "", Some("y"), Some(Other(1)))], dumpVal) == "((y )"
  {
  }

  /** A name whose rendering cannot be confused with punctuation of the
      parameter-list syntax or with the placeholder of an anonymous parameter. */
  predicate SimpleName(n: string)
  {
    n != "" && n != "n/a" && n[|n| - 1] != '.' &&
    forall i :: 0 <= i < |n| ==> n[i] != ' ' && n[i] != '(' && n[i] != ')'
  }

  predicate Renderable(a: Arg, dumpVal: Val -> Result<string>)
  {
    (a.id.Some? ==> SimpleName(a.id.value)) &&
    (a.argType == ArgOpt && a.optVal.Some? ==> dumpVal(a.optVal.value).Ok?)
  }

  /** The rendering of a parameter is unambiguous: when two parameters with
      simple names render to the same text, they have the same kind, the same
      name, and (for optional ones) the same presence of a default and the same
      default text. */
  lemma ArgDumpDeterminesArg(a: Arg, b: Arg, dumpVal: Val -> Result<string>)
    requires Renderable(a, dumpVal) && Renderable(b, dumpVal)
    requires ArgDump(a, dumpVal).0 == ArgDump(b, dumpVal).0
    ensures a.argType == b.argType && a.id == b.id
    ensures a.argType == ArgOpt ==> a.optVal.Some? == b.optVal.Some?
    ensures a.argType == ArgOpt && a.optVal.Some? && b.optVal.Some? ==>
              dumpVal(a.optVal.value) == dumpVal(b.optVal.value)
  {
    var s := ArgDump(a, dumpVal).0;
    var x, y := DumpId(a), DumpId(b);
    DumpFirstChar(a, dumpVal);
    DumpFirstChar(b, dumpVal);
    if a.argType == ArgOpt {
      var rest := s[1..];
      OptDumpHead(a, dumpVal, x);
      OptDumpHead(b, dumpVal, y);
      FirstStopAt(rest, |x|);
      FirstStopAt(rest, |y|);
      assert x == rest[..|x|] == y;
      IdFromDump(a, b);
      if a.optVal.Some? && b.optVal.Some? {
        var da, db := dumpVal(a.optVal.value).value, dumpVal(b.optVal.value).value;
        assert rest == x + " " + da + ")";
        assert rest == y + " " + db + ")";
        assert da == rest[|x| + 1..|rest| - 1] == db;
      }
    } else {
      DumpLastChar(a, dumpVal);
      DumpLastChar(b, dumpVal);
      if a.argType == ArgSplat {
        assert x == s[..|s| - 2] == y;
      } else {
        assert x == s == y;
      }
      IdFromDump(a, b);
    }
  }

  /** Whether a character ends the name in an optional parameter's text. */
  predicate IsStop(c: char)
  {
    c == ' ' || c == ')'
  }

  /** The index of the first space or closing parenthesis in `s`, or `|s|`. */
  function FirstStop(s: string): (k: nat)
    ensures k <= |s|
  {
    if s == [] || IsStop(s[0]) then 0 else 1 + FirstStop(s[1..])
  }

  lemma {:induction false} FirstStopAt(s: string, k: nat)
    requires k < |s| && IsStop(s[k])
    requires forall i :: 0 <= i < k ==> !IsStop(s[i])
    ensures FirstStop(s) == k
  {
    if k > 0 {
      FirstStopAt(s[1..], k - 1);
    }
  }

  /** Only an optional parameter's text opens with a parenthesis. */
  lemma DumpFirstChar(a: Arg, dumpVal: Val -> Result<string>)
    requires Renderable(a, dumpVal)
    ensures |ArgDump(a, dumpVal).0| > 0
    ensures ArgDump(a, dumpVal).0[0] == '(' <==> a.argType == ArgOpt
  {
    var x := DumpId(a);
    assert |x| > 0 && x[0] != '(' by {
      if a.id.Some? { assert x[0] == a.id.value[0]; }
    }
    if a.argType != ArgOpt {
      assert ArgDump(a, dumpVal).0[0] == x[0];
    }
  }

  /** Among the others, only a variadic parameter's text ends with a dot. */
  lemma DumpLastChar(a: Arg, dumpVal: Val -> Result<string>)
    requires Renderable(a, dumpVal) && a.argType != ArgOpt
    ensures var s := ArgDump(a, dumpVal).0;
            |s| > 0 && (s[|s| - 1] == '.' <==> a.argType == ArgSplat)
    ensures a.argType == ArgSplat ==> var s := ArgDump(a, dumpVal).0;
              |s| >= 2 && s[..|s| - 2] == DumpId(a)
  {
  }

  lemma OptDumpHead(a: Arg, dumpVal: Val -> Result<string>, x: string)
    requires a.argType == ArgOpt && x == DumpId(a)
    requires Renderable(a, dumpVal)
    ensures var rest := ArgDump(a, dumpVal).0[1..];
            |rest| > |x| && rest[..|x|] == x && rest[|x|] == (if a.optVal.Some? then ' ' else ')')
    ensures var rest := ArgDump(a, dumpVal).0[1..];
            forall i :: 0 <= i < |x| ==> !IsStop(rest[i])
  {
    var tail := if a.optVal.Some? then " " + dumpVal(a.optVal.value).value + ")" else ")";
    assert ArgDump(a, dumpVal).0 == "(" + x + tail;
    var rest := ArgDump(a, dumpVal).0[1..];
    assert rest == x + tail;
    forall i | 0 <= i < |x|
      ensures !IsStop(rest[i])
    {
      assert rest[i] == x[i];
      if a.id.Some? { assert x[i] == a.id.value[i]; }
    }
  }

  lemma IdFromDump(a: Arg, b: Arg)
    requires a.id.Some? ==> SimpleName(a.id.value)
    requires b.id.Some? ==> SimpleName(b.id.value)
    requires DumpId(a) == DumpId(b)
    ensures a.id == b.id
  {
  }

  // ------------------------------------------------------------------ arity

  /** The number of optional parameters. */
  function CountOpt(items: seq<Arg>): nat
  {
    if items == [] then 0
    else CountOpt(items[..|items| - 1]) + (if items[|items| - 1].argType == ArgOpt then 1 else 0)
  }

  predicate LastIsSplat(items: seq<Arg>)
  {
    |items| > 0 && items[|items| - 1].argType == ArgSplat
  }

  /** Counting the optional parameters of a longer prefix adds the next one. */
  lemma CountOptStep(items: seq<Arg>, i: nat)
    requires i < |items|
    ensures CountOpt(items[..i + 1]) == CountOpt(items[..i]) + (if items[i].argType == ArgOpt then 1 else 0)
  {
    assert items[..i + 1][..i] == items[..i];
  }

  /** The fewest arguments the list admits: one per parameter, less the
      optional ones and a final variadic one. */
  function MinArity(items: seq<Arg>): int
  {
    |items| - CountOpt(items) - (if LastIsSplat(items) then 1 else 0)
  }

  /** The most arguments the list admits, `-1` for no bound. */
  function MaxArity(items: seq<Arg>): int
  {
    if LastIsSplat(items) then -1 else |items|
  }

  /** Whether an argument count lies within the bounds (the arity check). */
  predicate Admits(items: seq<Arg>, n: nat)
  {
    MinArity(items) <= n && (MaxArity(items) == -1 || n <= MaxArity(items))
  }

  lemma {:induction false} CountOptBound(items: seq<Arg>)
    ensures CountOpt(items) <= |items|
    ensures LastIsSplat(items) ==> CountOpt(items) <= |items| - 1
  {
    if items != [] {
      CountOptBound(items[..|items| - 1]);
    }
  }

  /** The bounds are sane for every list: the minimum is never negative and
      never above a finite maximum, and only a final variadic parameter makes
      the maximum unbounded. An empty list admits exactly zero arguments. */
  lemma ArityBounds(items: seq<Arg>)
    ensures 0 <= MinArity(items)
    ensures MaxArity(items) == -1 <==> LastIsSplat(items)
    ensures MaxArity(items) != -1 ==> MinArity(items) <= MaxArity(items)
    ensures items == [] ==> MinArity(items) == 0 && MaxArity(items) == 0
  {
    CountOptBound(items);
  }

  /** Counting optional parameters in a prefix of a list made of `p` plain,
      then optional parameters up to index `q`, then anything. */
  lemma {:induction false} CountOptShaped(items: seq<Arg>, p: nat, q: nat, k: nat)
    requires p <= q <= |items| && k <= q
    requires forall i :: 0 <= i < p ==> items[i].argType == ArgPlain
    requires forall i :: p <= i < q ==> items[i].argType == ArgOpt
    ensures CountOpt(items[..k]) == if k <= p then 0 else k - p
  {
    if k > 0 {
      CountOptShaped(items, p, q, k - 1);
      assert items[..k][..k - 1] == items[..k - 1];
    }
  }

  /** The arity of a well-shaped list: `p` plain parameters, then optional
      ones up to index `q`, then possibly one variadic parameter. The minimum
      is the number of plain parameters; the maximum is the number of plain and
      optional ones, or unbounded with a variadic one. */
  lemma ArityOfShape(items: seq<Arg>, p: nat, q: nat)
    requires p <= q <= |items|
    requires forall i :: 0 <= i < p ==> items[i].argType == ArgPlain
    requires forall i :: p <= i < q ==> items[i].argType == ArgOpt
    requires q == |items| || (q == |items| - 1 && items[q].argType == ArgSplat)
    ensures MinArity(items) == p
    ensures MaxArity(items) == if q < |items| then -1 else q
  {
    if q == |items| {
      CountOptShaped(items, p, q, q);
      assert items[..q] == items;
    } else {
      CountOptShaped(items, p, q, q);
      assert items[..|items| - 1] == items[..q];
    }
  }

  /** For a well-shaped list the arity check means what it is for: a count is
      admitted exactly when every plain parameter receives an actual argument
      and every actual argument lands on some parameter. */
  lemma AdmitsMeansCovered(items: seq<Arg>, p: nat, q: nat, n: nat)
    requires p <= q <= |items|
    requires forall i :: 0 <= i < p ==> items[i].argType == ArgPlain
    requires forall i :: p <= i < q ==> items[i].argType == ArgOpt
    requires q == |items| || (q == |items| - 1 && items[q].argType == ArgSplat)
    ensures Admits(items, n) <==>
              (forall i :: 0 <= i < |items| && items[i].argType == ArgPlain ==> i < n) &&
              (n <= |items| || LastIsSplat(items))
  {
    ArityOfShape(items, p, q);
    if (forall i :: 0 <= i < |items| && items[i].argType == ArgPlain ==> i < n) && p > 0 {
      assert items[p - 1].argType == ArgPlain;
    }
  }

  // -------------------------------------------------------- name resolution

  /** Resolving a parameter interns its raw name when it has no symbol yet
      and the raw name is not empty; nothing else about it changes. */
  function Resolve(a: Arg): (r: Arg)
    ensures r.argType == a.argType && r.strId == a.strId && r.optVal == a.optVal
    ensures a.id.None? && a.strId != "" ==> r.id == Some(a.strId)
    ensures a.id.Some? || a.strId == "" ==> r == a
  {
    if a.id.None? && |a.strId| > 0 then a.(id := Some(a.strId)) else a
  }

  function ResolveAll(items: seq<Arg>): (r: seq<Arg>)
  {
    seq(|items|, i requires 0 <= i < |items| => Resolve(items[i]))
  }

  /** Resolving names keeps the kinds, so it keeps the arity. */
  lemma {:induction false} ResolveKeepsArity(items: seq<Arg>)
    ensures |ResolveAll(items)| == |items|
    ensures CountOpt(ResolveAll(items)) == CountOpt(items)
    ensures LastIsSplat(ResolveAll(items)) == LastIsSplat(items)
    ensures MinArity(ResolveAll(items)) == MinArity(items)
    ensures MaxArity(ResolveAll(items)) == MaxArity(items)
  {
    if items != [] {
      ResolveKeepsArity(items[..|items| - 1]);
      assert ResolveAll(items)[..|items| - 1] == ResolveAll(items[..|items| - 1]);
    }
  }

  // ---------------------------------------------------------------- defaults

  /** The value a missing optional parameter takes: its default, or Nil. */
  function OptVal(a: Arg): (v: Val)
    ensures a.optVal.Some? ==> v == a.optVal.value
    ensures a.optVal.None? ==> v == Nil
  {
    if a.optVal.Some? then a.optVal.value else Nil
  }

  /** A missing default is Nil, which is never true. */
  lemma MissingDefaultIsFalse(a: Arg)
    requires a.optVal.None?
    ensures OptVal(a).Nil? && !NilType.Bool(OptVal(a))
  {
  }

  /** The arguments completed with defaults: from the first missing position,
      each optional parameter appends its default, up to the first parameter
      that is not optional. */
  function Filled(items: seq<Arg>, args: seq<Val>): seq<Val>
    decreases |items| - |args|
  {
    if |args| >= |items| || items[|args|].argType != ArgOpt then args
    else Filled(items, args + [OptVal(items[|args|])])
  }

  /** One appended position: it lies within the list, its parameter is
      optional and it holds that parameter's default. */
  lemma {:induction false} FilledAt(items: seq<Arg>, args: seq<Val>, k: nat)
    requires |args| <= k < |Filled(items, args)|
    ensures k < |items| && items[k].argType == ArgOpt && Filled(items, args)[k] == OptVal(items[k])
    decreases |items| - |args|
  {
    var args' := args + [OptVal(items[|args|])];
    assert Filled(items, args) == Filled(items, args');
    if k == |args| {
      FilledPrefix(items, args');
      assert Filled(items, args')[k] == Filled(items, args')[..|args'|][k] == args'[k];
    } else {
      FilledAt(items, args', k);
    }
  }

  /** Filling only appends, and never beyond the end of the list. */
  lemma {:induction false} FilledPrefix(items: seq<Arg>, args: seq<Val>)
    ensures |Filled(items, args)| >= |args| && Filled(items, args)[..|args|] == args
    ensures |Filled(items, args)| == |args| || |Filled(items, args)| <= |items|
    decreases |items| - |args|
  {
    if |args| < |items| && items[|args|].argType == ArgOpt {
      var args' := args + [OptVal(items[|args|])];
      FilledPrefix(items, args');
      var r := Filled(items, args');
      assert Filled(items, args) == r;
      assert r[..|args|] == r[..|args'|][..|args|];
    }
  }

  /** Filling stops at the end of the list or at a parameter that is not
      optional. */
  lemma {:induction false} FilledStops(items: seq<Arg>, args: seq<Val>)
    ensures |Filled(items, args)| < |items| ==> items[|Filled(items, args)|].argType != ArgOpt
    decreases |items| - |args|
  {
    if |args| < |items| && items[|args|].argType == ArgOpt {
      FilledStops(items, args + [OptVal(items[|args|])]);
    }
  }

  /** What filling does, completely: the result extends the arguments;
      arguments that cover the list are left alone; every appended value is
      the default of the optional parameter at its position; and filling
      stops at the end of the list or at a parameter that is not optional. */
  lemma FilledShape(items: seq<Arg>, args: seq<Val>)
    ensures |Filled(items, args)| >= |args| && Filled(items, args)[..|args|] == args
    ensures |args| >= |items| ==> Filled(items, args) == args
    ensures forall k :: |args| <= k < |Filled(items, args)| ==>
              k < |items| && items[k].argType == ArgOpt && Filled(items, args)[k] == OptVal(items[k])
    ensures |Filled(items, args)| < |items| ==> items[|Filled(items, args)|].argType != ArgOpt
  {
    FilledPrefix(items, args);
    FilledStops(items, args);
    forall k | |args| <= k < |Filled(items, args)|
      ensures k < |items| && items[k].argType == ArgOpt && Filled(items, args)[k] == OptVal(items[k])
    {
      FilledAt(items, args, k);
    }
  }

  /** For a well-shaped list and an admitted count, filling supplies every
      plain and optional parameter: the result has one value per such
      parameter (or keeps a longer argument list). */
  lemma FillCompletes(items: seq<Arg>, args: seq<Val>, p: nat, q: nat)
    requires p <= q <= |items|
    requires forall i :: 0 <= i < p ==> items[i].argType == ArgPlain
    requires forall i :: p <= i < q ==> items[i].argType == ArgOpt
    requires q == |items| || (q == |items| - 1 && items[q].argType == ArgSplat)
    requires Admits(items, |args|)
    ensures |Filled(items, args)| == if |args| < q then q else |args|
  {
    ArityOfShape(items, p, q);
    FilledShape(items, args);
    var r := Filled(items, args);
    if |args| < q {
      if |r| > |args| {
        var k := |r| - 1;
        var last := r[k];
        assert k < |items| && items[k].argType == ArgOpt && last == OptVal(items[k]);
        assert k < q;
      }
      assert p <= |args| <= |r| <= q;
      if |r| < |items| {
        assert items[|r|].argType != ArgOpt;
      }
    }
  }

  // ---------------------------------------------------------------- binding

  /** The binding the parameter at `i` makes: a variadic parameter collects
      the arguments from `i` on (none when there are fewer), any other takes
      the argument at `i` or, when it is missing, its default. */
  function ParamBinding(items: seq<Arg>, args: seq<Val>, i: nat): (b: Scopes.Binding)
    requires i < |items| && items[i].id.Some?
  {
    var a := items[i];
    if a.argType == ArgSplat then Scopes.Binding(a.id.value, Vec(if i < |args| then args[i..] else []))
    else Scopes.Binding(a.id.value, if i < |args| then args[i] else OptVal(a))
  }

  /** The bindings made for the parameters from index `i` on: anonymous
      parameters bind nothing, and the first named variadic parameter is
      the last to bind. */
  function BindFrom(items: seq<Arg>, args: seq<Val>, i: nat): seq<Scopes.Binding>
    requires i <= |items|
    decreases |items| - i
  {
    if i == |items| then []
    else if items[i].id.None? then BindFrom(items, args, i + 1)
    else if items[i].argType == ArgSplat then [ParamBinding(items, args, i)]
    else [ParamBinding(items, args, i)] + BindFrom(items, args, i + 1)
  }

  /** The bindings a call performs, in order. */
  function Bindings(items: seq<Arg>, args: seq<Val>): seq<Scopes.Binding>
  {
    BindFrom(items, args, 0)
  }

  /** No named variadic parameter stands before index `i`. */
  predicate Reached(items: seq<Arg>, i: nat)
    requires i <= |items|
  {
    forall j :: 0 <= j < i && items[j].id.Some? ==> items[j].argType != ArgSplat
  }

  /** Every named parameter not behind a named variadic one is bound by the
      rule of `ParamBinding`. */
  lemma BindingsComplete(items: seq<Arg>, args: seq<Val>, i: nat)
    requires i < |items| && items[i].id.Some? && Reached(items, i)
    ensures ParamBinding(items, args, i) in Bindings(items, args)
  {
    BindFromComplete(items, args, 0, i);
  }

  lemma {:induction false} BindFromComplete(items: seq<Arg>, args: seq<Val>, k: nat, i: nat)
    requires k <= i < |items| && items[i].id.Some?
    requires forall j :: k <= j < i && items[j].id.Some? ==> items[j].argType != ArgSplat
    ensures ParamBinding(items, args, i) in BindFrom(items, args, k)
    decreases i - k
  {
    if k < i {
      BindFromComplete(items, args, k + 1, i);
    }
  }

  /** Every binding a call performs comes from a named parameter that is not
      behind a named variadic one, by the rule of `ParamBinding`; in
      particular anonymous parameters bind nothing. */
  lemma BindingsSound(items: seq<Arg>, args: seq<Val>, b: Scopes.Binding)
    requires b in Bindings(items, args)
    ensures exists i :: 0 <= i < |items| && items[i].id.Some? && Reached(items, i) && b == ParamBinding(items, args, i)
  {
    var i := BindFromSound(items, args, 0, b);
  }

  lemma {:induction false} BindFromSound(items: seq<Arg>, args: seq<Val>, k: nat, b: Scopes.Binding) returns (i: nat)
    requires k <= |items| && Reached(items, k)
    requires b in BindFrom(items, args, k)
    ensures k <= i < |items| && items[i].id.Some? && Reached(items, i) && b == ParamBinding(items, args, i)
    decreases |items| - k
  {
    if items[k].id.None? {
      i := BindFromSound(items, args, k + 1, b);
    } else if items[k].argType == ArgSplat || b == ParamBinding(items, args, k) {
      i := k;
    } else {
      i := BindFromSound(items, args, k + 1, b);
    }
  }

  /** Binding without a prior fill gives the same bindings as binding after
      one, for any list whose variadic parameter, if any, is last: binding
      applies the defaults itself. */
  lemma FillThenBind(items: seq<Arg>, args: seq<Val>)
    requires forall i :: 0 <= i < |items| - 1 ==> items[i].argType != ArgSplat
    ensures Bindings(items, Filled(items, args)) == Bindings(items, args)
  {
    FillThenBindFrom(items, args, 0);
  }

  lemma {:induction false} FillThenBindFrom(items: seq<Arg>, args: seq<Val>, k: nat)
    requires k <= |items|
    requires forall i :: 0 <= i < |items| - 1 ==> items[i].argType != ArgSplat
    ensures BindFrom(items, Filled(items, args), k) == BindFrom(items, args, k)
    decreases |items| - k
  {
    FilledShape(items, args);
    var r := Filled(items, args);
    if k < |items| {
      FillThenBindFrom(items, args, k + 1);
      if items[k].id.Some? {
        if k < |args| {
          assert r[k] == r[..|args|][k];
        }
        if items[k].argType == ArgSplat && |args| < |items| {
          assert k >= |r|;
        }
        assert ParamBinding(items, r, k) == ParamBinding(items, args, k);
      }
    }
  }
}
