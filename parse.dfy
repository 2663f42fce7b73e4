/** Parsing a callable's raw parameter forms into parameter descriptors.
    Defaults of optional parameters are evaluated here, once, by the
    interpreter's evaluator in the defining scope (a parameter of the model). */
module Parse {
  import opened Values
  import opened Args
  import Scopes
  import NilType

  /** The descriptor one raw form yields (see `ParseOneClassifies`). */
  function ParseOne(v: Val, eval: Val -> Result<Val>): Result<Arg>
  {
    match v
    case Nil => Ok(Arg(ArgPlain, "", None, None))
    case Sym(n) => Ok(Arg(ArgPlain, "", Some(n), None))
    case Vec(vv) =>
      if |vv| < 2 || !vv[0].Sym? then Err(InvalidArg(v))
      else (match eval(vv[1])
            case Err(e) => Err(e)
            case Ok(d) => Ok(Arg(ArgOpt, "", Some(vv[0].name), Some(d))))
    case Splat(inner) => if inner.Sym? then Ok(Arg(ArgSplat, "", Some(inner.name), None)) else Err(InvalidArg(v))
    case Other(_) => Err(InvalidArg(v))
  }

  /** How one form is classified: Nil is an anonymous plain parameter, a
      symbol a named plain one, a vector `(name default ...)` an optional one
      whose default is evaluated now, a splat around a symbol a variadic one.
      Anything else is an invalid argument, and so is a vector shorter than
      two, a vector whose head is not a symbol, or a splat whose inner value is
      not a symbol. An error from evaluating the default is passed on. */
  lemma ParseOneClassifies(v: Val, eval: Val -> Result<Val>)
    ensures var r := ParseOne(v, eval);
            r.Ok? ==> r.value.strId == "" && (r.value.id.None? <==> v.Nil?) &&
                      (r.value.argType == ArgOpt <==> v.Vec?) && (r.value.argType == ArgSplat <==> v.Splat?) &&
                      (r.value.optVal.Some? <==> v.Vec?)
    ensures var r := ParseOne(v, eval);
            (v.Nil? || v.Sym? ==> r.Ok? && r.value.argType == ArgPlain) &&
            (v.Sym? ==> r.value.id == Some(v.name))
    ensures var r := ParseOne(v, eval);
            v.Vec? ==> (r.Ok? <==> |v.elems| >= 2 && v.elems[0].Sym? && eval(v.elems[1]).Ok?) &&
                       (r.Ok? ==> r.value.id == Some(v.elems[0].name) && r.value.optVal == Some(eval(v.elems[1]).value))
    ensures var r := ParseOne(v, eval);
            v.Splat? ==> (r.Ok? <==> v.inner.Sym?) && (r.Ok? ==> r.value.id == Some(v.inner.name))
    ensures var r := ParseOne(v, eval);
            r.Err? ==> r.error == if v.Vec? && |v.elems| >= 2 && v.elems[0].Sym? then eval(v.elems[1]).error
                                  else InvalidArg(v)
  {
  }

  /** Parses the forms in order; the first failing form aborts the parse. */
  function ParseAll(input: seq<Val>, eval: Val -> Result<Val>): Result<seq<Arg>>
  {
    if input == [] then Ok([])
    else match ParseOne(input[0], eval)
      case Err(e) => Err(e)
      case Ok(a) => Prepend([a], ParseAll(input[1..], eval))
  }

  function Prepend(out: seq<Arg>, r: Result<seq<Arg>>): Result<seq<Arg>>
  {
    match r
    case Ok(rest) => Ok(out + rest)
    case Err(e) => Err(e)
  }

  /** Builds the descriptors form by form, returning at the first error
      without any descriptors. */
  method ParseArgs(input: seq<Val>, eval: Val -> Result<Val>) returns (r: Result<seq<Arg>>)
    ensures r == ParseAll(input, eval)
  {
    var out: seq<Arg> := [];
    var i := 0;
    assert input[0..] == input;
    if ParseAll(input, eval).Ok? {
      assert [] + ParseAll(input, eval).value == ParseAll(input, eval).value;
    }
    while i < |input|
      invariant 0 <= i <= |input|
      invariant ParseAll(input, eval) == Prepend(out, ParseAll(input[i..], eval))
    {
      var v := input[i];
      assert input[i..][0] == v && input[i..][1..] == input[i + 1..];
      var a := Arg(ArgPlain, "", None, None);
      if v == Nil {
      } else if v.Sym? {
        a := a.(id := Some(v.name));
      } else if v.Vec? {
        if |v.elems| < 2 || !v.elems[0].Sym? {
          assert ParseOne(v, eval) == Err(InvalidArg(v));
          return Err(InvalidArg(v));
        }
        a := a.(argType := ArgOpt, id := Some(v.elems[0].name));
        var d := eval(v.elems[1]);
        if d.Err? {
          assert ParseOne(v, eval) == Err(d.error);
          return Err(d.error);
        }
        a := a.(optVal := Some(d.value));
      } else if v.Splat? {
        if !v.inner.Sym? {
          assert ParseOne(v, eval) == Err(InvalidArg(v));
          return Err(InvalidArg(v));
        }
        a := a.(argType := ArgSplat, id := Some(v.inner.name));
      } else {
        assert ParseOne(v, eval) == Err(InvalidArg(v));
        return Err(InvalidArg(v));
      }
      assert ParseOne(v, eval) == Ok(a);
      if ParseAll(input[i + 1..], eval).Ok? {
        var rest := ParseAll(input[i + 1..], eval).value;
        assert out + ([a] + rest) == (out + [a]) + rest;
      }
      out := out + [a];
      i := i + 1;
    }
    assert input[i..] == [] && out + [] == out;
    r := Ok(out);
  }

  /** The parse succeeds exactly when every form is valid; then it yields
      one descriptor per form, in order. When it fails, the error is that of
      the first invalid form. */
  lemma {:induction false} ParseAllSpec(input: seq<Val>, eval: Val -> Result<Val>)
    ensures ParseAll(input, eval).Ok? <==> forall i :: 0 <= i < |input| ==> ParseOne(input[i], eval).Ok?
    ensures ParseAll(input, eval).Ok? ==>
              var out := ParseAll(input, eval).value;
              |out| == |input| && forall i :: 0 <= i < |input| ==> ParseOne(input[i], eval) == Ok(out[i])
    ensures ParseAll(input, eval).Err? ==>
              exists i :: 0 <= i < |input| && (forall j :: 0 <= j < i ==> ParseOne(input[j], eval).Ok?) &&
                          ParseOne(input[i], eval) == Err(ParseAll(input, eval).error)
  {
    if input != [] {
      ParseAllSpec(input[1..], eval);
      forall i | 1 <= i < |input|
        ensures input[1..][i - 1] == input[i]
      {
      }
      var r := ParseAll(input, eval);
      if ParseOne(input[0], eval).Ok? && ParseAll(input[1..], eval).Err? {
        var i :| 0 <= i < |input[1..]| && (forall j :: 0 <= j < i ==> ParseOne(input[1..][j], eval).Ok?) &&
                 ParseOne(input[1..][i], eval) == Err(ParseAll(input[1..], eval).error);
        assert forall j :: 0 <= j < i + 1 ==> ParseOne(input[j], eval).Ok? by {
          forall j | 1 <= j < i + 1
            ensures ParseOne(input[j], eval).Ok?
          {
            assert input[j] == input[1..][j - 1];
          }
        }
        assert ParseOne(input[i + 1], eval) == Err(r.error);
      }
    }
  }

  /** Nil as a parameter form: an anonymous plain parameter that keeps no
      name through compilation, binds nothing, and renders as `n/a` (not as
      Nil's own `_`). */
  lemma NilIsAnonymous(eval: Val -> Result<Val>, args: seq<Val>, dumpVal: Val -> Result<string>)
    ensures ParseOne(Nil, eval) == Ok(A(""))
    ensures Resolve(A("")) == A("")
    ensures Bindings([A("")], args) == []
    ensures ArgDump(A(""), dumpVal).0 == "n/a" && NilType.Dump(Nil) == "_"
  {
  }

  // ------------------------------------------------------------ worked calls

  /** A self-evaluating default evaluator. */
  function SelfEval(v: Val): Result<Val>
  {
    Ok(v)
  }

  function NeverRefuse(vars: map<string, Val>, name: string, v: Val): Option<Error>
  {
    None
  }

  /** The forms `(a (b 1) c..)`. */
  function SampleForms(): seq<Val>
  {
    [Sym("a"), Vec([Sym("b"), Other(1)]), Splat(Sym("c"))]
  }

  /** Calling `(a (b 1) c..)` with one argument binds `a` to it, `b` to its
      default and `c` to the empty vector; with four arguments `b` takes the
      second and `c` collects the last two. */
  lemma {:induction false} SampleCalls()
    ensures ParseAll(SampleForms(), SelfEval).Ok?
    ensures var items := ResolveAll(ParseAll(SampleForms(), SelfEval).value);
            MinArity(items) == 1 && MaxArity(items) == -1 &&
            Scopes.LetAll(NeverRefuse, map[], Bindings(items, [Other(10)])).1
              == map["a" := Other(10), "b" := Other(1), "c" := Vec([])] &&
            Scopes.LetAll(NeverRefuse, map[], Bindings(items, [Other(10), Other(20), Other(30), Other(40)])).1
              == map["a" := Other(10), "b" := Other(20), "c" := Vec([Other(30), Other(40)])]
  {
    var forms := SampleForms();
    assert forms[1..] == [Vec([Sym("b"), Other(1)]), Splat(Sym("c"))];
    assert forms[1..][1..] == [Splat(Sym("c"))];
    assert forms[1..][1..][1..] == [];
    var items := [Arg(ArgPlain, "", Some("a"), None), Arg(ArgOpt, "", Some("b"), Some(Other(1))),
                  Arg(ArgSplat, "", Some("c"), None)];
    assert SelfEval(Other(1)) == Ok(Other(1));
    assert ParseOne(forms[2], SelfEval) == Ok(items[2]);
    assert ParseOne(forms[1], SelfEval) == Ok(items[1]);
    assert ParseOne(forms[0], SelfEval) == Ok(items[0]);
    assert ParseAll(forms[1..][1..][1..], SelfEval) == Ok([]);
    assert [items[2]] + [] == [items[2]];
    assert [items[1]] + [items[2]] == [items[1], items[2]];
    assert [items[0]] + [items[1], items[2]] == items;
    assert ParseAll(forms[1..][1..], SelfEval) == Ok([items[2]]);
    assert ParseAll(forms[1..], SelfEval) == Ok([items[1], items[2]]);
    assert ParseAll(forms, SelfEval) == Ok(items);
    assert ResolveAll(items) == items;
    assert items[..2][..1] == items[..1];
    assert items[..1][..0] == [];
    assert CountOpt(items) == 1 by {
      assert items[..2] == items[..|items| - 1];
      assert CountOpt(items[..1]) == 0;
    }
    var four := [Other(10), Other(20), Other(30), Other(40)];
    assert four[2..] == [Other(30), Other(40)];
  }

  /** A bare number among the forms is an invalid argument and yields no
      descriptors. */
  lemma NumberIsInvalid()
    ensures ParseAll([Sym("a"), Other(5)], SelfEval) == Err(InvalidArg(Other(5)))
  {
    assert [Sym("a"), Other(5)][1..] == [Other(5)];
  }

  // -------------------------------------------------------- variadic position

  /** A parameter after a variadic one is admitted by parsing and counted by
      the arity, yet never bound: `(a.. b)` called with two arguments passes
      the arity check, and only `a` is bound, to both arguments. */
  lemma {:induction false} ParameterAfterVariadicIsUnbound(x: Val, y: Val)
    ensures var items := ResolveAll(ParseAll([Splat(Sym("a")), Sym("b")], SelfEval).value);
            Admits(items, 2) && Bindings(items, [x, y]) == [Scopes.Binding("a", Vec([x, y]))]
  {
    var forms := [Splat(Sym("a")), Sym("b")];
    assert forms[1..] == [Sym("b")];
    assert forms[1..][1..] == [];
    var items := [Arg(ArgSplat, "", Some("a"), None), Arg(ArgPlain, "", Some("b"), None)];
    assert ParseOne(forms[1], SelfEval) == Ok(items[1]);
    assert ParseOne(forms[0], SelfEval) == Ok(items[0]);
    assert ParseAll(forms[1..][1..], SelfEval) == Ok([]);
    assert [items[1]] + [] == [items[1]];
    assert [items[0]] + [items[1]] == items;
    assert ParseAll(forms[1..], SelfEval) == Ok([items[1]]);
    assert ParseAll(forms, SelfEval) == Ok(items);
    assert ResolveAll(items) == items;
    assert items[..1][..0] == [];
    assert CountOpt(items) == 0 by {
      assert items[..|items| - 1] == items[..1];
    }
    assert [x, y][0..] == [x, y];
  }

  /** The index of the first variadic parameter that is not last, if any. */
  function EarlySplat(items: seq<Arg>, k: nat): (r: Option<nat>)
    requires k <= |items|
    ensures r.Some? ==> k <= r.value < |items| - 1 && items[r.value].argType == ArgSplat
    ensures r.None? ==> forall i :: k <= i < |items| - 1 ==> items[i].argType != ArgSplat
    decreases |items| - k
  {
    if k >= |items| - 1 then None
    else if items[k].argType == ArgSplat then Some(k)
    else EarlySplat(items, k + 1)
  }

  /** Parsing that also refuses a variadic parameter in any but the last
      position, naming the offending form. */
  function ParseArgsChecked(input: seq<Val>, eval: Val -> Result<Val>): (r: Result<seq<Arg>>)
    ensures r.Ok? ==> ParseAll(input, eval) == r
    ensures r.Ok? ==> forall i :: 0 <= i < |r.value| - 1 ==> r.value[i].argType != ArgSplat
    ensures ParseAll(input, eval).Ok? && r.Err? ==>
              exists i :: 0 <= i < |input| - 1 && input[i].Splat? && r.error == InvalidArg(input[i])
    ensures ParseAll(input, eval).Err? ==> r == ParseAll(input, eval)
  {
    match ParseAll(input, eval)
    case Err(e) => Err(e)
    case Ok(out) =>
      ParseAllSpec(input, eval);
      match EarlySplat(out, 0)
      case Some(i) => Err(InvalidArg(input[i]))
      case None => Ok(out)
  }

  /** With the position check, every named parameter of a parsed list is
      bound at each call, and binding agrees with filling first. */
  lemma CheckedParseBindsEveryName(input: seq<Val>, eval: Val -> Result<Val>, args: seq<Val>)
    requires ParseArgsChecked(input, eval).Ok?
    ensures var items := ResolveAll(ParseArgsChecked(input, eval).value);
            (forall i :: 0 <= i < |items| && items[i].id.Some? ==> ParamBinding(items, args, i) in Bindings(items, args)) &&
            Bindings(items, Filled(items, args)) == Bindings(items, args)
  {
    var out := ParseArgsChecked(input, eval).value;
    var items := ResolveAll(out);
    assert EarlySplat(out, 0).None?;
    assert forall i :: 0 <= i < |items| - 1 ==> items[i].argType != ArgSplat;
    forall i | 0 <= i < |items| && items[i].id.Some?
      ensures ParamBinding(items, args, i) in Bindings(items, args)
    {
      BindingsComplete(items, args, i);
    }
    FillThenBind(items, args);
  }
}
