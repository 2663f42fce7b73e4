/** The compiled parameter list of a callable: its parameters with resolved
    names and its arity bounds. It is built once by `Init` and then, at every
    call, checks the argument count, fills missing defaults and binds the
    parameters into a scope. */
module ArgLists {
  import opened Values
  import opened Args
  import Scopes

  /** The loop of `ArgList.Init` over the parameters: resolves every name
      and lowers the count of parameters by one per optional parameter. */
  method ScanParams(args: seq<Arg>) returns (items: seq<Arg>, min: int)
    ensures items == ResolveAll(args)
    ensures min == |args| - CountOpt(args)
  {
    var nargs := |args|;
    items, min := args, nargs;
    var i := 0;
    while i < nargs
      invariant 0 <= i <= nargs && |items| == nargs
      invariant forall k :: 0 <= k < i ==> items[k] == Resolve(args[k])
      invariant forall k :: i <= k < nargs ==> items[k] == args[k]
      invariant min == nargs - CountOpt(args[..i])
    {
      var a := items[i];
      if a.argType == ArgOpt {
        min := min - 1;
      }
      if a.id.None? && |a.strId| > 0 {
        items := items[i := a.(id := Some(a.strId))];
      }
      CountOptStep(args, i);
      i := i + 1;
    }
    assert args[..nargs] == args;
  }

  class ArgList {
    var items: seq<Arg>
    var min: int
    var max: int

    /** The bounds are those of the parameters held. */
    ghost predicate Valid()
      reads this
    {
      min == MinArity(items) && max == MaxArity(items)
    }

    /** The zero list: no parameters, admitting no arguments. */
    constructor ()
      ensures items == [] && min == 0 && max == 0
      ensures Valid()
    {
      items, min, max := [], 0, 0;
    }

    /** Compiles `args`: an empty list leaves the object as it was; otherwise
        the names are resolved and the bounds computed. */
    method Init(args: seq<Arg>)
      modifies this
      ensures |args| == 0 ==> items == old(items) && min == old(min) && max == old(max)
      ensures |args| > 0 ==> items == ResolveAll(args) && min == MinArity(args) && max == MaxArity(args)
      ensures |args| > 0 || old(Valid()) ==> Valid()
    {
      var nargs := |args|;
      if nargs == 0 {
        return;
      }
      items, min := ScanParams(args);
      max := nargs;
      ResolveKeepsArity(args);
      var last := items[nargs - 1];
      if last.argType == ArgSplat {
        min := min - 1;
        max := -1;
      }
    }

    /** The arity check: no error exactly when the argument count lies within
        the bounds; otherwise an arity error carrying the rendered parameter
        list and the arguments. */
    function Check(args: seq<Val>, dumpVal: Val -> Result<string>): (r: Option<Error>)
      reads this
      requires Valid()
      ensures r.None? <==> Admits(items, |args|)
      ensures r.Some? ==> r.value == ArgMismatch(ArgsDump(items, dumpVal), args)
    {
      ArityBounds(items);
      if (min != -1 && |args| < min) || (max != -1 && |args| > max) then
        Some(ArgMismatch(ArgsDump(items, dumpVal), args))
      else
        None
    }

    /** Completes `args` with the defaults of the optional parameters that
        directly follow the supplied arguments. */
    method Fill(args: seq<Val>) returns (r: seq<Val>)
      ensures r == Filled(items, args)
    {
      r := args;
      var i := |args|;
      while i < |items|
        invariant i == |r|
        invariant Filled(items, r) == Filled(items, args)
        decreases |items| - i
      {
        var a := items[i];
        if a.argType != ArgOpt {
          break;
        }
        r := r + [OptVal(a)];
        i := i + 1;
      }
    }

    /** Binds every parameter in `env`, in order, stopping at the first
        refused binding; the scope ends up as performing `Bindings(items,
        args)` one by one leaves it, and the error is the first refusal. */
    method LetVars(env: Scopes.Env, args: seq<Val>) returns (e: Option<Error>)
      modifies env
      ensures (e, env.vars) == Scopes.LetAll(env.refuse, old(env.vars), Bindings(items, args))
    {
      var nargs := |args|;
      var i := 0;
      e := None;
      while i < |items|
        invariant 0 <= i <= |items| && e.None?
        invariant Scopes.LetAll(env.refuse, old(env.vars), Bindings(items, args))
                  == Scopes.LetAll(env.refuse, env.vars, BindFrom(items, args, i))
        decreases |items| - i
      {
        var a := items[i];
        if a.id.None? {
          i := i + 1;
          continue;
        }
        if a.argType == ArgSplat {
          var rest := if i < nargs then args[i..] else [];
          e := env.Let(a.id.value, Vec(rest));
          return;
        }
        var v := if i < nargs then args[i] else OptVal(a);
        e := env.Let(a.id.value, v);
        if e.Some? {
          return;
        }
        i := i + 1;
      }
    }
  }
}
