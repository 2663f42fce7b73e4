/** The splat wrapper: a value that marks "spread me into the surrounding
    sequence". A splat owns exactly one inner value; evaluation and quoting
    work on the inner value and wrap the result again.

    The inner value's own operations (its Eval, Quote, Is and Dump, and a
    vector's own Splat) belong to other variants and are passed in as
    functions. */
module Splats {
  import Values

  type Val = Values.Val

  /** Wraps exactly `v`. */
  function NewSplat(v: Val): (s: Val)
    ensures s.Splat? && s.inner == v
  {
    Values.Splat(v)
  }

  /** Calling a splat yields the splat itself. */
  function Call(s: Val, args: seq<Val>): (r: Values.Result<Val>)
    requires s.Splat?
    ensures r.Ok? && r.value == s
  {
    Values.Ok(s)
  }

  /** The inner value's dump followed by the marker `..`. */
  function Dump(s: Val, dumpInner: Val -> string): (text: string)
    requires s.Splat?
    ensures |text| >= 2 && text[|text| - 2..] == ".."
    ensures text[..|text| - 2] == dumpInner(s.inner)
  {
    dumpInner(s.inner) + ".."
  }

  /** Equality of a splat: the inner values compared with the inner value's
      own identity test. A right-hand side that is not a splat is unequal. */
  function Eq(s: Val, rhs: Val, innerIs: (Val, Val) -> bool): (r: bool)
    requires s.Splat?
    ensures r ==> rhs.Splat?
    ensures rhs.Splat? ==> (r <==> innerIs(s.inner, rhs.inner))
  {
    rhs.Splat? && innerIs(s.inner, rhs.inner)
  }

  /** Identity of a splat: the wrappers themselves are compared. */
  function Is(s: Val, rhs: Val): (r: bool)
    requires s.Splat?
    ensures r <==> rhs.Splat? && rhs.inner == s.inner
  {
    s == rhs
  }

  /** Evaluates the inner value and wraps the result; an error is passed on
      and no value is produced. */
  function Eval(s: Val, evalInner: Val -> Values.Result<Val>): (r: Values.Result<Val>)
    requires s.Splat?
    ensures r.Err? <==> evalInner(s.inner).Err?
    ensures r.Err? ==> r.error == evalInner(s.inner).error
    ensures r.Ok? ==> r.value.Splat? && r.value.inner == evalInner(s.inner).value
  {
    match evalInner(s.inner)
    case Err(e) => Values.Err(e)
    case Ok(v) => Values.Ok(NewSplat(v))
  }

  /** Quotes the inner value and wraps the result; an error is passed on and
      no value is produced. */
  function Quote(s: Val, quoteInner: Val -> Values.Result<Val>): (r: Values.Result<Val>)
    requires s.Splat?
    ensures r.Err? <==> quoteInner(s.inner).Err?
    ensures r.Err? ==> r.error == quoteInner(s.inner).error
    ensures r.Ok? ==> r.value.Splat? && r.value.inner == quoteInner(s.inner).value
  {
    match quoteInner(s.inner)
    case Err(e) => Values.Err(e)
    case Ok(v) => Values.Ok(NewSplat(v))
  }

  /** Spreads a splat into `out`: a wrapped vector is spread by the vector's
      own rule; any other wrapped value leaves the wrapper itself as one item. */
  function Splat(s: Val, out: seq<Val>, vecSplat: (seq<Val>, seq<Val>) -> seq<Val>): (r: seq<Val>)
    requires s.Splat?
    ensures !s.inner.Vec? ==> |r| == |out| + 1 && r[..|out|] == out && r[|out|] == s
    ensures s.inner.Vec? ==> r == vecSplat(s.inner.elems, out)
  {
    if !s.inner.Vec? then out + [s] else vecSplat(s.inner.elems, out)
  }

  /** Identity is reflexive and symmetric on splats. */
  lemma IsEquivalence(s: Val, t: Val)
    requires s.Splat? && t.Splat?
    ensures Is(s, s)
    ensures Is(s, t) <==> Is(t, s)
  {
  }

  /** Equality and identity differ: equality consults the inner value's own
      identity test. Identity implies equality whenever that test is
      reflexive on the inner value, and the two coincide exactly when the
      inner test is plain identity. */
  lemma EqVersusIs(s: Val, rhs: Val, innerIs: (Val, Val) -> bool)
    requires s.Splat?
    ensures Is(s, rhs) && innerIs(s.inner, s.inner) ==> Eq(s, rhs, innerIs)
    ensures (forall a, b :: innerIs(a, b) <==> a == b) ==> (Eq(s, rhs, innerIs) <==> Is(s, rhs))
  {
  }

  /** A concrete pair on which equality and identity disagree: an inner
      identity test that relates two distinct inner values makes their splats
      equal but not identical. */
  lemma EqIsAsymmetric()
    ensures var s, t, same := NewSplat(Values.Other(1)), NewSplat(Values.Other(2)), (a: Val, b: Val) => true;
            Eq(s, t, same) && !Is(s, t)
  {
  }

  /** Wrapping Nil in a splat does not elide it: Nil spread alone adds nothing,
      but a splat around Nil is kept as one item. */
  lemma SplatOfNilIsKept(out: seq<Val>, vecSplat: (seq<Val>, seq<Val>) -> seq<Val>)
    ensures Splat(NewSplat(Values.Nil), out, vecSplat) == out + [NewSplat(Values.Nil)]
  {
  }

  /** Evaluating an evaluated splat still yields a single wrapper, around the
      inner value evaluated twice: the marker is carried, never nested. */
  lemma EvalTwiceWrapsOnce(s: Val, evalInner: Val -> Values.Result<Val>)
    requires s.Splat?
    requires Eval(s, evalInner).Ok?
    ensures var t := Eval(s, evalInner).value;
            Eval(t, evalInner) == match evalInner(evalInner(s.inner).value)
                                  case Err(e) => Values.Err(e)
                                  case Ok(v) => Values.Ok(Values.Splat(v))
  {
  }
}
