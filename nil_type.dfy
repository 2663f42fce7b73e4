/** The Nil variant: the vacuous value. It is never true, cannot be called,
    dumps as `_` and contributes nothing when spread into a sequence. */
module NilType {
  import opened Values

  /** Truthiness of Nil. */
  function Bool(v: Val): (b: bool)
    requires v.Nil?
    ensures !b
  {
    false
  }

  /** Calling Nil always fails. */
  function Call(v: Val, args: seq<Val>): (r: Result<Val>)
    requires v.Nil?
    ensures r.Err? && r.error == NilCall
  {
    Err(NilCall)
  }

  /** Nil renders as a single underscore. */
  function Dump(v: Val): (s: string)
    requires v.Nil?
    ensures s == "_"
  {
    "_"
  }

  /** Spreading Nil adds nothing to the output. */
  function Splat(v: Val, out: seq<Val>): (r: seq<Val>)
    requires v.Nil?
    ensures r == out
  {
    out
  }
}
