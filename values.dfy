/** Runtime values of the g-fu interpreter, as far as the calling convention sees them.

    Only the variants the calling convention inspects are distinguished: the
    canonical Nil, symbols, vectors and splat wrappers. Every other kind of
    value (numbers, strings, procedures, ...) is an `Other` value, told apart
    by an opaque reference. Symbols are interned by the interpreter, so two
    symbols are the same object exactly when their names are equal; the model
    therefore identifies a symbol by its name.
 */
module Values {

  datatype Val =
    | Nil
    | Sym(name: string)
    | Vec(elems: seq<Val>)
    | Splat(inner: Val)
    | Other(ref: nat)

  /** Errors are values returned beside results. The kinds raised by the
      calling convention itself are named; errors raised by collaborators
      (evaluation, dumping, scope binding) are passed through as `Raised`.
      An arity error carries the rendered formal list and the actual arguments. */
  datatype Error =
    | ArgMismatch(formals: string, actual: seq<Val>)
    | InvalidArg(form: Val)
    | NilCall
    | Raised(code: nat)

  datatype Result<T> = Ok(value: T) | Err(error: Error)

  datatype Option<T> = None | Some(value: T)
}
