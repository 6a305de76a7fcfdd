/** Failure-compatible result type and the error conditions the scanners can raise. */
module Results {

  /** The ways processing a source file can fail. Each one is an uncaught Python exception. */
  datatype Error =
    /** `yaml.load` raised on the fenced fragment text. */
    | MalformedFragment(text: string)
    /** `key in a_dbt` or `a_dbt[key]` raised TypeError because the fragment is not a mapping. */
    | FragmentTypeError(key: string)
    /** The header regex did not match a construct block, so `rr.group(1)` raised. */
    | MalformedHeader(block: string)

  datatype Option<+T> = None | Some(value: T)

  datatype Result<+T> = Ok(value: T) | Err(error: Error) {

    predicate IsFailure() {
      Err?
    }

    function PropagateFailure<U>(): Result<U>
      requires Err?
    {
      Err(error)
    }

    function Extract(): T
      requires Ok?
    {
      value
    }
  }
}
