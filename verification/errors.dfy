/** Failure-carrying datatypes shared by every part of the rule compiler.

    The PHP code signals failures by throwing; here a thrown exception is an
    `Err` value that the caller propagates with `:-`.
 */
module Errors {

  /** A value that may be missing (PHP's `null`). */
  datatype Option<+T> = None | Some(value: T)

  /** The ways rule compilation can stop. */
  datatype Error =
      /** `CompiledRuleSet::register` was called twice for the same path. */
    | DuplicateKey(key: string)
      /** A built-in type name that the type-to-rule table has no entry for
          (`null`, `iterable`, ...); PHP reports an undefined array key. */
    | UnsupportedBuiltin(name: string)
      /** A union type one of whose members is a transfer request; its rule
          set cannot be spliced into the union's flat token list. */
    | NestedInUnion
      /** A property declared without a type: `getRuleSet` calls
          `allowsNull()` on a missing reflection type. */
    | MissingType(field: string)

  /** Either a computed value or the error that stopped the computation. */
  datatype Result<+T> = Ok(value: T) | Err(error: Error) {

    predicate IsFailure() {
      Err?
    }

    function PropagateFailure<U>(): Result<U>
      requires Err?
    {
      Err(error)
    }

    function Extract(): T
      requires Ok?
    {
      value
    }
  }
}
