/** Optional values, standing for the `null`/`undefined` cases of the board's
    TypeScript types. */
module Opt {

  datatype Option<+T> = None | Some(value: T) {

    /** The value, or `default` when absent (`x ?? default`). */
    function GetOr(default: T): T {
      match this
      case Some(v) => v
      case None => default
    }
  }

  /** JavaScript truthiness of a `string | null` value: `null` and the
      empty string are both falsy. */
  predicate IsSet(s: Option<string>) {
    s.Some? && s.value != ""
  }
}
