/** Optional values: JavaScript's `null`/`undefined` versus a present value. */
module Wrappers {

  datatype Option<+T> = None | Some(value: T) {

    /** The value, or `default` when absent. */
    function GetOr(default: T): T {
      match this
      case Some(v) => v
      case None => default
    }
  }

  /** JavaScript truthiness of an optional string: present and non-empty. */
  predicate Truthy(s: Option<string>) {
    s.Some? && s.value != ""
  }

  /**
   * Template-literal rendering of an optional string: a missing value prints
   * as `undefined`, as an unset property does (a property set to `null`
   * prints as `null`, which `Option` does not tell apart).
   */
  function OrUndefined(s: Option<string>): string {
    s.GetOr("undefined")
  }
}
