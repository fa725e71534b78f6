/** Values shared by every component: optional values, results, and Terraform attributes. */
module Wrappers {
  datatype Option<+T> = None | Some(value: T) {
    function GetOr(default: T): T {
      if Some? then value else default
    }
  }

  datatype Result<+T, +E> = Success(value: T) | Failure(error: E)

  /** A Terraform attribute: absent, not yet known, or holding a value. */
  datatype Attribute<+T> = Null | Unknown | Known(value: T) {
    predicate HasValue() {
      Known?
    }

    function GetOr(default: T): T {
      if Known? then value else default
    }
  }

  predicate UnknownOrEmpty(a: Attribute<string>) {
    !a.HasValue() || a.value == ""
  }
}
