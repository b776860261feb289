/**
 * Shared definitions: the optional value used for missing table items, absent JSON keys and
 * failed lookups, and the smaller of two counts.
 */
module Wrappers {

  function Min(a: nat, b: nat): nat {
    if a <= b then a else b
  }

  datatype Option<+T> = None | Some(value: T) {

    function GetOr(default: T): T {
      match this
      case Some(v) => v
      case None => default
    }
  }
}
