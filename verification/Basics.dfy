// Shared vocabulary: optional values and results of operations that may raise.

module Basics {
  datatype Option<+T> = None | Some(value: T) {
    function GetOr(default: T): T {
      match this
      case None => default
      case Some(v) => v
    }
  }

  /** The error classes of errors.py that the modelled operations raise. */
  datatype ErrorType = Forbidden | NotReady | NotFound | InvalidParameter | Internal | Timeout | BadValue

  datatype Result<+T> = Ok(value: T) | Err(error: ErrorType)

  /** No element occurs at two positions. */
  ghost predicate Distinct<T>(s: seq<T>) {
    forall i, j :: 0 <= i < j < |s| ==> s[i] != s[j]
  }

  lemma StillDistinct<T>(s: seq<T>, k: nat, x: T)
    requires k <= |s| && Distinct(s) && x !in s
    ensures Distinct(s[..k] + [x] + s[k..])
  {
  }
}
