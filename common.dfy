/** Small value types shared by every module of the model. */
module Common {

  /** Python's `None` or a value. */
  datatype Option<T> = None | Some(value: T) {
    function GetOr(default: T): T {
      match this
      case Some(v) => v
      case None => default
    }
  }

  /** A Python exception, reduced to its class name and message. */
  datatype Exception = Exception(kind: string, message: string)

  /** The outcome of a call that either returns a value or raises. */
  datatype Result<T> = Success(value: T) | Failure(error: Exception)

  /** A sequence of length two is the display of its two elements. */
  lemma TwoElements<T>(r: seq<T>, a: T, b: T)
    requires |r| == 2 && r[0] == a && r[1] == b
    ensures r == [a, b]
  {
  }

  /** `s.endswith(suffix)` */
  predicate EndsWith(s: string, suffix: string) {
    |suffix| <= |s| && s[|s| - |suffix|..] == suffix
  }
}
