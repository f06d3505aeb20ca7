/** Small value types shared by every module: optional values, results with
    an error, bytes, and the scalar helpers the C# code takes from `Math` /
    `MathF` (`Abs`, `Min`, `Max`, `Sign`, `Clamp`, `Clamp01`). */
module Base {

  /** A value that may be absent: the model of a nullable C# reference. */
  datatype Option<+T> = None | Some(value: T) {
    function GetOr(default: T): T {
      match this
      case Some(v) => v
      case None => default
    }
  }

  /** The outcome of an operation that the C# code lets throw. */
  datatype Result<+T, +E> = Ok(value: T) | Err(error: E)

  newtype byte = x: int | 0 <= x < 256

  function Abs(x: real): real {
    if x < 0.0 then -x else x
  }

  function Min(a: real, b: real): real {
    if a <= b then a else b
  }

  function Max(a: real, b: real): real {
    if a >= b then a else b
  }

  /** `Math.Sign` on a float: -1, 0 or 1. */
  function Sign(x: real): real {
    if x < 0.0 then -1.0 else if x > 0.0 then 1.0 else 0.0
  }

  /** `MathF.Clamp(value, min, max)`: the lower bound is tested first. */
  function Clamp(value: real, lo: real, hi: real): (r: real)
    ensures lo <= hi ==> lo <= r <= hi
    ensures lo <= value <= hi ==> r == value
  {
    if value < lo then lo else if value > hi then hi else value
  }

  function Clamp01(value: real): (r: real)
    ensures 0.0 <= r <= 1.0
    ensures 0.0 <= value <= 1.0 ==> r == value
  {
    Clamp(value, 0.0, 1.0)
  }
}
