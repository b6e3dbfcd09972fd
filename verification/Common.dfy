/** Types and arithmetic shared by every component. */
module Common {
  datatype Option<+T> = None | Some(value: T)

  datatype Error = TooManyHops | OutOfRange | Truncated | UnknownKind

  datatype Result<+T> = Ok(value: T) | Err(error: Error)

  function Max(a: real, b: real): (r: real)
    ensures r >= a && r >= b && (r == a || r == b)
  {
    if a >= b then a else b
  }

  function Min(a: real, b: real): (r: real)
    ensures r <= a && r <= b && (r == a || r == b)
  {
    if a <= b then a else b
  }

  function Abs(a: real): real {
    if a < 0.0 then -a else a
  }

  /** Python's `max(lo, min(hi, x))`. */
  function Clamp(x: real, lo: real, hi: real): (r: real)
    ensures lo <= r
    ensures lo <= hi ==> r <= hi
  {
    Max(lo, Min(hi, x))
  }

  /** The integers strictly between `lo` and `hi`. */
  function Between(lo: int, hi: int): (r: set<int>)
    ensures forall k :: k in r <==> lo < k < hi
    decreases hi - lo
  {
    if hi <= lo + 1 then {} else Between(lo, hi - 1) + {hi - 1}
  }

  lemma {:induction false} BetweenSize(lo: int, hi: int)
    requires lo < hi
    ensures |Between(lo, hi)| == hi - lo - 1
    decreases hi - lo
  {
    if hi > lo + 1 {
      BetweenSize(lo, hi - 1);
    }
  }
}
