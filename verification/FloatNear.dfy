/** Two ways of rounding a Float to an integer of a range: the daemon's, and the one its fuzzing
  * harness compares it with. */
module FloatNear {
  /** A Float value as its readers see it: a finite number, or one with no integer near it. */
  datatype Float = Finite(value: real) | NaN | PlusInf | MinusInf

  datatype Near = Nearest(n: int) | NoneNear

  function Truncated(d: real): int { if d >= 0.0 then d.Floor else -((-d).Floor) }

  /** The sum with a half, floored by truncating and stepping back from a negative fraction. */
  function FloatNearest(f: Float, lo: int, hi: int): Near {
    if !f.Finite? then NoneNear
    else
      var d := f.value + 0.5;
      if !(d >= lo as real && d < hi as real + 1.0) then NoneNear
      else
        var r := Truncated(d);
        Nearest(if r as real > d then r - 1 else r)
  }

  /** Truncation, moved by one where what it cut off is half or more. */
  function PodNearest(f: Float, lo: int, hi: int): Near {
    match f
    case NaN => NoneNear
    case PlusInf => NoneNear
    case MinusInf => NoneNear
    case Finite(d) =>
      if d < lo as real - 1.0 || d > hi as real + 1.0 then NoneNear
      else
        var t := Truncated(d);
        var frac := d - t as real;
        var r := if frac >= 0.5 then t + 1 else if frac < -0.5 then t - 1 else t;
        if r < lo || r > hi then NoneNear else Nearest(r)
  }

  /** What both are for: the one integer within a half below or equal, strictly within a half
    * above, when it lies in the range. */
  predicate IsNearest(d: real, n: int) { n as real - 0.5 <= d < n as real + 0.5 }

  /** The sum-and-floor reading is the nearest integer, exactly when one lies in the range. */
  lemma FloatNearestCorrect(f: Float, lo: int, hi: int)
    ensures forall n :: FloatNearest(f, lo, hi) == Nearest(n) <==>
              f.Finite? && IsNearest(f.value, n) && lo <= n <= hi
  {
  }

  lemma PodNearestCorrect(f: Float, lo: int, hi: int)
    ensures forall n :: PodNearest(f, lo, hi) == Nearest(n) <==>
              f.Finite? && IsNearest(f.value, n) && lo <= n <= hi
  {
  }

  /** The two readings agree on every value and every range. */
  lemma NearestReadingsAgree(f: Float, lo: int, hi: int)
    ensures FloatNearest(f, lo, hi) == PodNearest(f, lo, hi)
  {
  }
}
