/**
 * The rule by which `moveHandle` (sleap/gui/slider.py) snaps the slider's
 * handle to a mark lying under it.
 */
module HandleSnap {
  /** `moveHandle`'s ordering key `(abs(m - val), m > val)`: `a` sorts no later than `b`. */
  predicate SnapsBefore(a: int, b: int, val: int) {
    var da := if a >= val then a - val else val - a;
    var db := if b >= val then b - val else val - b;
    da < db || (da == db && (a > val ==> b > val))
  }

  /** Mark values strictly inside the handle's footprint. */
  function InHandle(markVals: set<int>, handleLeft: int, handleRight: int): set<int> {
    set x | x in markVals && handleLeft < x < handleRight
  }

  /**
   * The value `moveHandle` settles on: the mark inside the handle closest to
   * `val` (the lower one on a tie), or `val` itself when none is inside.
   */
  predicate IsSnapOf(r: int, val: int, markVals: set<int>, handleLeft: int, handleRight: int) {
    var inside := InHandle(markVals, handleLeft, handleRight);
    if inside == {} then r == val
    else r in inside && forall y :: y in inside ==> SnapsBefore(r, y, val)
  }

  /** The snap target is unique, so the unordered mark set cannot affect the result. */
  lemma SnapUnique(r1: int, r2: int, val: int, markVals: set<int>, handleLeft: int, handleRight: int)
    requires IsSnapOf(r1, val, markVals, handleLeft, handleRight)
    requires IsSnapOf(r2, val, markVals, handleLeft, handleRight)
    ensures r1 == r2
  {
    var inside := InHandle(markVals, handleLeft, handleRight);
    if inside != {} {
      assert SnapsBefore(r1, r2, val) && SnapsBefore(r2, r1, val);
    }
  }
}
