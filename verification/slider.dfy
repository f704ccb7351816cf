/**
 * The variable slider (`Slider.cpp`): a value with a range. Touching the bar
 * sets the value from the touch position and clamps it into the range;
 * `SetRange` stores the bounds in increasing order. The screen-to-value
 * mapping `Interpolate` is left uninterpreted and passed in.
 */
module SliderControl {
  import opened Numeric

  datatype Slider = Slider(value: real, min: real, max: real) {

    predicate InRange() {
      min <= value <= max
    }
  }

  /** `Interpolate(x, x0, x1, y0, y1)`: maps `x` from `[x0, x1]` onto `[y0, y1]`. */
  type Interpolation = (real, real, real, real, real) -> real

  /** The default constructor: value 0 on the range 0 to 1. */
  function DefaultSlider(): (s: Slider)
    ensures s.value == 0.0 && s.min == 0.0 && s.max == 1.0
    ensures s.InRange()
  {
    Slider(0.0, 0.0, 1.0)
  }

  /** The `(min, max)` constructor: the value starts at `min`; the bounds are kept as given, even reversed. */
  function RangeSlider(min: real, max: real): (s: Slider)
    ensures s.value == s.min == min && s.max == max
    ensures s.InRange() <==> min <= max
  {
    Slider(min, min, max)
  }

  /**
   * What a touch does to the slider, given the interpolated value `raw`: the
   * bounds stay, and `raw` is kept when inside them, replaced by `min` when
   * below, and otherwise by `max` when above.
   */
  predicate ClampedTo(s: Slider, s': Slider, raw: real) {
    s'.min == s.min && s'.max == s.max &&
    (s.min <= raw <= s.max ==> s'.value == raw) &&
    (raw < s.min ==> s'.value == s.min) &&
    (s.min <= raw && s.max < raw ==> s'.value == s.max)
  }

  /** The value interpolated from the touch column `x` across the bar: columns 1 to `width - 2`, `width` as last drawn. */
  function Raw(s: Slider, x: int, width: int, interpolate: Interpolation): real {
    interpolate(x as real, 1.0, (width - 2) as real, s.min, s.max)
  }

  /**
   * `TouchingAnywhere`: the value is interpolated from the touch column, then
   * clamped: below `min` becomes `min`, otherwise above `max` becomes `max`.
   * The touch row `y` is ignored.
   */
  function TouchingAnywhere(s: Slider, x: int, y: int, width: int, interpolate: Interpolation): (s': Slider)
    ensures ClampedTo(s, s', Raw(s, x, width, interpolate))
    ensures s.min <= s.max ==> s'.InRange()
  {
    s.(value := Clamp(Raw(s, x, width, interpolate), s.min, s.max))
  }

  /** A touch that starts inside the bar: the base-class bookkeeping (not modelled), then the clamp. */
  function TouchingInside(s: Slider, x: int, y: int, width: int, interpolate: Interpolation): (s': Slider)
    ensures ClampedTo(s, s', Raw(s, x, width, interpolate))
    ensures s.min <= s.max ==> s'.InRange()
  {
    TouchingAnywhere(s, x, y, width, interpolate)
  }

  /** A drag that has left the bar: the base-class bookkeeping (not modelled), then the same clamp. */
  function TouchingOutside(s: Slider, x: int, y: int, width: int, interpolate: Interpolation): (s': Slider)
    ensures ClampedTo(s, s', Raw(s, x, width, interpolate))
    ensures s.min <= s.max ==> s'.InRange()
  {
    TouchingAnywhere(s, x, y, width, interpolate)
  }

  /**
   * Touching twice at the same place gives the same value as touching once,
   * whatever the bounds: a touch never reads the old value.
   */
  lemma TouchIdempotent(s: Slider, x: int, y: int, width: int, interpolate: Interpolation)
    ensures var t := TouchingAnywhere(s, x, y, width, interpolate);
            TouchingAnywhere(t, x, y, width, interpolate) == t
  {
  }

  /** The result of a touch depends on the bounds and the column only, not on the old value or the row. */
  lemma TouchForgetsValue(s: Slider, v: real, x: int, y: int, y': int, width: int, interpolate: Interpolation)
    ensures TouchingAnywhere(s.(value := v), x, y', width, interpolate) == TouchingAnywhere(s, x, y, width, interpolate)
  {
  }

  /** `SetRange`: the two bounds in increasing order; the value is not touched, so it may now lie outside. */
  function SetRange(s: Slider, a: real, b: real): (s': Slider)
    ensures s'.min <= s'.max
    ensures multiset{s'.min, s'.max} == multiset{a, b}
    ensures s'.value == s.value
  {
    if a > b then s.(min := b, max := a) else s.(min := a, max := b)
  }

  /** The stored lower bound: at most the value when in range; fed back to `SetRange` with the upper bound it gives the same slider as the stored bounds do. */
  function GetMinimum(s: Slider): (r: real)
    ensures s.InRange() ==> r <= s.value
    ensures SetRange(s, r, s.max) == SetRange(s, s.min, s.max)
  {
    s.min
  }

  /** The stored upper bound: at least the value when in range; fed back to `SetRange` with the lower bound it gives the same slider as the stored bounds do. */
  function GetMaximum(s: Slider): (r: real)
    ensures s.InRange() ==> s.value <= r
    ensures SetRange(s, s.min, r) == SetRange(s, s.min, s.max)
  {
    s.max
  }

  /** The order of the arguments to `SetRange` does not matter, and the getters report the smaller and larger. */
  lemma SetRangeSymmetric(s: Slider, a: real, b: real)
    ensures SetRange(s, a, b) == SetRange(s, b, a)
    ensures GetMinimum(SetRange(s, a, b)) <= a && GetMinimum(SetRange(s, a, b)) <= b
    ensures GetMaximum(SetRange(s, a, b)) >= a && GetMaximum(SetRange(s, a, b)) >= b
  {
  }

  /** The getters' contracts determine them: only the stored bound satisfies each. */
  lemma GettersDetermined(s: Slider, lo: real, hi: real)
    ensures SetRange(s, lo, s.max) == SetRange(s, s.min, s.max) ==> lo == s.min
    ensures SetRange(s, s.min, hi) == SetRange(s, s.min, s.max) ==> hi == s.max
  {
  }

  /** After `SetRange`, a touch always leaves the value inside the new range. */
  lemma TouchAfterSetRange(s: Slider, a: real, b: real, x: int, y: int, width: int, interpolate: Interpolation)
    ensures TouchingAnywhere(SetRange(s, a, b), x, y, width, interpolate).InRange()
  {
  }
}
