/** Real-number helpers shared by the interpreter, the cursor and the slider. */
module Numeric {

  function Abs(x: real): real {
    if x < 0.0 then -x else x
  }

  /**
   * The two-branch clamp written out in `moveCursor` and `Slider::TouchingAnywhere`:
   * a value below `lo` becomes `lo`, otherwise a value above `hi` becomes `hi`.
   */
  function Clamp(v: real, lo: real, hi: real): (r: real)
    ensures lo <= hi ==> lo <= r <= hi
    ensures lo <= v <= hi ==> r == v
    ensures v < lo ==> r == lo
    ensures lo <= v && hi < v ==> r == hi
  {
    if v < lo then lo else if v > hi then hi else v
  }

  /** Rounding toward zero, as C's float-to-integer conversion and `fmod` use. */
  function Trunc(q: real): (n: int)
    ensures 0.0 <= q ==> n as real <= q < n as real + 1.0
    ensures q < 0.0 ==> n as real - 1.0 < q <= n as real
  {
    if 0.0 <= q then q.Floor else -((-q).Floor)
  }

  /**
   * C's `fmod(x, y)` on exact reals: the remainder of the division that
   * truncates toward zero. Its sign follows `x` and it is smaller than `y`
   * in magnitude; `x - r` is a whole multiple of `y`.
   */
  function FMod(x: real, y: real): (r: real)
    requires y != 0.0
    ensures Abs(r) < Abs(y)
    ensures r == 0.0 || (0.0 < r <==> 0.0 < x)
    ensures ((x - r) / y).Floor as real == (x - r) / y
  {
    var q := x / y;
    var n := Trunc(q);
    var r := x - n as real * y;
    FModFacts(x, y, q, n, r);
    r
  }

  /** The arithmetic behind FMod's contract, stated on the quotient `q` and its truncation `n`. */
  lemma FModFacts(x: real, y: real, q: real, n: int, r: real)
    requires y != 0.0 && q == x / y && n == Trunc(q) && r == x - n as real * y
    ensures Abs(r) < Abs(y)
    ensures r == 0.0 || (0.0 < r <==> 0.0 < x)
    ensures ((x - r) / y).Floor as real == (x - r) / y
  {
    var f := q - n as real;
    assert x == q * y;
    assert r == f * y;
    assert x - r == n as real * y;
    WholeQuotient(x - r, y, n);
    ScaledBelow(f, y);
    SignFollows(f, q, y);
  }

  lemma WholeQuotient(d: real, y: real, n: int)
    requires y != 0.0 && d == n as real * y
    ensures (d / y).Floor as real == d / y
  {
    assert d / y == n as real;
  }

  /** `f` is zero or has the sign of `q`, so `f * y` is zero or has the sign of `q * y`. */
  lemma SignFollows(f: real, q: real, y: real)
    requires y != 0.0
    requires (0.0 <= q && 0.0 <= f <= q) || (q < 0.0 && q <= f <= 0.0)
    ensures f * y == 0.0 || (0.0 < f * y <==> 0.0 < q * y)
  {
    if f != 0.0 {
      if 0.0 < y {
        if 0.0 < f { MulPositive(f, y); MulPositive(q, y); }
        else { MulPositive(-f, y); MulPositive(-q, y); }
      } else {
        if 0.0 < f { MulPositive(f, -y); MulPositive(q, -y); }
        else { MulPositive(-f, -y); MulPositive(-q, -y); }
      }
    }
  }

  /** Scaling by a factor of magnitude below one shrinks a non-zero value. */
  lemma ScaledBelow(f: real, y: real)
    requires Abs(f) < 1.0 && y != 0.0
    ensures Abs(f * y) < Abs(y)
  {
    AbsProduct(f, y);
    MulBelow(Abs(f), Abs(y));
  }

  lemma AbsProduct(a: real, b: real)
    ensures Abs(a * b) == Abs(a) * Abs(b)
  {
    if a < 0.0 && b < 0.0 {
      assert a * b == (-a) * (-b);
    }
  }

  lemma MulBelow(a: real, b: real)
    requires a < 1.0 && 0.0 < b
    ensures a * b < b
  {
    MulPositive(1.0 - a, b);
    assert (1.0 - a) * b == b - a * b;
  }

  lemma MulPositive(a: real, b: real)
    requires 0.0 < a && 0.0 < b
    ensures 0.0 < a * b
  {
  }
}
