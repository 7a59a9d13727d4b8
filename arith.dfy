/** Facts about multiplying reals that the solver does not find unaided. */
module RealArith {

  lemma MulLe(x: real, y: real, c: real)
    requires c >= 0.0 && x <= y
    ensures x * c <= y * c
  {
    var d := y - x;
    assert y * c == x * c + d * c;
    assert d * c >= 0.0;
  }

  lemma MulLt(x: real, y: real, c: real)
    requires c > 0.0 && x < y
    ensures x * c < y * c
  {
    var d := y - x;
    assert y * c == x * c + d * c;
    assert d * c > 0.0;
  }

  /** Scaling a non-negative `w` by a fraction in [0, 1] stays in [0, w]. */
  lemma UnitScale(a: real, w: real)
    requires 0.0 <= a <= 1.0 && w >= 0.0
    ensures 0.0 <= a * w <= w
  {
    MulLe(0.0, a, w);
    MulLe(a, 1.0, w);
  }

  /** Dividing out a positive factor keeps a strict order. */
  lemma CancelLt(x: real, y: real, c: real)
    requires c > 0.0 && x * c < y * c
    ensures x < y
  {
    if y <= x {
      MulLe(y, x, c);
    }
  }

  /** Dividing out a positive factor keeps equality. */
  lemma CancelEq(x: real, y: real, c: real)
    requires c > 0.0 && x * c == y * c
    ensures x == y
  {
    if x < y {
      MulLt(x, y, c);
    } else if y < x {
      MulLt(y, x, c);
    }
  }
}
