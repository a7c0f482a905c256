/** SQLite's round(x, digits), half away from zero, at the two precisions the store
    uses: it looks locations up at six decimals and stores them at seven. */
module Rounding {

  function HalfAway(y: real): int {
    if y >= 0.0 then (y + 0.5).Floor else -((-y + 0.5).Floor)
  }

  /** The six-decimal cell of a coordinate, as a count of millionths of a degree. */
  function Cell6(x: real): int {
    HalfAway(x * 1000000.0)
  }

  function Round6(x: real): real {
    Cell6(x) as real / 1000000.0
  }

  function Round7(x: real): real {
    HalfAway(x * 10000000.0) as real / 10000000.0
  }

  /** The part of |x| * 10^6 after the decimal point. */
  function Fraction(x: real): (f: real)
    ensures 0.0 <= f < 1.0
  {
    var y := (if x >= 0.0 then x else -x) * 1000000.0;
    y - y.Floor as real
  }

  /** Whether rounding first to seven digits leaves the six-digit result alone. */
  predicate Survives(x: real) {
    !(0.45 <= Fraction(x) < 0.5)
  }

  lemma HalfAwayIsNearest(y: real)
    ensures HalfAway(y) as real - 0.5 <= y <= HalfAway(y) as real + 0.5
  {
  }

  lemma HalfAwayIsMonotone(x: real, y: real)
    requires x <= y
    ensures HalfAway(x) <= HalfAway(y)
  {
  }

  lemma HalfAwayIsOdd(y: real)
    ensures HalfAway(-y) == -HalfAway(y)
  {
    if y == 0.0 {
      assert HalfAway(y) == 0;
    }
  }

  /** Both roundings go to the nearest multiple, and from halfway away from zero. */
  lemma RoundIsNearest(x: real)
    ensures -0.0000005 <= Round6(x) - x <= 0.0000005 && Round6(x) == Cell6(x) as real / 1000000.0
    ensures -0.00000005 <= Round7(x) - x <= 0.00000005 && Round7(x) * 10000000.0 == HalfAway(x * 10000000.0) as real
    ensures x >= 0.0 ==> Round6(x) - x > -0.0000005 && Round7(x) - x > -0.00000005
    ensures x <= 0.0 ==> Round6(x) - x < 0.0000005 && Round7(x) - x < 0.00000005
  {
    HalfAwayIsNearest(x * 1000000.0);
    HalfAwayIsNearest(x * 10000000.0);
  }

  /** Two coordinates have the same six-decimal rounding exactly when they share a cell,
      and then they are no more than a millionth of a degree apart. */
  lemma SameCellIsClose(x: real, y: real)
    ensures Round6(x) == Round6(y) <==> Cell6(x) == Cell6(y)
    ensures Cell6(x) == Cell6(y) ==> -0.000001 <= x - y <= 0.000001
  {
    HalfAwayIsNearest(x * 1000000.0);
    HalfAwayIsNearest(y * 1000000.0);
  }

  /** The law for x >= 0, on the digits: write x * 10^6 as n + f. */
  lemma DoubleRoundingNonNegative(x: real)
    requires x >= 0.0
    ensures Cell6(Round7(x)) == Cell6(x) <==> Survives(x)
  {
    var y := x * 1000000.0;
    var n, f := y.Floor, Fraction(x);
    var m := HalfAway(x * 10000000.0);
    assert y == n as real + f;
    var t := (10.0 * f + 0.5).Floor;
    assert x * 10000000.0 + 0.5 == (10 * n) as real + (10.0 * f + 0.5);
    assert m == 10 * n + t;
    assert Round7(x) * 1000000.0 == m as real / 10.0 == n as real + t as real / 10.0;
    assert Cell6(Round7(x)) == (n as real + (t as real / 10.0 + 0.5)).Floor == n + (t as real / 10.0 + 0.5).Floor;
    assert Cell6(x) == n + (f + 0.5).Floor;
  }

  /** Rounding to seven digits and then to six agrees with rounding to six at once
      exactly when the fraction of |x| * 10^6 lies outside [0.45, 0.5). */
  lemma DoubleRounding(x: real)
    ensures Round6(Round7(x)) == Round6(x) <==> Survives(x)
    ensures Cell6(Round7(x)) == Cell6(x) <==> Survives(x)
  {
    SameCellIsClose(Round7(x), x);
    if x >= 0.0 {
      DoubleRoundingNonNegative(x);
    } else {
      DoubleRoundingNonNegative(-x);
      HalfAwayIsOdd(x * 10000000.0);
      HalfAwayIsOdd(x * 1000000.0);
      assert (-x) * 10000000.0 == -(x * 10000000.0) && (-x) * 1000000.0 == -(x * 1000000.0);
      assert Round7(-x) == -Round7(x);
      HalfAwayIsOdd(Round7(x) * 1000000.0);
      assert (-Round7(x)) * 1000000.0 == -(Round7(x) * 1000000.0);
      assert Cell6(-Round7(x)) == -Cell6(Round7(x));
      assert Fraction(-x) == Fraction(x);
    }
  }
}
