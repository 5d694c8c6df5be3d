/** Quantile interpolation over values that the caller has put in order. */
module Quantiles {
  import Moments

  datatype Interpolation = Linear | Lower | Higher | Nearest | Midpoint | Unsupported(name: string)

  datatype Outcome = Null | Number(value: real) | Failure

  function Ceil(x: real): int {
    -((-x).Floor)
  }

  function Interpolate(a: real, b: real, frac: real): real {
    a + frac * (b - a)
  }

  /** The position of quantile q among n values. */
  function Position(n: nat, q: real): real {
    q * (n as real - 1.0)
  }

  function QuantileFinish(values: seq<real>, q: real, interpolation: Interpolation): Outcome
    requires 0.0 <= q <= 1.0
  {
    if |values| == 0 then Null
    else if |values| == 1 then Number(values[0])
    else
      var n := |values|;
      var idx := Position(n, q);
      PositionInRange(n, q);
      var lo, hi := idx.Floor, Ceil(idx);
      match interpolation
      case Lower => Number(values[lo])
      case Higher => Number(values[hi])
      case Nearest => Number(if idx - lo as real <= 0.5 then values[lo] else values[hi])
      case Midpoint => Number((values[lo] + values[hi]) / 2.0)
      case Linear =>
        if lo == hi then Number(values[lo])
        else
          var frac := idx - lo as real;
          Number(Interpolate(values[lo], values[hi], frac))
      case Unsupported(_) => Failure
  }

  /** Both indices stay in range, and are at most one apart. */
  lemma PositionInRange(n: nat, q: real)
    requires n > 0 && 0.0 <= q <= 1.0
    ensures var idx := Position(n, q);
            && 0 <= idx.Floor <= Ceil(idx) < n
            && Ceil(idx) <= idx.Floor + 1
            && (idx.Floor == Ceil(idx) <==> idx == idx.Floor as real)
  {
    var m, idx := n as real - 1.0, Position(n, q);
    Moments.ProductNonNegative(q, m, idx);
    Moments.ProductNonNegative(1.0 - q, m, m - idx);
  }

  ghost predicate Ascending(values: seq<real>) {
    forall i, j :: 0 <= i <= j < |values| ==> values[i] <= values[j]
  }

  predicate Supported(interpolation: Interpolation) {
    !interpolation.Unsupported?
  }

  function Quantile(values: seq<real>, q: real, interpolation: Interpolation): real
    requires |values| > 0 && 0.0 <= q <= 1.0 && Supported(interpolation)
  {
    QuantileFinish(values, q, interpolation).value
  }

  lemma InterpolateBetween(a: real, b: real, frac: real)
    requires a <= b && 0.0 <= frac <= 1.0
    ensures a <= Interpolate(a, b, frac) <= b
  {
    Moments.ProductNonNegative(frac, b - a, Interpolate(a, b, frac) - a);
    Moments.ProductNonNegative(1.0 - frac, b - a, b - Interpolate(a, b, frac));
  }

  lemma InterpolateMonotone(a: real, b: real, frac1: real, frac2: real)
    requires a <= b && frac1 <= frac2
    ensures Interpolate(a, b, frac1) <= Interpolate(a, b, frac2)
  {
    Moments.ProductNonNegative(frac2 - frac1, b - a, Interpolate(a, b, frac2) - Interpolate(a, b, frac1));
  }

  lemma InterpolateEnds(a: real, b: real)
    ensures Interpolate(a, b, 0.0) == a && Interpolate(a, b, 1.0) == b
  {
  }

  /** On ascending values every method lies between the lower and the higher one. */
  lemma Bracketed(values: seq<real>, q: real, interpolation: Interpolation)
    requires |values| > 0 && 0.0 <= q <= 1.0 && Supported(interpolation) && Ascending(values)
    ensures Quantile(values, q, Lower) <= Quantile(values, q, interpolation) <= Quantile(values, q, Higher)
  {
    if |values| > 1 {
      PositionInRange(|values|, q);
      var idx := Position(|values|, q);
      hide Position, Interpolate;
      InterpolateBetween(values[idx.Floor], values[Ceil(idx)], idx - idx.Floor as real);
    }
  }

  lemma PositionMonotone(n: nat, q1: real, q2: real)
    requires n > 0 && q1 <= q2
    ensures Position(n, q1) <= Position(n, q2)
  {
    Moments.ProductNonNegative(q2 - q1, n as real - 1.0, Position(n, q2) - Position(n, q1));
  }

  /** A larger quantile never has a smaller value, within one interval and across its borders. */
  lemma Monotone(values: seq<real>, q1: real, q2: real, interpolation: Interpolation)
    requires |values| > 0 && 0.0 <= q1 <= q2 <= 1.0 && Supported(interpolation) && Ascending(values)
    ensures Quantile(values, q1, interpolation) <= Quantile(values, q2, interpolation)
  {
    if |values| > 1 {
      var n := |values|;
      PositionInRange(n, q1);
      PositionInRange(n, q2);
      PositionMonotone(n, q1, q2);
      var i1, i2 := Position(n, q1), Position(n, q2);
      if Ceil(i1) <= i2.Floor {
        Bracketed(values, q1, interpolation);
        Bracketed(values, q2, interpolation);
      } else {
        SameInterval(values, q1, q2, interpolation);
      }
    }
  }

  lemma SameInterval(values: seq<real>, q1: real, q2: real, interpolation: Interpolation)
    requires |values| > 1 && 0.0 <= q1 <= q2 <= 1.0 && Supported(interpolation) && Ascending(values)
    requires Position(|values|, q1) <= Position(|values|, q2)
    requires Ceil(Position(|values|, q1)) > Position(|values|, q2).Floor
    ensures Quantile(values, q1, interpolation) <= Quantile(values, q2, interpolation)
  {
    var n := |values|;
    PositionInRange(n, q1);
    PositionInRange(n, q2);
    var i1, i2 := Position(n, q1), Position(n, q2);
    var lo, hi := i1.Floor, Ceil(i1);
    hide Position, Interpolate;
    assert hi == lo + 1 && i2.Floor == lo && (Ceil(i2) == hi || i2 == lo as real);
    InterpolateMonotone(values[lo], values[hi], i1 - lo as real, i2 - lo as real);
    InterpolateEnds(values[lo], values[hi]);
  }

  /** When q falls on an index, every method returns the value there: q = 0 and q = 1 give the ends. */
  lemma ExactAtIndex(values: seq<real>, q: real, k: nat, interpolation: Interpolation)
    requires 0.0 <= q <= 1.0 && k < |values| && q * (|values| as real - 1.0) == k as real && Supported(interpolation)
    ensures Quantile(values, q, interpolation) == values[k]
  {
    if |values| > 1 {
      PositionInRange(|values|, q);
    }
  }

  lemma EndsOfRange(values: seq<real>, interpolation: Interpolation)
    requires |values| > 0 && Supported(interpolation)
    ensures Quantile(values, 0.0, interpolation) == values[0]
    ensures Quantile(values, 1.0, interpolation) == values[|values| - 1]
  {
    ExactAtIndex(values, 0.0, 0, interpolation);
    ExactAtIndex(values, 1.0, |values| - 1, interpolation);
  }

  /** The nearest method picks a value at most half an index away. */
  lemma NearestIsNear(values: seq<real>, q: real)
    requires |values| > 0 && 0.0 <= q <= 1.0
    ensures exists k :: 0 <= k < |values| && Quantile(values, q, Nearest) == values[k] &&
                        -0.5 <= q * (|values| as real - 1.0) - k as real <= 0.5
  {
    PositionInRange(|values|, q);
    var idx := Position(|values|, q);
    if |values| == 1 {
      assert Quantile(values, q, Nearest) == values[0];
    } else if idx - idx.Floor as real <= 0.5 {
      assert Quantile(values, q, Nearest) == values[idx.Floor];
    } else {
      assert Quantile(values, q, Nearest) == values[Ceil(idx)];
    }
  }

  /** Order is not only enough for the bracket: without it some quantile breaks the bracket. */
  lemma BracketedExactlyWhenAscending(values: seq<real>)
    requires |values| > 0
    ensures Ascending(values) <==>
              forall q :: 0.0 <= q <= 1.0 ==> Quantile(values, q, Lower) <= Quantile(values, q, Higher)
  {
    if Ascending(values) {
      forall q | 0.0 <= q <= 1.0
        ensures Quantile(values, q, Lower) <= Quantile(values, q, Higher)
      {
        Bracketed(values, q, Higher);
      }
    } else {
      var k := FirstDescent(values);
      var q := DescentBreaksBracket(values, k);
    }
  }

  lemma DescentBreaksBracket(values: seq<real>, k: nat) returns (q: real)
    requires k + 1 < |values| && values[k] > values[k + 1]
    ensures 0.0 <= q <= 1.0 && Quantile(values, q, Lower) > Quantile(values, q, Higher)
  {
    var x, m := k as real + 0.5, |values| as real - 1.0;
    q := x / m;
    Quotient(x, m);
    assert Position(|values|, q) == x;
    hide Position, Interpolate;
    PositionInRange(|values|, q);
    assert x.Floor == k && Ceil(x) == k + 1;
  }

  lemma Quotient(x: real, m: real)
    requires 0.0 <= x <= m && m > 0.0
    ensures 0.0 <= x / m <= 1.0 && x / m * m == x
  {
  }

  lemma FirstDescent(values: seq<real>) returns (k: nat)
    requires !Ascending(values)
    ensures k + 1 < |values| && values[k] > values[k + 1]
  {
    if forall k :: 0 <= k < |values| - 1 ==> values[k] <= values[k + 1] {
      forall i, j | 0 <= i <= j < |values|
        ensures values[i] <= values[j]
      {
        StepsAscend(values, i, j);
      }
      assert false;
    }
    k :| 0 <= k < |values| - 1 && values[k] > values[k + 1];
  }

  lemma {:induction false} StepsAscend(values: seq<real>, i: nat, j: nat)
    requires i <= j < |values| && forall k :: 0 <= k < |values| - 1 ==> values[k] <= values[k + 1]
    ensures values[i] <= values[j]
    decreases j
  {
    if i < j {
      StepsAscend(values, i, j - 1);
    }
  }

  /** Between two indices the lower and higher methods take the ends, the nearest method the lower end up to half-way,
      the midpoint is as far from one end as from the other, and the linear method gets as far from end to end as the
      quantile does. */
  lemma BetweenIndices(values: seq<real>, q: real, k: nat)
    requires 0.0 <= q <= 1.0 && k + 1 < |values|
    requires (k as real) < q * (|values| as real - 1.0) < (k as real) + 1.0
    ensures var low, high, way := values[k], values[k + 1], q * (|values| as real - 1.0) - k as real;
            && Quantile(values, q, Lower) == low
            && Quantile(values, q, Higher) == high
            && (way <= 0.5 ==> Quantile(values, q, Nearest) == low)
            && (way > 0.5 ==> Quantile(values, q, Nearest) == high)
            && Quantile(values, q, Midpoint) - low == high - Quantile(values, q, Midpoint)
            && Quantile(values, q, Linear) - low == way * (high - low)
  {
    PositionInRange(|values|, q);
  }

  /** No values give null; a method that is not known fails, but only from two values on. */
  lemma OutcomeIs(values: seq<real>, q: real, interpolation: Interpolation)
    requires 0.0 <= q <= 1.0
    ensures QuantileFinish(values, q, interpolation) == Null <==> values == []
    ensures QuantileFinish(values, q, interpolation) == Failure <==> |values| > 1 && interpolation.Unsupported?
  {
  }

  /** On values that lie on a line the linear method stays on that line. */
  lemma LinearStaysOnLine(values: seq<real>, q: real, a: real, b: real)
    requires |values| > 0 && 0.0 <= q <= 1.0
    requires forall k :: 0 <= k < |values| ==> values[k] == a + b * k as real
    ensures Quantile(values, q, Linear) == a + b * (q * (|values| as real - 1.0))
    ensures Quantile(values, q, Linear) == values[0] + q * (values[|values| - 1] - values[0])
  {
    var n := |values|;
    var idx := Position(n, q);
    PositionInRange(n, q);
    if n > 1 && idx.Floor != Ceil(idx) {
      var lo := idx.Floor;
      assert values[lo] == a + b * lo as real && values[Ceil(idx)] == a + b * (lo + 1) as real;
      OnLine(a, b, lo as real, idx);
    } else if n == 1 {
      assert idx == 0.0;
    }
    AlongLine(a, b, q, n as real - 1.0);
  }

  lemma AlongLine(a: real, b: real, q: real, m: real)
    ensures a + b * (q * m) == (a + b * 0.0) + q * ((a + b * m) - (a + b * 0.0))
  {
    assert b * (q * m) == q * (b * m);
  }

  lemma OnLine(a: real, b: real, lo: real, idx: real)
    ensures Interpolate(a + b * lo, a + b * (lo + 1.0), idx - lo) == a + b * idx
  {
    assert (a + b * (lo + 1.0)) - (a + b * lo) == b;
    assert b * idx == b * lo + b * (idx - lo);
  }
}
