/** The statistical aggregates: one-pass states updated in place, and the results they finish with.
    An input is None when it is null or is no number. */
module Aggregates {
  import opened Options
  import opened Moments

  type Input = Option<real>

  /** The numbers among the inputs, in order. */
  function Accepted(values: seq<Input>): seq<real> {
    if values == [] then []
    else
      var init := Accepted(values[..|values| - 1]);
      match values[|values| - 1]
      case None => init
      case Some(x) => init + [x]
  }

  /** The pairs both of whose sides are numbers, in order. */
  function AcceptedPairs(values: seq<(Input, Input)>): seq<Pair> {
    if values == [] then []
    else
      var init := AcceptedPairs(values[..|values| - 1]);
      match values[|values| - 1]
      case (Some(x), Some(y)) => init + [(x, y)]
      case _ => init
  }

  ghost predicate IsSqrt(sqrt: real -> real) {
    forall x {:trigger sqrt(x)} :: x >= 0.0 ==> IsRoot(sqrt(x), x)
  }

  ghost predicate IsRoot(root: real, x: real) {
    root >= 0.0 && root * root == x
  }

  /** r is the co-moment over the root of the product of the two sums of squared deviations. */
  ghost predicate IsCorrelation(r: real, ps: seq<Pair>) {
    var product := M2(Xs(ps)) * M2(Ys(ps));
    exists denom :: IsRoot(denom, product) && denom > 0.0 && r * denom == CoMoment(ps)
  }

  /** Welford's state for variance and standard deviation. */
  class WelfordState {
    var n: nat
    var mean: real
    var m2: real

    /** The state holds the two-pass mean and deviations of xs. */
    ghost predicate Represents(xs: seq<real>)
      reads this
    {
      n == |xs| && mean == Mean(xs) && m2 == M2(xs)
    }

    constructor ()
      ensures Represents([])
    {
      n, mean, m2 := 0, 0.0, 0.0;
    }

    method Iterate(value: Input, ghost xs: seq<real>)
      requires Represents(xs)
      modifies this
      ensures Represents(match value case None => xs case Some(x) => xs + [x])
    {
      hide Mean, M2;
      match value {
        case None =>
        case Some(x) =>
          MeanStep(xs, x);
          M2Step(xs, x);
          n := n + 1;
          var delta := x - mean;
          mean := mean + delta / n as real;
          var delta2 := x - mean;
          m2 := m2 + delta * delta2;
      }
    }
  }

  /** The state for covariance and correlation. */
  class CovarState {
    var n: nat
    var mean: real
    var m2: real
    var meanY: real
    var m2y: real
    var c: real

    ghost predicate Represents(ps: seq<Pair>)
      reads this
    {
      && n == |ps|
      && mean == Mean(Xs(ps)) && m2 == M2(Xs(ps))
      && meanY == Mean(Ys(ps)) && m2y == M2(Ys(ps))
      && c == CoMoment(ps)
    }

    constructor ()
      ensures Represents([])
    {
      n, mean, m2, meanY, m2y, c := 0, 0.0, 0.0, 0.0, 0.0, 0.0;
    }

    method Iterate(x: Input, y: Input, ghost ps: seq<Pair>)
      requires Represents(ps)
      modifies this
      ensures Represents(match (x, y) case (Some(a), Some(b)) => ps + [(a, b)] case _ => ps)
    {
      hide Mean, M2, CoMoment;
      match (x, y) {
        case (Some(xn), Some(yn)) =>
          ProjectionsAppended(ps, (xn, yn));
          MeanStep(Xs(ps), xn);
          MeanStep(Ys(ps), yn);
          M2Step(Xs(ps), xn);
          M2Step(Ys(ps), yn);
          CoMomentStep(ps, xn, yn);
          n := n + 1;
          var dx := xn - mean;
          mean := mean + dx / n as real;
          var dy := yn - meanY;
          meanY := meanY + dy / n as real;
          var dx2 := xn - mean;
          var dy2 := yn - meanY;
          c := c + dx * dy2;
          m2 := m2 + dx * dx2;
          m2y := m2y + dy * dy2;
        case _ =>
      }
    }
  }

  // ---------------------------------------------------------------- whole aggregations

  method FoldWelford(values: seq<Input>) returns (state: WelfordState)
    ensures fresh(state) && state.Represents(Accepted(values))
  {
    state := new WelfordState();
    for i := 0 to |values|
      invariant fresh(state) && state.Represents(Accepted(values[..i]))
    {
      assert values[..i + 1][..i] == values[..i];
      state.Iterate(values[i], Accepted(values[..i]));
    }
    assert values[..|values|] == values;
  }

  method FoldCovar(values: seq<(Input, Input)>) returns (state: CovarState)
    ensures fresh(state) && state.Represents(AcceptedPairs(values))
  {
    state := new CovarState();
    for i := 0 to |values|
      invariant fresh(state) && state.Represents(AcceptedPairs(values[..i]))
    {
      assert values[..i + 1][..i] == values[..i];
      state.Iterate(values[i].0, values[i].1, AcceptedPairs(values[..i]));
    }
    assert values[..|values|] == values;
  }

  method VarPop(values: seq<Input>) returns (r: Option<real>)
    ensures var xs := Accepted(values);
            r == if xs == [] then None else Some(M2(xs) / |xs| as real)
  {
    var state := FoldWelford(values);
    r := if state.n == 0 then None else Some(state.m2 / state.n as real);
  }

  method VarSamp(values: seq<Input>) returns (r: Option<real>)
    ensures var xs := Accepted(values);
            r == if |xs| < 2 then None else Some(M2(xs) / (|xs| - 1) as real)
  {
    var state := FoldWelford(values);
    r := if state.n < 2 then None else Some(state.m2 / (state.n - 1) as real);
  }

  lemma VarianceNonNegative(xs: seq<real>, n: real)
    requires n > 0.0
    ensures M2(xs) / n >= 0.0
  {
    M2NonNegativeAbout(xs, Mean(xs));
  }

  method StddevPop(values: seq<Input>, sqrt: real -> real) returns (r: Option<real>)
    requires IsSqrt(sqrt)
    ensures var xs := Accepted(values);
            && (r.None? <==> xs == [])
            && (r.Some? ==> IsRoot(r.value, M2(xs) / |xs| as real))
  {
    var state := FoldWelford(values);
    if state.n == 0 {
      return None;
    }
    VarianceNonNegative(Accepted(values), state.n as real);
    return Some(sqrt(state.m2 / state.n as real));
  }

  method StddevSamp(values: seq<Input>, sqrt: real -> real) returns (r: Option<real>)
    requires IsSqrt(sqrt)
    ensures var xs := Accepted(values);
            && (r.None? <==> |xs| < 2)
            && (r.Some? ==> IsRoot(r.value, M2(xs) / (|xs| - 1) as real))
  {
    var state := FoldWelford(values);
    if state.n < 2 {
      return None;
    }
    VarianceNonNegative(Accepted(values), (state.n - 1) as real);
    return Some(sqrt(state.m2 / (state.n - 1) as real));
  }

  method CovarPop(values: seq<(Input, Input)>) returns (r: Option<real>)
    ensures var ps := AcceptedPairs(values);
            r == if ps == [] then None else Some(CoMoment(ps) / |ps| as real)
  {
    var state := FoldCovar(values);
    r := if state.n == 0 then None else Some(state.c / state.n as real);
  }

  method CovarSamp(values: seq<(Input, Input)>) returns (r: Option<real>)
    ensures var ps := AcceptedPairs(values);
            r == if |ps| < 2 then None else Some(CoMoment(ps) / (|ps| - 1) as real)
  {
    var state := FoldCovar(values);
    r := if state.n < 2 then None else Some(state.c / (state.n - 1) as real);
  }

  /** A number exactly when there are two pairs and neither side is constant; it is the co-moment over
      the root of the product of the deviations, and lies in [-1, 1]. */
  method Corr(values: seq<(Input, Input)>, sqrt: real -> real) returns (r: Option<real>)
    requires IsSqrt(sqrt)
    ensures var ps := AcceptedPairs(values);
            && (r.None? <==> |ps| < 2 || Constant(Xs(ps)) || Constant(Ys(ps)))
            && (r.Some? ==> -1.0 <= r.value <= 1.0 && IsCorrelation(r.value, ps))
  {
    hide M2, Mean, CoMoment, IsRoot, IsCorrelation, Constant;
    var state := FoldCovar(values);
    if state.n < 2 {
      return None;
    }
    ghost var ps := AcceptedPairs(values);
    M2ZeroMeansConstant(Xs(ps));
    M2ZeroMeansConstant(Ys(ps));
    CauchySchwarz(ps);
    var product := state.m2 * state.m2y;
    ProductNonNegative(state.m2, state.m2y, product);
    var denom := sqrt(product);
    CorrelationBounds(ps, product, denom);
    if denom == 0.0 {
      return None;
    }
    return Some(state.c / denom);
  }

  lemma CorrelationBounds(ps: seq<Pair>, product: real, denom: real)
    requires product == M2(Xs(ps)) * M2(Ys(ps)) && IsRoot(denom, product)
    ensures denom == 0.0 <==> Constant(Xs(ps)) || Constant(Ys(ps))
    ensures denom != 0.0 ==> -1.0 <= CoMoment(ps) / denom <= 1.0 && IsCorrelation(CoMoment(ps) / denom, ps)
  {
    var u, v, c := M2(Xs(ps)), M2(Ys(ps)), CoMoment(ps);
    CauchySchwarz(ps);
    M2ZeroMeansConstant(Xs(ps));
    M2ZeroMeansConstant(Ys(ps));
    hide M2, CoMoment;
    ProductNonNegative(u, v, product);
    RootBounds(c, product, denom);
    if denom != 0.0 {
      RootGivesCorrelation(c / denom, ps, product, denom);
    }
  }

  lemma RootGivesCorrelation(r: real, ps: seq<Pair>, product: real, denom: real)
    requires product == M2(Xs(ps)) * M2(Ys(ps)) && IsRoot(denom, product)
    requires denom > 0.0 && r * denom == CoMoment(ps)
    ensures IsCorrelation(r, ps)
  {
    hide M2, CoMoment, IsRoot;
  }

  lemma RootBounds(c: real, p: real, d: real)
    requires IsRoot(d, p) && c * c <= p
    ensures d == 0.0 <==> p == 0.0
    ensures d != 0.0 ==> -1.0 <= c / d <= 1.0 && c / d * d == c
  {
    SquareNonNegative(d, p);
    if d > 0.0 {
      if c > d {
        ProductPositive(c - d, c + d, c * c - d * d);
      } else if c < -d {
        ProductPositive(-d - c, d - c, c * c - d * d);
      }
      QuotientBounds(c, d);
    }
  }

  lemma QuotientBounds(c: real, d: real)
    requires d > 0.0 && -d <= c <= d
    ensures -1.0 <= c / d <= 1.0 && c / d * d == c
  {
  }

  // ---------------------------------------------------------------- input order

  lemma CountAppended<T>(s: seq<T>, last: T, x: T)
    ensures multiset(s + [last])[x] == multiset(s)[x] + (if last == x then 1 else 0)
  {
    assert multiset(s + [last]) == multiset(s) + multiset{last};
  }

  lemma {:induction false} AcceptedCounts(values: seq<Input>, x: real)
    ensures multiset(Accepted(values))[x] == multiset(values)[Some(x)]
  {
    if values != [] {
      var init, last := values[..|values| - 1], values[|values| - 1];
      AcceptedCounts(init, x);
      assert values == init + [last];
      CountAppended(init, last, Some(x));
      if last.Some? {
        CountAppended(Accepted(init), last.value, x);
      }
    }
  }

  lemma {:induction false} AcceptedPairsCount(values: seq<(Input, Input)>, p: Pair)
    ensures multiset(AcceptedPairs(values))[p] == multiset(values)[(Some(p.0), Some(p.1))]
  {
    if values != [] {
      var init, last := values[..|values| - 1], values[|values| - 1];
      AcceptedPairsCount(init, p);
      assert values == init + [last];
      var accepted := AcceptedPairs(init);
      assert AcceptedPairs(values) ==
             if last.0.Some? && last.1.Some? then accepted + [(last.0.value, last.1.value)] else accepted;
      hide AcceptedPairs;
      CountAppended(init, last, (Some(p.0), Some(p.1)));
      if last.0.Some? && last.1.Some? {
        CountAppended(accepted, (last.0.value, last.1.value), p);
      }
    }
  }

  /** Inputs in another order have the same count, mean and deviations, so every variance agrees. */
  lemma {:induction false} VarianceIgnoresOrder(values: seq<Input>, reordered: seq<Input>)
    requires multiset(values) == multiset(reordered)
    ensures var xs, ys := Accepted(values), Accepted(reordered);
            |xs| == |ys| && Mean(xs) == Mean(ys) && M2(xs) == M2(ys)
  {
    forall x: real
      ensures multiset(Accepted(values))[x] == multiset(Accepted(reordered))[x]
    {
      AcceptedCounts(values, x);
      AcceptedCounts(reordered, x);
    }
    assert multiset(Accepted(values)) == multiset(Accepted(reordered));
    M2IgnoresOrder(Accepted(values), Accepted(reordered));
  }

  lemma {:induction false} CovarianceIgnoresOrder(values: seq<(Input, Input)>, reordered: seq<(Input, Input)>)
    requires multiset(values) == multiset(reordered)
    ensures var ps, qs := AcceptedPairs(values), AcceptedPairs(reordered);
            |ps| == |qs| && CoMoment(ps) == CoMoment(qs)
  {
    forall p: Pair
      ensures multiset(AcceptedPairs(values))[p] == multiset(AcceptedPairs(reordered))[p]
    {
      AcceptedPairsCount(values, p);
      AcceptedPairsCount(reordered, p);
    }
    assert multiset(AcceptedPairs(values)) == multiset(AcceptedPairs(reordered));
    CoMomentIgnoresOrder(AcceptedPairs(values), AcceptedPairs(reordered));
  }
}
