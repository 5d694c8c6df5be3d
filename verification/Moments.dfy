/** Two-pass definitions of mean, variance and covariance, and the identities behind the
    one-pass updates. Numbers are mathematical reals. */
module Moments {
  type Pair = (real, real)

  function Total<T>(s: seq<T>, g: T -> real): real {
    if s == [] then 0.0 else Total(s[..|s| - 1], g) + g(s[|s| - 1])
  }

  function Xs(ps: seq<Pair>): seq<real> {
    seq(|ps|, i requires 0 <= i < |ps| => ps[i].0)
  }

  function Ys(ps: seq<Pair>): seq<real> {
    seq(|ps|, i requires 0 <= i < |ps| => ps[i].1)
  }

  function Identity(): real -> real {
    x => x
  }

  function SquaredDeviation(m: real): real -> real {
    x => (x - m) * (x - m)
  }

  function DeviationProduct(mx: real, my: real): Pair -> real {
    (p: Pair) => (p.0 - mx) * (p.1 - my)
  }

  function Sum(xs: seq<real>): real {
    Total(xs, Identity())
  }

  function Mean(xs: seq<real>): real {
    if xs == [] then 0.0 else Sum(xs) / |xs| as real
  }

  /** The sum of squared deviations from the mean. */
  function M2(xs: seq<real>): real {
    Total(xs, SquaredDeviation(Mean(xs)))
  }

  /** The sum of products of deviations from the two means. */
  function CoMoment(ps: seq<Pair>): real {
    Total(ps, DeviationProduct(Mean(Xs(ps)), Mean(Ys(ps))))
  }

  // ---------------------------------------------------------------- folding one more value

  lemma Appended<T>(s: seq<T>, x: T, g: T -> real)
    ensures Total(s + [x], g) == Total(s, g) + g(x)
  {
    assert (s + [x])[..|s|] == s;
  }

  lemma SumAppended(xs: seq<real>, x: real)
    ensures Sum(xs + [x]) == Sum(xs) + x
  {
    Appended(xs, x, Identity());
  }

  lemma SumIsLengthTimesMean(xs: seq<real>)
    ensures Sum(xs) == |xs| as real * Mean(xs)
  {
  }

  /** The incremental mean. */
  lemma MeanStep(xs: seq<real>, x: real)
    ensures Mean(xs + [x]) == Mean(xs) + (x - Mean(xs)) / (|xs| + 1) as real
  {
    SumAppended(xs, x);
    SumIsLengthTimesMean(xs);
    SumIsLengthTimesMean(xs + [x]);
    var n, m, m' := |xs| as real, Mean(xs), Mean(xs + [x]);
    assert (n + 1.0) * m' == n * m + x;
    assert (n + 1.0) * (m' - m) == x - m;
    assert m' - m == (x - m) / (n + 1.0);
  }

  lemma ProjectionsAppended(ps: seq<Pair>, p: Pair)
    ensures Xs(ps + [p]) == Xs(ps) + [p.0] && Ys(ps + [p]) == Ys(ps) + [p.1]
  {
  }

  /** total, products, sx and sy are the sums over n pairs of deviation products, products, xs and ys. */
  ghost predicate Expands(total: real, products: real, sx: real, sy: real, n: real, a: real, b: real) {
    total == products - b * sx - a * sy + n * (a * b)
  }

  lemma ExpandsStep(total: real, products: real, sx: real, sy: real, n: real, a: real, b: real, p: Pair)
    requires Expands(total, products, sx, sy, n, a, b)
    ensures Expands(total + DeviationProduct(a, b)(p), products + DeviationProduct(0.0, 0.0)(p),
                    sx + p.0, sy + p.1, n + 1.0, a, b)
  {
    var (x, y) := p;
    assert (x - a) * (y - b) == x * y - b * x - a * y + a * b;
    assert (x - 0.0) * (y - 0.0) == x * y;
    assert b * (sx + x) == b * sx + b * x;
    assert a * (sy + y) == a * sy + a * y;
    assert (n + 1.0) * (a * b) == n * (a * b) + a * b;
  }

  /** Deviations from any centre, expanded into plain sums. */
  lemma {:induction false} Expand(ps: seq<Pair>, a: real, b: real)
    ensures Expands(Total(ps, DeviationProduct(a, b)), Total(ps, DeviationProduct(0.0, 0.0)),
                    Sum(Xs(ps)), Sum(Ys(ps)), |ps| as real, a, b)
  {
    if ps != [] {
      var init, p := ps[..|ps| - 1], ps[|ps| - 1];
      hide DeviationProduct, Expands;
      Expand(init, a, b);
      assert ps == init + [p];
      ProjectionsAppended(init, p);
      SumAppended(Xs(init), p.0);
      SumAppended(Ys(init), p.1);
      ExpandsStep(Total(init, DeviationProduct(a, b)), Total(init, DeviationProduct(0.0, 0.0)),
                  Sum(Xs(init)), Sum(Ys(init)), |init| as real, a, b, p);
    }
  }

  /** c is the sum of products less n times the product of the means, and the means belong to the sums. */
  ghost predicate Centred(c: real, products: real, sx: real, sy: real, n: real, mx: real, my: real) {
    c == products - n * (mx * my) && sx == n * mx && sy == n * my
  }

  lemma CentredFromExpanded(c: real, products: real, sx: real, sy: real, n: real, mx: real, my: real)
    requires Expands(c, products, sx, sy, n, mx, my) && sx == n * mx && sy == n * my
    ensures Centred(c, products, sx, sy, n, mx, my)
  {
    assert my * (n * mx) == n * (mx * my);
    assert mx * (n * my) == n * (mx * my);
  }

  lemma {:induction false} CoMomentCentred(ps: seq<Pair>)
    ensures Centred(CoMoment(ps), Total(ps, DeviationProduct(0.0, 0.0)), Sum(Xs(ps)), Sum(Ys(ps)),
                    |ps| as real, Mean(Xs(ps)), Mean(Ys(ps)))
  {
    hide Expands, DeviationProduct, Sum, Mean, Centred;
    Expand(ps, Mean(Xs(ps)), Mean(Ys(ps)));
    SumIsLengthTimesMean(Xs(ps));
    SumIsLengthTimesMean(Ys(ps));
    CentredFromExpanded(CoMoment(ps), Total(ps, DeviationProduct(0.0, 0.0)), Sum(Xs(ps)), Sum(Ys(ps)),
                        |ps| as real, Mean(Xs(ps)), Mean(Ys(ps)));
  }

  lemma CentredStep(c: real, c': real, products: real, products': real, sx: real, sy: real, n: real,
                    mx: real, my: real, mx': real, my': real, x: real, y: real)
    requires Centred(c, products, sx, sy, n, mx, my)
    requires Centred(c', products', sx + x, sy + y, n + 1.0, mx', my')
    requires products' == products + DeviationProduct(0.0, 0.0)((x, y))
    ensures c' == c + (x - mx) * (y - my')
  {
    assert (n + 1.0) * (mx' * my') == (n * mx + x) * my' == n * (mx * my') + x * my';
    assert mx * ((n + 1.0) * my') == mx * (n * my + y) == n * (mx * my) + mx * y;
    assert mx * ((n + 1.0) * my') == n * (mx * my') + mx * my';
  }

  /** The co-moment update: the deviation of x from the old mean times that of y from the new one. */
  lemma CoMomentStep(ps: seq<Pair>, x: real, y: real)
    ensures CoMoment(ps + [(x, y)]) ==
            CoMoment(ps) + (x - Mean(Xs(ps))) * (y - Mean(Ys(ps + [(x, y)])))
  {
    hide Centred, Mean, Sum, CoMoment, DeviationProduct;
    var qs := ps + [(x, y)];
    CoMomentCentred(ps);
    CoMomentCentred(qs);
    Appended(ps, (x, y), DeviationProduct(0.0, 0.0));
    ProjectionsAppended(ps, (x, y));
    SumAppended(Xs(ps), x);
    SumAppended(Ys(ps), y);
    CentredStep(CoMoment(ps), CoMoment(qs),
                Total(ps, DeviationProduct(0.0, 0.0)), Total(qs, DeviationProduct(0.0, 0.0)),
                Sum(Xs(ps)), Sum(Ys(ps)), |ps| as real,
                Mean(Xs(ps)), Mean(Ys(ps)), Mean(Xs(qs)), Mean(Ys(qs)), x, y);
  }

  function Diagonal(xs: seq<real>): seq<Pair> {
    seq(|xs|, i requires 0 <= i < |xs| => (xs[i], xs[i]))
  }

  lemma {:induction false} DiagonalTotal(xs: seq<real>, m: real)
    ensures Total(Diagonal(xs), DeviationProduct(m, m)) == Total(xs, SquaredDeviation(m))
  {
    if xs != [] {
      DiagonalTotal(xs[..|xs| - 1], m);
      assert Diagonal(xs)[..|xs| - 1] == Diagonal(xs[..|xs| - 1]);
    }
  }

  lemma M2IsCoMoment(xs: seq<real>)
    ensures M2(xs) == CoMoment(Diagonal(xs)) && Xs(Diagonal(xs)) == xs == Ys(Diagonal(xs))
  {
    assert Xs(Diagonal(xs)) == xs == Ys(Diagonal(xs));
    DiagonalTotal(xs, Mean(xs));
  }

  /** Welford's update. */
  lemma M2Step(xs: seq<real>, x: real)
    ensures M2(xs + [x]) == M2(xs) + (x - Mean(xs)) * (x - Mean(xs + [x]))
  {
    hide Total, M2, CoMoment, Mean;
    M2IsCoMoment(xs);
    M2IsCoMoment(xs + [x]);
    assert Diagonal(xs + [x]) == Diagonal(xs) + [(x, x)];
    CoMomentStep(Diagonal(xs), x, x);
  }

  // ---------------------------------------------------------------- Cauchy-Schwarz

  lemma ProductPositive(a: real, b: real, y: real)
    requires y == a * b && a > 0.0 && b > 0.0
    ensures y > 0.0
  {
  }

  lemma ProductNonNegative(u: real, v: real, p: real)
    requires u >= 0.0 && v >= 0.0 && p == u * v
    ensures p >= 0.0 && (p == 0.0 <==> u == 0.0 || v == 0.0)
  {
    if u > 0.0 && v > 0.0 {
      ProductPositive(u, v, p);
    }
  }

  lemma SquareNonNegative(d: real, y: real)
    requires y == d * d
    ensures y >= 0.0 && (d != 0.0 ==> y > 0.0)
  {
    if d > 0.0 {
      ProductPositive(d, d, y);
    } else if d < 0.0 {
      assert y == (-d) * (-d);
      ProductPositive(-d, -d, y);
    }
  }

  lemma SquaredDeviationNonNegative(m: real, x: real)
    ensures SquaredDeviation(m)(x) >= 0.0 && (x != m ==> SquaredDeviation(m)(x) > 0.0)
  {
    SquareNonNegative(x - m, SquaredDeviation(m)(x));
  }

  lemma {:induction false} M2NonNegativeAbout(xs: seq<real>, m: real)
    ensures Total(xs, SquaredDeviation(m)) >= 0.0
    ensures Total(xs, SquaredDeviation(m)) == 0.0 ==> forall i :: 0 <= i < |xs| ==> xs[i] == m
  {
    if xs != [] {
      hide SquaredDeviation;
      var init, x := xs[..|xs| - 1], xs[|xs| - 1];
      M2NonNegativeAbout(init, m);
      SquaredDeviationNonNegative(m, x);
      assert forall i :: 0 <= i < |init| ==> xs[i] == init[i];
    }
  }

  ghost predicate NonNegativeAt(t: real, sxx: real, sxy: real, syy: real) {
    t * t * sxx + 2.0 * t * sxy + syy >= 0.0
  }

  lemma SquareOfSum(t: real, u: real, v: real)
    ensures (t * t) * (u * u) + (2.0 * t) * (u * v) + v * v >= 0.0
  {
    SquareNonNegative(t * u + v, (t * t) * (u * u) + (2.0 * t) * (u * v) + v * v);
  }

  lemma Distribute(t: real, x: real, y: real)
    ensures t * (x + y) == t * x + t * y
  {
  }

  lemma NonNegativeAtStep(t: real, sxx: real, sxy: real, syy: real, a: real, b: real, p: Pair)
    requires NonNegativeAt(t, sxx, sxy, syy)
    ensures NonNegativeAt(t, sxx + SquaredDeviation(a)(p.0), sxy + DeviationProduct(a, b)(p),
                          syy + SquaredDeviation(b)(p.1))
  {
    var u, v := p.0 - a, p.1 - b;
    SquareOfSum(t, u, v);
    Distribute(t * t, sxx, u * u);
    Distribute(2.0 * t, sxy, u * v);
    assert SquaredDeviation(a)(p.0) == u * u && SquaredDeviation(b)(p.1) == v * v && DeviationProduct(a, b)(p) == u * v;
  }

  /** t * (deviation of x) + (deviation of y), squared and summed, is never negative. */
  lemma {:induction false} QuadraticNonNegative(ps: seq<Pair>, a: real, b: real, t: real)
    ensures NonNegativeAt(t, Total(Xs(ps), SquaredDeviation(a)), Total(ps, DeviationProduct(a, b)),
                          Total(Ys(ps), SquaredDeviation(b)))
  {
    if ps != [] {
      hide NonNegativeAt, SquaredDeviation, DeviationProduct;
      var init, p := ps[..|ps| - 1], ps[|ps| - 1];
      QuadraticNonNegative(init, a, b, t);
      assert ps == init + [p];
      ProjectionsAppended(init, p);
      Appended(Xs(init), p.0, SquaredDeviation(a));
      Appended(Ys(init), p.1, SquaredDeviation(b));
      NonNegativeAtStep(t, Total(Xs(init), SquaredDeviation(a)), Total(init, DeviationProduct(a, b)),
                        Total(Ys(init), SquaredDeviation(b)), a, b, p);
    }
  }

  lemma {:induction false} NoSpreadNoProduct(ps: seq<Pair>, a: real, b: real)
    requires forall i :: 0 <= i < |ps| ==> ps[i].0 == a
    ensures Total(ps, DeviationProduct(a, b)) == 0.0
  {
    if ps != [] {
      NoSpreadNoProduct(ps[..|ps| - 1], a, b);
    }
  }

  /** c * c <= m2 * m2y, for the co-moments about the means of any pairs. */
  lemma CauchySchwarz(ps: seq<Pair>)
    ensures M2(Xs(ps)) >= 0.0 && M2(Ys(ps)) >= 0.0
    ensures CoMoment(ps) * CoMoment(ps) <= M2(Xs(ps)) * M2(Ys(ps))
  {
    var a, b := Mean(Xs(ps)), Mean(Ys(ps));
    var u, v, c := M2(Xs(ps)), M2(Ys(ps)), CoMoment(ps);
    M2NonNegativeAbout(Xs(ps), a);
    M2NonNegativeAbout(Ys(ps), b);
    if u == 0.0 {
      assert forall i :: 0 <= i < |ps| ==> ps[i].0 == Xs(ps)[i];
      NoSpreadNoProduct(ps, a, b);
    } else {
      QuadraticNonNegative(ps, a, b, -c / u);
      Discriminant(u, v, c);
    }
  }

  lemma Discriminant(u: real, v: real, c: real)
    requires u > 0.0 && NonNegativeAt(-c / u, u, c, v)
    ensures c * c <= u * v
  {
    var t := -c / u;
    assert t * u == -c;
    assert t * t * u == t * (t * u) == -(t * c);
    assert t * c + v >= 0.0;
    assert u * (t * c + v) >= 0.0;
    assert u * (t * c) == (t * u) * c == -(c * c);
  }

  ghost predicate Constant(xs: seq<real>) {
    forall i, j :: 0 <= i < |xs| && 0 <= j < |xs| ==> xs[i] == xs[j]
  }

  /** The deviations vanish exactly when all values are equal. */
  lemma M2ZeroMeansConstant(xs: seq<real>)
    ensures M2(xs) == 0.0 <==> Constant(xs)
  {
    M2NonNegativeAbout(xs, Mean(xs));
    if xs != [] && forall i, j :: 0 <= i < |xs| && 0 <= j < |xs| ==> xs[i] == xs[j] {
      ConstantSums(xs, xs[0]);
      var n := |xs| as real;
      assert Mean(xs) == n * xs[0] / n == xs[0];
      ConstantDeviations(xs, xs[0]);
    }
  }

  lemma {:induction false} ConstantSums(xs: seq<real>, c: real)
    requires forall i :: 0 <= i < |xs| ==> xs[i] == c
    ensures Sum(xs) == |xs| as real * c
  {
    if xs != [] {
      ConstantSums(xs[..|xs| - 1], c);
      assert |xs| as real * c == (|xs| - 1) as real * c + c;
    }
  }

  lemma {:induction false} ConstantDeviations(xs: seq<real>, c: real)
    requires forall i :: 0 <= i < |xs| ==> xs[i] == c
    ensures Total(xs, SquaredDeviation(c)) == 0.0
  {
    if xs != [] {
      ConstantDeviations(xs[..|xs| - 1], c);
    }
  }

  // ---------------------------------------------------------------- order

  lemma {:induction false} TotalSplit<T>(s: seq<T>, t: seq<T>, g: T -> real)
    ensures Total(s + t, g) == Total(s, g) + Total(t, g)
  {
    if t == [] {
      assert s + t == s;
    } else {
      TotalSplit(s, t[..|t| - 1], g);
      assert s + t == (s + t[..|t| - 1]) + [t[|t| - 1]];
      Appended(s + t[..|t| - 1], t[|t| - 1], g);
    }
  }

  function Without<T>(t: seq<T>, j: nat): seq<T>
    requires j < |t|
  {
    t[..j] + t[j + 1..]
  }

  lemma WithoutTotal<T>(t: seq<T>, j: nat, g: T -> real)
    requires j < |t|
    ensures Total(t, g) == Total(Without(t, j), g) + g(t[j])
  {
    hide Total;
    assert t == (t[..j] + [t[j]]) + t[j + 1..];
    TotalSplit(t[..j], t[j + 1..], g);
    TotalSplit(t[..j] + [t[j]], t[j + 1..], g);
    Appended(t[..j], t[j], g);
  }

  lemma WithoutMultiset<T>(t: seq<T>, j: nat)
    requires j < |t|
    ensures multiset(Without(t, j)) == multiset(t) - multiset{t[j]}
  {
    assert t == t[..j] + ([t[j]] + t[j + 1..]);
  }

  /** A total depends on the multiset of its terms, not on their order. */
  lemma {:induction false} TotalIgnoresOrder<T>(s: seq<T>, t: seq<T>, g: T -> real)
    requires multiset(s) == multiset(t)
    ensures Total(s, g) == Total(t, g)
    decreases |s|
  {
    assert |multiset(s)| == |s| && |multiset(t)| == |t|;
    if s != [] {
      assert s[0] in multiset(t);
      var j :| 0 <= j < |t| && t[j] == s[0];
      WithoutTotal(s, 0, g);
      WithoutTotal(t, j, g);
      WithoutMultiset(s, 0);
      WithoutMultiset(t, j);
      TotalIgnoresOrder(Without(s, 0), Without(t, j), g);
    }
  }

  /** Neither the deviations nor the co-moment depends on the order of the input. */
  lemma M2IgnoresOrder(xs: seq<real>, ys: seq<real>)
    requires multiset(xs) == multiset(ys)
    ensures |xs| == |ys| && Mean(xs) == Mean(ys) && M2(xs) == M2(ys)
  {
    assert |xs| == |multiset(xs)| == |multiset(ys)| == |ys|;
    TotalIgnoresOrder(xs, ys, Identity());
    TotalIgnoresOrder(xs, ys, SquaredDeviation(Mean(xs)));
  }

  lemma {:induction false} ProjectedTotals(ps: seq<Pair>)
    ensures Sum(Xs(ps)) == Total(ps, (p: Pair) => p.0) && Sum(Ys(ps)) == Total(ps, (p: Pair) => p.1)
  {
    if ps != [] {
      var init, p := ps[..|ps| - 1], ps[|ps| - 1];
      ProjectedTotals(init);
      assert ps == init + [p];
      ProjectionsAppended(init, p);
      SumAppended(Xs(init), p.0);
      SumAppended(Ys(init), p.1);
    }
  }

  lemma CoMomentIgnoresOrder(ps: seq<Pair>, qs: seq<Pair>)
    requires multiset(ps) == multiset(qs)
    ensures |ps| == |qs| && CoMoment(ps) == CoMoment(qs)
  {
    assert |ps| == |multiset(ps)| == |multiset(qs)| == |qs|;
    ProjectedTotals(ps);
    ProjectedTotals(qs);
    TotalIgnoresOrder(ps, qs, (p: Pair) => p.0);
    TotalIgnoresOrder(ps, qs, (p: Pair) => p.1);
    TotalIgnoresOrder(ps, qs, DeviationProduct(Mean(Xs(ps)), Mean(Ys(ps))));
  }
}
