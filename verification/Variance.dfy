/** The variance of a counter over the ranks: combined pairwise by a parallel reduction, or kept
    up sample by sample. Both give the textbook value of all the samples. */
module Variance {

  // ---------------------------------------------------------------------------
  // The textbook definition
  // ---------------------------------------------------------------------------

  function Sum(xs: seq<real>): real {
    if xs == [] then 0.0 else Sum(xs[..|xs| - 1]) + xs[|xs| - 1]
  }

  function Mean(xs: seq<real>): real
    requires xs != []
  {
    Sum(xs) / |xs| as real
  }

  /** The sum of the squared deviations from m. */
  function Deviations(xs: seq<real>, m: real): real {
    if xs == [] then 0.0
    else Deviations(xs[..|xs| - 1], m) + (xs[|xs| - 1] - m) * (xs[|xs| - 1] - m)
  }

  function Spread(xs: seq<real>): real
    requires xs != []
  {
    Deviations(xs, Mean(xs))
  }

  function PopulationVariance(xs: seq<real>): real
    requires xs != []
  {
    Spread(xs) / |xs| as real
  }

  // ---------------------------------------------------------------------------
  // Sums of squares
  // ---------------------------------------------------------------------------

  function Square(x: real): real { x * x }

  /** One more sample's share of the sum and of the squared deviations, in numbers. */
  lemma SampleInNumbers(xs: seq<real>, x: real, m: real)
    ensures Sum(xs + [x]) == Sum(xs) + x && Deviations(xs + [x], m) == Deviations(xs, m) + (x - m) * (x - m)
    ensures Sum([]) == Deviations([], m) == 0.0
  {
    assert (xs + [x])[..|xs|] == xs;
  }

  lemma VarianceInNumbers(xs: seq<real>)
    requires xs != []
    ensures PopulationVariance(xs) == Deviations(xs, Sum(xs) / |xs| as real) / |xs| as real
  {
  }

  function Squares(xs: seq<real>): real {
    if xs == [] then 0.0 else Squares(xs[..|xs| - 1]) + Square(xs[|xs| - 1])
  }

  function Expanded(squares: real, sum: real, n: real, m: real): real {
    squares - 2.0 * m * sum + n * (m * m)
  }

  lemma OneMore(q: real, t: real, n: real, m: real, x: real)
    ensures Expanded(q, t, n, m) + (x - m) * (x - m) == Expanded(q + Square(x), t + x, n + 1.0, m)
  {
  }

  lemma {:induction false} DeviationsExpand(xs: seq<real>, m: real)
    ensures Deviations(xs, m) == Expanded(Squares(xs), Sum(xs), |xs| as real, m)
  {
    if xs != [] {
      var front := xs[..|xs| - 1];
      DeviationsExpand(front, m);
      OneMore(Squares(front), Sum(front), |front| as real, m, xs[|xs| - 1]);
    }
  }

  function Total(n: real, m: real): real { n * m }

  /** What sums of squares have over those of the mean. */
  function Above(n: real, m: real, squares: real): real {
    squares - n * Square(m)
  }

  lemma AtTheMean(n: real, m: real, t: real, squares: real)
    requires 0.0 < n && m == t / n
    ensures t == Total(n, m) && Expanded(squares, t, n, m) == Above(n, m, squares)
  {
    assert t == n * m;
    assert m * t == n * (m * m);
  }

  lemma SpreadIs(xs: seq<real>)
    requires xs != []
    ensures Sum(xs) == Total(|xs| as real, Mean(xs))
    ensures Spread(xs) == Above(|xs| as real, Mean(xs), Squares(xs))
  {
    DeviationsExpand(xs, Mean(xs));
    AtTheMean(|xs| as real, Mean(xs), Sum(xs), Squares(xs));
  }

  lemma {:induction false} SumsAdd(xs: seq<real>, ys: seq<real>)
    ensures Sum(xs + ys) == Sum(xs) + Sum(ys) && Squares(xs + ys) == Squares(xs) + Squares(ys)
  {
    if ys == [] {
      assert xs + ys == xs;
    } else {
      SumsAdd(xs, ys[..|ys| - 1]);
      assert (xs + ys)[..|xs + ys| - 1] == xs + ys[..|ys| - 1];
    }
  }

  /** The means u and v of a and b samples, and the mean w of all of them. */
  lemma TwoMeans(a: real, b: real, u: real, v: real, w: real)
    requires 0.0 < a && 0.0 < b && (a + b) * w == a * u + b * v
    ensures a * (u * u) + b * (v * v) - (a + b) * (w * w) == a * b / (a + b) * ((u - v) * (u - v))
  {
    var z := a + b;
    var d := (u - v) * (u - v);
    var left := a * (u * u) + b * (v * v) - z * (w * w);
    assert z * (z * (w * w)) == (a * u + b * v) * (a * u + b * v) by {
      assert z * (z * (w * w)) == (z * w) * (z * w);
    }
    assert z * left == a * b * d by {
      TwoMeansExpand(a, b, u, v);
      assert z * left == z * (a * (u * u) + b * (v * v)) - z * (z * (w * w));
    }
    assert left == a * b * d / z;
    assert a * b * d / z == a * b / z * d;
  }

  /** The part of the spread that lies between two groups of a and b samples with means u and v. */
  function Between(a: real, b: real, u: real, v: real): real
    requires 0.0 < a && 0.0 < b
  {
    a * b / (a + b) * ((u - v) * (u - v))
  }

  lemma TwoMeansExpand(a: real, b: real, u: real, v: real)
    ensures (a + b) * (a * (u * u) + b * (v * v)) - (a * u + b * v) * (a * u + b * v) == a * b * ((u - v) * (u - v))
  {
  }

  lemma SpreadsJoin(a: real, b: real, u: real, v: real, w: real, q: real, r: real)
    requires 0.0 < a && 0.0 < b && Total(a + b, w) == Total(a, u) + Total(b, v)
    ensures Above(a + b, w, q + r) == Above(a, u, q) + Above(b, v, r) + Between(a, b, u, v)
  {
    TwoMeans(a, b, u, v, w);
  }

  /** What joining two samples adds to their spreads. */
  lemma SpreadOfBoth(xs: seq<real>, ys: seq<real>)
    requires xs != [] && ys != []
    ensures Spread(xs + ys) == Spread(xs) + Spread(ys) + Between(|xs| as real, |ys| as real, Mean(xs), Mean(ys))
  {
    SpreadIs(xs);
    SpreadIs(ys);
    SpreadIs(xs + ys);
    SumsAdd(xs, ys);
    assert |xs + ys| as real == |xs| as real + |ys| as real;
    SpreadsJoin(|xs| as real, |ys| as real, Mean(xs), Mean(ys), Mean(xs + ys), Squares(xs), Squares(ys));
  }

  // ---------------------------------------------------------------------------
  // The reduction
  // ---------------------------------------------------------------------------

  /** A number of samples, their sum, and their squared deviations from the mean. */
  datatype Summary = Summary(n: real, T: real, S: real)

  function Exact(xs: seq<real>): Summary
    requires xs != []
  {
    Summary(|xs| as real, Sum(xs), Spread(xs))
  }

  /** One step of the reduction. */
  function Reduce(X: Summary, Y: Summary): Summary
    requires 0.0 < X.n && 0.0 < Y.n
  {
    var n := X.n + Y.n;
    var d := Y.n / X.n * X.T - Y.T;
    Summary(n, X.T + Y.T, X.S + Y.S + X.n / (Y.n * n) * d * d)
  }

  lemma ScaledDifference(a: real, b: real, t: real, r: real, u: real, v: real)
    requires 0.0 < a && 0.0 < b && t == u * a && r == v * b
    ensures b / a * t - r == b * (u - v)
  {
    assert b / a * t == b * u by {
      assert b / a * (u * a) == b / a * a * u;
    }
  }

  lemma ScaledTerm(a: real, b: real, e: real)
    requires 0.0 < a && 0.0 < b
    ensures a / (b * (a + b)) * (b * e) * (b * e) == a * b / (a + b) * (e * e)
  {
    var z := a + b;
    var k := a / (b * z);
    assert k * (b * z) == a by { assert b * z != 0.0; }
    assert k * b == a / z by {
      assert k * b * z == k * (b * z);
    }
    assert k * (b * e) * (b * e) == k * b * b * (e * e);
    assert a / z * b == a * b / z;
  }

  lemma ReduceByMeans(a: real, b: real, t: real, r: real, s: real, p: real, u: real, v: real)
    requires 0.0 < a && 0.0 < b && t == Total(a, u) && r == Total(b, v)
    ensures Reduce(Summary(a, t, s), Summary(b, r, p)) == Summary(a + b, t + r, s + p + Between(a, b, u, v))
  {
    ScaledDifference(a, b, t, r, u, v);
    ScaledTerm(a, b, u - v);
  }

  /** Reducing the exact summaries of two non-empty samples gives that of their union. */
  lemma ReduceIsExact(xs: seq<real>, ys: seq<real>)
    requires xs != [] && ys != []
    ensures Reduce(Exact(xs), Exact(ys)) == Exact(xs + ys)
  {
    SpreadIs(xs);
    SpreadIs(ys);
    ReduceByMeans(|xs| as real, |ys| as real, Sum(xs), Sum(ys), Spread(xs), Spread(ys), Mean(xs), Mean(ys));
    SpreadOfBoth(xs, ys);
    SumsAdd(xs, ys);
  }

  method Combine(X: Summary, Y: Summary) returns (Z: Summary)
    requires 0.0 < X.n && 0.0 < Y.n
    ensures Z == Reduce(X, Y)
  {
    var n := X.n + Y.n;
    var T := X.T + Y.T;
    var d := Y.n / X.n * X.T - Y.T;
    var S := X.S + Y.S + X.n / (Y.n * n) * d * d;
    Z := Summary(n, T, S);
  }

  /** The reduction operator, on one summary for each shared record. */
  method VarianceReduce(X: array<Summary>, Y: array<Summary>)
    requires X.Length == Y.Length && X != Y
    requires forall i :: 0 <= i < X.Length ==> 0.0 < X[i].n && 0.0 < Y[i].n
    modifies Y
    ensures forall i :: 0 <= i < Y.Length ==> Y[i] == Reduce(X[i], old(Y[i]))
  {
    for i := 0 to X.Length
      invariant forall k :: 0 <= k < i ==> Y[k] == Reduce(X[k], old(Y[k]))
      invariant forall k :: i <= k < Y.Length ==> Y[k] == old(Y[k])
    {
      Y[i] := Combine(X[i], Y[i]);
    }
  }

  /** The order in which a reduction over the ranks combines them. */
  datatype Tree = Leaf(sample: real) | Node(left: Tree, right: Tree)

  function Samples(t: Tree): (xs: seq<real>)
    ensures xs != []
  {
    match t
    case Leaf(x) => [x]
    case Node(l, r) => Samples(l) + Samples(r)
  }

  /** Each rank contributes one sample. */
  function ReduceTree(t: Tree): (s: Summary)
    ensures 0.0 < s.n
  {
    match t
    case Leaf(x) => Summary(1.0, x, 0.0)
    case Node(l, r) => Reduce(ReduceTree(l), ReduceTree(r))
  }

  lemma SpreadOfOne(x: real)
    ensures Sum([x]) == x && Mean([x]) == x && Spread([x]) == 0.0
  {
    assert [x][..0] == [];
    assert Sum([x]) == Sum([]) + x && Sum([]) == 0.0;
    assert Mean([x]) == x / 1.0 == x;
    assert Deviations([x], x) == Deviations([], x) + (x - x) * (x - x);
  }

  /** Any reduction tree gives the exact summary of its samples. */
  lemma {:induction false} EveryTreeIsExact(t: Tree)
    ensures ReduceTree(t) == Exact(Samples(t))
  {
    match t
    case Leaf(x) => SpreadOfOne(x);
    case Node(l, r) =>
      EveryTreeIsExact(l);
      EveryTreeIsExact(r);
      ReduceIsExact(Samples(l), Samples(r));
  }

  function Itself(x: real): real { x }

  function SumOf(f: real -> real, xs: seq<real>): real {
    if xs == [] then 0.0 else SumOf(f, xs[..|xs| - 1]) + f(xs[|xs| - 1])
  }

  lemma {:induction false} SumsAreSumsOf(xs: seq<real>)
    ensures Sum(xs) == SumOf(Itself, xs) && Squares(xs) == SumOf(Square, xs)
  {
    if xs != [] {
      SumsAreSumsOf(xs[..|xs| - 1]);
    }
  }

  lemma {:induction false} SumOfWithout(f: real -> real, ys: seq<real>, i: nat)
    requires i < |ys|
    ensures SumOf(f, ys) == SumOf(f, ys[..i] + ys[i + 1..]) + f(ys[i])
  {
    var n := |ys| - 1;
    if i == n {
      assert ys[..i] + ys[i + 1..] == ys[..n];
    } else {
      var front, rest := ys[..n], ys[..i] + ys[i + 1..];
      SumOfWithout(f, front, i);
      assert rest[..|rest| - 1] == front[..i] + front[i + 1..] && front[i] == ys[i];
    }
  }

  lemma SameWithout(xs: seq<real>, ys: seq<real>, i: nat)
    requires multiset(xs) == multiset(ys) && i < |ys| && xs != [] && xs[|xs| - 1] == ys[i]
    ensures multiset(xs[..|xs| - 1]) == multiset(ys[..i] + ys[i + 1..])
  {
    var n := |xs| - 1;
    TakenOut(xs, n);
    TakenOut(ys, i);
    assert xs[..n] + xs[n + 1..] == xs[..n];
  }

  lemma TakenOut(xs: seq<real>, i: nat)
    requires i < |xs|
    ensures multiset(xs[..i] + xs[i + 1..]) == multiset(xs) - multiset{xs[i]}
  {
    assert xs == xs[..i] + [xs[i]] + xs[i + 1..];
  }

  lemma {:induction false} SumOfRearranged(f: real -> real, xs: seq<real>, ys: seq<real>)
    requires multiset(xs) == multiset(ys)
    ensures SumOf(f, xs) == SumOf(f, ys) && |xs| == |ys|
  {
    assert |multiset(xs)| == |xs| && |multiset(ys)| == |ys|;
    if xs != [] {
      var n := |xs| - 1;
      assert xs[n] in multiset(ys);
      var i :| 0 <= i < |ys| && ys[i] == xs[n];
      SameWithout(xs, ys, i);
      SumOfRearranged(f, xs[..n], ys[..i] + ys[i + 1..]);
      SumOfWithout(f, ys, i);
    }
  }

  lemma ExactIsDetermined(xs: seq<real>, ys: seq<real>)
    requires xs != [] && ys != [] && |xs| == |ys| && Sum(xs) == Sum(ys) && Squares(xs) == Squares(ys)
    ensures Exact(xs) == Exact(ys)
  {
    SpreadIs(xs);
    SpreadIs(ys);
  }

  /** So the result depends neither on the shape of the tree nor on the order of the ranks. */
  lemma TreesAgree(t: Tree, u: Tree)
    requires multiset(Samples(t)) == multiset(Samples(u))
    ensures ReduceTree(t) == ReduceTree(u)
  {
    EveryTreeIsExact(t);
    EveryTreeIsExact(u);
    SumsAreSumsOf(Samples(t));
    SumsAreSumsOf(Samples(u));
    SumOfRearranged(Itself, Samples(t), Samples(u));
    SumOfRearranged(Square, Samples(t), Samples(u));
    ExactIsDetermined(Samples(t), Samples(u));
  }

  // ---------------------------------------------------------------------------
  // The running form
  // ---------------------------------------------------------------------------

  function Toward(m: real, x: real, n: real): real
    requires 0.0 < n
  {
    m + (x - m) / n
  }

  function Product(x: real, w: real, m: real): real { (x - w) * (x - m) }

  lemma MeanMoves(n: real, m: real, x: real, w: real)
    requires 0.0 < n && Total(n + 1.0, w) == Total(n, m) + Total(1.0, x)
    ensures w == Toward(m, x, n + 1.0) && Product(x, w, m) == Between(n, 1.0, m, x)
  {
    var z := n + 1.0;
    assert (w - m) * z == x - m;
    assert w - m == (x - m) / z;
    assert (x - w) * z == n * (x - m);
    assert x - w == n * (x - m) / z;
    assert n * (x - m) / z == n / z * (x - m);
    assert n / z * (x - m) * (x - m) == n / z * ((x - m) * (x - m));
    assert (x - m) * (x - m) == (m - x) * (m - x);
  }

  /** One sample more: the mean moves by its share of the difference, and the spread grows by the
      product of the two differences. */
  lemma OneMoreSample(xs: seq<real>, x: real)
    requires xs != []
    ensures var m, w, n := Mean(xs), Mean(xs + [x]), |xs| as real + 1.0;
            && w == Toward(m, x, n)
            && Spread(xs + [x]) == Spread(xs) + Product(x, w, m)
  {
    var n, m, w := |xs| as real, Mean(xs), Mean(xs + [x]);
    SpreadOfOne(x);
    SpreadOfBoth(xs, [x]);
    SpreadIs(xs);
    SpreadIs(xs + [x]);
    SpreadIs([x]);
    SumsAdd(xs, [x]);
    MeanMoves(n, m, x, w);
  }

  lemma NextValues(xs: seq<real>, x: real, n: real, m: real, s: real)
    requires xs != [] && n == |xs| as real + 1.0 && m == Mean(xs) && s == Spread(xs)
    ensures n == |xs + [x]| as real
    ensures var w := m + (x - m) / n;
      && w == Mean(xs + [x]) && s + (x - w) * (x - m) == Spread(xs + [x])
      && (s + (x - w) * (x - m)) / n == PopulationVariance(xs + [x])
  {
    OneMoreSample(xs, x);
  }

  /** The running count, mean and spread of a counter, and the variance written to the aggregate
      record: none until there is a second sample. */
  class RunningVariance {
    var n: real
    var M: real
    var S: real
    var variance: real

    ghost predicate Holds(xs: seq<real>)
      reads this
      requires xs != []
    {
      && n == |xs| as real && M == Mean(xs) && S == Spread(xs)
      && (1 < |xs| ==> variance == PopulationVariance(xs))
    }

    method Start(x: real)
      modifies this
      ensures Holds([x]) && variance == old(variance)
    {
      n := 1.0;
      M := x;
      S := 0.0;
      SpreadOfOne(x);
    }

    method Update(x: real, ghost xs: seq<real>)
      requires xs != [] && Holds(xs)
      modifies this
      ensures Holds(xs + [x])
    {
      NextValues(xs, x, n + 1.0, M, S);
      var oldM := M;
      n := n + 1.0;
      M := M + (x - M) / n;
      S := S + (x - M) * (x - oldM);
      variance := S / n;
    }
  }

  /** The running form over the ranks in order, and the reduction in any tree over the same
      samples, report the same variance. */
  method RunningAgreesWithReduction(r: RunningVariance, xs: seq<real>, ghost t: Tree)
    requires xs == Samples(t) && 1 < |xs|
    modifies r
    ensures r.variance == PopulationVariance(xs) == ReduceTree(t).S / ReduceTree(t).n
  {
    r.Start(xs[0]);
    assert xs[..1] == [xs[0]];
    for i := 1 to |xs|
      invariant r.Holds(xs[..i])
    {
      r.Update(xs[i], xs[..i]);
      assert xs[..i + 1] == xs[..i] + [xs[i]];
    }
    assert xs[..|xs|] == xs;
    EveryTreeIsExact(t);
  }
}
