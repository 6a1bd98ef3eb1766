/**
  Degree assortativity of src/assort.rs.

  The source accumulates floating-point sums of integer values, so every sum is exact and is
  modelled as an integer; the final quotient is an exact `real`. Each edge is seen once, as
  the pair of the degrees of its two endpoints.
*/
module Assortativity {
  import opened Graphs

  /** The degrees of the two endpoints of every edge, in edge order. */
  function EndDegrees<P>(g: Graph<P>): (r: seq<(nat, nat)>)
    ensures |r| == |g.edges|
  {
    seq(|g.edges|, i requires 0 <= i < |g.edges| => (Degree(g, g.edges[i].u), Degree(g, g.edges[i].v)))
  }

  /** `sum1`: the products of the endpoint degrees. */
  function Products(ds: seq<(nat, nat)>): nat
    decreases |ds|
  {
    if ds == [] then 0 else Products(ds[..|ds| - 1]) + ds[|ds| - 1].0 * ds[|ds| - 1].1
  }

  /** `sum2`: the sums of the endpoint degrees. */
  function Totals(ds: seq<(nat, nat)>): nat
    decreases |ds|
  {
    if ds == [] then 0 else Totals(ds[..|ds| - 1]) + ds[|ds| - 1].0 + ds[|ds| - 1].1
  }

  /** `sum3`: the sums of the squared endpoint degrees. */
  function Squares(ds: seq<(nat, nat)>): nat
    decreases |ds|
  {
    if ds == [] then 0
    else
      var d := ds[|ds| - 1];
      Squares(ds[..|ds| - 1]) + d.0 * d.0 + d.1 * d.1
  }

  /** The squares of the per-edge degree sums; only the proofs use it. */
  function TotalSquares(ds: seq<(nat, nat)>): nat
    decreases |ds|
  {
    if ds == [] then 0
    else
      var d := ds[|ds| - 1];
      TotalSquares(ds[..|ds| - 1]) + (d.0 + d.1) * (d.0 + d.1)
  }

  /** `edge_count * sum - (sum2 / 2)^2`, the shape of both the numerator and the denominator. */
  function Centred(edgeCount: real, sum: real, sum2: real): real {
    edgeCount * sum - (sum2 * 0.5) * (sum2 * 0.5)
  }

  /** `numerator`, with `edge_count = |ds|`. */
  function Numerator(ds: seq<(nat, nat)>): real {
    Centred(|ds| as real, Products(ds) as real, Totals(ds) as real)
  }

  /** `denominator`, with `edge_count = |ds|`. */
  function Denominator(ds: seq<(nat, nat)>): real {
    Centred(|ds| as real, Squares(ds) as real, Totals(ds) as real)
  }

  /** The value returned for a numerator and a denominator: their quotient, or 0 when the
      denominator is 0. */
  function Quotient(num: real, den: real): real {
    if den != 0.0 then num / den else 0.0
  }

  /** The coefficient the source returns for the edges' endpoint degrees. */
  function Coefficient(ds: seq<(nat, nat)>): real {
    Quotient(Numerator(ds), Denominator(ds))
  }

  // ---------------------------------------------------------------------------
  // the coefficient lies in [-1, 1]
  // ---------------------------------------------------------------------------

  /** Per edge, the product is at most the sum of squares, and the squared sum is at most
      twice the product plus twice the sum of squares. */
  lemma {:induction false} SumOrder(ds: seq<(nat, nat)>)
    ensures Products(ds) <= Squares(ds)
    ensures TotalSquares(ds) <= 2 * (Products(ds) + Squares(ds))
    decreases |ds|
  {
    if ds != [] {
      SumOrder(ds[..|ds| - 1]);
      var a, b := ds[|ds| - 1].0, ds[|ds| - 1].1;
      assert a * b <= a * a + b * b by {
        if a <= b { assert a * b <= b * b; } else { assert a * b <= a * a; }
      }
      assert (a + b) * (a + b) == a * a + 2 * (a * b) + b * b;
    }
  }

  lemma MulMonotone(m: nat, a: int, b: int)
    requires a <= b
    ensures m * a <= m * b
  {
  }

  lemma NonNegativeFactor(n: int, x: int)
    requires n > 0 && n * x >= 0
    ensures x >= 0
  {
  }

  /** The induction step of Cauchy-Schwarz: from `s^2 <= n t` to `(s+b)^2 <= (n+1)(t+b^2)`. */
  lemma CauchySchwarzStep(n: nat, s: int, t: int, b: int)
    requires s * s <= n * t && (n == 0 ==> s == 0 && t == 0)
    ensures (s + b) * (s + b) <= (n + 1) * (t + b * b)
  {
    if n > 0 {
      var nb := n * b;
      var gap := t + n * (b * b) - 2 * (s * b);
      assert n * gap == n * t + nb * nb - 2 * (s * nb);
      assert (s - nb) * (s - nb) == s * s - 2 * (s * nb) + nb * nb;
      NonNegativeFactor(n, gap);
      assert (s + b) * (s + b) == s * s + 2 * (s * b) + b * b;
      assert (n + 1) * (t + b * b) == n * t + t + n * (b * b) + b * b;
    }
  }

  /** Cauchy-Schwarz over the per-edge degree sums: `sum2^2 <= m * sum((d_u + d_v)^2)`. */
  lemma {:induction false} CauchySchwarz(ds: seq<(nat, nat)>)
    ensures Totals(ds) * Totals(ds) <= |ds| * TotalSquares(ds)
    decreases |ds|
  {
    if ds != [] {
      var init := ds[..|ds| - 1];
      CauchySchwarz(init);
      var b := ds[|ds| - 1].0 + ds[|ds| - 1].1;
      CauchySchwarzStep(|init|, Totals(init), TotalSquares(init), b);
    }
  }

  /** A numerator bounded on both sides by the denominator gives a value in [-1, 1]. */
  lemma QuotientBounds(num: real, den: real)
    requires -den <= num <= den
    ensures -1.0 <= Quotient(num, den) <= 1.0
  {
    if den != 0.0 {
      assert den > 0.0;
      assert num / den * den == num;
    }
  }

  /** The real form of the two inequalities `m p <= m q` and `s^2 <= 2 m (p + q)`. */
  lemma RealBounds(m: nat, p: nat, s: nat, q: nat)
    requires p <= q && s * s <= 2 * (m * (p + q))
    ensures -Centred(m as real, q as real, s as real) <= Centred(m as real, p as real, s as real)
    ensures Centred(m as real, p as real, s as real) <= Centred(m as real, q as real, s as real)
  {
    var half := s as real * 0.5;
    assert half * half == (s * s) as real / 4.0;
    assert m * p <= m * q;
    assert m as real * p as real == (m * p) as real;
    assert m as real * q as real == (m * q) as real;
  }

  /** The denominator bounds the numerator from both sides, so the coefficient is a value in
      [-1, 1]. */
  lemma CoefficientBounds(ds: seq<(nat, nat)>)
    ensures -Denominator(ds) <= Numerator(ds) <= Denominator(ds)
    ensures -1.0 <= Coefficient(ds) <= 1.0
  {
    SumOrder(ds);
    CauchySchwarz(ds);
    var m, p, s, q := |ds|, Products(ds), Totals(ds), Squares(ds);
    MulMonotone(m, TotalSquares(ds), 2 * (p + q));
    RealBounds(m, p, s, q);
    QuotientBounds(Numerator(ds), Denominator(ds));
  }

  // ---------------------------------------------------------------------------
  // the accumulating loop
  // ---------------------------------------------------------------------------

  /** The loop over `edge_references()`: the three sums and the edge count. */
  method Accumulate<P>(g: Graph<P>) returns (sum1: real, sum2: real, sum3: real, edgeCount: real)
    ensures sum1 == Products(EndDegrees(g)) as real
    ensures sum2 == Totals(EndDegrees(g)) as real
    ensures sum3 == Squares(EndDegrees(g)) as real
    ensures edgeCount == |g.edges| as real
  {
    ghost var ds := EndDegrees(g);
    sum1, sum2, sum3, edgeCount := 0.0, 0.0, 0.0, 0.0;
    for i := 0 to |g.edges|
      invariant sum1 == Products(ds[..i]) as real
      invariant sum2 == Totals(ds[..i]) as real
      invariant sum3 == Squares(ds[..i]) as real
      invariant edgeCount == i as real
    {
      var edge := g.edges[i];
      var sourceDegree := |Neighbors(g, edge.u)|;
      var targetDegree := |Neighbors(g, edge.v)|;
      assert ds[..i + 1][..i] == ds[..i];
      sum1 := sum1 + (sourceDegree * targetDegree) as real;
      sum2 := sum2 + (sourceDegree + targetDegree) as real;
      sum3 := sum3 + (sourceDegree * sourceDegree + targetDegree * targetDegree) as real;
      edgeCount := edgeCount + 1.0;
    }
    assert ds[..|g.edges|] == ds;
  }

  /** The closing arithmetic: numerator, denominator and their guarded quotient. */
  method Combine(sum1: real, sum2: real, sum3: real, edgeCount: real) returns (r: real)
    ensures r == Quotient(Centred(edgeCount, sum1, sum2), Centred(edgeCount, sum3, sum2))
  {
    var numerator := edgeCount * sum1 - (sum2 * 0.5) * (sum2 * 0.5);
    var denominator := edgeCount * sum3 - (sum2 * 0.5) * (sum2 * 0.5);
    if denominator != 0.0 {
      r := numerator / denominator;
    } else {
      r := 0.0;
    }
  }

  /** calculate_assortativity_coefficient (src/assort.rs:7-38), on an undirected graph. */
  method AssortativityCoefficient<P>(g: Graph<P>) returns (r: real)
    ensures r == Coefficient(EndDegrees(g))
    ensures -1.0 <= r <= 1.0
    ensures g.edges == [] ==> r == 0.0
  {
    var sum1, sum2, sum3, edgeCount := Accumulate(g);
    r := Combine(sum1, sum2, sum3, edgeCount);
    CoefficientBounds(EndDegrees(g));
  }

  // ---------------------------------------------------------------------------
  // the source's test graphs
  // ---------------------------------------------------------------------------

  /** Appending one edge adds its terms to the three sums. */
  lemma SumsSnoc(ds: seq<(nat, nat)>, d: (nat, nat))
    ensures Products(ds + [d]) == Products(ds) + d.0 * d.1
    ensures Totals(ds + [d]) == Totals(ds) + d.0 + d.1
    ensures Squares(ds + [d]) == Squares(ds) + d.0 * d.0 + d.1 * d.1
  {
    assert (ds + [d])[..|ds|] == ds;
  }

  /** The path n1-n2-n3-n4: endpoint degrees (1,2), (2,2), (2,1). */
  function Line(): Graph<()> {
    Graph([(), (), (), ()], [Edge(0, 1, 1.0), Edge(1, 2, 1.0), Edge(2, 3, 1.0)])
  }

  /** A centre joined to three leaves: endpoint degrees (3,1) three times. */
  function Star(): Graph<()> {
    Graph([(), (), (), ()], [Edge(0, 1, 1.0), Edge(0, 2, 1.0), Edge(0, 3, 1.0)])
  }

  /** The walks of a three-edge list, one appended edge at a time. */
  lemma ThreeEdges(e0: Edge, e1: Edge, e2: Edge, x: nat)
    ensures OutAdj([e0, e1, e2], x) ==
      (if e2.u == x then [Adj(e2.v, e2.w)] else []) + (if e1.u == x then [Adj(e1.v, e1.w)] else [])
      + (if e0.u == x then [Adj(e0.v, e0.w)] else [])
    ensures InAdj([e0, e1, e2], x) ==
      (if e2.v == x && e2.u != x then [Adj(e2.u, e2.w)] else [])
      + (if e1.v == x && e1.u != x then [Adj(e1.u, e1.w)] else [])
      + (if e0.v == x && e0.u != x then [Adj(e0.u, e0.w)] else [])
  {
    AdjSnoc([], e0);
    AdjSnoc([e0], e1);
    AdjSnoc([e0, e1], e2);
    assert [] + [e0] == [e0] && [e0] + [e1] == [e0, e1] && [e0, e1] + [e2] == [e0, e1, e2];
  }

  lemma LineDegrees()
    ensures EndDegrees(Line()) == [(1, 2), (2, 2), (2, 1)]
  {
    var g := Line();
    forall x | x < 4
      ensures Degree(g, x) == if x == 0 || x == 3 then 1 else 2
    {
      ThreeEdges(g.edges[0], g.edges[1], g.edges[2], x);
      assert g.edges == [g.edges[0], g.edges[1], g.edges[2]];
    }
  }

  lemma StarDegrees()
    ensures EndDegrees(Star()) == [(3, 1), (3, 1), (3, 1)]
  {
    var g := Star();
    forall x | x < 4
      ensures Degree(g, x) == if x == 0 then 3 else 1
    {
      ThreeEdges(g.edges[0], g.edges[1], g.edges[2], x);
      assert g.edges == [g.edges[0], g.edges[1], g.edges[2]];
    }
  }

  /** The three sums over a three-edge list, term by term. */
  lemma ThreeSums(d0: (nat, nat), d1: (nat, nat), d2: (nat, nat))
    ensures Products([d0, d1, d2]) == d0.0 * d0.1 + d1.0 * d1.1 + d2.0 * d2.1
    ensures Totals([d0, d1, d2]) == d0.0 + d0.1 + d1.0 + d1.1 + d2.0 + d2.1
    ensures Squares([d0, d1, d2]) ==
      d0.0 * d0.0 + d0.1 * d0.1 + d1.0 * d1.0 + d1.1 * d1.1 + d2.0 * d2.0 + d2.1 * d2.1
  {
    var s1: seq<(nat, nat)> := [d0];
    var s2 := s1 + [d1];
    SumsSnoc([], d0);
    assert [] + [d0] == s1;
    SumsSnoc(s1, d1);
    SumsSnoc(s2, d2);
    assert s2 + [d2] == [d0, d1, d2];
  }

  lemma LineSums()
    ensures var ds: seq<(nat, nat)> := [(1, 2), (2, 2), (2, 1)];
      Products(ds) == 8 && Totals(ds) == 10 && Squares(ds) == 18
  {
    ThreeSums((1, 2), (2, 2), (2, 1));
  }

  lemma StarSums()
    ensures var ds: seq<(nat, nat)> := [(3, 1), (3, 1), (3, 1)];
      Products(ds) == 9 && Totals(ds) == 12 && Squares(ds) == 30
  {
    ThreeSums((3, 1), (3, 1), (3, 1));
  }

  /** sum1 = 8, sum2 = 10, sum3 = 18, three edges: (24 - 25) / (54 - 25). */
  lemma LineCoefficient()
    ensures Coefficient(EndDegrees(Line())) == -1.0 / 29.0
  {
    LineDegrees();
    LineSums();
    assert Centred(3.0, 8.0, 10.0) == -1.0 && Centred(3.0, 18.0, 10.0) == 29.0;
  }

  /** sum1 = 9, sum2 = 12, sum3 = 30, three edges: (27 - 36) / (90 - 36). */
  lemma StarCoefficient()
    ensures Coefficient(EndDegrees(Star())) == -1.0 / 6.0
  {
    StarDegrees();
    StarSums();
    assert Centred(3.0, 9.0, 12.0) == -9.0 && Centred(3.0, 30.0, 12.0) == 54.0;
  }
}
