/** The aggregation that follows `iterate_qs`: the kappa coefficients
    (`calculate_kappa`), the kappa-weighted sum of the line snapshots
    (`calculate_psi_approx`), the running sums of the squared kappas
    (`psi_approx_squared`) and their reciprocals, the effective resistances
    (`calculate_effective_resistances`). `betas` and the snapshots are those
    of a `Trace`; indices are 0-based as in the Python lists. */
module Aggregation {
  import opened Wrappers
  import opened Reals
  import opened Topology
  import opened Recurrence

  /** The betas `calculate_kappa` divides by, `betas[1]`, `betas[3]`, ... up
      to the last complete pair, are non-zero. */
  predicate OddNonZero(betas: seq<real>) {
    forall k | 0 <= k < 2 * (|betas| / 2) && k % 2 == 1 :: betas[k] != 0.0
  }

  /** `(-1)**k`. */
  function NegOnePow(k: nat): real
    decreases k
  {
    if k == 0 then 1.0 else -NegOnePow(k - 1)
  }

  /** The factor `betas[2j] / betas[2j+1]` pair `j + 1` contributes. */
  function Ratio(betas: seq<real>, j: nat): real
    requires 1 <= j < |betas| / 2 && OddNonZero(betas)
  {
    assert (2 * j + 1) % 2 == 1;
    betas[2 * j] / betas[2 * j + 1]
  }

  /** `product_ratios` once the inner loop of pair `i` is done: the product
      of `betas[2j] / betas[2j+1]` for j = 1 .. i-1. */
  function Ratios(betas: seq<real>, i: nat): real
    requires 1 <= i <= |betas| / 2 && OddNonZero(betas)
    decreases i
  {
    if i == 1 then 1.0 else Ratios(betas, i - 1) * Ratio(betas, i - 1)
  }

  /** The kappas as a recurrence: the first is `iw / betas[1]` (so that
      kappa_1 * beta_2 equals the injected power), and each next one is the
      previous one times `-betas[2m] / betas[2m+1]`. */
  function Kappa(iw: real, betas: seq<real>, m: nat): real
    requires 1 <= m <= |betas| / 2 && OddNonZero(betas)
    decreases m
  {
    if m == 1 then iw / betas[1]
    else -Kappa(iw, betas, m - 1) * Ratio(betas, m - 1)
  }

  /** The closed form the loop of `calculate_kappa` evaluates,
      `(-1)**(i-1) * (iw / betas[1]) * product_ratios`, is the recurrence. */
  lemma {:induction false} KappaClosedForm(iw: real, betas: seq<real>, i: nat)
    requires 1 <= i <= |betas| / 2 && OddNonZero(betas)
    ensures NegOnePow(i - 1) * (iw / betas[1]) * Ratios(betas, i) == Kappa(iw, betas, i)
    decreases i
  {
    if i > 1 {
      KappaClosedForm(iw, betas, i - 1);
      var s := NegOnePow(i - 2);
      var c := iw / betas[1];
      var p := Ratios(betas, i - 1);
      var q := Ratio(betas, i - 1);
      assert NegOnePow(i - 1) == -s;
      assert Ratios(betas, i) == p * q;
      assert Kappa(iw, betas, i) == -(s * c * p) * q;
      Regroup(s, c, p, q);
    }
  }

  lemma Regroup(s: real, c: real, p: real, q: real)
    ensures (-s) * c * (p * q) == -(s * c * p) * q
  {
  }

  /** The `i == 1` override assigns what the general formula gives anyway. */
  lemma KappaOverrideAgrees(iw: real, betas: seq<real>)
    requires 1 <= |betas| / 2 && OddNonZero(betas)
    ensures NegOnePow(0) * (iw / betas[1]) * Ratios(betas, 1) == iw / betas[1]
  {
  }

  /** `calculate_kappa`: one kappa per complete pair of snapshots, each
      computed afresh from the closed form. */
  method CalculateKappa(iw: real, betas: seq<real>) returns (kappas: seq<real>)
    requires OddNonZero(betas)
    ensures |kappas| == |betas| / 2
    ensures forall m | 0 <= m < |kappas| :: kappas[m] == Kappa(iw, betas, m + 1)
  {
    kappas := [];
    var i := 1;
    while i <= |betas| / 2
      invariant 1 <= i <= |betas| / 2 + 1
      invariant |kappas| == i - 1
      invariant forall m | 0 <= m < |kappas| :: kappas[m] == Kappa(iw, betas, m + 1)
    {
      var product := 1.0;
      var j := 1;
      while j < i
        invariant 1 <= j <= i
        invariant product == Ratios(betas, j)
      {
        product := product * Ratio(betas, j);
        j := j + 1;
      }
      var kappa := NegOnePow(i - 1) * (iw / betas[1]) * product;
      if i == 1 {
        kappa := iw / betas[1];
      }
      KappaClosedForm(iw, betas, i);
      kappas := kappas + [kappa];
      i := i + 1;
    }
  }

  lemma ProductSign(x: real, q: real)
    requires 0.0 < q
    ensures 0.0 < x ==> 0.0 < x * q
    ensures x < 0.0 ==> x * q < 0.0
    ensures x == 0.0 ==> x * q == 0.0
  {
  }

  /** With positive betas the kappas alternate in sign, starting with the
      sign of `iw`: `(-1)**(m-1) * kappa_m` has the sign of `iw`. */
  lemma {:induction false} KappaSign(iw: real, betas: seq<real>, m: nat)
    requires 1 <= m <= |betas| / 2 && OddNonZero(betas)
    requires forall k | 1 <= k < 2 * m :: 0.0 < betas[k]
    ensures 0.0 < iw ==> 0.0 < NegOnePow(m - 1) * Kappa(iw, betas, m)
    ensures iw < 0.0 ==> NegOnePow(m - 1) * Kappa(iw, betas, m) < 0.0
    ensures iw == 0.0 ==> Kappa(iw, betas, m) == 0.0
    decreases m
  {
    if m == 1 {
      ProductSign(iw, 1.0 / betas[1]);
      assert iw / betas[1] == iw * (1.0 / betas[1]);
    } else {
      KappaSign(iw, betas, m - 1);
      var q := Ratio(betas, m - 1);
      var x := NegOnePow(m - 2) * Kappa(iw, betas, m - 1);
      assert 0.0 < q;
      calc {
        NegOnePow(m - 1) * Kappa(iw, betas, m);
        (-NegOnePow(m - 2)) * (-Kappa(iw, betas, m - 1) * q);
        x * q;
      }
      ProductSign(x, q);
      if iw == 0.0 {
        assert Kappa(iw, betas, m) == -0.0 * q;
      }
    }
  }

  /** What `calculate_psi_approx` returns (`psi_app`) and what it leaves in
      `self.psis`. */
  datatype PsiOutput = PsiOutput(psi: map<Vertex, real>, psis: seq<map<Vertex, real>>)

  /** The accumulation touches only vertices of the graph: every line
      snapshot `snaps[1]`, `snaps[3]`, ... of the first `m` pairs has its
      keys among `vs`. */
  predicate Covered(vs: set<Vertex>, snaps: seq<Snapshot>, m: nat) {
    forall j | 0 <= j < 2 * m && j < |snaps| && j % 2 == 1 :: snaps[j].Keys <= vs
  }

  /** The reference value at `v` after `m` pairs: the sum over the first `m`
      pairs of `kappa_m * snaps[2m-1].get(v, 0)`. */
  function PsiSum(kappas: seq<real>, snaps: seq<Snapshot>, v: Vertex, m: nat): real
    requires m <= |kappas| && 2 * m <= |snaps|
    decreases m
  {
    if m == 0 then 0.0 else PsiSum(kappas, snaps, v, m - 1) + kappas[m - 1] * Get(snaps[2 * m - 1], v)
  }

  /** `psi_app[node] += kappa * val` for every entry of one snapshot; a key
      missing from `psi_app` raises KeyError. */
  ghost function AddScaled(psi: map<Vertex, real>, kappa: real, snap: Snapshot): (r: Result<map<Vertex, real>>)
    ensures r.Ok? <==> snap.Keys <= psi.Keys
    ensures r.Ok? ==> r.value.Keys == psi.Keys
    ensures r.Ok? ==> forall v | v in psi :: r.value[v] == psi[v] + kappa * Get(snap, v)
    ensures r.Err? ==> r.error.NotFound? && r.error.id in snap && r.error.id !in psi
  {
    if snap.Keys <= psi.Keys then Ok(map v | v in psi :: psi[v] + kappa * Get(snap, v))
    else var v :| v in snap && v !in psi; Err(NotFound(v))
  }

  lemma CoveredStep(vs: set<Vertex>, snaps: seq<Snapshot>, m: nat)
    requires 1 <= m && 2 * m <= |snaps|
    ensures Covered(vs, snaps, m) <==> Covered(vs, snaps, m - 1) && snaps[2 * m - 1].Keys <= vs
  {
    if Covered(vs, snaps, m - 1) && snaps[2 * m - 1].Keys <= vs {
      forall j | 0 <= j < 2 * m && j < |snaps| && j % 2 == 1
        ensures snaps[j].Keys <= vs
      {
        if j != 2 * m - 1 {
          assert j < 2 * (m - 1);
        }
      }
    }
  }

  /** `psi_app` after the first `m` pairs: all zero on every vertex of the
      graph to start with, then each pair's line snapshot added with its
      kappa. */
  ghost function PsiPartial(vs: set<Vertex>, kappas: seq<real>, snaps: seq<Snapshot>, m: nat): (r: Result<map<Vertex, real>>)
    requires m <= |kappas| && 2 * m <= |snaps|
    ensures r.Ok? <==> Covered(vs, snaps, m)
    ensures r.Ok? ==> r.value.Keys == vs
    ensures r.Ok? ==> forall v | v in vs :: r.value[v] == PsiSum(kappas, snaps, v, m)
    ensures r.Err? ==> r.error.NotFound? && r.error.id !in vs
    decreases m
  {
    if m == 0 then Ok(map v | v in vs :: 0.0)
    else
      CoveredStep(vs, snaps, m);
      var psi :- PsiPartial(vs, kappas, snaps, m - 1);
      AddScaled(psi, kappas[m - 1], snaps[2 * m - 1])
  }

  /** `calculate_psi_approx` as written: it stores the same dict object in
      every slot of `self.psis`, so each slot holds the final sum. */
  ghost function CalculatePsiApprox(vs: set<Vertex>, kappas: seq<real>, snaps: seq<Snapshot>): (r: Result<PsiOutput>)
    requires |kappas| == |snaps| / 2
    ensures r.Ok? <==> Covered(vs, snaps, |kappas|)
    ensures r.Ok? ==> r.value.psi.Keys == vs
    ensures r.Ok? ==> forall v | v in vs :: r.value.psi[v] == PsiSum(kappas, snaps, v, |kappas|)
    ensures r.Ok? ==> |r.value.psis| == |kappas| && forall i | 0 <= i < |kappas| :: r.value.psis[i] == r.value.psi
  {
    var psi :- PsiPartial(vs, kappas, snaps, |kappas|);
    Ok(PsiOutput(psi, seq(|kappas|, _ => psi)))
  }

  /** `calculate_psi_approx` as evidently intended: slot `i` of `self.psis`
      holds the sum of the first `i + 1` pairs. The returned map is the same
      as written. */
  ghost function CalculatePsiApproxIntended(vs: set<Vertex>, kappas: seq<real>, snaps: seq<Snapshot>): (r: Result<PsiOutput>)
    requires |kappas| == |snaps| / 2
    ensures r.Ok? <==> Covered(vs, snaps, |kappas|)
    ensures r.Ok? ==> r.value.psi.Keys == vs
    ensures r.Ok? ==> forall v | v in vs :: r.value.psi[v] == PsiSum(kappas, snaps, v, |kappas|)
    ensures r.Ok? ==> |r.value.psis| == |kappas|
    ensures r.Ok? ==> forall i, v | 0 <= i < |kappas| && v in vs ::
              v in r.value.psis[i] && r.value.psis[i][v] == PsiSum(kappas, snaps, v, i + 1)
  {
    var psi :- PsiPartial(vs, kappas, snaps, |kappas|);
    Ok(PsiOutput(psi, seq(|kappas|, i requires 0 <= i < |kappas| => PartialOf(vs, kappas, snaps, i + 1))))
  }

  /** The sum of the first `m` pairs, on a covered prefix. */
  ghost function PartialOf(vs: set<Vertex>, kappas: seq<real>, snaps: seq<Snapshot>, m: nat): (psi: map<Vertex, real>)
    requires m <= |kappas| == |snaps| / 2 && Covered(vs, snaps, |kappas|)
    ensures psi.Keys == vs && forall v | v in vs :: psi[v] == PsiSum(kappas, snaps, v, m)
  {
    CoveredPrefix(vs, snaps, |kappas|, m);
    PsiPartial(vs, kappas, snaps, m).value
  }

  lemma CoveredPrefix(vs: set<Vertex>, snaps: seq<Snapshot>, m: nat, k: nat)
    requires k <= m && Covered(vs, snaps, m)
    ensures Covered(vs, snaps, k)
  {
  }

  /** Two pairs whose kappas cancel: the first slot of `self.psis` reads the
      final sum 0 instead of the first-order sum 1. */
  lemma PsiHistoryAliased()
    ensures var vs := {"L_1"};
      var kappas := [1.0, -1.0];
      var snaps := [map[], map["L_1" := 1.0], map[], map["L_1" := 1.0]];
      && CalculatePsiApprox(vs, kappas, snaps).Ok?
      && CalculatePsiApprox(vs, kappas, snaps).value.psis[0]["L_1"] == 0.0
      && PsiSum(kappas, snaps, "L_1", 1) == 1.0
      && CalculatePsiApproxIntended(vs, kappas, snaps).value.psis[0]["L_1"] == 1.0
  {
    var vs := {"L_1"};
    var kappas := [1.0, -1.0];
    var snaps: seq<Snapshot> := [map[], map["L_1" := 1.0], map[], map["L_1" := 1.0]];
    assert Covered(vs, snaps, 2);
    assert PsiSum(kappas, snaps, "L_1", 1) == 1.0;
    assert PsiSum(kappas, snaps, "L_1", 2) == 0.0;
  }

  /** A vertex absent from every line snapshot keeps the value 0. */
  lemma {:induction false} PsiSumOutside(kappas: seq<real>, snaps: seq<Snapshot>, v: Vertex, m: nat)
    requires m <= |kappas| && 2 * m <= |snaps|
    requires forall j | 0 <= j < 2 * m && j % 2 == 1 :: v !in snaps[j]
    ensures PsiSum(kappas, snaps, v, m) == 0.0
    decreases m
  {
    if m > 0 {
      PsiSumOutside(kappas, snaps, v, m - 1);
      assert v !in snaps[2 * m - 1];
    }
  }

  /** On a trace of `iterate_qs` over a bipartite graph every snapshot after
      the seed lies inside the graph, so the accumulation never meets a
      missing key: both versions of `calculate_psi_approx` succeed. */
  lemma PsiSucceeds(g: Graph, sqrt: real -> real, ins: Vertex, iw: real, ext: Vertex, ew: real, qN: nat, t: Trace, kappas: seq<real>)
    requires IsSqrt(sqrt) && IterateQs(g, sqrt, ins, iw, ext, ew, qN) == Ok(t)
    requires Bipartite(g) && |kappas| == qN / 2
    ensures |t.snaps| == qN && Covered(g.kind.Keys, t.snaps, |kappas|)
  {
    IterateQsLocal(g, sqrt, ins, iw, ext, ew, qN, t);
    forall j | 0 <= j < 2 * |kappas| && j < |t.snaps| && j % 2 == 1
      ensures t.snaps[j].Keys <= g.kind.Keys
    {
      NeighbourhoodInGraph(g, t.snaps[j - 1].Keys);
    }
  }

  /** With both terminals buses, psi is zero on every bus: only the line
      snapshots are accumulated, and those hold line vertices only. This
      holds of the returned map and of every partial sum. */
  lemma PsiOnLinesOnly(g: Graph, sqrt: real -> real, ins: Vertex, iw: real, ext: Vertex, ew: real, qN: nat, t: Trace, kappas: seq<real>)
    requires IsSqrt(sqrt) && IterateQs(g, sqrt, ins, iw, ext, ew, qN) == Ok(t)
    requires Bipartite(g) && |kappas| == qN / 2
    requires ins in g.kind && g.kind[ins] == Bus && ext in g.kind && g.kind[ext] == Bus
    ensures |t.snaps| == qN && Covered(g.kind.Keys, t.snaps, |kappas|)
    ensures forall v, m: nat | v in g.kind && g.kind[v] == Bus && m <= |kappas| :: PsiSum(kappas, t.snaps, v, m) == 0.0
  {
    PsiSucceeds(g, sqrt, ins, iw, ext, ew, qN, t, kappas);
    IterateQsAlternates(g, sqrt, ins, iw, ext, ew, qN, t);
    PsiZeroOnBuses(g, kappas, t.snaps);
  }

  /** The same read off the output of the accumulation: the returned map
      and every slot of the history are zero on every bus. */
  lemma PsiIntendedOnLines(g: Graph, kappas: seq<real>, snaps: seq<Snapshot>)
    requires |kappas| == |snaps| / 2 && Covered(g.kind.Keys, snaps, |kappas|)
    requires forall v, m: nat | v in g.kind && g.kind[v] == Bus && m <= |kappas| :: PsiSum(kappas, snaps, v, m) == 0.0
    ensures var r := CalculatePsiApproxIntended(g.kind.Keys, kappas, snaps);
      && r.Ok?
      && (forall v | v in g.kind && g.kind[v] == Bus :: r.value.psi[v] == 0.0)
      && (forall i, v | 0 <= i < |kappas| && v in g.kind && g.kind[v] == Bus :: r.value.psis[i][v] == 0.0)
  {
  }

  /** When the odd snapshots hold only line vertices, every partial sum is
      zero on every bus. */
  lemma PsiZeroOnBuses(g: Graph, kappas: seq<real>, snaps: seq<Snapshot>)
    requires |kappas| == |snaps| / 2
    requires Alternating(g, snaps)
    ensures forall v, m: nat | v in g.kind && g.kind[v] == Bus && m <= |kappas| :: PsiSum(kappas, snaps, v, m) == 0.0
  {
    forall v, m: nat | v in g.kind && g.kind[v] == Bus && m <= |kappas|
      ensures PsiSum(kappas, snaps, v, m) == 0.0
    {
      forall j | 0 <= j < 2 * m && j % 2 == 1
        ensures v !in snaps[j]
      {
        assert KindAt(j) == Line;
      }
      PsiSumOutside(kappas, snaps, v, m);
    }
  }

  /** Sum of the squares of the first `n` kappas. */
  function SumSquares(kappas: seq<real>, n: nat): real
    requires n <= |kappas|
    decreases n
  {
    if n == 0 then 0.0 else SumSquares(kappas, n - 1) + Square(kappas[n - 1])
  }

  /** Adding squares never decreases the running sum. */
  lemma {:induction false} SumSquaresMonotone(kappas: seq<real>, a: nat, b: nat)
    requires a <= b <= |kappas|
    ensures 0.0 <= SumSquares(kappas, a) <= SumSquares(kappas, b)
    decreases b
  {
    if a < b {
      SumSquaresMonotone(kappas, a, b - 1);
      SquareSign(kappas[b - 1]);
    } else if 0 < a {
      SumSquaresMonotone(kappas, a - 1, a - 1);
      SquareSign(kappas[a - 1]);
    }
  }

  /** `psi_approx_squared`: `np.cumsum(kappas**2)`. */
  method PsiApproxSquared(kappas: seq<real>) returns (sqs: seq<real>)
    ensures |sqs| == |kappas|
    ensures forall i | 0 <= i < |sqs| :: sqs[i] == SumSquares(kappas, i + 1)
    ensures forall i | 0 <= i < |sqs| :: 0.0 <= sqs[i]
    ensures forall i, j | 0 <= i <= j < |sqs| :: sqs[i] <= sqs[j]
  {
    sqs := [];
    var total := 0.0;
    var i := 0;
    while i < |kappas|
      invariant 0 <= i <= |kappas| && |sqs| == i
      invariant total == SumSquares(kappas, i)
      invariant forall k | 0 <= k < i :: sqs[k] == SumSquares(kappas, k + 1)
    {
      total := total + Square(kappas[i]);
      sqs := sqs + [total];
      i := i + 1;
    }
    forall i, j | 0 <= i <= j < |sqs|
      ensures 0.0 <= sqs[i] <= sqs[j]
    {
      SumSquaresMonotone(kappas, i + 1, j + 1);
    }
  }

  /** A non-zero first kappa makes every running sum positive. */
  lemma SumSquaresPositive(kappas: seq<real>, n: nat)
    requires 1 <= n <= |kappas| && kappas[0] != 0.0
    ensures 0.0 < SumSquares(kappas, n)
  {
    SquarePositive(kappas[0]);
    SumSquaresMonotone(kappas, 1, n);
  }

  /** `calculate_effective_resistances`: `1 / psi` for every running sum. */
  function EffectiveResistances(sqs: seq<real>): (rs: seq<real>)
    requires forall i | 0 <= i < |sqs| :: sqs[i] != 0.0
    ensures |rs| == |sqs|
    ensures forall i | 0 <= i < |sqs| :: rs[i] * sqs[i] == 1.0
  {
    seq(|sqs|, i requires 0 <= i < |sqs| => 1.0 / sqs[i])
  }

  lemma ReciprocalOrder(x: real, y: real)
    requires 0.0 < x <= y
    ensures 0.0 < 1.0 / y <= 1.0 / x
  {
    assert (1.0 / y) * y == 1.0;
    assert (1.0 / x) * x == 1.0;
    if 1.0 / x < 1.0 / y {
      calc {
        1.0;
        (1.0 / x) * x;
      <=
        (1.0 / x) * y;
      <
        (1.0 / y) * y;
      }
      assert false;
    }
  }

  /** Positive, non-decreasing running sums give positive, non-increasing
      resistances. */
  lemma ResistancesDecrease(sqs: seq<real>)
    requires forall i | 0 <= i < |sqs| :: 0.0 < sqs[i]
    requires forall i, j | 0 <= i <= j < |sqs| :: sqs[i] <= sqs[j]
    ensures forall i | 0 <= i < |sqs| :: 0.0 < EffectiveResistances(sqs)[i]
    ensures forall i, j | 0 <= i <= j < |sqs| :: EffectiveResistances(sqs)[j] <= EffectiveResistances(sqs)[i]
  {
    var rs := EffectiveResistances(sqs);
    forall i, j | 0 <= i <= j < |sqs|
      ensures 0.0 < rs[i] && 0.0 < rs[j] && rs[j] <= rs[i]
    {
      ReciprocalOrder(sqs[i], sqs[j]);
      ReciprocalOrder(sqs[j], sqs[j]);
    }
  }
}
