/** The Lanczos-style three-term recurrence of `calculate_q_i` and
    `iterate_qs`. Each snapshot is a sparse map from vertex to weight; the
    first is seeded at the two terminals, and every later one applies the
    signed adjacency operator to the previous snapshot, subtracts the
    snapshot two back scaled by the previous beta, drops exact zeros and
    normalises by the 2-norm beta. */
module Recurrence {
  import opened Wrappers
  import opened Reals
  import opened Topology

  type Snapshot = map<Vertex, real>

  /** `snapshot.get(v, 0)`. */
  function Get(s: Snapshot, v: Vertex): real {
    if v in s then s[v] else 0.0
  }

  /** The squared weight of each vertex. */
  function Squares(s: Snapshot): Vertex -> real {
    v => Square(Get(s, v))
  }

  /** The sum of the squared weights of a snapshot. */
  ghost function SquaredNorm(s: Snapshot): real {
    Sum(s.Keys, Squares(s))
  }

  /** A snapshot together with the beta that normalised it. */
  datatype Step = Step(snap: Snapshot, beta: real)

  /** Step 1: `beta_1 = (iw^2 + ew^2)^(1/2)` and the snapshot
      `{N_ix: iw/beta_1, N_ex: ew/beta_1}`. The division comes before the
      vertex lookup, so a zero beta_1 is reported first; a terminal missing
      from the graph is a lookup error. When both terminals are the same
      vertex the later key of the literal wins. */
  ghost function Seed(g: Graph, sqrt: real -> real, ins: Vertex, iw: real, ext: Vertex, ew: real): (r: Result<Step>)
    requires IsSqrt(sqrt)
    ensures r == Err(DivisionByZero) <==> iw == 0.0 && ew == 0.0
    ensures r.Ok? <==> (iw != 0.0 || ew != 0.0) && ins in g.kind && ext in g.kind
    ensures r.Err? && r.error != DivisionByZero ==> r.error == NotFound(if ins !in g.kind then ins else ext)
    ensures r.Ok? ==> 0.0 < r.value.beta && Square(r.value.beta) == Square(iw) + Square(ew)
    ensures r.Ok? ==> r.value.snap.Keys == {ins, ext}
    ensures r.Ok? ==> r.value.snap[ext] * r.value.beta == ew
    ensures r.Ok? && ins != ext ==> r.value.snap[ins] * r.value.beta == iw
  {
    var b := sqrt(Square(iw) + Square(ew));
    SeedNorm(sqrt, iw, ew);
    if b == 0.0 then Err(DivisionByZero)
    else if ins !in g.kind then Err(NotFound(ins))
    else if ext !in g.kind then Err(NotFound(ext))
    else Ok(Step(map[ins := iw / b][ext := ew / b], b))
  }

  /** The root of iw^2 + ew^2 is a non-negative root, zero only when both
      weights are. */
  lemma SeedNorm(sqrt: real -> real, iw: real, ew: real)
    requires IsSqrt(sqrt)
    ensures 0.0 <= sqrt(Square(iw) + Square(ew))
    ensures Square(sqrt(Square(iw) + Square(ew))) == Square(iw) + Square(ew)
    ensures sqrt(Square(iw) + Square(ew)) == 0.0 <==> iw == 0.0 && ew == 0.0
  {
    SquareSign(iw);
    SquareSign(ew);
    SqrtZero(sqrt, Square(iw) + Square(ew));
  }

  /** With distinct terminals the seed has unit norm. */
  lemma SeedNormalised(g: Graph, sqrt: real -> real, ins: Vertex, iw: real, ext: Vertex, ew: real)
    requires IsSqrt(sqrt)
    requires Seed(g, sqrt, ins, iw, ext, ew).Ok?
    requires ins != ext
    ensures SquaredNorm(Seed(g, sqrt, ins, iw, ext, ew).value.snap) == 1.0
  {
    var st := Seed(g, sqrt, ins, iw, ext, ew).value;
    var s := st.snap;
    SumPair(ins, ext, Squares(s));
    UnitPair(iw, ew, st.beta);
  }

  /** When both terminals coincide only the extraction weight survives, so
      the seed falls short of unit norm whenever the injection is non-zero. */
  lemma SeedSameTerminal(g: Graph, sqrt: real -> real, v: Vertex, iw: real, ew: real)
    requires IsSqrt(sqrt)
    requires Seed(g, sqrt, v, iw, v, ew).Ok?
    ensures Seed(g, sqrt, v, iw, v, ew).value.snap.Keys == {v}
    ensures var st := Seed(g, sqrt, v, iw, v, ew).value; st.snap[v] * st.beta == ew
    ensures iw != 0.0 ==> SquaredNorm(Seed(g, sqrt, v, iw, v, ew).value.snap) < 1.0
  {
    var st := Seed(g, sqrt, v, iw, v, ew).value;
    var s := st.snap;
    SumSingleton(v, Squares(s));
    if iw != 0.0 {
      SquarePositive(iw);
      ShortPair(iw, ew, st.beta);
    }
  }

  lemma UnitPair(a: real, c: real, b: real)
    requires 0.0 < b && Square(b) == Square(a) + Square(c)
    ensures Square(a / b) + Square(c / b) == 1.0
  {
    DivSquare(a, b);
    DivSquare(c, b);
    InverseSquare(b);
    assert Square(a) / Square(b) + Square(c) / Square(b) == (Square(a) + Square(c)) / Square(b);
  }

  lemma ShortPair(a: real, c: real, b: real)
    requires 0.0 < b && Square(b) == Square(a) + Square(c) && 0.0 < Square(a)
    ensures Square(c / b) < 1.0
  {
    UnitPair(a, c, b);
    SquarePositive(a / b);
  }

  /** The two-back snapshot of step i >= 3 with the beta that normalised the
      previous snapshot: `betas[i-2]` and `q_snapshots[i-3]`. */
  datatype Prior = Prior(beta: real, snap: Snapshot)

  /** `h_qi` at v: the signed sum of the previous snapshot's weights over the
      neighbours of v, each weight multiplied by the sign of the edge from v. */
  ghost function Apply(g: Graph, prev: Snapshot, v: Vertex): real {
    Sum(Adj(g, v), u => if u in prev && (v, u) in g.edges then prev[u] * SignOf(g.edges[(v, u)]) else 0.0)
  }

  /** `w_prime` at v: `h_qi` at step 2, and `h_qi - betas[i-2] *
      q_snapshots[i-3].get(v, 0)` after. */
  ghost function Residual(g: Graph, prev: Snapshot, back: Option<Prior>, v: Vertex): real {
    match back
    case None => Apply(g, prev, v)
    case Some(p) => Apply(g, prev, v) - p.beta * Get(p.snap, v)
  }

  /** `nodes_to_check`: every neighbour of a vertex of the previous snapshot. */
  ghost function Candidates(g: Graph, prev: Snapshot): set<Vertex> {
    Neighbourhood(g, prev.Keys)
  }

  /** The candidates whose residual is not exactly zero (`temp_weights`). */
  ghost function Support(g: Graph, prev: Snapshot, back: Option<Prior>): set<Vertex> {
    set v | v in Candidates(g, prev) && Residual(g, prev, back, v) != 0.0
  }

  /** `temp_weights`: the residual of every candidate whose residual is not
      exactly zero. */
  ghost function TempWeights(g: Graph, prev: Snapshot, back: Option<Prior>): (w: Snapshot)
    ensures NoZeros(w)
  {
    map v | v in Support(g, prev, back) :: Residual(g, prev, back, v)
  }

  /** On a symmetric graph `h_qi` vanishes at every vertex outside the
      neighbourhood of the previous snapshot: no edge leads from there into
      the snapshot. */
  lemma ApplyOffCandidates(g: Graph, prev: Snapshot, v: Vertex)
    requires Symmetric(g)
    requires v !in Candidates(g, prev)
    ensures Apply(g, prev, v) == 0.0
  {
    var f := u => if u in prev && (v, u) in g.edges then prev[u] * SignOf(g.edges[(v, u)]) else 0.0;
    NeighbourhoodMembers(g, prev.Keys);
    AdjMembers(g, v);
    forall u | u in Adj(g, v)
      ensures u !in prev && f(u) == 0.0 * f(u)
    {
      var e := (v, u);
      assert (u, v) in g.edges by {
        assert (e.1, e.0) in g.edges;
      }
    }
    SumScale(Adj(g, v), f, f, 0.0);
  }

  /** `nodes_to_check` loses nothing of `h_qi`: at step 2 `temp_weights` is
      the whole sparse product of the signed adjacency with the previous
      snapshot. From step 3 on, the back term `betas[i-2] * q[i-3][v]` at a
      vertex outside the neighbourhood is the whole residual there, and it
      is dropped rather than stored. */
  lemma TempWeightsOffCandidates(g: Graph, prev: Snapshot, back: Option<Prior>)
    requires Symmetric(g)
    ensures back.None? ==> forall v :: Get(TempWeights(g, prev, back), v) == Apply(g, prev, v)
    ensures back.Some? ==> forall v | v !in Candidates(g, prev) ::
              && Get(TempWeights(g, prev, back), v) == 0.0
              && Residual(g, prev, back, v) == -(back.value.beta * Get(back.value.snap, v))
  {
    forall v | v !in Candidates(g, prev)
      ensures Apply(g, prev, v) == 0.0
    {
      ApplyOffCandidates(g, prev, v);
    }
  }

  /** A snapshot with no stored zero. */
  ghost predicate NoZeros(s: Snapshot) {
    forall v | v in s :: s[v] != 0.0
  }

  /** The normalisation at the end of `calculate_q_i`: beta is the root of
      the sum of squared weights (`next_beta_sq`), and every weight is divided
      by it. No division happens when there is no weight. */
  ghost function Normalise(sqrt: real -> real, w: Snapshot): (r: Step)
    requires IsSqrt(sqrt) && NoZeros(w)
    ensures 0.0 <= r.beta && Square(r.beta) == SquaredNorm(w)
    ensures r.snap.Keys == w.Keys && NoZeros(r.snap)
    ensures forall v | v in r.snap :: r.snap[v] * r.beta == w[v]
    ensures r.beta == 0.0 <==> r.snap == map[]
  {
    var b := sqrt(SquaredNorm(w));
    NormSign(w);
    SqrtZero(sqrt, SquaredNorm(w));
    if w == map[] then Step(map[], b)
    else
      DivideCancels(w, b);
      Step(map v | v in w :: w[v] / b, b)
  }

  /** Dividing every weight by a non-zero factor and multiplying back gives
      the weight. */
  lemma DivideCancels(w: Snapshot, b: real)
    requires b != 0.0
    ensures forall v | v in w :: (w[v] / b) * b == w[v]
  {
    forall v | v in w
      ensures (w[v] / b) * b == w[v]
    {
      DivMul(w[v], b);
    }
  }

  /** The squared norm is non-negative, and zero exactly for the empty
      snapshot when no weight is zero. */
  lemma NormSign(w: Snapshot)
    requires NoZeros(w)
    ensures 0.0 <= SquaredNorm(w)
    ensures SquaredNorm(w) == 0.0 <==> w == map[]
  {
    var f := Squares(w);
    forall v | v in w.Keys
      ensures 0.0 < f(v)
    {
      SquarePositive(w[v]);
    }
    SumNonNegative(w.Keys, f);
    if w != map[] {
      SumPositive(w.Keys, f);
    }
  }

  /** Normalising by a positive beta gives unit norm. */
  lemma NormaliseUnit(sqrt: real -> real, w: Snapshot)
    requires IsSqrt(sqrt) && NoZeros(w)
    requires Normalise(sqrt, w).beta > 0.0
    ensures SquaredNorm(Normalise(sqrt, w).snap) == 1.0
  {
    var r := Normalise(sqrt, w);
    UnitNorm(w, r.snap, r.beta);
  }

  /** Dividing every weight by the root of the squared norm gives unit norm. */
  lemma UnitNorm(w: Snapshot, snap: Snapshot, b: real)
    requires 0.0 < b && Square(b) == SquaredNorm(w)
    requires snap.Keys == w.Keys
    requires forall v | v in snap :: snap[v] * b == w[v]
    ensures SquaredNorm(snap) == 1.0
  {
    var f := Squares(w);
    var h := Squares(snap);
    InverseSquare(b);
    var c := 1.0 / Square(b);
    forall v | v in w.Keys
      ensures h(v) == c * f(v)
    {
      ScaledSquare(w[v], b, snap[v], c, f(v), h(v));
    }
    SumScale(w.Keys, f, h, c);
    calc {
      SquaredNorm(snap);
      Sum(w.Keys, h);
      c * Sum(w.Keys, f);
      c * Square(b);
      1.0;
    }
  }

  /** Dividing a weight w by b scales its square by c = 1/b^2. */
  lemma ScaledSquare(w: real, b: real, x: real, c: real, sw: real, sx: real)
    requires 0.0 < b && x * b == w && c * Square(b) == 1.0
    requires sw == Square(w) && sx == Square(x)
    ensures sx == c * sw
  {
    assert x == w / b;
    DivSquare(w, b);
    assert c == 1.0 / Square(b);
  }

  /** Step i >= 2 of `calculate_q_i`: the residuals normalised. The new
      snapshot lives on the candidates whose residual is non-zero, stores no
      zero, and holds each residual divided by beta; beta is the 2-norm of
      the residuals, and is zero exactly when the snapshot is empty. */
  ghost function NextSnapshot(g: Graph, sqrt: real -> real, prev: Snapshot, back: Option<Prior>): (r: Step)
    requires IsSqrt(sqrt)
    ensures r.snap.Keys <= Candidates(g, prev) && NoZeros(r.snap)
    ensures forall v | v in Candidates(g, prev) :: v in r.snap <==> Residual(g, prev, back, v) != 0.0
    ensures 0.0 <= r.beta && Square(r.beta) == SquaredNorm(TempWeights(g, prev, back))
    ensures r.beta == 0.0 <==> r.snap == map[]
    ensures forall v | v in r.snap :: r.snap[v] == Residual(g, prev, back, v) / r.beta
  {
    Normalise(sqrt, TempWeights(g, prev, back))
  }

  /** A step whose beta is positive produces a unit-norm snapshot. */
  lemma NextSnapshotNormalised(g: Graph, sqrt: real -> real, prev: Snapshot, back: Option<Prior>)
    requires IsSqrt(sqrt)
    requires NextSnapshot(g, sqrt, prev, back).beta > 0.0
    ensures SquaredNorm(NextSnapshot(g, sqrt, prev, back).snap) == 1.0
  {
    NormaliseUnit(sqrt, TempWeights(g, prev, back));
  }

  /** An empty snapshot is followed by an empty one with beta 0, whatever the
      snapshot two back. */
  lemma EmptyStaysEmpty(g: Graph, sqrt: real -> real, back: Option<Prior>)
    requires IsSqrt(sqrt)
    ensures NextSnapshot(g, sqrt, map[], back) == Step(map[], 0.0)
  {
    assert Candidates(g, map[]) == {};
  }

  /** `q_snapshots` and `betas` after a number of calls of `calculate_q_i`:
      index j holds the snapshot and beta of step j + 1. */
  datatype Trace = Trace(snaps: seq<Snapshot>, betas: seq<real>)

  ghost predicate Aligned(t: Trace) {
    |t.snaps| == |t.betas|
  }

  /** What step j + 1 subtracts: nothing at step 2, else `betas[j-1]` times
      `q_snapshots[j-2]`. */
  function BackAt(t: Trace, j: nat): Option<Prior>
    requires Aligned(t) && 1 <= j < |t.snaps|
  {
    if j == 1 then None else Some(Prior(t.betas[j - 1], t.snaps[j - 2]))
  }

  /** A step rule: the next step from the previous snapshot and what is
      subtracted from it. */
  type StepRule = (Snapshot, Option<Prior>) -> Step

  /** Step i >= 2 of `calculate_q_i` on a given grid, as a step rule. */
  ghost function Stepper(g: Graph, sqrt: real -> real): (next: StepRule)
    requires IsSqrt(sqrt)
    ensures forall prev, back :: next(prev, back) == NextSnapshot(g, sqrt, prev, back)
  {
    (prev, back) => NextSnapshot(g, sqrt, prev, back)
  }

  /** One more call of `calculate_q_i` on a trace of at least one step. */
  function Extend(next: StepRule, t: Trace): (u: Trace)
    requires Aligned(t) && 1 <= |t.snaps|
    ensures Aligned(u) && |u.snaps| == |t.snaps| + 1
    ensures u.snaps[..|t.snaps|] == t.snaps && u.betas[..|t.betas|] == t.betas
  {
    var j := |t.snaps|;
    var s := next(t.snaps[j - 1], if j == 1 then None else Some(Prior(t.betas[j - 1], t.snaps[j - 2])));
    Trace(t.snaps + [s.snap], t.betas + [s.beta])
  }

  /** The new entry of `Extend` is the step applied to the last one. */
  lemma ExtendStep(next: StepRule, t: Trace)
    requires Aligned(t) && 1 <= |t.snaps|
    ensures var u := Extend(next, t); var j := |t.snaps|;
      Step(u.snaps[j], u.betas[j]) == next(u.snaps[j - 1], BackAt(u, j))
  {
    var u := Extend(next, t);
    var j := |t.snaps|;
    var back := if j == 1 then None else Some(Prior(t.betas[j - 1], t.snaps[j - 2]));
    var s := next(t.snaps[j - 1], back);
    assert u == Trace(t.snaps + [s.snap], t.betas + [s.beta]);
    assert u.snaps[j] == s.snap && u.betas[j] == s.beta;
    assert u.snaps[j - 1] == t.snaps[j - 1];
    if 1 < j {
      assert u.snaps[j - 2] == t.snaps[j - 2] && u.betas[j - 1] == t.betas[j - 1];
    }
    assert BackAt(u, j) == back;
  }

  /** `Extend` leaves the earlier entries, and what they see two back, as
      they were. */
  lemma ExtendKeeps(next: StepRule, u: Trace, j: nat)
    requires Aligned(u) && 1 <= j < |u.snaps|
    ensures var t := Extend(next, u);
      && t.snaps[j] == u.snaps[j] && t.betas[j] == u.betas[j]
      && t.snaps[j - 1] == u.snaps[j - 1]
      && BackAt(t, j) == BackAt(u, j)
  {
    var t := Extend(next, u);
    var n := |u.snaps|;
    assert t.snaps[j] == t.snaps[..n][j] && t.snaps[j - 1] == t.snaps[..n][j - 1];
    assert t.betas[j] == t.betas[..n][j];
    if 1 < j {
      assert t.snaps[j - 2] == t.snaps[..n][j - 2] && t.betas[j - 1] == t.betas[..n][j - 1];
    }
  }

  /** The first n steps from a given seed. */
  function Run(next: StepRule, seed: Step, n: nat): (t: Trace)
    requires 1 <= n
    ensures Aligned(t) && |t.snaps| == n
    ensures t.snaps[0] == seed.snap && t.betas[0] == seed.beta
    decreases n
  {
    if n == 1 then Trace([seed.snap], [seed.beta])
    else
      var u := Extend(next, Run(next, seed, n - 1));
      assert u.snaps[0] == u.snaps[..n - 1][0];
      assert u.betas[0] == u.betas[..n - 1][0];
      u
  }

  /** `iterate_qs`: steps 1 to q_N, never stopping early. Only the seed step
      can fail. */
  ghost function IterateQs(g: Graph, sqrt: real -> real, ins: Vertex, iw: real, ext: Vertex, ew: real, qN: nat): (r: Result<Trace>)
    requires IsSqrt(sqrt)
    ensures r.Ok? <==> qN == 0 || Seed(g, sqrt, ins, iw, ext, ew).Ok?
    ensures r.Err? ==> r.error == Seed(g, sqrt, ins, iw, ext, ew).error
    ensures r.Ok? ==> Aligned(r.value) && |r.value.snaps| == qN
    ensures r.Ok? && 0 < qN ==> Step(r.value.snaps[0], r.value.betas[0]) == Seed(g, sqrt, ins, iw, ext, ew).value
  {
    if qN == 0 then Ok(Trace([], []))
    else
      var seed :- Seed(g, sqrt, ins, iw, ext, ew);
      Ok(Run(Stepper(g, sqrt), seed, qN))
  }

  /** Every snapshot after the first is the step applied to the one before,
      with the right snapshot two back. */
  lemma {:induction false} RunSteps(next: StepRule, seed: Step, n: nat, j: nat)
    requires 1 <= j < n
    ensures var t := Run(next, seed, n);
      Step(t.snaps[j], t.betas[j]) == next(t.snaps[j - 1], BackAt(t, j))
    decreases n
  {
    var t := Run(next, seed, n);
    var u := Run(next, seed, n - 1);
    assert t == Extend(next, u);
    if j < n - 1 {
      RunSteps(next, seed, n - 1, j);
      ExtendKeeps(next, u, j);
    } else {
      ExtendStep(next, u);
    }
  }

  /** Entry 0 of a trace `iterate_qs` returns is the seed. */
  lemma TraceSeed(g: Graph, sqrt: real -> real, ins: Vertex, iw: real, ext: Vertex, ew: real, qN: nat, t: Trace)
    requires IsSqrt(sqrt) && IterateQs(g, sqrt, ins, iw, ext, ew, qN) == Ok(t) && 0 < qN
    ensures Aligned(t) && |t.snaps| == qN
    ensures Seed(g, sqrt, ins, iw, ext, ew).Ok? && Step(t.snaps[0], t.betas[0]) == Seed(g, sqrt, ins, iw, ext, ew).value
  {
  }

  /** Entry j >= 1 of a trace `iterate_qs` returns is step j + 1 applied to
      entry j - 1, subtracting beta j times entry j - 2 from j = 2 on. */
  lemma TraceStep(g: Graph, sqrt: real -> real, ins: Vertex, iw: real, ext: Vertex, ew: real, qN: nat, t: Trace, j: nat)
    requires IsSqrt(sqrt) && IterateQs(g, sqrt, ins, iw, ext, ew, qN) == Ok(t) && 1 <= j < qN
    ensures Aligned(t) && |t.snaps| == qN
    ensures Step(t.snaps[j], t.betas[j]) == NextSnapshot(g, sqrt, t.snaps[j - 1], BackAt(t, j))
  {
    var seed := Seed(g, sqrt, ins, iw, ext, ew).value;
    RunSteps(Stepper(g, sqrt), seed, qN, j);
  }

  /** A trace each of whose entries after the first is the step applied to
      the entry before. */
  ghost predicate Recurs(g: Graph, sqrt: real -> real, t: Trace)
    requires IsSqrt(sqrt)
  {
    && Aligned(t)
    && forall j | 1 <= j < |t.snaps| ::
         Step(t.snaps[j], t.betas[j]) == NextSnapshot(g, sqrt, t.snaps[j - 1], BackAt(t, j))
  }

  /** A trace `iterate_qs` returns follows the recurrence. */
  lemma IterateQsRecurs(g: Graph, sqrt: real -> real, ins: Vertex, iw: real, ext: Vertex, ew: real, qN: nat, t: Trace)
    requires IsSqrt(sqrt) && IterateQs(g, sqrt, ins, iw, ext, ew, qN) == Ok(t)
    ensures |t.snaps| == qN && Recurs(g, sqrt, t)
  {
    if 0 < qN {
      TraceSeed(g, sqrt, ins, iw, ext, ew, qN, t);
      forall j | 1 <= j < qN
        ensures Step(t.snaps[j], t.betas[j]) == NextSnapshot(g, sqrt, t.snaps[j - 1], BackAt(t, j))
      {
        TraceStep(g, sqrt, ins, iw, ext, ew, qN, t, j);
      }
    }
  }

  /** One step of the recurrence: beta is non-negative, the snapshot stores
      no zero, lies on neighbours of the previous one, is empty exactly when
      beta is zero, and has unit norm otherwise. */
  lemma StepFacts(g: Graph, sqrt: real -> real, prev: Snapshot, back: Option<Prior>, s: Step)
    requires IsSqrt(sqrt) && s == NextSnapshot(g, sqrt, prev, back)
    ensures 0.0 <= s.beta && NoZeros(s.snap) && (s.beta == 0.0 <==> s.snap == map[])
    ensures 0.0 < s.beta ==> SquaredNorm(s.snap) == 1.0
    ensures s.snap.Keys <= Neighbourhood(g, prev.Keys)
  {
    if 0.0 < s.beta {
      NextSnapshotNormalised(g, sqrt, prev, back);
    }
  }

  /** `StepFacts` at every entry after the first of a recurring trace. */
  lemma RecursFacts(g: Graph, sqrt: real -> real, t: Trace)
    requires IsSqrt(sqrt) && Recurs(g, sqrt, t)
    ensures forall j | 1 <= j < |t.snaps| ::
      && 0.0 <= t.betas[j] && NoZeros(t.snaps[j]) && (t.betas[j] == 0.0 <==> t.snaps[j] == map[])
      && (0.0 < t.betas[j] ==> SquaredNorm(t.snaps[j]) == 1.0)
      && t.snaps[j].Keys <= Neighbourhood(g, t.snaps[j - 1].Keys)
  {
    forall j | 1 <= j < |t.snaps|
      ensures 0.0 <= t.betas[j] && NoZeros(t.snaps[j]) && (t.betas[j] == 0.0 <==> t.snaps[j] == map[])
      ensures 0.0 < t.betas[j] ==> SquaredNorm(t.snaps[j]) == 1.0
      ensures t.snaps[j].Keys <= Neighbourhood(g, t.snaps[j - 1].Keys)
    {
      StepFacts(g, sqrt, t.snaps[j - 1], BackAt(t, j), Step(t.snaps[j], t.betas[j]));
    }
  }

  /** In a recurring trace an empty entry after the first is followed only
      by empty entries with beta 0. */
  lemma RecursEmpty(g: Graph, sqrt: real -> real, t: Trace, j: nat)
    requires IsSqrt(sqrt) && Recurs(g, sqrt, t)
    requires 1 <= j < |t.snaps| && t.snaps[j] == map[]
    ensures forall k | j <= k < |t.snaps| :: t.snaps[k] == map[] && (j < k ==> t.betas[k] == 0.0)
  {
    var k := j;
    while k < |t.snaps| - 1
      invariant j <= k < |t.snaps|
      invariant forall m | j <= m <= k :: t.snaps[m] == map[] && (j < m ==> t.betas[m] == 0.0)
    {
      EmptyStaysEmpty(g, sqrt, BackAt(t, k + 1));
      k := k + 1;
    }
  }

  /** Sets each within the neighbourhood of the one before lie within as
      many edges of the first one's superset as their index. */
  lemma ReachBound(g: Graph, snaps: seq<Snapshot>, start: set<Vertex>)
    requires 0 < |snaps| && snaps[0].Keys <= start
    requires forall j | 1 <= j < |snaps| :: snaps[j].Keys <= Neighbourhood(g, snaps[j - 1].Keys)
    ensures forall j | 0 <= j < |snaps| :: snaps[j].Keys <= Reach(g, start, j)
  {
    var k := 0;
    while k < |snaps| - 1
      invariant 0 <= k < |snaps|
      invariant forall m | 0 <= m <= k :: snaps[m].Keys <= Reach(g, start, m)
    {
      NeighbourhoodMonotone(g, snaps[k].Keys, Reach(g, start, k));
      k := k + 1;
    }
  }

  /** Every beta is non-negative and the first is positive; the snapshot of
      a positive beta has unit norm (the seed's only when its terminals
      differ); after the seed no snapshot stores a zero, and a beta is zero
      exactly when its snapshot is empty. */
  lemma IterateQsNormalised(g: Graph, sqrt: real -> real, ins: Vertex, iw: real, ext: Vertex, ew: real, qN: nat, t: Trace)
    requires IsSqrt(sqrt) && IterateQs(g, sqrt, ins, iw, ext, ew, qN) == Ok(t)
    ensures Aligned(t) && |t.snaps| == qN
    ensures forall j | 0 <= j < qN :: 0.0 <= t.betas[j]
    ensures 0 < qN ==> 0.0 < t.betas[0]
    ensures 0 < qN && ins != ext ==> SquaredNorm(t.snaps[0]) == 1.0
    ensures forall j | 1 <= j < qN :: NoZeros(t.snaps[j]) && (t.betas[j] == 0.0 <==> t.snaps[j] == map[])
    ensures forall j | 1 <= j < qN && 0.0 < t.betas[j] :: SquaredNorm(t.snaps[j]) == 1.0
  {
    IterateQsRecurs(g, sqrt, ins, iw, ext, ew, qN, t);
    if 0 < qN {
      TraceSeedNormalised(g, sqrt, ins, iw, ext, ew, qN, t);
    }
    RecursNormalised(g, sqrt, t, ins, ext);
  }

  /** The normalisation facts of a recurring trace whose first entry is
      normalised. */
  lemma RecursNormalised(g: Graph, sqrt: real -> real, t: Trace, ins: Vertex, ext: Vertex)
    requires IsSqrt(sqrt) && Recurs(g, sqrt, t)
    requires 0 < |t.snaps| ==> 0.0 < t.betas[0]
    requires 0 < |t.snaps| && ins != ext ==> SquaredNorm(t.snaps[0]) == 1.0
    ensures forall j | 0 <= j < |t.snaps| :: 0.0 <= t.betas[j]
    ensures forall j | 1 <= j < |t.snaps| :: NoZeros(t.snaps[j]) && (t.betas[j] == 0.0 <==> t.snaps[j] == map[])
    ensures forall j | 1 <= j < |t.snaps| && 0.0 < t.betas[j] :: SquaredNorm(t.snaps[j]) == 1.0
  {
    RecursFacts(g, sqrt, t);
    forall j | 0 <= j < |t.snaps|
      ensures 0.0 <= t.betas[j]
    {
    }
  }

  /** Entry 0 has a positive beta, and unit norm when the terminals differ. */
  lemma TraceSeedNormalised(g: Graph, sqrt: real -> real, ins: Vertex, iw: real, ext: Vertex, ew: real, qN: nat, t: Trace)
    requires IsSqrt(sqrt) && IterateQs(g, sqrt, ins, iw, ext, ew, qN) == Ok(t) && 0 < qN
    ensures Aligned(t) && |t.snaps| == qN
    ensures 0.0 < t.betas[0]
    ensures ins != ext ==> SquaredNorm(t.snaps[0]) == 1.0
  {
    TraceSeed(g, sqrt, ins, iw, ext, ew, qN, t);
    if ins != ext {
      SeedNormalised(g, sqrt, ins, iw, ext, ew);
    }
  }

  /** Once a snapshot after the seed is empty, every later one is empty too,
      with beta 0: the loop carries on without stopping. */
  lemma IterateQsEmptyPropagates(g: Graph, sqrt: real -> real, ins: Vertex, iw: real, ext: Vertex, ew: real, qN: nat, t: Trace, j: nat)
    requires IsSqrt(sqrt) && IterateQs(g, sqrt, ins, iw, ext, ew, qN) == Ok(t)
    requires 1 <= j < |t.snaps| && t.snaps[j] == map[]
    ensures |t.snaps| == qN
    ensures forall k | j <= k < qN :: t.snaps[k] == map[] && (j < k ==> t.betas[k] == 0.0)
  {
    IterateQsRecurs(g, sqrt, ins, iw, ext, ew, qN, t);
    RecursEmpty(g, sqrt, t, j);
  }

  /** Step j + 1 only writes neighbours of the previous snapshot's vertices,
      so snapshot j lies within j edges of the two terminals. */
  lemma IterateQsLocal(g: Graph, sqrt: real -> real, ins: Vertex, iw: real, ext: Vertex, ew: real, qN: nat, t: Trace)
    requires IsSqrt(sqrt) && IterateQs(g, sqrt, ins, iw, ext, ew, qN) == Ok(t)
    ensures Aligned(t) && |t.snaps| == qN
    ensures forall j | 1 <= j < qN :: t.snaps[j].Keys <= Neighbourhood(g, t.snaps[j - 1].Keys)
    ensures forall j | 0 <= j < qN :: t.snaps[j].Keys <= Reach(g, {ins, ext}, j)
  {
    IterateQsRecurs(g, sqrt, ins, iw, ext, ew, qN, t);
    RecursFacts(g, sqrt, t);
    if 0 < qN {
      TraceSeed(g, sqrt, ins, iw, ext, ew, qN, t);
      ReachBound(g, t.snaps, {ins, ext});
    }
  }

  /** Snapshot j holds only vertices of the graph of kind `KindAt(j)`. */
  ghost predicate Alternating(g: Graph, snaps: seq<Snapshot>) {
    forall j, v | 0 <= j < |snaps| && v in snaps[j] :: v in g.kind && g.kind[v] == KindAt(j)
  }

  /** The kind snapshot j lives on when the terminals are buses. */
  function KindAt(j: nat): Kind {
    if j % 2 == 0 then Bus else Line
  }

  /** A sequence of vertex sets, each within the neighbourhood of the one
      before, alternates between the kinds of a bipartite graph. */
  lemma Alternation(g: Graph, snaps: seq<Snapshot>)
    requires Bipartite(g) && 0 < |snaps|
    requires forall v | v in snaps[0] :: v in g.kind && g.kind[v] == Bus
    requires forall j | 1 <= j < |snaps| :: snaps[j].Keys <= Neighbourhood(g, snaps[j - 1].Keys)
    ensures forall j, v | 0 <= j < |snaps| && v in snaps[j] :: v in g.kind && g.kind[v] == KindAt(j)
  {
    var k := 0;
    while k < |snaps| - 1
      invariant 0 <= k < |snaps|
      invariant forall m, v | 0 <= m <= k && v in snaps[m] :: v in g.kind && g.kind[v] == KindAt(m)
    {
      NeighbourhoodKind(g, snaps[k].Keys, KindAt(k));
      assert Other(KindAt(k)) == KindAt(k + 1);
      k := k + 1;
    }
  }

  /** With both terminals bus vertices of a bipartite graph, the snapshots
      alternate: even indices hold only buses, odd indices only lines. */
  lemma IterateQsAlternates(g: Graph, sqrt: real -> real, ins: Vertex, iw: real, ext: Vertex, ew: real, qN: nat, t: Trace)
    requires IsSqrt(sqrt) && IterateQs(g, sqrt, ins, iw, ext, ew, qN) == Ok(t)
    requires Bipartite(g)
    requires ins in g.kind && g.kind[ins] == Bus && ext in g.kind && g.kind[ext] == Bus
    ensures Aligned(t) && |t.snaps| == qN
    ensures Alternating(g, t.snaps)
  {
    IterateQsLocal(g, sqrt, ins, iw, ext, ew, qN, t);
    if 0 < qN {
      TraceSeed(g, sqrt, ins, iw, ext, ew, qN, t);
      Alternation(g, t.snaps);
    }
  }
}
