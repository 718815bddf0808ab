/** The bipartite bus/line graph both grid classes build on top of
    `networkx.Graph`: bus vertices ("node" type) and line vertices ("line"
    type), joined by undirected edges that carry a `sign` attribute. */
module Topology {
  import opened Wrappers

  type Vertex = string

  datatype Kind = Bus | Line

  /** A graph as networkx stores it. `kind` holds each vertex's `type`
      attribute; `edges` holds each undirected edge under both orientations,
      with its `sign` attribute when it has one. */
  datatype Graph = Graph(kind: map<Vertex, Kind>, edges: map<(Vertex, Vertex), Option<real>>)

  /** One line vertex to create and wire: `add_node(id)`, then
      `add_edge(a, id, sign=signA)`, then `add_edge(b, id, sign=signB)`. */
  datatype LineSpec = LineSpec(id: Vertex, a: Vertex, signA: real, b: Vertex, signB: real)

  /** Both orientations of every edge are stored, with the same attribute. */
  ghost predicate Symmetric(g: Graph) {
    forall e | e in g.edges :: (e.1, e.0) in g.edges && g.edges[(e.1, e.0)] == g.edges[e]
  }

  /** Every edge joins two vertices of the graph of different kinds. */
  ghost predicate Bipartite(g: Graph) {
    forall e | e in g.edges :: e.0 in g.kind && e.1 in g.kind && g.kind[e.0] != g.kind[e.1]
  }

  ghost predicate WellFormed(g: Graph) {
    Symmetric(g) && Bipartite(g)
  }

  /** The value `get_edge_sign` reads off an edge: its sign, 1 when it has none. */
  function SignOf(attr: Option<real>): real {
    attr.GetOr(1.0)
  }

  /** `self.adj[v]`: the neighbours of `v`. */
  function Adj(g: Graph, v: Vertex): set<Vertex> {
    set e | e in g.edges && e.0 == v :: e.1
  }

  lemma AdjMembers(g: Graph, v: Vertex)
    ensures forall u :: u in Adj(g, v) <==> (v, u) in g.edges
  {
    forall u | (v, u) in g.edges
      ensures u in Adj(g, v)
    {
      var e := (v, u);
      assert e.0 == v && e.1 == u;
    }
  }

  /** The neighbours of `v` with the attribute of the edge to each. */
  function Incident(g: Graph, v: Vertex): map<Vertex, Option<real>> {
    AdjMembers(g, v);
    map u | u in Adj(g, v) :: g.edges[(v, u)]
  }

  /** The union of the neighbourhoods of the vertices in `s`. */
  function Neighbourhood(g: Graph, s: set<Vertex>): set<Vertex> {
    set e | e in g.edges && e.0 in s :: e.1
  }

  lemma NeighbourhoodMembers(g: Graph, s: set<Vertex>)
    ensures forall v :: v in Neighbourhood(g, s) <==> exists u :: u in s && (u, v) in g.edges
  {
    forall v, u | u in s && (u, v) in g.edges
      ensures v in Neighbourhood(g, s)
    {
      var e := (u, v);
      assert e.0 in s && e.1 == v;
    }
  }

  /** `get_edge_sign(u, v)`: `self[u][v].get('sign', 1)`. Looking up a
      missing vertex or a missing edge raises KeyError. */
  function EdgeSign(g: Graph, u: Vertex, v: Vertex): (r: Result<real>)
    ensures r.Ok? <==> u in g.kind && (u, v) in g.edges
    ensures r.Ok? && g.edges[(u, v)].None? ==> r.value == 1.0
    ensures r.Ok? && g.edges[(u, v)].Some? ==> r.value == g.edges[(u, v)].value
  {
    if u !in g.kind then Err(NotFound(u))
    else if (u, v) !in g.edges then Err(NotFound(v))
    else Ok(SignOf(g.edges[(u, v)]))
  }

  /** In a well-formed graph the sign of an edge does not depend on the
      direction it is read in. */
  lemma EdgeSignSymmetric(g: Graph, u: Vertex, v: Vertex)
    requires WellFormed(g)
    ensures EdgeSign(g, u, v).Ok? <==> EdgeSign(g, v, u).Ok?
    ensures EdgeSign(g, u, v).Ok? ==> EdgeSign(g, u, v) == EdgeSign(g, v, u)
  {
    if (u, v) in g.edges {
      var e := (u, v);
      assert (e.1, e.0) == (v, u);
    }
    if (v, u) in g.edges {
      var e := (v, u);
      assert (e.1, e.0) == (u, v);
    }
  }

  function AddNode(g: Graph, v: Vertex, k: Kind): Graph {
    g.(kind := g.kind[v := k])
  }

  function AddEdge(g: Graph, u: Vertex, v: Vertex, sign: real): Graph {
    g.(edges := g.edges[(u, v) := Some(sign)][(v, u) := Some(sign)])
  }

  function AddLine(g: Graph, l: LineSpec): Graph {
    AddEdge(AddEdge(AddNode(g, l.id, Line), l.a, l.id, l.signA), l.b, l.id, l.signB)
  }

  /** Adds the lines in order. */
  function Connect(g: Graph, specs: seq<LineSpec>): Graph
    decreases |specs|
  {
    if specs == [] then g else Connect(AddLine(g, specs[0]), specs[1..])
  }

  /** The neighbours a freshly wired line has, with the edge signs; when both
      ends are the same bus the second `add_edge` overwrites the first. */
  function SpecIncidence(l: LineSpec): map<Vertex, Option<real>> {
    map[l.a := Some(l.signA)][l.b := Some(l.signB)]
  }

  function Ids(specs: seq<LineSpec>): set<Vertex> {
    set i | 0 <= i < |specs| :: specs[i].id
  }

  /** No two entries of `xs` share a key. */
  ghost predicate DistinctBy<T, K>(xs: seq<T>, key: T -> K) {
    forall i, j | 0 <= i < j < |xs| :: key(xs[i]) != key(xs[j])
  }

  /** Two sequences with distinct keys, no key shared between them, give
      a concatenation with distinct keys. */
  lemma ConcatDistinct<T, K>(xs: seq<T>, ys: seq<T>, key: T -> K)
    requires DistinctBy(xs, key) && DistinctBy(ys, key)
    requires forall x, y | x in xs && y in ys :: key(x) != key(y)
    ensures DistinctBy(xs + ys, key)
  {
    var zs := xs + ys;
    forall i, j | 0 <= i < j < |zs|
      ensures key(zs[i]) != key(zs[j])
    {
      if j >= |xs| {
        assert zs[j] == ys[j - |xs|];
        if i < |xs| {
          assert zs[i] in xs;
        } else {
          assert zs[i] == ys[i - |xs|];
        }
      }
    }
  }

  /** The vertex id a line spec creates. */
  function SpecId(l: LineSpec): Vertex {
    l.id
  }

  /** The specs can be wired into `g` without breaking bipartiteness: both
      ends of every line are buses of `g` and no line id names a bus. */
  ghost predicate Attachable(g: Graph, specs: seq<LineSpec>) {
    forall i | 0 <= i < |specs| ::
      && specs[i].a in g.kind && g.kind[specs[i].a] == Bus
      && specs[i].b in g.kind && g.kind[specs[i].b] == Bus
      && (specs[i].id !in g.kind || g.kind[specs[i].id] == Line)
  }

  lemma AddLineWellFormed(g: Graph, l: LineSpec)
    requires WellFormed(g)
    requires l.a in g.kind && g.kind[l.a] == Bus
    requires l.b in g.kind && g.kind[l.b] == Bus
    requires l.id !in g.kind || g.kind[l.id] == Line
    ensures WellFormed(AddLine(g, l))
  {
    var g0 := AddNode(g, l.id, Line);
    assert WellFormed(g0) by {
      forall e | e in g0.edges
        ensures e.0 in g0.kind && e.1 in g0.kind && g0.kind[e.0] != g0.kind[e.1]
      {
        assert g0.kind[e.0] == g.kind[e.0] && g0.kind[e.1] == g.kind[e.1];
      }
    }
    AddEdgeWellFormed(g0, l.a, l.id, l.signA);
    AddEdgeWellFormed(AddEdge(g0, l.a, l.id, l.signA), l.b, l.id, l.signB);
  }

  /** An edge between vertices of different kinds keeps the graph well formed. */
  lemma AddEdgeWellFormed(g: Graph, u: Vertex, v: Vertex, sign: real)
    requires WellFormed(g)
    requires u in g.kind && v in g.kind && g.kind[u] != g.kind[v]
    ensures WellFormed(AddEdge(g, u, v, sign))
  {
    var g1 := AddEdge(g, u, v, sign);
    forall e | e in g1.edges
      ensures (e.1, e.0) in g1.edges && g1.edges[(e.1, e.0)] == g1.edges[e]
    {
      if e != (u, v) && e != (v, u) {
        assert e in g.edges;
      }
    }
  }

  /** After wiring the first spec, the rest can still be wired. */
  lemma AttachableRest(g: Graph, specs: seq<LineSpec>)
    requires WellFormed(g) && Attachable(g, specs) && specs != []
    ensures WellFormed(AddLine(g, specs[0]))
    ensures Attachable(AddLine(g, specs[0]), specs[1..])
  {
    var g1 := AddLine(g, specs[0]);
    AddLineWellFormed(g, specs[0]);
    var rest := specs[1..];
    forall i | 0 <= i < |rest|
      ensures rest[i].a in g1.kind && g1.kind[rest[i].a] == Bus
      ensures rest[i].b in g1.kind && g1.kind[rest[i].b] == Bus
      ensures rest[i].id !in g1.kind || g1.kind[rest[i].id] == Line
    {
      assert rest[i] == specs[i + 1];
    }
  }

  lemma IdsCons(specs: seq<LineSpec>)
    requires specs != []
    ensures Ids(specs) == {specs[0].id} + Ids(specs[1..])
  {
    var rest := specs[1..];
    forall v | v in Ids(specs)
      ensures v in {specs[0].id} + Ids(rest)
    {
      var i :| 0 <= i < |specs| && specs[i].id == v;
      if i > 0 {
        assert rest[i - 1].id == v;
      }
    }
    forall v | v in Ids(rest)
      ensures v in Ids(specs)
    {
      var i :| 0 <= i < |rest| && rest[i].id == v;
      assert specs[i + 1].id == v;
    }
  }

  /** Wiring lines into a well-formed graph keeps it well-formed, makes every
      line id a line vertex and leaves every other vertex's kind alone. */
  lemma {:induction false} ConnectWellFormed(g: Graph, specs: seq<LineSpec>)
    requires WellFormed(g)
    requires Attachable(g, specs)
    ensures WellFormed(Connect(g, specs))
    ensures Connect(g, specs).kind.Keys == g.kind.Keys + Ids(specs)
    ensures forall v | v in g.kind :: Connect(g, specs).kind[v] == g.kind[v]
    ensures forall i | 0 <= i < |specs| :: Connect(g, specs).kind[specs[i].id] == Line
    decreases |specs|
  {
    if specs != [] {
      var l := specs[0];
      var g1 := AddLine(g, l);
      var rest := specs[1..];
      AttachableRest(g, specs);
      ConnectWellFormed(g1, rest);
      var r := Connect(g, specs);
      assert r == Connect(g1, rest);
      IdsCons(specs);
      forall i | 0 <= i < |specs|
        ensures r.kind[specs[i].id] == Line
      {
        if i > 0 {
          assert rest[i - 1] == specs[i];
        }
      }
    }
  }

  /** Wiring a line that is new to the graph gives it exactly the neighbours
      and signs of its spec. */
  lemma AddLineIncidence(g: Graph, l: LineSpec)
    requires Bipartite(g) && l.id !in g.kind
    requires l.a != l.id && l.b != l.id
    ensures Incident(AddLine(g, l), l.id) == SpecIncidence(l)
  {
    var g' := AddLine(g, l);
    AdjMembers(g, l.id);
    AdjMembers(g', l.id);
    assert Adj(g', l.id) == {l.a, l.b};
  }

  /** Wiring a line leaves the neighbours of every vertex it does not touch
      alone. */
  lemma AddLineKeepsIncident(g: Graph, l: LineSpec, v: Vertex)
    requires v != l.id && v != l.a && v != l.b
    ensures Incident(AddLine(g, l), v) == Incident(g, v)
  {
    var g' := AddLine(g, l);
    AddLineEdgesFrom(g, l, v);
    AdjMembers(g, v);
    AdjMembers(g', v);
    assert Adj(g', v) == Adj(g, v);
    var m0 := Incident(g, v);
    var m1 := Incident(g', v);
    assert m1.Keys == m0.Keys;
    forall u | u in m0
      ensures m1[u] == m0[u]
    {
      assert m1[u] == g'.edges[(v, u)] && m0[u] == g.edges[(v, u)];
    }
  }

  /** The edges `AddLine` writes all leave `l.id`, `l.a` or `l.b`. */
  lemma AddLineEdgesFrom(g: Graph, l: LineSpec, v: Vertex)
    requires v != l.id && v != l.a && v != l.b
    ensures forall u :: (v, u) in AddLine(g, l).edges <==> (v, u) in g.edges
    ensures forall u | (v, u) in g.edges :: AddLine(g, l).edges[(v, u)] == g.edges[(v, u)]
  {
    var g' := AddLine(g, l);
    forall u
      ensures (v, u) in g'.edges <==> (v, u) in g.edges
      ensures (v, u) in g.edges ==> g'.edges[(v, u)] == g.edges[(v, u)]
    {
      var e := (v, u);
      assert e != (l.a, l.id) && e != (l.id, l.a) && e != (l.b, l.id) && e != (l.id, l.b);
    }
  }

  lemma {:induction false} ConnectKeepsIncident(g: Graph, specs: seq<LineSpec>, v: Vertex)
    requires forall i | 0 <= i < |specs| :: v != specs[i].id && v != specs[i].a && v != specs[i].b
    ensures Incident(Connect(g, specs), v) == Incident(g, v)
    decreases |specs|
  {
    if specs != [] {
      AddLineKeepsIncident(g, specs[0], v);
      var rest := specs[1..];
      forall i | 0 <= i < |rest|
        ensures v != rest[i].id && v != rest[i].a && v != rest[i].b
      {
        assert rest[i] == specs[i + 1];
      }
      ConnectKeepsIncident(AddLine(g, specs[0]), rest, v);
    }
  }

  /** The first line wired keeps exactly the neighbours of its spec. */
  lemma ConnectIncidenceHead(g: Graph, specs: seq<LineSpec>)
    requires WellFormed(g) && Attachable(g, specs) && specs != []
    requires forall i | 0 <= i < |specs| :: specs[i].id !in g.kind
    requires DistinctBy(specs, SpecId)
    ensures Incident(Connect(g, specs), specs[0].id) == SpecIncidence(specs[0])
  {
    var l := specs[0];
    var g1 := AddLine(g, l);
    var rest := specs[1..];
    AddLineIncidence(g, l);
    forall i | 0 <= i < |rest|
      ensures l.id != rest[i].id && l.id != rest[i].a && l.id != rest[i].b
    {
      assert rest[i] == specs[i + 1];
    }
    ConnectKeepsIncident(g1, rest, l.id);
    assert Connect(g, specs) == Connect(g1, rest);
  }

  /** After wiring lines with distinct new ids, each line vertex is adjacent
      to exactly the buses of its spec, with the signs of its spec; no later
      line disturbs an earlier one. */
  lemma {:induction false} ConnectIncidence(g: Graph, specs: seq<LineSpec>, k: nat)
    requires WellFormed(g) && Attachable(g, specs)
    requires forall i | 0 <= i < |specs| :: specs[i].id !in g.kind
    requires DistinctBy(specs, SpecId)
    requires k < |specs|
    ensures Incident(Connect(g, specs), specs[k].id) == SpecIncidence(specs[k])
    decreases |specs|
  {
    if k == 0 {
      ConnectIncidenceHead(g, specs);
    } else {
      var g1 := AddLine(g, specs[0]);
      var rest := specs[1..];
      AttachableRest(g, specs);
      forall i | 0 <= i < |rest|
        ensures rest[i].id !in g1.kind
      {
        assert rest[i] == specs[i + 1];
      }
      ConnectIncidence(g1, rest, k - 1);
      assert rest[k - 1] == specs[k];
      assert Connect(g, specs) == Connect(g1, rest);
    }
  }

  /** `remove_node(v)`: drops the vertex and its incident edges; a vertex that
      is not in the graph raises NetworkXError. */
  function RemoveNode(g: Graph, v: Vertex): (r: Result<Graph>)
    ensures r.Ok? <==> v in g.kind
    ensures r.Err? ==> r.error == NotFound(v)
    ensures r.Ok? ==> r.value.kind == g.kind - {v}
    ensures r.Ok? ==> forall u, w :: (u, w) in r.value.edges <==> (u, w) in g.edges && u != v && w != v
    ensures r.Ok? ==> forall e | e in r.value.edges :: e in g.edges && r.value.edges[e] == g.edges[e]
  {
    if v !in g.kind then Err(NotFound(v))
    else Ok(Graph(g.kind - {v}, DropEdges(g.edges, v)))
  }

  /** The edges that do not touch `v`, with their attributes. */
  function DropEdges(edges: map<(Vertex, Vertex), Option<real>>, v: Vertex): map<(Vertex, Vertex), Option<real>> {
    map e | e in edges && e.0 != v && e.1 != v :: edges[e]
  }

  /** Setting an edge away from `v` commutes with dropping `v`'s edges. */
  lemma DropEdgesKeep(m: map<(Vertex, Vertex), Option<real>>, v: Vertex, e: (Vertex, Vertex), x: Option<real>)
    requires e.0 != v && e.1 != v
    ensures DropEdges(m[e := x], v) == DropEdges(m, v)[e := x]
  {
  }

  /** Setting an edge at `v` is undone by dropping `v`'s edges. */
  lemma DropEdgesForget(m: map<(Vertex, Vertex), Option<real>>, v: Vertex, e: (Vertex, Vertex), x: Option<real>)
    requires e.0 == v || e.1 == v
    ensures DropEdges(m[e := x], v) == DropEdges(m, v)
  {
  }

  /** Dropping the edges of a vertex that has none changes nothing. */
  lemma DropEdgesNone(m: map<(Vertex, Vertex), Option<real>>, v: Vertex)
    requires forall e | e in m :: e.0 != v && e.1 != v
    ensures DropEdges(m, v) == m
  {
  }

  /** `r` is the outcome of `remove_node(v)` on `g`: NotFound exactly when v
      is absent, and otherwise `g` without v and without exactly the edges
      touching v, every other edge keeping its attributes. */
  ghost predicate RemovesVertex(g: Graph, r: Result<Graph>, v: Vertex) {
    && (r.Ok? <==> v in g.kind)
    && (r.Err? ==> r.error == NotFound(v))
    && (r.Ok? ==> r.value.kind == g.kind - {v})
    && (r.Ok? ==> forall u, w :: (u, w) in r.value.edges <==> (u, w) in g.edges && u != v && w != v)
    && (r.Ok? ==> forall e | e in r.value.edges :: e in g.edges && r.value.edges[e] == g.edges[e])
  }

  /** Removal keeps the graph well-formed. */
  lemma RemoveNodeWellFormed(g: Graph, v: Vertex)
    requires WellFormed(g) && RemoveNode(g, v).Ok?
    ensures WellFormed(RemoveNode(g, v).value)
  {
    var g' := RemoveNode(g, v).value;
    forall e | e in g'.edges
      ensures (e.1, e.0) in g'.edges && g'.edges[(e.1, e.0)] == g'.edges[e]
    {
      assert (e.1, e.0) in g.edges;
    }
  }

  /** Removal keeps the graph well-formed, and every remaining vertex keeps
      all its edges except the one to the removed vertex. */
  lemma RemoveNodeKeepsRest(g: Graph, v: Vertex, u: Vertex)
    requires WellFormed(g) && RemoveNode(g, v).Ok?
    requires u != v
    ensures WellFormed(RemoveNode(g, v).value)
    ensures Incident(RemoveNode(g, v).value, u) == Incident(g, u) - {v}
  {
    RemoveNodeWellFormed(g, v);
    var g' := RemoveNode(g, v).value;
    AdjMembers(g, u);
    AdjMembers(g', u);
    assert Adj(g', u) == Adj(g, u) - {v};
  }

  /** Removing a vertex that a line does not touch commutes with wiring the
      line. */
  lemma RemoveAddLineOther(g: Graph, l: LineSpec, x: Vertex)
    requires x in g.kind && x != l.id && x != l.a && x != l.b
    ensures RemoveNode(AddLine(g, l), x) == Ok(AddLine(RemoveNode(g, x).value, l))
  {
    var m0 := g.edges;
    var m1 := m0[(l.a, l.id) := Some(l.signA)];
    var m2 := m1[(l.id, l.a) := Some(l.signA)];
    var m3 := m2[(l.b, l.id) := Some(l.signB)];
    DropEdgesKeep(m0, x, (l.a, l.id), Some(l.signA));
    DropEdgesKeep(m1, x, (l.id, l.a), Some(l.signA));
    DropEdgesKeep(m2, x, (l.b, l.id), Some(l.signB));
    DropEdgesKeep(m3, x, (l.id, l.b), Some(l.signB));
    assert g.kind[l.id := Line] - {x} == (g.kind - {x})[l.id := Line];
  }

  /** Removing a line just wired into a bipartite graph that did not have it
      gives back the graph. */
  lemma RemoveAddLineSelf(g: Graph, l: LineSpec)
    requires Bipartite(g) && l.id !in g.kind
    requires l.a != l.id && l.b != l.id
    ensures RemoveNode(AddLine(g, l), l.id) == Ok(g)
  {
    var m0 := g.edges;
    var m1 := m0[(l.a, l.id) := Some(l.signA)];
    var m2 := m1[(l.id, l.a) := Some(l.signA)];
    var m3 := m2[(l.b, l.id) := Some(l.signB)];
    DropEdgesForget(m0, l.id, (l.a, l.id), Some(l.signA));
    DropEdgesForget(m1, l.id, (l.id, l.a), Some(l.signA));
    DropEdgesForget(m2, l.id, (l.b, l.id), Some(l.signB));
    DropEdgesForget(m3, l.id, (l.id, l.b), Some(l.signB));
    DropEdgesNone(m0, l.id);
    assert g.kind[l.id := Line] - {l.id} == g.kind;
  }

  /** Removing a vertex that none of the lines touches commutes with wiring
      them. */
  lemma {:induction false} ConnectRemoveOther(g: Graph, specs: seq<LineSpec>, x: Vertex)
    requires x in g.kind
    requires forall i | 0 <= i < |specs| :: x != specs[i].id && x != specs[i].a && x != specs[i].b
    ensures RemoveNode(Connect(g, specs), x) == Ok(Connect(RemoveNode(g, x).value, specs))
    decreases |specs|
  {
    if specs != [] {
      var h := RemoveNode(g, x).value;
      var g1 := AddLine(g, specs[0]);
      var rest := specs[1..];
      RemoveAddLineOther(g, specs[0], x);
      forall i | 0 <= i < |rest|
        ensures x != rest[i].id && x != rest[i].a && x != rest[i].b
      {
        assert rest[i] == specs[i + 1];
      }
      ConnectRemoveOther(g1, rest, x);
      assert Connect(g, specs) == Connect(g1, rest);
      assert Connect(h, specs) == Connect(AddLine(h, specs[0]), rest);
    }
  }

  /** After wiring lines with distinct new ids, removing line k gives the
      graph wired without line k. */
  lemma {:induction false} ConnectRemoveLine(g: Graph, specs: seq<LineSpec>, k: nat)
    requires WellFormed(g) && Attachable(g, specs)
    requires forall i | 0 <= i < |specs| :: specs[i].id !in g.kind
    requires DistinctBy(specs, SpecId)
    requires k < |specs|
    ensures RemoveNode(Connect(g, specs), specs[k].id) == Ok(Connect(g, specs[..k] + specs[k + 1..]))
    decreases |specs|
  {
    if k == 0 {
      ConnectRemoveFirst(g, specs);
      assert specs[..0] + specs[1..] == specs[1..];
    } else {
      var g1 := AddLine(g, specs[0]);
      var rest := specs[1..];
      RestFresh(g, specs);
      ConnectRemoveLine(g1, rest, k - 1);
      DropAfterHead(specs, k);
      assert Connect(g, specs) == Connect(g1, rest);
    }
  }

  /** Removing the first line wired gives the graph wired with the rest. */
  lemma ConnectRemoveFirst(g: Graph, specs: seq<LineSpec>)
    requires WellFormed(g) && Attachable(g, specs) && specs != []
    requires forall i | 0 <= i < |specs| :: specs[i].id !in g.kind
    requires DistinctBy(specs, SpecId)
    ensures RemoveNode(Connect(g, specs), specs[0].id) == Ok(Connect(g, specs[1..]))
  {
    var l := specs[0];
    var g1 := AddLine(g, l);
    var rest := specs[1..];
    forall i | 0 <= i < |rest|
      ensures l.id != rest[i].id && l.id != rest[i].a && l.id != rest[i].b
    {
      assert rest[i] == specs[i + 1];
    }
    ConnectRemoveOther(g1, rest, l.id);
    RemoveAddLineSelf(g, l);
    assert Connect(g, specs) == Connect(g1, rest);
  }

  /** After wiring the first line, the rest still have distinct ids new to
      the graph. */
  lemma RestFresh(g: Graph, specs: seq<LineSpec>)
    requires WellFormed(g) && Attachable(g, specs) && specs != []
    requires forall i | 0 <= i < |specs| :: specs[i].id !in g.kind
    requires DistinctBy(specs, SpecId)
    ensures WellFormed(AddLine(g, specs[0])) && Attachable(AddLine(g, specs[0]), specs[1..])
    ensures forall i | 0 <= i < |specs[1..]| :: specs[1..][i].id !in AddLine(g, specs[0]).kind
    ensures DistinctBy(specs[1..], SpecId)
  {
    AttachableRest(g, specs);
    var rest := specs[1..];
    forall i | 0 <= i < |rest|
      ensures rest[i].id !in AddLine(g, specs[0]).kind
    {
      assert rest[i] == specs[i + 1];
    }
    forall i, j | 0 <= i < j < |rest|
      ensures rest[i].id != rest[j].id
    {
      assert rest[i] == specs[i + 1] && rest[j] == specs[j + 1];
    }
  }

  /** Dropping element k > 0 keeps the head and drops element k - 1 of the
      tail. */
  lemma DropAfterHead<T>(xs: seq<T>, k: nat)
    requires 0 < k < |xs|
    ensures (xs[..k] + xs[k + 1..])[0] == xs[0]
    ensures (xs[..k] + xs[k + 1..])[1..] == xs[1..][..k - 1] + xs[1..][k..]
    ensures xs[1..][k - 1] == xs[k]
  {
    var kept := xs[..k] + xs[k + 1..];
    var rest := xs[1..];
    assert kept[1..] == rest[..k - 1] + rest[k..];
  }

  /** The kind a neighbour of a vertex of kind `k` has. */
  function Other(k: Kind): Kind {
    if k == Bus then Line else Bus
  }

  /** In a bipartite graph the neighbours of vertices of one kind all have
      the other kind. */
  lemma NeighbourhoodKind(g: Graph, s: set<Vertex>, k: Kind)
    requires Bipartite(g)
    requires forall v | v in s :: v in g.kind && g.kind[v] == k
    ensures forall v | v in Neighbourhood(g, s) :: v in g.kind && g.kind[v] == Other(k)
  {
  }

  /** In a bipartite graph every neighbour is a vertex of the graph. */
  lemma NeighbourhoodInGraph(g: Graph, s: set<Vertex>)
    requires Bipartite(g)
    ensures Neighbourhood(g, s) <= g.kind.Keys
  {
  }

  /** The endpoints of the walks of exactly `k` edges that start in `s`. */
  function Reach(g: Graph, s: set<Vertex>, k: nat): set<Vertex>
    decreases k
  {
    if k == 0 then s else Neighbourhood(g, Reach(g, s, k - 1))
  }

  /** A larger start set has a larger neighbourhood. */
  lemma NeighbourhoodMonotone(g: Graph, s: set<Vertex>, t: set<Vertex>)
    requires s <= t
    ensures Neighbourhood(g, s) <= Neighbourhood(g, t)
  {
  }
}
