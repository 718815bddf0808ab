/** `HamiltonianGrid`: the synthetic n-by-n grid. Buses are `N_r_c`; the
    horizontal line `L_h_r_c` joins `N_r_c` (sign +1) to `N_r_(c+1)`
    (sign -1); the vertical line `L_v_r_c` joins `N_r_c` (sign -1) to
    `N_(r+1)_c` (sign +1). */
module SquareGrid {
  import opened Wrappers
  import opened Names
  import opened Topology

  datatype Orientation = H | V

  /** The line leaving cell (r, c) rightwards (H) or downwards (V). */
  datatype Segment = Segment(o: Orientation, r: nat, c: nat)

  function Coords(r: nat, c: nat): string {
    NatStr(r) + "_" + NatStr(c)
  }

  function BusName(r: nat, c: nat): Vertex {
    "N_" + Coords(r, c)
  }

  function Tag(o: Orientation): string {
    match o
    case H => "h"
    case V => "v"
  }

  function LineName(s: Segment): Vertex {
    "L_" + Tag(s.o) + "_" + Coords(s.r, s.c)
  }

  /** The bus vertex a terminal at grid position (x, y) refers to. */
  function Terminal(x: int, y: int): Vertex {
    "N_" + IntStr(x) + "_" + IntStr(y)
  }

  function SegmentSpec(s: Segment): LineSpec {
    match s.o
    case H => LineSpec(LineName(s), BusName(s.r, s.c), 1.0, BusName(s.r, s.c + 1), -1.0)
    case V => LineSpec(LineName(s), BusName(s.r, s.c), -1.0, BusName(s.r + 1, s.c), 1.0)
  }

  /** The segment lies inside an n-by-n grid. */
  predicate InGrid(n: nat, s: Segment) {
    match s.o
    case H => s.r < n && s.c + 1 < n
    case V => s.r + 1 < n && s.c < n
  }

  /** The lines created while visiting cell (r, c): horizontal first. */
  function CellSegments(n: nat, r: nat, c: nat): seq<Segment> {
    (if c < n - 1 then [Segment(H, r, c)] else []) + (if r < n - 1 then [Segment(V, r, c)] else [])
  }

  function ColsFrom(n: nat, r: nat, c: nat): seq<Segment>
    decreases n - c
  {
    if c >= n then [] else CellSegments(n, r, c) + ColsFrom(n, r, c + 1)
  }

  function RowsFrom(n: nat, r: nat): seq<Segment>
    decreases n - r
  {
    if r >= n then [] else ColsFrom(n, r, 0) + RowsFrom(n, r + 1)
  }

  /** The lines in the order the nested `for r` / `for c` loops create them. */
  function Segments(n: nat): seq<Segment> {
    RowsFrom(n, 0)
  }

  function Specs(segs: seq<Segment>): (specs: seq<LineSpec>)
    ensures |specs| == |segs|
    ensures forall i | 0 <= i < |segs| :: specs[i] == SegmentSpec(segs[i])
  {
    if segs == [] then [] else [SegmentSpec(segs[0])] + Specs(segs[1..])
  }

  function BusSet(n: nat): set<Vertex> {
    set r: nat, c: nat | r < n && c < n :: BusName(r, c)
  }

  function Buses(n: nat): Graph {
    Graph(map v | v in BusSet(n) :: Bus, map[])
  }

  /** The graph `create_network(n)` builds when it does not fail. */
  function SquareGrid(n: nat): Graph {
    Connect(Buses(n), Specs(Segments(n)))
  }

  /** Whether `line_id` is bound at every `self._lines.append(line_id)` of
      the cells from (r, c) on, `bound` saying whether an earlier cell bound
      it. The append sits after both `if` blocks, so a cell that creates no
      line appends the previous cell's id. */
  function AppendsBound(n: nat, r: nat, c: nat, bound: bool): bool
    decreases n - r, n - c
  {
    if r >= n then true
    else if c >= n then AppendsBound(n, r + 1, 0, bound)
    else
      var bound' := bound || c < n - 1 || r < n - 1;
      bound' && AppendsBound(n, r, c + 1, bound')
  }

  /** The number of rows and columns `range(grid_size)` visits. */
  function Size(n: int): nat {
    if n < 0 then 0 else n
  }

  /** `create_network(n)` as written: the grid, or UnboundLocalError when
      some append finds `line_id` unbound, which happens for the one-cell
      grid alone. A negative size leaves both loops empty, as size 0 does. */
  function CreateNetwork(n: int): (r: Result<Graph>)
    ensures r.Ok? <==> n != 1
    ensures r.Err? ==> r.error == UnboundLineId
    ensures r.Ok? ==> r.value == SquareGrid(Size(n))
    ensures r.Ok? ==> WellFormed(r.value) && r.value.kind.Keys == BusSet(Size(n)) + LineSet(Size(n))
    ensures n <= 0 ==> r == Ok(Graph(map[], map[]))
  {
    var m := Size(n);
    UnboundOnlyForSizeOne(m);
    SquareGridShape(m);
    if AppendsBound(m, 0, 0, false) then Ok(SquareGrid(m)) else Err(UnboundLineId)
  }

  lemma {:induction false} BoundStaysBound(n: nat, r: nat, c: nat)
    ensures AppendsBound(n, r, c, true)
    decreases n - r, n - c
  {
    if r < n {
      if c >= n {
        BoundStaysBound(n, r + 1, 0);
      } else {
        BoundStaysBound(n, r, c + 1);
      }
    }
  }

  /** Some append finds `line_id` unbound exactly in the one-cell grid: its
      only cell creates no line, while in a larger grid cell (0, 0) already
      creates one. */
  lemma UnboundOnlyForSizeOne(n: nat)
    ensures !AppendsBound(n, 0, 0, false) <==> n == 1
  {
    if n >= 2 {
      BoundStaysBound(n, 0, 1);
    }
  }

  /** `remove_element(type, x, y, o)` of the grid: "N" removes bus
      `N_x_y`, "L" removes line `L_o_x_y`, in either case; any other type
      leaves the graph as it is. */
  function RemoveElement(g: Graph, t: string, x: int, y: int, o: string): (r: Result<Graph>)
    ensures t == "N" || t == "n" ==> RemovesVertex(g, r, Terminal(x, y))
    ensures t == "L" || t == "l" ==> RemovesVertex(g, r, LineId(x, y, o))
    ensures t != "N" && t != "n" && t != "L" && t != "l" ==> r == Ok(g)
  {
    UpperIsLetter(t, 'N');
    UpperIsLetter(t, 'L');
    var t' := Upper(t);
    if t' == "N" then RemoveNode(g, Terminal(x, y))
    else if t' == "L" then RemoveNode(g, LineId(x, y, o))
    else Ok(g)
  }

  /** The line id `remove_element("L", x, y, o)` forms. */
  function LineId(x: int, y: int, o: string): Vertex {
    "L_" + o + "_" + IntStr(x) + "_" + IntStr(y)
  }

  /** The lines of one cell lie in that cell and have distinct names. */
  lemma CellNamesDistinct(n: nat, r: nat, c: nat)
    ensures forall s | s in CellSegments(n, r, c) :: s.r == r && s.c == c
    ensures DistinctBy(CellSegments(n, r, c), LineName)
  {
    var cell := CellSegments(n, r, c);
    forall i, j | 0 <= i < j < |cell|
      ensures LineName(cell[i]) != LineName(cell[j])
    {
      if LineName(cell[i]) == LineName(cell[j]) {
        LineNameInjective(cell[i], cell[j]);
      }
    }
  }

  /** Segments that no two sequences share have names they do not share. */
  lemma NamesApart(xs: seq<Segment>, ys: seq<Segment>)
    requires forall x, y | x in xs && y in ys :: x != y
    ensures forall x, y | x in xs && y in ys :: LineName(x) != LineName(y)
  {
    forall x, y | x in xs && y in ys
      ensures LineName(x) != LineName(y)
    {
      if LineName(x) == LineName(y) {
        LineNameInjective(x, y);
      }
    }
  }

  lemma {:induction false} ColsFromMembers(n: nat, r: nat, c: nat)
    requires r < n
    ensures forall s :: s in ColsFrom(n, r, c) <==> InGrid(n, s) && s.r == r && c <= s.c
    decreases n - c
  {
    if c < n {
      ColsFromMembers(n, r, c + 1);
    }
  }

  /** No line of cell (r, c) shares its name with a line further right. */
  lemma CellApart(n: nat, r: nat, c: nat)
    requires r < n && c < n
    ensures forall x, y | x in CellSegments(n, r, c) && y in ColsFrom(n, r, c + 1) :: LineName(x) != LineName(y)
  {
    ColsFromMembers(n, r, c + 1);
    CellNamesDistinct(n, r, c);
    NamesApart(CellSegments(n, r, c), ColsFrom(n, r, c + 1));
  }

  lemma {:induction false} ColsFromDistinct(n: nat, r: nat, c: nat)
    requires r < n
    ensures DistinctBy(ColsFrom(n, r, c), LineName)
    decreases n - c
  {
    if c < n {
      ColsFromDistinct(n, r, c + 1);
      CellNamesDistinct(n, r, c);
      CellApart(n, r, c);
      ConcatDistinct(CellSegments(n, r, c), ColsFrom(n, r, c + 1), LineName);
    }
  }

  lemma {:induction false} RowsFromMembers(n: nat, r: nat)
    ensures forall s :: s in RowsFrom(n, r) <==> InGrid(n, s) && r <= s.r
    decreases n - r
  {
    if r < n {
      ColsFromMembers(n, r, 0);
      RowsFromMembers(n, r + 1);
    }
  }

  lemma {:induction false} RowsFromDistinct(n: nat, r: nat)
    ensures DistinctBy(RowsFrom(n, r), LineName)
    decreases n - r
  {
    if r < n {
      ColsFromDistinct(n, r, 0);
      RowsFromDistinct(n, r + 1);
      ColsFromMembers(n, r, 0);
      RowsFromMembers(n, r + 1);
      NamesApart(ColsFrom(n, r, 0), RowsFrom(n, r + 1));
      ConcatDistinct(ColsFrom(n, r, 0), RowsFrom(n, r + 1), LineName);
    }
  }

  /** The nested loops create every line of the grid, and nothing else, and
      no line id twice. */
  lemma SegmentsExactlyOnce(n: nat)
    ensures forall s :: s in Segments(n) <==> InGrid(n, s)
    ensures DistinctBy(Segments(n), LineName)
  {
    RowsFromMembers(n, 0);
    RowsFromDistinct(n, 0);
  }

  lemma BusNameInjective(r: nat, c: nat, r': nat, c': nat)
    requires BusName(r, c) == BusName(r', c')
    ensures r == r' && c == c'
  {
    DropPrefix("N_", Coords(r, c), Coords(r', c'));
    NumberPairInjective(r, c, r', c');
  }

  lemma LineNameInjective(s: Segment, t: Segment)
    requires LineName(s) == LineName(t)
    ensures s == t
  {
    assert LineName(s)[2] == Tag(s.o)[0];
    assert LineName(t)[2] == Tag(t.o)[0];
    assert s.o == t.o;
    var p := "L_" + Tag(s.o) + "_";
    assert LineName(s) == p + Coords(s.r, s.c);
    assert LineName(t) == p + Coords(t.r, t.c);
    DropPrefix(p, Coords(s.r, s.c), Coords(t.r, t.c));
    NumberPairInjective(s.r, s.c, t.r, t.c);
  }

  lemma BusSetStartsWithN(n: nat)
    ensures forall v | v in BusSet(n) :: 0 < |v| && v[0] == 'N'
  {
  }

  lemma BusesKind(n: nat)
    ensures Buses(n).kind.Keys == BusSet(n)
    ensures forall v | v in Buses(n).kind :: Buses(n).kind[v] == Bus
    ensures WellFormed(Buses(n))
  {
  }

  /** Both ends of a grid line are buses of the grid; its id is not. */
  lemma SegmentFits(n: nat, s: Segment)
    requires InGrid(n, s)
    ensures SegmentSpec(s).id == LineName(s)
    ensures SegmentSpec(s).a in BusSet(n) && SegmentSpec(s).b in BusSet(n)
    ensures SegmentSpec(s).id !in BusSet(n)
  {
    BusSetStartsWithN(n);
    assert LineName(s)[0] == 'L';
  }

  /** The grid's line specs fit the bus graph with distinct, fresh ids. */
  lemma GridSpecsFit(n: nat)
    ensures Attachable(Buses(n), Specs(Segments(n)))
    ensures forall i | 0 <= i < |Specs(Segments(n))| :: Specs(Segments(n))[i].id !in Buses(n).kind
    ensures DistinctBy(Specs(Segments(n)), SpecId)
  {
    var segs := Segments(n);
    var specs := Specs(segs);
    SegmentsExactlyOnce(n);
    BusesKind(n);
    forall i | 0 <= i < |specs|
      ensures specs[i].a in Buses(n).kind && Buses(n).kind[specs[i].a] == Bus
      ensures specs[i].b in Buses(n).kind && Buses(n).kind[specs[i].b] == Bus
      ensures specs[i].id !in Buses(n).kind
    {
      assert segs[i] in segs;
      SegmentFits(n, segs[i]);
    }
    forall i, j | 0 <= i < j < |specs|
      ensures SpecId(specs[i]) != SpecId(specs[j])
    {
      assert LineName(segs[i]) != LineName(segs[j]);
    }
  }

  /** The line vertices of the n-by-n grid. */
  function LineSet(n: nat): set<Vertex> {
    set s | s in Segments(n) :: LineName(s)
  }

  lemma GridIds(n: nat)
    ensures Ids(Specs(Segments(n))) == LineSet(n)
  {
    var segs := Segments(n);
    var specs := Specs(segs);
    forall v | v in Ids(specs)
      ensures v in LineSet(n)
    {
      var i :| 0 <= i < |specs| && specs[i].id == v;
      assert segs[i] in segs;
    }
    forall v | v in LineSet(n)
      ensures v in Ids(specs)
    {
      var s :| s in segs && LineName(s) == v;
      var i :| 0 <= i < |segs| && segs[i] == s;
      assert specs[i].id == v;
    }
  }

  /** `create_network` builds a bipartite graph whose vertices are the n*n
      buses `N_r_c` and the lines `L_h_r_c` / `L_v_r_c` of the grid, each
      with its type. */
  lemma SquareGridShape(n: nat)
    ensures WellFormed(SquareGrid(n))
    ensures SquareGrid(n).kind.Keys == BusSet(n) + LineSet(n)
    ensures forall v | v in BusSet(n) :: SquareGrid(n).kind[v] == Bus
    ensures forall v | v in LineSet(n) :: SquareGrid(n).kind[v] == Line
    ensures forall s :: s in Segments(n) <==> InGrid(n, s)
  {
    var specs := Specs(Segments(n));
    GridSpecsFit(n);
    BusesKind(n);
    ConnectWellFormed(Buses(n), specs);
    GridIds(n);
    SegmentsExactlyOnce(n);
    forall v | v in LineSet(n)
      ensures SquareGrid(n).kind[v] == Line
    {
      var i :| 0 <= i < |specs| && specs[i].id == v;
    }
  }

  /** The line vertex of a grid segment is incident to exactly the two ends
      of its spec. */
  lemma GridLineIncidence(n: nat, s: Segment)
    requires InGrid(n, s)
    ensures Incident(SquareGrid(n), LineName(s)) == SpecIncidence(SegmentSpec(s))
  {
    var segs := Segments(n);
    var specs := Specs(segs);
    GridSpecsFit(n);
    BusesKind(n);
    SegmentsExactlyOnce(n);
    var k :| 0 <= k < |segs| && segs[k] == s;
    assert specs[k] == SegmentSpec(s);
    ConnectIncidence(Buses(n), specs, k);
  }

  /** Every line of the grid is adjacent to exactly its two neighbouring
      buses, through edges of sign +1 and -1. */
  lemma SquareGridLine(n: nat, s: Segment)
    requires InGrid(n, s)
    ensures var l := SegmentSpec(s);
      && Incident(SquareGrid(n), LineName(s)) == map[l.a := Some(l.signA), l.b := Some(l.signB)]
      && l.a != l.b
      && l.a in SquareGrid(n).kind && SquareGrid(n).kind[l.a] == Bus
      && l.b in SquareGrid(n).kind && SquareGrid(n).kind[l.b] == Bus
      && l.signB == -l.signA && (l.signA == 1.0 || l.signA == -1.0)
  {
    var l := SegmentSpec(s);
    GridLineIncidence(n, s);
    SegmentFits(n, s);
    SegmentEndsDistinct(s);
    GridBusKind(n, l.a);
    GridBusKind(n, l.b);
  }

  lemma SegmentEndsDistinct(s: Segment)
    ensures SegmentSpec(s).a != SegmentSpec(s).b
  {
    match s.o
    case H =>
      if BusName(s.r, s.c) == BusName(s.r, s.c + 1) {
        BusNameInjective(s.r, s.c, s.r, s.c + 1);
      }
    case V =>
      if BusName(s.r, s.c) == BusName(s.r + 1, s.c) {
        BusNameInjective(s.r, s.c, s.r + 1, s.c);
      }
  }

  lemma GridBusKind(n: nat, v: Vertex)
    requires v in BusSet(n)
    ensures v in SquareGrid(n).kind && SquareGrid(n).kind[v] == Bus
  {
    SquareGridShape(n);
  }

  /** The id `remove_element("N", x, y)` forms for a grid position is the
      name of the bus there. */
  lemma TerminalIsBusName(r: nat, c: nat)
    ensures Terminal(r, c) == BusName(r, c)
  {
    assert IntStr(r) == NatStr(r) && IntStr(c) == NatStr(c);
    calc {
      Terminal(r, c);
      "N_" + NatStr(r) + "_" + NatStr(c);
      { assert "N_" + NatStr(r) + "_" + NatStr(c) == "N_" + (NatStr(r) + "_" + NatStr(c)); }
      BusName(r, c);
    }
  }

  /** The id `remove_element("L", x, y, o)` forms with the orientation tag of
      a segment is the name of that segment's line. */
  lemma LineIdIsLineName(s: Segment)
    ensures LineId(s.r, s.c, Tag(s.o)) == LineName(s)
  {
    var p := "L_" + Tag(s.o) + "_";
    assert IntStr(s.r) == NatStr(s.r) && IntStr(s.c) == NatStr(s.c);
    assert p + NatStr(s.r) + "_" + NatStr(s.c) == p + (NatStr(s.r) + "_" + NatStr(s.c));
  }

  /** Removing bus (r, c) of the grid by type "N" succeeds and takes exactly
      that bus and its edges. */
  lemma RemoveGridBus(n: nat, r: nat, c: nat, o: string)
    requires r < n && c < n
    ensures RemoveElement(SquareGrid(n), "N", r, c, o).Ok?
    ensures RemovesVertex(SquareGrid(n), RemoveElement(SquareGrid(n), "N", r, c, o), BusName(r, c))
    ensures WellFormed(RemoveElement(SquareGrid(n), "N", r, c, o).value)
  {
    TerminalIsBusName(r, c);
    SquareGridShape(n);
    assert BusName(r, c) in BusSet(n);
    RemoveNodeWellFormed(SquareGrid(n), BusName(r, c));
  }

  /** Removing a grid line by type "L" with its orientation tag succeeds and
      takes exactly that line and its edges. */
  lemma RemoveGridLine(n: nat, s: Segment)
    requires InGrid(n, s)
    ensures RemoveElement(SquareGrid(n), "L", s.r, s.c, Tag(s.o)).Ok?
    ensures RemovesVertex(SquareGrid(n), RemoveElement(SquareGrid(n), "L", s.r, s.c, Tag(s.o)), LineName(s))
    ensures WellFormed(RemoveElement(SquareGrid(n), "L", s.r, s.c, Tag(s.o)).value)
  {
    LineIdIsLineName(s);
    SquareGridShape(n);
    RemoveNodeWellFormed(SquareGrid(n), LineName(s));
  }
}
