/** `EuropeanGrid`: a real network given as a bus table and a line table.
    Bus `b` becomes vertex `N_b`; line `l` from `bus0` to `bus1` becomes
    vertex `L_l`, joined to `N_bus0` with sign +sqrt(1/length) and to
    `N_bus1` with sign -sqrt(1/length). */
module EuropeanGrid {
  import opened Wrappers
  import opened Names
  import opened Reals
  import opened Topology

  /** A row of the line table; `length` is absent when the row has none. */
  datatype LineRecord = LineRecord(id: string, bus0: string, bus1: string, length: Option<real>)

  function BusVertex(b: string): Vertex {
    "N_" + b
  }

  function LineVertex(l: string): Vertex {
    "L_" + l
  }

  /** `float(row.get('length', 1.0))`. */
  function Length(l: LineRecord): real {
    l.length.GetOr(1.0)
  }

  /** No line has a negative length (its `(1/length)**0.5` would be complex). */
  ghost predicate NonNegativeLengths(lines: seq<LineRecord>) {
    forall i | 0 <= i < |lines| :: 0.0 <= Length(lines[i])
  }

  function BusSet(buses: seq<string>): set<Vertex> {
    set b | b in buses :: BusVertex(b)
  }

  function LineSet(lines: seq<LineRecord>): set<Vertex> {
    set i | 0 <= i < |lines| :: LineVertex(lines[i].id)
  }

  function Buses(buses: seq<string>): Graph {
    Graph(map v | v in BusSet(buses) :: Bus, map[])
  }

  /** The wiring of one line once its conductance root is known. */
  function RecordSpec(l: LineRecord, root: real): LineSpec {
    LineSpec(LineVertex(l.id), BusVertex(l.bus0), root, BusVertex(l.bus1), -root)
  }

  /** The line loop of `build_from_pypsa`. Each row first looks up the
      position of both buses (KeyError when a bus is missing), then computes
      `(1/length)**0.5` (ZeroDivisionError on a zero length), then adds the
      line vertex and its two edges. */
  function AddRecords(g: Graph, sqrt: real -> real, lines: seq<LineRecord>): (r: Result<Graph>)
    requires NonNegativeLengths(lines)
    ensures r.Err? ==> r.error == DivisionByZero || r.error.NotFound?
    ensures r.Err? && r.error.NotFound? ==>
              && r.error.id !in g.kind
              && exists i | 0 <= i < |lines| :: r.error.id == BusVertex(lines[i].bus0) || r.error.id == BusVertex(lines[i].bus1)
    ensures r.Err? && r.error == DivisionByZero ==> exists i | 0 <= i < |lines| :: Length(lines[i]) == 0.0
    decreases |lines|
  {
    if lines == [] then Ok(g)
    else
      var l := lines[0];
      if BusVertex(l.bus0) !in g.kind then Err(NotFound(BusVertex(l.bus0)))
      else if BusVertex(l.bus1) !in g.kind then Err(NotFound(BusVertex(l.bus1)))
      else if Length(l) == 0.0 then Err(DivisionByZero)
      else
        var r := AddRecords(AddLine(g, RecordSpec(l, sqrt(1.0 / Length(l)))), sqrt, lines[1..]);
        assert forall i | 0 <= i < |lines[1..]| :: lines[1..][i] == lines[i + 1];
        r
  }

  /** `build_from_pypsa`: the buses, then the lines in table order. It
      succeeds exactly when every row names two listed buses and has a
      non-zero length, and then builds a well-formed graph with a Bus vertex
      `N_b` per listed bus and a Line vertex `L_l` per row. A failure names
      an unlisted bus of some row, or is the division by a zero length. */
  function BuildFromPypsa(buses: seq<string>, lines: seq<LineRecord>, sqrt: real -> real): (r: Result<Graph>)
    requires NonNegativeLengths(lines)
    ensures r.Ok? <==> ValidRecords(buses, lines)
    ensures r.Err? ==> r.error == DivisionByZero || r.error.NotFound?
    ensures r.Err? && r.error.NotFound? ==> exists i | 0 <= i < |lines| ::
              || (r.error.id == BusVertex(lines[i].bus0) && lines[i].bus0 !in buses)
              || (r.error.id == BusVertex(lines[i].bus1) && lines[i].bus1 !in buses)
    ensures r.Ok? ==> r.value == Connect(Buses(buses), RecordSpecs(lines, sqrt))
    ensures r.Ok? ==> WellFormed(r.value) && r.value.kind.Keys == BusSet(buses) + LineSet(lines)
    ensures r.Ok? ==> forall b | b in buses :: r.value.kind[BusVertex(b)] == Bus
    ensures r.Ok? ==> forall i | 0 <= i < |lines| :: r.value.kind[LineVertex(lines[i].id)] == Line
  {
    BuildFacts(buses, lines, sqrt);
    AddRecords(Buses(buses), sqrt, lines)
  }

  /** The line specs the loop wires when no row fails. */
  function RecordSpecs(lines: seq<LineRecord>, sqrt: real -> real): (specs: seq<LineSpec>)
    requires NonNegativeLengths(lines)
    ensures |specs| == |lines|
    ensures forall i | 0 <= i < |lines| :: specs[i] == RecordSpec(lines[i], Root(lines[i], sqrt))
    ensures forall i | 0 <= i < |lines| :: Length(lines[i]) != 0.0 ==>
              specs[i] == RecordSpec(lines[i], sqrt(1.0 / Length(lines[i])))
  {
    if lines == [] then []
    else [RecordSpec(lines[0], Root(lines[0], sqrt))] + RecordSpecs(lines[1..], sqrt)
  }

  /** `(1/length)**0.5`; 0 stands in for a zero length, which the loop never
      reaches. */
  function Root(l: LineRecord, sqrt: real -> real): real {
    if Length(l) == 0.0 then 0.0 else sqrt(1.0 / Length(l))
  }

  /** Every row names two listed buses and has a non-zero length. */
  ghost predicate ValidRecords(buses: seq<string>, lines: seq<LineRecord>) {
    forall i | 0 <= i < |lines| ::
      lines[i].bus0 in buses && lines[i].bus1 in buses && Length(lines[i]) != 0.0
  }

  lemma BusVertexInjective(a: string, b: string)
    requires BusVertex(a) == BusVertex(b)
    ensures a == b
  {
    DropPrefix("N_", a, b);
  }

  lemma BusSetMembers(buses: seq<string>)
    ensures forall b :: BusVertex(b) in BusSet(buses) <==> b in buses
    ensures forall v | v in BusSet(buses) :: 0 < |v| && v[0] == 'N'
  {
    forall b | BusVertex(b) in BusSet(buses)
      ensures b in buses
    {
      var b' :| b' in buses && BusVertex(b') == BusVertex(b);
      BusVertexInjective(b, b');
    }
  }

  /** Adding a line never adds or removes a bus vertex. */
  lemma AddLineKeepsBuses(g: Graph, l: LineRecord, root: real, b: string)
    ensures BusVertex(b) in AddLine(g, RecordSpec(l, root)).kind <==> BusVertex(b) in g.kind
  {
    assert LineVertex(l.id)[0] != BusVertex(b)[0];
  }

  lemma {:induction false} AddRecordsOutcome(g: Graph, sqrt: real -> real, lines: seq<LineRecord>)
    requires NonNegativeLengths(lines)
    ensures AddRecords(g, sqrt, lines).Ok? <==>
              forall i | 0 <= i < |lines| ::
                BusVertex(lines[i].bus0) in g.kind && BusVertex(lines[i].bus1) in g.kind && Length(lines[i]) != 0.0
    ensures AddRecords(g, sqrt, lines).Ok? ==> AddRecords(g, sqrt, lines).value == Connect(g, RecordSpecs(lines, sqrt))
    decreases |lines|
  {
    if lines != [] {
      var l := lines[0];
      var rest := lines[1..];
      if BusVertex(l.bus0) in g.kind && BusVertex(l.bus1) in g.kind && Length(l) != 0.0 {
        var g1 := AddLine(g, RecordSpec(l, sqrt(1.0 / Length(l))));
        AddRecordsOutcome(g1, sqrt, rest);
        forall i | 0 <= i < |rest|
          ensures BusVertex(rest[i].bus0) in g1.kind <==> BusVertex(rest[i].bus0) in g.kind
          ensures BusVertex(rest[i].bus1) in g1.kind <==> BusVertex(rest[i].bus1) in g.kind
        {
          AddLineKeepsBuses(g, l, sqrt(1.0 / Length(l)), rest[i].bus0);
          AddLineKeepsBuses(g, l, sqrt(1.0 / Length(l)), rest[i].bus1);
        }
        forall i | 0 <= i < |rest|
          ensures rest[i] == lines[i + 1]
        {
        }
        assert RecordSpecs(lines, sqrt) == [RecordSpec(l, sqrt(1.0 / Length(l)))] + RecordSpecs(rest, sqrt);
      }
    }
  }

  /** The line loop over the bus-only graph succeeds exactly on valid
      records, and then wires every row into a graph of the expected shape. */
  lemma BuildFacts(buses: seq<string>, lines: seq<LineRecord>, sqrt: real -> real)
    requires NonNegativeLengths(lines)
    ensures var r := AddRecords(Buses(buses), sqrt, lines);
      && (r.Ok? <==> ValidRecords(buses, lines))
      && (r.Ok? ==> r.value == Connect(Buses(buses), RecordSpecs(lines, sqrt)))
      && (r.Ok? ==> WellFormed(r.value) && r.value.kind.Keys == BusSet(buses) + LineSet(lines))
      && (r.Ok? ==> forall b | b in buses :: r.value.kind[BusVertex(b)] == Bus)
      && (r.Ok? ==> forall i | 0 <= i < |lines| :: r.value.kind[LineVertex(lines[i].id)] == Line)
    ensures forall b :: BusVertex(b) in Buses(buses).kind <==> b in buses
  {
    AddRecordsOutcome(Buses(buses), sqrt, lines);
    BusSetMembers(buses);
    if ValidRecords(buses, lines) {
      RecordsShape(buses, lines, sqrt);
    }
  }

  lemma LineVertexInjective(a: string, b: string)
    requires LineVertex(a) == LineVertex(b)
    ensures a == b
  {
    DropPrefix("L_", a, b);
  }

  /** The index of a line row. */
  function RowId(l: LineRecord): string {
    l.id
  }

  lemma RecordSpecsFit(buses: seq<string>, lines: seq<LineRecord>, sqrt: real -> real)
    requires NonNegativeLengths(lines) && ValidRecords(buses, lines)
    ensures Attachable(Buses(buses), RecordSpecs(lines, sqrt))
    ensures forall i | 0 <= i < |lines| :: RecordSpecs(lines, sqrt)[i].id !in Buses(buses).kind
    ensures Ids(RecordSpecs(lines, sqrt)) == LineSet(lines)
    ensures DistinctBy(lines, RowId) ==> DistinctBy(RecordSpecs(lines, sqrt), SpecId)
  {
    var specs := RecordSpecs(lines, sqrt);
    BusSetMembers(buses);
    forall i | 0 <= i < |lines|
      ensures specs[i].a in Buses(buses).kind && Buses(buses).kind[specs[i].a] == Bus
      ensures specs[i].b in Buses(buses).kind && Buses(buses).kind[specs[i].b] == Bus
      ensures specs[i].id !in Buses(buses).kind
    {
      assert specs[i].id[0] == 'L';
    }
    forall i | 0 <= i < |lines|
      ensures specs[i].id == LineVertex(lines[i].id)
    {
    }
    if DistinctBy(lines, RowId) {
      forall i, j | 0 <= i < j < |specs|
        ensures specs[i].id != specs[j].id
      {
        if specs[i].id == specs[j].id {
          LineVertexInjective(lines[i].id, lines[j].id);
        }
      }
    }
  }

  /** The bus-only graph: one Bus vertex `N_b` per listed bus, no edges. */
  lemma BusesShape(buses: seq<string>)
    ensures WellFormed(Buses(buses))
    ensures Buses(buses).kind.Keys == BusSet(buses)
    ensures forall v | v in Buses(buses).kind :: Buses(buses).kind[v] == Bus
  {
  }

  /** Wiring valid records into the bus-only graph gives a well-formed
      graph whose vertices are the buses and the lines. */
  lemma RecordsKeys(buses: seq<string>, lines: seq<LineRecord>, sqrt: real -> real)
    requires NonNegativeLengths(lines) && ValidRecords(buses, lines)
    ensures var g := Connect(Buses(buses), RecordSpecs(lines, sqrt));
      && WellFormed(g)
      && g.kind.Keys == BusSet(buses) + LineSet(lines)
      && (forall v | v in Buses(buses).kind :: g.kind[v] == Bus)
      && (forall i | 0 <= i < |lines| :: g.kind[RecordSpecs(lines, sqrt)[i].id] == Line)
  {
    var specs := RecordSpecs(lines, sqrt);
    BusesShape(buses);
    RecordSpecsFit(buses, lines, sqrt);
    ConnectWellFormed(Buses(buses), specs);
  }

  /** ... and every bus has kind Bus, every line kind Line. */
  lemma RecordsShape(buses: seq<string>, lines: seq<LineRecord>, sqrt: real -> real)
    requires NonNegativeLengths(lines) && ValidRecords(buses, lines)
    ensures var g := Connect(Buses(buses), RecordSpecs(lines, sqrt));
      && WellFormed(g)
      && g.kind.Keys == BusSet(buses) + LineSet(lines)
      && (forall b | b in buses :: g.kind[BusVertex(b)] == Bus)
      && (forall i | 0 <= i < |lines| :: g.kind[LineVertex(lines[i].id)] == Line)
  {
    var specs := RecordSpecs(lines, sqrt);
    var g := Connect(Buses(buses), specs);
    RecordsKeys(buses, lines, sqrt);
    forall b | b in buses
      ensures g.kind[BusVertex(b)] == Bus
    {
      assert BusVertex(b) in BusSet(buses);
    }
    forall i | 0 <= i < |lines|
      ensures g.kind[LineVertex(lines[i].id)] == Line
    {
      assert Length(lines[i]) != 0.0;
    }
  }

  /** With distinct line ids, each line vertex `L_l` is adjacent to exactly
      `N_bus0` with sign s and `N_bus1` with sign -s, where s is the positive
      root of 1/length (`Reals.InverseRoot`). When both ends are the same bus the later edge wins
      and only the sign -s remains. */
  lemma BuildLineIncidence(buses: seq<string>, lines: seq<LineRecord>, sqrt: real -> real, g: Graph, k: nat)
    requires NonNegativeLengths(lines)
    requires IsSqrt(sqrt)
    requires BuildFromPypsa(buses, lines, sqrt) == Ok(g)
    requires DistinctBy(lines, RowId)
    requires k < |lines|
    ensures 0.0 < Length(lines[k])
    ensures var s := sqrt(1.0 / Length(lines[k]));
      && Incident(g, LineVertex(lines[k].id)) == map[BusVertex(lines[k].bus0) := Some(s)][BusVertex(lines[k].bus1) := Some(-s)]
      && 0.0 < s
  {
    RecordIncidence(buses, lines, sqrt, k);
    InverseRoot(sqrt, Length(lines[k]));
  }

  /** Wiring valid records: line k keeps `N_bus0` with the root of
      1/length and `N_bus1` with its negation. */
  lemma {:induction false} RecordIncidence(buses: seq<string>, lines: seq<LineRecord>, sqrt: real -> real, k: nat)
    requires NonNegativeLengths(lines) && ValidRecords(buses, lines)
    requires DistinctBy(lines, RowId)
    requires k < |lines|
    ensures 0.0 < Length(lines[k])
    ensures var s := sqrt(1.0 / Length(lines[k]));
      Incident(Connect(Buses(buses), RecordSpecs(lines, sqrt)), LineVertex(lines[k].id))
        == map[BusVertex(lines[k].bus0) := Some(s)][BusVertex(lines[k].bus1) := Some(-s)]
  {
    RecordSpecsFit(buses, lines, sqrt);
    ConnectIncidence(Buses(buses), RecordSpecs(lines, sqrt), k);
  }

  /** `remove_element` as written: type "N" removes the vertex named
      `"{country_code} {index}"`, type "L" removes `L_{index}`, and any other
      type is ignored. */
  function RemoveElement(g: Graph, t: string, index: string, countryCode: string): (r: Result<Graph>)
    ensures t == "N" || t == "n" ==> RemovesVertex(g, r, countryCode + " " + index)
    ensures t == "L" || t == "l" ==> RemovesVertex(g, r, LineVertex(index))
    ensures t != "N" && t != "n" && t != "L" && t != "l" ==> r == Ok(g)
  {
    UpperIsLetter(t, 'N');
    UpperIsLetter(t, 'L');
    if Upper(t) == "N" then RemoveNode(g, countryCode + " " + index)
    else if Upper(t) == "L" then RemoveNode(g, LineVertex(index))
    else Ok(g)
  }

  /** Removing a bus as written fails on every built network whenever the
      name it forms cannot begin with `N_` or `L_`: every vertex of the
      network begins with one of those. */
  lemma RemoveBusAsWrittenFails(buses: seq<string>, lines: seq<LineRecord>, sqrt: real -> real, index: string, countryCode: string)
    requires NonNegativeLengths(lines)
    requires BuildFromPypsa(buses, lines, sqrt).Ok?
    requires |countryCode| < 2 || countryCode[1] != '_'
    ensures RemoveElement(BuildFromPypsa(buses, lines, sqrt).value, "N", index, countryCode)
              == Err(NotFound(countryCode + " " + index))
  {
    var v := countryCode + " " + index;
    VertexNames(buses, lines);
    assert Upper("N") == "N";
    assert v[0] == ' ' || v[1] != '_';
  }

  /** The bus `DE1 0` of a one-bus network, removed through the country code
      `DE1` and index `0` that the web client passes, is not found. */
  lemma RemoveBusAsWrittenExample(sqrt: real -> real)
    ensures BuildFromPypsa(["DE1 0"], [], sqrt).Ok?
    ensures BusVertex("DE1 0") in BuildFromPypsa(["DE1 0"], [], sqrt).value.kind
    ensures RemoveElement(BuildFromPypsa(["DE1 0"], [], sqrt).value, "N", "0", "DE1").Err?
  {
    BusSetMembers(["DE1 0"]);
    RemoveBusAsWrittenFails(["DE1 0"], [], sqrt, "0", "DE1");
  }

  /** The bus id a removal request names: `"{country_code} {index}"`, or the
      bare index when no country code is given. */
  function RequestedBus(index: string, countryCode: string): string {
    if countryCode == "" then index else countryCode + " " + index
  }

  /** `remove_element` as evidently intended: type "N" removes the bus vertex
      `N_{bus id}`. */
  function RemoveElementIntended(g: Graph, t: string, index: string, countryCode: string): (r: Result<Graph>)
    ensures t == "N" || t == "n" ==> RemovesVertex(g, r, BusVertex(RequestedBus(index, countryCode)))
    ensures t == "L" || t == "l" ==> r == RemoveElement(g, t, index, countryCode)
    ensures t != "N" && t != "n" && t != "L" && t != "l" ==> r == Ok(g)
  {
    UpperIsLetter(t, 'N');
    UpperIsLetter(t, 'L');
    if Upper(t) == "N" then RemoveNode(g, BusVertex(RequestedBus(index, countryCode)))
    else if Upper(t) == "L" then RemoveNode(g, LineVertex(index))
    else Ok(g)
  }

  /** Bus vertices begin with `N_`, line vertices with `L_`, and `L_x` is a
      line vertex exactly when some row has id x. */
  lemma VertexNames(buses: seq<string>, lines: seq<LineRecord>)
    ensures forall v | v in BusSet(buses) :: |v| >= 2 && v[0] == 'N' && v[1] == '_'
    ensures forall v | v in LineSet(lines) :: |v| >= 2 && v[0] == 'L' && v[1] == '_'
    ensures forall x :: LineVertex(x) in LineSet(lines) <==> exists i | 0 <= i < |lines| :: lines[i].id == x
  {
    forall x | LineVertex(x) in LineSet(lines)
      ensures exists i | 0 <= i < |lines| :: lines[i].id == x
    {
      var i :| 0 <= i < |lines| && LineVertex(lines[i].id) == LineVertex(x);
      LineVertexInjective(lines[i].id, x);
    }
  }

  /** On a built network the intended removal of type "N" succeeds exactly
      for a listed bus, and takes away that bus vertex alone. */
  lemma RemoveBusIntended(buses: seq<string>, lines: seq<LineRecord>, sqrt: real -> real, t: string, index: string, countryCode: string)
    requires NonNegativeLengths(lines)
    requires BuildFromPypsa(buses, lines, sqrt).Ok?
    requires Upper(t) == "N"
    ensures var g := BuildFromPypsa(buses, lines, sqrt).value;
      var r := RemoveElementIntended(g, t, index, countryCode);
      && (r.Ok? <==> RequestedBus(index, countryCode) in buses)
      && RemovesVertex(g, r, BusVertex(RequestedBus(index, countryCode)))
      && (r.Ok? ==> WellFormed(r.value))
  {
    var g := BuildFromPypsa(buses, lines, sqrt).value;
    var v := BusVertex(RequestedBus(index, countryCode));
    BusSetMembers(buses);
    VertexNames(buses, lines);
    assert v[0] == 'N';
    if v in g.kind {
      RemoveNodeWellFormed(g, v);
    }
  }

  /** On a built network the removal of type "L" succeeds exactly for the id
      of a listed line, and takes away that line vertex alone. */
  lemma RemoveLineIntended(buses: seq<string>, lines: seq<LineRecord>, sqrt: real -> real, t: string, index: string, countryCode: string)
    requires NonNegativeLengths(lines)
    requires BuildFromPypsa(buses, lines, sqrt).Ok?
    requires Upper(t) == "L"
    ensures var g := BuildFromPypsa(buses, lines, sqrt).value;
      var r := RemoveElementIntended(g, t, index, countryCode);
      && r == RemoveElement(g, t, index, countryCode)
      && (r.Ok? <==> exists i | 0 <= i < |lines| :: lines[i].id == index)
      && RemovesVertex(g, r, LineVertex(index))
      && (r.Ok? ==> WellFormed(r.value))
  {
    var g := BuildFromPypsa(buses, lines, sqrt).value;
    var v := LineVertex(index);
    VertexNames(buses, lines);
    assert v[0] == 'L';
    if v in g.kind {
      RemoveNodeWellFormed(g, v);
    }
  }

  /** The table without row k. */
  function Without<T>(xs: seq<T>, k: nat): (ys: seq<T>)
    requires k < |xs|
    ensures |ys| == |xs| - 1
    ensures forall i | 0 <= i < |ys| :: ys[i] == xs[if i < k then i else i + 1]
  {
    xs[..k] + xs[k + 1..]
  }

  /** Removing the line of row k from a built network by type "L" gives the
      network built from the table without row k. */
  lemma RemoveLineRebuilds(buses: seq<string>, lines: seq<LineRecord>, sqrt: real -> real, k: nat, countryCode: string)
    requires NonNegativeLengths(lines)
    requires DistinctBy(lines, RowId)
    requires k < |lines|
    requires BuildFromPypsa(buses, lines, sqrt).Ok?
    ensures NonNegativeLengths(Without(lines, k))
    ensures RemoveElement(BuildFromPypsa(buses, lines, sqrt).value, "L", lines[k].id, countryCode)
              == BuildFromPypsa(buses, Without(lines, k), sqrt)
  {
    var kept := Without(lines, k);
    var g := BuildFromPypsa(buses, lines, sqrt).value;
    assert ValidRecords(buses, kept);
    RemoveRecordSpec(buses, lines, sqrt, k);
    assert Upper("L") == "L";
    assert RemoveElement(g, "L", lines[k].id, countryCode) == RemoveNode(g, LineVertex(lines[k].id));
    assert BuildFromPypsa(buses, kept, sqrt) == Ok(Connect(Buses(buses), RecordSpecs(kept, sqrt)));
  }

  /** The graph-level half: removing the k-th spec's vertex from the wired
      network leaves the network wired from the other rows. */
  lemma RemoveRecordSpec(buses: seq<string>, lines: seq<LineRecord>, sqrt: real -> real, k: nat)
    requires NonNegativeLengths(lines) && ValidRecords(buses, lines)
    requires DistinctBy(lines, RowId)
    requires k < |lines|
    ensures NonNegativeLengths(Without(lines, k))
    ensures RemoveNode(Connect(Buses(buses), RecordSpecs(lines, sqrt)), LineVertex(lines[k].id))
              == Ok(Connect(Buses(buses), RecordSpecs(Without(lines, k), sqrt)))
  {
    var specs := RecordSpecs(lines, sqrt);
    RecordSpecsWithout(lines, sqrt, k);
    BusesShape(buses);
    RecordSpecsFit(buses, lines, sqrt);
    ConnectRemoveLine(Buses(buses), specs, k);
  }

  /** Dropping a row keeps every length non-negative. */
  lemma WithoutNonNegative(lines: seq<LineRecord>, k: nat)
    requires NonNegativeLengths(lines) && k < |lines|
    ensures NonNegativeLengths(Without(lines, k))
  {
    var kept := Without(lines, k);
    forall i | 0 <= i < |kept|
      ensures 0.0 <= Length(kept[i])
    {
      assert kept[i] == lines[if i < k then i else i + 1];
    }
  }

  /** Dropping a row drops its spec. */
  lemma RecordSpecsWithout(lines: seq<LineRecord>, sqrt: real -> real, k: nat)
    requires NonNegativeLengths(lines) && k < |lines|
    ensures NonNegativeLengths(Without(lines, k))
    ensures RecordSpecs(Without(lines, k), sqrt) == Without(RecordSpecs(lines, sqrt), k)
  {
    WithoutNonNegative(lines, k);
    var a := RecordSpecs(Without(lines, k), sqrt);
    var b := Without(RecordSpecs(lines, sqrt), k);
    forall i | 0 <= i < |a|
      ensures a[i] == b[i]
    {
      SpecWithout(lines, sqrt, k, i);
    }
  }

  /** Entry i of the specs without row k is the spec of entry i of the rows
      without row k. */
  lemma SpecWithout(lines: seq<LineRecord>, sqrt: real -> real, k: nat, i: nat)
    requires NonNegativeLengths(lines) && k < |lines|
    requires NonNegativeLengths(Without(lines, k)) && i < |lines| - 1
    ensures RecordSpecs(Without(lines, k), sqrt)[i] == Without(RecordSpecs(lines, sqrt), k)[i]
  {
    var j := if i < k then i else i + 1;
    var kept := Without(lines, k);
    assert kept[i] == lines[j];
    assert RecordSpecs(kept, sqrt)[i] == RecordSpec(kept[i], Root(kept[i], sqrt));
    assert RecordSpecs(lines, sqrt)[j] == RecordSpec(lines[j], Root(lines[j], sqrt));
  }
}
