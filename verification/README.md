# Effective resistance by a Lanczos-style recurrence on a bus/line graph

This project models, in Dafny, the algorithmic core of `utils.py`: the two
graph classes `HamiltonianGrid` (a synthetic n-by-n grid) and `EuropeanGrid`
(a real network given as a bus table and a line table). Both classes compute
an effective resistance between two terminal buses in three stages.

1. **Topology.** Every physical line becomes a vertex of its own (type
   "line"). It is joined to its two bus vertices (type "node") by edges
   with opposite signs: +1/-1 on the grid, and +sqrt(1/length)/-sqrt(1/length)
   on the real network. `remove_element` deletes a bus or a line by a
   constructed id.
2. **Recurrence.** `calculate_q_i` and `iterate_qs` start from the two
   terminals. Each later step applies the signed adjacency to the
   neighbours of the previous snapshot. It subtracts beta times the
   snapshot two back, drops exact zeros, and normalises by the 2-norm
   beta.
3. **Aggregation.** The code then computes:
   - the kappa coefficients (`calculate_kappa`);
   - the kappa-weighted sum of the line snapshots (`calculate_psi_approx`);
   - the running sums of the squared kappas (`psi_approx_squared`);
   - their reciprocals, the effective resistances (`calculate_effective_resistances`).

The model is functional. A graph is a map from vertex to kind plus a map of
edge attributes. Each undirected edge is stored under both orientations, as
networkx does. A snapshot is a `map<Vertex, real>`. The snapshots and
betas of `iterate_qs` form a `Trace`. Python exceptions become
`Result` values:
- `NotFound` for a KeyError or NetworkXError on a missing vertex;
- `DivisionByZero`;
- `UnboundLineId` for the UnboundLocalError of `create_network`.

Floats are modelled as exact `real`s. The square root (`x**0.5`) is a
function parameter `sqrt`, assumed to be a non-negative root wherever a
property needs one (`Reals.IsSqrt`).

Modules and files:
- `wrappers.dfy`: `Option`, `Result` and the error values.
- `names.dfy`: decimal rendering of integers for vertex ids (`f"{r}"`),
  `str.upper`, and the injectivity facts about ids.
- `reals.dfy`: squares, the abstract root, and finite sums over a set of
  keys.
- `topology.dfy`: the graph, `get_edge_sign`, wiring a line,
  `remove_node`, neighbourhoods.
- `square_grid.dfy`: `HamiltonianGrid.create_network` and its
  `remove_element`.
- `european_grid.dfy`: `EuropeanGrid.build_from_pypsa` and its
  `remove_element`.
- `recurrence.dfy`: `calculate_q_i` and `iterate_qs`. Both classes hold
  identical copies; they differ only in how the terminal ids are spelt,
  which is a parameter here.
- `aggregation.dfy`: `calculate_kappa`, `calculate_psi_approx`,
  `psi_approx_squared` and `calculate_effective_resistances`.

Three behaviours of the code are worth knowing before reading the
contracts:
- `iterate_qs` never stops early. A zero beta yields an empty snapshot,
  and every later snapshot is empty with beta 0.
- The kappa ratio is `betas[2j] / betas[2j+1]`, indexing the 0-based
  `betas` list (utils.py:424-425).
- When both terminals are the same vertex, the seed keeps only `ew/beta_1`,
  since the later key of the dict literal wins (utils.py:343-344).

## Model

| member | source | states |
|---|---|---|
| Topology.EdgeSign | utils.py:90-92 | `get_edge_sign(u, v)` succeeds exactly when u is a vertex and (u, v) an edge. It yields the edge's `sign` attribute, or 1 when there is none. |
| Topology.EdgeSignSymmetric | utils.py:317-319 | On a well-formed graph the sign read from u towards v and from v towards u is the same, and one lookup fails exactly when the other does. |
| Topology.AddLineWellFormed | utils.py:267-283 | Adding a line vertex with its two edges to buses keeps the graph symmetric and bipartite by vertex type. |
| Topology.ConnectWellFormed | utils.py:34-56 | Wiring a sequence of lines between existing buses gives a well-formed graph. Its vertices are the old ones plus the line ids, all of kind Line, and no old vertex changes kind. |
| Topology.ConnectIncidence | utils.py:38-56 | After wiring lines with distinct fresh ids, line k is adjacent to exactly its two ends, with the two signs of its spec. When both ends coincide, the later edge's sign wins. |
| Topology.RemoveNode | utils.py:321-326 | `remove_node(v)` fails with NotFound exactly when v is absent. Otherwise it removes v and exactly the edges touching v, and leaves every other edge's attribute as it was. |
| Topology.RemoveNodeWellFormed | utils.py:321-326 | Removing a vertex from a well-formed graph leaves it symmetric and bipartite. |
| Topology.RemoveNodeKeepsRest | utils.py:94-99 | Removing a vertex keeps the graph well-formed. Every other vertex keeps all its neighbours and signs except the removed one. |
| Topology.ConnectRemoveLine | utils.py:321-326 | Removing the k-th of a sequence of freshly wired lines with distinct ids gives exactly the graph wired without it. |
| Topology.NeighbourhoodKind | utils.py:348-350 | In a bipartite graph the neighbours of vertices of one kind are all of the other kind. |
| Topology.NeighbourhoodInGraph | utils.py:348-350 | In a bipartite graph every neighbour is a vertex of the graph. |
| SquareGrid.CreateNetwork | utils.py:22-61 | `create_network(n)` raises UnboundLocalError exactly when n == 1, and raises nothing else. Otherwise it returns a well-formed graph whose vertices are the grid's buses and lines. A size of 0 or below builds the empty graph, as `range` of a non-positive number is empty. |
| SquareGrid.UnboundOnlyForSizeOne | utils.py:35-58 | Some cell appends `line_id` before any line has bound it exactly when n == 1. From n >= 2 the first cell already binds it, and for n == 0 no cell runs. |
| SquareGrid.SegmentsExactlyOnce | utils.py:35-56 | The nested loops create every horizontal and vertical segment of the n-by-n grid, and nothing else. No two of them share a line id, so no `add_node` of a line merges with an earlier one. |
| SquareGrid.SquareGridShape | utils.py:24-56 | The grid graph is well-formed. Its vertices are exactly the n*n buses `N_r_c` (kind Bus) and the lines `L_h_r_c` / `L_v_r_c` inside the grid (kind Line). |
| SquareGrid.SquareGridLine | utils.py:38-56 | Every grid line is adjacent to exactly two distinct buses of the grid, with signs s and -s where s is 1 or -1. |
| SquareGrid.RemoveElement | utils.py:94-99 | Type "N" or "n" fails with NotFound exactly when `N_x_y` is absent. Otherwise it drops exactly that vertex and the edges touching it, and every other edge survives with its sign. Type "L" or "l" does the same for `L_o_x_y`. Any other type leaves the graph unchanged. |
| SquareGrid.RemoveGridBus | utils.py:94-97 | Removing a grid bus by its coordinates succeeds. It drops exactly that vertex and its edges, keeps every other edge with its sign, and leaves a well-formed graph. |
| SquareGrid.RemoveGridLine | utils.py:94-99 | Removing a grid line by its coordinates and orientation tag succeeds. It drops exactly that vertex and its two edges, keeps every other edge with its sign, and leaves a well-formed graph. |
| EuropeanGrid.AddRecordsOutcome | utils.py:264-283 | The line loop succeeds exactly when every row names two present buses and has a non-zero length. It then equals wiring every row's spec in table order. |
| EuropeanGrid.AddRecords | utils.py:264-283 | The line loop fails only with ZeroDivisionError or KeyError. A KeyError names an absent `N_bus0` or `N_bus1` of some row, and a ZeroDivisionError implies some row has length 0. |
| EuropeanGrid.BuildFromPypsa | utils.py:252-286 | `build_from_pypsa` succeeds exactly when every line row names two listed buses and has a non-zero length. A KeyError names an unlisted bus of some row. A built network is well-formed, its vertices are exactly `N_b` for every bus (kind Bus) and `L_l` for every line (kind Line), and it equals wiring every row in table order. |
| EuropeanGrid.BuildLineIncidence | utils.py:264-283 | With distinct line ids, line vertex `L_l` is adjacent to exactly `N_bus0` with sign s and `N_bus1` with sign -s. When the two buses coincide, -s wins. Here s = sqrt(1/length) > 0, and the length is positive. |
| EuropeanGrid.RemoveElement | utils.py:321-326 | As written: type "N" or "n" removes the vertex `"{country_code} {index}"` and type "L" or "l" removes `L_{index}`. Each fails with NotFound exactly when its vertex is absent. Otherwise it drops that vertex and exactly the edges touching it, and every other edge keeps its sign. Any other type leaves the graph unchanged. |
| EuropeanGrid.RemoveLineRebuilds | utils.py:321-326 | With distinct line ids, removing line `L_{id}` of row k from a built network gives exactly the network built (utils.py lines 264-283) from the table without row k. |
| EuropeanGrid.RemoveBusAsWrittenFails | utils.py:321-324 | On every built network, type "N" fails with NotFound whenever the country code's second character is not `_`, so that the formed name `"{country_code} {index}"` can start with neither `N_` nor `L_`. |
| EuropeanGrid.RemoveBusAsWrittenExample | web_client/app.py:270-279 | The bus "DE1 0", which the web client splits into country code "DE1" and index "0", exists and still cannot be removed. |
| EuropeanGrid.RemoveElementIntended | utils.py:321-326 | Corrected: type "N" or "n" removes `N_{country_code} {index}`, or `N_{index}` when no country code is given. It fails with NotFound exactly when that vertex is absent, and otherwise drops it and exactly its edges, every other edge keeping its sign. Type "L" and other types behave as written. |
| EuropeanGrid.RemoveBusIntended | utils.py:321-324 | The corrected type "N" succeeds exactly for a listed bus. It drops exactly that bus vertex and its edges, keeps every other edge with its sign, and leaves a well-formed graph. |
| EuropeanGrid.RemoveLineIntended | utils.py:321-326 | Type "L" is unchanged by the correction. It succeeds exactly for the id of a listed line, drops exactly `L_id` and its edges, keeps every other edge with its sign, and leaves a well-formed graph. |
| Recurrence.Seed | utils.py:332-346 | Step 1 fails with DivisionByZero exactly when iw == ew == 0. Otherwise it fails with NotFound for the first missing terminal. On success beta_1 > 0 and beta_1^2 = iw^2 + ew^2. The snapshot's keys are the two terminals, with weights iw/beta_1 and ew/beta_1; the extraction weight wins when the two coincide. |
| Recurrence.SeedNormalised | utils.py:335-345 | With distinct terminals the seed snapshot's squared weights sum to 1. |
| Recurrence.SeedSameTerminal | utils.py:343-344 | With one terminal for both roles the seed holds only ew/beta_1. Its norm falls short of 1 whenever iw != 0. |
| Recurrence.ApplyOffCandidates | utils.py:348-360 | On a symmetric graph `h_qi` is 0 at every vertex outside the neighbourhood of the previous snapshot, because no neighbour of such a vertex is in that snapshot. |
| Recurrence.TempWeightsOffCandidates | utils.py:348-371 | At step 2 the vertices visited cover the whole product H·q: outside them `h_qi` is 0. From step 3 on, the back term `-betas[i-2] * q[i-3].get(v, 0)` of a vertex outside them is dropped, as that vertex is never visited. |
| Recurrence.Normalise | utils.py:374-386 | beta >= 0 and beta^2 is the sum of the squared residuals. The snapshot keeps the residuals' keys, stores no zero, and holds each residual divided by beta. beta is 0 exactly when there is nothing to store. |
| Recurrence.NextSnapshot | utils.py:348-386 | A step i >= 2 writes only neighbours of the previous support: exactly those whose residual `h - betas[i-2] * q[i-3].get(v, 0)` is non-zero, each holding residual/beta. It stores no zero, and beta is 0 exactly when the snapshot is empty. |
| Recurrence.NextSnapshotNormalised | utils.py:374-386 | A step with positive beta produces a snapshot whose squared weights sum to 1. |
| Recurrence.EmptyStaysEmpty | utils.py:348-386 | After an empty snapshot the next step is empty with beta 0, whatever the snapshot two back. |
| Recurrence.IterateQs | utils.py:393-396 | `iterate_qs` fails exactly when q_N > 0 and the seed fails, with the seed's error. Otherwise it returns exactly q_N snapshots and betas, the seed first. |
| Recurrence.IterateQsRecurs | utils.py:393-396 | Every entry after the first is step i applied to the previous entry, with `betas[i-2]` and the snapshot two back. |
| Recurrence.IterateQsNormalised | utils.py:374-396 | Every beta is >= 0 and beta_1 > 0. Every snapshot with positive beta has unit norm (the seed's when the terminals differ). After the seed no snapshot stores a zero, and a beta is 0 exactly when its snapshot is empty. |
| Recurrence.IterateQsEmptyPropagates | utils.py:393-396 | Once a snapshot after the seed is empty, every later one is empty with beta 0. The loop runs on without stopping. |
| Recurrence.IterateQsLocal | utils.py:348-350 | Each snapshot lies within the neighbours of the previous one's support, so snapshot j lies within j edges of the terminals. |
| Recurrence.IterateQsAlternates | utils.py:348-372 | With both terminals buses of a bipartite graph, even-indexed snapshots hold only buses and odd-indexed ones only lines. |
| Aggregation.CalculateKappa | utils.py:417-431 | The loops yield one kappa per pair of betas (half their count, rounded down). The first is iw/betas[1], and each next one is the previous times -betas[2m]/betas[2m+1]. |
| Aggregation.KappaClosedForm | utils.py:422-428 | The closed form `(-1)**(i-1) * (iw/betas[1]) * product_ratios` equals the kappa recurrence for every i. |
| Aggregation.KappaOverrideAgrees | utils.py:427-430 | The `i == 1` override assigns the value the general formula already gives. |
| Aggregation.KappaSign | utils.py:417-431 | With positive betas, `(-1)**(m-1) * kappa_m` has the sign of iw, and every kappa is 0 when iw is. |
| Aggregation.AddScaled | utils.py:441-442 | One pair's update succeeds exactly when the line snapshot's keys are all vertices of the accumulator; otherwise it fails with NotFound on a key of the snapshot missing from it. On success every vertex keeps its key and gains kappa times the snapshot's `.get(v, 0)`. |
| Aggregation.PsiPartial | utils.py:435-442 | After m pairs the accumulator has a key for every vertex, holding the sum over the first m pairs of kappa times the line snapshot's `.get(v, 0)`. It fails with NotFound exactly when some line snapshot holds a vertex outside the graph. |
| Aggregation.CalculatePsiApprox | utils.py:433-444 | As written: the returned map is the full kappa-weighted sum over all pairs. Every slot of `self.psis` equals that same final map. |
| Aggregation.CalculatePsiApproxIntended | utils.py:433-444 | Corrected: the same returned map, with slot i of the history holding the sum over the first i+1 pairs. |
| Aggregation.PsiHistoryAliased | utils.py:434-443 | A two-pair input on which slot 0 reads 0 as written instead of the first-order sum 1. |
| Aggregation.PsiSucceeds | utils.py:435-442 | On any trace of `iterate_qs` over a bipartite graph every line snapshot lies inside the graph, so the accumulation raises no KeyError. |
| Aggregation.PsiOnLinesOnly | utils.py:438-442 | With bus terminals on a bipartite graph, every partial psi sum is 0 at every bus: psi is non-zero only on line vertices. |
| Aggregation.PsiIntendedOnLines | utils.py:433-444 | The returned psi and every slot of the corrected history are 0 at every bus under the same conditions. |
| Aggregation.PsiApproxSquared | utils.py:451-454 | `np.cumsum(kappas**2)` has one entry per kappa. Entry i is the sum of the first i+1 squares; every entry is >= 0 and the entries are non-decreasing. |
| Aggregation.SumSquaresPositive | utils.py:451-454 | A non-zero first kappa (iw != 0) makes every running sum positive. |
| Aggregation.EffectiveResistances | utils.py:456-461 | One resistance per running sum, each its reciprocal (r[i] * s[i] == 1). |
| Aggregation.ResistancesDecrease | utils.py:456-461 | Positive, non-decreasing running sums give positive, non-increasing resistances. |

## Left out

- Drawing and export (`draw_network`, `save_graph_json`) are left out; they are matplotlib, pyvis and JSON file I/O.
- The per-vertex `weight` attribute (`apply_q_i`, `apply_psi_to_graph`, the writes inside `calculate_q_i`) is left out. It is presentation only; the model returns the snapshots and psi maps themselves.
- The `_nodes` and `_lines` bookkeeping lists are left out. The append in `create_network` matters only through the UnboundLocalError it can raise, which is modelled.
- Vertex positions, `name` and `country` attributes and `self.pos` are left out; nothing in the core reads them.
- PyPSA tables are taken as a list of bus ids and a list of `(id, bus0, bus1, length)` rows. The midpoint position lookup is kept only as its KeyError on a missing bus.
- IEEE floats are modelled as exact reals, with the root `x**0.5` as an abstract `sqrt`. Rounding, overflow and numpy's inf/nan are not modelled.
- Aggregation.CalculateKappa requires the odd-indexed betas it divides by to be non-zero. numpy would produce inf or nan there rather than raise.
- Aggregation.CalculateKappa reads the number of pairs from `betas`, where `calculate_kappa` reads it from `len(self.q_snapshots) // 2` (utils.py:418-419). The two lists have the same length on every result of `iterate_qs`, as `Recurrence.IterateQs` states (q_N snapshots, aligned with q_N betas).
- Aggregation.EffectiveResistances requires non-zero running sums, for the same reason.
- EuropeanGrid.BuildFromPypsa requires non-negative lengths. A negative length makes Python's `(1/length)**0.5` a complex number, which has no counterpart here; a zero length is modelled as ZeroDivisionError.
- EuropeanGrid.BuildLineIncidence: is stated only for tables with distinct line ids, as a PyPSA line index is unique. With repeated ids the later row's edges merge into the earlier one's vertex.
- Aggregation.AddScaled: on a missing key the error names some missing vertex, not necessarily the first in dict iteration order. Dict order is not modelled.
- The order in which sets and dicts are iterated is not modelled. Sums run over key sets, which gives the same value over the reals.
- The kappas are a parameter of the psi functions (`Aggregation.PsiPartial`, `Aggregation.CalculatePsiApprox`), whereas `calculate_psi_approx` calls `self.calculate_kappa()` itself (utils.py:437). The model does not tie the two together: `Aggregation.CalculateKappa` states that the kappas it returns are `Kappa(iw, betas, m+1)`, and the psi lemmas hold for whatever kappas they are given.
- The terminal ids are parameters of `Recurrence.Seed`. `HamiltonianGrid` spells them `N_{ix}_{iy}` and `EuropeanGrid` spells them `N_{ix}`.
- `web_client/app.py` (Flask routes, process-global state) and `web_client/static/app.js` (browser UI) are left out. The call shape the web client uses for removal appears only in EuropeanGrid.RemoveBusAsWrittenExample.

## Findings

| source | as written | input that shows it | evidently intended | confidence | as-written member | corrected member |
|---|---|---|---|---|---|---|
| utils.py:35-58 | `self._lines.append(line_id)` sits after both `if` blocks, so a cell that creates no line reads `line_id`. In the one-cell grid no line ever binds it. | `create_network(1)` raises UnboundLocalError | a 1-by-1 grid with one bus and no lines | not executed | SquareGrid.CreateNetwork | SquareGrid.SquareGridShape |
| utils.py:321-324 | type "N" removes `"{country_code} {index}"`, without the `N_` prefix every bus vertex carries | bus `DE1 0` (vertex `N_DE1 0`) removed as `remove_element("N", "0", "DE1")`, the call the web client makes: NotFound | remove vertex `N_{country_code} {index}`; with no country code, `N_{index}` (as written, that case forms `" {index}"`) | not executed | EuropeanGrid.RemoveBusAsWrittenFails | EuropeanGrid.RemoveBusIntended |
| utils.py:434-443 | every slot of `self.psis` is the same dict `psi_app`, so all slots end up holding the final sum | kappas [1, -1] with line snapshots `{L_1: 1}` and `{L_1: 1}`: slot 0 reads 0 instead of 1 | slot i holds the sum over the first i+1 pairs | not executed | Aggregation.PsiHistoryAliased | Aggregation.CalculatePsiApproxIntended |
